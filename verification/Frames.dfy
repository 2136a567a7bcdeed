/** The wire frame, its incremental decoder and the stream of frames on a connection (src/protocol/frame.rs). */
module Frames {
  import opened Bytes

  const MAGIC: Byte := 0xCA
  const MAX_FRAME_SIZE: nat := 16 * 1024 * 1024
  const MIN_HEADER_SIZE: nat := 17
  const MAX_TOPIC: nat := 255

  datatype ApiKey = Produce | Fetch | ProduceBatch | Error

  function KeyCode(k: ApiKey): nat
  {
    match k
    case Produce => 1
    case Fetch => 2
    case ProduceBatch => 3
    case Error => 4
  }

  function KeyOf(n: nat): Option<ApiKey>
  {
    match n
    case 1 => Some(Produce)
    case 2 => Some(Fetch)
    case 3 => Some(ProduceBatch)
    case 4 => Some(Error)
    case _ => None
  }

  datatype Frame = Frame(
    magic: Byte, apiKey: ApiKey, correlationId: nat, topic: seq<Byte>, partition: nat, payload: seq<Byte>)

  predicate Tail(b: Byte) { 0x80 <= b <= 0xBF }

  /** Well-formed UTF-8, by the grammar in section 4 of RFC 3629. */
  predicate Utf8(s: seq<Byte>)
  {
    if s == [] then true
    else if s[0] < 0x80 then Utf8(s[1..])
    else if 0xC2 <= s[0] <= 0xDF then |s| >= 2 && Tail(s[1]) && Utf8(s[2..])
    else if 0xE0 <= s[0] <= 0xEF then
      && |s| >= 3 && Tail(s[1]) && Tail(s[2])
      && (s[0] == 0xE0 ==> s[1] >= 0xA0) && (s[0] == 0xED ==> s[1] <= 0x9F)
      && Utf8(s[3..])
    else if 0xF0 <= s[0] <= 0xF4 then
      && |s| >= 4 && Tail(s[1]) && Tail(s[2]) && Tail(s[3])
      && (s[0] == 0xF0 ==> s[1] >= 0x90) && (s[0] == 0xF4 ==> s[1] <= 0x8F)
      && Utf8(s[4..])
    else false
  }

  function BodyLen(f: Frame): nat { MIN_HEADER_SIZE + |f.topic| + |f.payload| }

  /** Partition, payload length and payload. */
  function EncodeEnd(f: Frame): (s: seq<Byte>)
    ensures |s| == 8 + |f.payload|
  {
    PutU32(f.partition) + (PutU32(|f.payload|) + f.payload)
  }

  function EncodeBody(f: Frame): (s: seq<Byte>)
    ensures |s| == BodyLen(f)
  {
    [f.magic] + (PutU16(KeyCode(f.apiKey)) + (PutU32(f.correlationId) + (PutU16(|f.topic|) + (f.topic + EncodeEnd(f)))))
  }

  function Encode(f: Frame): (s: seq<Byte>)
    ensures |s| == 4 + BodyLen(f)
  {
    PutU32(BodyLen(f)) + EncodeBody(f)
  }

  datatype FrameError =
    | FrameTooLarge(size: nat)
    | FrameTooShort(needed: nat, have: nat)
    | InvalidMagicByte(magic: Byte)
    | UnknownApiKey(key: nat)
    | InvalidTopicName

  datatype BodyOutcome = Parsed(frame: Frame) | Malformed(error: FrameError)

  function DecodeEnd(f: Frame, rest: seq<Byte>): BodyOutcome
    requires |rest| >= 8
  {
    var n := GetU32(rest[4..]);
    if |rest| - 8 < n then Malformed(FrameTooShort(n, |rest| - 8))
    else Parsed(f.(partition := GetU32(rest), payload := rest[8..8 + n]))
  }

  function DecodeTopic(magic: Byte, key: ApiKey, correlationId: nat, s: seq<Byte>): BodyOutcome
    requires |s| >= 2
  {
    var n := GetU16(s);
    var rest := s[2..];
    if n == 0 && key != Error then Malformed(InvalidTopicName)
    else if n > MAX_TOPIC then Malformed(InvalidTopicName)
    else if |rest| < n + 8 then Malformed(FrameTooShort(n + 8, |rest|))
    else if !Utf8(rest[..n]) then Malformed(InvalidTopicName)
    else DecodeEnd(Frame(magic, key, correlationId, rest[..n], 0, []), rest[n..])
  }

  function DecodeBody(b: seq<Byte>): BodyOutcome
    requires |b| >= MIN_HEADER_SIZE
  {
    if b[0] != MAGIC then Malformed(InvalidMagicByte(b[0]))
    else
      match KeyOf(GetU16(b[1..]))
      case None => Malformed(UnknownApiKey(GetU16(b[1..])))
      case Some(key) => DecodeTopic(b[0], key, GetU32(b[3..]), b[7..])
  }

  datatype Outcome = NeedMore | Bad(error: FrameError, rest: seq<Byte>) | Got(frame: Frame, rest: seq<Byte>)

  function Decode(s: seq<Byte>): (o: Outcome)
    ensures !o.NeedMore? ==> |o.rest| <= |s|
    ensures o.Got? ==> |o.rest| < |s|
  {
    if |s| < 4 then NeedMore
    else
      var n := GetU32(s);
      if n > MAX_FRAME_SIZE then Bad(FrameTooLarge(n), s)
      else if n < MIN_HEADER_SIZE then Bad(FrameTooShort(MIN_HEADER_SIZE, n), s)
      else if |s| < 4 + n then NeedMore
      else
        match DecodeBody(s[4..4 + n])
        case Parsed(f) => Got(f, s[4 + n..])
        case Malformed(e) => Bad(e, s[4 + n..])
  }

  // ---------- the methods, field by field ----------

  /** `Frame::encode`. */
  method EncodeFrame(f: Frame, dst: BytesMut)
    modifies dst
    ensures dst.data == old(dst.data) + Encode(f)
  {
    hide PutU16, PutU32, BodyLen, KeyCode;
    var b := dst.data;
    dst.Put(PutU32(BodyLen(f)));
    dst.Put([f.magic]);
    dst.Put(PutU16(KeyCode(f.apiKey)));
    dst.Put(PutU32(f.correlationId));
    dst.Put(PutU16(|f.topic|));
    dst.Put(f.topic);
    EncodeLast(f, dst);
    var head :=
      PutU32(BodyLen(f)) + [f.magic] + PutU16(KeyCode(f.apiKey)) + PutU32(f.correlationId) + PutU16(|f.topic|);
    assert dst.data == b + head + f.topic + EncodeEnd(f);
    assert head + f.topic + EncodeEnd(f) == Encode(f);
  }

  method EncodeLast(f: Frame, dst: BytesMut)
    modifies dst
    ensures dst.data == old(dst.data) + EncodeEnd(f)
  {
    hide PutU32;
    dst.Put(PutU32(f.partition));
    dst.Put(PutU32(|f.payload|));
    dst.Put(f.payload);
  }

  datatype DecodeResult = Ok(frame: Option<Frame>) | Err(error: FrameError)

  method ParseEnd(f: Frame, buf: BytesMut) returns (res: BodyOutcome)
    requires |buf.data| >= 8
    modifies buf
    ensures res == DecodeEnd(f, old(buf.data))
  {
    hide GetU32;
    var partition := buf.TakeU32();
    var n := buf.TakeU32();
    assert buf.data == old(buf.data)[8..];
    if |buf.data| < n {
      return Malformed(FrameTooShort(n, |buf.data|));
    }
    var payload := buf.SplitTo(n);
    assert payload == old(buf.data)[8..8 + n];
    return Parsed(f.(partition := partition, payload := payload));
  }

  /** The part of `Frame::decode` after the length prefix: every read is within the frame. */
  method ParseBody(buf: BytesMut) returns (res: BodyOutcome)
    requires |buf.data| >= MIN_HEADER_SIZE
    modifies buf
    ensures res == DecodeBody(old(buf.data))
  {
    hide GetU16, GetU32, Utf8;
    ghost var b := buf.data;
    var magic := buf.TakeU8();
    if magic != MAGIC {
      return Malformed(InvalidMagicByte(magic));
    }
    var code := buf.TakeU16();
    assert buf.data == b[3..];
    if KeyOf(code).None? {
      return Malformed(UnknownApiKey(code));
    }
    var key := KeyOf(code).value;
    var correlationId := buf.TakeU32();
    assert buf.data == b[7..];
    var n := buf.TakeU16();
    if n == 0 && key != Error {
      return Malformed(InvalidTopicName);
    }
    if n > MAX_TOPIC {
      return Malformed(InvalidTopicName);
    }
    if |buf.data| < n + 8 {
      return Malformed(FrameTooShort(n + 8, |buf.data|));
    }
    var topic := buf.SplitTo(n);
    if !Utf8(topic) {
      return Malformed(InvalidTopicName);
    }
    res := ParseEnd(Frame(magic, key, correlationId, topic, 0, []), buf);
  }

  /** `Frame::decode`: total on every buffer, consuming a frame, or nothing while it is incomplete. */
  method DecodeFrame(src: BytesMut) returns (res: DecodeResult)
    modifies src
    ensures match Decode(old(src.data))
            case NeedMore => res == Ok(None) && src.data == old(src.data)
            case Bad(e, rest) => res == Err(e) && src.data == rest
            case Got(f, rest) => res == Ok(Some(f)) && src.data == rest
  {
    hide GetU32, DecodeBody;
    if |src.data| < 4 {
      return Ok(None);
    }
    var n := GetU32(src.data);
    if n > MAX_FRAME_SIZE {
      return Err(FrameTooLarge(n));
    }
    if n < MIN_HEADER_SIZE {
      return Err(FrameTooShort(MIN_HEADER_SIZE, n));
    }
    if |src.data| < 4 + n {
      return Ok(None);
    }
    ghost var s := src.data;
    var prefix := src.SplitTo(4);
    var body := src.SplitTo(n);
    assert body == s[4..4 + n] && src.data == s[4 + n..];
    var buf := new BytesMut(body);
    var parsed := ParseBody(buf);
    match parsed
    case Parsed(f) => res := Ok(Some(f));
    case Malformed(e) => res := Err(e);
  }

  // ---------- one frame ----------

  /** The frames that can travel: the decoder's own checks, and fields within their widths. */
  predicate ValidFrame(f: Frame)
  {
    && f.magic == MAGIC
    && |f.topic| <= MAX_TOPIC && (f.topic != [] || f.apiKey == Error) && Utf8(f.topic)
    && f.correlationId < U32_LIMIT && f.partition < U32_LIMIT
    && BodyLen(f) <= MAX_FRAME_SIZE
  }

  /** The two bytes of an api key. */
  lemma KeyBytes(k: ApiKey)
    ensures PutU16(KeyCode(k)) ==
            match k {
              case Produce => [0, 1]
              case Fetch => [0, 2]
              case ProduceBatch => [0, 3]
              case Error => [0, 4]
            }
  {
    TwoBytesOf(KeyCode(k));
  }

  lemma TwoBytesOf(n: nat)
    requires n < 256
    ensures PutU16(n) == [0, n]
  {
    assert BigEndian(n / 256, 1) == BigEndian(0, 0) + [0];
  }

  /**
   * A frame by byte positions: length, magic byte, api key, correlation id, topic, partition and
   * payload.
   */
  lemma FrameLayout(f: Frame)
    ensures var s, n := Encode(f), |f.topic|;
            && GetU32(s) == (17 + n + |f.payload|) % U32_LIMIT
            && s[4] == f.magic && (ValidFrame(f) ==> s[4] == 0xCA)
            && s[5..7] == (match f.apiKey
                           case Produce => [0, 1]
                           case Fetch => [0, 2]
                           case ProduceBatch => [0, 3]
                           case Error => [0, 4])
            && GetU32(s[7..]) == f.correlationId % U32_LIMIT
            && GetU16(s[11..]) == n % 0x1_0000
            && s[13..13 + n] == f.topic
            && GetU32(s[13 + n..]) == f.partition % U32_LIMIT
            && GetU32(s[17 + n..]) == |f.payload| % U32_LIMIT
            && s[21 + n..] == f.payload
  {
    hide PutU16, PutU32, GetU16, GetU32, Utf8, KeyCode;
    var s, n := Encode(f), |f.topic|;
    var b17 := PutU32(|f.payload|) + f.payload;
    var b13 := PutU32(f.partition) + b17;
    var b11 := PutU16(n) + (f.topic + b13);
    var b7 := PutU32(f.correlationId) + b11;
    var b5 := PutU16(KeyCode(f.apiKey)) + b7;
    GetPutU32(BodyLen(f), [f.magic] + b5);
    KeyBytes(f.apiKey);
    GetPutU32(f.correlationId, b11);
    GetPutU16(n, f.topic + b13);
    GetPutU32(f.partition, b17);
    GetPutU32(|f.payload|, f.payload);
    assert s == PutU32(BodyLen(f)) + ([f.magic] + b5);
    assert s[5..] == b5 && s[7..] == b7 && s[11..] == b11 && s[13..] == f.topic + b13;
    assert s[13 + n..] == b13 && s[17 + n..] == b17;
    assert s[5..7] == b5[..2] == PutU16(KeyCode(f.apiKey));
  }

  /** What the decoder makes of a complete frame of `n` bytes, by byte positions. */
  function ByPosition(s: seq<Byte>, n: nat): BodyOutcome
    requires 17 <= n && |s| >= 4 + n
  {
    var key, topic := GetU16(s[5..]), GetU16(s[11..]);
    if s[4] != 0xCA then Malformed(InvalidMagicByte(s[4]))
    else if key == 0 || key > 4 then Malformed(UnknownApiKey(key))
    else if (topic == 0 && key != 4) || topic > 255 then Malformed(InvalidTopicName)
    else if n < 17 + topic then Malformed(FrameTooShort(topic + 8, n - 9))
    else if !Utf8(s[13..13 + topic]) then Malformed(InvalidTopicName)
    else
      var payload := GetU32(s[17 + topic..]);
      if n < 17 + topic + payload then Malformed(FrameTooShort(payload, n - 17 - topic))
      else
        Parsed(Frame(0xCA, [Produce, Fetch, ProduceBatch, Error][key - 1], GetU32(s[7..]), s[13..13 + topic],
                     GetU32(s[13 + topic..]), s[21 + topic..21 + topic + payload]))
  }

  /** The decoder on every buffer, by byte positions: when it waits, which error it reports, and what it reads where. */
  lemma DecodesByPosition(s: seq<Byte>)
    ensures |s| < 4 ==> Decode(s) == NeedMore
    ensures |s| >= 4 ==>
              var n := GetU32(s);
              Decode(s) == if n > 0x100_0000 then Bad(FrameTooLarge(n), s)
                           else if n < 17 then Bad(FrameTooShort(17, n), s)
                           else if |s| < 4 + n then NeedMore
                           else
                             match ByPosition(s, n)
                             case Parsed(f) => Got(f, s[4 + n..])
                             case Malformed(e) => Bad(e, s[4 + n..])
  {
    hide GetU16, GetU32, Utf8, DecodeBody, ByPosition;
    if |s| >= 4 && 17 <= GetU32(s) <= 0x100_0000 && |s| >= 4 + GetU32(s) {
      BodyByPosition(s, GetU32(s));
    }
  }

  lemma BodyByPosition(s: seq<Byte>, n: nat)
    requires 17 <= n && |s| >= 4 + n
    ensures DecodeBody(s[4..4 + n]) == ByPosition(s, n)
  {
    hide Utf8, DecodeEnd, GetU16, GetU32;
    var b := s[4..4 + n];
    SamePlace(s, 4, 4 + n, 1);
    SamePlace(s, 4, 4 + n, 3);
    SamePlace(s, 4, 4 + n, 7);
    var key, topic := GetU16(s[5..]), GetU16(s[11..]);
    var rest := b[7..][2..];
    assert b[0] == s[4];
    if topic <= |rest| {
      assert rest[..topic] == s[13..13 + topic];
    }
    if 1 <= key <= 4 && n >= 17 + topic {
      var k := [Produce, Fetch, ProduceBatch, Error][key - 1];
      EndByPosition(s, n, topic, Frame(b[0], k, GetU32(s[7..]), rest[..topic], 0, []));
      assert rest[topic..] == s[13 + topic..4 + n];
    }
  }

  /** An integer inside the frame is the one at that place of the buffer. */
  lemma SamePlace(s: seq<Byte>, from: nat, to: nat, i: nat)
    requires from + i + 4 <= to <= |s|
    ensures GetU16(s[from..to][i..]) == GetU16(s[from + i..]) && GetU32(s[from..to][i..]) == GetU32(s[from + i..])
  {
    assert s[from..to][i..][..2] == s[from + i..][..2];
    assert s[from..to][i..][..4] == s[from + i..][..4];
  }

  lemma EndByPosition(s: seq<Byte>, n: nat, topic: nat, f: Frame)
    requires 17 + topic <= n && |s| >= 4 + n
    ensures var payload := GetU32(s[17 + topic..]);
            DecodeEnd(f, s[13 + topic..4 + n]) ==
            if n < 17 + topic + payload then Malformed(FrameTooShort(payload, n - 17 - topic))
            else Parsed(f.(partition := GetU32(s[13 + topic..]), payload := s[21 + topic..21 + topic + payload]))
  {
    hide GetU32;
    var rest := s[13 + topic..4 + n];
    SamePlace(s, 13 + topic, 4 + n, 0);
    SamePlace(s, 13 + topic, 4 + n, 4);
    assert rest[0..] == rest;
    var payload := GetU32(s[17 + topic..]);
    if n >= 17 + topic + payload {
      assert rest[8..8 + payload] == s[21 + topic..21 + topic + payload];
    }
  }

  lemma KeyRoundTrip(k: ApiKey)
    ensures KeyOf(KeyCode(k)) == Some(k)
  {
  }

  // The decoder is not disturbed by bytes that the length prefix covers beyond the payload.

  lemma DecodeEndOf(f: Frame, g: Frame, slack: seq<Byte>)
    requires f.partition < U32_LIMIT && |f.payload| < U32_LIMIT
    ensures DecodeEnd(g, EncodeEnd(f) + slack) == Parsed(g.(partition := f.partition, payload := f.payload))
  {
    hide PutU32, GetU32;
    var s := EncodeEnd(f) + slack;
    var t := PutU32(|f.payload|) + (f.payload + slack);
    assert s == PutU32(f.partition) + t;
    GetPutU32(f.partition, t);
    GetPutU32(|f.payload|, f.payload + slack);
    assert s[4..] == t;
    assert s[8..8 + |f.payload|] == f.payload;
  }

  lemma DecodeTopicOf(f: Frame, slack: seq<Byte>)
    requires ValidFrame(f)
    ensures DecodeTopic(f.magic, f.apiKey, f.correlationId, PutU16(|f.topic|) + (f.topic + (EncodeEnd(f) + slack))) ==
            Parsed(f)
  {
    hide PutU16, GetU16, Utf8, EncodeEnd, DecodeEnd;
    var n, t := |f.topic|, f.topic + (EncodeEnd(f) + slack);
    GetPutU16(n, t);
    assert (PutU16(n) + t)[2..] == t && t[..n] == f.topic && t[n..] == EncodeEnd(f) + slack;
    DecodeEndOf(f, Frame(f.magic, f.apiKey, f.correlationId, f.topic, 0, []), slack);
  }

  lemma DecodeBodyOf(f: Frame, slack: seq<Byte>)
    requires ValidFrame(f)
    ensures DecodeBody(EncodeBody(f) + slack) == Parsed(f)
  {
    hide PutU16, PutU32, GetU16, GetU32, Utf8, EncodeEnd, DecodeTopic, KeyCode, KeyOf;
    var b := EncodeBody(f) + slack;
    var b7 := PutU16(|f.topic|) + (f.topic + (EncodeEnd(f) + slack));
    var b3 := PutU32(f.correlationId) + b7;
    var b1 := PutU16(KeyCode(f.apiKey)) + b3;
    assert b == [f.magic] + b1;
    assert b[1..] == b1 && b[3..] == b3 && b[7..] == b7;
    KeyIsSmall(f.apiKey);
    KeyRoundTrip(f.apiKey);
    GetPutU16(KeyCode(f.apiKey), b3);
    GetPutU32(f.correlationId, b7);
    DecodeTopicOf(f, slack);
  }

  lemma KeyIsSmall(k: ApiKey)
    ensures KeyCode(k) < 0x1_0000
  {
  }

  lemma DecodedEnd(f: Frame, rest: seq<Byte>)
    requires |rest| >= 8 && DecodeEnd(f, rest).Parsed?
    ensures var g := DecodeEnd(f, rest).frame;
            && g.partition < U32_LIMIT && |g.payload| <= |rest| - 8
            && g == f.(partition := g.partition, payload := g.payload)
  {
    hide GetU32;
    PutGetU32(rest);
  }

  /** Whatever the decoder accepts is a valid frame. */
  lemma DecodedIsValid(s: seq<Byte>)
    requires Decode(s).Got?
    ensures ValidFrame(Decode(s).frame)
  {
    hide GetU16, GetU32, Utf8, DecodeEnd, KeyOf;
    var b := s[4..4 + GetU32(s)];
    var rest := b[7..][2..];
    var key, corr, n := KeyOf(GetU16(b[1..])).value, GetU32(b[3..]), GetU16(b[7..]);
    PutGetU32(b[3..]);
    DecodedEnd(Frame(b[0], key, corr, rest[..n], 0, []), rest[n..]);
  }

  /** `decode` undoes `encode`, whatever follows on the stream, exactly for the valid frames. */
  lemma FrameRoundTripIff(f: Frame, t: seq<Byte>)
    ensures Decode(Encode(f) + t) == Got(f, t) <==> ValidFrame(f)
  {
    hide GetU32, EncodeBody, DecodeBody, Utf8;
    var s := Encode(f) + t;
    if Decode(s) == Got(f, t) {
      DecodedIsValid(s);
    }
    if ValidFrame(f) {
      assert s == PutU32(BodyLen(f)) + (EncodeBody(f) + t);
      GetPutU32(BodyLen(f), EncodeBody(f) + t);
      assert s[4..4 + BodyLen(f)] == EncodeBody(f) + [] && s[4 + BodyLen(f)..] == t;
      DecodeBodyOf(f, []);
    }
  }

  /** A valid frame whose length prefix covers `slack` more bytes. */
  function Padded(f: Frame, slack: seq<Byte>): seq<Byte>
  {
    PutU32(BodyLen(f) + |slack|) + (EncodeBody(f) + slack)
  }

  /** Any slack is accepted and ignored, as long as the frame is not too large, and is not reproduced. */
  lemma SlackIsIgnored(f: Frame, slack: seq<Byte>, t: seq<Byte>)
    requires ValidFrame(f) && BodyLen(f) + |slack| <= MAX_FRAME_SIZE
    ensures Decode(Padded(f, slack) + t) == Got(f, t)
    ensures Padded(f, slack) == Encode(f) <==> slack == []
  {
    hide GetU32, PutU32, EncodeBody, DecodeBody, Utf8;
    var n, s := BodyLen(f) + |slack|, Padded(f, slack) + t;
    assert s == PutU32(n) + (EncodeBody(f) + slack + t);
    GetPutU32(n, EncodeBody(f) + slack + t);
    assert s[4..4 + n] == EncodeBody(f) + slack && s[4 + n..] == t;
    DecodeBodyOf(f, slack);
    assert EncodeBody(f) + [] == EncodeBody(f);
  }

  lemma DecodedEndBytes(f: Frame, rest: seq<Byte>)
    requires |rest| >= 8 && DecodeEnd(f, rest).Parsed?
    ensures var g := DecodeEnd(f, rest).frame;
            8 + |g.payload| <= |rest| && EncodeEnd(g) == rest[..8 + |g.payload|]
  {
    hide GetU32, PutU32;
    PutGetU32(rest);
    PutGetU32(rest[4..]);
    var n := GetU32(rest[4..]);
    assert rest[..8 + n] == rest[..4] + (rest[4..][..4] + rest[8..8 + n]);
  }

  lemma DecodedBodyBytes(b: seq<Byte>)
    requires |b| >= MIN_HEADER_SIZE && DecodeBody(b).Parsed?
    ensures var f := DecodeBody(b).frame;
            && BodyLen(f) <= |b| && EncodeBody(f) == b[..BodyLen(f)]
            && |f.topic| == GetU16(b[7..])
  {
    hide GetU16, GetU32, PutU16, PutU32, Utf8, DecodeEnd, EncodeEnd, KeyOf, KeyCode;
    var f, n := DecodeBody(b).frame, GetU16(b[7..]);
    var rest, key, corr := b[7..][2..], KeyOf(GetU16(b[1..])).value, GetU32(b[3..]);
    var g := Frame(b[0], key, corr, rest[..n], 0, []);
    DecodedEnd(g, rest[n..]);
    DecodedEndBytes(g, rest[n..]);
    CodeOfKey(GetU16(b[1..]));
    PutGetU16(b[1..]);
    PutGetU32(b[3..]);
    PutGetU16(b[7..]);
    var m := 8 + |f.payload|;
    assert b[..9 + n + m] == [b[0]] + (b[1..][..2] + (b[3..][..4] + (b[7..][..2] + (rest[..n] + rest[n..][..m]))));
  }

  lemma CodeOfKey(n: nat)
    requires KeyOf(n).Some?
    ensures KeyCode(KeyOf(n).value) == n
  {
  }

  lemma PayloadLength(b: seq<Byte>)
    requires |b| >= MIN_HEADER_SIZE && DecodeBody(b).Parsed?
    ensures var n := GetU16(b[7..]); |b| >= MIN_HEADER_SIZE + n && |DecodeBody(b).frame.payload| == GetU32(b[13 + n..])
  {
    hide GetU16, GetU32, Utf8, KeyOf;
    var n := GetU16(b[7..]);
    assert b[7..][2..][n..][4..] == b[13 + n..];
  }

  lemma FieldAt(s: seq<Byte>, n: nat, i: nat)
    requires 4 + n <= |s| && i + 4 <= n
    ensures GetU16(s[4..4 + n][i..]) == GetU16(s[4 + i..]) && GetU32(s[4..4 + n][i..]) == GetU32(s[4 + i..])
  {
    var a, b := s[4..4 + n][i..], s[4 + i..];
    assert a[..2] == b[..2] && a[..4] == b[..4];
  }

  /** What the header, the topic and the payload take together, as the length fields in the bytes say. */
  function FieldsLen(s: seq<Byte>): nat
    requires |s| >= 13 && |s| >= 21 + GetU16(s[11..])
  {
    MIN_HEADER_SIZE + GetU16(s[11..]) + GetU32(s[17 + GetU16(s[11..])..])
  }

  /**
   * The bytes of an accepted frame are its own encoding, except that the decoder ignores whatever the
   * length prefix covers beyond the payload. The bytes are reproduced exactly when the length prefix
   * is what the topic and payload length fields add up to.
   */
  lemma AcceptedBytes(s: seq<Byte>)
    requires Decode(s).Got?
    ensures var (f, rest) := (Decode(s).frame, Decode(s).rest);
            && |s| >= 13 && |s| >= 21 + GetU16(s[11..])
            && FieldsLen(s) == BodyLen(f) <= GetU32(s)
            && (s == Encode(f) + rest <==> GetU32(s) == FieldsLen(s))
  {
    hide GetU16, GetU32, PutU32, EncodeBody, DecodeBody;
    var n := GetU32(s);
    var b := s[4..4 + n];
    DecodedBodyBytes(b);
    PayloadLength(b);
    FieldAt(s, n, 7);
    FieldAt(s, n, 13 + GetU16(b[7..]));
    PutGetU32(s);
    var f := Decode(s).frame;
    if n == BodyLen(f) {
      assert s == s[..4] + b + s[4 + n..];
      assert b[..n] == b;
    }
  }

  // ---------- the stream of a connection ----------

  lemma SamePrefix(s: seq<Byte>, t: seq<Byte>)
    requires |s| >= 4
    ensures GetU32(s + t) == GetU32(s)
  {
    assert (s + t)[..4] == s[..4];
  }

  /** A frame or an error, once seen, does not change when more bytes arrive. */
  lemma DecodeStable(s: seq<Byte>, t: seq<Byte>)
    requires !Decode(s).NeedMore?
    ensures match Decode(s)
            case Got(f, rest) => Decode(s + t) == Got(f, rest + t)
            case Bad(e, rest) => Decode(s + t) == Bad(e, rest + t)
            case NeedMore => false
  {
    hide GetU32, DecodeBody;
    SamePrefix(s, t);
    var n := GetU32(s);
    if MIN_HEADER_SIZE <= n <= MAX_FRAME_SIZE {
      assert (s + t)[4..4 + n] == s[4..4 + n] && (s + t)[4 + n..] == s[4 + n..] + t;
    }
  }

  /** What a connection has read: the frames so far, the bytes left over, and the error that ended it. */
  datatype Stream = Stream(frames: seq<Frame>, rest: seq<Byte>, failed: Option<FrameError>)

  /** Decoding until more bytes are needed or the connection is dropped. */
  function Drain(s: seq<Byte>): Stream
    decreases |s|
  {
    match Decode(s)
    case NeedMore => Stream([], s, None)
    case Bad(e, _) => Stream([], [], Some(e))
    case Got(f, rest) =>
      var tail := Drain(rest);
      Stream([f] + tail.frames, tail.rest, tail.failed)
  }

  function Feed(st: Stream, chunk: seq<Byte>): Stream
  {
    if st.failed.Some? then st
    else
      var d := Drain(st.rest + chunk);
      Stream(st.frames + d.frames, d.rest, d.failed)
  }

  function FeedAll(chunks: seq<seq<Byte>>): Stream
  {
    if chunks == [] then Stream([], [], None)
    else Feed(FeedAll(chunks[..|chunks| - 1]), chunks[|chunks| - 1])
  }

  function Concat(chunks: seq<seq<Byte>>): seq<Byte>
  {
    if chunks == [] then [] else Concat(chunks[..|chunks| - 1]) + chunks[|chunks| - 1]
  }

  lemma {:induction false} DrainInTwo(a: seq<Byte>, b: seq<Byte>)
    ensures Drain(a + b) == Feed(Drain(a), b)
    decreases |a|
  {
    hide Decode;
    match Decode(a) {
      case NeedMore =>
        assert [] + Drain(a + b).frames == Drain(a + b).frames;
      case Bad(e, rest) =>
        DecodeStable(a, b);
      case Got(f, rest) =>
        DecodeStable(a, b);
        Shrinks(a);
        DrainInTwo(rest, b);
        var more := Drain(Drain(rest).rest + b).frames;
        assert [f] + (Drain(rest).frames + more) == [f] + Drain(rest).frames + more;
    }
  }

  lemma Shrinks(s: seq<Byte>)
    requires Decode(s).Got?
    ensures |Decode(s).rest| < |s|
  {
  }

  /** However the bytes are cut into chunks, the same frames come out, up to the same first error. */
  lemma {:induction false} ChunkingDoesNotMatter(chunks: seq<seq<Byte>>)
    ensures FeedAll(chunks) == Drain(Concat(chunks))
  {
    hide Feed, Decode;
    if chunks == [] {
      Nothing();
    } else {
      ChunkingDoesNotMatter(chunks[..|chunks| - 1]);
      DrainInTwo(Concat(chunks[..|chunks| - 1]), chunks[|chunks| - 1]);
    }
  }

  lemma Nothing()
    ensures Drain([]) == Stream([], [], None)
  {
  }

  function EncodeAll(fs: seq<Frame>): seq<Byte>
  {
    if fs == [] then [] else Encode(fs[0]) + EncodeAll(fs[1..])
  }

  /** Decoding a concatenation of valid frames yields exactly those frames and leaves nothing. */
  lemma {:induction false} StreamRoundTrip(fs: seq<Frame>)
    requires forall f :: f in fs ==> ValidFrame(f)
    ensures Drain(EncodeAll(fs)) == Stream(fs, [], None)
  {
    hide Decode, Encode, ValidFrame;
    if fs == [] {
      Nothing();
    } else {
      FrameRoundTripIff(fs[0], EncodeAll(fs[1..]));
      Shrinks(EncodeAll(fs));
      StreamRoundTrip(fs[1..]);
    }
  }

  /** Every frame that comes out of a stream is valid. */
  lemma {:induction false} DrainedAreValid(s: seq<Byte>, f: Frame)
    requires f in Drain(s).frames
    ensures ValidFrame(f)
    decreases |s|
  {
    hide Decode, ValidFrame;
    assert Decode(s).Got?;
    DecodedIsValid(s);
    Shrinks(s);
    if f != Decode(s).frame {
      DrainedAreValid(Decode(s).rest, f);
    }
  }

  /** A frame that is too long, but not so long that its length wraps around, fails the stream. */
  lemma TooLongFails(f: Frame)
    requires MAX_FRAME_SIZE < BodyLen(f) < U32_LIMIT
    ensures Drain(Encode(f)) == Stream([], [], Some(FrameTooLarge(BodyLen(f))))
  {
    hide GetU32, PutU32, EncodeBody, DecodeBody, BodyLen;
    GetPutU32(BodyLen(f), EncodeBody(f));
  }
}
