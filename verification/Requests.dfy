/** Typed requests over frames, with the nested batch format (src/protocol/request.rs). */
module Requests {
  import opened Bytes
  import opened Frames

  datatype Request =
    | ProduceRequest(correlationId: nat, topic: seq<Byte>, partition: nat, payload: seq<Byte>)
    | ProduceBatchRequest(correlationId: nat, topic: seq<Byte>, partition: nat, payloads: seq<seq<Byte>>)
    | FetchRequest(correlationId: nat, topic: seq<Byte>, partition: nat, offset: nat, maxBytes: nat)

  datatype RequestError = TooShort(needed: nat, have: nat) | TrailingBytes | ErrorFrame

  datatype Result<T> = Accepted(value: T) | Rejected(error: RequestError)

  function EncodeItems(ps: seq<seq<Byte>>): seq<Byte>
  {
    if ps == [] then [] else PutU32(|ps[0]|) + (ps[0] + EncodeItems(ps[1..]))
  }

  function EncodeBatch(ps: seq<seq<Byte>>): seq<Byte> { PutU32(|ps|) + EncodeItems(ps) }

  /** Exactly `n` length-prefixed items and nothing after them. */
  function DecodeItems(n: nat, s: seq<Byte>): Result<seq<seq<Byte>>>
  {
    if n == 0 then if s == [] then Accepted([]) else Rejected(TrailingBytes)
    else if |s| < 4 then Rejected(TooShort(4, |s|))
    else
      var k := GetU32(s);
      if |s| - 4 < k then Rejected(TooShort(k, |s| - 4))
      else
        match DecodeItems(n - 1, s[4 + k..])
        case Accepted(ps) => Accepted([s[4..4 + k]] + ps)
        case Rejected(e) => Rejected(e)
  }

  function DecodeBatch(s: seq<Byte>): Result<seq<seq<Byte>>>
  {
    if |s| < 4 then Rejected(TooShort(4, |s|)) else DecodeItems(GetU32(s), s[4..])
  }

  function FromFrame(f: Frame): Result<Request>
  {
    match f.apiKey
    case Error => Rejected(ErrorFrame)
    case Produce => Accepted(ProduceRequest(f.correlationId, f.topic, f.partition, f.payload))
    case ProduceBatch =>
      (match DecodeBatch(f.payload)
       case Accepted(ps) => Accepted(ProduceBatchRequest(f.correlationId, f.topic, f.partition, ps))
       case Rejected(e) => Rejected(e))
    case Fetch =>
      if |f.payload| != 12 then Rejected(TooShort(12, |f.payload|))
      else Accepted(FetchRequest(f.correlationId, f.topic, f.partition, GetU64(f.payload), GetU32(f.payload[8..])))
  }

  function IntoFrame(r: Request): Frame
  {
    match r
    case ProduceRequest(c, t, p, payload) => Frame(MAGIC, Produce, c, t, p, payload)
    case ProduceBatchRequest(c, t, p, payloads) => Frame(MAGIC, ProduceBatch, c, t, p, EncodeBatch(payloads))
    case FetchRequest(c, t, p, offset, maxBytes) => Frame(MAGIC, Fetch, c, t, p, PutU64(offset) + PutU32(maxBytes))
  }

  // ---------- the loops ----------

  /** The `ProduceBatch` arm of `Request::from_frame`. */
  method ParseBatch(bytes: seq<Byte>) returns (res: Result<seq<seq<Byte>>>)
    ensures res == DecodeBatch(bytes)
  {
    hide GetU32;
    if |bytes| < 4 {
      return Rejected(TooShort(4, |bytes|));
    }
    var payload := new BytesMut(bytes);
    var batchLen := payload.TakeU32();
    var payloads := [];
    ghost var all := DecodeItems(batchLen, bytes[4..]);
    PrependNone(all);
    for i := 0 to batchLen
      invariant all == Prepend(payloads, DecodeItems(batchLen - i, payload.data))
    {
      if |payload.data| < 4 {
        return Rejected(TooShort(4, |payload.data|));
      }
      ghost var s := payload.data;
      var msgLen := payload.TakeU32();
      if |payload.data| < msgLen {
        return Rejected(TooShort(msgLen, |payload.data|));
      }
      var msg := payload.SplitTo(msgLen);
      assert msg == s[4..4 + msgLen] && payload.data == s[4 + msgLen..];
      PrependOne(payloads, msg, DecodeItems(batchLen - i - 1, payload.data));
      payloads := payloads + [msg];
    }
    if payload.data != [] {
      return Rejected(TrailingBytes);
    }
    assert payloads + [] == payloads;
    return Accepted(payloads);
  }

  ghost function Prepend(ps: seq<seq<Byte>>, r: Result<seq<seq<Byte>>>): Result<seq<seq<Byte>>>
  {
    match r
    case Accepted(qs) => Accepted(ps + qs)
    case Rejected(e) => Rejected(e)
  }

  lemma PrependNone(r: Result<seq<seq<Byte>>>)
    ensures Prepend([], r) == r
  {
    if r.Accepted? {
      assert [] + r.value == r.value;
    }
  }

  lemma PrependOne(ps: seq<seq<Byte>>, p: seq<Byte>, r: Result<seq<seq<Byte>>>)
    ensures Prepend(ps, Prepend([p], r)) == Prepend(ps + [p], r)
  {
    if r.Accepted? {
      assert ps + ([p] + r.value) == ps + [p] + r.value;
    }
  }

  /** `ProduceBatchRequest::into_frame`: the loop that fills the payload. */
  method BuildBatch(payloads: seq<seq<Byte>>) returns (bytes: seq<Byte>)
    ensures bytes == EncodeBatch(payloads)
  {
    hide PutU32;
    var buf := new BytesMut([]);
    buf.Put(PutU32(|payloads|));
    for i := 0 to |payloads|
      invariant buf.data + EncodeItems(payloads[i..]) == EncodeBatch(payloads)
    {
      var p := payloads[i];
      ghost var before, rest := buf.data, EncodeItems(payloads[i + 1..]);
      assert payloads[i..][1..] == payloads[i + 1..];
      buf.Put(PutU32(|p|));
      buf.Put(p);
      assert before + (PutU32(|p|) + (p + rest)) == before + PutU32(|p|) + p + rest;
    }
    bytes := buf.data;
  }

  // ---------- mutual inverses ----------

  /** Fields within the widths of the wire format. */
  predicate Encodable(r: Request)
  {
    match r
    case ProduceRequest(_, _, _, _) => true
    case ProduceBatchRequest(_, _, _, ps) =>
      |ps| < U32_LIMIT && forall p :: p in ps ==> |p| < U32_LIMIT
    case FetchRequest(_, _, _, offset, maxBytes) => offset < U64_LIMIT && maxBytes < U32_LIMIT
  }

  lemma {:induction false} ItemsRoundTrip(ps: seq<seq<Byte>>)
    requires forall p :: p in ps ==> |p| < U32_LIMIT
    ensures DecodeItems(|ps|, EncodeItems(ps)) == Accepted(ps)
  {
    hide PutU32, DecodeItems;
    if ps == [] {
      NoItems();
    } else {
      ItemsRoundTrip(ps[1..]);
      FirstItem(ps[0], |ps| - 1, EncodeItems(ps[1..]));
      assert [ps[0]] + ps[1..] == ps;
    }
  }

  lemma NoItems()
    ensures DecodeItems(0, []) == Accepted([])
  {
  }

  lemma FirstItem(p: seq<Byte>, n: nat, rest: seq<Byte>)
    requires |p| < U32_LIMIT && DecodeItems(n, rest).Accepted?
    ensures DecodeItems(n + 1, PutU32(|p|) + (p + rest)) == Accepted([p] + DecodeItems(n, rest).value)
  {
    hide PutU32, GetU32;
    var s := PutU32(|p|) + (p + rest);
    GetPutU32(|p|, p + rest);
    assert s[4..4 + |p|] == p && s[4 + |p|..] == rest;
  }

  /** Accepted items are within range and encode to exactly the bytes they came from. */
  lemma {:induction false} ItemsOfBytes(n: nat, s: seq<Byte>)
    requires DecodeItems(n, s).Accepted?
    ensures var ps := DecodeItems(n, s).value;
            |ps| == n && EncodeItems(ps) == s && forall p :: p in ps ==> |p| < U32_LIMIT
  {
    hide PutU32, GetU32, DecodeItems, EncodeItems;
    if n == 0 {
      NothingAfter(s);
    } else {
      var p, rest := ItemAndRest(n, s);
      ItemsOfBytes(n - 1, rest);
      FirstOfItems(p, DecodeItems(n - 1, rest).value);
    }
  }

  lemma NothingAfter(s: seq<Byte>)
    requires DecodeItems(0, s).Accepted?
    ensures s == [] && DecodeItems(0, s).value == [] && EncodeItems([]) == []
  {
  }

  lemma ItemAndRest(n: nat, s: seq<Byte>) returns (p: seq<Byte>, rest: seq<Byte>)
    requires n > 0 && DecodeItems(n, s).Accepted?
    ensures |p| < U32_LIMIT && s == PutU32(|p|) + (p + rest) && |rest| < |s|
    ensures DecodeItems(n - 1, rest).Accepted?
    ensures DecodeItems(n, s).value == [p] + DecodeItems(n - 1, rest).value
  {
    hide PutU32, GetU32;
    PutGetU32(s);
    var k := GetU32(s);
    p, rest := s[4..4 + k], s[4 + k..];
    assert s == s[..4] + (p + rest);
  }

  lemma FirstOfItems(p: seq<Byte>, ps: seq<seq<Byte>>)
    ensures EncodeItems([p] + ps) == PutU32(|p|) + (p + EncodeItems(ps))
  {
    assert ([p] + ps)[1..] == ps;
  }

  lemma BatchOfBytes(s: seq<Byte>)
    requires DecodeBatch(s).Accepted?
    ensures var ps := DecodeBatch(s).value;
            EncodeBatch(ps) == s && |ps| < U32_LIMIT && forall p :: p in ps ==> |p| < U32_LIMIT
  {
    hide PutU32, GetU32, DecodeItems;
    PutGetU32(s);
    ItemsOfBytes(GetU32(s), s[4..]);
    assert s == s[..4] + s[4..];
  }

  lemma FetchPayload(offset: nat, maxBytes: nat)
    ensures var s := PutU64(offset) + PutU32(maxBytes);
            |s| == 12 && GetU64(s) == offset % U64_LIMIT && GetU32(s[8..]) == maxBytes % U32_LIMIT
  {
    hide PutU64, PutU32, GetU64, GetU32;
    var t := PutU32(maxBytes);
    GetPutU64(offset, t);
    GetPutU32(maxBytes, []);
    assert t + [] == t == (PutU64(offset) + t)[8..];
  }

  lemma FetchOfBytes(s: seq<Byte>)
    requires |s| == 12
    ensures PutU64(GetU64(s)) + PutU32(GetU32(s[8..])) == s
    ensures GetU64(s) < U64_LIMIT && GetU32(s[8..]) < U32_LIMIT
  {
    hide PutU64, PutU32, GetU64, GetU32;
    PutGetU64(s);
    PutGetU32(s[8..]);
    assert s[8..][..4] == s[8..] && s == s[..8] + s[8..];
  }

  /** `from_frame` undoes `into_frame` exactly for the requests whose fields are within range. */
  lemma RequestRoundTripIff(r: Request)
    ensures FromFrame(IntoFrame(r)) == Accepted(r) <==> Encodable(r)
  {
    hide PutU32, PutU64, GetU32, GetU64, DecodeItems, EncodeItems;
    match r
    case ProduceRequest(_, _, _, _) =>
    case FetchRequest(_, _, _, offset, maxBytes) =>
      FetchPayload(offset, maxBytes);
    case ProduceBatchRequest(_, _, _, ps) =>
      if Encodable(r) {
        GetPutU32(|ps|, EncodeItems(ps));
        ItemsRoundTrip(ps);
        assert EncodeBatch(ps)[4..] == EncodeItems(ps);
      } else if DecodeBatch(EncodeBatch(ps)) == Accepted(ps) {
        BatchOfBytes(EncodeBatch(ps));
      }
  }

  /** Every accepted frame with the right magic is reproduced byte for byte: nothing in its payload is ignored. */
  lemma AcceptedFrameIsReproduced(f: Frame)
    requires FromFrame(f).Accepted? && f.magic == MAGIC
    ensures Encodable(FromFrame(f).value) && IntoFrame(FromFrame(f).value) == f
  {
    hide PutU32, PutU64, GetU32, GetU64, DecodeBatch, EncodeBatch;
    match f.apiKey
    case Produce =>
    case ProduceBatch => BatchOfBytes(f.payload);
    case Fetch => FetchOfBytes(f.payload);
    case Error =>
  }

  /**
   * What a request takes from which field of its frame. The fields of a fetch are read at their byte
   * positions.
   */
  lemma AcceptedFields(f: Frame)
    requires FromFrame(f).Accepted?
    ensures var r := FromFrame(f).value;
            && r.correlationId == f.correlationId && r.topic == f.topic && r.partition == f.partition
            && (r.ProduceRequest? <==> f.apiKey == Produce) && (r.FetchRequest? <==> f.apiKey == Fetch)
            && (r.ProduceBatchRequest? <==> f.apiKey == ProduceBatch)
            && (r.ProduceRequest? ==> r.payload == f.payload)
            && (r.FetchRequest? ==>
                  |f.payload| == 12 && r.offset == GetU64(f.payload) && r.maxBytes == GetU32(f.payload[8..]))
            && (r.ProduceBatchRequest? ==>
                  |f.payload| >= 4 && GetU32(f.payload) == |r.payloads| &&
                  forall i :: 0 <= i < |r.payloads| ==> ItemIn(f.payload[4..], r.payloads, i))
  {
    hide GetU32, GetU64, DecodeItems;
    if f.apiKey == ProduceBatch {
      var ps := FromFrame(f).value.payloads;
      ItemsOfBytes(GetU32(f.payload), f.payload[4..]);
      forall i | 0 <= i < |ps|
        ensures ItemIn(f.payload[4..], ps, i)
      {
        ItemLayout(ps, i);
      }
    }
  }

  /** Where item `i` of a batch starts: each item before it takes its length and its bytes. */
  function ItemPlace(ps: seq<seq<Byte>>, i: nat): nat
    requires i <= |ps|
  {
    if i == 0 then 0 else ItemPlace(ps, i - 1) + 4 + |ps[i - 1]|
  }

  /** Item `i` is found in the bytes by position. */
  predicate ItemIn(s: seq<Byte>, ps: seq<seq<Byte>>, i: nat)
    requires i < |ps|
  {
    var k := ItemPlace(ps, i);
    && k + 4 + |ps[i]| <= |s|
    && GetU32(s[k..]) == |ps[i]| && s[k + 4..k + 4 + |ps[i]|] == ps[i]
  }

  lemma {:induction false} ItemLayout(ps: seq<seq<Byte>>, i: nat)
    requires i < |ps| && forall p :: p in ps ==> |p| < U32_LIMIT
    ensures ItemIn(EncodeItems(ps), ps, i)
  {
    hide PutU32, GetU32;
    ItemsFrom(ps, i);
    var s, k := EncodeItems(ps), ItemPlace(ps, i);
    var rest := EncodeItems(ps[i..][1..]);
    assert s[k..] == PutU32(|ps[i]|) + (ps[i] + rest);
    GetPutU32(|ps[i]|, ps[i] + rest);
    assert s[k + 4..k + 4 + |ps[i]|] == s[k..][4..4 + |ps[i]|] == ps[i];
  }

  lemma {:induction false} ItemsFrom(ps: seq<seq<Byte>>, i: nat)
    requires i <= |ps|
    ensures ItemPlace(ps, i) <= |EncodeItems(ps)| && EncodeItems(ps)[ItemPlace(ps, i)..] == EncodeItems(ps[i..])
  {
    hide PutU32;
    if i == 0 {
      assert ps[0..] == ps;
    } else {
      ItemsFrom(ps, i - 1);
      var k, tail := ItemPlace(ps, i - 1), ps[i - 1..];
      assert tail[1..] == ps[i..];
      var item := PutU32(|tail[0]|) + tail[0];
      assert EncodeItems(tail) == item + EncodeItems(ps[i..]);
      assert EncodeItems(ps)[k + |item|..] == EncodeItems(tail)[|item|..] == EncodeItems(ps[i..]);
    }
  }
}
