/** Records, their framing on disk and on the wire, and the scan of a byte log (src/storage/segment.rs). */
module Records {
  import opened Bytes

  datatype Record = Record(offset: nat, timestamp: nat, key: Option<seq<Byte>>, value: Option<seq<Byte>>)

  const OVERHEAD: nat := 28
  const NONE_LENGTH: nat := 0xFFFF_FFFF

  function FieldLen(f: Option<seq<Byte>>): nat { if f.Some? then |f.value| else 0 }

  function Len(r: Record): nat { OVERHEAD + FieldLen(r.key) + FieldLen(r.value) }

  function EncodeField(f: Option<seq<Byte>>): (s: seq<Byte>)
    ensures |s| == 4 + FieldLen(f)
  {
    if f.Some? then PutU32(|f.value|) + f.value else PutU32(NONE_LENGTH)
  }

  function Encode(r: Record): (s: seq<Byte>)
    ensures |s| == Len(r)
  {
    PutU32(Len(r)) + (PutU64(r.offset) + (PutU64(r.timestamp) + (EncodeField(r.key) + EncodeField(r.value))))
  }

  /** The records the format can hold: 64-bit offset and time, and a length prefix that is not cut. */
  predicate Storable(r: Record)
  {
    r.offset < U64_LIMIT && r.timestamp < U64_LIMIT && Len(r) < U32_LIMIT
  }

  /** `Crash` stands for a panic: a field length that runs past the end of the buffer. */
  datatype FieldOutcome = FieldCrash | Field(field: Option<seq<Byte>>, rest: seq<Byte>)
  datatype Outcome = Incomplete | TooSmall | Crash | Got(record: Record, rest: seq<Byte>)

  function DecodeField(s: seq<Byte>): FieldOutcome
  {
    if |s| < 4 then FieldCrash
    else
      var n := GetU32(s);
      if n == NONE_LENGTH then Field(None, s[4..])
      else if |s| < 4 + n then FieldCrash
      else Field(Some(s[4..4 + n]), s[4 + n..])
  }

  function Decode(s: seq<Byte>): Outcome
  {
    if |s| < 4 then Incomplete
    else
      var n := GetU32(s);
      if n < OVERHEAD then TooSmall
      else if |s| < n then Incomplete
      else DecodeBody(s)
  }

  function DecodeBody(s: seq<Byte>): (o: Outcome)
    requires |s| >= OVERHEAD
    ensures o.Got? ==> |o.rest| < |s|
  {
    match DecodeField(s[20..])
    case FieldCrash => Crash
    case Field(key, s1) =>
      match DecodeField(s1)
      case FieldCrash => Crash
      case Field(value, rest) => Got(Record(GetU64(s[4..]), GetU64(s[12..]), key, value), rest)
  }

  /** A field by byte positions: its length, or the marker of a missing one, and its bytes. */
  lemma FieldLayout(f: Option<seq<Byte>>, t: seq<Byte>)
    ensures var s := EncodeField(f) + t;
            && GetU32(s) == (if f.Some? then |f.value| % U32_LIMIT else 0xFFFF_FFFF)
            && (f.Some? ==> s[4..4 + |f.value|] == f.value && s[4 + |f.value|..] == t) && (f.None? ==> s[4..] == t)
  {
    hide PutU32, GetU32;
    var n := if f.Some? then |f.value| else NONE_LENGTH;
    var rest := (if f.Some? then f.value else []) + t;
    assert EncodeField(f) + t == PutU32(n) + rest;
    GetPutU32(n, rest);
  }

  /** A record by byte positions: length, offset, time, key and value. */
  lemma RecordLayout(r: Record)
    ensures var s := Encode(r);
            && GetU32(s) == |s| % U32_LIMIT
            && GetU64(s[4..]) == r.offset % U64_LIMIT
            && GetU64(s[12..]) == r.timestamp % U64_LIMIT
            && s[20..] == EncodeField(r.key) + EncodeField(r.value)
  {
    hide PutU32, PutU64, GetU32, GetU64, EncodeField, Len;
    var fields := EncodeField(r.key) + EncodeField(r.value);
    var timed := PutU64(r.timestamp) + fields;
    GetPutU32(Len(r), PutU64(r.offset) + timed);
    GetPutU64(r.offset, timed);
    GetPutU64(r.timestamp, fields);
    var s := Encode(r);
    assert s[4..] == PutU64(r.offset) + timed && s[12..] == timed && s[20..] == fields;
  }

  method PutField(f: Option<seq<Byte>>, dst: BytesMut)
    modifies dst
    ensures dst.data == old(dst.data) + EncodeField(f)
  {
    match f
    case Some(bytes) =>
      dst.Put(PutU32(|bytes|));
      dst.Put(bytes);
      assert old(dst.data) + PutU32(|bytes|) + bytes == old(dst.data) + (PutU32(|bytes|) + bytes);
    case None =>
      dst.Put(PutU32(NONE_LENGTH));
  }

  /** `Record::encode`: appends the framed record to `dst`. */
  method EncodeRecord(r: Record, dst: BytesMut)
    modifies dst
    ensures dst.data == old(dst.data) + Encode(r)
  {
    hide PutU32, PutU64, EncodeField, Len;
    dst.Put(PutU32(Len(r)));
    dst.Put(PutU64(r.offset));
    dst.Put(PutU64(r.timestamp));
    PutField(r.key, dst);
    PutField(r.value, dst);
  }

  datatype DecodeResult = Decoded(record: Option<Record>) | RecordTooSmall | Panicked

  /** Taking a field panics, and gives nothing, when its length or its bytes run past the end of the buffer. */
  method TakeField(src: BytesMut) returns (ok: bool, f: Option<seq<Byte>>)
    modifies src
    ensures ok <==> DecodeField(old(src.data)).Field?
    ensures ok ==> DecodeField(old(src.data)) == Field(f, src.data)
  {
    ok, f := true, None;
    if |src.data| < 4 {
      return false, None;
    }
    var n := src.TakeU32();
    if n == NONE_LENGTH {
    } else if |src.data| < n {
      ok := false;
    } else {
      var bytes := src.SplitTo(n);
      assert bytes == old(src.data)[4..4 + n];
      f := Some(bytes);
    }
  }

  /** `Record::decode`: consumes one record from the front of `src`, or nothing, or panics. */
  method DecodeRecord(src: BytesMut) returns (res: DecodeResult)
    modifies src
    ensures match Decode(old(src.data))
            case Incomplete => res == Decoded(None) && src.data == old(src.data)
            case TooSmall => res == RecordTooSmall && src.data == old(src.data)
            case Got(r, rest) => res == Decoded(Some(r)) && src.data == rest
            case Crash => res == Panicked
  {
    if |src.data| < 4 {
      return Decoded(None);
    }
    var n := GetU32(src.data);
    if n < OVERHEAD {
      return RecordTooSmall;
    }
    if |src.data| < n {
      return Decoded(None);
    }
    ghost var s := src.data;
    var prefix := src.SplitTo(4);
    var offset := src.TakeU64();
    assert src.data == s[12..];
    var timestamp := src.TakeU64();
    assert src.data == s[20..];
    var keyOk, key := TakeField(src);
    if !keyOk {
      return Panicked;
    }
    var valueOk, value := TakeField(src);
    if !valueOk {
      return Panicked;
    }
    res := Decoded(Some(Record(offset, timestamp, key, value)));
  }

  // ---------- one record: round trip ----------

  /** Exactly the records that survive a round trip; a caller can check it before encoding. */
  predicate Survives(r: Record)
  {
    && Len(r) % U32_LIMIT >= OVERHEAD
    && FieldLen(r.key) < NONE_LENGTH
    && FieldLen(r.value) < NONE_LENGTH
  }

  lemma FieldRoundTrip(f: Option<seq<Byte>>, t: seq<Byte>)
    ensures DecodeField(EncodeField(f) + t) == Field(f, t) <==> FieldLen(f) < NONE_LENGTH
  {
    var s := EncodeField(f) + t;
    if f.Some? {
      var n := |f.value|;
      assert s == PutU32(n) + (f.value + t);
      GetPutU32(n, f.value + t);
      if n < NONE_LENGTH {
        assert s[4..4 + n] == f.value && s[4 + n..] == t;
      }
    } else {
      GetPutU32(NONE_LENGTH, t);
    }
  }

  lemma HeaderOf(r: Record, t: seq<Byte>)
    ensures var s := Encode(r) + t;
            && GetU32(s) == Len(r) % U32_LIMIT
            && GetU64(s[4..]) == r.offset % U64_LIMIT
            && GetU64(s[12..]) == r.timestamp % U64_LIMIT
            && s[20..] == EncodeField(r.key) + (EncodeField(r.value) + t)
  {
    hide PutU32, PutU64, GetU32, GetU64, EncodeField;
    var f := EncodeField(r.key) + EncodeField(r.value);
    var s := Encode(r) + t;
    assert s == PutU32(Len(r)) + (PutU64(r.offset) + (PutU64(r.timestamp) + (f + t)));
    var s2 := PutU64(r.timestamp) + (f + t);
    var s1 := PutU64(r.offset) + s2;
    assert s[4..] == s1 && s[12..] == s2;
    assert s[20..] == EncodeField(r.key) + (EncodeField(r.value) + t);
    GetPutU32(Len(r), s1);
    GetPutU64(r.offset, s2);
    GetPutU64(r.timestamp, f + t);
  }

  /** `decode` undoes `encode`, whatever follows in the buffer, exactly for the records that survive. */
  lemma RoundTripIff(r: Record, t: seq<Byte>)
    requires r.offset < U64_LIMIT && r.timestamp < U64_LIMIT
    ensures Decode(Encode(r) + t) == Got(r, t) <==> Survives(r)
  {
    hide Encode, EncodeField, DecodeField, GetU32, GetU64;
    HeaderOf(r, t);
    FieldRoundTrip(r.key, EncodeField(r.value) + t);
    FieldRoundTrip(r.value, t);
    if FieldLen(r.key) >= NONE_LENGTH {
      KeyLengthKept(r, t);
    }
  }

  /** A key decoded with another length, or not at all, is not the key that was encoded. */
  lemma KeyLengthKept(r: Record, t: seq<Byte>)
    requires FieldLen(r.key) >= NONE_LENGTH
    ensures var d := DecodeField(EncodeField(r.key) + (EncodeField(r.value) + t));
            d.Field? ==> d.field != r.key
  {
    var u := EncodeField(r.value) + t;
    var n := |r.key.value|;
    assert EncodeField(r.key) + u == PutU32(n) + (r.key.value + u);
    GetPutU32(n, r.key.value + u);
  }

  lemma RoundTrip(r: Record, t: seq<Byte>)
    requires Storable(r)
    ensures Decode(Encode(r) + t) == Got(r, t)
  {
    hide Decode, Encode;
    RoundTripIff(r, t);
  }

  lemma LengthPrefix(r: Record)
    requires Storable(r)
    ensures Len(r) >= OVERHEAD && GetU32(Encode(r)) == Len(r)
  {
    hide Encode, GetU32;
    HeaderOf(r, []);
    assert Encode(r) + [] == Encode(r);
  }

  lemma LengthOfPrefix(a: seq<Byte>, b: seq<Byte>)
    requires |a| >= 4 && |b| >= 4 && a[..4] == b[..4]
    ensures GetU32(a) == GetU32(b)
  {
  }

  /** A proper prefix of a record, of any length, is reported as incomplete; nothing panics. */
  lemma TornRecord(r: Record, c: nat)
    requires Storable(r) && c < Len(r)
    ensures Decode(Encode(r)[..c]) == Incomplete
  {
    hide Encode, GetU32, Len, DecodeBody;
    LengthPrefix(r);
    if c >= 4 {
      LengthOfPrefix(Encode(r), Encode(r)[..c]);
    }
  }

  // ---------- a log of records ----------

  function EncodeAll(rs: seq<Record>): (s: seq<Byte>)
    ensures |s| == SizeOf(rs)
  {
    if rs == [] then [] else Encode(rs[0]) + EncodeAll(rs[1..])
  }

  function SizeOf(rs: seq<Record>): nat
  {
    if rs == [] then 0 else Len(rs[0]) + SizeOf(rs[1..])
  }

  predicate AllStorable(rs: seq<Record>) { forall r :: r in rs ==> Storable(r) }

  lemma {:induction false} EncodeAllConcat(a: seq<Record>, b: seq<Record>)
    ensures EncodeAll(a + b) == EncodeAll(a) + EncodeAll(b)
    ensures SizeOf(a + b) == SizeOf(a) + SizeOf(b)
  {
    hide Encode, Len;
    if a == [] {
      assert a + b == b;
    } else {
      EncodeAllConcat(a[1..], b);
      assert (a + b)[0] == a[0] && (a + b)[1..] == a[1..] + b;
      Associative(Encode(a[0]), EncodeAll(a[1..]), EncodeAll(b));
    }
  }

  lemma Associative(x: seq<Byte>, y: seq<Byte>, z: seq<Byte>)
    ensures x + (y + z) == x + y + z
  {
  }

  lemma SizeOfNone()
    ensures SizeOf([]) == 0
  {
  }

  lemma EncodeAllOne(r: Record)
    ensures EncodeAll([r]) == Encode(r) && SizeOf([r]) == Len(r)
  {
    assert [r][1..] == [];
  }

  /** The records before and after a point of the log, as bytes. */
  lemma SplitAt(rs: seq<Record>, i: nat)
    requires i <= |rs|
    ensures EncodeAll(rs) == EncodeAll(rs[..i]) + EncodeAll(rs[i..])
    ensures SizeOf(rs) == SizeOf(rs[..i]) + SizeOf(rs[i..])
  {
    hide EncodeAll, SizeOf;
    assert rs == rs[..i] + rs[i..];
    EncodeAllConcat(rs[..i], rs[i..]);
  }

  lemma SizeStep(rs: seq<Record>, i: nat)
    requires i < |rs|
    ensures SizeOf(rs[..i + 1]) == SizeOf(rs[..i]) + Len(rs[i])
  {
    assert rs[..i + 1] == rs[..i] + [rs[i]];
    EncodeAllConcat(rs[..i], [rs[i]]);
    EncodeAllOne(rs[i]);
  }

  lemma {:induction false} SizeMonotone(rs: seq<Record>, i: nat, j: nat)
    requires i <= j <= |rs|
    ensures SizeOf(rs[..i]) + OVERHEAD * (j - i) <= SizeOf(rs[..j])
    decreases j
  {
    hide EncodeAll, SizeOf, FieldLen;
    if i < j {
      SizeMonotone(rs, i, j - 1);
      SizeStep(rs, j - 1);
    }
  }

  /** The number of leading records that are whole within the first `c` bytes. */
  function Whole(rs: seq<Record>, c: nat): (k: nat)
    ensures k <= |rs|
  {
    if rs == [] || c < Len(rs[0]) then 0 else 1 + Whole(rs[1..], c - Len(rs[0]))
  }

  /** `Whole` is the longest run that fits: it fits, and one more record would not. */
  lemma {:induction false} WholeIsLongest(rs: seq<Record>, c: nat)
    ensures var k := Whole(rs, c);
            && SizeOf(rs[..k]) <= c
            && (k < |rs| ==> SizeOf(rs[..k + 1]) > c)
  {
    var k := Whole(rs, c);
    if rs != [] && c >= Len(rs[0]) {
      WholeIsLongest(rs[1..], c - Len(rs[0]));
      assert rs[..k][1..] == rs[1..][..k - 1];
      if k < |rs| {
        assert rs[..k + 1][1..] == rs[1..][..k];
      }
    } else if rs != [] {
      EncodeAllOne(rs[0]);
      assert rs[..1] == [rs[0]];
    }
  }

  lemma WholeUnique(rs: seq<Record>, c: nat, k: nat)
    requires k <= |rs| && SizeOf(rs[..k]) <= c && (k < |rs| ==> SizeOf(rs[..k + 1]) > c)
    ensures k == Whole(rs, c)
  {
    var w := Whole(rs, c);
    WholeIsLongest(rs, c);
    if k < w {
      SizeMonotone(rs, k + 1, w);
    } else if w < k {
      SizeMonotone(rs, w + 1, k);
    }
  }

  // ---------- scanning bytes ----------

  /** What the recovery loop sees: the records it decodes and the bytes they take. */
  datatype Scanned = Scanned(records: seq<Record>, bytes: nat, crashed: bool)

  function Scan(s: seq<Byte>): (res: Scanned)
    ensures res.bytes <= |s|
    decreases |s|
  {
    match Decode(s)
    case Got(r, rest) =>
      var tail := Scan(rest);
      Scanned([r] + tail.records, |s| - |rest| + tail.bytes, tail.crashed)
    case Crash => Scanned([], 0, true)
    case _ => Scanned([], 0, false)
  }

  /**
   * Recovery at every cut point: on any byte prefix of a log of storable records, the scan
   * yields exactly the whole records, counts exactly their bytes, and never panics.
   */
  lemma {:induction false} ScanOfCutLog(rs: seq<Record>, c: nat)
    requires AllStorable(rs) && c <= SizeOf(rs)
    ensures var k := Whole(rs, c);
            Scan(EncodeAll(rs)[..c]) == Scanned(rs[..k], SizeOf(rs[..k]), false)
  {
    hide Decode, Encode, Len, Scan;
    if rs == [] {
      ScanEmpty();
    } else if c < Len(rs[0]) {
      assert EncodeAll(rs)[..c] == Encode(rs[0])[..c];
      ScanTorn(rs[0], c);
    } else {
      hide Whole, EncodeAll, SizeOf;
      var n := Len(rs[0]);
      CutAfterFirst(rs, c);
      ScanOfCutLog(rs[1..], c - n);
      ScanStep(rs[0], EncodeAll(rs[1..])[..c - n]);
    }
  }

  lemma CutAfterFirst(rs: seq<Record>, c: nat)
    requires rs != [] && Len(rs[0]) <= c <= SizeOf(rs)
    ensures var n, k := Len(rs[0]), Whole(rs, c);
            && c - n <= SizeOf(rs[1..]) && k == 1 + Whole(rs[1..], c - n)
            && EncodeAll(rs)[..c] == Encode(rs[0]) + EncodeAll(rs[1..])[..c - n]
            && rs[..k] == [rs[0]] + rs[1..][..k - 1]
            && SizeOf(rs[..k]) == n + SizeOf(rs[1..][..k - 1])
  {
    hide Encode, Len;
    var k := Whole(rs, c);
    assert rs[..k][1..] == rs[1..][..k - 1];
  }

  lemma ScanEmpty()
    ensures Scan([]) == Scanned([], 0, false)
  {
  }

  lemma ScanTorn(r: Record, c: nat)
    requires Storable(r) && c < Len(r)
    ensures Scan(Encode(r)[..c]) == Scanned([], 0, false)
  {
    hide Decode, Encode, Len;
    TornRecord(r, c);
  }

  lemma ScanStep(r: Record, t: seq<Byte>)
    requires Storable(r)
    ensures var tail := Scan(t);
            Scan(Encode(r) + t) == Scanned([r] + tail.records, Len(r) + tail.bytes, tail.crashed)
  {
    hide Decode, Encode, Len;
    RoundTrip(r, t);
  }

  lemma ScanOfWholeLog(rs: seq<Record>)
    requires AllStorable(rs)
    ensures Scan(EncodeAll(rs)) == Scanned(rs, SizeOf(rs), false)
  {
    hide Whole, Scan, Encode, EncodeAll, SizeOf;
    assert rs[..|rs|] == rs;
    assert EncodeAll(rs)[..SizeOf(rs)] == EncodeAll(rs);
    ScanOfCutLog(rs, SizeOf(rs));
    WholeUnique(rs, SizeOf(rs), |rs|);
  }

  /** The bytes of a log determine its records. */
  lemma LogBytesDetermineRecords(a: seq<Record>, b: seq<Record>)
    requires AllStorable(a) && AllStorable(b) && EncodeAll(a) == EncodeAll(b)
    ensures a == b
  {
    ScanOfWholeLog(a);
    ScanOfWholeLog(b);
  }
}
