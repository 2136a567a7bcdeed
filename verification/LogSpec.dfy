/**
 * The sequential meaning of a partition: a log is one flat sequence of records, cut into segments.
 * The storage classes are proved to implement these functions, and the broker protocol is stated over them.
 */
module LogSpec {
  import opened Bytes
  import opened Records

  /** `base` is the offset of the first record and `max` the size at which a segment is rotated. */
  datatype Log = Log(base: nat, max: nat, segs: seq<seq<Record>>)

  datatype Error = MessageTooLarge | SegmentFull
  datatype Result<T> = Ok(value: T) | Err(error: Error)

  function Flat(segs: seq<seq<Record>>): seq<Record>
  {
    if segs == [] then [] else Flat(segs[..|segs| - 1]) + segs[|segs| - 1]
  }

  function All(log: Log): seq<Record> { Flat(log.segs) }

  function Next(log: Log): nat { log.base + |All(log)| }

  /** The base offset of segment `i`: the next offset of the segments before it. */
  function BaseOf(log: Log, i: nat): nat
    requires i <= |log.segs|
  {
    log.base + |Flat(log.segs[..i])|
  }

  predicate Numbered(base: nat, rs: seq<Record>) { forall i :: 0 <= i < |rs| ==> rs[i].offset == base + i }

  /** Every record carries its place in the flat log, and only the last segment may be empty. */
  ghost predicate WellFormed(log: Log)
  {
    && log.segs != []
    && (forall i :: 0 <= i < |log.segs| - 1 ==> log.segs[i] != [])
    && Numbered(log.base, All(log))
  }

  ghost predicate Bounded(log: Log) { forall s :: s in log.segs ==> SizeOf(s) <= log.max }

  function Fresh(max: nat): Log { Log(0, max, [[]]) }

  // ---------- appending ----------

  datatype Payload = Payload(key: Option<seq<Byte>>, value: Option<seq<Byte>>)

  function PayloadLen(p: Payload): nat { OVERHEAD + FieldLen(p.key) + FieldLen(p.value) }

  function RecordOf(p: Payload, offset: nat, time: nat): Record { Record(offset, time, p.key, p.value) }

  function Last(log: Log): seq<Record>
    requires log.segs != []
  {
    log.segs[|log.segs| - 1]
  }

  function Rotate(log: Log): Log { log.(segs := log.segs + [[]]) }

  function Extend(log: Log, rs: seq<Record>): Log
    requires log.segs != []
  {
    log.(segs := log.segs[..|log.segs| - 1] + [Last(log) + rs])
  }

  predicate FitsLast(log: Log, n: nat)
    requires log.segs != []
  {
    Last(log) == [] || SizeOf(Last(log)) + n <= log.max
  }

  /** The log whose last segment takes the next `n` bytes: itself if they fit there, else rotated. */
  function Target(log: Log, n: nat): (t: Log)
    requires log.segs != []
    ensures t.segs != []
  {
    if FitsLast(log, n) then log else Rotate(log)
  }

  /** `clock(s)` is the time at which segment `s` is written. */
  function Place(log: Log, p: Payload, clock: nat -> nat): (r: Log)
    requires log.segs != []
    ensures r.segs != []
  {
    var t := Target(log, PayloadLen(p));
    Extend(t, [RecordOf(p, Next(log), clock(|t.segs| - 1))])
  }

  function PlaceAll(log: Log, ps: seq<Payload>, clock: nat -> nat): (r: Log)
    requires log.segs != []
    ensures r.segs != []
  {
    if ps == [] then log else Place(PlaceAll(log, ps[..|ps| - 1], clock), ps[|ps| - 1], clock)
  }

  function Append(log: Log, p: Payload, clock: nat -> nat): (r: (Log, Result<nat>))
    requires log.segs != []
    ensures r.0.segs != []
  {
    if PayloadLen(p) > log.max then (log, Err(MessageTooLarge)) else (Place(log, p, clock), Ok(Next(log)))
  }

  /** The number of leading payloads that fit in a segment. */
  function FirstTooLarge(max: nat, ps: seq<Payload>): (n: nat)
    ensures n <= |ps|
    ensures forall i :: 0 <= i < n ==> PayloadLen(ps[i]) <= max
    ensures n < |ps| ==> PayloadLen(ps[n]) > max
  {
    if ps == [] || PayloadLen(ps[0]) > max then 0 else 1 + FirstTooLarge(max, ps[1..])
  }

  /** What is left of a failed batch: the share of the segment that was being filled is lost. */
  function WithoutLastShare(before: Log, full: Log): (r: Log)
    requires before.segs != [] && full.segs != []
    ensures r.segs != []
  {
    if |full.segs| == |before.segs| then before else full.(segs := full.segs[..|full.segs| - 1] + [[]])
  }

  /** A batch succeeds exactly when every payload fits in a segment. */
  function AppendBatch(log: Log, ps: seq<Payload>, clock: nat -> nat): (r: (Log, Result<nat>))
    requires log.segs != []
    ensures r.0.segs != []
  {
    var n := FirstTooLarge(log.max, ps);
    if n == |ps| then (PlaceAll(log, ps, clock), Ok(Next(log)))
    else (WithoutLastShare(log, PlaceAll(log, ps[..n], clock)), Err(MessageTooLarge))
  }

  // ---------- reading ----------

  function Read(log: Log, offset: nat): Option<Record>
  {
    if log.base <= offset < Next(log) then Some(All(log)[offset - log.base]) else None
  }

  /** The segment that holds position `p` of the flat log. */
  function SegmentAt(segs: seq<seq<Record>>, p: nat): (i: nat)
    requires p < |Flat(segs)|
    ensures i < |segs|
  {
    if p >= |Flat(segs[..|segs| - 1])| then |segs| - 1 else SegmentAt(segs[..|segs| - 1], p)
  }

  /** The longest leading run of `rs` within the budget. */
  function Run(rs: seq<Record>, budget: nat): seq<Record> { rs[..Whole(rs, budget)] }

  /** Continuing a fetch at the start of segment `i`; it ends at the first segment whose first record does not fit. */
  function FetchOn(segs: seq<seq<Record>>, i: nat, budget: nat): seq<Record>
    decreases |segs| - i
  {
    if i >= |segs| then []
    else if segs[i] == [] then FetchOn(segs, i + 1, budget)
    else
      var run := Run(segs[i], budget);
      if run == [] then []
      else
        WholeIsLongest(segs[i], budget);
        run + FetchOn(segs, i + 1, budget - SizeOf(run))
  }

  function Fetch(log: Log, offset: nat, maxBytes: nat): seq<Record>
  {
    if maxBytes == 0 || !(log.base <= offset < Next(log)) then []
    else
      var p := offset - log.base;
      var s := SegmentAt(log.segs, p);
      SegmentAtIs(log.segs, p);
      var rest := log.segs[s][p - |Flat(log.segs[..s])|..];
      if Len(rest[0]) > maxBytes then [rest[0]]
      else
        WholeIsLongest(rest, maxBytes);
        Run(rest, maxBytes) + FetchOn(log.segs, s + 1, maxBytes - SizeOf(Run(rest, maxBytes)))
  }

  // ---------- commands, as the partition actor receives them ----------

  datatype Command =
    | Produce(payload: Payload)
    | ProduceBatch(payloads: seq<seq<Byte>>)
    | FetchFrom(offset: nat, maxBytes: nat)

  datatype Reply = Assigned(offset: Result<nat>) | Fetched(records: seq<Record>)

  function ValueOnly(value: seq<Byte>): Payload { Payload(None, Some(value)) }

  function ValuesOnly(values: seq<seq<Byte>>): (ps: seq<Payload>)
    ensures |ps| == |values| && forall i :: 0 <= i < |ps| ==> ps[i] == ValueOnly(values[i])
  {
    seq(|values|, i requires 0 <= i < |values| => ValueOnly(values[i]))
  }

  function Exec(log: Log, cmd: Command, clock: nat -> nat): (r: (Log, Reply))
    requires log.segs != []
    ensures r.0.segs != []
  {
    match cmd
    case Produce(p) => var (log', res) := Append(log, p, clock); (log', Assigned(res))
    case ProduceBatch(vs) => var (log', res) := AppendBatch(log, ValuesOnly(vs), clock); (log', Assigned(res))
    case FetchFrom(o, m) => (log, Fetched(Fetch(log, o, m)))
  }

  // ---------- flattening ----------

  lemma FlatOfNone()
    ensures Flat([]) == []
  {
  }

  lemma FlatSnoc(a: seq<seq<Record>>, x: seq<Record>)
    ensures Flat(a + [x]) == Flat(a) + x
  {
    assert (a + [x])[..|a|] == a;
  }

  lemma {:induction false} FlatConcat(a: seq<seq<Record>>, b: seq<seq<Record>>)
    ensures Flat(a + b) == Flat(a) + Flat(b)
  {
    hide Flat;
    if b == [] {
      assert a + b == a;
      FlatOfNone();
    } else {
      var b', x := b[..|b| - 1], b[|b| - 1];
      FlatConcat(a, b');
      FlatSnoc(a + b', x);
      FlatSnoc(b', x);
      assert a + b == (a + b') + [x] && b == b' + [x];
    }
  }

  /** Where segment `i` lies in the flat log. */
  lemma FlatAt(segs: seq<seq<Record>>, i: nat)
    requires i < |segs|
    ensures var p := |Flat(segs[..i])|;
            && Flat(segs[..i + 1]) == Flat(segs[..i]) + segs[i]
            && p + |segs[i]| <= |Flat(segs)|
            && Flat(segs)[p..p + |segs[i]|] == segs[i]
            && Flat(segs)[p..] == segs[i] + Flat(segs[i + 1..])
            && Flat(segs)[p..] == Flat(segs[i..])
            && Flat(segs)[p + |segs[i]|..] == Flat(segs[i + 1..])
  {
    hide Flat;
    var a, b := segs[..i], segs[i + 1..];
    assert segs[..i + 1] == a + [segs[i]];
    FlatSnoc(a, segs[i]);
    assert segs == segs[..i + 1] + b;
    FlatConcat(segs[..i + 1], b);
    assert segs == a + segs[i..];
    FlatConcat(a, segs[i..]);
  }

  lemma {:induction false} SegmentAtIs(segs: seq<seq<Record>>, p: nat)
    requires p < |Flat(segs)|
    ensures var i := SegmentAt(segs, p);
            var q := |Flat(segs[..i])|;
            q <= p < q + |segs[i]| && segs[i][p - q] == Flat(segs)[p]
  {
    var init := segs[..|segs| - 1];
    if p < |Flat(init)| {
      SegmentAtIs(init, p);
      var i := SegmentAt(segs, p);
      assert init[..i] == segs[..i];
    }
  }

  lemma FlatPrefixMonotone(segs: seq<seq<Record>>, i: nat, j: nat)
    requires i <= j <= |segs|
    ensures |Flat(segs[..i])| <= |Flat(segs[..j])|
    decreases j
  {
    if i < j {
      FlatPrefixMonotone(segs, i, j - 1);
      FlatAt(segs, j - 1);
    }
  }

  lemma SegmentAtUnique(segs: seq<seq<Record>>, p: nat, i: nat)
    requires i < |segs| && |Flat(segs[..i])| <= p < |Flat(segs[..i])| + |segs[i]|
    ensures p < |Flat(segs)| && SegmentAt(segs, p) == i
  {
    hide Flat, SegmentAt;
    FlatAt(segs, i);
    SegmentAtIs(segs, p);
    var j := SegmentAt(segs, p);
    FlatAt(segs, j);
    if j < i {
      FlatPrefixMonotone(segs, j + 1, i);
    } else if i < j {
      FlatPrefixMonotone(segs, i + 1, j);
    }
  }
}
