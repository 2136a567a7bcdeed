/** What appending does to the flat log, one record at a time, in batches and over whole runs. */
module AppendTheorems {
  import opened Bytes
  import opened Records
  import opened LogSpec

  predicate Carries(r: Record, p: Payload) { r.key == p.key && r.value == p.value }

  /** `b` is `a` with one record for each payload added at the end, in order. */
  ghost predicate Grew(a: Log, b: Log, ps: seq<Payload>)
  {
    && b.base == a.base && b.max == a.max
    && |All(b)| == |All(a)| + |ps|
    && All(a) <= All(b)
    && forall i :: 0 <= i < |ps| ==> Carries(All(b)[|All(a)| + i], ps[i])
  }

  ghost predicate Invariant(log: Log) { WellFormed(log) && Bounded(log) }

  lemma FreshLog(max: nat)
    ensures Invariant(Fresh(max)) && All(Fresh(max)) == []
  {
    assert Fresh(max).segs[..0] == [];
  }

  lemma NonEmpty(log: Log)
    requires WellFormed(log)
    ensures log.segs != []
  {
  }

  lemma RotateFlat(log: Log)
    ensures All(Rotate(log)) == All(log)
  {
    FlatSnoc(log.segs, []);
  }

  lemma ExtendFlat(log: Log, rs: seq<Record>)
    requires log.segs != []
    ensures All(Extend(log, rs)) == All(log) + rs && Next(Extend(log, rs)) == Next(log) + |rs|
  {
    var init := log.segs[..|log.segs| - 1];
    FlatSnoc(init, Last(log) + rs);
  }

  lemma PlaceGrows(log: Log, p: Payload, clock: nat -> nat)
    requires log.segs != []
    ensures var r := Place(log, p, clock);
            && Grew(log, r, [p])
            && All(r) == All(log) + [RecordOf(p, Next(log), clock(|r.segs| - 1))]
  {
    hide Flat, FitsLast;
    var t := Target(log, PayloadLen(p));
    RotateFlat(log);
    ExtendFlat(t, [RecordOf(p, Next(log), clock(|t.segs| - 1))]);
  }

  lemma SizeSnoc(rs: seq<Record>, r: Record)
    ensures SizeOf(rs + [r]) == SizeOf(rs) + Len(r)
  {
    EncodeAllConcat(rs, [r]);
    EncodeAllOne(r);
  }

  lemma TargetKeeps(log: Log, n: nat)
    requires WellFormed(log) && n <= log.max
    ensures var t := Target(log, n);
            && WellFormed(t)
            && (Bounded(log) ==> Bounded(t))
            && SizeOf(Last(t)) + n <= log.max
  {
    hide Flat;
    RotateFlat(log);
  }

  /** One placement keeps the log well formed and its segments within the limit. */
  lemma PlaceKeeps(log: Log, p: Payload, clock: nat -> nat)
    requires WellFormed(log) && PayloadLen(p) <= log.max
    ensures WellFormed(Place(log, p, clock))
    ensures Bounded(log) ==> Bounded(Place(log, p, clock))
  {
    hide Flat, SizeOf, Target;
    var t := Target(log, PayloadLen(p));
    TargetKeeps(log, PayloadLen(p));
    PlaceGrows(log, p, clock);
    SizeSnoc(Last(t), RecordOf(p, Next(log), clock(|t.segs| - 1)));
  }

  lemma {:induction false} PlaceAllConcat(log: Log, a: seq<Payload>, b: seq<Payload>, clock: nat -> nat)
    requires log.segs != []
    ensures PlaceAll(log, a + b, clock) == PlaceAll(PlaceAll(log, a, clock), b, clock)
  {
    hide Place;
    if b == [] {
      assert a + b == a;
    } else {
      PlaceAllConcat(log, a, b[..|b| - 1], clock);
      assert (a + b)[..|a + b| - 1] == a + b[..|b| - 1];
    }
  }

  lemma {:induction false} PlaceAllGrows(log: Log, ps: seq<Payload>, clock: nat -> nat)
    requires log.segs != []
    ensures Grew(log, PlaceAll(log, ps, clock), ps)
  {
    hide Place, Flat;
    if ps != [] {
      var mid := PlaceAll(log, ps[..|ps| - 1], clock);
      PlaceAllGrows(log, ps[..|ps| - 1], clock);
      PlaceGrows(mid, ps[|ps| - 1], clock);
    }
  }

  lemma {:induction false} PlaceAllKeeps(log: Log, ps: seq<Payload>, clock: nat -> nat)
    requires WellFormed(log)
    requires forall i :: 0 <= i < |ps| ==> PayloadLen(ps[i]) <= log.max
    ensures WellFormed(PlaceAll(log, ps, clock))
    ensures Bounded(log) ==> Bounded(PlaceAll(log, ps, clock))
  {
    hide Place, WellFormed, Bounded;
    NonEmpty(log);
    if ps != [] {
      PlaceAllKeeps(log, ps[..|ps| - 1], clock);
      PlaceAllGrows(log, ps[..|ps| - 1], clock);
      PlaceKeeps(PlaceAll(log, ps[..|ps| - 1], clock), ps[|ps| - 1], clock);
    }
  }

  /** Closed segments never change, and the one that was last is only extended. */
  lemma {:induction false} PlaceAllSegments(log: Log, ps: seq<Payload>, clock: nat -> nat)
    requires log.segs != []
    ensures var r, n := PlaceAll(log, ps, clock), |log.segs|;
            && |r.segs| >= n
            && r.segs[..n - 1] == log.segs[..n - 1]
            && Last(log) <= r.segs[n - 1]
  {
    hide FitsLast;
    if ps != [] {
      PlaceAllSegments(log, ps[..|ps| - 1], clock);
    }
  }

  /** A run of payloads that all fit in the last segment extends that segment by consecutive records. */
  function RecordsOf(ps: seq<Payload>, offset: nat, time: nat): (rs: seq<Record>)
    ensures |rs| == |ps| && forall i :: 0 <= i < |rs| ==> rs[i] == RecordOf(ps[i], offset + i, time)
  {
    seq(|ps|, i requires 0 <= i < |ps| => RecordOf(ps[i], offset + i, time))
  }

  lemma ExtendParts(log: Log, rs: seq<Record>)
    requires log.segs != []
    ensures var r := Extend(log, rs);
            && r.base == log.base && r.max == log.max && |r.segs| == |log.segs|
            && Last(r) == Last(log) + rs
            && (rs == [] ==> r == log)
  {
    if rs == [] {
      assert Last(log) + rs == Last(log);
    }
  }

  lemma ExtendTwice(log: Log, a: seq<Record>, b: seq<Record>)
    requires log.segs != []
    ensures Extend(Extend(log, a), b) == Extend(log, a + b)
  {
    assert Last(log) + (a + b) == (Last(log) + a) + b;
  }

  lemma RecordsOfSnoc(ps: seq<Payload>, offset: nat, time: nat)
    requires ps != []
    ensures var n := |ps| - 1;
            && RecordsOf(ps, offset, time) == RecordsOf(ps[..n], offset, time) + [RecordOf(ps[n], offset + n, time)]
            && SizeOf(RecordsOf(ps, offset, time)) == SizeOf(RecordsOf(ps[..n], offset, time)) + PayloadLen(ps[n])
  {
    hide SizeOf, RecordsOf;
    var n := |ps| - 1;
    var rs := RecordsOf(ps[..n], offset, time);
    assert RecordsOf(ps, offset, time) == rs + [RecordOf(ps[n], offset + n, time)];
    SizeSnoc(rs, RecordOf(ps[n], offset + n, time));
  }

  lemma {:induction false} PlaceAllInLast(log: Log, ps: seq<Payload>, clock: nat -> nat)
    requires log.segs != []
    requires SizeOf(Last(log)) + SizeOf(RecordsOf(ps, Next(log), clock(|log.segs| - 1))) <= log.max
    ensures PlaceAll(log, ps, clock) == Extend(log, RecordsOf(ps, Next(log), clock(|log.segs| - 1)))
  {
    hide Flat, SizeOf, Place, RecordsOf, Extend, PayloadLen;
    var time := clock(|log.segs| - 1);
    if ps == [] {
      assert RecordsOf(ps, Next(log), time) == [];
      ExtendParts(log, []);
    } else {
      RecordsOfSnoc(ps, Next(log), time);
      PlaceAllInLast(log, ps[..|ps| - 1], clock);
      PlaceOneMore(log, RecordsOf(ps[..|ps| - 1], Next(log), time), ps[|ps| - 1], clock);
    }
  }

  lemma PlaceOneMore(log: Log, rs: seq<Record>, p: Payload, clock: nat -> nat)
    requires log.segs != [] && SizeOf(Last(log)) + SizeOf(rs) + PayloadLen(p) <= log.max
    ensures Extend(log, rs).segs != []
    ensures Place(Extend(log, rs), p, clock) ==
            Extend(log, rs + [RecordOf(p, Next(log) + |rs|, clock(|log.segs| - 1))])
  {
    hide *;
    var mid, r := Extend(log, rs), RecordOf(p, Next(log) + |rs|, clock(|log.segs| - 1));
    ExtendParts(log, rs);
    ExtendSized(log, rs);
    ExtendFlat(log, rs);
    PlaceInLast(mid, p, clock);
    assert Place(mid, p, clock) == Extend(mid, [r]);
    ExtendTwice(log, rs, [r]);
  }

  lemma ExtendSized(log: Log, rs: seq<Record>)
    requires log.segs != []
    ensures Extend(log, rs).segs != [] && SizeOf(Last(Extend(log, rs))) == SizeOf(Last(log)) + SizeOf(rs)
  {
    EncodeAllConcat(Last(log), rs);
  }

  lemma PlaceInLast(log: Log, p: Payload, clock: nat -> nat)
    requires log.segs != [] && SizeOf(Last(log)) + PayloadLen(p) <= log.max
    ensures Place(log, p, clock) == Extend(log, [RecordOf(p, Next(log), clock(|log.segs| - 1))])
  {
  }

  /** A payload that does not fit behaves the same on the log that was rotated for it. */
  lemma PlaceAfterRotate(log: Log, ps: seq<Payload>, clock: nat -> nat)
    requires log.segs != [] && ps != [] && !FitsLast(log, PayloadLen(ps[0]))
    ensures PlaceAll(Rotate(log), ps, clock) == PlaceAll(log, ps, clock)
    decreases |ps|
  {
    hide Flat, SizeOf;
    if |ps| == 1 {
      RotateFlat(log);
      assert ps[..0] == [];
      assert FitsLast(Rotate(log), PayloadLen(ps[0]));
      assert PlaceAll(log, ps[..0], clock) == log;
      assert PlaceAll(Rotate(log), ps[..0], clock) == Rotate(log);
    } else {
      PlaceAfterRotate(log, ps[..|ps| - 1], clock);
    }
  }

  // ---------- batches ----------

  lemma FlatPrefix(segs: seq<seq<Record>>, n: nat)
    requires n <= |segs|
    ensures Flat(segs[..n]) <= Flat(segs)
  {
    assert segs == segs[..n] + segs[n..];
    FlatConcat(segs[..n], segs[n..]);
  }

  /** How many of `n` placed payloads went to the segment that is last at the end. */
  function OpenShare(before: Log, full: Log, n: nat): nat
    requires full.segs != []
  {
    if |full.segs| == |before.segs| then n else |Last(full)|
  }

  lemma PlacedIsLast(log: Log, ps: seq<Payload>, clock: nat -> nat)
    requires log.segs != [] && ps != []
    ensures Last(PlaceAll(log, ps, clock)) != []
  {
    hide FitsLast;
  }

  /** Exactly the payloads of the last segment are lost, and that is at least one if any was placed. */
  lemma ShareLost(log: Log, ps: seq<Payload>, clock: nat -> nat)
    requires WellFormed(log)
    requires forall i :: 0 <= i < |ps| ==> PayloadLen(ps[i]) <= log.max
    ensures var full := PlaceAll(log, ps, clock);
            var r, lost := WithoutLastShare(log, full), OpenShare(log, full, |ps|);
            && WellFormed(r) && (Bounded(log) ==> Bounded(r))
            && lost <= |ps| && (lost == 0 <==> ps == [])
            && Grew(log, r, ps[..|ps| - lost])
  {
    hide Flat, Place, PlaceAll, FitsLast;
    var full := PlaceAll(log, ps, clock);
    PlaceAllKeeps(log, ps, clock);
    PlaceAllGrows(log, ps, clock);
    if |full.segs| != |log.segs| {
      ShareDropped(log, full);
      if ps == [] {
        PlaceNothing(log, clock);
        assert false;
      }
      PlacedIsLast(log, ps, clock);
      PlaceAllSegments(log, ps, clock);
      PrefixKept(log, full);
    }
  }

  lemma PlaceNothing(log: Log, clock: nat -> nat)
    requires log.segs != []
    ensures PlaceAll(log, [], clock) == log
  {
  }

  lemma ShareDropped(log: Log, full: Log)
    requires log.segs != [] && full.segs != [] && |full.segs| != |log.segs|
    ensures var r := WithoutLastShare(log, full);
            All(full) == All(r) + Last(full) && (Bounded(full) ==> Bounded(r)) && (WellFormed(full) ==> WellFormed(r))
  {
    hide SizeOf, Flat;
    var m := |full.segs| - 1;
    FlatSnoc(full.segs[..m], []);
    FlatSnoc(full.segs[..m], Last(full));
    assert full.segs == full.segs[..m] + [Last(full)];
    SizeOfNone();
    var r := WithoutLastShare(log, full);
    assert r.segs[..m] == full.segs[..m] && |r.segs| == m + 1;
    assert All(full)[..|All(r)|] == All(r);
  }

  lemma PrefixKept(log: Log, full: Log)
    requires log.segs != [] && |full.segs| > |log.segs|
    requires var n := |log.segs| - 1; full.segs[..n] == log.segs[..n] && Last(log) <= full.segs[n]
    ensures All(log) <= All(WithoutLastShare(log, full))
  {
    hide Flat;
    var n, m := |log.segs|, |full.segs|;
    FlatAt(log.segs, n - 1);
    FlatAt(full.segs, n - 1);
    assert log.segs[..n] == log.segs;
    FlatSnoc(full.segs[..m - 1], []);
    assert full.segs[..m - 1][..n] == full.segs[..n];
    FlatPrefix(full.segs[..m - 1], n);
  }

  /**
   * A batch succeeds exactly when every payload fits in a segment; then the flat log grows by the
   * whole batch from the old next offset. Otherwise it grows by the payloads before the first that
   * is too large, less those of the segment being filled: the error loses nothing only if the very
   * first payload is the one that is too large. Either way the log keeps its invariant.
   */
  lemma AppendBatchMeaning(log: Log, ps: seq<Payload>, clock: nat -> nat)
    requires WellFormed(log)
    ensures var (r, res) := AppendBatch(log, ps, clock);
            && WellFormed(r) && (Bounded(log) ==> Bounded(r))
            && (res.Ok? <==> forall i :: 0 <= i < |ps| ==> PayloadLen(ps[i]) <= log.max)
            && (res.Ok? ==> res.value == Next(log) && Grew(log, r, ps))
            && (res.Err? ==>
                  var n := FirstTooLarge(log.max, ps);
                  var k := |All(r)| - |All(log)|;
                  && 0 <= k == n - OpenShare(log, PlaceAll(log, ps[..n], clock), n)
                  && Grew(log, r, ps[..k]) && (k == n <==> n == 0))
  {
    hide Flat, AppendBatch, WellFormed, Bounded, Grew, FirstTooLarge, PayloadLen, OpenShare, PlaceAll;
    NonEmpty(log);
    var n := FirstTooLarge(log.max, ps);
    if n == |ps| {
      BatchFits(log, ps, clock);
    } else {
      BatchFails(log, ps, clock);
    }
  }

  lemma BatchFits(log: Log, ps: seq<Payload>, clock: nat -> nat)
    requires WellFormed(log) && FirstTooLarge(log.max, ps) == |ps|
    ensures var (r, res) := AppendBatch(log, ps, clock);
            WellFormed(r) && (Bounded(log) ==> Bounded(r)) && res == Ok(Next(log)) && Grew(log, r, ps)
  {
    hide Flat, PlaceAll, WellFormed, Bounded, Grew;
    NonEmpty(log);
    PlaceAllKeeps(log, ps, clock);
    PlaceAllGrows(log, ps, clock);
  }

  lemma BatchFails(log: Log, ps: seq<Payload>, clock: nat -> nat)
    requires WellFormed(log) && FirstTooLarge(log.max, ps) < |ps|
    ensures var (r, res) := AppendBatch(log, ps, clock);
            var n := FirstTooLarge(log.max, ps);
            var k := |All(r)| - |All(log)|;
            && WellFormed(r) && (Bounded(log) ==> Bounded(r)) && res.Err?
            && 0 <= k == n - OpenShare(log, PlaceAll(log, ps[..n], clock), n)
            && Grew(log, r, ps[..k]) && (k == n <==> n == 0)
  {
    hide Flat, PlaceAll, WithoutLastShare, WellFormed, Bounded, FirstTooLarge, PayloadLen, OpenShare;
    NonEmpty(log);
    var n := FirstTooLarge(log.max, ps);
    ShareLost(log, ps[..n], clock);
    var lost := OpenShare(log, PlaceAll(log, ps[..n], clock), n);
    assert ps[..n][..n - lost] == ps[..n - lost];
  }

  /** A payload that would fit, followed by one that does not: the batch fails and the first is lost with it. */
  lemma FailedBatchWitness(clock: nat -> nat)
    ensures var ps := [ValueOnly([7]), ValueOnly(seq(100, i => 0))];
            && FirstTooLarge(100, ps) == 1
            && AppendBatch(Fresh(100), ps, clock) == (Fresh(100), Err(MessageTooLarge))
            && Append(Fresh(100), ps[0], clock).1 == Ok(0)
  {
    hide SizeOf;
    var ps := [ValueOnly([7]), ValueOnly(seq(100, i => 0))];
    assert ps[..1] == [ps[0]];
    OnePlacement(Fresh(100), ps[0], clock);
  }

  // ---------- what does not depend on the clock ----------

  function Strip(rs: seq<Record>): (ps: seq<Payload>)
    ensures |ps| == |rs| && forall i :: 0 <= i < |ps| ==> Carries(rs[i], ps[i])
  {
    seq(|rs|, i requires 0 <= i < |rs| => Payload(rs[i].key, rs[i].value))
  }

  /** The same payloads in the same segments. */
  ghost predicate SameShape(a: Log, b: Log)
  {
    && a.base == b.base && a.max == b.max && |a.segs| == |b.segs|
    && forall i :: 0 <= i < |a.segs| ==> Strip(a.segs[i]) == Strip(b.segs[i])
  }

  lemma {:induction false} SameSize(a: seq<Record>, b: seq<Record>)
    requires Strip(a) == Strip(b)
    ensures SizeOf(a) == SizeOf(b)
  {
    if a != [] {
      assert Carries(a[0], Strip(a)[0]) && Carries(b[0], Strip(b)[0]);
      forall i | 0 <= i < |a| - 1
        ensures Strip(a[1..])[i] == Strip(a)[i + 1] && Strip(b[1..])[i] == Strip(b)[i + 1]
      {
        assert Carries(a[1..][i], Strip(a[1..])[i]) && Carries(a[i + 1], Strip(a)[i + 1]);
        assert Carries(b[1..][i], Strip(b[1..])[i]) && Carries(b[i + 1], Strip(b)[i + 1]);
      }
      SameSize(a[1..], b[1..]);
    }
  }

  lemma StripPrefix(a: seq<Record>, b: seq<Record>, j: nat)
    requires Strip(a) == Strip(b) && j <= |a|
    ensures Strip(a[..j]) == Strip(b[..j])
  {
    forall i | 0 <= i < j
      ensures Strip(a[..j])[i] == Strip(b[..j])[i]
    {
      assert Carries(a[..j][i], Strip(a[..j])[i]) && Carries(a[i], Strip(a)[i]);
      assert Carries(b[..j][i], Strip(b[..j])[i]) && Carries(b[i], Strip(b)[i]);
    }
  }

  lemma {:induction false} SameFlatLength(a: seq<seq<Record>>, b: seq<seq<Record>>)
    requires |a| == |b| && forall i :: 0 <= i < |a| ==> |a[i]| == |b[i]|
    ensures |Flat(a)| == |Flat(b)|
  {
    if a != [] {
      SameFlatLength(a[..|a| - 1], b[..|b| - 1]);
    }
  }

  /** Logs of the same shape agree on every segment base, every record position and every offset. */
  lemma SameShapeSameLayout(a: Log, b: Log)
    requires SameShape(a, b) && WellFormed(a) && WellFormed(b)
    ensures forall i :: 0 <= i <= |a.segs| ==> BaseOf(a, i) == BaseOf(b, i)
    ensures forall i, j :: 0 <= i < |a.segs| && 0 <= j <= |a.segs[i]| ==>
                             SizeOf(a.segs[i][..j]) == SizeOf(b.segs[i][..j])
    ensures |All(a)| == |All(b)| && forall i :: 0 <= i < |All(a)| ==> All(a)[i].offset == All(b)[i].offset
  {
    hide Flat, SizeOf;
    forall i | 0 <= i <= |a.segs|
      ensures BaseOf(a, i) == BaseOf(b, i)
    {
      SameFlatLength(a.segs[..i], b.segs[..i]);
    }
    forall i, j | 0 <= i < |a.segs| && 0 <= j <= |a.segs[i]|
      ensures SizeOf(a.segs[i][..j]) == SizeOf(b.segs[i][..j])
    {
      StripPrefix(a.segs[i], b.segs[i], j);
      SameSize(a.segs[i][..j], b.segs[i][..j]);
    }
    SameFlatLength(a.segs, b.segs);
  }

  lemma StripSnoc(rs: seq<Record>, r: Record)
    ensures Strip(rs + [r]) == Strip(rs) + [Payload(r.key, r.value)]
  {
    forall i | 0 <= i < |rs|
      ensures Strip(rs + [r])[i] == Strip(rs)[i]
    {
      assert Carries((rs + [r])[i], Strip(rs + [r])[i]) && Carries(rs[i], Strip(rs)[i]);
    }
    assert Carries((rs + [r])[|rs|], Strip(rs + [r])[|rs|]);
  }

  lemma ExtendSameShape(a: Log, b: Log, r: Record, r': Record)
    requires a.segs != [] && SameShape(a, b) && Payload(r.key, r.value) == Payload(r'.key, r'.value)
    ensures SameShape(Extend(a, [r]), Extend(b, [r']))
  {
    hide Strip;
    StripSnoc(Last(a), r);
    StripSnoc(Last(b), r');
  }

  lemma TargetSameShape(a: Log, b: Log, n: nat)
    requires a.segs != [] && SameShape(a, b)
    ensures SameShape(Target(a, n), Target(b, n))
  {
    hide SizeOf, Strip;
    assert Strip(Last(a)) == Strip(Last(b));
    SameSize(Last(a), Last(b));
    StripLength(Last(a));
    StripLength(Last(b));
  }

  lemma PlaceSameShape(a: Log, b: Log, p: Payload, c: nat -> nat, d: nat -> nat)
    requires a.segs != [] && SameShape(a, b)
    ensures SameShape(Place(a, p, c), Place(b, p, d))
  {
    hide SameShape, Target, Extend, Flat;
    var n := PayloadLen(p);
    assert b.segs != [] by { SameCount(a, b); }
    var s, t := Target(a, n), Target(b, n);
    TargetSameShape(a, b, n);
    ExtendSameShape(s, t, RecordOf(p, Next(a), c(|s.segs| - 1)), RecordOf(p, Next(b), d(|t.segs| - 1)));
  }

  lemma SameCount(a: Log, b: Log)
    requires SameShape(a, b)
    ensures |a.segs| == |b.segs|
  {
  }

  lemma StripLength(rs: seq<Record>)
    ensures |Strip(rs)| == |rs|
  {
  }

  /** Appending the payloads one at a time, call `i` reading its own clock. */
  function AppendEach(log: Log, ps: seq<Payload>, clocks: nat -> (nat -> nat)): (r: Log)
    requires log.segs != []
    ensures r.segs != []
  {
    if ps == [] then log
    else Append(AppendEach(log, ps[..|ps| - 1], clocks), ps[|ps| - 1], clocks(|ps| - 1)).0
  }

  /**
   * A batch whose payloads all fit lays the log out as the same payloads appended one by one, whatever
   * the clocks say.
   */
  lemma {:induction false} BatchIsRepeatedAppend(
    log: Log, ps: seq<Payload>, clock: nat -> nat, clocks: nat -> (nat -> nat))
    requires log.segs != []
    requires forall i :: 0 <= i < |ps| ==> PayloadLen(ps[i]) <= log.max
    ensures AppendBatch(log, ps, clock).1 == Ok(Next(log))
    ensures SameShape(AppendBatch(log, ps, clock).0, AppendEach(log, ps, clocks))
  {
    hide Place, Flat, Strip;
    if ps == [] {
    } else {
      var ps' := ps[..|ps| - 1];
      BatchIsRepeatedAppend(log, ps', clock, clocks);
      PlaceSameShape(PlaceAll(log, ps', clock), AppendEach(log, ps', clocks), ps[|ps| - 1], clock, clocks(|ps| - 1));
      PlaceAllGrows(log, ps', clock);
    }
  }

  // ---------- whole runs ----------

  datatype Job = Job(cmd: Command, clock: nat -> nat)

  /** The log after the jobs have run one at a time, in order. */
  function RunJobs(log: Log, jobs: seq<Job>): (r: Log)
    requires log.segs != []
    ensures r.segs != []
  {
    if jobs == [] then log
    else
      var last := jobs[|jobs| - 1];
      Exec(RunJobs(log, jobs[..|jobs| - 1]), last.cmd, last.clock).0
  }

  /** The reply of the `i`-th job of that run. */
  function ReplyTo(log: Log, jobs: seq<Job>, i: nat): Reply
    requires log.segs != [] && i < |jobs|
  {
    Exec(RunJobs(log, jobs[..i]), jobs[i].cmd, jobs[i].clock).1
  }

  /** The log in which job `i` runs, and what it leaves and answers. */
  lemma RunStep(log: Log, jobs: seq<Job>, i: nat)
    requires log.segs != [] && i < |jobs|
    ensures (RunJobs(log, jobs[..i + 1]), ReplyTo(log, jobs, i)) ==
            Exec(RunJobs(log, jobs[..i]), jobs[i].cmd, jobs[i].clock)
  {
    hide Exec;
    assert jobs[..i + 1][..i] == jobs[..i];
  }

  /** Later logs hold what earlier ones held, at the same offsets, and keep the invariant. */
  ghost predicate Extends(a: Log, b: Log)
  {
    && WellFormed(b) && (Bounded(a) ==> Bounded(b))
    && b.base == a.base && b.max == a.max && All(a) <= All(b)
  }

  lemma ExecExtends(log: Log, cmd: Command, clock: nat -> nat)
    requires WellFormed(log)
    ensures Extends(log, Exec(log, cmd, clock).0)
  {
    hide Flat, Place, PlaceAll, AppendBatch, WellFormed, Bounded, Fetch;
    NonEmpty(log);
    match cmd
    case Produce(p) =>
      if PayloadLen(p) <= log.max {
        PlaceKeeps(log, p, clock);
        PlaceGrows(log, p, clock);
      }
    case ProduceBatch(vs) =>
      AppendBatchMeaning(log, ValuesOnly(vs), clock);
    case FetchFrom(_, _) =>
  }

  /** Whatever runs, the log stays well formed and bounded, and what it held before stays where it was. */
  lemma {:induction false} RunExtends(log: Log, jobs: seq<Job>, i: nat)
    requires WellFormed(log) && i <= |jobs|
    ensures Extends(log, RunJobs(log, jobs))
    ensures Extends(RunJobs(log, jobs[..i]), RunJobs(log, jobs))
    decreases |jobs|
  {
    hide Exec, WellFormed, Bounded, Flat;
    NonEmpty(log);
    var n := |jobs| - 1;
    if jobs == [] {
      assert jobs[..i] == jobs;
    } else {
      RunExtends(log, jobs[..n], Min(i, n));
      ExecExtends(RunJobs(log, jobs[..n]), jobs[n].cmd, jobs[n].clock);
      if i < |jobs| {
        assert jobs[..n][..i] == jobs[..i];
      } else {
        assert jobs[..i] == jobs;
      }
    }
  }

  // ---------- timestamps ----------

  ghost predicate Ticks(clock: nat -> nat) { forall i :: clock(i) < U64_LIMIT }

  /** Every time in the log is a 64-bit number of milliseconds. */
  ghost predicate Timely(log: Log) { forall r :: r in All(log) ==> r.timestamp < U64_LIMIT }

  lemma {:induction false} PlaceAllTimely(log: Log, ps: seq<Payload>, clock: nat -> nat)
    requires log.segs != [] && Timely(log) && Ticks(clock)
    ensures Timely(PlaceAll(log, ps, clock))
  {
    hide Flat, Place;
    if ps != [] {
      PlaceAllTimely(log, ps[..|ps| - 1], clock);
      PlaceGrows(PlaceAll(log, ps[..|ps| - 1], clock), ps[|ps| - 1], clock);
    }
  }

  lemma ShareLostTimely(log: Log, full: Log)
    requires log.segs != [] && full.segs != [] && Timely(log) && Timely(full)
    ensures Timely(WithoutLastShare(log, full))
  {
    var n := |full.segs| - 1;
    FlatSnoc(full.segs[..n], []);
  }

  lemma ExecTimely(log: Log, cmd: Command, clock: nat -> nat)
    requires log.segs != [] && Timely(log) && Ticks(clock)
    ensures Timely(Exec(log, cmd, clock).0)
  {
    hide Timely, Flat, Place, PlaceAll, Fetch, WithoutLastShare, Ticks;
    match cmd
    case Produce(p) =>
      PlaceAllTimely(log, [p], clock);
      OnePlacement(log, p, clock);
    case ProduceBatch(vs) =>
      var ps := ValuesOnly(vs);
      var n := FirstTooLarge(log.max, ps);
      PlaceAllTimely(log, ps, clock);
      PlaceAllTimely(log, ps[..n], clock);
      ShareLostTimely(log, PlaceAll(log, ps[..n], clock));
    case FetchFrom(_, _) =>
  }

  lemma OnePlacement(log: Log, p: Payload, clock: nat -> nat)
    requires log.segs != []
    ensures PlaceAll(log, [p], clock) == Place(log, p, clock)
  {
    hide Place;
    assert [p][..0] == [];
  }

  lemma {:induction false} RunTimely(log: Log, jobs: seq<Job>)
    requires log.segs != [] && Timely(log) && forall i :: 0 <= i < |jobs| ==> Ticks(jobs[i].clock)
    ensures Timely(RunJobs(log, jobs))
  {
    hide Timely, Exec, Ticks;
    if jobs != [] {
      var n := |jobs| - 1;
      RunTimely(log, jobs[..n]);
      ExecTimely(RunJobs(log, jobs[..n]), jobs[n].cmd, jobs[n].clock);
    }
  }

  /** The record that an append adds, field by field: next offset, the time of its segment, the key and the value. */
  lemma PlaceStamps(log: Log, p: Payload, clock: nat -> nat)
    requires log.segs != []
    ensures var r := Place(log, p, clock);
            && |All(r)| == |All(log)| + 1 && Last(r) != []
            && All(r)[|All(log)|] == Last(r)[|Last(r)| - 1] ==
               Record(log.base + |All(log)|, clock(|r.segs| - 1), p.key, p.value)
  {
    hide Flat, FitsLast;
    PlaceGrows(log, p, clock);
    var r := Place(log, p, clock);
    FlatSnoc(r.segs[..|r.segs| - 1], Last(r));
    assert r.segs == r.segs[..|r.segs| - 1] + [Last(r)];
  }

  /** How many records of segment `s` were there before. */
  function Before(a: Log, s: nat): nat { if s < |a.segs| then |a.segs[s]| else 0 }

  /**
   * Closed segments are kept, the active one is only extended, and every record that was added to
   * segment `s` carries the time `clock(s)`.
   */
  ghost predicate Stamped(a: Log, b: Log, clock: nat -> nat)
    requires a.segs != []
  {
    && |a.segs| <= |b.segs| && (forall s :: 0 <= s < |a.segs| - 1 ==> a.segs[s] == b.segs[s])
    && Last(a) <= b.segs[|a.segs| - 1]
    && forall s, k :: 0 <= s < |b.segs| && Before(a, s) <= k < |b.segs[s]| ==> b.segs[s][k].timestamp == clock(s)
  }

  lemma {:induction false} PlaceAllStamped(log: Log, ps: seq<Payload>, clock: nat -> nat)
    requires log.segs != []
    ensures Stamped(log, PlaceAll(log, ps, clock), clock)
  {
    hide Place, Flat;
    if ps != [] {
      var mid, p := PlaceAll(log, ps[..|ps| - 1], clock), ps[|ps| - 1];
      PlaceAllStamped(log, ps[..|ps| - 1], clock);
      PlaceStamped(log, mid, p, clock);
    }
  }

  lemma PlaceStamped(log: Log, mid: Log, p: Payload, clock: nat -> nat)
    requires log.segs != [] && mid.segs != [] && Stamped(log, mid, clock)
    ensures Stamped(log, Place(mid, p, clock), clock)
  {
    hide Flat, FitsLast;
    PlaceStamps(mid, p, clock);
  }

  lemma ShareLostStamped(log: Log, full: Log, clock: nat -> nat)
    requires log.segs != [] && full.segs != [] && Stamped(log, full, clock)
    ensures Stamped(log, WithoutLastShare(log, full), clock)
  {
  }

  /** Whatever a command adds, also what is left of a batch that failed, carries the times of its own clock. */
  lemma ExecStamped(log: Log, cmd: Command, clock: nat -> nat)
    requires log.segs != []
    ensures Stamped(log, Exec(log, cmd, clock).0, clock)
  {
    hide Stamped, Flat, Place, PlaceAll, Fetch, WithoutLastShare;
    PlaceAllStamped(log, [], clock);
    PlaceNothing(log, clock);
    match cmd
    case Produce(p) =>
      PlaceAllStamped(log, [p], clock);
      OnePlacement(log, p, clock);
    case ProduceBatch(vs) =>
      var ps := ValuesOnly(vs);
      var n := FirstTooLarge(log.max, ps);
      PlaceAllStamped(log, ps, clock);
      PlaceAllStamped(log, ps[..n], clock);
      ShareLostStamped(log, PlaceAll(log, ps[..n], clock), clock);
    case FetchFrom(_, _) =>
  }

  /** By place in the flat log: a record that was added carries the time at which its segment was written. */
  lemma AddedCarryTheTime(a: Log, b: Log, clock: nat -> nat, p: nat)
    requires a.segs != [] && Stamped(a, b, clock) && |All(a)| <= p < |All(b)|
    ensures All(b)[p].timestamp == clock(SegmentAt(b.segs, p))
  {
    hide Flat, SegmentAt;
    var s := SegmentAt(b.segs, p);
    SegmentAtIs(b.segs, p);
    var k := p - |Flat(b.segs[..s])|;
    assert All(b)[p] == b.segs[s][k];
    if k < Before(a, s) {
      PlacesKept(a, b, s, k);
    }
  }

  /** A record that was there is still in the same place of the same segment, so its place in the flat log is old. */
  lemma PlacesKept(a: Log, b: Log, s: nat, k: nat)
    requires |a.segs| <= |b.segs| && s < |a.segs| && k < |a.segs[s]|
    requires forall i :: 0 <= i < s ==> a.segs[i] == b.segs[i]
    ensures |Flat(b.segs[..s])| + k < |All(a)|
  {
    hide Flat;
    assert a.segs[..s] == b.segs[..s];
    FlatAt(a.segs, s);
  }
}
