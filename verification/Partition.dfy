/** A partition: a chain of segments that stands for one log (src/storage/partition.rs). */
module Partitions {
  import opened Bytes
  import opened Records
  import opened Files
  import opened Indexes
  import opened LogSpec
  import opened AppendTheorems
  import opened Cursors
  import opened Segments
  import opened Staging

  /**
   * Segment object `s` is segment `i` of the log: same records, right base, and an index of all of
   * them outside of the gap. Its file holds those records, or it is the one that a write has damaged.
   */
  ghost predicate Matches(s: Segment, log: Log, i: nat, gap: Span, damaged: bool)
    requires i < |log.segs|
    reads s, s.index
  {
    && s.max == log.max && s.base == BaseOf(log, i) && s.recs == log.segs[i] && s.gap == gap && s.Listed()
    && if damaged then s.Damaged() else s.Valid()
  }

  lemma CountsOf(s: Segment)
    requires s.Valid() || s.Damaged()
    ensures s.Counted() && s.next == s.base + |s.recs| && s.size == SizeOf(s.recs)
    ensures s.Valid() ==> |s.log.data| == s.size && !s.Damaged()
    ensures s.Damaged() ==> !s.log.append
  {
  }

  // ---------- opening ----------

  /** The directory listing names every segment of the directory once. */
  ghost predicate Lists(listing: seq<nat>, dir: map<nat, FilePair>)
  {
    && (forall b :: b in listing <==> b in dir)
    && forall i, j :: 0 <= i < j < |listing| ==> listing[i] != listing[j]
  }

  /**
   * Loading the directory recovers exactly this log. An index is rebuilt, complete, or lags behind
   * its log by a gap.
   */
  ghost predicate Stores(dir: map<nat, FilePair>, log: Log, gaps: seq<Span>)
  {
    && |gaps| == |log.segs|
    && (forall b :: b in dir ==> exists i :: 0 <= i < |log.segs| && BaseOf(log, i) == b)
    && forall i :: 0 <= i < |log.segs| ==> StoresSegment(dir, log, i, gaps[i])
  }

  ghost predicate StoresSegment(dir: map<nat, FilePair>, log: Log, i: nat, gap: Span)
    requires i < |log.segs|
  {
    var b := BaseOf(log, i);
    b in dir && Recovers(b, dir[b], log.segs[i]) && LeavesGap(b, log.segs[i], dir[b].index, gap)
  }

  /** The index file is unusable, so that the index is rebuilt, or holds the entries before the gap. */
  ghost predicate LeavesGap(base: nat, rs: seq<Record>, file: Option<seq<Byte>>, gap: Span)
  {
    if Unusable(file) then gap == NO_GAP
    else
      var k := |Trusted(file)|;
      0 < k <= |rs| && Trusted(file) == Dense(base, rs)[..k] && gap == GapAfter(base, rs, k)
  }

  /** `s` is the segment of the log that starts at its base. */
  ghost predicate Belongs(s: Segment, log: Log, gaps: seq<Span>)
    reads s, s.index
  {
    exists i :: 0 <= i < |log.segs| && i < |gaps| && Matches(s, log, i, gaps[i], false)
  }

  /** A loaded log file is not in append mode; its cursor is at the end. */
  ghost predicate Loaded(s: Segment)
    reads s
  {
    !s.log.append && s.log.cursor == |s.log.data| == SizeOf(s.recs)
  }

  method LoadOne(base: nat, max: nat, dir: map<nat, FilePair>, ghost stored: Log, ghost gaps: seq<Span>)
    returns (s: Segment)
    requires stored.max == max && Stores(dir, stored, gaps) && base in dir
    ensures fresh(s) && fresh(s.index) && s.base == base && Belongs(s, stored, gaps) && Loaded(s)
  {
    hide Recovers, LeavesGap, Dense, Trusted, IndexSound, ListedEntries, SizeOf, EncodeAll;
    ghost var i :| 0 <= i < |stored.segs| && BaseOf(stored, i) == base;
    assert StoresSegment(dir, stored, i, gaps[i]);
    IndexIsRight(base, stored.segs[i], dir[base].index, gaps[i]);
    s := LoadSegment(base, max, dir[base], stored.segs[i], gaps[i]);
    assert Matches(s, stored, i, gaps[i], false);
  }

  /** What the index file brings, or the rebuilt index, is all but the gap. */
  lemma IndexIsRight(base: nat, rs: seq<Record>, file: Option<seq<Byte>>, gap: Span)
    requires LeavesGap(base, rs, file, gap)
    ensures IndexSound(base, rs, Trusted(file)) && Gap(base, |rs|, gap)
    ensures ListedEntries(base, rs, gap) == if Unusable(file) then Dense(base, rs) else Trusted(file)
  {
    hide Dense, Trusted, IndexSound, SizeOf;
    if Unusable(file) {
      NoEntriesAreSound(base, rs, file);
    } else {
      LaggingIsSound(base, rs, |Trusted(file)|);
      ListedPrefix(base, rs, |Trusted(file)|);
    }
  }

  lemma NoEntriesAreSound(base: nat, rs: seq<Record>, file: Option<seq<Byte>>)
    ensures Unusable(file) ==> IndexSound(base, rs, Trusted(file))
  {
  }

  /** The loop of `open_or_create` over the directory. */
  method LoadAll(dir: map<nat, FilePair>, listing: seq<nat>, max: nat, ghost stored: Log, ghost gaps: seq<Span>)
    returns (segs: seq<Segment>)
    requires Lists(listing, dir) && (dir != map[] ==> stored.max == max && Stores(dir, stored, gaps))
    ensures |segs| == |listing| && forall k :: 0 <= k < |segs| ==> segs[k].base == listing[k]
    ensures forall s :: s in segs ==> fresh(s) && fresh(s.index) && Belongs(s, stored, gaps) && Loaded(s)
    ensures forall s, t :: s in segs && t in segs && s != t ==> s.index != t.index
  {
    hide Stores, Belongs;
    segs := [];
    for k := 0 to |listing|
      invariant |segs| == k && forall j :: 0 <= j < k ==> segs[j].base == listing[j]
      invariant forall s :: s in segs ==> fresh(s) && fresh(s.index) && Belongs(s, stored, gaps) && Loaded(s)
      invariant forall s, t :: s in segs && t in segs && s != t ==> s.index != t.index
    {
      assert listing[k] in dir;
      var s := LoadOne(listing[k], max, dir, stored, gaps);
      segs := segs + [s];
    }
  }

  ghost predicate SortedByBase(segs: seq<Segment>)
  {
    forall i, j :: 0 <= i < j < |segs| ==> segs[i].base < segs[j].base
  }

  /** `sort_by_key` on the base offset, for segments whose bases differ. */
  method SortByBase(segs: seq<Segment>) returns (sorted: seq<Segment>)
    requires forall i, j :: 0 <= i < j < |segs| ==> segs[i].base != segs[j].base
    ensures |sorted| == |segs| && SortedByBase(sorted)
    ensures forall s :: s in sorted <==> s in segs
  {
    sorted := [];
    for k := 0 to |segs|
      invariant |sorted| == k && SortedByBase(sorted)
      invariant forall s :: s in sorted <==> s in segs[..k]
    {
      sorted := Insert(sorted, segs[k]);
      assert segs[..k + 1] == segs[..k] + [segs[k]];
    }
    assert segs[..|segs|] == segs;
  }

  method Insert(sorted: seq<Segment>, t: Segment) returns (r: seq<Segment>)
    requires SortedByBase(sorted) && forall s :: s in sorted ==> s.base != t.base
    ensures |r| == |sorted| + 1 && SortedByBase(r)
    ensures forall s :: s in r <==> s in sorted || s == t
  {
    var at := |sorted|;
    while at > 0 && sorted[at - 1].base > t.base
      invariant 0 <= at <= |sorted| && forall j :: at <= j < |sorted| ==> sorted[j].base > t.base
    {
      at := at - 1;
    }
    r := sorted[..at] + [t] + sorted[at..];
    assert forall s :: s in sorted <==> s in sorted[..at] || s in sorted[at..];
  }

  lemma {:induction false} SortedSame(a: seq<nat>, b: seq<nat>)
    requires Sorted(a) && Sorted(b) && forall x :: x in a <==> x in b
    ensures a == b
  {
    assert b != [] ==> b[0] in b;
    if a != [] {
      assert a[0] in b && b[0] in a;
      var a', b' := a[1..], b[1..];
      assert a[0] == b[0];
      forall x
        ensures x in a' <==> x in b'
      {
        assert x in a <==> x == a[0] || x in a';
        assert x in b <==> x == b[0] || x in b';
        assert a[0] !in a' && b[0] !in b';
      }
      SortedSame(a', b');
    }
  }

  function BasesOf(log: Log): (bs: seq<nat>)
    ensures |bs| == |log.segs| && forall i :: 0 <= i < |bs| ==> bs[i] == BaseOf(log, i)
  {
    seq(|log.segs|, i requires 0 <= i < |log.segs| => BaseOf(log, i))
  }

  function SegmentBases(segs: seq<Segment>): (bs: seq<nat>)
    ensures |bs| == |segs| && forall i :: 0 <= i < |bs| ==> bs[i] == segs[i].base
  {
    seq(|segs|, i requires 0 <= i < |segs| => segs[i].base)
  }

  lemma CoversDirectory(sorted: seq<Segment>, segs: seq<Segment>, listing: seq<nat>, dir: map<nat, FilePair>)
    requires Lists(listing, dir) && |segs| == |listing| && |sorted| == |segs|
    requires forall k :: 0 <= k < |segs| ==> segs[k].base == listing[k]
    requires forall s :: s in sorted <==> s in segs
    ensures sorted != [] <==> dir != map[]
    ensures forall b :: b in dir <==> exists k :: 0 <= k < |sorted| && sorted[k].base == b
  {
    if listing != [] {
      assert listing[0] in dir;
    }
    forall b
      ensures b in dir <==> exists k :: 0 <= k < |sorted| && sorted[k].base == b
    {
      if b in dir {
        var j :| 0 <= j < |listing| && listing[j] == b;
        assert segs[j] in sorted;
      }
      if k :| 0 <= k < |sorted| && sorted[k].base == b {
        assert sorted[k] in segs;
        var j :| 0 <= j < |segs| && segs[j] == sorted[k];
        assert listing[j] == b;
      }
    }
  }

  /** The loaded segments, in order, are exactly the segments of the stored log. */
  lemma ChainIsComplete(segs: seq<Segment>, dir: map<nat, FilePair>, log: Log, gaps: seq<Span>)
    requires WellFormed(log) && Stores(dir, log, gaps) && SortedByBase(segs)
    requires forall s :: s in segs ==> Belongs(s, log, gaps)
    requires forall b :: b in dir <==> exists k :: 0 <= k < |segs| && segs[k].base == b
    ensures |segs| == |log.segs| && forall i :: 0 <= i < |segs| ==> Matches(segs[i], log, i, gaps[i], false)
  {
    hide Flat, StoresSegment, Segment.Valid, Segment.Damaged, Segment.Listed, WellFormed, BaseOf;
    var a, b := SegmentBases(segs), BasesOf(log);
    BasesIncrease(log);
    SameBases(segs, dir, log, gaps);
    SortedSame(a, b);
    forall i | 0 <= i < |segs|
      ensures Matches(segs[i], log, i, gaps[i], false)
    {
      assert segs[i] in segs && a[i] == b[i];
      var j :| 0 <= j < |log.segs| && Matches(segs[i], log, j, gaps[j], false);
      assert b[j] == b[i];
    }
  }

  lemma SameBases(segs: seq<Segment>, dir: map<nat, FilePair>, log: Log, gaps: seq<Span>)
    requires Stores(dir, log, gaps) && forall s :: s in segs ==> Belongs(s, log, gaps)
    requires forall b :: b in dir <==> exists k :: 0 <= k < |segs| && segs[k].base == b
    ensures forall x :: x in SegmentBases(segs) <==> x in BasesOf(log)
  {
    hide Flat, Recovers, LeavesGap, Segment.Valid, Segment.Damaged, Segment.Listed, BaseOf;
    var a, b := SegmentBases(segs), BasesOf(log);
    forall x
      ensures x in a <==> x in b
    {
      if x in a {
        var k :| 0 <= k < |a| && a[k] == x;
        assert segs[k] in segs;
        var i :| 0 <= i < |log.segs| && Matches(segs[k], log, i, gaps[i], false);
        assert b[i] == x;
      }
      if x in b {
        var i :| 0 <= i < |b| && b[i] == x;
        assert StoresSegment(dir, log, i, gaps[i]);
        var k :| 0 <= k < |segs| && segs[k].base == x;
        assert a[k] == x;
      }
    }
  }

  /** Every segment of the directory, in the order of the log. */
  method LoadSorted(dir: map<nat, FilePair>, listing: seq<nat>, max: nat, ghost stored: Log, ghost gaps: seq<Span>)
    returns (sorted: seq<Segment>)
    requires Lists(listing, dir)
    requires dir != map[] ==> stored.max == max && WellFormed(stored) && Stores(dir, stored, gaps)
    ensures sorted == [] <==> dir == map[]
    ensures forall s :: s in sorted ==> fresh(s) && fresh(s.index) && Loaded(s)
    ensures forall s, t :: s in sorted && t in sorted && s != t ==> s.index != t.index
    ensures SortedByBase(sorted)
    ensures sorted != [] ==> |sorted| == |stored.segs| == |gaps|
    ensures sorted != [] ==> forall i :: 0 <= i < |sorted| ==> Matches(sorted[i], stored, i, gaps[i], false)
  {
    hide WellFormed, Stores, Belongs, Matches;
    var segs := LoadAll(dir, listing, max, stored, gaps);
    sorted := SortByBase(segs);
    CoversDirectory(sorted, segs, listing, dir);
    if sorted != [] {
      ChainIsComplete(sorted, dir, stored, gaps);
      GapForEach(dir, stored, gaps);
    }
  }

  lemma GapForEach(dir: map<nat, FilePair>, log: Log, gaps: seq<Span>)
    requires Stores(dir, log, gaps)
    ensures |gaps| == |log.segs|
  {
  }

  lemma DistinctBases(segs: seq<Segment>)
    requires SortedByBase(segs)
    ensures forall i, j :: 0 <= i < j < |segs| ==> segs[i] != segs[j]
  {
  }

  class Partition {
    const max: nat
    var segments: seq<Segment>
    /** The log this partition stands for. */
    ghost var log: Log
    /** The segment whose file a misplaced write has damaged, or -1. */
    ghost var damaged: int
    /** For each segment, the offsets that its loaded index had lost. */
    ghost var gaps: seq<Span>
    /** Records that were written into the middle of the damaged file and cannot be found there. */
    ghost var lost: Span

    ghost function Objects(): set<object>
      reads this
    {
      {this as object} + (set s: Segment | s in segments :: s as object) +
      (set s: Segment | s in segments :: s.index as object)
    }

    lemma Holds(i: nat)
      requires i < |segments|
      ensures segments[i] in Objects() && segments[i].index in Objects()
    {
      assert segments[i] in segments;
    }

    ghost predicate Distinct()
      reads this
    {
      forall i, j :: 0 <= i < j < |segments| ==>
                       segments[i] != segments[j] && segments[i].index != segments[j].index
    }

    /**
     * The chain stands for the log, except for the file of the damaged segment. Once that is closed,
     * the active file is one that the broker has created.
     */
    ghost predicate Sound()
      reads this, Objects()
    {
      && log.max == max && WellFormed(log) && |segments| == |log.segs| && Distinct()
      && -1 <= damaged < |segments| && (0 <= damaged < |segments| - 1 ==> segments[|segments| - 1].log.append)
      && |gaps| == |log.segs| && (lost.None() || (0 <= damaged && segments[damaged].Lost(lost)))
      && forall i :: 0 <= i < |segments| ==> Matches(segments[i], log, i, gaps[i], i == damaged)
    }

    /** All files and indexes are intact. */
    ghost predicate Valid()
      reads this, Objects()
    {
      Sound() && damaged == -1 && NoGaps(gaps)
    }

    lemma Basics()
      requires Sound()
      ensures log.segs != [] && segments != [] && |segments| == |log.segs| == |gaps|
      ensures log.max == max && WellFormed(log)
      ensures -1 <= damaged < |segments| && (0 <= damaged < |segments| - 1 ==> Appendable() && AppendMode())
    {
      hide BaseOf, Segment.Valid, Segment.Damaged, Segment.Listed, Segment.Lost;
    }

    /** The next write lands at the end of the active log file. */
    ghost predicate Appendable()
      reads this, segments
    {
      segments != [] && segments[|segments| - 1].log.AtEnd()
    }

    /** The active log file was opened in append mode, so reads cannot misplace later writes. */
    ghost predicate AppendMode()
      reads this, segments
    {
      segments != [] && segments[|segments| - 1].log.append
    }

    /** How the active log file was opened, and its cursor. */
    ghost function ActiveTail(): Tail
      requires segments != []
      reads this, segments
    {
      var f := segments[|segments| - 1].log;
      Tail(f.append, f.cursor)
    }

    lemma TailIs()
      requires Sound()
      ensures log.segs != [] && segments != [] && |segments| == |log.segs|
      ensures damaged < |segments| - 1 ==> (Appendable() <==> AtEnd(log, ActiveTail()))
      ensures AppendMode() <==> ActiveTail().append
      ensures AppendMode() ==> Appendable() && damaged < |segments| - 1
    {
      hide WellFormed, BaseOf, EncodeAll, SizeOf, IndexSound, Segment.Valid, Segment.Damaged, Segment.Listed,
           Segment.Lost;
      NonEmpty(log);
      var n := |segments| - 1;
      assert Matches(segments[n], log, n, gaps[n], n == damaged);
      CountsOf(segments[n]);
    }

    /**
     * `Partition::open_or_create`: loads every segment of the directory, in whatever order it is
     * listed, and puts them in order; an empty directory gets a first segment at offset 0.
     */
    constructor OpenOrCreate(dir: map<nat, FilePair>, listing: seq<nat>, max: nat, ghost stored: Log,
                             ghost gaps: seq<Span>)
      requires Lists(listing, dir)
      requires dir != map[] ==> stored.max == max && WellFormed(stored) && Stores(dir, stored, gaps)
      ensures Sound() && damaged == -1 && Appendable() && this.max == max && fresh(Objects())
      ensures dir == map[] ==> Valid() && log == Fresh(max) && ActiveTail() == Tail(true, 0)
      ensures dir != map[] ==>
                && log == stored && this.gaps == gaps
                && log.segs != [] && ActiveTail() == Tail(false, SizeOf(Last(log)))
    {
      hide WellFormed, Flat, Segment.Valid, Segment.Listed, Lists, SortedByBase, SizeOf, StoresSegment,
           Segment.Lost;
      var segs := LoadSorted(dir, listing, max, stored, gaps);
      this.max := max;
      damaged, lost := -1, NO_GAP;
      if segs == [] {
        var s := new Segment.Create(0, max);
        FreshBase(max);
        segs := [s];
        log := Fresh(max);
        this.gaps := [NO_GAP];
      } else {
        DistinctBases(segs);
        assert segs[|segs| - 1] in segs;
        log := stored;
        this.gaps := gaps;
      }
      segments := segs;
    }

    /** Closing the active segment and opening an empty one at the next offset. */
    method AddSegment()
      requires Sound() && segments != [] && log.segs != [] && Last(log) != []
      modifies this
      ensures Sound() && segments != [] && log == Rotate(old(log))
      ensures damaged == old(damaged) && gaps == old(gaps) + [NO_GAP] && lost == old(lost)
      ensures Appendable() && ActiveTail() == Tail(true, 0) == TailBetween(old(log), log, old(ActiveTail()))
      ensures fresh(Objects() - old(Objects()))
    {
      hide WellFormed, BaseOf, Next, SizeOf, Segment.Valid, Segment.Damaged, Segment.Listed, Segment.Lost,
           TailBetween, Rotate;
      var n := |segments|;
      LastBase(log);
      assert Matches(segments[n - 1], log, n - 1, gaps[n - 1], n - 1 == damaged);
      CountsOf(segments[n - 1]);
      TailRotated(log, log, ActiveTail());
      var s := new Segment.Create(segments[n - 1].next, max);
      Attach(s);
    }

    method Attach(s: Segment)
      requires Sound() && log.segs != [] && Last(log) != []
      requires forall t :: t in segments ==> t != s && t.index != s.index
      requires s.max == max && s.base == Next(log) && s.recs == [] && s.gap == NO_GAP && s.Listed() && s.Valid()
      requires s.log.append
      modifies this
      ensures Sound() && segments == old(segments) + [s] && log == Rotate(old(log))
      ensures damaged == old(damaged) && gaps == old(gaps) + [NO_GAP] && lost == old(lost)
      ensures Objects() <= old(Objects()) + {s, s.index}
    {
      hide WellFormed, BaseOf, Next, SizeOf, Segment.Valid, Segment.Damaged, Segment.Listed, Segment.Lost, Rotate;
      EndsAt(log);
      RotateWellFormed(log);
      RotateBases(log);
      segments := segments + [s];
      gaps := gaps + [NO_GAP];
      log := Rotate(log);
    }

    /** What holds of everything but segment `k`. */
    ghost predicate RestBut(k: int)
      reads this
      reads set i | 0 <= i < |segments| && i != k :: segments[i]
      reads set i | 0 <= i < |segments| && i != k :: segments[i].index
    {
      && log.max == max && WellFormed(log) && |segments| == |log.segs| == |gaps| && Distinct()
      && -1 <= damaged < |segments|
      && (damaged != k ==> lost.None() || (0 <= damaged && segments[damaged].Lost(lost)))
      && forall i :: 0 <= i < |segments| && i != k ==> Matches(segments[i], log, i, gaps[i], i == damaged)
    }

    /** Segment `k` is right as well. */
    ghost predicate Fits(k: nat)
      requires k < |segments| == |log.segs| == |gaps|
      reads this, segments, segments[k].index
    {
      && Matches(segments[k], log, k, gaps[k], k == damaged)
      && (damaged == k ==> lost.None() || segments[k].Lost(lost))
      && (0 <= damaged < |segments| - 1 ==> segments[|segments| - 1].log.append)
    }

    lemma TakeOut(k: nat)
      requires Sound() && k < |segments|
      ensures RestBut(k) && k < |segments| == |log.segs| == |gaps| && Fits(k)
      ensures segments[k] in Objects() && segments[k].index in Objects()
    {
      hide WellFormed, BaseOf, Segment.Valid, Segment.Damaged, Segment.Listed, Segment.Lost;
      Holds(k);
    }

    lemma PutBack(k: nat)
      requires RestBut(k) && k < |segments| == |log.segs| == |gaps| && Fits(k)
      ensures Sound()
    {
      hide WellFormed, BaseOf, Segment.Valid, Segment.Damaged, Segment.Listed, Segment.Lost;
    }

    /** The active segment has grown by `rs`; it is as valid as before only if its file was extended at the end. */
    ghost predicate Grown(rs: seq<Record>, kept: bool)
      reads this, segments, set s: Segment | s in segments :: s.index
    {
      && log.segs != [] && |segments| == |log.segs| == |gaps|
      && var a := segments[|segments| - 1];
         && a.max == log.max && a.base == BaseOf(log, |segments| - 1) && a.recs == Last(log) + rs
         && a.gap == gaps[|segments| - 1] && a.Listed()
         && (0 <= damaged < |segments| - 1 ==> a.log.append)
         && if kept then damaged < |segments| - 1 && a.Valid()
            else (damaged == -1 || damaged == |segments| - 1) && a.Damaged()
    }

    lemma Parts()
      requires Sound()
      ensures RestBut(|segments| - 1) && log.segs != [] && segments != []
      ensures |segments| == |log.segs| == |gaps| && log.max == max
      ensures var n, a := |segments| - 1, segments[|segments| - 1];
              && Matches(a, log, n, gaps[n], n == damaged) && (0 <= damaged < n ==> a.log.append)
              && a.Counted() && a.next == Next(log) && a.size == SizeOf(Last(log)) && -1 <= damaged <= n
              && (damaged < n ==> |a.log.data| == SizeOf(Last(log))) && (damaged == n ==> !a.log.append && !a.Valid())
              && a in Objects() && a.index in Objects() && Distinct()
    {
      hide WellFormed, Flat, SizeOf, Segment.Listed, Segment.Lost, EncodeAll, IndexSound;
      var n := |segments| - 1;
      NonEmpty(log);
      LastBase(log);
      TakeOut(n);
      CountsOf(segments[n]);
    }

    /**
     * After the active segment grew by `rs`, the chain stands for the extended log. If the file was
     * not extended at its end, that segment is damaged from now on, and records that went inside the
     * old file are lost.
     */
    ghost method Extended(rs: seq<Record>, kept: bool, inside: bool)
      requires RestBut(|segments| - 1) && Grown(rs, kept) && Numbered(Next(log), rs)
      requires inside ==> segments[|segments| - 1].Lost(Span(Next(log), Next(log) + |rs|))
      modifies this`log, this`damaged, this`lost
      ensures Sound() && log == Extend(old(log), rs)
      ensures damaged == if kept then old(damaged) else |segments| - 1
      ensures lost == if kept then old(lost) else if inside then Span(Next(old(log)), Next(log)) else NO_GAP
    {
      hide WellFormed, Flat, Segment.Valid, Segment.Damaged, Segment.Listed, Segment.Lost, Extend;
      NonEmpty(log);
      ExtendWellFormed(log, rs);
      ExtendBases(log, rs);
      ExtendParts(log, rs);
      ExtendFlat(log, rs);
      var n := |segments| - 1;
      if !kept {
        damaged := n;
        lost := if inside then Span(Next(log), Next(log) + |rs|) else NO_GAP;
      }
      log := Extend(log, rs);
      LastBase(log);
      assert Matches(segments[n], log, n, gaps[n], n == damaged);
    }

    /** One record into the active segment, which may report that it is full. */
    method AppendActive(p: Payload, now: nat) returns (res: Result<nat>)
      requires Sound() && now < U64_LIMIT && Next(log) + 1 < U64_LIMIT
      requires PayloadLen(p) <= max ==> PayloadLen(p) < U32_LIMIT
      modifies Objects()
      ensures Sound() && segments == old(segments) != [] && gaps == old(gaps)
      ensures old(log).segs != [] && |log.segs| == |old(log).segs|
      ensures damaged == if res.Ok? && old(damaged) == -1 && !old(Appendable()) then |segments| - 1 else old(damaged)
      ensures res == if PayloadLen(p) > max then Err(MessageTooLarge)
                     else if !FitsLast(old(log), PayloadLen(p)) then Err(SegmentFull)
                     else Ok(Next(old(log)))
      ensures log == if res.Ok? then Extend(old(log), [RecordOf(p, Next(old(log)), now)]) else old(log)
      ensures damaged < |segments| - 1 || res.Err? ==> ActiveTail() == TailBetween(old(log), log, old(ActiveTail()))
      ensures res.Ok? && old(damaged) == -1 && !old(Appendable()) &&
              old(ActiveTail()).cursor + PayloadLen(p) <= SizeOf(Last(old(log))) ==>
                lost == Span(Next(old(log)), Next(log))
    {
      hide Sound, Grown, Extend, SizeOf, TailBetween, Numbered, AtEnd, Segment.Lost, Next, InsideLast, PayloadLen,
           FitsLast, RestBut;
      Basics();
      TailIs();
      ghost var f := ActiveTail();
      TailOfSame(log, f);
      ghost var kept, inside;
      res, kept, inside := CallAppend(p, now);
      if res.Ok? {
        ghost var r := RecordOf(p, Next(log), now);
        OneNumbered(r);
        OneSized(r, p);
        TailExtended(log, [r], f);
        ExtendParts(log, [r]);
        ExtendFlat(log, [r]);
        NearEnd(log, f, damaged, p, r);
        Extended([r], kept, inside);
      }
    }

    method CallAppend(p: Payload, now: nat) returns (res: Result<nat>, ghost kept: bool, ghost inside: bool)
      requires Sound() && now < U64_LIMIT && Next(log) + 1 < U64_LIMIT
      requires PayloadLen(p) <= max ==> PayloadLen(p) < U32_LIMIT
      modifies Objects() - {this}
      ensures RestBut(|segments| - 1) && log.segs != [] && segments != []
      ensures res == if PayloadLen(p) > max then Err(MessageTooLarge)
                     else if !FitsLast(log, PayloadLen(p)) then Err(SegmentFull)
                     else Ok(Next(log))
      ensures res.Err? ==> Sound() && ActiveTail() == old(ActiveTail())
      ensures kept <==> damaged < |segments| - 1 && old(Appendable())
      ensures res.Ok? ==> GrewTo([RecordOf(p, Next(log), now)], kept, inside, old(ActiveTail()))
    {
      hide WellFormed, Next, SizeOf, Segment.Valid, Segment.Damaged, Segment.Counted, Segment.Listed, Segment.Lost,
           PayloadLen, File.Write, Encode, BaseOf;
      Parts();
      ghost var n, f := |segments| - 1, ActiveTail();
      ghost var a, r := segments[n], RecordOf(p, Next(log), now);
      kept := damaged < n && Appendable();
      OneSized(r, p);
      res := segments[|segments| - 1].Append(p, now);
      inside := !f.append && f.cursor + PayloadLen(p) <= |old(a.log.data)|;
      if res.Ok? {
        CountsOf(a);
      }
    }

    /**
     * `Partition::append`: the record goes to the active segment, or to a new one when that is full.
     * What is answered and stored does not depend on damage. The files stay intact exactly when
     * nothing is written to an active file whose cursor has moved, damage stays where it is, and a
     * record that goes inside the old file is lost.
     */
    method Append(p: Payload, clock: nat -> nat) returns (res: Result<nat>)
      requires Sound() && Next(log) + 1 < U64_LIMIT
      requires Ticks(clock)
      requires PayloadLen(p) <= max ==> PayloadLen(p) < U32_LIMIT
      modifies Objects()
      ensures Sound() && fresh(Objects() - old(Objects())) && GapsKept(old(gaps), gaps)
      ensures (log, res) == LogSpec.Append(old(log), p, clock)
      ensures old(log).segs != [] && log.segs != [] && segments != [] && old(segments) != []
      ensures damaged == if old(damaged) == -1 && !old(Appendable()) && res.Ok? && FitsLast(old(log), PayloadLen(p))
                         then |old(log).segs| - 1 else old(damaged)
      ensures damaged < |segments| - 1 ==> ActiveTail() == TailBetween(old(log), log, old(ActiveTail()))
      ensures old(Valid()) && old(Appendable()) ==> Valid() && Appendable()
      ensures old(AppendMode()) ==> AppendMode()
      ensures old(damaged) == -1 && damaged != -1 &&
              old(ActiveTail()).cursor + PayloadLen(p) <= SizeOf(Last(old(log))) ==>
                lost.Has(Next(old(log)))
    {
      hide Sound, Next, FitsLast, PayloadLen, SizeOf, Segment.Lost, BaseOf, Extend, RecordOf, TailBetween, Place,
           Rotate, Appendable, AppendMode, ActiveTail, AtEnd;
      TailIs();
      Basics();
      ghost var start, f := log, ActiveTail();
      TailOfSame(start, f);
      PlaceCases(start, p, clock);
      res := AppendActive(p, clock(|segments| - 1));
      Basics();
      if res == Err(SegmentFull) {
        res := AppendRotated(p, clock);
        Basics();
      } else if res.Ok? {
        ExtendFlat(start, [RecordOf(p, Next(start), clock(|start.segs| - 1))]);
      }
      Closing(start, f);
    }

    /** One record that does not fit in the active segment starts the next one. */
    method AppendRotated(p: Payload, clock: nat -> nat) returns (res: Result<nat>)
      requires Sound() && Next(log) + 1 < U64_LIMIT && Ticks(clock)
      requires log.segs != [] && segments != [] && PayloadLen(p) <= max && !FitsLast(log, PayloadLen(p))
      requires PayloadLen(p) < U32_LIMIT
      modifies Objects()
      ensures Sound() && fresh(Objects() - old(Objects())) && gaps == old(gaps) + [NO_GAP] && damaged == old(damaged)
      ensures res == Ok(Next(old(log))) && log == Place(old(log), p, clock)
      ensures |log.segs| == |old(log).segs| + 1 && segments != []
      ensures ActiveTail() == TailBetween(old(log), log, old(ActiveTail()))
    {
      hide Sound, Next, FitsLast, PayloadLen, SizeOf, Segment.Lost, BaseOf, Extend, RecordOf, TailBetween, Place,
           Rotate, AtEnd;
      Basics();
      ghost var start, f := log, ActiveTail();
      PlaceCases(start, p, clock);
      NotFull(log, PayloadLen(p));
      TailRotated(start, start, f);
      AddSegment();
      Basics();
      res := AppendActive(p, clock(|segments| - 1));
      Basics();
      TailTwice(start, Rotate(start), log, f);
    }

    /** What the tail says about the active file when the segment is intact. */
    lemma Closing(start: Log, f: Tail)
      requires Sound() && start.segs != [] && segments != [] && log.segs != []
      requires damaged < |segments| - 1 ==> ActiveTail() == TailBetween(start, log, f)
      ensures damaged < |segments| - 1 && AtEnd(start, f) ==> Appendable()
      ensures damaged < |segments| - 1 && f.append ==> AppendMode()
    {
      hide Sound, SizeOf, TailBetween;
      TailIs();
      TailKeepsEnd(start, log, f);
    }

    /** One call of `Segment::append_batch` on the active segment, which writes exactly when the batch does. */
    method AppendBatchActive(ps: seq<Payload>, clock: nat -> nat) returns (res: Result<(nat, nat)>)
      requires Sound() && Next(log) + |ps| < U64_LIMIT && ps != []
      requires Ticks(clock)
      requires LengthsFit(ps, max)
      modifies Objects()
      ensures Sound() && segments == old(segments) != [] && gaps == old(gaps)
      ensures old(log).segs != [] && log.segs != []
      ensures damaged == if res.Ok? && old(damaged) == -1 && !old(Appendable()) then |segments| - 1 else old(damaged)
      ensures res.Ok? <==> BatchWrites(old(log), ps)
      ensures res.Err? ==> log == old(log)
      ensures damaged < |segments| - 1 ==>
                lost == old(lost) && ActiveTail() == TailBetween(old(log), log, old(ActiveTail()))
      ensures res.Ok? && Inside(old(log), log, old(ActiveTail()), old(damaged), old(Appendable())) ==>
                lost == Span(Next(old(log)), Next(log))
      ensures res.Ok? ==>
                var (o, k) := res.value;
                && o == Next(old(log)) && 0 < k <= |ps|
                && log == PlaceAll(old(log), ps[..k], clock)
                && |log.segs| == |old(log).segs| && Last(log) != Last(old(log))
                && (forall i :: 0 <= i < k ==> PayloadLen(ps[i]) <= max)
                && (k < |ps| ==> PayloadLen(ps[k]) <= max && !FitsLast(log, PayloadLen(ps[k])))
      ensures res == Err(MessageTooLarge) ==>
                var j := FirstTooLarge(max, ps);
                j < |ps| && |PlaceAll(log, ps[..j], clock).segs| == |log.segs|
      ensures res == Err(SegmentFull) ==> PayloadLen(ps[0]) <= max && !FitsLast(log, PayloadLen(ps[0]))
    {
      hide Sound, Appendable, Flat, SizeOf, PlaceAll, Share, Extend, PayloadLen, LengthsFit, FirstTooLarge, BatchWrites,
           Inside;
      Basics();
      ghost var before := log;
      res := FillActive(ps, clock(|segments| - 1));
      Basics();
      match res
      case Ok((o, k)) =>
        PlaceShare(before, ps, k, clock);
        ExtendParts(before, Share(ps, k, o, clock(|segments| - 1)));
        CallWrites(before, ps, k, clock(|segments| - 1));
      case Err(MessageTooLarge) =>
        UntilTooLarge(log, ps, clock);
        NoCallWrites(log, ps, clock(|segments| - 1));
      case Err(SegmentFull) =>
        SizeIsZeroIffEmpty(Last(log));
        NothingToWrite(log, ps);
    }

    /** The call itself: the active segment takes its share of the payloads. */
    method FillActive(ps: seq<Payload>, now: nat) returns (res: Result<(nat, nat)>)
      requires Sound() && Next(log) + |ps| < U64_LIMIT && ps != []
      requires now < U64_LIMIT && LengthsFit(ps, max)
      modifies Objects()
      ensures Sound() && segments == old(segments) != [] && gaps == old(gaps)
      ensures old(log).segs != [] && log.segs != []
      ensures damaged == if res.Ok? && old(damaged) == -1 && !old(Appendable()) then |segments| - 1 else old(damaged)
      ensures res.Err? ==> log == old(log)
      ensures damaged < |segments| - 1 ==>
                lost == old(lost) && ActiveTail() == TailBetween(old(log), log, old(ActiveTail()))
      ensures res.Ok? && Inside(old(log), log, old(ActiveTail()), old(damaged), old(Appendable())) ==>
                lost == Span(Next(old(log)), Next(log))
      ensures BatchAnswer(Last(old(log)), Next(old(log)), max, ps, now, res)
      ensures res.Ok? ==> log == Extend(old(log), Share(ps, res.value.1, Next(old(log)), now))
    {
      hide Sound, Grown, Extend, Share, SizeOf, TailBetween, BatchAnswer, Numbered, AtEnd, Segment.Lost, Next,
           InsideLast, Inside, RestBut, Appendable;
      Basics();
      TailIs();
      ghost var start, f := log, ActiveTail();
      TailOfSame(log, f);
      ghost var kept, inside;
      res, kept, inside := CallActive(ps, now);
      if res.Ok? {
        AnswerCount(Last(log), Next(log), max, ps, now, res);
        ghost var rs := Share(ps, res.value.1, Next(log), now);
        ShareNumbered(ps, res.value.1, Next(log), now);
        TailExtended(log, rs, f);
        ExtendParts(log, rs);
        InsideMeans(log, rs, f, damaged, old(Appendable()));
        ExtendFlat(log, rs);
        Extended(rs, kept, inside);
      }
    }

    /** `kept` says that the file was extended at its end, and `inside` that it did not grow. */
    method CallActive(ps: seq<Payload>, now: nat)
      returns (res: Result<(nat, nat)>, ghost kept: bool, ghost inside: bool)
      requires Sound() && Next(log) + |ps| < U64_LIMIT && ps != []
      requires now < U64_LIMIT && LengthsFit(ps, max)
      modifies Objects() - {this}
      ensures RestBut(|segments| - 1) && log.segs != [] && segments != []
      ensures BatchAnswer(Last(log), Next(log), max, ps, now, res)
      ensures res.Err? ==> Sound() && ActiveTail() == old(ActiveTail())
      ensures kept <==> damaged < |segments| - 1 && old(Appendable())
      ensures res.Ok? && res.value.1 <= |ps| ==>
                GrewTo(Share(ps, res.value.1, Next(log), now), kept, inside, old(ActiveTail()))
    {
      hide WellFormed, Next, SizeOf, Segment.Valid, Segment.Damaged, Segment.Counted, Segment.Listed, Segment.Lost,
           Share, BatchAnswer, File.Write, EncodeAll, Dense, BaseOf;
      Parts();
      ghost var n, f := |segments| - 1, ActiveTail();
      ghost var a := segments[n];
      kept := damaged < n && Appendable();
      LengthsFitAll(ps, max);
      res := segments[|segments| - 1].AppendBatch(ps, now);
      inside := false;
      if res.Ok? {
        AnswerCount(Last(log), Next(log), max, ps, now, res);
        inside := !f.append && f.cursor + SizeOf(Share(ps, res.value.1, Next(log), now)) <= |old(a.log.data)|;
        CountsOf(a);
      }
    }

    /** What a call on the active segment leaves when it has added `rs`. */
    ghost predicate GrewTo(rs: seq<Record>, kept: bool, inside: bool, f: Tail)
      reads this, segments, set s: Segment | s in segments :: s.index
    {
      && Grown(rs, kept)
      && (kept ==> ActiveTail() == f.(cursor := SizeOf(Last(log) + rs)))
      && (InsideLast(log, f, damaged, rs) ==> inside)
      && (inside ==> segments[|segments| - 1].Lost(Span(Next(log), Next(log) + |rs|)))
    }

    /** A call on the active segment, and a rotation if payloads are left. */
    method BatchCall(ps: seq<Payload>, clock: nat -> nat, ghost start: Log, ghost batch: seq<Payload>, ghost d: nat)
      returns (err: Option<Error>, o: nat, k: nat)
      requires Sound() && Next(log) + |ps| < U64_LIMIT && ps != []
      requires Ticks(clock)
      requires LengthsFit(ps, max)
      requires d <= |batch| && ps == batch[d..] && Stage(start, batch, d, clock, log) && Next(log) == Next(start) + d
      modifies Objects()
      ensures Sound() && fresh(Objects() - old(Objects())) && GapsKept(old(gaps), gaps)
      ensures segments != [] && old(segments) != [] && log.segs != [] && old(log).segs != []
      ensures damaged == if err == None && old(damaged) == -1 && !old(Appendable()) then |old(log).segs| - 1
                         else old(damaged)
      ensures err == None <==> BatchWrites(old(log), ps)
      ensures damaged < |segments| - 1 ==> ActiveTail() == TailBetween(old(log), log, old(ActiveTail()))
      ensures old(damaged) < |old(log).segs| - 1 && damaged == old(damaged) ==> lost == old(lost)
      ensures |log.segs| >= |old(log).segs| && log.base == old(log).base
      ensures log.segs[..|old(log).segs| - 1] == old(log).segs[..|old(log).segs| - 1]
      ensures err == None && Inside(old(log), log, old(ActiveTail()), old(damaged), old(Appendable())) ==>
                lost == Span(Next(old(log)), BaseOf(log, |old(log).segs|))
      ensures err == Some(MessageTooLarge) ==>
                log == old(log) && LogSpec.AppendBatch(start, batch, clock) == (log, Err(MessageTooLarge))
      ensures err == Some(SegmentFull) ==>
                && Stage(start, batch, d, clock, log) && Next(log) == Next(old(log))
                && LastEmpty(log) && !LastEmpty(old(log)) && |log.segs| > |old(log).segs|
      ensures err == None ==>
                && o == Next(old(log)) && 0 < k <= |ps| && (k < |ps| ==> |log.segs| > |old(log).segs|)
                && Stage(start, batch, d + k, clock, log) && Next(log) == Next(start) + d + k
    {
      hide Sound, Appendable, All, FitsLast, PlaceAll, PayloadLen, LengthsFit, Ticks, Stage, LogSpec.AppendBatch,
           BatchWrites, SizeOf, TailBetween, BaseOf, Inside, ActiveTail, WellFormed, AppendMode, Next;
      Basics();
      StageMax(start, batch, d, clock, log);
      ghost var before := log;
      var r := AppendBatchActive(ps, clock);
      Basics();
      o, k := 0, 0;
      match r
      case Err(SegmentFull) =>
        err := Some(SegmentFull);
        StageFull(start, batch, d, clock, log);
        NotFull(log, PayloadLen(ps[0]));
        TailRotated(before, log, old(ActiveTail()));
        AddSegment();
        Basics();
      case Err(MessageTooLarge) =>
        err := Some(MessageTooLarge);
        StageFails(start, batch, d, clock, log);
      case Ok((first, count)) =>
        err, o, k := None, first, count;
        StageAdvance(start, batch, d, clock, before, log, k);
        PlaceAllSegments(before, ps[..k], clock);
        PlaceAllGrows(before, ps[..k], clock);
        EndsAt(log);
        if k < |ps| {
          NotFull(log, PayloadLen(ps[k]));
          TailRotated(before, log, old(ActiveTail()));
          RotatedInside(before, log, old(ActiveTail()), old(damaged), old(Appendable()));
          AddSegment();
          Basics();
        }
    }

    /**
     * Between two rounds of `append_batch` that began on log `start` with active file `f` and damaged
     * segment `b`: `d` payloads are placed, and the first active file is damaged exactly if it was or
     * if a call has written behind its cursor.
     */
    ghost predicate Midway(
      start: Log, f: Tail, b: int, batch: seq<Payload>, clock: nat -> nat, d: nat, called: bool)
      reads this, segments, Objects()
    {
      && segments != [] && log.segs != [] && start.segs != [] && log.max == max && |segments| == |log.segs|
      && Sound() && Stage(start, batch, d, clock, log) && d <= |batch| && Next(log) == Next(start) + d
      && |log.segs| >= |start.segs| > b >= -1
      && (!called ==> d == 0 && log == start && damaged == b && ActiveTail() == f)
      && (called ==>
            && damaged == Hit(start, f, b, batch)
            && (Loses(start, log, f, b, batch) ==> lost == LostRange(start)))
      && (called && d < |batch| ==> |log.segs| > |start.segs|)
      && (damaged < |segments| - 1 ==> ActiveTail() == TailBetween(start, log, f))
    }

    /** The offsets that a batch on `start` has put into what was the active segment then. */
    ghost function LostRange(start: Log): Span
      requires |start.segs| <= |log.segs|
      reads this
    {
      Span(Next(start), BaseOf(log, |start.segs|))
    }

    lemma MidwayStart(batch: seq<Payload>, clock: nat -> nat)
      requires Sound()
      ensures segments != [] && log.segs != [] && Midway(log, ActiveTail(), damaged, batch, clock, 0, false)
      ensures damaged == -1 ==> (Appendable() <==> AtEnd(log, ActiveTail()))
      ensures AppendMode() <==> ActiveTail().append
      ensures AppendMode() ==> damaged < |segments| - 1
    {
      hide Sound, Stage, BatchWrites, TailBetween, SizeOf, Hit, Loses;
      TailIs();
      Basics();
      StageStart(log, batch, clock);
      TailOfSame(log, ActiveTail());
    }

    /** One round of `append_batch`. */
    method BatchStep(ps: seq<Payload>, clock: nat -> nat, ghost start: Log, ghost f: Tail, ghost b: int,
                     ghost batch: seq<Payload>, ghost d: nat, ghost called: bool)
      returns (err: Option<Error>, o: nat, k: nat)
      requires Midway(start, f, b, batch, clock, d, called) && d < |batch| && ps == batch[d..]
      requires Next(start) + |batch| < U64_LIMIT && Ticks(clock) && LengthsFit(batch, max)
      modifies Objects()
      ensures fresh(Objects() - old(Objects())) && GapsKept(old(gaps), gaps)
      ensures err == Some(MessageTooLarge) ==>
                Ended(start, f, b, batch) && LogSpec.AppendBatch(start, batch, clock) == (log, Err(MessageTooLarge))
      ensures err == Some(SegmentFull) ==>
                LastEmpty(log) && !LastEmpty(old(log)) && Midway(start, f, b, batch, clock, d, true)
      ensures err == None ==>
                0 < k <= |ps| && o == Next(start) + d && Midway(start, f, b, batch, clock, d + k, true)
    {
      hide Sound, Stage, BatchWrites, LogSpec.AppendBatch, TailBetween, SizeOf, LengthsFit, Ticks, Next, LastEmpty,
           BaseOf, Inside, Loses, Appendable, AtEnd;
      ghost var before := log;
      Basics();
      CanWrite(start, f, b, batch, clock, d, called);
      LengthsFitFrom(batch, max, d);
      err, o, k := BatchCall(ps, clock, start, batch, d);
      Basics();
      if called {
        TailTwice(start, before, log, f);
        StillLost(start, before, log, f, b, batch);
      } else {
        assert batch[0..] == batch;
        TailOfSame(start, f);
        NowLost(start, log, f, b, batch, old(Appendable()));
      }
    }

    /** When `append_batch` returns. */
    ghost predicate Ended(start: Log, f: Tail, b: int, batch: seq<Payload>)
      reads this, segments, Objects()
    {
      && segments != [] && start.segs != [] && |segments| == |log.segs| >= |start.segs| > b && Sound()
      && damaged == Hit(start, f, b, batch)
      && (Loses(start, log, f, b, batch) ==> lost == LostRange(start))
      && (damaged < |segments| - 1 ==> ActiveTail() == TailBetween(start, log, f))
    }

    /** A rotated active file is in append mode; the first one is as it was. */
    lemma CanWrite(start: Log, f: Tail, b: int, batch: seq<Payload>, clock: nat -> nat, d: nat, called: bool)
      requires Midway(start, f, b, batch, clock, d, called) && d < |batch|
      ensures called ==> Appendable() && damaged < |segments| - 1
      ensures !called && b == -1 ==> (Appendable() <==> AtEnd(start, f))
    {
      hide Sound, Stage, BatchWrites, TailBetween, SizeOf, Loses;
      Basics();
      TailIs();
      if called {
        TailTwice(start, log, log, f);
      }
    }

    /**
     * `Partition::append_batch`: fills the active segment, rotates and goes on, as often as needed.
     * It terminates because a fresh segment is never full for a payload that passed the size check.
     * What is answered and stored does not depend on damage. The files stay intact exactly when the
     * batch writes nothing to an active file whose cursor has moved; records that go inside the old
     * file are lost.
     */
    method AppendBatch(batch: seq<Payload>, clock: nat -> nat) returns (res: Result<nat>)
      requires Sound() && Next(log) + |batch| < U64_LIMIT
      requires Ticks(clock)
      requires LengthsFit(batch, max)
      modifies Objects()
      ensures Sound() && fresh(Objects() - old(Objects())) && GapsKept(old(gaps), gaps)
      ensures (log, res) == LogSpec.AppendBatch(old(log), batch, clock)
      ensures old(log).segs != [] && segments != [] && old(segments) != [] && |log.segs| >= |old(log).segs|
      ensures damaged == if old(damaged) == -1 && !old(Appendable()) && BatchWrites(old(log), batch)
                         then |old(log).segs| - 1 else old(damaged)
      ensures damaged < |segments| - 1 ==> ActiveTail() == TailBetween(old(log), log, old(ActiveTail()))
      ensures old(Valid()) && old(Appendable()) ==> Valid() && Appendable()
      ensures old(AppendMode()) ==> AppendMode()
      ensures Loses(old(log), log, old(ActiveTail()), old(damaged), batch) ==> lost == LostRange(old(log))
    {
      hide Sound, Midway, Ended, Next, LengthsFit, Ticks, LogSpec.AppendBatch, BatchWrites, TailBetween, AtEnd,
           Appendable, AppendMode, ActiveTail, Loses, LostRange;
      MidwayStart(batch, clock);
      Basics();
      ghost var start, f, b := log, ActiveTail(), damaged;
      var first := BatchLoop(batch, clock, start, f, b);
      EndedMeans(start, f, b, batch);
      match first
      case Err(e) =>
        res := Err(e);
      case Ok(Some(o)) =>
        res := Ok(o);
      case Ok(None) =>
        var next := NextOffset();
        res := Ok(next);
    }

    /** The loop of `append_batch`, which remembers the first offset that was assigned. */
    method BatchLoop(batch: seq<Payload>, clock: nat -> nat, ghost start: Log, ghost f: Tail, ghost b: int)
      returns (res: Result<Option<nat>>)
      requires Midway(start, f, b, batch, clock, 0, false)
      requires Next(start) + |batch| < U64_LIMIT && Ticks(clock) && LengthsFit(batch, max)
      modifies Objects()
      ensures fresh(Objects() - old(Objects())) && GapsKept(old(gaps), gaps) && Ended(start, f, b, batch)
      ensures LogSpec.AppendBatch(start, batch, clock) ==
              (log, match res case Err(e) => Err(e) case Ok(Some(o)) => Ok(o) case Ok(None) => Ok(Next(log)))
    {
      hide Sound, Midway, Ended, Next, LengthsFit, Ticks, LastEmpty, LogSpec.AppendBatch;
      var ps, first := batch, None;
      ghost var d, called := 0, false;
      while ps != []
        invariant fresh(Objects() - old(Objects())) && GapsKept(old(gaps), gaps)
        invariant d <= |batch| && ps == batch[d..] && Midway(start, f, b, batch, clock, d, called)
        invariant first == if d == 0 then None else Some(Next(start))
        decreases |ps|, if LastEmpty(log) then 0 else 1
      {
        var err, o, k := BatchStep(ps, clock, start, f, b, batch, d, called);
        called := true;
        match err
        case Some(MessageTooLarge) =>
          return Err(MessageTooLarge);
        case Some(SegmentFull) =>
        case None =>
          if first.None? {
            first := Some(o);
          }
          assert batch[d..][k..] == batch[d + k..];
          ps := ps[k..];
          d := d + k;
      }
      BatchDone(start, f, b, batch, clock, called);
      res := Ok(first);
    }

    lemma EndedMeans(start: Log, f: Tail, b: int, batch: seq<Payload>)
      requires Ended(start, f, b, batch)
      ensures Sound() && segments != [] && start.segs != [] && |segments| == |log.segs| >= |start.segs|
      ensures damaged == Hit(start, f, b, batch)
      ensures Loses(start, log, f, b, batch) ==> lost == LostRange(start)
      ensures damaged < |segments| - 1 ==> ActiveTail() == TailBetween(start, log, f)
      ensures b == -1 && AtEnd(start, f) ==> damaged == -1 && Appendable()
      ensures f.append && b < |start.segs| - 1 ==> AppendMode()
    {
      hide Sound, BatchWrites, TailBetween, SizeOf, Loses;
      Basics();
      Closing(start, f);
    }

    lemma BatchDone(start: Log, f: Tail, b: int, batch: seq<Payload>, clock: nat -> nat, called: bool)
      requires Midway(start, f, b, batch, clock, |batch|, called)
      ensures LogSpec.AppendBatch(start, batch, clock) == (log, Ok(Next(start))) && Ended(start, f, b, batch)
      ensures batch == [] ==> Next(log) == Next(start)
    {
      hide Sound, Stage, BatchWrites, TailBetween, SizeOf, LogSpec.AppendBatch;
      NothingToWrite(start, batch);
      StageDone(start, batch, clock, log);
    }

    /** `Partition::next_offset`. */
    method NextOffset() returns (next: nat)
      requires Sound()
      ensures Sound() && next == Next(log)
    {
      hide WellFormed, Flat, SizeOf, Segment.Valid, Segment.Damaged, Segment.Listed, Segment.Lost;
      Basics();
      LastBase(log);
      var n := |segments| - 1;
      assert Matches(segments[n], log, n, gaps[n], n == damaged);
      CountsOf(segments[n]);
      next := segments[n].next;
    }

    function Bases(): (bs: seq<nat>)
      reads this
      ensures |bs| == |segments| && forall i :: 0 <= i < |bs| ==> bs[i] == segments[i].base
    {
      seq(|segments|, i requires 0 <= i < |segments| reads this => segments[i].base)
    }

    lemma BasesAre()
      requires Sound()
      ensures |segments| == |Bases()| == |log.segs| && Sorted(Bases())
      ensures forall i :: 0 <= i < |segments| ==> segments[i].base == Bases()[i] == BaseOf(log, i)
    {
      hide Flat, Segment.Valid, Segment.Damaged, Segment.Listed, Segment.Lost;
      forall i | 0 <= i < |segments|
        ensures Bases()[i] == BaseOf(log, i)
      {
        assert Matches(segments[i], log, i, gaps[i], i == damaged);
      }
      BasesIncrease(log);
    }

    /** The binary search of `read` and `read_batch`: the last segment whose base is not above the offset. */
    method FindSegment(offset: nat) returns (i: Option<nat>)
      requires Sound()
      ensures Sound()
      ensures i.None? <==> offset < log.base
      ensures i.Some? ==> i.value < |segments| && BaseOf(log, i.value) <= offset
      ensures i.Some? && i.value + 1 < |segments| ==> offset < BaseOf(log, i.value + 1)
      ensures i.Some? && offset < Next(log) ==> i.value == SegmentAt(log.segs, offset - log.base)
      ensures i.Some? && offset >= Next(log) ==> i.value == |segments| - 1
    {
      hide WellFormed, Segment.Valid, Segment.Damaged, Segment.Listed, Segment.Lost, Flat, SegmentAt, Sorted;
      BasesAre();
      Basics();
      FirstBase(log);
      i := LastNotAfter(Bases(), offset);
      if i.Some? {
        LastNotAbove(log, offset, i.value);
      }
    }

    /** `Partition::read`: record `offset` of the flat log, or nothing outside of it or where the index has lost it. */
    method Read(offset: nat, short: nat) returns (r: Option<Record>)
      requires Sound() && damaged == -1
      modifies segments
      ensures Sound() && segments != [] && log.segs != []
      ensures r == if Gone(log, gaps, offset) then None else LogSpec.Read(log, offset)
      ensures var f := old(ActiveTail());
              ActiveTail() == if Gone(log, gaps, offset) then f
                              else f.(cursor := CursorAfterRead(log, offset, short, f.cursor))
      ensures Appendable() <==>
              || AppendMode()
              || if BaseOf(log, |log.segs| - 1) <= offset < Next(log) && !Gone(log, gaps, offset) then
                   || offset == Next(log) - 1
                   || SizeOf(Last(log)[offset - BaseOf(log, |log.segs| - 1)..]) <= Min(short, READ_CHUNK)
                 else old(Appendable())
    {
      hide Sound, Flat, WellFormed, SegmentAt, SizeOf, Reach;
      Basics();
      LastBase(log);
      var i := FindSegment(offset);
      if i.None? {
        return None;
      }
      if gaps[i.value].Has(offset) {
        InGap(i.value, offset);
      }
      assert Gone(log, gaps, offset) == gaps[i.value].Has(offset);
      if i.value < |segments| - 1 {
        BasesInOrder(log, i.value + 1, |segments| - 1);
      }
      r := ReadIn(i.value, offset, short);
      ReadInSegment(log, offset, i.value);
    }

    /** A read of one offset in the segment that has to hold it. */
    method ReadIn(i: nat, offset: nat, short: nat) returns (r: Option<Record>)
      requires Sound() && damaged == -1 && i < |segments| == |log.segs| == |gaps| && BaseOf(log, i) <= offset
      modifies segments
      ensures Sound()
      ensures var found := offset < BaseOf(log, i) + |log.segs[i]| && !gaps[i].Has(offset);
              && r == (if found then Some(log.segs[i][offset - BaseOf(log, i)]) else None)
              && (i < |segments| - 1 || !found ==>
                    ActiveTail() == old(ActiveTail()) && Appendable() == old(Appendable()))
              && (i == |segments| - 1 && found ==>
                    var f := old(ActiveTail());
                    && ActiveTail() == f.(cursor := CursorAfterRead(log, offset, short, f.cursor))
                    && (Appendable() <==> || AppendMode() || offset == BaseOf(log, i) + |log.segs[i]| - 1
                                          || SizeOf(log.segs[i][offset - BaseOf(log, i)..]) <= Min(short, READ_CHUNK)))
      ensures AppendMode() == old(AppendMode())
    {
      hide Sound, Flat, WellFormed, SizeOf, Reach, Segment.Valid, ListedEntries, Segment.Lost;
      var s := segments[i];
      TakeOut(i);
      WhatIsIndexed(s, offset);
      r := s.ReadAt(offset, short);
      PutBack(i);
    }

    /** Segment `i` gives a fetch what the log has at `at`. */
    ghost predicate Finds(i: nat, at: nat)
      requires i < |gaps|
      reads this
    {
      i != damaged && !gaps[i].Has(at)
    }

    /** Segment `i` gives a fetch nothing at `at`, although the log has a record there. */
    ghost predicate Misses(i: nat, at: nat)
      requires i < |gaps|
      reads this
    {
      if i == damaged then lost.Has(at) else gaps[i].Has(at)
    }

    /** No damaged segment lies at or after the one in which a fetch of this offset starts. */
    ghost predicate Clear(offset: nat)
      requires damaged < |log.segs|
      reads this
    {
      damaged < 0 || (damaged < |log.segs| - 1 && BaseOf(log, damaged + 1) <= offset)
    }

    /**
     * `Partition::read_batch`, when the file returns what is asked for. The cursor of the active log
     * file ends where the last read of that file ended. An offset that an index has lost, or that was
     * lost to a misplaced write, makes the fetch start at the next segment. In the damaged file it may
     * find anything, or end in a panic.
     */
    method ReadBatch(offset: nat, maxBytes: nat) returns (rs: Option<seq<Record>>)
      requires Sound()
      modifies segments
      ensures Sound() && segments != [] && |segments| == |log.segs| == |gaps| && damaged < |log.segs|
      ensures Clear(offset) ==>
                var f, o := old(ActiveTail()), RealStart(log, gaps, offset);
                && rs == Some(Fetch(log, o, maxBytes))
                && ActiveTail() == f.(cursor := CursorAfterFetch(log, o, maxBytes, f.cursor))
      ensures lost.Has(offset) && damaged >= 0 ==> rs == Some(Fetch(log, BaseOf(log, damaged + 1), maxBytes))
    {
      hide Sound, Fetch, Course, CursorAfterFetch, RealStart, BaseOf;
      var at, budget, results := offset, maxBytes, [];
      Basics();
      ghost var start := ActiveTail().cursor;
      var found := FindSegment(offset);
      if found.None? {
        NothingBelow(offset, maxBytes, start);
        return Some([]);
      }
      var i := found.value;
      ghost var o, sure, skipping := Begin(offset, maxBytes, i, start);
      ghost var cursor := start;
      while i < |segments| && budget > 0
        invariant Sound() && i <= |segments| && ActiveTail().append == old(ActiveTail()).append
        invariant i < |segments| ==> BaseOf(log, i) <= at
        invariant sure ==> Course(o, maxBytes, start, i, at, budget, cursor, results, skipping)
      {
        var res, stopped;
        res, budget, at, stopped, cursor, skipping :=
          Round(i, at, budget, results, o, maxBytes, start, cursor, sure, skipping);
        if res.None? {
          return None;
        }
        results := res.value;
        if stopped {
          return Some(results);
        }
        i := i + 1;
      }
      if sure {
        CourseEnds(o, maxBytes, start, i, at, budget, cursor, results, skipping);
      }
      rs := Some(results);
    }

    /**
     * A fetch under way: it skips segment `i`, which has lost the offset `at`, or takes what is there.
     * `cursor` is that of the active file, if that is intact.
     */
    ghost predicate Course(o: nat, maxBytes: nat, start: nat, i: nat, at: nat, budget: nat, cursor: nat,
                           results: seq<Record>, skipping: bool)
      reads this, segments
    {
      && segments != [] && |segments| == |log.segs| == |gaps|
      && (damaged < |segments| - 1 ==> cursor == ActiveTail().cursor)
      && if skipping then
           && results == [] && budget == maxBytes && i < |segments| && cursor == start
           && o == BaseOf(log, i + 1) && Misses(i, at) && damaged <= i
         else
           && FetchWalk(log, o, maxBytes, start, i, at, budget, cursor, results)
           && (i < |segments| ==> Finds(i, at)) && damaged < i
    }

    /** One round of `read_batch`, and the offset at which the next one stands. */
    method Round(i: nat, at: nat, budget: nat, results: seq<Record>, ghost o: nat, ghost maxBytes: nat,
                 ghost start: nat, ghost cursor: nat, ghost sure: bool, ghost skipping: bool)
      returns (rs: Option<seq<Record>>, left: nat, at': nat, stopped: bool, ghost cursor': nat, ghost skipping': bool)
      requires Sound() && i < |segments| == |log.segs| == |gaps| && BaseOf(log, i) <= at && budget > 0
      requires sure ==> Course(o, maxBytes, start, i, at, budget, cursor, results, skipping)
      modifies segments
      ensures Sound() && ActiveTail().append == old(ActiveTail()).append
      ensures i + 1 < |segments| ==> BaseOf(log, i + 1) <= at'
      ensures sure ==> rs.Some?
      ensures sure && stopped ==>
                && rs.value == Fetch(log, o, maxBytes) && cursor' == CursorAfterFetch(log, o, maxBytes, start)
                && (damaged < |segments| - 1 ==> cursor' == ActiveTail().cursor)
      ensures sure && !stopped ==> Course(o, maxBytes, start, i + 1, at', left, cursor', rs.value, skipping')
    {
      hide Sound, Fetch, FetchWalk, CursorAfterFetch, FromSegment, SegmentCursor, SizeOf, WellFormed, BaseOf, Run;
      Basics();
      at', cursor', skipping' := at, cursor, false;
      rs, left, stopped := FetchSegment(i, at, budget, results);
      Basics();
      BasesAre();
      if i + 1 < |segments| {
        at' := segments[i + 1].base;
        BaseIsFound(i + 1);
      }
      if sure {
        if skipping {
          SkipsTo(log, i, at, maxBytes, start);
        } else {
          cursor' := SegmentCursor(log, i, at, budget, cursor);
          WalkStep(log, o, maxBytes, start, i, at, budget, cursor, results, FromSegment(log, i, at, budget));
        }
      }
    }

    lemma CourseEnds(o: nat, maxBytes: nat, start: nat, i: nat, at: nat, budget: nat, cursor: nat,
                     results: seq<Record>, skipping: bool)
      requires Course(o, maxBytes, start, i, at, budget, cursor, results, skipping)
      requires i >= |segments| || budget == 0
      ensures log.segs != [] && segments != []
      ensures results == Fetch(log, o, maxBytes) && cursor == CursorAfterFetch(log, o, maxBytes, start)
      ensures damaged < |segments| - 1 ==> cursor == ActiveTail().cursor
    {
      hide Fetch, FetchWalk, CursorAfterFetch, BaseOf;
      if skipping {
        NoBudgetAtAll(log, o, maxBytes, start);
      } else {
        FetchEnds(log, o, maxBytes, start, i, at, budget, cursor, results);
      }
    }

    /** How a fetch begins in the segment that was found for it. */
    lemma Begin(offset: nat, maxBytes: nat, i: nat, start: nat) returns (o: nat, sure: bool, skipping: bool)
      requires Sound() && i < |segments| == |log.segs| == |gaps| && damaged < |log.segs| && BaseOf(log, i) <= offset
      requires log.base <= offset && (i + 1 < |segments| ==> offset < BaseOf(log, i + 1))
      requires offset < Next(log) ==> i == SegmentAt(log.segs, offset - log.base)
      requires offset >= Next(log) ==> i == |segments| - 1
      requires start == ActiveTail().cursor
      ensures sure ==> Course(o, maxBytes, start, i, offset, maxBytes, start, [], skipping)
      ensures Clear(offset) ==> sure && o == RealStart(log, gaps, offset)
      ensures lost.Has(offset) && damaged >= 0 ==> sure && o == BaseOf(log, damaged + 1)
    {
      hide Flat, SegmentAt, WellFormed, FetchWalk, Segment.Valid, Segment.Damaged, Segment.Listed, Segment.Lost;
      sure, skipping, o := false, false, offset;
      if damaged >= 0 && lost.Has(offset) {
        LostIn(offset);
        InOneSegment(log, offset, damaged, i);
        sure, skipping, o := true, true, BaseOf(log, i + 1);
      } else if Clear(offset) {
        if damaged >= i {
          BasesInOrder(log, i + 1, damaged + 1);
          assert false;
        }
        sure := true;
        if gaps[i].Has(offset) {
          InGap(i, offset);
          skipping, o := true, BaseOf(log, i + 1);
        } else {
          FetchStarts(log, offset, maxBytes, i, start);
        }
      }
    }

    lemma NothingBelow(offset: nat, maxBytes: nat, cursor: nat)
      requires Sound() && log.segs != [] && offset < log.base
      ensures RealStart(log, gaps, offset) == offset && Fetch(log, offset, maxBytes) == []
      ensures CursorAfterFetch(log, offset, maxBytes, cursor) == cursor
      ensures damaged >= 0 ==> !lost.Has(offset)
    {
      hide Flat, WellFormed, Fetch, CursorAfterFetch, Segment.Valid, Segment.Damaged, Segment.Listed, Segment.Lost;
      FetchBelow(log, offset, maxBytes, cursor);
      if damaged >= 0 && lost.Has(offset) {
        LostIn(offset);
        assert false;
      }
    }

    /** A lost offset belongs to the damaged segment, past the end of its file. */
    lemma LostIn(offset: nat)
      requires Sound() && lost.Has(offset)
      ensures 0 <= damaged < |segments| == |log.segs|
      ensures BaseOf(log, damaged) <= offset < BaseOf(log, damaged + 1) && segments[damaged].PastEnd(offset)
    {
      hide Flat, WellFormed, SizeOf, Segment.Valid, Segment.Damaged, Segment.Listed;
      assert Matches(segments[damaged], log, damaged, gaps[damaged], true);
      segments[damaged].LostIsPast(lost, offset);
      FlatAt(log.segs, damaged);
    }

    /** A segment always finds its own first record. */
    lemma BaseIsFound(i: nat)
      requires Sound() && i < |segments| == |log.segs| == |gaps|
      ensures !gaps[i].Has(BaseOf(log, i))
    {
      hide Flat, WellFormed, SizeOf, Segment.Valid, Segment.Damaged, Segment.Lost, ListedEntries;
      assert Matches(segments[i], log, i, gaps[i], i == damaged);
    }

    /** The gap of a segment lies inside that segment. */
    lemma InGap(i: nat, offset: nat)
      requires Sound() && i < |segments| == |log.segs| == |gaps| && gaps[i].Has(offset)
      ensures BaseOf(log, i) <= offset < BaseOf(log, i) + |log.segs[i]| && offset < Next(log)
    {
      hide Flat, WellFormed, SizeOf, Segment.Valid, Segment.Damaged, Segment.Lost, ListedEntries;
      assert Matches(segments[i], log, i, gaps[i], i == damaged);
      FlatAt(log.segs, i);
    }

    /** A read of segment `i` moves its cursor and nothing else. */
    method ReadSegment(s: Segment, ghost i: nat, at: nat, budget: nat, short: nat)
      returns (records: Option<seq<Record>>)
      requires Sound() && i < |segments| == |log.segs| == |gaps| && s == segments[i] && short > 0
      modifies s`log
      ensures Sound() && s.log == old(s.log).Seek(s.log.cursor)
      ensures && (at !in Offsets(s.index.entries) ==> records == Some([]) && s.log == old(s.log))
              && (i != damaged && at in Offsets(s.index.entries) ==>
                    && s.base <= at < s.base + |s.recs|
                    && records == Some(FirstRun(s.recs[at - s.base..], Min(budget, short)))
                    && s.log.cursor == SizeOf(s.recs[..at - s.base]) +
                                       Reach(s.recs[at - s.base..], Min(short, Capacity(budget))))
              && (i == damaged && lost.Has(at) ==> records == Some([]))
    {
      hide Sound, BaseOf, WellFormed, Segment.Valid, Segment.Damaged, ListedEntries, FirstRun, SizeOf, Reach,
           Segment.PastEnd, Capacity;
      if i == damaged && lost.Has(at) {
        LostIn(at);
      }
      TakeOut(i);
      CountsOf(s);
      if i == damaged {
        s.DamagedIsNotValid();
      }
      records := s.ReadBatch(at, budget, short);
      PutBack(i);
    }

    /** A full read of segment `i` from offset `at`. */
    method ReadFrom(i: nat, at: nat, budget: nat) returns (records: Option<seq<Record>>)
      requires Sound() && i < |segments| == |log.segs| == |gaps| && BaseOf(log, i) <= at
      modifies segments
      ensures Sound() && ActiveTail().append == old(ActiveTail()).append
      ensures Finds(i, at) ==>
                && records == Some(FromSegment(log, i, at, budget))
                && (damaged < |segments| - 1 ==>
                      ActiveTail().cursor == SegmentCursor(log, i, at, budget, old(ActiveTail()).cursor))
      ensures Misses(i, at) ==>
                records == Some([]) && (damaged < |segments| - 1 ==> ActiveTail() == old(ActiveTail()))
    {
      hide Sound, BaseOf, Segment.Valid, Segment.Damaged, ListedEntries, FirstRun, SizeOf, Reach, RestBut,
           FromSegment, SegmentCursor, Capacity, Segment.Lost;
      Basics();
      TakeOut(i);
      WhatIsIndexed(segments[i], at);
      ReadsAt(log, i, at, budget, ActiveTail().cursor, segments[i].base);
      DifferentSegments(i);
      records := ReadSegment(segments[i], i, at, budget, Capacity(budget));
    }

    lemma DifferentSegments(i: nat)
      requires Sound() && i < |segments|
      ensures i < |segments| - 1 ==> segments[i] != segments[|segments| - 1]
    {
    }

    /** One round of `read_batch`. */
    method FetchSegment(i: nat, at: nat, budget: nat, results: seq<Record>)
      returns (rs: Option<seq<Record>>, left: nat, stopped: bool)
      requires Sound() && i < |segments| == |log.segs| == |gaps| && BaseOf(log, i) <= at && budget > 0
      modifies segments
      ensures Sound() && ActiveTail().append == old(ActiveTail()).append
      ensures Finds(i, at) ==>
                var records := FromSegment(log, i, at, budget);
                && rs.Some? && (stopped <==> SizeOf(records) > budget)
                && (!stopped ==> rs.value == results + records && left == budget - SizeOf(records))
                && (stopped && |records| == 1 && Run(records, budget) == [] ==>
                      rs.value == if results == [] then records else results)
                && (damaged < |segments| - 1 ==>
                      ActiveTail().cursor == SegmentCursor(log, i, at, budget, old(ActiveTail()).cursor))
      ensures Misses(i, at) ==>
                && rs == Some(results) && left == budget && !stopped
                && (damaged < |segments| - 1 ==> ActiveTail() == old(ActiveTail()))
    {
      hide WellFormed, Segment.Valid, Segment.Damaged, Segment.Listed, Segment.Lost, SegmentCursor, FromSegment, SizeOf,
           Run, BaseOf;
      var records := ReadFrom(i, at, budget);
      if records.None? {
        return None, budget, true;
      }
      if records == Some([]) {
        SizeOfNone();
        assert results + [] == results;
        rs, left, stopped := Some(results), budget, false;
      } else {
        var taken;
        taken, left, stopped := Take(records.value, budget, results);
        rs := Some(taken);
      }
    }
  }

  /** Exactly the offsets of the segment outside of its gap are indexed. */
  lemma WhatIsIndexed(s: Segment, offset: nat)
    requires (s.Valid() || s.Damaged()) && s.Listed()
    ensures offset in Offsets(s.index.entries) <==> s.base <= offset < s.base + |s.recs| && !s.gap.Has(offset)
    ensures s.next == s.base + |s.recs|
  {
    hide SizeOf, EncodeAll, ListedEntries, IndexSound;
    ListedHas(s.base, s.recs, s.gap, offset);
  }
}
