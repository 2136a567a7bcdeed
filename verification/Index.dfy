/** The companion index of a segment (src/storage/index.rs). */
module Indexes {
  import opened Bytes
  import opened Files

  const ENTRY_SIZE: nat := 16

  datatype IndexEntry = IndexEntry(offset: nat, position: nat)

  function EncodeEntry(e: IndexEntry): (s: seq<Byte>)
    ensures |s| == ENTRY_SIZE
  {
    PutU64(e.offset) + PutU64(e.position)
  }

  function DecodeEntry(s: seq<Byte>): IndexEntry
    requires |s| == ENTRY_SIZE
  {
    IndexEntry(GetU64(s), GetU64(s[8..]))
  }

  predicate Fits(e: IndexEntry) { e.offset < U64_LIMIT && e.position < U64_LIMIT }

  lemma EntryRoundTrip(e: IndexEntry)
    ensures DecodeEntry(EncodeEntry(e)) == e <==> Fits(e)
  {
    hide PutU64, GetU64;
    GetPutU64(e.offset, PutU64(e.position));
    GetPutU64(e.position, []);
    assert PutU64(e.position) + [] == PutU64(e.position) == EncodeEntry(e)[8..];
  }

  /** An entry by byte positions: the offset, then the position in the log file. */
  lemma EntryLayout(e: IndexEntry)
    ensures GetU64(EncodeEntry(e)) == e.offset % U64_LIMIT
    ensures GetU64(EncodeEntry(e)[8..]) == e.position % U64_LIMIT
  {
    hide PutU64, GetU64;
    GetPutU64(e.offset, PutU64(e.position));
    GetPutU64(e.position, []);
    assert PutU64(e.position) + [] == PutU64(e.position) == EncodeEntry(e)[8..];
  }

  lemma EntryOfBytes(s: seq<Byte>)
    requires |s| == ENTRY_SIZE
    ensures Fits(DecodeEntry(s)) && EncodeEntry(DecodeEntry(s)) == s
  {
    hide PutU64, GetU64;
    PutGetU64(s);
    PutGetU64(s[8..]);
    assert s[8..][..8] == s[8..];
  }

  function EncodeEntries(es: seq<IndexEntry>): (s: seq<Byte>)
    ensures |s| == ENTRY_SIZE * |es|
  {
    if es == [] then [] else EncodeEntries(es[..|es| - 1]) + EncodeEntry(es[|es| - 1])
  }

  function DecodeEntries(s: seq<Byte>): (es: seq<IndexEntry>)
    requires |s| % ENTRY_SIZE == 0
    ensures |s| == ENTRY_SIZE * |es|
  {
    if s == [] then [] else DecodeEntries(s[..|s| - ENTRY_SIZE]) + [DecodeEntry(s[|s| - ENTRY_SIZE..])]
  }

  /** Reading the whole index file back gives the entries that were written. */
  lemma {:induction false} EntriesRoundTrip(es: seq<IndexEntry>)
    requires forall e :: e in es ==> Fits(e)
    ensures DecodeEntries(EncodeEntries(es)) == es
  {
    hide EncodeEntry, DecodeEntry;
    if es != [] {
      var init, last := es[..|es| - 1], es[|es| - 1];
      var s := EncodeEntries(es);
      EntriesRoundTrip(init);
      EntryRoundTrip(last);
      assert s[..|s| - ENTRY_SIZE] == EncodeEntries(init);
      assert s[|s| - ENTRY_SIZE..] == EncodeEntry(last);
    }
  }

  /** Any index file of whole entries is what its decoded entries would be written as. */
  lemma {:induction false} EntriesOfBytes(s: seq<Byte>)
    requires |s| % ENTRY_SIZE == 0
    ensures EncodeEntries(DecodeEntries(s)) == s
  {
    hide EncodeEntry, DecodeEntry;
    if s != [] {
      var n := |s| - ENTRY_SIZE;
      EntriesOfBytes(s[..n]);
      EntryOfBytes(s[n..]);
      assert DecodeEntries(s)[..|DecodeEntries(s)| - 1] == DecodeEntries(s[..n]);
    }
  }

  predicate Sorted(keys: seq<nat>) { forall i, j :: 0 <= i < j < |keys| ==> keys[i] < keys[j] }

  /** `binary_search_by_key`: the index of `target`, or else the place where it would be inserted. */
  method BinarySearch(keys: seq<nat>, target: nat) returns (found: bool, idx: nat)
    requires Sorted(keys)
    ensures found <==> target in keys
    ensures found ==> idx < |keys| && keys[idx] == target
    ensures !found ==> idx <= |keys|
    ensures !found ==> (forall i :: 0 <= i < idx ==> keys[i] < target)
    ensures !found ==> (forall i :: idx <= i < |keys| ==> target < keys[i])
  {
    var lo, hi := 0, |keys|;
    while lo < hi
      invariant 0 <= lo <= hi <= |keys|
      invariant forall i :: 0 <= i < lo ==> keys[i] < target
      invariant forall i :: hi <= i < |keys| ==> target < keys[i]
    {
      var mid := (lo + hi) / 2;
      if keys[mid] == target {
        return true, mid;
      } else if keys[mid] < target {
        lo := mid + 1;
      } else {
        hi := mid;
      }
    }
    return false, lo;
  }

  function Offsets(es: seq<IndexEntry>): (ks: seq<nat>)
    ensures |ks| == |es| && forall i :: 0 <= i < |es| ==> ks[i] == es[i].offset
  {
    seq(|es|, i requires 0 <= i < |es| => es[i].offset)
  }

  /** The in-memory entries mirror the file, which is always ready to be extended. */
  class Index {
    var file: File
    var entries: seq<IndexEntry>

    ghost predicate Valid()
      reads this
    {
      file.data == EncodeEntries(entries) && file.AtEnd()
    }

    /** `Index::create`: truncates whatever was there. */
    constructor Create()
      ensures Valid() && entries == []
    {
      file := File([], 0, false);
      entries := [];
    }

    constructor FromFile(bytes: seq<Byte>, es: seq<IndexEntry>)
      requires bytes == EncodeEntries(es)
      ensures Valid() && entries == es
    {
      file := File(bytes, |bytes|, false);
      entries := es;
    }

    method Append(offset: nat, position: nat)
      requires Valid()
      modifies this
      ensures Valid() && entries == old(entries) + [IndexEntry(offset, position)]
    {
      hide EncodeEntry;
      var e := IndexEntry(offset, position);
      WriteExtendsIff(file, EncodeEntry(e));
      file := file.Write(EncodeEntry(e));
      entries := entries + [e];
      assert entries[..|entries| - 1] == old(entries);
    }

    method AppendAll(es: seq<IndexEntry>)
      requires Valid()
      modifies this
      ensures Valid() && entries == old(entries) + es
    {
      for i := 0 to |es|
        invariant Valid() && entries == old(entries) + es[..i]
      {
        Append(es[i].offset, es[i].position);
      }
    }

    /** The position stored for exactly this offset, if there is one. */
    method Lookup(target: nat) returns (position: Option<nat>)
      requires Sorted(Offsets(entries))
      ensures position.Some? ==> IndexEntry(target, position.value) in entries
      ensures position.None? ==> target !in Offsets(entries)
    {
      var found, idx := BinarySearch(Offsets(entries), target);
      if found {
        assert entries[idx] == IndexEntry(target, entries[idx].position);
        position := Some(entries[idx].position);
      } else {
        position := None;
      }
    }

    /** The entry with the largest offset not above the target. */
    method LookupFloor(target: nat) returns (entry: Option<IndexEntry>)
      requires Sorted(Offsets(entries))
      ensures entry.Some? ==> entry.value in entries && entry.value.offset <= target
      ensures entry.Some? ==>
                forall e :: e in entries && e.offset <= target ==> e.offset <= entry.value.offset
      ensures entry.None? <==> forall e :: e in entries ==> target < e.offset
    {
      var found, idx := BinarySearch(Offsets(entries), target);
      assert forall i :: 0 <= i < |entries| ==> entries[i].offset == Offsets(entries)[i];
      if found {
        entry := Some(entries[idx]);
      } else if idx == 0 {
        entry := None;
      } else {
        entry := Some(entries[idx - 1]);
      }
    }
  }

  lemma NoEntries()
    ensures DecodeEntries([]) == []
  {
  }

  lemma DecodeNext(bytes: seq<Byte>, k: nat)
    requires ENTRY_SIZE * (k + 1) <= |bytes|
    ensures var at := ENTRY_SIZE * k;
            DecodeEntries(bytes[..at + ENTRY_SIZE]) ==
            DecodeEntries(bytes[..at]) + [DecodeEntry(bytes[at..at + ENTRY_SIZE])]
  {
    hide DecodeEntry;
    var at := ENTRY_SIZE * k;
    var s := bytes[..at + ENTRY_SIZE];
    assert s[..|s| - ENTRY_SIZE] == bytes[..at];
    assert s[|s| - ENTRY_SIZE..] == bytes[at..at + ENTRY_SIZE];
  }

  /** An index file that `Index::load` refuses, or that carries no entry at all. */
  predicate Unusable(file: Option<seq<Byte>>)
  {
    file.None? || |file.value| % ENTRY_SIZE != 0 || file.value == []
  }

  /** The entries an index file brings along: none, or all of its own. */
  function Trusted(file: Option<seq<Byte>>): seq<IndexEntry>
  {
    if Unusable(file) then [] else DecodeEntries(file.value)
  }

  /**
   * `Index::load`, with `Index::create` as the fallback of `Segment::load`: a missing file or one
   * that is not a whole number of entries gives an empty index; anything else is taken as it is.
   */
  method OpenIndex(file: Option<seq<Byte>>) returns (index: Index)
    ensures fresh(index) && index.Valid()
    ensures index.entries == Trusted(file)
  {
    hide DecodeEntry, EncodeEntries, DecodeEntries;
    NoEntries();
    if file.None? || |file.value| % ENTRY_SIZE != 0 {
      index := new Index.Create();
      return;
    }
    var bytes := file.value;
    var count := |bytes| / ENTRY_SIZE;
    var entries := [];
    for k := 0 to count
      invariant entries == DecodeEntries(bytes[..ENTRY_SIZE * k])
    {
      var at := ENTRY_SIZE * k;
      DecodeNext(bytes, k);
      entries := entries + [DecodeEntry(bytes[at..at + ENTRY_SIZE])];
    }
    assert bytes[..ENTRY_SIZE * count] == bytes;
    EntriesOfBytes(bytes);
    index := new Index.FromFile(bytes, entries);
  }
}
