/** An open file: its bytes, its cursor and whether it was opened in append mode. I/O succeeds. */
module Files {
  import opened Bytes

  datatype File = File(data: seq<Byte>, cursor: nat, append: bool) {

    /** The next write lands at the end of the file. */
    predicate AtEnd() { append || cursor == |data| }

    /** Bytes between the cursor and the end of the file. */
    function Remaining(): nat { if cursor <= |data| then |data| - cursor else 0 }

    /** Append mode writes at the end; otherwise bytes at the cursor are overwritten and a hole reads as zeros. */
    function Write(b: seq<Byte>): File
    {
      if b == [] then this
      else if append then File(data + b, |data| + |b|, append)
      else if cursor <= |data| then
        File(data[..cursor] + b + data[Min(cursor + |b|, |data|)..], cursor + |b|, append)
      else
        File(data + seq(cursor - |data|, i => 0) + b, cursor + |b|, append)
    }

    /** What a read of up to `n` bytes sees when it is not short. */
    function Peek(n: nat): (b: seq<Byte>)
      ensures |b| == Min(n, Remaining())
    {
      if cursor <= |data| then data[cursor..cursor + Min(n, Remaining())] else []
    }

    function Seek(p: nat): File { this.(cursor := p) }

    function Skip(n: nat): File { this.(cursor := cursor + n) }

    function SeekEnd(): File { this.(cursor := |data|) }

    function Truncate(n: nat): File
      requires n <= |data|
    {
      this.(data := data[..n])
    }
  }

  lemma PeekAt(f: File, n: nat)
    requires f.cursor <= |f.data|
    ensures f.Peek(n) == f.data[f.cursor..][..Min(n, |f.data| - f.cursor)]
  {
  }

  /** Two reads in a row see what one read of both lengths sees. */
  lemma PeekTwice(f: File, a: nat, n: nat)
    requires f.cursor + n <= |f.data| && a <= n
    ensures f.Peek(a) + f.Skip(a).Peek(n - a) == f.data[f.cursor..][..n]
  {
  }

  /** A write extends the file by exactly its bytes if and only if it starts at the end. */
  lemma WriteExtendsIff(f: File, b: seq<Byte>)
    ensures f.Write(b).data == f.data + b <==> b == [] || f.AtEnd()
  {
    if b != [] && !f.append && f.cursor <= |f.data| {
      var tail := f.data[Min(f.cursor + |b|, |f.data|)..];
      assert |f.Write(b).data| == f.cursor + |b| + |tail|;
      if f.cursor == |f.data| {
        assert f.data[..f.cursor] + b + tail == f.data + b;
      }
    }
  }
}
