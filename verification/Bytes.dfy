/** Bytes, big-endian integers and the growable buffer the codecs read from and write to. */
module Bytes {

  type Byte = b: int | 0 <= b < 256

  const U32_LIMIT: nat := 0x1_0000_0000
  const U64_LIMIT: nat := 0x1_0000_0000_0000_0000

  datatype Option<+T> = None | Some(value: T)

  function Min(a: nat, b: nat): nat { if a <= b then a else b }
  function Max(a: nat, b: nat): nat { if a <= b then b else a }

  function Pow256(w: nat): (p: nat)
    ensures p > 0
  {
    if w == 0 then 1 else 256 * Pow256(w - 1)
  }

  /** The low `w` bytes of `n`, most significant first. Higher bytes are lost, as in a narrowing cast. */
  function BigEndian(n: nat, w: nat): (s: seq<Byte>)
    ensures |s| == w
    decreases w, n
  {
    if w == 0 then [] else BigEndian(n / 256, w - 1) + [n % 256]
  }

  function FromBigEndian(s: seq<Byte>): nat
  {
    if s == [] then 0 else 256 * FromBigEndian(s[..|s| - 1]) + s[|s| - 1]
  }

  /** Writing and reading back keeps exactly the value modulo 256^w. */
  lemma {:induction false} BigEndianValue(n: nat, w: nat)
    ensures FromBigEndian(BigEndian(n, w)) == n % Pow256(w)
  {
    if w > 0 {
      BigEndianValue(n / 256, w - 1);
      assert BigEndian(n, w)[..w - 1] == BigEndian(n / 256, w - 1);
      ModSplit(n, Pow256(w - 1));
    }
  }

  lemma ModSplit(n: nat, p: nat)
    requires p > 0
    ensures n % (256 * p) == 256 * (n / 256 % p) + n % 256
  {
    var q, m := n / 256 / p, n / 256 % p;
    assert n / 256 == q * p + m;
    assert n == 256 * (q * p + m) + n % 256;
    assert n == q * (256 * p) + (256 * m + n % 256);
    assert 256 * m <= 256 * (p - 1);
    ModUnique(n, 256 * p, q, 256 * m + n % 256);
  }

  lemma ModUnique(n: nat, d: nat, q: nat, r: nat)
    requires d > 0 && r < d && n == q * d + r
    ensures n % d == r
  {
    var k := q - n / d;
    assert n == n / d * d + n % d;
    assert k * d == q * d - n / d * d;
    if k >= 1 {
      AtLeastOneMultiple(k, d);
    } else if k <= -1 {
      AtLeastOneMultiple(-k, d);
    }
  }

  lemma AtLeastOneMultiple(k: int, d: int)
    requires k >= 1 && d > 0
    ensures k * d >= d
  {
    assert (k - 1) * d >= 0;
    assert k * d == (k - 1) * d + d;
  }

  /** Every byte string is the big-endian form of its own value. */
  lemma {:induction false} BigEndianOfValue(s: seq<Byte>)
    ensures BigEndian(FromBigEndian(s), |s|) == s
    ensures FromBigEndian(s) < Pow256(|s|)
  {
    if s != [] {
      BigEndianOfValue(s[..|s| - 1]);
    }
  }

  function PutU16(n: nat): (s: seq<Byte>) ensures |s| == 2 { BigEndian(n, 2) }
  function PutU32(n: nat): (s: seq<Byte>) ensures |s| == 4 { BigEndian(n, 4) }
  function PutU64(n: nat): (s: seq<Byte>) ensures |s| == 8 { BigEndian(n, 8) }

  function GetU16(s: seq<Byte>): nat requires |s| >= 2 { FromBigEndian(s[..2]) }
  function GetU32(s: seq<Byte>): nat requires |s| >= 4 { FromBigEndian(s[..4]) }
  function GetU64(s: seq<Byte>): nat requires |s| >= 8 { FromBigEndian(s[..8]) }

  /** The value of an integer by its bytes: the first one counts most. */
  lemma ByteWeights(s: seq<Byte>)
    ensures |s| >= 2 ==> GetU16(s) == s[0] as int * 0x100 + s[1]
    ensures |s| >= 4 ==> GetU32(s) == s[0] as int * 0x100_0000 + s[1] as int * 0x1_0000 + s[2] as int * 0x100 + s[3]
    ensures |s| >= 8 ==> GetU64(s) == GetU32(s) * U32_LIMIT + GetU32(s[4..])
  {
    if |s| >= 2 {
      TwoBytes(s[..2]);
    }
    if |s| >= 4 {
      FourBytes(s[..4]);
    }
    if |s| >= 8 {
      Powers();
      Joined(s[..4], s[4..8]);
      assert s[..8] == s[..4] + s[4..8] && s[4..][..4] == s[4..8];
    }
  }

  lemma TwoBytes(s: seq<Byte>)
    requires |s| == 2
    ensures FromBigEndian(s) == s[0] as int * 0x100 + s[1]
  {
    assert s[..1] == [s[0]] && s[..1][..0] == [];
    assert FromBigEndian(s[..1]) == s[0];
  }

  lemma FourBytes(s: seq<Byte>)
    requires |s| == 4
    ensures FromBigEndian(s) == s[0] as int * 0x100_0000 + s[1] as int * 0x1_0000 + s[2] as int * 0x100 + s[3]
  {
    TwoBytes(s[..2]);
    assert s[..3][..2] == s[..2];
  }

  lemma {:induction false} Joined(a: seq<Byte>, b: seq<Byte>)
    ensures FromBigEndian(a + b) == Pow256(|b|) * FromBigEndian(a) + FromBigEndian(b)
  {
    if b == [] {
      assert a + b == a;
    } else {
      var n := |b| - 1;
      Joined(a, b[..n]);
      assert (a + b)[..|a + b| - 1] == a + b[..n];
      assert 256 * (Pow256(n) * FromBigEndian(a)) == Pow256(|b|) * FromBigEndian(a);
    }
  }

  lemma Powers()
    ensures Pow256(2) == 0x1_0000 && Pow256(4) == U32_LIMIT && Pow256(8) == U64_LIMIT
  {
    assert Pow256(2) == 0x1_0000;
    assert Pow256(4) == 0x1_0000 * Pow256(2);
    assert Pow256(6) == 0x1_0000 * Pow256(4);
  }

  lemma GetPutU16(n: nat, t: seq<Byte>)
    ensures GetU16(PutU16(n) + t) == n % 0x1_0000
  {
    Powers();
    BigEndianValue(n, 2);
    assert (PutU16(n) + t)[..2] == PutU16(n);
  }

  lemma GetPutU32(n: nat, t: seq<Byte>)
    ensures GetU32(PutU32(n) + t) == n % U32_LIMIT
  {
    Powers();
    BigEndianValue(n, 4);
    assert (PutU32(n) + t)[..4] == PutU32(n);
  }

  lemma GetPutU64(n: nat, t: seq<Byte>)
    ensures GetU64(PutU64(n) + t) == n % U64_LIMIT
  {
    Powers();
    BigEndianValue(n, 8);
    assert (PutU64(n) + t)[..8] == PutU64(n);
  }

  lemma PutGetU16(s: seq<Byte>)
    requires |s| >= 2
    ensures GetU16(s) < 0x1_0000 && PutU16(GetU16(s)) == s[..2]
  {
    Powers();
    BigEndianOfValue(s[..2]);
  }

  lemma PutGetU32(s: seq<Byte>)
    requires |s| >= 4
    ensures GetU32(s) < U32_LIMIT && PutU32(GetU32(s)) == s[..4]
  {
    Powers();
    BigEndianOfValue(s[..4]);
  }

  lemma PutGetU64(s: seq<Byte>)
    requires |s| >= 8
    ensures GetU64(s) < U64_LIMIT && PutU64(GetU64(s)) == s[..8]
  {
    Powers();
    BigEndianOfValue(s[..8]);
  }

  /**
   * The byte buffer of the codecs: writes go at the back, reads take from the front.
   * A read past the end would panic, so each read requires its bytes to be there.
   */
  class BytesMut {
    var data: seq<Byte>

    constructor (bytes: seq<Byte>)
      ensures data == bytes
    {
      data := bytes;
    }

    method Put(bytes: seq<Byte>)
      modifies this
      ensures data == old(data) + bytes
    {
      data := data + bytes;
    }

    method SplitTo(n: nat) returns (front: seq<Byte>)
      requires n <= |data|
      modifies this
      ensures front == old(data)[..n] && data == old(data)[n..]
    {
      front, data := data[..n], data[n..];
    }

    method TakeU8() returns (v: Byte)
      requires |data| >= 1
      modifies this
      ensures v == old(data)[0] && data == old(data)[1..]
    {
      v, data := data[0], data[1..];
    }

    method TakeU16() returns (v: nat)
      requires |data| >= 2
      modifies this
      ensures v == GetU16(old(data)) && data == old(data)[2..]
    {
      v, data := GetU16(data), data[2..];
    }

    method TakeU32() returns (v: nat)
      requires |data| >= 4
      modifies this
      ensures v == GetU32(old(data)) && data == old(data)[4..]
    {
      v, data := GetU32(data), data[4..];
    }

    method TakeU64() returns (v: nat)
      requires |data| >= 8
      modifies this
      ensures v == GetU64(old(data)) && data == old(data)[8..]
    {
      v, data := GetU64(data), data[8..];
    }
  }
}
