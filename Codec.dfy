/** The bucket-key codec: a Go `int` (64 bits) written as 8 bytes, most
    significant first, and read back. bbolt orders keys with bytes.Compare,
    so this module also defines that order and relates it to numeric order. */
module Codec {

  newtype uint8 = x: int | 0 <= x < 256

  const TwoTo63: int := 0x8000_0000_0000_0000
  const TwoTo64: int := 0x1_0000_0000_0000_0000

  /** The range of Go's `int` on the 64-bit platforms the store runs on. */
  predicate IsInt64(i: int) {
    -TwoTo63 <= i < TwoTo63
  }

  function Pow256(n: nat): (p: nat)
    ensures p >= 1
  {
    if n == 0 then 1 else 256 * Pow256(n - 1)
  }

  /** The n low-order base-256 digits of v, most significant first. */
  function BigEndian(v: nat, n: nat): (bs: seq<uint8>)
    ensures |bs| == n
  {
    if n == 0 then [] else BigEndian(v / 256, n - 1) + [(v % 256) as uint8]
  }

  /** The number whose base-256 digits, most significant first, are bs. */
  function FromBigEndian(bs: seq<uint8>): (v: nat)
    ensures v < Pow256(|bs|)
  {
    if bs == [] then 0
    else FromBigEndian(bs[..|bs| - 1]) * 256 + bs[|bs| - 1] as int
  }

  /** Go's conversion `uint64(i)` of a 64-bit int: its two's complement
      reading, i modulo 2^64. */
  function ToUint64(i: int): (u: nat)
    requires IsInt64(i)
    ensures u < TwoTo64 && u % TwoTo64 == i % TwoTo64
  {
    if i < 0 then i + TwoTo64 else i
  }

  /** Go's conversion `int(u)` of a uint64: values from 2^63 on wrap to
      negative ints. */
  function ToInt64(u: nat): (i: int)
    requires u < TwoTo64
    ensures IsInt64(i) && i % TwoTo64 == u
  {
    if u < TwoTo63 then u else u - TwoTo64
  }

  /** itob: `uint64(i)` written by binary.BigEndian.PutUint64 into a fresh
      8-byte slice. */
  function Itob(i: int): (b: seq<uint8>)
    requires IsInt64(i)
    ensures |b| == 8
  {
    BigEndian(ToUint64(i), 8)
  }

  /** btoi: binary.BigEndian.Uint64 reads the first 8 bytes (it panics on a
      shorter slice), and `int(...)` reinterprets the result as signed. */
  function Btoi(b: seq<uint8>): (i: int)
    requires |b| >= 8
    ensures IsInt64(i)
  {
    Pow256IsTwoTo64();
    ToInt64(FromBigEndian(b[..8]))
  }

  /** bytes.Compare(a, b) < 0: the order in which a bbolt cursor visits keys. */
  predicate Less(a: seq<uint8>, b: seq<uint8>): (r: bool)
    ensures r ==> a != b
  {
    if a == [] then b != []
    else if b == [] then false
    else a[0] < b[0] || (a[0] == b[0] && Less(a[1..], b[1..]))
  }

  /** The bucket key of id i precedes that of id j in cursor order. */
  predicate KeyBefore(i: int, j: int): (r: bool)
    ensures r ==> i != j
  {
    IsInt64(i) && IsInt64(j) && Less(Itob(i), Itob(j))
  }

  lemma Pow256IsTwoTo64()
    ensures Pow256(8) == TwoTo64
  {
  }

  lemma {:induction false} BigEndianRoundTrip(v: nat, n: nat)
    requires v < Pow256(n)
    ensures FromBigEndian(BigEndian(v, n)) == v
  {
    if n > 0 {
      var q, r := v / 256, v % 256;
      assert Pow256(n) == 256 * Pow256(n - 1);
      assert q < Pow256(n - 1);
      var bs := BigEndian(v, n);
      assert bs == BigEndian(q, n - 1) + [r as uint8];
      assert bs[..n - 1] == BigEndian(q, n - 1);
      BigEndianRoundTrip(q, n - 1);
      assert v == q * 256 + r;
    }
  }

  lemma {:induction false} FromBigEndianRoundTrip(bs: seq<uint8>)
    ensures BigEndian(FromBigEndian(bs), |bs|) == bs
  {
    if bs != [] {
      var n := |bs|;
      var v := FromBigEndian(bs);
      FromBigEndianRoundTrip(bs[..n - 1]);
      assert v / 256 == FromBigEndian(bs[..n - 1]);
      assert bs == bs[..n - 1] + [bs[n - 1]];
    }
  }

  /** Every int has a key, and the key gives the int back. */
  lemma ItobBtoi(i: int)
    requires IsInt64(i)
    ensures Btoi(Itob(i)) == i
  {
    Pow256IsTwoTo64();
    var u := ToUint64(i);
    BigEndianRoundTrip(u, 8);
    assert Itob(i)[..8] == Itob(i);
    assert ToInt64(u) == i;
  }

  /** Every 8-byte key is the key of the int it decodes to. */
  lemma BtoiItob(b: seq<uint8>)
    requires |b| == 8
    ensures Itob(Btoi(b)) == b
  {
    Pow256IsTwoTo64();
    assert b[..8] == b;
    var u := FromBigEndian(b);
    FromBigEndianRoundTrip(b);
    assert ToUint64(ToInt64(u)) == u;
  }

  lemma ItobInjective(i: int, j: int)
    requires IsInt64(i) && IsInt64(j) && i != j
    ensures Itob(i) != Itob(j)
  {
    ItobBtoi(i);
    ItobBtoi(j);
  }

  lemma {:induction false} LessExtend(a: seq<uint8>, b: seq<uint8>, x: uint8, y: uint8)
    requires |a| == |b|
    requires Less(a, b) || (a == b && x < y)
    ensures Less(a + [x], b + [y])
  {
    if a != [] {
      assert (a + [x])[1..] == a[1..] + [x];
      assert (b + [y])[1..] == b[1..] + [y];
      if a[0] == b[0] {
        LessExtend(a[1..], b[1..], x, y);
      }
    }
  }

  lemma {:induction false} BigEndianMonotone(v: nat, w: nat, n: nat)
    requires v < w < Pow256(n)
    ensures Less(BigEndian(v, n), BigEndian(w, n))
  {
    if n == 0 {
      assert false;
    } else if v / 256 < w / 256 {
      BigEndianMonotone(v / 256, w / 256, n - 1);
      LessExtend(BigEndian(v / 256, n - 1), BigEndian(w / 256, n - 1), (v % 256) as uint8, (w % 256) as uint8);
    } else {
      LessExtend(BigEndian(v / 256, n - 1), BigEndian(w / 256, n - 1), (v % 256) as uint8, (w % 256) as uint8);
    }
  }

  /** For non-negative ints the key order is the numeric order: a cursor
      over a bucket keyed by itob visits ids in ascending order. */
  lemma ItobOrdered(i: int, j: int)
    requires 0 <= i < j < TwoTo63
    ensures KeyBefore(i, j)
  {
    Pow256IsTwoTo64();
    BigEndianMonotone(ToUint64(i), ToUint64(j), 8);
  }

  /** A negative int's key sorts after every non-negative int's key, so
      the numeric order is kept only on the non-negative ids. */
  lemma ItobNegativeLast(i: int, j: int)
    requires -TwoTo63 <= i < 0 <= j < TwoTo63
    ensures KeyBefore(j, i)
  {
    Pow256IsTwoTo64();
    BigEndianMonotone(ToUint64(j), ToUint64(i), 8);
  }
}
