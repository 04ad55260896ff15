/**
 * Big-endian byte encodings of unsigned integers, and the byte-wise
 * (lexicographic) order in which sled keeps its keys. The log store keys its
 * entries by `u64::to_be_bytes`, and the gateway reads a digest as a
 * big-endian integer; both rest on the facts proved here.
 */
module BigEndian {
  import opened Common

  function Pow256(n: nat): (p: nat)
    ensures p > 0
  {
    if n == 0 then 1 else 256 * Pow256(n - 1)
  }

  /** The `n`-byte big-endian encoding of `x` (`to_be_bytes` for n == 8). */
  function ToBeBytes(x: nat, n: nat): (b: Bytes)
    requires x < Pow256(n)
    ensures |b| == n
  {
    if n == 0 then [] else ToBeBytes(x / 256, n - 1) + [x % 256]
  }

  /** The unsigned integer a byte string denotes, most significant byte first (Go `big.Int.SetBytes`). */
  function BeValue(b: Bytes): (v: nat)
    ensures v < Pow256(|b|)
  {
    if b == [] then 0 else 256 * BeValue(b[..|b| - 1]) + b[|b| - 1]
  }

  /** The sled key of a log index: its eight big-endian bytes. */
  function KeyOf(index: u64): (k: Bytes)
    ensures |k| == 8
  {
    assert Pow256(8) == U64_LIMIT;
    ToBeBytes(index, 8)
  }

  /**
   * Byte-wise comparison of keys, as sled orders them: the first differing
   * byte decides, and a proper prefix comes first.
   */
  predicate LexLess(a: Bytes, b: Bytes) {
    if a == [] then b != []
    else b != [] && (a[0] < b[0] || (a[0] == b[0] && LexLess(a[1..], b[1..])))
  }

  lemma {:induction false} BeRoundTrip(x: nat, n: nat)
    requires x < Pow256(n)
    ensures BeValue(ToBeBytes(x, n)) == x
  {
    if n > 0 {
      var b := ToBeBytes(x, n);
      assert b[..|b| - 1] == ToBeBytes(x / 256, n - 1);
      BeRoundTrip(x / 256, n - 1);
    }
  }

  lemma KeyOfInjective(i: u64, j: u64)
    requires KeyOf(i) == KeyOf(j)
    ensures i == j
  {
    assert Pow256(8) == U64_LIMIT;
    BeRoundTrip(i, 8);
    BeRoundTrip(j, 8);
  }

  /** Comparing two equal-length keys extended by one byte each. */
  lemma {:induction false} LexLessAppend(a: Bytes, b: Bytes, x: byte, y: byte)
    requires |a| == |b|
    ensures LexLess(a + [x], b + [y]) <==> LexLess(a, b) || (a == b && x < y)
    decreases |a|
  {
    if a != [] {
      assert (a + [x])[0] == a[0] && (a + [x])[1..] == a[1..] + [x];
      assert (b + [y])[0] == b[0] && (b + [y])[1..] == b[1..] + [y];
      LexLessAppend(a[1..], b[1..], x, y);
      if a[0] == b[0] && a[1..] == b[1..] {
        assert a == [a[0]] + a[1..] && b == [b[0]] + b[1..];
      }
    }
  }

  /** Big-endian encoding turns numeric order into sled's byte order. */
  lemma {:induction false} BeOrder(x: nat, y: nat, n: nat)
    requires x < Pow256(n) && y < Pow256(n)
    ensures LexLess(ToBeBytes(x, n), ToBeBytes(y, n)) <==> x < y
  {
    if n > 0 {
      var hx, hy := ToBeBytes(x / 256, n - 1), ToBeBytes(y / 256, n - 1);
      LexLessAppend(hx, hy, x % 256, y % 256);
      BeOrder(x / 256, y / 256, n - 1);
      BeRoundTrip(x / 256, n - 1);
      BeRoundTrip(y / 256, n - 1);
      assert hx == hy <==> x / 256 == y / 256;
    }
  }

  lemma KeyOrder(i: u64, j: u64)
    ensures LexLess(KeyOf(i), KeyOf(j)) <==> i < j
  {
    assert Pow256(8) == U64_LIMIT;
    BeOrder(i, j, 8);
  }

}
