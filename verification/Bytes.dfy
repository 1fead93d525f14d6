/** Bytes, little-endian fields, and the splice that every in-place write performs. */
module Bytes {

  type byte = x: int | 0 <= x < 256

  const U64 := 0x1_0000_0000_0000_0000

  datatype Option<+T> = None | Some(value: T)

  function Min(a: int, b: int): int { if a <= b then a else b }

  function Max(a: int, b: int): int { if a >= b then a else b }

  function Zeros(n: nat): (z: seq<byte>)
    ensures |z| == n && forall i :: 0 <= i < n ==> z[i] == 0
  {
    seq(n, _ => 0)
  }

  /** `s` with the elements from `at` on replaced by `b`. */
  function Splice<T>(s: seq<T>, at: nat, b: seq<T>): (r: seq<T>)
    requires at + |b| <= |s|
    ensures |r| == |s|
    ensures forall i :: 0 <= i < |s| ==> r[i] == if at <= i < at + |b| then b[i - at] else s[i]
  {
    s[..at] + b + s[at + |b|..]
  }

  /** `s` without its `i`-th element. */
  function RemoveAt<T>(s: seq<T>, i: nat): (r: seq<T>)
    requires i < |s|
    ensures |r| == |s| - 1
    ensures forall j :: 0 <= j < |r| ==> r[j] == if j < i then s[j] else s[j + 1]
  {
    s[..i] + s[i + 1..]
  }

  function Pow256(n: nat): nat { if n == 0 then 1 else 256 * Pow256(n - 1) }

  /** The `n` low bytes of `v`, least significant first. */
  function ToLE(v: nat, n: nat): (s: seq<byte>)
    ensures |s| == n
  {
    if n == 0 then [] else [v % 256] + ToLE(v / 256, n - 1)
  }

  function FromLE(s: seq<byte>): nat
  {
    if s == [] then 0 else s[0] + 256 * FromLE(s[1..])
  }

  lemma MulGap(d: nat, x: int, y: int)
    requires x < y
    ensures d * x + d <= d * y
  {
    assert d * y == d * x + d + d * (y - x - 1);
  }

  lemma DivUnique(n: nat, d: nat, j: nat)
    requires d > 0 && d * j <= n < d * j + d
    ensures n / d == j
  {
    var q := n / d;
    assert n == d * q + n % d;
    if q < j {
      MulGap(d, q, j);
    } else if q > j {
      MulGap(d, j, q);
    }
  }

  /** Byte `i` of a field is the digit of 256^i. */
  lemma {:induction false} ByteOf(v: nat, n: nat, i: nat)
    requires i < n
    ensures Pow256(i) > 0 && ToLE(v, n)[i] == v / Pow256(i) % 256
  {
    if i > 0 {
      ByteOf(v / 256, n - 1, i - 1);
      assert ToLE(v, n)[i] == ToLE(v / 256, n - 1)[i - 1];
      DivDiv(v, Pow256(i - 1));
    }
  }

  lemma DivDiv(v: nat, m: nat)
    requires m > 0
    ensures v / 256 / m == v / (256 * m)
  {
    var a := v / 256;
    var q, r := a / m, a % m;
    assert a == m * q + r;
    assert (256 * m) * q == 256 * (m * q);
    DivUnique(v, 256 * m, q);
  }

  lemma {:induction false} LERoundTrip(v: nat, n: nat)
    requires v < Pow256(n)
    ensures FromLE(ToLE(v, n)) == v
  {
    if n > 0 {
      LERoundTrip(v / 256, n - 1);
      assert ToLE(v, n)[1..] == ToLE(v / 256, n - 1);
    }
  }

  lemma {:induction false} FromLEBound(s: seq<byte>)
    ensures FromLE(s) < Pow256(|s|)
  {
    if s != [] {
      FromLEBound(s[1..]);
    }
  }

  lemma Pow256Widths()
    ensures Pow256(2) == 0x1_0000 && Pow256(4) == 0x1_0000_0000 && Pow256(8) == U64
  {
    assert Pow256(1) == 256;
    assert Pow256(2) == 0x1_0000;
    assert Pow256(3) == 0x100_0000;
    assert Pow256(4) == 0x1_0000_0000;
    assert Pow256(6) == 0x1_0000_0000_0000;
  }
}
