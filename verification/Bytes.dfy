/** Bytes, machine-word bounds and little-endian numbers, shared by every component. */
module Bytes {
  type byte = x: int | 0 <= x < 256

  datatype Option<+T> = None | Some(value: T)

  datatype Result<+T, +E> = Ok(value: T) | Err(error: E)

  const U8_RANGE: nat := 0x100
  const U32_RANGE: nat := 0x1_0000_0000
  const U64_RANGE: nat := 0x1_0000_0000_0000_0000

  function Max(a: int, b: int): int {
    if a < b then b else a
  }

  function Min(a: int, b: int): int {
    if a < b then a else b
  }

  function Pow256(n: nat): nat {
    if n == 0 then 1 else 256 * Pow256(n - 1)
  }

  /** The `n` low bytes of `v`, least significant first (`to_le_bytes()[..n]`). */
  function ToLe(v: nat, n: nat): (s: seq<byte>)
    ensures |s| == n
  {
    if n == 0 then [] else [v % 256] + ToLe(v / 256, n - 1)
  }

  /** The number whose little-endian bytes are `s` (`from_le_bytes`). */
  function FromLe(s: seq<byte>): nat {
    if s == [] then 0 else s[0] + 256 * FromLe(s[1..])
  }

  lemma {:induction false} FromLeBound(s: seq<byte>)
    ensures FromLe(s) < Pow256(|s|)
  {
    if s != [] {
      FromLeBound(s[1..]);
    }
  }

  lemma {:induction false} LeRoundTrip(v: nat, n: nat)
    requires v < Pow256(n)
    ensures FromLe(ToLe(v, n)) == v
  {
    if n != 0 {
      LeRoundTrip(v / 256, n - 1);
      assert ToLe(v, n)[1..] == ToLe(v / 256, n - 1);
    }
  }

  lemma DivByProduct(v: nat, p: nat)
    requires 0 < p
    ensures v / 256 / p == v / (256 * p)
  {
    var q, r := v / 256 / p, v / 256 % p;
    var rest := 256 * r + v % 256;
    assert v / 256 == p * q + r;
    assert v == 256 * (p * q) + rest && 256 * (p * q) == (256 * p) * q;
    assert rest < 256 * p;
    QuotientUnique(v, 256 * p, q, rest);
  }

  lemma QuotientUnique(x: int, c: nat, q: int, r: nat)
    requires r < c && x == c * q + r
    ensures x / c == q
  {
    var d := x / c - q;
    assert c * d == c * (x / c) - c * q;
    assert c * d == r - x % c;
    assert d >= 1 ==> c * d >= c;
    assert d <= -1 ==> c * d <= 0 - c;
  }

  /** Byte `i` is digit `i` to the base 256, counted from the least significant. */
  lemma {:induction false} LeDigit(v: nat, n: nat, i: nat)
    requires i < n
    ensures 0 < Pow256(i) && ToLe(v, n)[i] == v / Pow256(i) % 256
  {
    if i > 0 {
      LeDigit(v / 256, n - 1, i - 1);
      DivByProduct(v, Pow256(i - 1));
    }
  }

  lemma {:induction false} FromLeZeroes(s: seq<byte>)
    requires forall i :: 0 <= i < |s| ==> s[i] == 0
    ensures FromLe(s) == 0
  {
    if s != [] {
      FromLeZeroes(s[1..]);
    }
  }

  /** Zero bytes above a little-endian number do not change it. */
  lemma {:induction false} FromLePadded(s: seq<byte>, zeroes: seq<byte>)
    requires forall i :: 0 <= i < |zeroes| ==> zeroes[i] == 0
    ensures FromLe(s + zeroes) == FromLe(s)
  {
    if s == [] {
      assert s + zeroes == zeroes;
      FromLeZeroes(zeroes);
    } else {
      assert (s + zeroes)[1..] == s[1..] + zeroes;
      FromLePadded(s[1..], zeroes);
    }
  }

  lemma Pow256Values()
    ensures Pow256(1) == 0x100 && Pow256(2) == 0x1_0000
    ensures Pow256(4) == U32_RANGE && Pow256(8) == U64_RANGE
  {
    assert Pow256(3) == 0x100_0000;
    assert Pow256(5) == 0x100_0000_0000;
    assert Pow256(6) == 0x1_0000_0000_0000;
  }

  function Zeroes(n: nat): (s: seq<byte>)
    ensures |s| == n
    ensures forall i :: 0 <= i < n ==> s[i] == 0
  {
    seq(n, _ => 0)
  }

  /** `mem` with `data` copied over it at `offset`. */
  function Splice<T>(mem: seq<T>, offset: nat, data: seq<T>): (r: seq<T>)
    requires offset + |data| <= |mem|
    ensures |r| == |mem|
    ensures forall i :: 0 <= i < |mem| ==>
                          r[i] == if offset <= i < offset + |data| then data[i - offset] else mem[i]
  {
    mem[..offset] + data + mem[offset + |data|..]
  }

  lemma SliceOfSlice<T>(m: seq<T>, a: nat, b: nat, lo: nat, hi: nat)
    requires a <= b <= |m| && lo <= hi <= b - a
    ensures m[a..b][lo..hi] == m[a + lo..a + hi]
  {
    var s := m[a..b];
    forall i | 0 <= i < hi - lo
      ensures s[lo..hi][i] == m[a + lo..a + hi][i]
    {
      assert s[lo..hi][i] == s[lo + i] && m[a + lo..a + hi][i] == m[a + lo + i];
    }
  }

  /** Rounds up to a multiple of 4096. */
  function PageAlign(x: nat): (r: nat)
    ensures x <= r < x + 4096
    ensures r % 4096 == 0
  {
    (x + 4095) / 4096 * 4096
  }
}
