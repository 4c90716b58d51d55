/** Bytes, machine words and the Option type shared by every other module.

    A byte is an integer in [0, 256).  The masks and shifts of the C code are
    written as division and remainder by a power of two.
  */
module Bytes {
  type byte = x: int | 0 <= x < 256

  datatype Option<+T> = None | Some(value: T) {
    predicate IsFailure() { None? }
    function PropagateFailure<U>(): Option<U> requires None? { None }
    function Extract(): T requires Some? { value }
  }

  /** A list that is known up to a rest that may have failed. */
  function Prefixed<T>(pre: seq<T>, rest: Option<seq<T>>): Option<seq<T>>
  {
    if rest.None? then None else Some(pre + rest.value)
  }

  lemma PrefixedAppend<T>(a: seq<T>, b: seq<T>, rest: Option<seq<T>>)
    ensures Prefixed(a, Prefixed(b, rest)) == Prefixed(a + b, rest)
    ensures Prefixed([], rest) == rest
  {
    if rest.Some? {
      assert a + (b + rest.value) == (a + b) + rest.value;
      assert [] + rest.value == rest.value;
    }
  }

  const WORD := 0x1_0000_0000_0000_0000
  const HALF_WORD := 0x1_0000_0000

  /** A 64-bit machine word: addr_t, word_t and idx_t. */
  type word = x: int | 0 <= x < WORD

  function Pow2(k: nat): (p: nat)
    ensures p >= 1
  {
    if k == 0 then 1 else 2 * Pow2(k - 1)
  }

  lemma {:induction false} Pow2Add(a: nat, b: nat)
    ensures Pow2(a) * Pow2(b) == Pow2(a + b)
  {
    if a > 0 {
      Pow2Add(a - 1, b);
      assert Pow2(a) * Pow2(b) == 2 * (Pow2(a - 1) * Pow2(b));
    }
  }

  /** The splittings of a byte and of a septet. */
  lemma Pow2Byte(k: nat)
    requires k <= 8
    ensures Pow2(k) * Pow2(8 - k) == 256
    ensures k <= 7 ==> Pow2(k) * Pow2(7 - k) == 128 && Pow2(8 - k) == 2 * Pow2(7 - k)
    ensures 1 <= k ==> Pow2(k) == 2 * Pow2(k - 1)
    ensures Pow2(6) == 64 && Pow2(7) == 128 && Pow2(8) == 256 && Pow2(0) == 1
  {
    Pow2Add(k, 8 - k);
    if k <= 7 { Pow2Add(k, 7 - k); }
  }

  /** x >> k, rounding towards minus infinity. */
  function Shr(x: int, k: nat): int { x / Pow2(k) }

  /** x << k. */
  function Shl(x: int, k: nat): int { Pow2(k) * x }

  /** x & ((1 << k) - 1). */
  function Low(x: int, k: nat): int { x % Pow2(k) }

  /** The number whose lowest base-256 digits are bs and whose remaining part is top. */
  function FoldBytes(bs: seq<byte>, top: int): int
  {
    if bs == [] then top else bs[0] + 256 * FoldBytes(bs[1..], top)
  }

  /** Little-endian unsigned value. */
  function Unsigned(bs: seq<byte>): int { FoldBytes(bs, 0) }

  function SignExtend8(b: byte): int { if b >= 128 then b - 256 else b }

  /** Little-endian two's-complement value. */
  function Signed(bs: seq<byte>): int
    requires |bs| > 0
  {
    FoldBytes(bs[..|bs| - 1], SignExtend8(bs[|bs| - 1]))
  }

  /** The n low bytes of v, least significant first: what memcpy takes from an
      integer variable on a little-endian machine. */
  function ToBytes(v: int, n: nat): (bs: seq<byte>)
    ensures |bs| == n
    decreases n
  {
    if n == 0 then [] else [v % 256] + ToBytes(v / 256, n - 1)
  }

  lemma {:induction false} FoldBytesSnoc(bs: seq<byte>, b: byte, top: int)
    ensures FoldBytes(bs + [b], top) == FoldBytes(bs, b + 256 * top)
  {
    if bs == [] {
      assert [b][1..] == [];
    } else {
      FoldBytesSnoc(bs[1..], b, top);
      assert (bs + [b])[1..] == bs[1..] + [b];
    }
  }

  lemma {:induction false} FoldBytesAppend(a: seq<byte>, b: seq<byte>, top: int)
    ensures FoldBytes(a + b, top) == FoldBytes(a, FoldBytes(b, top))
  {
    if a == [] {
      assert a + b == b;
    } else {
      FoldBytesAppend(a[1..], b, top);
      assert (a + b)[1..] == a[1..] + b;
    }
  }

  /** Two byte strings of one length with one unsigned value are the same bytes. */
  lemma {:induction false} UnsignedInjective(a: seq<byte>, b: seq<byte>)
    requires |a| == |b| && Unsigned(a) == Unsigned(b)
    ensures a == b
  {
    if a != [] {
      UnsignedInjective(a[1..], b[1..]);
      assert a == [a[0]] + a[1..] && b == [b[0]] + b[1..];
    }
  }

  lemma {:induction false} UnsignedNonNegative(bs: seq<byte>)
    ensures Unsigned(bs) >= 0
  {
    if bs != [] { UnsignedNonNegative(bs[1..]); }
  }

  /** A byte string is the low bytes of any number it is the low part of. */
  lemma {:induction false} ToBytesUnique(bs: seq<byte>, top: int)
    ensures ToBytes(FoldBytes(bs, top), |bs|) == bs
  {
    if bs != [] {
      ToBytesUnique(bs[1..], top);
      AddMultiple(bs[0], 256, FoldBytes(bs[1..], top));
      SmallMod(bs[0], 256);
      assert bs == [bs[0]] + bs[1..];
    }
  }

  /** Reading back the bytes of a variable gives the variable, modulo its width. */
  lemma {:induction false} ToBytesValue(v: int, n: nat)
    ensures FoldBytes(ToBytes(v, n), v / Base256(n)) == v
    ensures Unsigned(ToBytes(v, n)) == v % Base256(n)
    decreases n
  {
    if n > 0 {
      ToBytesValue(v / 256, n - 1);
      var p := Base256(n - 1);
      DivDiv(v, p);
      assert ToBytes(v, n)[1..] == ToBytes(v / 256, n - 1);
    }
  }

  function Base256(n: nat): (p: nat)
    ensures p >= 1
  {
    if n == 0 then 1 else 256 * Base256(n - 1)
  }

  lemma DivDiv(v: int, p: nat)
    requires p >= 1
    ensures v / 256 / p == v / (256 * p)
    ensures v % 256 + 256 * (v / 256 % p) == v % (256 * p)
  {
    var q, r := v / 256, v % 256;
    Split(r, q, 256, p);
  }

  // ----- division and remainder by products -----

  lemma DivModUnique(v: int, m: int, q: int, r: int)
    requires m > 0 && v == m * q + r && 0 <= r < m
    ensures v / m == q && v % m == r
  {
    var d := q - v / m;
    assert m * d == v % m - r by { assert v == m * (v / m) + v % m; }
    if d >= 1 {
      MulAtLeast(m, d);
    } else if d <= -1 {
      MulAtLeast(m, -d);
    }
  }

  lemma MulAtLeast(m: int, d: int)
    requires m > 0 && d >= 1
    ensures m * d >= m
  {
  }

  lemma AddMultiple(v: int, m: int, q: int)
    requires m > 0
    ensures (v + m * q) % m == v % m && (v + m * q) / m == v / m + q
  {
    DivModUnique(v + m * q, m, v / m + q, v % m);
  }

  lemma MulAssoc(a: int, b: int, c: int)
    ensures a * (b * c) == (a * b) * c
  {
  }

  lemma MulMonotone(m: nat, x: int, y: int)
    requires x <= y
    ensures m * x <= m * y
  {
  }

  lemma SmallMod(x: int, m: int)
    requires 0 <= x < m
    ensures x % m == x && x / m == 0
  {
    DivModUnique(x, m, 0, x);
  }

  /** x below m and r above it, cut at m * p. */
  lemma Split(x: int, r: int, m: nat, p: nat)
    requires 0 <= x < m && p > 0
    ensures m * p > 0
    ensures (x + m * r) % (m * p) == x + m * (r % p)
    ensures (x + m * r) / (m * p) == r / p
  {
    var q, s := r / p, r % p;
    MulAtLeast(m, p);
    assert x + m * r == (m * p) * q + (x + m * s) by {
      assert r == p * q + s;
      MulAssoc(m, p, q);
    }
    assert x + m * s < m * p by { MulMonotone(m, s, p - 1); }
    MulMonotone(m, 0, s);
    DivModUnique(x + m * r, m * p, q, x + m * s);
  }

  lemma ModOfProduct(c: int, r: int, m: nat, p: nat)
    requires m > 0 && p > 0 && m * p > 0 && c % (m * p) == r % (m * p)
    ensures c % m == r % m
  {
    var q := r / (m * p) - c / (m * p);
    assert r == c + m * (p * q) by {
      assert r == (m * p) * (r / (m * p)) + r % (m * p);
      assert c == (m * p) * (c / (m * p)) + c % (m * p);
      MulAssoc(m, p, q);
    }
    AddMultiple(c, m, p * q);
  }

  /** x / m against a bound h. */
  lemma DivBound(x: int, m: nat, h: int)
    requires m > 0
    ensures x >= m * h <==> x / m >= h
  {
    assert x == m * (x / m) + x % m;
    if x / m >= h { MulMonotone(m, h, x / m); } else { MulMonotone(m, x / m + 1, h); }
  }
}
