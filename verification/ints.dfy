/** Fixed-width integer arithmetic of C# and C++ written out over Dafny's
    unbounded integers: 32/64-bit ranges, unchecked 32-bit wrap-around,
    division truncating toward zero, and the little-endian byte layout of
    `BitConverter.GetBytes(long)` / `BitConverter.ToInt64`. */
module Ints {

  const INT32_MIN: int := -0x8000_0000
  const INT32_MAX: int := 0x7FFF_FFFF
  const INT64_MIN: int := -0x8000_0000_0000_0000
  const INT64_MAX: int := 0x7FFF_FFFF_FFFF_FFFF
  const TWO_32: int := 0x1_0000_0000
  const TWO_64: int := 0x1_0000_0000_0000_0000

  predicate IsInt32(x: int) {
    INT32_MIN <= x <= INT32_MAX
  }

  predicate IsInt64(x: int) {
    INT64_MIN <= x <= INT64_MAX
  }

  /** The value an unchecked C# `int` expression produces for the
      mathematical result `x`. */
  function Wrap32(x: int): (r: int)
    ensures IsInt32(r)
    ensures (x - r) % TWO_32 == 0
    ensures IsInt32(x) ==> r == x
  {
    var m := x % TWO_32;
    if m > INT32_MAX then m - TWO_32 else m
  }

  /** C#/C++ integer division: the quotient is rounded toward zero. */
  function TruncDiv(a: int, b: int): (q: int)
    requires b != 0
    ensures a >= 0 && b > 0 ==> q == a / b
    ensures var r := a - q * b; -b < r < b || b < r < -b
    ensures var r := a - q * b; r == 0 || (r < 0 <==> a < 0)
  {
    if a >= 0 then a / b
    else if b > 0 then -((-a) / b)
    else (-a) / (-b)
  }

  /** C#/C++ `%`: the remainder takes the sign of the dividend. */
  function TruncRem(a: int, b: int): (r: int)
    requires b != 0
    ensures a == TruncDiv(a, b) * b + r
    ensures a >= 0 && b > 0 ==> r == a % b
    ensures r == 0 || (r < 0 <==> a < 0)
  {
    a - TruncDiv(a, b) * b
  }

  type Byte = b: int | 0 <= b < 256

  function Pow256(n: nat): (p: nat)
    ensures p >= 1
  {
    if n == 0 then 1 else 256 * Pow256(n - 1)
  }

  /** 10^n; `Math.Pow(10, n)` is exact for the small exponents used. */
  function Pow10(n: nat): (p: nat)
    ensures p >= 1
  {
    if n == 0 then 1 else 10 * Pow10(n - 1)
  }

  /** The `n` least significant base-256 digits of `u`, least significant
      first. */
  function LEBytes(u: nat, n: nat): (bs: seq<Byte>)
    ensures |bs| == n
  {
    if n == 0 then [] else [u % 256] + LEBytes(u / 256, n - 1)
  }

  /** The unsigned value of a little-endian byte string. */
  function LEValue(bs: seq<Byte>): (v: nat)
    ensures v < Pow256(|bs|)
  {
    if bs == [] then 0 else bs[0] + 256 * LEValue(bs[1..])
  }

  lemma {:induction false} LEValueOfBytes(u: nat, n: nat)
    requires u < Pow256(n)
    ensures LEValue(LEBytes(u, n)) == u
  {
    if n > 0 {
      var bs := LEBytes(u, n);
      assert bs[1..] == LEBytes(u / 256, n - 1);
      LEValueOfBytes(u / 256, n - 1);
    }
  }

  lemma {:induction false} LEBytesOfValue(bs: seq<Byte>)
    ensures LEBytes(LEValue(bs), |bs|) == bs
  {
    if bs != [] {
      var v := LEValue(bs);
      assert v % 256 == bs[0];
      assert v / 256 == LEValue(bs[1..]);
      LEBytesOfValue(bs[1..]);
    }
  }

  /** `BitConverter.GetBytes(long)` on a little-endian machine: the 8 bytes of
      the two's-complement representation, least significant first. */
  function Int64ToLE(x: int): (bs: seq<Byte>)
    requires IsInt64(x)
    ensures |bs| == 8
  {
    LEBytes(if x < 0 then x + TWO_64 else x, 8)
  }

  /** `BitConverter.ToInt64(bytes, 0)` on 8 bytes: two's-complement decoding. */
  function LEToInt64(bs: seq<Byte>): (x: int)
    requires |bs| == 8
    ensures IsInt64(x)
  {
    var u := LEValue(bs);
    assert Pow256(8) == TWO_64;
    if u > INT64_MAX then u - TWO_64 else u
  }

  /** Decoding the bytes `GetBytes` wrote gives the value back. */
  lemma Int64RoundTrip(x: int)
    requires IsInt64(x)
    ensures LEToInt64(Int64ToLE(x)) == x
  {
    assert Pow256(8) == TWO_64;
    LEValueOfBytes(if x < 0 then x + TWO_64 else x, 8);
  }

  /** Every 8-byte string is the encoding of the value it decodes to. */
  lemma Int64BytesRoundTrip(bs: seq<Byte>)
    requires |bs| == 8
    ensures Int64ToLE(LEToInt64(bs)) == bs
  {
    assert Pow256(8) == TWO_64;
    LEBytesOfValue(bs);
  }

  /** Distinct 64-bit values have distinct byte encodings. */
  lemma Int64ToLEInjective(x: int, y: int)
    requires IsInt64(x) && IsInt64(y)
    requires Int64ToLE(x) == Int64ToLE(y)
    ensures x == y
  {
    Int64RoundTrip(x);
    Int64RoundTrip(y);
  }

  function Sum(xs: seq<int>): int {
    if xs == [] then 0 else xs[0] + Sum(xs[1..])
  }

  /** A sum of `|xs|` values between `lo` and `hi` lies between `|xs|`
      times each. */
  lemma {:induction false} SumBetween(xs: seq<int>, lo: int, hi: int)
    requires forall i :: 0 <= i < |xs| ==> lo <= xs[i] <= hi
    ensures |xs| * lo <= Sum(xs) <= |xs| * hi
  {
    if xs != [] {
      var t := xs[1..];
      assert forall i :: 0 <= i < |t| ==> t[i] == xs[i + 1];
      SumBetween(t, lo, hi);
      assert |xs| * lo == |t| * lo + lo;
      assert |xs| * hi == |t| * hi + hi;
    }
  }

  lemma ProductAsReal(k: int, x: int)
    ensures (k * x) as real == (k as real) * (x as real)
  {
  }

  /** Integer bounds on a product carried over to the reals. */
  lemma ProductBoundsAsReal(k: int, lo: int, s: int, hi: int)
    requires k * lo <= s <= k * hi
    ensures (k as real) * (lo as real) <= s as real <= (k as real) * (hi as real)
  {
    ProductAsReal(k, lo);
    ProductAsReal(k, hi);
  }

  lemma {:induction false} SumConcat(a: seq<int>, b: seq<int>)
    ensures Sum(a + b) == Sum(a) + Sum(b)
  {
    if a == [] {
      assert a + b == b;
    } else {
      assert (a + b)[1..] == a[1..] + b;
      SumConcat(a[1..], b);
    }
  }

  lemma {:induction false} SumNonNegative(xs: seq<int>)
    requires forall i :: 0 <= i < |xs| ==> xs[i] >= 0
    ensures Sum(xs) >= 0
  {
    if xs != [] {
      SumNonNegative(xs[1..]);
    }
  }

  lemma MulAtLeast(t: int, n: int)
    requires t >= 1 && n > 0
    ensures t * n >= n
  {
  }

  /** Doubling an `int` of 2^30 or more overflows into the negatives. */
  lemma WrapDoubleHigh(x: int)
    requires 0x4000_0000 <= x <= INT32_MAX
    ensures Wrap32(2 * x) == 2 * x - TWO_32 < 0
  {
    DivUnique(2 * x, TWO_32, 0, 2 * x);
  }

  /** Multiplying by a natural number keeps the order. */
  lemma MulMono(n: nat, a: int, b: int)
    requires a <= b
    ensures n * a <= n * b
  {
    assert n * b - n * a == n * (b - a);
  }

  /** Euclidean division has one quotient. */
  lemma DivUnique(x: int, n: int, q: int, r: int)
    requires n > 0 && 0 <= r < n && x == q * n + r
    ensures x / n == q && x % n == r
  {
    var q', r' := x / n, x % n;
    assert (q' - q) * n == r - r';
    if q' > q {
      MulAtLeast(q' - q, n);
    } else if q' < q {
      MulAtLeast(q - q', n);
    }
  }
}
