/**
  C integer semantics the watch face relies on: narrowing an `int` to
  `int16_t` (two's-complement wrap-around) and C's `/` and `%`, which
  truncate toward zero where Dafny's are Euclidean.
 */
module CInt {

  const MinI16: int := -0x8000
  const MaxI16: int := 0x7fff
  const Modulus16: int := 0x1_0000

  predicate InI16(v: int) {
    MinI16 <= v <= MaxI16
  }

  /** The values an `int16_t` can hold. */
  type I16 = v: int | InI16(v)

  function Abs(v: int): nat {
    if v < 0 then -v else v
  }

  function Min(a: int, b: int): int {
    if a <= b then a else b
  }

  function Max(a: int, b: int): int {
    if a <= b then b else a
  }

  /** Conversion of an `int` to `int16_t`: keeps the low 16 bits, read as
      a two's-complement number. */
  function Wrap16(v: int): (r: I16)
    ensures InI16(v) ==> r == v
  {
    if InI16(v) then v else (v + 0x8000) % 0x1_0000 - 0x8000
  }

  /** Narrowing keeps the value modulo 2^16. */
  lemma Wrap16Congruent(v: int)
    ensures (v - Wrap16(v)) % Modulus16 == 0
  {
    if !InI16(v) {
      var m := (v + 0x8000) % 0x1_0000;
      assert v + 0x8000 == ((v + 0x8000) / 0x1_0000) * 0x1_0000 + m;
    }
  }

  /** The narrowed value is the only `int16_t` congruent to the input. */
  lemma Wrap16Unique(v: int, r: int)
    requires InI16(r)
    requires (v - r) % Modulus16 == 0
    ensures r == Wrap16(v)
  {
    var w := Wrap16(v);
    Wrap16Congruent(v);
    assert (w - r) % Modulus16 == 0 by {
      assert w - r == (v - r) - (v - w);
    }
  }

  /** C's `a / b` for a positive divisor (every divisor in the watch face is
      a positive constant): the quotient truncated toward zero. It is
      characterised by the rule of the C standard: the remainder `a - q * b`
      is smaller than the divisor and carries the sign of the dividend. */
  function TruncDiv(a: int, b: int): (q: int)
    requires b > 0
    ensures Abs(a - q * b) < b
    ensures a >= 0 ==> a - q * b >= 0
    ensures a < 0 ==> a - q * b <= 0
  {
    if a >= 0 then
      EuclidRemainder(a, b);
      a / b
    else
      EuclidRemainder(-a, b);
      assert a - (-((-a) / b)) * b == -((-a) - ((-a) / b) * b);
      -((-a) / b)
  }

  /** Dafny's division of a natural number leaves a remainder in [0, b). */
  lemma EuclidRemainder(n: int, b: int)
    requires n >= 0 && b > 0
    ensures 0 <= n - (n / b) * b < b
    ensures n / b >= 0
  {
    assert n == (n / b) * b + n % b;
  }

  /** C's `a % b`: the remainder that goes with `TruncDiv`. */
  function TruncMod(a: int, b: int): (r: int)
    requires b > 0
    ensures a == TruncDiv(a, b) * b + r
    ensures Abs(r) < b
    ensures a >= 0 ==> r >= 0
  {
    a - TruncDiv(a, b) * b
  }

  /** Any quotient satisfying the C rule is the truncated one. */
  lemma TruncDivUnique(a: int, b: int, q: int)
    requires b > 0
    requires Abs(a - q * b) < b
    requires a >= 0 ==> a - q * b >= 0
    requires a < 0 ==> a - q * b <= 0
    ensures q == TruncDiv(a, b)
  {
    var p := TruncDiv(a, b);
    assert (p - q) * b == (a - q * b) - (a - p * b);
    MultipleOfAtLeast(p - q, b);
  }

  /** A multiple of a positive `b` is zero or at least `b` in magnitude. */
  lemma MultipleOfAtLeast(k: int, b: int)
    requires b > 0
    ensures k == 0 || Abs(k * b) >= b
  {
    if k > 0 {
      assert k * b == (k - 1) * b + b;
    } else if k < 0 {
      assert -(k * b) == (-k - 1) * b + b;
    }
  }

  /** Truncating division is odd in its dividend (floor division is not). */
  lemma TruncDivOdd(a: int, b: int)
    requires b > 0
    ensures TruncDiv(-a, b) == -TruncDiv(a, b)
  {
    if a != 0 {
      var q := TruncDiv(a, b);
      assert -a - (-q) * b == -(a - q * b);
      TruncDivUnique(-a, b, -q);
    }
  }

  /** On a non-negative dividend C's division and Dafny's agree. */
  lemma TruncDivOnNatural(a: int, b: int)
    requires a >= 0 && b > 0
    ensures TruncDiv(a, b) == a / b
  {
  }

  /** How C's division relates to Dafny's on any dividend: they agree
      unless the dividend is negative and not a multiple of the divisor,
      and then C's quotient is one larger (it rounds up, toward zero). */
  lemma TruncDivVersusEuclid(a: int, b: int)
    requires b > 0
    ensures a >= 0 || a % b == 0 ==> TruncDiv(a, b) == a / b
    ensures a < 0 && a % b != 0 ==> TruncDiv(a, b) == a / b + 1
  {
    var e := a / b;
    assert a == e * b + a % b && 0 <= a % b < b;
    if a < 0 && a % b != 0 {
      assert a - (e + 1) * b == a % b - b;
      TruncDivUnique(a, b, e + 1);
    } else if a < 0 {
      assert a - e * b == 0;
      TruncDivUnique(a, b, e);
    }
  }

  /** The magnitude of a truncated quotient is at most `n` whenever the
      dividend is at most `n` divisors in magnitude. */
  lemma TruncDivBound(a: int, b: int, n: nat)
    requires b > 0
    requires Abs(a) <= n * b
    ensures Abs(TruncDiv(a, b)) <= n
  {
    var q := TruncDiv(a, b);
    if a >= 0 {
      EuclidRemainder(a, b);
      MulCancel(q, n, b);
    } else {
      EuclidRemainder(-a, b);
      assert (-q) * b == -(q * b);
      MulCancel(-q, n, b);
    }
  }

  /** Cancelling a positive factor preserves `<`. */
  lemma MulCancelStrict(x: int, y: int, b: int)
    requires b > 0
    requires x * b < y * b
    ensures x < y
  {
    MulCancel(x, y, b);
  }

  /** Cancelling a positive factor preserves `<=`. */
  lemma MulCancel(x: int, y: int, b: int)
    requires b > 0
    requires x * b <= y * b
    ensures x <= y
  {
    assert (x - y) * b == x * b - y * b;
    if x > y {
      MultipleOfAtLeast(x - y, b);
    }
  }

  // ---------------------------------------------------------------------
  // Multiplication facts the geometric proofs rely on

  /** Multiplying by a non-negative factor preserves `<=`. */
  lemma MulMonotone(x: int, y: int, c: int)
    requires x <= y && c >= 0
    ensures x * c <= y * c
  {
    assert y * c - x * c == (y - x) * c;
  }

  /** A non-zero factor can be cancelled from an equation. */
  lemma CancelFactor(x: int, y: int, c: int)
    requires c != 0
    requires x * c == y * c
    ensures x == y
  {
    assert (x - y) * c == 0;
  }

  /** Bounds on the factors bound the product. */
  lemma MulBound(x: int, y: int, boundX: nat, boundY: nat)
    requires Abs(x) <= boundX && Abs(y) <= boundY
    ensures Abs(x * y) <= boundX * boundY
  {
    assert Abs(x * y) == Abs(x) * Abs(y);
    MulMonotone(Abs(x), boundX, Abs(y));
    MulMonotone(Abs(y), boundY, boundX);
  }

  /** A multiple of a non-zero vector is zero only for a zero factor. */
  lemma NonZeroVector(k: int, x: int, y: int)
    requires x != 0 || y != 0
    ensures k * x == 0 && k * y == 0 ==> k == 0
  {
  }

  /** If `den * v == k * d` with `0 <= k <= den`, then v lies between 0 and d. */
  lemma ScaledBetween(den: int, k: int, v: int, d: int)
    requires den > 0 && 0 <= k <= den
    requires den * v == k * d
    ensures d >= 0 ==> 0 <= v <= d
    ensures d <= 0 ==> d <= v <= 0
  {
    if d >= 0 {
      assert k * d <= den * d by { MulMonotone(k, den, d); }
      MulCancel(0, v, den);
      MulCancel(v, d, den);
    } else {
      assert k * d >= den * d by { MulMonotone(k, den, -d); }
      MulCancel(v, 0, den);
      MulCancel(d, v, den);
    }
  }
}
