/** Rust's integer division and remainder truncate toward zero; Dafny's
    `/` and `%` are Euclidean.  This module spells the Rust operators out. */
module RustInt {

  /** The ranges of the fixed-width types the solvers parse into (`usize`
      is 64 bits wide). */
  const U64_LIMIT: nat := 0x1_0000_0000_0000_0000
  const I64_MIN: int := -0x8000_0000_0000_0000
  const I64_MAX: int := 0x7fff_ffff_ffff_ffff
  const I128_MIN: int := -0x8000_0000_0000_0000_0000_0000_0000_0000
  const I128_MAX: int := 0x7fff_ffff_ffff_ffff_ffff_ffff_ffff_ffff

  function Abs(x: int): (r: nat)
    ensures r == x || r == -x
  {
    if x < 0 then -x else x
  }

  /** `a / b` on a signed Rust integer: the quotient rounded toward zero. */
  function TruncDiv(a: int, b: int): (q: int)
    requires b != 0
  {
    if a >= 0 then (if b > 0 then a / b else -(a / -b))
    else (if b > 0 then -((-a) / b) else (-a) / (-b))
  }

  /** `a % b` on a signed Rust integer: the remainder takes the sign of `a`. */
  function TruncRem(a: int, b: int): (r: int)
    requires b != 0
  {
    a - b * TruncDiv(a, b)
  }

  /** Euclidean division of naturals, the building block of both cases. */
  lemma NatDivMod(n: nat, d: int)
    requires d > 0
    ensures n == d * (n / d) + n % d && 0 <= n % d < d && n / d >= 0
  {
  }

  /** The truncating pair is a division: `a == b*q + r`, the remainder is
      smaller than the divisor in magnitude and never has the opposite sign
      of the dividend. */
  lemma TruncDivRem(a: int, b: int)
    requires b != 0
    ensures a == b * TruncDiv(a, b) + TruncRem(a, b)
    ensures Abs(TruncRem(a, b)) < Abs(b)
    ensures a >= 0 ==> TruncRem(a, b) >= 0
    ensures a <= 0 ==> TruncRem(a, b) <= 0
    ensures Abs(TruncDiv(a, b)) == Abs(a) / Abs(b)
  {
    var n: nat := Abs(a);
    var d: nat := Abs(b);
    NatDivMod(n, d);
    var q0: nat, r0: nat := n / d, n % d;
    if a >= 0 {
      TruncCase(a, b, n, d, q0, r0, if b > 0 then 1 else -1, 1);
    } else {
      TruncCase(a, b, n, d, q0, r0, if b > 0 then -1 else 1, -1);
    }
  }

  /** One sign case of `TruncDivRem`: the quotient is `sq * (n / d)` and the
      remainder `sa * (n % d)`, with `n` and `d` the magnitudes. */
  lemma TruncCase(a: int, b: int, n: nat, d: nat, q0: nat, r0: nat, sq: int, sa: int)
    requires b != 0 && n == Abs(a) && d == Abs(b) && q0 == n / d && r0 == n % d
    requires sa == (if a >= 0 then 1 else -1)
    requires sq == (if (a >= 0) == (b > 0) then 1 else -1)
    ensures a == b * TruncDiv(a, b) + TruncRem(a, b)
    ensures Abs(TruncRem(a, b)) < Abs(b)
    ensures a >= 0 ==> TruncRem(a, b) >= 0
    ensures a <= 0 ==> TruncRem(a, b) <= 0
    ensures Abs(TruncDiv(a, b)) == Abs(a) / Abs(b)
  {
    NatDivMod(n, d);
    assert TruncDiv(a, b) == sq * q0;
    assert a == sa * n;
    assert b == sa * sq * d;
    assert b * (sq * q0) == sa * (d * q0) by {
      assert sq * sq == 1;
    }
    assert TruncRem(a, b) == sa * r0;
  }

  /** For non-negative operands the two conventions agree. */
  lemma TruncMatchesEuclidOnNonNegative(a: int, b: int)
    requires a >= 0 && b > 0
    ensures TruncDiv(a, b) == a / b && TruncRem(a, b) == a % b
  {
  }

  function Pow(base: int, e: nat): (r: int)
    ensures base > 0 ==> r > 0
  {
    if e == 0 then 1 else base * Pow(base, e - 1)
  }

  /** `u64::ilog10`, which panics at zero: the largest `k` with
      `10^k <= n`. */
  function ILog10(n: nat): (k: nat)
    requires n > 0
    ensures Pow(10, k) <= n < Pow(10, k + 1)
  {
    if n < 10 then 0
    else
      var k := 1 + ILog10(n / 10);
      assert Pow(10, k) == 10 * Pow(10, k - 1) && Pow(10, k + 1) == 10 * Pow(10, k);
      k
  }

  /** Dividing by `a` and then by `b` divides by `a * b`. */
  lemma DivDiv(n: nat, a: nat, b: nat)
    requires a > 0 && b > 0
    ensures a * b > 0 && n / (a * b) == (n / a) / b
  {
    var q, r := n / a, n % a;
    var q2, r2 := q / b, q % b;
    NatDivMod(n, a);
    NatDivMod(q, b);
    MulParts(a, b, q2, r2);
    MulLe(a, r2, b - 1);
    MulPositive(a, b);
    DivUnique(n, a * b, q2, a * r2 + r);
  }

  lemma MulParts(a: nat, b: nat, q2: nat, r2: nat)
    ensures a * (b * q2 + r2) == (a * b) * q2 + a * r2
  {
  }

  lemma MulLe(a: nat, x: int, y: int)
    requires x <= y
    ensures a * x <= a * y && a * (y + 1) == a * y + a
  {
  }

  lemma MulPositive(a: nat, b: nat)
    requires a > 0 && b > 0
    ensures a * b > 0
  {
  }

  lemma DivUnique(n: nat, d: nat, q: nat, r: nat)
    requires d > 0 && n == d * q + r && r < d
    ensures n / d == q && n % d == r
  {
    var q0, r0 := n / d, n % d;
    assert d * q0 + r0 == n;
    var x := q0 - q;
    assert d * x == r - r0 by {
      assert d * q0 - d * q == d * x;
    }
    if x >= 1 {
      MulAtLeast(d, x);
    } else if x <= -1 {
      MulAtLeast(d, -x);
    }
  }

  lemma MulAtLeast(d: nat, x: int)
    requires x >= 1
    ensures d * x >= d
  {
  }
}
