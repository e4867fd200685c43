/**
  Python's integer floor division `//`, modulo `%` and power `**`, written on
  top of Dafny's Euclidean `/` and `%`.

  Section 6.7 of the Python Language Reference ("Binary arithmetic
  operations") defines `//` as division rounded toward negative infinity and
  `%` as the matching remainder: `x == (x // y) * y + x % y`, the remainder
  is zero or has the sign of the divisor, and its magnitude is smaller than
  the divisor's. Dafny's `/` and `%` instead keep the remainder non-negative,
  so the two agree only for a positive divisor or an exact division.
 */
module PyArith {

  function Abs(x: int): (r: nat)
    ensures r == x || r == -x
  {
    if x < 0 then -x else x
  }

  /** `a // b` for Python ints: the quotient rounded toward negative infinity. */
  function FloorDiv(a: int, b: int): (q: int)
    requires b != 0
    ensures b > 0 ==> b * q <= a < b * q + b
    ensures b < 0 ==> b * q + b < a <= b * q
  {
    if b > 0 || a % b == 0 then a / b else a / b - 1
  }

  /** `a % b` for Python ints: the remainder, zero or of the divisor's sign. */
  function Mod(a: int, b: int): (r: int)
    requires b != 0
    ensures b > 0 ==> 0 <= r < b
    ensures b < 0 ==> b < r <= 0
  {
    if b > 0 || a % b == 0 then a % b else a % b + b
  }

  /** `base ** exp` for Python ints with a non-negative exponent: the empty
      product is 1 (so `0 ** 0 == 1`), a first power is the base, zero to a
      positive power is zero, and a positive base gives a positive power. */
  function Power(base: int, exp: nat): (r: int)
    ensures exp == 0 ==> r == 1
    ensures exp == 1 ==> r == base
    ensures base == 0 && exp > 0 ==> r == 0
    ensures base > 0 ==> r > 0
  {
    if exp == 0 then 1 else base * Power(base, exp - 1)
  }

  /** The three identities section 6.7 of the Python Language Reference states. */
  lemma DivModIdentities(a: int, b: int)
    requires b != 0
    ensures a == b * FloorDiv(a, b) + Mod(a, b)
    ensures Mod(a, b) == 0 || (Mod(a, b) > 0 <==> b > 0)
    ensures Abs(Mod(a, b)) < Abs(b)
  {
    if !(b > 0 || a % b == 0) {
      calc {
        b * FloorDiv(a, b) + Mod(a, b);
        b * (a / b - 1) + (a % b + b);
        b * (a / b) + a % b;
        a;
      }
    }
  }

  /** The identities determine `//` and `%`: any quotient and remainder
      meeting them are the ones `FloorDiv` and `Mod` compute. */
  lemma {:induction false} DivModUnique(a: int, b: int, q: int, r: int)
    requires b != 0
    requires a == b * q + r
    requires r == 0 || (r > 0 <==> b > 0)
    requires Abs(r) < Abs(b)
    ensures q == FloorDiv(a, b) && r == Mod(a, b)
  {
    DivModIdentities(a, b);
    var q', r' := FloorDiv(a, b), Mod(a, b);
    // b * (q - q') == r' - r, and |r' - r| < |b| since r and r' share a sign
    assert b * (q - q') == r' - r by {
      assert b * q + r == b * q' + r';
    }
    if q != q' {
      MultipleAtLeastDivisor(b, q - q');
      assert false;
    }
  }

  lemma {:induction false} MultipleAtLeastDivisor(b: int, k: int)
    requires k != 0
    ensures Abs(b * k) >= Abs(b)
  {
    if k > 0 {
      PositiveMultiple(b, k);
    } else {
      PositiveMultiple(b, -k);
      assert b * k == -(b * -k);
    }
  }

  lemma {:induction false} PositiveMultiple(b: int, k: nat)
    requires k >= 1
    ensures b >= 0 ==> b * k >= b
    ensures b <= 0 ==> b * k <= b
  {
    if k > 1 {
      PositiveMultiple(b, k - 1);
      assert b * k == b * (k - 1) + b;
    }
  }

  /** Floor division is the floor of the exact (real) quotient. */
  lemma {:induction false} FloorDivIsFloorOfQuotient(a: int, b: int)
    requires b != 0
    ensures FloorDiv(a, b) == ((a as real) / (b as real)).Floor
  {
    var q := FloorDiv(a, b);
    var x := (a as real) / (b as real);
    var br := b as real;
    assert x * br == a as real;
    // with d the distance from q down to x, and e from x up to q + 1
    var d, e := q as real - x, (q + 1) as real - x;
    assert d * br == (b * q - a) as real;
    assert e * br == (b * q + b - a) as real;
    if b > 0 {
      SignFromProduct(d, br);
      SignFromProduct(-e, br);
    } else {
      SignFromProduct(-d, -br);
      SignFromProduct(e, -br);
    }
  }

  lemma SignFromProduct(d: real, p: real)
    requires p > 0.0
    ensures d * p <= 0.0 ==> d <= 0.0
    ensures d * p < 0.0 ==> d < 0.0
  {
  }

  /** Exponent law: the power is repeated multiplication by the base. */
  lemma {:induction false} PowerAdd(base: int, m: nat, n: nat)
    ensures Power(base, m + n) == Power(base, m) * Power(base, n)
  {
    if m > 0 {
      PowerAdd(base, m - 1, n);
      var x, y := Power(base, m - 1), Power(base, n);
      assert Power(base, m + n) == base * Power(base, m - 1 + n);
      assert Power(base, m) == base * x;
      MulAssociates(base, x, y);
    }
  }

  lemma MulAssociates(a: int, b: int, c: int)
    ensures a * (b * c) == (a * b) * c
  {
  }
}
