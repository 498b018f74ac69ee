/** Arithmetic in the scalar field Zr = integers modulo the group order R.
    Elements are kept as their canonical representatives 0 <= x < R; Dafny's
    `%` with a positive modulus yields exactly that representative, also for
    negative operands, which is how the pairing library's `element_set_si`
    and `element_mul_si` reduce signed machine integers. */
module Zr {

  predicate Divides(d: int, n: int)
    requires d > 0
  {
    n % d == 0
  }

  ghost predicate IsPrime(p: int)
  {
    p > 1 && forall d :: 1 < d < p ==> !Divides(d, p)
  }

  /** Euclidean division is unique: any decomposition x = d*q + r with
      0 <= r < d is the one Dafny's `/` and `%` produce. */
  lemma DivModUnique(x: int, d: int, q: int, r: int)
    requires d > 0 && 0 <= r < d && x == d * q + r
    ensures x / d == q && x % d == r
  {
    var k := x / d - q;
    assert d * k == r - x % d;
    assert k > 0 ==> d * k >= d;
    assert k < 0 ==> d * k <= -d;
  }

  lemma ModAddMultiple(x: int, k: int, d: int)
    requires d > 0
    ensures (x + k * d) % d == x % d
  {
    DivModUnique(x + k * d, d, x / d + k, x % d);
  }

  lemma ModMulLeft(a: int, b: int, d: int)
    requires d > 0
    ensures ((a % d) * b) % d == (a * b) % d
  {
    assert a * b == (a % d) * b + ((a / d) * b) * d;
    ModAddMultiple((a % d) * b, (a / d) * b, d);
  }

  /** Reducing either factor before a product does not change the product mod d. */
  lemma ModMul(a: int, b: int, d: int)
    requires d > 0
    ensures ((a % d) * (b % d)) % d == (a * b) % d
  {
    ModMulLeft(a, b % d, d);
    ModMulLeft(b, a, d);
    assert a * (b % d) == (b % d) * a;
  }

  lemma ModAdd(a: int, b: int, d: int)
    requires d > 0
    ensures ((a % d) + (b % d)) % d == (a + b) % d
  {
    assert a + b == (a % d) + (b % d) + (a / d + b / d) * d;
    ModAddMultiple((a % d) + (b % d), a / d + b / d, d);
  }

  lemma ModMod(a: int, d: int)
    requires d > 0
    ensures (a % d) % d == a % d
  {
    DivModUnique(a % d, d, 0, a % d);
  }

  lemma LinearDivides(g: int, x: int, y: int, k: int)
    requires g > 0 && Divides(g, x) && Divides(g, y)
    ensures Divides(g, k * x + y)
  {
    assert x == g * (x / g);
    assert y == g * (y / g);
    assert k * x + y == g * (k * (x / g) + y / g) + 0;
    DivModUnique(k * x + y, g, k * (x / g) + y / g, 0);
  }

  lemma ModSelf(a: int)
    ensures a > 0 ==> Divides(a, a) && Divides(a, 0)
  {
    if a > 0 {
      DivModUnique(a, a, 1, 0);
      DivModUnique(0, a, 0, 0);
    }
  }

  /** The Bezout identity carries over one step of Euclid's algorithm,
      a = q*b + m. */
  lemma BezoutStep(a: int, b: int, q: int, m: int, x: int, y: int, g: int)
    requires a == q * b + m && b * x + m * y == g
    ensures a * y + b * (x - q * y) == g
  {
    assert a * y == q * b * y + m * y;
    assert b * (x - q * y) == b * x - q * b * y;
  }

  /** One step of Euclid's algorithm keeps the Bezout identity and the
      common divisor. */
  lemma EuclidStep(a: int, b: int, g: int, x: int, y: int)
    requires b > 0 && g > 0 && b * x + (a % b) * y == g
    requires Divides(g, b) && Divides(g, a % b)
    ensures a * y + b * (x - (a / b) * y) == g && Divides(g, a)
  {
    var q, m := a / b, a % b;
    assert a == q * b + m;
    BezoutStep(a, b, q, m, x, y, g);
    LinearDivides(g, b, m, q);
  }

  /** Extended Euclid: the greatest common divisor g of a and b with Bezout
      coefficients x, y such that a*x + b*y == g. */
  function ExtGcd(a: nat, b: nat): (r: (nat, int, int))
    ensures a * r.1 + b * r.2 == r.0
    ensures a > 0 || b > 0 ==> r.0 > 0 && Divides(r.0, a) && Divides(r.0, b)
    decreases b
  {
    if b == 0 then
      ModSelf(a);
      (a, 1, 0)
    else
      var (g, x, y) := ExtGcd(b, a % b);
      EuclidStep(a, b, g, x, y);
      (g, y, x - (a / b) * y)
  }

  /** The field inverse (`element_invert` on Zr). For an argument that is not
      invertible modulo R the result is Euclid's coefficient, which is 0 for 0. */
  function Inv(a: int, R: int): (r: int)
    requires R > 1
    ensures 0 <= r < R
    ensures a % R == 0 ==> r == 0
  {
    assert ExtGcd(R, 0) == (R, 1, 0);
    ExtGcd(a % R, R).1 % R
  }

  /** A divisor of a positive number is at most that number. */
  lemma DivisorBound(g: int, n: int)
    requires g > 0 && n > 0 && Divides(g, n)
    ensures g <= n
  {
    var k := n / g;
    DivModUnique(n, g, k, 0);
    assert n == g * k;
    assert k <= 0 ==> g * k <= 0;
    assert k > 0 ==> g * k >= g;
  }

  /** A Bezout identity m*x + R*y == 1 for m == a % R makes x % R an
      inverse of a. */
  lemma InverseFromBezout(a: int, m: int, x: int, y: int, R: int)
    requires R > 1 && m == a % R && m * x + R * y == 1
    ensures (a * (x % R)) % R == 1
  {
    var xr := x % R;
    assert (m * x) % R == 1 by {
      assert m * x == 1 + (-y) * R;
      ModAddMultiple(1, -y, R);
      DivModUnique(1, R, 0, 1);
    }
    calc {
      (a * xr) % R;
      { ModMul(a, xr, R); ModMod(x, R); }
      (m * xr) % R;
      { assert m * xr == xr * m; }
      (xr * m) % R;
      { ModMulLeft(x, m, R); }
      (x * m) % R;
      { assert x * m == m * x; }
      (m * x) % R;
      1;
    }
  }

  /** Modulo a prime, every nonzero element has an inverse. */
  lemma {:induction false} InvCorrect(a: int, R: int)
    requires IsPrime(R) && a % R != 0
    ensures (a * Inv(a, R)) % R == 1
  {
    var (g, x, y) := ExtGcd(a % R, R);
    DivisorBound(g, a % R);
    assert g == 1;
    InverseFromBezout(a, a % R, x, y, R);
  }

  lemma Rearrange(a: int, b: int, c: int, d: int)
    ensures (a * c) * (b * d) == (a * b) * (c * d)
  {
  }

  lemma UnitTimesUnit(x: int, y: int, R: int)
    requires R > 1 && x % R == 1 && y % R == 1
    ensures (x * y) % R == 1
  {
    ModMul(x, y, R);
  }

  /** A number with an inverse modulo R is nonzero modulo R. */
  lemma UnitNonzero(a: int, b: int, R: int)
    requires R > 1 && (a * b) % R == 1
    ensures a % R != 0
  {
    ModMulLeft(a, b, R);
  }

  /** Modulo a prime, a product of nonzero elements is nonzero. */
  lemma {:induction false} NonzeroProduct(a: int, b: int, R: int)
    requires IsPrime(R) && a % R != 0 && b % R != 0
    ensures (a * b) % R != 0
  {
    InvCorrect(a, R);
    InvCorrect(b, R);
    var ia, ib := Inv(a, R), Inv(b, R);
    UnitTimesUnit(a * ia, b * ib, R);
    Rearrange(a, b, ia, ib);
    UnitNonzero(a * b, ia * ib, R);
  }
}
