/** Euclid's algorithm, the extended algorithm, modular exponentiation with
    negative exponents, and Euler's totient of a two-prime modulus. */
module NumberTheory {
  import opened Results

  /** a^e over the unbounded integers: the reference for `powers`. */
  function Pow(a: int, e: nat): int
    decreases e
  {
    if e == 0 then 1 else a * Pow(a, e - 1)
  }

  /** d is a positive divisor of x. */
  predicate Divides(d: int, x: int)
  {
    d > 0 && x % d == 0
  }

  // ---------------------------------------------------------------------
  // Euclidean division facts (Python's % and // agree with Dafny's for a
  // positive divisor).

  /** A multiple of a positive k that lies strictly between -k and k is 0. */
  lemma MultipleInOpenRange(t: int, k: int)
    requires k > 0 && -k < t * k < k
    ensures t == 0
  {
  }

  lemma DivModUnique(x: int, k: int, q: int, r: int)
    requires k > 0 && 0 <= r < k && x == q * k + r
    ensures x / k == q && x % k == r
  {
    var q', r' := x / k, x % k;
    assert x == q' * k + r';
    assert (q - q') * k == r' - r;
    MultipleInOpenRange(q - q', k);
  }

  lemma ModAddMultiple(x: int, m: int, k: int)
    requires k > 0
    ensures (x + m * k) % k == x % k
  {
    assert x + m * k == (x / k + m) * k + x % k;
    DivModUnique(x + m * k, k, x / k + m, x % k);
  }

  lemma ModMul(x: int, y: int, k: int)
    requires k > 0
    ensures (x * y) % k == ((x % k) * (y % k)) % k
  {
    var qx, rx, qy, ry := x / k, x % k, y / k, y % k;
    calc {
      x * y;
      (qx * k + rx) * (qy * k + ry);
      rx * ry + (qx * qy * k + qx * ry + rx * qy) * k;
    }
    ModAddMultiple(rx * ry, qx * qy * k + qx * ry + rx * qy, k);
  }

  /** Products respect congruence modulo k. */
  lemma ModMulCongruent(x: int, x': int, y: int, y': int, k: int)
    requires k > 0 && x % k == x' % k && y % k == y' % k
    ensures (x * y) % k == (x' * y') % k
  {
    ModMul(x, y, k);
    ModMul(x', y', k);
  }

  lemma ModIdempotent(x: int, k: int)
    requires k > 0
    ensures (x % k) % k == x % k
  {
  }

  lemma DividesLinear(g: int, x: int, y: int, c: int)
    requires Divides(g, x) && Divides(g, y)
    ensures Divides(g, c * x + y)
  {
    var qx, qy := x / g, y / g;
    assert c * x + y == (c * qx + qy) * g + 0;
    DivModUnique(c * x + y, g, c * qx + qy, 0);
  }

  lemma DividesLe(d: int, x: int)
    requires Divides(d, x) && x > 0
    ensures d <= x
  {
    var q := x / d;
    assert x == q * d;
    assert q * d >= d;
  }

  // ---------------------------------------------------------------------
  // Powers of integers.

  lemma {:induction false} PowAdd(a: int, e1: nat, e2: nat)
    ensures Pow(a, e1 + e2) == Pow(a, e1) * Pow(a, e2)
    decreases e1
  {
    if e1 > 0 {
      PowAdd(a, e1 - 1, e2);
      assert Pow(a, e1 + e2) == a * Pow(a, e1 - 1 + e2);
    }
  }

  lemma MulRearrange(a: int, b: int, c: int, d: int)
    ensures (a * b) * (c * d) == (a * c) * (b * d)
  {
  }

  lemma {:induction false} PowMulBase(x: int, y: int, e: nat)
    ensures Pow(x * y, e) == Pow(x, e) * Pow(y, e)
    decreases e
  {
    if e > 0 {
      var px, py := Pow(x, e - 1), Pow(y, e - 1);
      PowMulBase(x, y, e - 1);
      assert Pow(x * y, e) == (x * y) * (px * py);
      MulRearrange(x, y, px, py);
      assert Pow(x, e) == x * px && Pow(y, e) == y * py;
    }
  }

  lemma {:induction false} PowOne(e: nat)
    ensures Pow(1, e) == 1
    decreases e
  {
    if e > 0 {
      PowOne(e - 1);
    }
  }

  /** Reducing the base modulo k does not change a^e mod k. */
  lemma {:induction false} PowMod(x: int, e: nat, k: int)
    requires k > 0
    ensures Pow(x % k, e) % k == Pow(x, e) % k
    decreases e
  {
    if e > 0 {
      var y, p, p' := x % k, Pow(x % k, e - 1), Pow(x, e - 1);
      PowMod(x, e - 1, k);
      ModIdempotent(x, k);
      ModMulCongruent(y, x, p, p', k);
      assert Pow(y, e) == y * p && Pow(x, e) == x * p';
    }
  }

  /** a^(2m) mod k is the square of a^m mod k, reduced. */
  lemma PowSquareMod(a: int, m: nat, k: int)
    requires k > 0
    ensures Pow(a, 2 * m) % k == ((Pow(a, m) % k) * (Pow(a, m) % k)) % k
  {
    PowAdd(a, m, m);
    ModMul(Pow(a, m), Pow(a, m), k);
  }

  // ---------------------------------------------------------------------
  // euclid_gcd

  /** The recursive Euclidean algorithm. b >= 0 is where Python's floor `%`
      and Dafny's `%` agree; a may be any integer. */
  function Gcd(a: int, b: int): (r: int)
    requires b >= 0
    ensures b > 0 ==> r > 0
    ensures b == 0 ==> r == a
    decreases b
  {
    if b == 0 then a else Gcd(b, a % b)
  }

  /** The result divides both arguments (when it is not the degenerate
      gcd(0, 0) or gcd(a, 0) with a < 0). */
  lemma {:induction false} GcdDividesBoth(a: int, b: int)
    requires b >= 0 && (a > 0 || b > 0)
    ensures Divides(Gcd(a, b), a) && Divides(Gcd(a, b), b)
    decreases b
  {
    if b > 0 {
      var g := Gcd(a, b);
      GcdDividesBoth(b, a % b);
      assert a == (a / b) * b + a % b;
      DividesLinear(g, b, a % b, a / b);
    }
  }

  /** Every common positive divisor divides the result, hence is at most it. */
  lemma {:induction false} GcdGreatest(a: int, b: int, d: int)
    requires b >= 0 && Divides(d, a) && Divides(d, b)
    ensures Divides(d, Gcd(a, b))
    ensures Gcd(a, b) > 0 ==> d <= Gcd(a, b)
    decreases b
  {
    if b > 0 {
      assert a % b == (-(a / b)) * b + a;
      DividesLinear(d, b, a, -(a / b));
      GcdGreatest(b, a % b, d);
    }
    if Gcd(a, b) > 0 {
      DividesLe(d, Gcd(a, b));
    }
  }

  // ---------------------------------------------------------------------
  // extended_euclid_gcd

  /** The triple (g, s, t) that `extended_euclid_gcd` returns. */
  datatype Bezout = Bezout(g: int, s: int, t: int)

  /** The extended Euclidean algorithm: the gcd together with Bezout
      coefficients s, t with g == s*a + t*b. */
  function ExtendedGcd(a: int, b: int): (r: Bezout)
    requires b >= 0
    ensures r.g == Gcd(a, b)
    ensures r.g == r.s * a + r.t * b
    decreases b
  {
    if b == 0 then Bezout(a, 1, 0)
    else
      var rest := ExtendedGcd(b, a % b);
      var q := a / b;
      BezoutStep(a, b, q, rest.s, rest.t);
      Bezout(rest.g, rest.t, rest.s - q * rest.t)
  }

  /** The combination step: coefficients for (b, a - q*b) give coefficients
      for (a, b). */
  lemma BezoutStep(a: int, b: int, q: int, s: int, t: int)
    ensures t * a + (s - q * t) * b == s * b + t * (a - q * b)
  {
    assert (s - q * t) * b == s * b - (q * t) * b;
    assert t * (a - q * b) == t * a - t * (q * b);
    assert (q * t) * b == t * (q * b);
  }

  lemma ExtendedGcdBase(a: int)
    ensures ExtendedGcd(a, 0) == Bezout(a, 1, 0)
  {
  }

  // ---------------------------------------------------------------------
  // Modular inverses

  /** When gcd(a, k) == 1, the coefficient s of a is an inverse of a mod k. */
  lemma BezoutInverse(a: int, k: int)
    requires k > 0 && Gcd(a, k) == 1
    ensures (a * ExtendedGcd(a, k).s) % k == 1 % k
  {
    var r := ExtendedGcd(a, k);
    assert a * r.s == 1 + (-r.t) * k;
    ModAddMultiple(1, -r.t, k);
  }

  /** A common divisor of a and k also divides (a*x) mod k. */
  lemma CommonDivisorOfCongruent(g: int, a: int, k: int, x: int)
    requires k > 0 && Divides(g, a) && Divides(g, k)
    ensures Divides(g, (a * x) % k)
  {
    var y := a * x;
    DividesLinear(g, a, 0, x);
    assert x * a + 0 == y;
    assert y % k == (-(y / k)) * k + y;
    DividesLinear(g, k, y, -(y / k));
  }

  lemma GcdWithOne(a: int)
    ensures Gcd(a, 1) == 1
  {
    assert a % 1 == 0;
    assert Gcd(a, 1) == Gcd(1, 0);
  }

  lemma NoInverseModulusAboveOne(a: int, k: int, x: int)
    requires k > 1 && Gcd(a, k) != 1
    ensures (a * x) % k != 1
  {
    var g := Gcd(a, k);
    GcdDividesBoth(a, k);
    CommonDivisorOfCongruent(g, a, k, x);
    if (a * x) % k == 1 {
      DividesLe(g, 1);
    }
  }

  /** When gcd(a, k) != 1, no x is an inverse of a mod k. */
  lemma NoInverse(a: int, k: int, x: int)
    requires k > 0 && Gcd(a, k) != 1
    ensures (a * x) % k != 1 % k
  {
    if k == 1 {
      GcdWithOne(a);
    } else {
      NoInverseModulusAboveOne(a, k, x);
    }
  }

  // ---------------------------------------------------------------------
  // powers

  /** Square-and-multiply modular exponentiation. A negative exponent goes
      through the inverse of a, found with the extended algorithm, and fails
      when gcd(a, k) != 1. k > 0 is where Python's `%` agrees with Dafny's
      (and `1 % k` does not divide by zero). */
  function Powers(a: int, n: int, k: int): (r: Result<int>)
    requires k > 0
    ensures n >= 0 ==> r.Ok?
    ensures r.Ok? ==> 0 <= r.value < k
    decreases if n < 0 then 1 - n else n
  {
    if n == 0 then Ok(1 % k)
    else if n == 1 then Ok(a % k)
    else if n < 0 then
      var e := ExtendedGcd(a, k);
      if e.g != 1 then Err(InverseNotFound)
      else Powers(e.s % k, -n, k)
    else if n % 2 == 0 then Powers((a * a) % k, n / 2, k)
    else
      var half := Powers((a * a) % k, (n - 1) / 2, k);
      Ok((a * half.value) % k)
  }

  lemma PowSquaredBase(a: int, m: nat, k: int)
    requires k > 0
    ensures Pow((a * a) % k, m) % k == Pow(a, 2 * m) % k
  {
    PowMod(a * a, m, k);
    PowMulBase(a, a, m);
    PowAdd(a, m, m);
  }

  lemma PowOddStep(a: int, m: nat, k: int)
    requires k > 0
    ensures (a * (Pow(a, 2 * m) % k)) % k == Pow(a, 2 * m + 1) % k
  {
    var h := Pow(a, 2 * m);
    ModIdempotent(h, k);
    ModMulCongruent(a, a, h % k, h, k);
    assert Pow(a, 2 * m + 1) == a * h;
  }

  /** For a non-negative exponent, `powers` is a^n mod k. */
  lemma {:induction false} PowersMatchesPow(a: int, n: nat, k: int)
    requires k > 0
    ensures Powers(a, n, k) == Ok(Pow(a, n) % k)
    decreases n
  {
    if n == 1 {
      assert Pow(a, 1) == a;
    } else if n >= 2 {
      var m := n / 2;
      PowersMatchesPow((a * a) % k, m, k);
      PowSquaredBase(a, m, k);
      if n % 2 == 1 {
        PowOddStep(a, m, k);
      }
    }
  }

  /** a^m * s^m == 1 (mod k) when s inverts a. */
  lemma PowUnit(a: int, s: int, m: nat, k: int)
    requires k > 0 && (a * s) % k == 1 % k
    ensures (Pow(a, m) * Pow(s, m)) % k == 1 % k
  {
    PowMulBase(a, s, m);
    PowMod(a * s, m, k);
    PowMod(1, m, k);
    PowOne(m);
  }

  /** For a negative exponent, `powers` fails exactly when gcd(a, k) != 1,
      that is (by NoInverse) exactly when a has no inverse mod k; otherwise
      its result is the inverse of a^(-n) mod k. */
  lemma PowersNegative(a: int, n: int, k: int)
    requires k > 0 && n < 0
    ensures Powers(a, n, k).Ok? <==> Gcd(a, k) == 1
    ensures Powers(a, n, k).Ok? ==> (Pow(a, -n) * Powers(a, n, k).value) % k == 1 % k
  {
    var e := ExtendedGcd(a, k);
    if e.g == 1 {
      var m: nat := -n;
      var s := e.s % k;
      assert Powers(a, n, k) == Powers(s, m, k);
      PowersMatchesPow(s, m, k);
      BezoutInverse(a, k);
      ModIdempotent(e.s, k);
      ModMulCongruent(a, a, s, e.s, k);
      PowUnit(a, s, m, k);
      ModIdempotent(Pow(s, m), k);
      ModMulCongruent(Pow(a, m), Pow(a, m), Pow(s, m) % k, Pow(s, m), k);
    }
  }

  /** The exponent composition law for non-negative exponents. */
  lemma PowersProduct(a: int, n1: nat, n2: nat, k: int)
    requires k > 0
    ensures Powers(a, n1 + n2, k).value
         == (Powers(a, n1, k).value * Powers(a, n2, k).value) % k
  {
    PowersMatchesPow(a, n1 + n2, k);
    PowersMatchesPow(a, n1, k);
    PowersMatchesPow(a, n2, k);
    PowAdd(a, n1, n2);
    ModMul(Pow(a, n1), Pow(a, n2), k);
  }

  /** The reduced Bezout coefficient of a is a unit inverse of a mod k, and
      a negative power of a is the matching positive power of it. */
  lemma PowersInverseBase(a: int, n: int, k: int)
    requires k > 0 && n < 0 && Gcd(a, k) == 1
    ensures (a * (ExtendedGcd(a, k).s % k)) % k == 1 % k
    ensures Powers(a, n, k) == Powers(ExtendedGcd(a, k).s % k, -n, k)
  {
    var s := ExtendedGcd(a, k).s;
    BezoutInverse(a, k);
    ModIdempotent(s, k);
    ModMulCongruent(a, a, s % k, s, k);
  }

  /** Multiplying by a product that is 1 mod k changes nothing mod k. */
  lemma CancelUnit(x: int, u: int, k: int)
    requires k > 0 && u % k == 1 % k
    ensures (x * u) % k == x % k
  {
    ModMulCongruent(x, x, u, 1, k);
  }

  /** x*y reduced, times c reduced, is x mod k when y*c == 1 (mod k). */
  lemma CancelRight(x: int, y: int, c: int, k: int)
    requires k > 0 && (y * c) % k == 1 % k
    ensures (((x * y) % k) * (c % k)) % k == x % k
  {
    ModMul(x * y, c, k);
    ModIdempotent(x * y, k);
    ModIdempotent(c, k);
    assert (x * y) * c == x * (y * c);
    CancelUnit(x, y * c, k);
  }

  /** b reduced, times c*x reduced, is x mod k when b*c == 1 (mod k). */
  lemma CancelLeft(b: int, c: int, x: int, k: int)
    requires k > 0 && (b * c) % k == 1 % k
    ensures ((b % k) * ((c * x) % k)) % k == x % k
  {
    ModMul(b, c * x, k);
    ModIdempotent(b, k);
    ModIdempotent(c * x, k);
    assert b * (c * x) == x * (b * c);
    CancelUnit(x, b * c, k);
  }

  /** The composition law for d + m and -m, with d >= 0 and m > 0. */
  lemma PowersMixedAbove(a: int, d: nat, m: int, k: int)
    requires k > 0 && m > 0 && Gcd(a, k) == 1
    ensures Powers(a, -m, k).Ok?
    ensures Powers(a, d, k).value
         == (Powers(a, d + m, k).value * Powers(a, -m, k).value) % k
  {
    var s := ExtendedGcd(a, k).s % k;
    PowersInverseBase(a, -m, k);
    PowersMatchesPow(s, m, k);
    PowersMatchesPow(a, d + m, k);
    PowersMatchesPow(a, d, k);
    PowAdd(a, d, m);
    PowUnit(a, s, m, k);
    CancelRight(Pow(a, d), Pow(a, m), Pow(s, m), k);
  }

  /** The composition law for n and -(n + e), with n >= 0 and e > 0. */
  lemma PowersMixedBelow(a: int, n: nat, e: int, k: int)
    requires k > 0 && e > 0 && Gcd(a, k) == 1
    ensures Powers(a, -(n + e), k).Ok? && Powers(a, -e, k).Ok?
    ensures Powers(a, -e, k).value
         == (Powers(a, n, k).value * Powers(a, -(n + e), k).value) % k
  {
    var s := ExtendedGcd(a, k).s % k;
    var m: int := n + e;
    PowersInverseBase(a, -m, k);
    PowersInverseBase(a, -e, k);
    PowersMatchesPow(s, m, k);
    PowersMatchesPow(s, e, k);
    PowersMatchesPow(a, n, k);
    PowAdd(s, n, e);
    PowUnit(a, s, n, k);
    CancelLeft(Pow(a, n), Pow(s, n), Pow(s, e), k);
  }

  /** The composition law for a non-negative and a negative exponent. */
  lemma MixedSigns(a: int, p: nat, q: int, k: int)
    requires k > 0 && q < 0 && Gcd(a, k) == 1
    ensures Powers(a, q, k).Ok? && Powers(a, p + q, k).Ok?
    ensures Powers(a, p + q, k).value
         == (Powers(a, p, k).value * Powers(a, q, k).value) % k
  {
    if p + q >= 0 {
      var d: nat := p + q;
      PowersMixedAbove(a, d, -q, k);
    } else {
      PowersMixedBelow(a, p, -(p + q), k);
    }
  }

  /** The exponent composition law for all exponents, negative ones
      included, when a is invertible mod k. */
  lemma PowersProductCoprime(a: int, n1: int, n2: int, k: int)
    requires k > 0 && Gcd(a, k) == 1
    ensures Powers(a, n1, k).Ok? && Powers(a, n2, k).Ok? && Powers(a, n1 + n2, k).Ok?
    ensures Powers(a, n1 + n2, k).value
         == (Powers(a, n1, k).value * Powers(a, n2, k).value) % k
  {
    if n1 >= 0 && n2 >= 0 {
      PowersProduct(a, n1, n2, k);
    } else if n1 < 0 && n2 < 0 {
      var s := ExtendedGcd(a, k).s % k;
      PowersInverseBase(a, n1, k);
      PowersInverseBase(a, n2, k);
      PowersInverseBase(a, n1 + n2, k);
      PowersProduct(s, -n1, -n2, k);
    } else if n1 >= 0 {
      MixedSigns(a, n1, n2, k);
    } else {
      MixedSigns(a, n2, n1, k);
    }
  }

  // ---------------------------------------------------------------------
  // euler_totient and the private exponent

  /** Euler's totient of p*q for primes p and q. For p, q >= 2 it is
      positive and below the modulus p*q. */
  function EulerTotient(p: int, q: int): (r: int)
    ensures p >= 2 && q >= 2 ==> 0 < r < p * q
  {
    (p - 1) * (q - 1)
  }

  /** The private exponent the driver takes from extended_euclid_gcd(e, phi)
      is an inverse of e modulo phi whenever gcd(e, phi) == 1; when the gcd
      is not 1, no inverse exists at all. */
  lemma PrivateExponentIsInverse(e: int, phi: int, d: int)
    requires phi > 0
    ensures Gcd(e, phi) == 1 ==> (e * ExtendedGcd(e, phi).s) % phi == 1 % phi
    ensures Gcd(e, phi) != 1 ==> (e * d) % phi != 1 % phi
  {
    if Gcd(e, phi) == 1 {
      BezoutInverse(e, phi);
    } else {
      NoInverse(e, phi, d);
    }
  }
}
