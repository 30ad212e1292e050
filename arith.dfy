/** Exact arithmetic on unbounded integers, as the ElGamal engine obtains it from its
    big-integer library: powers, modular exponentiation, greatest common divisors,
    modular inverses and primality. */
module ModArith {

  datatype Option<T> = None | Some(value: T)

  /** b raised to the e-th power over the integers. */
  function Pow(b: int, e: nat): int
  {
    if e == 0 then 1 else b * Pow(b, e - 1)
  }

  /** d is a positive divisor of n. */
  predicate Divides(d: int, n: int)
  {
    d > 0 && n % d == 0
  }

  predicate IsPrime(p: int)
  {
    p >= 2 && forall d :: 1 < d < p ==> !Divides(d, p)
  }

  // ---------------------------------------------------------------------------
  // Division and remainder

  lemma MulAtLeast(m: int, k: int)
    requires m > 0 && k >= 1
    ensures m * k >= m
  {
  }

  /** Quotient and remainder are determined by n == m * q + r with 0 <= r < m. */
  lemma ModUnique(n: int, m: int, q: int, r: int)
    requires m > 0 && 0 <= r < m && n == m * q + r
    ensures n / m == q && n % m == r
  {
    var q0, r0 := n / m, n % m;
    assert m * q + r == m * q0 + r0;
    assert m * (q - q0) == r0 - r;
    if q > q0 {
      MulAtLeast(m, q - q0);
    } else if q < q0 {
      MulAtLeast(m, q0 - q);
    }
  }

  lemma ModMod(a: int, m: int)
    requires m > 0
    ensures (a % m) % m == a % m
  {
  }

  lemma ModOfMultipleAdd(k: int, t: int, m: int)
    requires m > 0
    ensures (m * k + t) % m == t % m
  {
    assert m * (k + t / m) == m * k + m * (t / m);
    ModUnique(m * k + t, m, k + t / m, t % m);
  }

  /** Multiplication is compatible with reduction modulo m. */
  lemma MulMod(x: int, y: int, m: int)
    requires m > 0
    ensures (x * y) % m == ((x % m) * (y % m)) % m
  {
    var qx, rx, qy, ry := x / m, x % m, y / m, y % m;
    calc {
      x * y;
      (m * qx + rx) * y;
      m * qx * y + rx * y;
      m * qx * y + rx * (m * qy + ry);
      m * (qx * y + rx * qy) + rx * ry;
    }
    ModOfMultipleAdd(qx * y + rx * qy, rx * ry, m);
  }

  lemma MulModRight(x: int, y: int, m: int)
    requires m > 0
    ensures (x * y) % m == (x * (y % m)) % m
  {
    MulMod(x, y, m);
    MulMod(x, y % m, m);
    ModMod(y, m);
  }

  /** Two integers have the same remainder exactly when m divides their difference. */
  lemma ModEqIffDivides(a: int, b: int, m: int)
    requires m > 0
    ensures a % m == b % m <==> Divides(m, a - b)
  {
    var qa, ra, qb, rb := a / m, a % m, b / m, b % m;
    assert a - b == m * (qa - qb) + (ra - rb);
    if ra == rb {
      ModUnique(a - b, m, qa - qb, 0);
    } else {
      ModOfMultipleAdd(qa - qb, ra - rb, m);
      if ra > rb {
        ModUnique(ra - rb, m, 0, ra - rb);
      } else {
        ModUnique(ra - rb, m, -1, m + ra - rb);
      }
    }
  }

  // ---------------------------------------------------------------------------
  // Divisibility

  lemma DividesByWitness(d: int, n: int, q: int)
    requires d > 0 && n == d * q
    ensures Divides(d, n)
  {
    ModUnique(n, d, q, 0);
  }

  lemma DivisorAtMost(d: int, n: int)
    requires Divides(d, n) && n > 0
    ensures d <= n
  {
  }

  // ---------------------------------------------------------------------------
  // Powers

  lemma {:induction false} PowAdd(b: int, e1: nat, e2: nat)
    ensures Pow(b, e1 + e2) == Pow(b, e1) * Pow(b, e2)
    decreases e1
  {
    if e1 > 0 {
      PowAdd(b, e1 - 1, e2);
      calc {
        Pow(b, e1 + e2);
        b * Pow(b, (e1 - 1) + e2);
        b * (Pow(b, e1 - 1) * Pow(b, e2));
        (b * Pow(b, e1 - 1)) * Pow(b, e2);
      }
    }
  }

  /** (b^e1)^e2 == b^(e1*e2). */
  lemma {:induction false} PowMul(b: int, e1: nat, e2: nat)
    ensures Pow(Pow(b, e1), e2) == Pow(b, e1 * e2)
    decreases e2
  {
    if e2 > 0 {
      PowMul(b, e1, e2 - 1);
      PowAdd(b, e1, e1 * (e2 - 1));
      assert e1 + e1 * (e2 - 1) == e1 * e2;
    }
  }

  /** Reducing the base modulo m does not change b^e modulo m. */
  lemma {:induction false} PowModBase(b: int, e: nat, m: int)
    requires m > 0
    ensures Pow(b % m, e) % m == Pow(b, e) % m
    decreases e
  {
    if e > 0 {
      PowModBase(b, e - 1, m);
      MulMod(b % m, Pow(b % m, e - 1), m);
      MulMod(b, Pow(b, e - 1), m);
      ModMod(b, m);
    }
  }

  /** Modular exponentiation by repeated squaring, the library's powmod: the result is
      b^e reduced into [0, m). */
  function PowMod(b: int, e: nat, m: nat): (r: nat)
    requires m >= 1
    ensures r < m && r == Pow(b, e) % m
    decreases e
  {
    if e == 0 then
      1 % m
    else if e % 2 == 0 then
      var t := PowMod(b, e / 2, m);
      PowAdd(b, e / 2, e / 2);
      MulMod(Pow(b, e / 2), Pow(b, e / 2), m);
      (t * t) % m
    else
      var t := PowMod(b, e - 1, m);
      MulMod(b, Pow(b, e - 1), m);
      ModMod(b, m);
      ((b % m) * t) % m
  }

  // ---------------------------------------------------------------------------
  // Greatest common divisor, Bezout coefficients, inverses

  function Gcd(a: nat, b: nat): nat
    decreases b
  {
    if b == 0 then a else Gcd(b, a % b)
  }

  lemma {:induction false} GcdDivides(a: nat, b: nat)
    requires a > 0 || b > 0
    ensures Divides(Gcd(a, b), a) && Divides(Gcd(a, b), b)
    decreases b
  {
    if b == 0 {
      DividesByWitness(a, a, 1);
      DividesByWitness(a, 0, 0);
    } else {
      GcdDivides(b, a % b);
      var g := Gcd(b, a % b);
      var qb, qr, q := b / g, (a % b) / g, a / b;
      assert b == g * qb;
      assert a % b == g * qr;
      calc {
        a;
        b * q + a % b;
        (g * qb) * q + g * qr;
        g * (qb * q + qr);
      }
      DividesByWitness(g, a, qb * q + qr);
    }
  }

  lemma BezoutStep(a: nat, b: nat, x: int, y: int, g: int)
    requires b > 0 && b * x + (a % b) * y == g
    ensures a * y + b * (x - (a / b) * y) == g
  {
  }

  /** The extended Euclidean algorithm: the gcd of a and b with Bezout coefficients. */
  function ExtGcd(a: nat, b: nat): (r: (nat, int, int))
    ensures r.0 == Gcd(a, b) && a * r.1 + b * r.2 == r.0
    decreases b
  {
    if b == 0 then
      (a, 1, 0)
    else
      var (g, x, y) := ExtGcd(b, a % b);
      BezoutStep(a, b, x, y, g);
      (g, y, x - (a / b) * y)
  }

  lemma InverseFromBezout(a: int, m: int, x: int, y: int)
    requires m >= 2 && (a % m) * x + m * y == 1
    ensures (a * (x % m)) % m == 1
  {
    MulModRight(a, x, m);
    MulMod(a, x, m);
    MulMod(a % m, x, m);
    ModMod(a, m);
    assert (a % m) * x == m * (-y) + 1;
    ModOfMultipleAdd(-y, 1, m);
    ModUnique(1, m, 0, 1);
  }

  /** The library's modular inverse, modelled as existing exactly when m >= 2 and a is
      coprime to m, and then lying in [0, m). */
  function Invert(a: nat, m: nat): (r: Option<nat>)
    ensures r.Some? <==> m >= 2 && Gcd(a % m, m) == 1
    ensures r.Some? ==> r.value < m && (a * r.value) % m == 1
  {
    if m < 2 then
      None
    else
      var (g, x, y) := ExtGcd(a % m, m);
      if g != 1 then
        None
      else
        InverseFromBezout(a, m, x, y);
        Some(x % m)
  }

  /** A number with an inverse modulo m is coprime to m. */
  lemma InverseImpliesCoprime(a: nat, m: nat, t: nat)
    requires t < m && (a * t) % m == 1
    ensures m >= 2 && Gcd(a % m, m) == 1
  {
    if m == 1 {
      ModUnique(a * t, 1, a * t, 0);
    }
    var g := Gcd(a % m, m);
    GcdDivides(a % m, m);
    // g divides both a % m and m, hence (a % m) * t - m * q, which is 1
    var qa, qm, q := (a % m) / g, m / g, ((a % m) * t) / m;
    assert a % m == g * qa && m == g * qm;
    MulMod(a, t, m);
    ModUnique(t, m, 0, t);
    assert ((a % m) * t) % m == 1;
    calc {
      1;
      (a % m) * t - m * q;
      (g * qa) * t - (g * qm) * q;
      g * (qa * t - qm * q);
    }
    DividesByWitness(g, 1, qa * t - qm * q);
    DivisorAtMost(g, 1);
  }

  /** An inverse modulo m is unique in [0, m), so Invert's answer does not depend on
      which algorithm computes it. */
  lemma InverseUnique(a: nat, m: nat, t: nat)
    requires t < m && (a * t) % m == 1
    ensures Invert(a, m) == Some(t)
  {
    InverseImpliesCoprime(a, m, t);
    var u := Invert(a, m).value;
    calc {
      t % m;
      (t * 1) % m;
      { MulModRight(t, a * u, m); }
      (t * (a * u)) % m;
      { assert t * (a * u) == u * (a * t); }
      (u * (a * t)) % m;
      { MulModRight(u, a * t, m); }
      (u * 1) % m;
    }
    ModUnique(t, m, 0, t);
    ModUnique(u, m, 0, u);
  }

  // ---------------------------------------------------------------------------
  // Primes

  /** A prime p is coprime to every s in (0, p). */
  lemma CoprimeToPrime(s: nat, p: nat)
    requires IsPrime(p) && 0 < s < p
    ensures Gcd(s, p) == 1
  {
    var g := Gcd(s, p);
    GcdDivides(s, p);
    DivisorAtMost(g, s);
  }

  /** Euclid's lemma: a prime that divides a product divides one of its factors. */
  lemma EuclidLemma(p: nat, a: int, b: int)
    requires IsPrime(p) && Divides(p, a * b)
    ensures Divides(p, a) || Divides(p, b)
  {
    if !Divides(p, a) {
      var s := a % p;
      CoprimeToPrime(s, p);
      var (g, x, y) := ExtGcd(s, p);
      var k, qa := (a * b) / p, a / p;
      assert a * b == p * k;
      assert a == p * qa + s;
      calc {
        s * b;
        (a - p * qa) * b;
        a * b - p * qa * b;
        p * (k - qa * b);
      }
      calc {
        b;
        b * (s * x + p * y);
        (s * b) * x + p * (b * y);
        p * (k - qa * b) * x + p * (b * y);
        p * ((k - qa * b) * x + b * y);
      }
      DividesByWitness(p, b, (k - qa * b) * x + b * y);
    }
  }

  /** No power of g is divisible by a prime that does not divide g. */
  lemma {:induction false} PowNotDivisible(p: nat, g: int, n: nat)
    requires IsPrime(p) && !Divides(p, g)
    ensures !Divides(p, Pow(g, n))
    decreases n
  {
    if n == 0 {
      ModUnique(1, p, 0, 1);
    } else {
      PowNotDivisible(p, g, n - 1);
      if Divides(p, Pow(g, n)) {
        EuclidLemma(p, g, Pow(g, n - 1));
      }
    }
  }

  /** Multiplication by a non-multiple of a prime p can be cancelled modulo p. */
  lemma CancelModPrime(p: nat, s: int, a: int, b: int)
    requires IsPrime(p) && !Divides(p, s) && (a * s) % p == (b * s) % p
    ensures a % p == b % p
  {
    ModEqIffDivides(a * s, b * s, p);
    assert (a - b) * s == a * s - b * s;
    EuclidLemma(p, a - b, s);
    ModEqIffDivides(a, b, p);
  }
}
