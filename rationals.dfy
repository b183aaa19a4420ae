/** Exact rational numbers in lowest terms: the values the solver's final
    division `current_d / current_a` produces, represented as a numerator and
    a positive denominator whose greatest common divisor is 1. */
module Rationals {

  datatype Rat = Rat(num: int, den: int)

  function Abs(n: int): nat {
    if n < 0 then -n else n
  }

  /** Euclid's algorithm on natural numbers; Gcd(m, 0) == m. */
  function Gcd(m: nat, n: nat): nat
    decreases n
  {
    if n == 0 then m else Gcd(n, m % n)
  }

  ghost predicate Divides(k: int, n: int) {
    exists q :: n == k * q
  }

  /** A fraction in lowest terms with a positive denominator. */
  predicate Reduced(q: Rat) {
    q.den > 0 && Gcd(Abs(q.num), q.den) == 1
  }

  /** The number a fraction denotes. */
  function Value(q: Rat): real
    requires q.den != 0
  {
    q.num as real / q.den as real
  }

  /** An integer as a fraction. */
  function FromInt(n: int): Rat {
    Rat(n, 1)
  }

  /** The fraction n/d in lowest terms with a positive denominator: both
      magnitudes are divided by their greatest common divisor and the sign
      goes to the numerator. */
  function Normalize(n: int, d: int): Rat
    requires d != 0
  {
    var g := Gcd(Abs(n), Abs(d));
    GcdPositive(Abs(n), Abs(d));
    var t := Abs(n) / g;
    Rat(if (n < 0) == (d < 0) then t else -t, Abs(d) / g)
  }

  lemma DivExact(n: int, g: int, t: int)
    requires g > 0 && n == g * t
    ensures n / g == t && n % g == 0
  {
    var q, r := n / g, n % g;
    assert n == g * q + r && 0 <= r < g;
    var e := t - q;
    assert g * e == r;
    assert e >= 1 ==> g * e >= g;
    assert e <= -1 ==> g * e <= -g;
  }

  lemma {:induction false} GcdPositive(m: nat, n: nat)
    requires m > 0 || n > 0
    ensures Gcd(m, n) > 0
    decreases n
  {
    if n != 0 {
      GcdPositive(n, m % n);
    }
  }

  lemma {:induction false} GcdDividesBoth(m: nat, n: nat)
    ensures Divides(Gcd(m, n), m) && Divides(Gcd(m, n), n)
    decreases n
  {
    var g := Gcd(m, n);
    if n == 0 {
      assert m == g * 1 && n == g * 0;
    } else {
      GcdDividesBoth(n, m % n);
      var p :| n == g * p;
      var r :| m % n == g * r;
      var k := m / n;
      assert m == n * k + m % n;
      assert m == g * (p * k + r) by {
        calc {
          m;
          n * k + m % n;
          (g * p) * k + g * r;
          g * (p * k + r);
        }
      }
    }
  }

  lemma {:induction false} GcdGreatest(m: nat, n: nat, k: int)
    requires Divides(k, m) && Divides(k, n)
    ensures Divides(k, Gcd(m, n))
    decreases n
  {
    if n != 0 {
      var p :| m == k * p;
      var u :| n == k * u;
      var j := m / n;
      assert m % n == k * (p - u * j) by {
        assert m == n * j + m % n;
        calc {
          m % n;
          m - n * j;
          k * p - (k * u) * j;
          k * (p - u * j);
        }
      }
      GcdGreatest(n, m % n, k);
    }
  }

  lemma FactorSign(m: int, g: int, t: int)
    requires g > 0 && m == g * t
    ensures (m > 0 ==> t > 0) && (m >= 0 ==> t >= 0)
  {
    assert t < 0 ==> g * t < 0;
    assert t == 0 ==> g * t == 0;
  }

  /** If h * g divides g, with g and h positive, then h is 1. */
  lemma UnitFactor(g: int, h: int)
    requires g > 0 && h > 0 && Divides(h * g, g)
    ensures h == 1
  {
    var w :| g == (h * g) * w;
    assert g * (h * w) == g * 1;
    assert h * w == 1;
    assert h > 1 && w >= 1 ==> h * w >= h;
    assert h > 1 && w <= 0 ==> h * w <= 0;
  }

  lemma ScaleWitness(x: int, h: int, y: int, g: int)
    requires x == h * y
    ensures g * x == (h * g) * y
  {
  }

  /** The cofactors left after dividing by the greatest common divisor
      share no divisor but 1. */
  lemma CofactorGcdIsOne(m: nat, n: nat, t: nat, u: nat)
    requires n > 0 && u > 0 && m == Gcd(m, n) * t && n == Gcd(m, n) * u
    ensures Gcd(t, u) == 1
  {
    var g := Gcd(m, n);
    var h := Gcd(t, u);
    GcdPositive(m, n);
    GcdPositive(t, u);
    GcdDividesBoth(t, u);
    var tt :| t == h * tt;
    var uu :| u == h * uu;
    ScaleWitness(t, h, tt, g);
    ScaleWitness(u, h, uu, g);
    assert Divides(h * g, m) by { assert m == (h * g) * tt; }
    assert Divides(h * g, n) by { assert n == (h * g) * uu; }
    GcdGreatest(m, n, h * g);
    UnitFactor(g, h);
  }

  /** Dividing two numbers, not both zero, by their greatest common
      divisor leaves cofactors whose greatest common divisor is 1. */
  lemma CofactorsCoprime(m: nat, n: nat)
    requires n > 0
    ensures Gcd(m, n) > 0
    ensures m == Gcd(m, n) * (m / Gcd(m, n)) && n == Gcd(m, n) * (n / Gcd(m, n))
    ensures Gcd(m / Gcd(m, n), n / Gcd(m, n)) == 1
  {
    var g := Gcd(m, n);
    GcdPositive(m, n);
    GcdDividesBoth(m, n);
    var t :| m == g * t;
    var u :| n == g * u;
    DivExact(m, g, t);
    DivExact(n, g, u);
    FactorSign(m, g, t);
    FactorSign(n, g, u);
    CofactorGcdIsOne(m, n, t, u);
  }

  /** Moving the sign of n/d onto the numerator keeps the cross product. */
  lemma SignedCrossProduct(n: int, d: int, g: int, t: int, u: int)
    requires Abs(n) == g * t && Abs(d) == g * u
    ensures (if (n < 0) == (d < 0) then t else -t) * d == n * u
  {
    if n < 0 && d < 0 {
      assert t * d == t * (-(g * u)) == (-(g * t)) * u;
    } else if n < 0 {
      assert (-t) * d == (-t) * (g * u) == (-(g * t)) * u;
    } else if d < 0 {
      assert (-t) * d == (-t) * (-(g * u)) == (g * t) * u;
    } else {
      assert t * d == t * (g * u) == (g * t) * u;
    }
  }

  /** Normalize gives a fraction in lowest terms that denotes exactly n/d:
      num * d == n * den. This is the fraction sympy's Rational(n, d) holds. */
  lemma NormalizeCorrect(n: int, d: int)
    requires d != 0
    ensures var r := Normalize(n, d);
      Reduced(r) && r.num * d == n * r.den
  {
    var g := Gcd(Abs(n), Abs(d));
    CofactorsCoprime(Abs(n), Abs(d));
    var t, u := Abs(n) / g, Abs(d) / g;
    SignedCrossProduct(n, d, g, t, u);
  }

  lemma NormalizeMultiple(k: int, n: int)
    requires n != 0
    ensures Normalize(k * n, n) == FromInt(k)
  {
    var an := Abs(n);
    var akn := Abs(k * n);
    assert akn == an * Abs(k);
    DivExact(akn, an, Abs(k));
    DivExact(an, an, 1);
    assert Gcd(akn, an) == Gcd(an, 0) == an;
    assert k != 0 ==> ((k * n < 0) == (n < 0)) == (k > 0);
  }

  /** Fractions with equal cross products denote the same number. */
  lemma ValueOfCrossProduct(q: Rat, n: int, d: int)
    requires q.den != 0 && d != 0
    requires q.num * d == n * q.den
    ensures Value(q) == n as real / d as real
  {
    var x, y := q.num as real, q.den as real;
    var nr, dr := n as real, d as real;
    assert x * dr == nr * y;
    calc {
      x / y;
      (x * dr) / (y * dr);
      (nr * y) / (y * dr);
      nr / dr;
    }
  }
}
