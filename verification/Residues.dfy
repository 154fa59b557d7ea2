/** Which arguments make the exponentiation return N instead of a residue, told by divisibility alone. */
module Residues {
  import opened Arith
  import opened Gcd
  import opened ExpMod

  // ----- Greatest common divisors as combinations -----

  lemma GcdOfZero(a: nat)
    ensures IsGcd(a, a, 0)
  {
    forall d: nat | d > 0
      ensures Divides(d, 0)
    {
      ModMultiple(0, d);
    }
  }

  /** Every two numbers have a greatest common divisor, and it is a combination of them. */
  lemma {:induction false} Bezout(a: nat, b: nat) returns (g: nat, u: int, v: int)
    ensures IsGcd(g, a, b) && g == u * a + v * b
    decreases b
  {
    if b == 0 {
      g, u, v := a, 1, 0;
      GcdOfZero(a);
    } else {
      var u', v';
      g, u', v' := Bezout(b, a % b);
      u, v := v', u' - v' * (a / b);
      RemainderDivisors(g, a, b);
      Combination(a, b, a / b, a % b, u', v');
    }
  }

  lemma Combination(a: int, b: int, q: int, r: int, u: int, v: int)
    requires a == q * b + r
    ensures v * a + (u - v * q) * b == u * b + v * r
  {
    assert v * (q * b + r) == v * q * b + v * r;
  }

  lemma RemainderDivisors(g: nat, a: nat, b: nat)
    requires b > 0 && IsGcd(g, b, a % b)
    ensures IsGcd(g, a, b)
  {
    forall d: nat | d > 0
      ensures Divides(d, g) <==> Divides(d, a) && Divides(d, b)
    {
      assert Divides(d, g) <==> Divides(d, b) && Divides(d, a % b);
      if Divides(d, b) {
        DividesCombination(d, b, a % b, a / b, 1);
        DividesCombination(d, b, a, -(a / b), 1);
        assert -(a / b) * b + 1 * a == a % b && a / b * b + 1 * (a % b) == a;
      }
    }
  }

  lemma DividesCombination(d: nat, x: int, y: int, u: int, v: int)
    requires d > 0 && Divides(d, x)
    ensures Divides(d, y) ==> Divides(d, u * x + v * y)
  {
    if Divides(d, y) {
      DivExact(x, d);
      DivExact(y, d);
      assert u * x + v * y == (u * (x / d) + v * (y / d)) * d by {
        assert u * (x / d * d) == u * (x / d) * d && v * (y / d * d) == v * (y / d) * d;
      }
      ModMultiple(u * (x / d) + v * (y / d), d);
    }
  }

  // ----- Divisors of powers -----

  /** A number prime to a that divides a power of a is one. */
  lemma {:induction false} CoprimeToPower(a: nat, e: nat, n: nat)
    requires n > 0 && IsGcd(1, a, n) && Pow(a, e) % n == 0
    ensures n == 1
  {
    if e == 0 {
      DivisorOfOne(n);
    } else {
      var g, u, v := Bezout(a, n);
      GcdUnique(g, 1, a, n);
      var p, k := Pow(a, e - 1), a * Pow(a, e - 1) / n;
      DivExact(a * p, n);
      assert p == (u * k + v * p) * n by {
        assert p == (u * a + v * n) * p;
        Cleared(u, a, p, k, n, v);
      }
      ModMultiple(u * k + v * p, n);
      CoprimeToPower(a, e - 1, n);
    }
  }

  lemma Cleared(u: int, a: int, p: int, k: int, n: int, v: int)
    requires a * p == k * n
    ensures (u * a + v * n) * p == (u * k + v * p) * n
  {
    assert u * (a * p) == u * (k * n);
  }

  lemma DivisorOfOne(n: nat)
    requires n > 0 && 1 % n == 0
    ensures n == 1
  {
    if n > 1 {
      DivModUnique(1, n, 0, 1);
    }
  }

  ghost predicate SquareFree(n: nat) {
    forall d: nat :: d > 1 ==> n % (d * d) != 0
  }

  /** A squarefree number that divides a power of a divides a. */
  lemma SquareFreeRoot(a: nat, e: nat, n: nat)
    requires n > 0 && SquareFree(n) && Pow(a, e) % n == 0
    ensures a % n == 0
  {
    var g, u, v := Bezout(a, n);
    assert g > 0 by {
      if g == 0 {
        DivModUnique(n, n + 1, 0, n);
        ModMultiple(0, n + 1);
        assert Divides(n + 1, g);
      }
    }
    ModMultiple(1, g);
    assert Divides(g, g) && Divides(g, n) && Divides(g, a);
    var c := n / g;
    DivExact(n, g);
    CofactorCoprime(a, n, g, u, v, c);
    CofactorDivides(Pow(a, e), n, g, c);
    CoprimeToPower(a, e, c);
    assert n == g;
  }

  /** The cofactor of the gcd in a squarefree number is prime to a. */
  lemma CofactorCoprime(a: nat, n: nat, g: nat, u: int, v: int, c: int)
    requires n > 0 && SquareFree(n) && IsGcd(g, a, n) && g > 0 && g == u * a + v * n && n == c * g
    ensures c > 0 && IsGcd(1, a, c)
  {
    if c <= 0 {
      MulMono(c, 0, g);
    }
    forall d: nat | d > 0
      ensures Divides(d, 1) <==> Divides(d, a) && Divides(d, c)
    {
      if Divides(d, 1) {
        DivisorOfOne(d);
      }
      if Divides(d, a) && Divides(d, c) {
        assert d > 1 ==> n % (d * d) != 0;
        DividesCombination(d, c, 0, g, 0);
        assert g * c + 0 * 0 == n;
        assert Divides(d, g);
        DivExact(c, d);
        DivExact(g, d);
        SquareDivides(n, c / d, g / d, d);
      }
    }
  }

  lemma SquareDivides(n: int, x: int, y: int, d: nat)
    requires d > 0 && n == x * d * (y * d)
    ensures d * d > 0 && n % (d * d) == 0
  {
    assert x * d * (y * d) == x * y * (d * d);
    ModMultiple(x * y, d * d);
  }

  lemma CofactorDivides(p: int, n: nat, g: nat, c: int)
    requires n > 0 && p % n == 0 && n == c * g && c > 0
    ensures p % c == 0
  {
    DivExact(p, n);
    assert p / n * (c * g) == p / n * g * c;
    ModMultiple(p / n * g, c);
  }

  lemma {:induction false} PowerOfMultiple(a: nat, e: nat, n: nat)
    requires n > 0 && a % n == 0 && e > 0
    ensures Pow(a, e) % n == 0
  {
    DivExact(a, n);
    var p := Pow(a, e - 1);
    assert a / n * n * p == a / n * p * n;
    ModMultiple(a / n * p, n);
  }

  // ----- Products of two primes -----

  ghost predicate IsPrime(p: nat) {
    p > 1 && forall d: nat :: d > 0 && Divides(d, p) ==> d == 1 || d == p
  }

  /** A prime divides a number or is prime to it. */
  lemma PrimeOrCoprime(p: nat, x: nat)
    requires IsPrime(p)
    ensures Divides(p, x) || IsGcd(1, x, p)
  {
    var g, u, v := Bezout(x, p);
    if g == 0 {
      DivModUnique(p, p + 1, 0, p);
      ModMultiple(0, p + 1);
      assert Divides(p + 1, g);
    } else {
      ModMultiple(1, g);
      assert Divides(g, g) && Divides(g, x) && Divides(g, p);
    }
  }

  /** A number prime to x that divides x*y divides y. */
  lemma EuclidLemma(d: nat, x: nat, y: nat)
    requires d > 0 && IsGcd(1, x, d) && Divides(d, x * y)
    ensures Divides(d, y)
  {
    var g, u, v := Bezout(x, d);
    GcdUnique(g, 1, x, d);
    DivExact(x * y, d);
    Cleared(u, x, y, x * y / d, d, v);
    ModMultiple(u * (x * y / d) + v * y, d);
    assert y == 1 * y;
  }

  /** So an RSA modulus is squarefree. */
  lemma TwoPrimes(p: nat, q: nat)
    requires IsPrime(p) && IsPrime(q) && p != q
    ensures SquareFree(p * q)
  {
    forall d: nat | d > 1
      ensures (p * q) % (d * d) != 0
    {
      if (p * q) % (d * d) == 0 {
        DivExact(p * q, d * d);
        NoSquare(p, q, d, p * q / (d * d));
      }
    }
  }

  lemma NoSquare(p: nat, q: nat, d: nat, k: int)
    requires IsPrime(p) && IsPrime(q) && p != q && d > 1
    ensures p * q != k * (d * d)
  {
    DistinctPrimes(p, q);
    DistinctPrimes(q, p);
    PrimeOrCoprime(p, d);
    if p * q != k * (d * d) {
      return;
    }
    if Divides(p, d) {
      SquareFactor(p, q, d, k);
    } else {
      assert k * (d * d) == k * d * d;
      ModMultiple(k * d, d);
      SymmetricGcd(1, d, p);
      EuclidLemma(d, p, q);
      ModMultiple(1, q);
      SquareFactor(q, p, d, k);
    }
  }

  lemma DistinctPrimes(p: nat, q: nat)
    requires IsPrime(p) && IsPrime(q) && p != q
    ensures !Divides(p, q)
  {
    assert Divides(p, q) ==> p == 1 || p == q;
  }

  lemma SymmetricGcd(g: nat, a: nat, b: nat)
    requires IsGcd(g, a, b)
    ensures IsGcd(g, b, a)
  {
    assert forall d: nat :: d > 0 ==> (Divides(d, g) <==> Divides(d, a) && Divides(d, b));
  }

  lemma SquareFactor(p: nat, q: nat, d: nat, k: int)
    requires p > 0 && Divides(p, d) && p * q == k * (d * d)
    ensures Divides(p, q)
  {
    DivExact(d, p);
    var c := d / p;
    assert k * (c * p * (c * p)) == k * c * c * p * p;
    CancelFactor(p, q, k * c * c * p);
    ModMultiple(k * c * c, p);
  }

  lemma CancelFactor(p: int, x: int, y: int)
    requires p > 0 && p * x == y * p
    ensures x == y
  {
  }

  // ----- The exponentiation -----

  /** A negative multiple of N to an odd power always comes out as N; every modulus 1 is such a case. */
  lemma MultipleReturnsModulus(a: nat, e: nat, n: nat)
    requires n > 0 && e % 2 == 1 && a % n == 0
    ensures ExpResult(-1, a, e, n) == n != Pow(-1 * a, e) % n
  {
    PowerOfMultiple(a, e, n);
  }

  /** A base prime to a modulus above 1 always comes out right. */
  lemma CoprimeIsExact(sign: int, a: nat, e: nat, n: nat)
    requires n > 1 && (sign == 1 || sign == -1) && IsGcd(1, a, n)
    ensures ExpResult(sign, a, e, n) == Pow(sign * a, e) % n
  {
    if Pow(a, e) % n == 0 {
      CoprimeToPower(a, e, n);
    }
    ExpResultExact(sign, a, e, n);
  }

  /** For a squarefree modulus, such as a product of distinct primes, a negative base fails on an odd exponent
      exactly when the modulus divides it. */
  lemma SquareFreeExact(a: nat, e: nat, n: nat)
    requires n > 0 && SquareFree(n) && e % 2 == 1
    ensures ExpResult(-1, a, e, n) == Pow(-1 * a, e) % n <==> a % n != 0
  {
    if a % n == 0 {
      PowerOfMultiple(a, e, n);
    } else if Pow(a, e) % n == 0 {
      SquareFreeRoot(a, e, n);
    }
    ExpResultExact(-1, a, e, n);
  }
}
