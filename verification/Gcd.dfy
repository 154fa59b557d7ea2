/** Binary greatest common divisor (HAC 14.54). */
module Gcd {
  import opened Arith
  import opened Limbs
  import opened Mpis
  import opened AddSub
  import opened Shift

  // ----- Specification -----

  ghost predicate Divides(d: nat, x: int)
    requires d > 0
  {
    x % d == 0
  }

  /** g is the greatest common divisor in the order of divisibility. */
  ghost predicate IsGcd(g: nat, a: nat, b: nat) {
    forall d: nat :: d > 0 ==> (Divides(d, g) <==> Divides(d, a) && Divides(d, b))
  }

  lemma GcdUnique(g: nat, h: nat, a: nat, b: nat)
    requires IsGcd(g, a, b) && IsGcd(h, a, b)
    ensures g == h
  {
    var m := g + h + 1;
    assert Divides(m, g) <==> Divides(m, h);
    if g > 0 && h > 0 {
      DivModUnique(g, g, 1, 0);
      DivModUnique(h, h, 1, 0);
      assert Divides(g, g) && Divides(h, h);
      DivisorBound(g, h);
      DivisorBound(h, g);
    } else {
      DivModUnique(g, m, 0, g);
      DivModUnique(h, m, 0, h);
    }
  }

  lemma DivisorBound(d: nat, x: nat)
    requires d > 0 && x > 0 && Divides(d, x)
    ensures d <= x
  {
    if x < d {
      DivModUnique(x, d, 0, x);
    }
  }

  /** It is also the greatest in the usual order. */
  lemma GcdGreatest(g: nat, a: nat, b: nat, d: nat)
    requires IsGcd(g, a, b) && g > 0 && d > 0 && Divides(d, a) && Divides(d, b)
    ensures d <= g && Divides(g, a) && Divides(g, b)
  {
    DivModUnique(g, g, 1, 0);
    assert Divides(g, g);
    DivisorBound(d, g);
  }

  // ----- Divisors under the steps of the loop -----

  lemma MultipleDivides(d: nat, x: int, k: int)
    requires d > 0 && x == k * d
    ensures Divides(d, x)
  {
    ModMultiple(k, d);
  }

  lemma OddDivisor(d: nat, x: int)
    requires d > 0 && Divides(d, x) && x % 2 == 1
    ensures d % 2 == 1
  {
    DivExact(x, d);
    if d % 2 == 0 {
      EvenProduct(x / d, d);
    }
  }

  lemma EvenProduct(k: int, d: int)
    requires d % 2 == 0
    ensures k * d % 2 == 0
  {
    assert d == 2 * (d / 2);
    assert k * d == 2 * (k * (d / 2));
  }

  /** An odd d divides q*2^r exactly when it divides q. */
  lemma OddDividesShifted(d: nat, q: int, r: nat)
    requires d > 0 && d % 2 == 1
    ensures Divides(d, q * Pow2(r)) <==> Divides(d, q)
  {
    if Divides(d, q * Pow2(r)) {
      assert 0 * Pow2(r) == 0;
      CongCancelPow2(q, 0, r, d);
    }
    if Divides(d, q) {
      var k := q / d;
      assert q == k * d;
      assert q * Pow2(r) == k * Pow2(r) * d;
      MultipleDivides(d, q * Pow2(r), k * Pow2(r));
    }
  }

  ghost predicate SameDivisors(a: nat, b: nat, c: nat, e: nat) {
    forall d: nat :: d > 0 ==> (Divides(d, a) && Divides(d, b) <==> Divides(d, c) && Divides(d, e))
  }

  /** Powers of two can be dropped from one number when the other is odd. */
  lemma DropTwos(a: nat, q: nat, r: nat, b: nat)
    requires a == q * Pow2(r) && b % 2 == 1
    ensures SameDivisors(a, b, q, b) && SameDivisors(b, a, b, q)
  {
    forall d: nat | d > 0
      ensures Divides(d, a) && Divides(d, b) <==> Divides(d, q) && Divides(d, b)
    {
      if Divides(d, b) {
        OddDivisor(d, b);
        OddDividesShifted(d, q, r);
      }
    }
  }

  lemma DividesDifference(d: nat, a: nat, b: nat)
    requires d > 0 && b <= a && Divides(d, b)
    ensures Divides(d, a) <==> Divides(d, a - b)
  {
    var l := b / d;
    assert b == l * d;
    if Divides(d, a) {
      var k := a / d;
      assert a - b == (k - l) * d;
      MultipleDivides(d, a - b, k - l);
    }
    if Divides(d, a - b) {
      var k := (a - b) / d;
      assert a == (k + l) * d;
      MultipleDivides(d, a, k + l);
    }
  }

  /** Subtracting the smaller and halving: both operands odd. */
  lemma SubtractAndHalve(a: nat, b: nat, h: nat)
    requires b <= a && a % 2 == 1 && b % 2 == 1 && h == (a - b) / 2
    ensures SameDivisors(a, b, h, b) && SameDivisors(b, a, b, h) && a - b == 2 * h
  {
    forall d: nat | d > 0
      ensures Divides(d, a) && Divides(d, b) <==> Divides(d, a - b) && Divides(d, b)
    {
      if Divides(d, b) {
        DividesDifference(d, a, b);
      }
    }
    assert Pow2(1) == 2;
    DropTwos(a - b, h, 1, b);
  }

  /** Doubling both numbers doubles the gcd. */
  lemma DoubleGcd(g: nat, a: nat, b: nat)
    requires IsGcd(g, a, b)
    ensures IsGcd(2 * g, 2 * a, 2 * b)
  {
    forall d: nat | d > 0
      ensures Divides(d, 2 * g) <==> Divides(d, 2 * a) && Divides(d, 2 * b)
    {
      if d % 2 == 1 {
        OddDouble(d, g);
        OddDouble(d, a);
        OddDouble(d, b);
        assert Divides(d, g) <==> Divides(d, a) && Divides(d, b);
      } else {
        EvenDouble(d, g);
        EvenDouble(d, a);
        EvenDouble(d, b);
        assert Divides(d / 2, g) <==> Divides(d / 2, a) && Divides(d / 2, b);
      }
    }
  }

  lemma OddDouble(d: nat, x: nat)
    requires d % 2 == 1
    ensures Divides(d, 2 * x) <==> Divides(d, x)
  {
    assert Pow2(1) == 2;
    OddDividesShifted(d, x, 1);
  }

  lemma EvenDouble(d: nat, x: nat)
    requires d > 0 && d % 2 == 0
    ensures Divides(d, 2 * x) <==> Divides(d / 2, x)
  {
    var h := d / 2;
    if Divides(d, 2 * x) {
      var k := 2 * x / d;
      assert 2 * x == k * (2 * h) == 2 * (k * h);
      MultipleDivides(h, x, k);
    }
    if Divides(h, x) {
      var k := x / h;
      assert x == k * h;
      assert 2 * x == k * (2 * h);
      MultipleDivides(d, 2 * x, k);
    }
  }

  lemma {:induction false} ScaleGcd(g: nat, a: nat, b: nat, r: nat)
    requires IsGcd(g, a, b)
    ensures IsGcd(g * Pow2(r), a * Pow2(r), b * Pow2(r))
  {
    if r == 0 {
      assert g * 1 == g && a * 1 == a && b * 1 == b;
    } else {
      ScaleGcd(g, a, b, r - 1);
      DoubleGcd(g * Pow2(r - 1), a * Pow2(r - 1), b * Pow2(r - 1));
      ScaleOne(g, r);
      ScaleOne(a, r);
      ScaleOne(b, r);
    }
  }

  lemma ScaleOne(x: nat, r: nat)
    requires r > 0
    ensures 2 * (x * Pow2(r - 1)) == x * Pow2(r)
  {
  }

  // ----- The algorithm -----

  /** The loop keeps the common divisors, one number odd, and the second number nonzero; a zero second
      operand stays zero. */
  ghost predicate GcdInv(x: nat, y: nat, a: nat, b: nat) {
    (b == 0 ==> y == 0)
    && (b > 0 ==> y > 0 && SameDivisors(x, y, a, b) && (x > 0 ==> x % 2 == 1 || y % 2 == 1))
  }

  /** X <- X / 2^lsb(X): the odd part, and zero stays zero. */
  method DropLowZeros(X: Mpi) returns (ghost r: nat)
    requires X.s == 1
    modifies X
    ensures X.s == 1 && old(Val(X.p)) == Val(X.p) * Pow2(r) && Val(X.p) <= old(Val(X.p))
    ensures old(Val(X.p)) > 0 ==> Val(X.p) % 2 == 1
    ensures old(Val(X.p)) == 0 ==> Val(X.p) == 0
  {
    ghost var v := Val(X.p);
    var count := Lsb(X);
    r := count;
    if v == 0 {
      assert Pow2(0) == 1;
    } else {
      DivExact(v, Pow2(count));
    }
    DivBound(v, Pow2(count));
    ShiftR(X, count);
  }

  /** One turn of the loop: both numbers made odd, then the larger becomes half the difference. */
  method GcdStep(TA: Mpi, TB: Mpi, ghost a: nat, ghost b: nat)
    requires TA != TB && TA.s == 1 && TB.s == 1 && Val(TA.p) > 0 && GcdInv(Val(TA.p), Val(TB.p), a, b)
    modifies TA, TB
    ensures TA.s == 1 && TB.s == 1 && GcdInv(Val(TA.p), Val(TB.p), a, b)
    ensures Val(TA.p) + Val(TB.p) < old(Val(TA.p) + Val(TB.p))
  {
    ghost var x, y := Val(TA.p), Val(TB.p);
    ghost var r := DropLowZeros(TA);
    ghost var q := DropLowZeros(TB);
    OddParts(x, y, Val(TA.p), Val(TB.p), r, q, a, b);
    HalveDifference(TA, TB, a, b);
  }

  lemma OddParts(x: nat, y: nat, x': nat, y': nat, r: nat, q: nat, a: nat, b: nat)
    requires x > 0 && GcdInv(x, y, a, b) && x == x' * Pow2(r) && y == y' * Pow2(q)
    requires x' % 2 == 1 && (y > 0 ==> y' % 2 == 1) && (y == 0 ==> y' == 0)
    ensures b == 0 ==> y' == 0
    ensures b > 0 ==> y' % 2 == 1 && SameDivisors(x', y', a, b)
  {
    if b > 0 {
      if y % 2 == 1 {
        OddTwos(y, y', q);
        DropTwos(x, x', r, y);
      } else {
        OddTwos(x, x', r);
        DropTwos(y, y', q, x);
      }
    }
  }

  /** An odd number has no factor two to drop. */
  lemma OddTwos(v: nat, v': nat, r: nat)
    requires v == v' * Pow2(r) && v % 2 == 1
    ensures v' == v
  {
    if r > 0 {
      EvenProduct(v', Pow2(r));
    }
  }

  /** The larger of the two odd numbers becomes half their difference. */
  method HalveDifference(TA: Mpi, TB: Mpi, ghost a: nat, ghost b: nat)
    requires TA != TB && TA.s == 1 && TB.s == 1 && Val(TA.p) % 2 == 1
    requires (b == 0 ==> Val(TB.p) == 0) && (b > 0 ==> Val(TB.p) % 2 == 1 && SameDivisors(Val(TA.p), Val(TB.p), a, b))
    modifies TA, TB
    ensures TA.s == 1 && TB.s == 1 && GcdInv(Val(TA.p), Val(TB.p), a, b)
    ensures Val(TA.p) + Val(TB.p) < old(Val(TA.p) + Val(TB.p))
  {
    ghost var x, y := Val(TA.p), Val(TB.p);
    assert Pow2(1) == 2;
    var cmp := CmpMpi(TA, TB);
    if cmp >= 0 {
      if b > 0 {
        SubtractAndHalve(x, y, (x - y) / 2);
      }
      var ret := SubAbs(TA, TA, TB);
      ShiftR(TA, 1);
    } else {
      SubtractAndHalve(y, x, (y - x) / 2);
      var ret := SubAbs(TB, TB, TA);
      ShiftR(TB, 1);
    }
  }

  /** What mbedtls_mpi_gcd computes: the gcd of the magnitudes, except that gcd(A, 0) is 0. */
  ghost predicate GcdResult(g: nat, a: nat, b: nat) {
    if b == 0 then g == 0 else IsGcd(g, a, b)
  }

  /** So the result is a greatest common divisor exactly when B is nonzero or both numbers are zero. */
  lemma GcdExact(g: nat, a: nat, b: nat)
    requires GcdResult(g, a, b)
    ensures IsGcd(g, a, b) <==> b != 0 || a == 0
  {
    if b == 0 && a > 0 {
      DivModUnique(a, a + 1, 0, a);
      DivModUnique(0, a + 1, 0, 0);
      assert !Divides(a + 1, a) && Divides(a + 1, g);
    }
  }

  method OddStart(TA: Mpi, TB: Mpi) returns (lz: nat)
    requires TA != TB
    modifies TA, TB
    ensures old(Val(TA.p)) == Val(TA.p) * Pow2(lz) && old(Val(TB.p)) == Val(TB.p) * Pow2(lz)
    ensures GcdInv(Val(TA.p), Val(TB.p), Val(TA.p), Val(TB.p))
  {
    ghost var x, y := Val(TA.p), Val(TB.p);
    lz := Lsb(TA);
    var lzt := Lsb(TB);
    ghost var la := lz;
    if lzt < lz {
      lz := lzt;
    }
    CommonTwos(x, y, la, lzt, lz);
    ShiftR(TA, lz);
    ShiftR(TB, lz);
  }

  lemma CommonTwos(x: nat, y: nat, la: nat, lb: nat, lz: nat)
    requires (x == 0 ==> la == 0) && (x > 0 ==> IsOrder(x, la)) && (y == 0 ==> lb == 0) && (y > 0 ==> IsOrder(y, lb))
    requires lz == if lb < la then lb else la
    ensures x == x / Pow2(lz) * Pow2(lz) && y == y / Pow2(lz) * Pow2(lz)
    ensures x / Pow2(lz) > 0 && y / Pow2(lz) > 0 ==> x / Pow2(lz) % 2 == 1 || y / Pow2(lz) % 2 == 1
    ensures x / Pow2(lz) >= 0 && y / Pow2(lz) >= 0
  {
    LowerOrder(x, la, lz);
    LowerOrder(y, lb, lz);
    DivBound(x, Pow2(lz));
    DivBound(y, Pow2(lz));
  }

  lemma LowerOrder(x: nat, la: nat, lz: nat)
    requires lz <= la && (x == 0 ==> la == 0) && (x > 0 ==> IsOrder(x, la))
    ensures x == x / Pow2(lz) * Pow2(lz)
  {
    if x == 0 {
      assert Pow2(0) == 1;
    } else {
      DivExact(x, Pow2(la));
      Pow2Add(la - lz, lz);
      SplitFactor(x, x / Pow2(la), Pow2(la - lz), Pow2(lz));
    }
  }

  lemma SplitFactor(x: int, k: int, u: int, w: int)
    requires w > 0 && x == k * (u * w)
    ensures x == x / w * w
  {
    assert k * (u * w) == k * u * w;
    ModMultiple(k * u, w);
  }

  /** mbedtls_mpi_gcd; G may be A or B. */
  method GcdMpi(G: Mpi, A: Mpi, B: Mpi)
    modifies G
    ensures GcdResult(Val(G.p), old(Val(A.p)), old(Val(B.p))) && G.s == 1
  {
    var TA := new Mpi();
    var TB := new Mpi();
    Copy(TA, A);
    Copy(TB, B);
    ghost var a0, b0 := Val(A.p), Val(B.p);
    var lz := OddStart(TA, TB);
    ghost var a, b := Val(TA.p), Val(TB.p);
    TA.s := 1;
    TB.s := 1;
    var cmp := CmpInt(TA, 0);
    while cmp != 0
      invariant TA.s == 1 && TB.s == 1 && GcdInv(Val(TA.p), Val(TB.p), a, b) && cmp == Cmp(TA.Value(), 0)
      decreases Val(TA.p) + Val(TB.p)
    {
      GcdStep(TA, TB, a, b);
      cmp := CmpInt(TA, 0);
    }
    GcdDone(Val(TB.p), a, b, lz, a0, b0);
    ShiftL(TB, lz);
    Copy(G, TB);
  }

  lemma GcdDone(y: nat, a: nat, b: nat, lz: nat, a0: nat, b0: nat)
    requires GcdInv(0, y, a, b) && a0 == a * Pow2(lz) && b0 == b * Pow2(lz)
    ensures GcdResult(y * Pow2(lz), a0, b0)
  {
    if b == 0 {
    } else {
      MulMono(1, b, Pow2(lz));
      forall d: nat | d > 0
        ensures Divides(d, y) <==> Divides(d, a) && Divides(d, b)
      {
        DivModUnique(0, d, 0, 0);
        assert Divides(d, 0);
      }
      ScaleGcd(y, a, b, lz);
    }
  }
}
