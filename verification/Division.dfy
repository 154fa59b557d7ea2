/** Long division (HAC 14.20), in both readings of the product loop: with it (product == true) the
    quotient and remainder are those of truncated division; as shipped (product == false) only a
    remainder congruent to the dividend is promised. */
module Division {
  import opened Arith
  import opened Limbs
  import opened Mpis
  import opened AddSub
  import opened Shift
  import opened Multiply
  import opened TrialDigits
  import WordDivision

  // ----- Truncated division -----

  function Abs(x: int): nat { if x < 0 then -x else x }

  /** Quotient rounded toward zero. */
  function TruncDiv(a: int, b: int): int
    requires b != 0
  {
    if (a < 0) == (b < 0) then Abs(a) / Abs(b) else -(Abs(a) / Abs(b))
  }

  /** Remainder with the sign of the dividend. */
  function TruncRem(a: int, b: int): int
    requires b != 0
  {
    if a < 0 then -(Abs(a) % Abs(b)) else Abs(a) % Abs(b)
  }

  lemma TruncLaw(a: int, b: int)
    requires b != 0
    ensures a == TruncDiv(a, b) * b + TruncRem(a, b)
    ensures Abs(TruncRem(a, b)) < Abs(b)
    ensures TruncRem(a, b) == 0 || (TruncRem(a, b) < 0) == (a < 0)
  {
    var q, r := Abs(a) / Abs(b), Abs(a) % Abs(b);
    assert Abs(a) == q * Abs(b) + r;
    assert (-q) * b == -(q * b) && q * (-b) == -(q * b);
  }

  // ----- The quotient digit -----

  /** Value of the two leading divisor limbs, and of the three leading dividend limbs, as the source loads them. */
  function Top2(y: seq<Limb>, t: nat): nat
    requires t < |y|
  {
    (if t < 1 then 0 else y[t - 1]) + BASE * y[t]
  }

  function Top3(x: seq<Limb>, i: nat): nat
    requires 1 <= i < |x|
  {
    (if i < 2 then 0 else x[i - 2]) + BASE * (x[i - 1] + BASE * x[i])
  }

  /** The digit satisfies the three-by-two test, and no larger digit does. */
  ghost predicate IsEstimate(z: int, y2: int, x3: int) {
    0 <= z < BASE && z * y2 <= x3 && (z == BASE - 1 || (z + 1) * y2 > x3)
  }

  /** An estimate is the true digit or one above it: subtracting z*s from x overshoots by less than s. */
  lemma QuotientDigit(x: int, s: int, d: int, x3: int, xr: int, y2: int, yr: int, z: int)
    requires 0 < d && x * BASE == x3 * d + xr && 0 <= xr < d
    requires s * BASE == y2 * d + yr && 0 <= yr < d
    requires BASE <= y2 && 0 < s && x < s * BASE && IsEstimate(z, y2, x3)
    ensures -s <= x - z * s < s
  {
    EstimateLow(x, s, d, x3, xr, y2, yr, z);
    if z == BASE - 1 {
    } else {
      EstimateHigh(x, s, d, x3, xr, y2, yr, z);
    }
  }

  lemma EstimateLow(x: int, s: int, d: int, x3: int, xr: int, y2: int, yr: int, z: int)
    requires 0 < d && x * BASE == x3 * d + xr && 0 <= xr && s * BASE == y2 * d + yr && 0 <= yr < d
    requires BASE <= y2 && 0 <= z < BASE && z * y2 <= x3
    ensures x - z * s >= -s
  {
    MulMono(z * y2, x3, d);
    MulMono(z, BASE, yr);
    MulMono(BASE, y2, d);
    assert z * (s * BASE) == z * y2 * d + z * yr by {
      assert z * (y2 * d + yr) == z * y2 * d + z * yr;
    }
    assert (x - z * s + s) * BASE == x * BASE - z * (s * BASE) + s * BASE;
  }

  lemma EstimateHigh(x: int, s: int, d: int, x3: int, xr: int, y2: int, yr: int, z: int)
    requires 0 < d && x * BASE == x3 * d + xr && xr < d && s * BASE == y2 * d + yr && 0 <= yr
    requires 0 <= z && (z + 1) * y2 > x3
    ensures x - z * s < s
  {
    MulMono(x3 + 1, (z + 1) * y2, d);
    MulMono(0, z + 1, yr);
    assert (x3 + 1) * d == x3 * d + d;
    assert (z + 1) * (s * BASE) == (z + 1) * y2 * d + (z + 1) * yr by {
      assert (z + 1) * (y2 * d + yr) == (z + 1) * y2 * d + (z + 1) * yr;
    }
    assert (x - (z + 1) * s) * BASE == x * BASE - (z + 1) * (s * BASE);
  }

  /** The three leading limbs of x, scaled by one limb so that i == 1 is no special case. */
  lemma LeadingDividend(x: seq<Limb>, i: nat) returns (xr: nat)
    requires 1 <= i < |x| && (forall k :: i < k < |x| ==> x[k] == 0)
    ensures Val(x) * BASE == Top3(x, i) * BP(i - 1) + xr && xr < BP(i - 1)
  {
    var j := if i < 2 then 0 else i - 2;
    ValSplit(x, j);
    ValBound(x[..j]);
    ValZeros(x[i + 1..]);
    ValCons(x, i);
    ValCons(x, i - 1);
    if i < 2 {
      xr := 0;
    } else {
      ValCons(x, i - 2);
      xr := BASE * Val(x[..j]);
      LeadingFactor(Val(x[j..]), BP(j), BP(i - 1));
    }
  }

  lemma LeadingFactor(v: nat, w: nat, w': nat)
    requires w' == BASE * w
    ensures BASE * (w * v) == v * w'
  {
  }

  /** The two leading limbs of y, for the divisor moved up to limb i. */
  lemma LeadingDivisor(y: seq<Limb>, t: nat, i: nat) returns (yr: nat)
    requires t < |y| && t < i && (forall k :: t < k < |y| ==> y[k] == 0)
    ensures Val(y) * BP(i - t - 1) * BASE == Top2(y, t) * BP(i - 1) + yr && yr < BP(i - 1)
  {
    ScaledWeight(Val(y), BP(i - t - 1));
    ValZeros(y[t + 1..]);
    ValCons(y, t);
    if t < 1 {
      assert y[0..] == y;
      yr := 0;
    } else {
      yr := Val(y[..t - 1]) * BP(i - t);
      LeadingSplit(y, t);
      BPAdd(t - 1, i - t);
      LeadingProduct(Val(y), Val(y[..t - 1]), BP(t - 1), Top2(y, t), BP(i - t));
      StrictProduct(Val(y[..t - 1]), BP(t - 1), BP(i - t));
    }
  }

  lemma ScaledWeight(v: nat, w: nat)
    ensures v * w * BASE == v * (BASE * w) && v * (BASE * w) == BASE * v * w
  {
    assert v * (BASE * w) == BASE * (v * w);
  }

  lemma LeadingSplit(y: seq<Limb>, t: nat)
    requires 1 <= t < |y| && (forall k :: t < k < |y| ==> y[k] == 0)
    ensures Val(y) == Val(y[..t - 1]) + BP(t - 1) * Top2(y, t) && Val(y[..t - 1]) < BP(t - 1)
  {
    ValSplit(y, t - 1);
    ValBound(y[..t - 1]);
    ValZeros(y[t + 1..]);
    ValCons(y, t);
    ValCons(y, t - 1);
  }

  lemma LeadingProduct(v: int, lo: int, p: int, hi: int, w: int)
    requires v == lo + p * hi
    ensures v * w == hi * (p * w) + lo * w
  {
    assert (lo + p * hi) * w == lo * w + hi * (p * w);
  }

  /** The two-by-one division gives a starting digit that is not too small. */
  lemma StartingDigit(y: seq<Limb>, t: nat, x: seq<Limb>, i: nat, z: int, r: int)
    requires t < |y| && 1 <= i < |x| && z * y[t] + r == x[i] * BASE + x[i - 1] && r < y[t] && 0 <= z
    ensures (z + 1) * Top2(y, t) > Top3(x, i)
  {
    var lo: nat := if t < 1 then 0 else y[t - 1];
    MulMono(0, z + 1, lo);
    assert (z + 1) * Top2(y, t) == (z + 1) * lo + BASE * (z * y[t] + y[t]);
  }

  /** T1 <- the two leading limbs of the divisor. */
  method LoadTop2(T1: Mpi, Y: Mpi, t: nat)
    requires T1 != Y && t < |Y.p| && |T1.p| >= 2
    modifies T1
    ensures T1.s == 1 && Val(T1.p) == Top2(Y.p, t) && |T1.p| == |old(T1.p)|
  {
    Lset(T1, 0);
    T1.p := T1.p[0 := if t < 1 then 0 else Y.p[t - 1]];
    T1.p := T1.p[1 := Y.p[t]];
    ValZeros(T1.p[2..]);
    ValCons(T1.p, 1);
  }

  /** T2 <- the three leading limbs of the dividend. */
  method LoadTop3(T2: Mpi, X: Mpi, i: nat)
    requires T2 != X && 1 <= i < |X.p| && |T2.p| >= 3
    modifies T2
    ensures T2.s == 1 && Val(T2.p) == Top3(X.p, i) && |T2.p| == |old(T2.p)|
  {
    Lset(T2, 0);
    T2.p := T2.p[0 := if i < 2 then 0 else X.p[i - 2]];
    T2.p := T2.p[1 := if i < 1 then 0 else X.p[i - 1]];
    T2.p := T2.p[2 := X.p[i]];
    ValZeros(T2.p[3..]);
    ValCons(T2.p, 2);
    ValCons(T2.p, 1);
  }

  /** The two-by-one trial digit, or all ones when the leading dividend limb is not below the divisor's. */
  method TrialDigit(X: Mpi, Y: Mpi, i: nat, t: nat) returns (z: Limb)
    requires 1 <= i < |X.p| && t < |Y.p| && Y.p[t] != 0
    ensures z == TwoByOne(X.p[i], X.p[i - 1], Y.p[t])
    ensures z == BASE - 1 || (z + 1) * Top2(Y.p, t) > Top3(X.p, i)
  {
    if X.p[i] >= Y.p[t] {
      z := BASE - 1;
    } else {
      var r;
      z, r := WordDivision.IntDivInt(X.p[i], X.p[i - 1], Y.p[t]);
      StartingDigit(Y.p, t, X.p, i, z, r);
      DivModUnique(X.p[i] * BASE + X.p[i - 1], Y.p[t], z, r);
    }
  }

  /** One pass of the do-while: does the digit z fail the three-by-two test? */
  method DigitTooBig(X: Mpi, Y: Mpi, T1: Mpi, T2: Mpi, i: nat, t: nat, z: Limb, product: bool) returns (big: bool)
    requires T1 != T2 && T1 != X && T1 != Y && T2 != X && T2 != Y
    requires 1 <= i < |X.p| && t < |Y.p| && |T1.p| >= 2 && |T2.p| >= 3
    modifies T1, T2
    ensures big <==> product && z * Top2(Y.p, t) > Top3(X.p, i)
    ensures |T1.p| >= 2 && |T2.p| >= 3
  {
    LoadTop2(T1, Y, t);
    ghost var y2 := T1.Value();
    MulInt(T1, T1, z, product);
    LoadTop3(T2, X, i);
    var cmp := CmpMpi(T1, T2);
    big := cmp > 0;
    assert y2 * z == z * Top2(Y.p, t);
  }

  /** The digit estimate stored in Z[j]: trial digit, increment, then the decrementing do-while. */
  method EstimateDigit(X: Mpi, Y: Mpi, Z: Mpi, T1: Mpi, T2: Mpi, i: nat, t: nat, j: nat, product: bool)
    requires T1 != T2 && T1 != X && T1 != Y && T2 != X && T2 != Y && Z != X && Z != Y && Z != T1 && Z != T2
    requires 1 <= i < |X.p| && t < |Y.p| && Y.p[t] != 0 && j < |Z.p| && |T1.p| >= 2 && |T2.p| >= 3
    modifies Z`p, T1, T2
    ensures |Z.p| == |old(Z.p)| && Z.p == old(Z.p)[j := Z.p[j]]
    ensures product ==> IsEstimate(Z.p[j], Top2(Y.p, t), Top3(X.p, i))
    ensures !product ==> Z.p[j] == TwoByOne(X.p[i], X.p[i - 1], Y.p[t])
    ensures |T1.p| >= 2 && |T2.p| >= 3
  {
    var z0 := TrialDigit(X, Y, i, t);
    Z.p := Z.p[j := z0];
    Z.p := Z.p[j := Wrap(Z.p[j] as int + 1)];
    FirstCandidate(z0, Top2(Y.p, t), Top3(X.p, i));
    var more := true;
    while more
      invariant |Z.p| == |old(Z.p)| && Z.p == old(Z.p)[j := Z.p[j]] && |T1.p| >= 2 && |T2.p| >= 3
      invariant product ==> Candidate(Z.p[j], more, Top2(Y.p, t), Top3(X.p, i))
      invariant !product ==> Z.p[j] == if more then Wrap(z0 as int + 1) else z0
      decreases more, Wrap(Z.p[j] as int - 1)
    {
      ghost var before := Z.p[j];
      Z.p := Z.p[j := Wrap(Z.p[j] as int - 1)];
      WrapBack(z0);
      more := DigitTooBig(X, Y, T1, T2, i, t, Z.p[j], product);
      NextCandidate(before, Z.p[j], more, Top2(Y.p, t), Top3(X.p, i), product);
    }
  }

  /** While the loop continues the next digit tried is not too small; when it ends the digit is an estimate. */
  ghost predicate Candidate(z: Limb, more: bool, y2: int, x3: int) {
    if more then Wrap(z - 1) == BASE - 1 || (Wrap(z - 1) + 1) * y2 > x3
    else IsEstimate(z, y2, x3)
  }

  lemma WrapBack(z: Limb)
    ensures Wrap(Wrap(z as int + 1) as int - 1) == z
  {
  }

  lemma FirstCandidate(z0: Limb, y2: int, x3: int)
    requires z0 == BASE - 1 || (z0 + 1) * y2 > x3
    ensures Candidate(Wrap(z0 as int + 1), true, y2, x3)
  {
  }

  lemma NextCandidate(z: Limb, z': Limb, more: bool, y2: nat, x3: nat, product: bool)
    requires z' == Wrap(z - 1) && (more <==> product && z' * y2 > x3)
    requires product ==> Candidate(z, true, y2, x3)
    ensures product ==> Candidate(z', more, y2, x3)
    ensures more ==> z' > 0 && Wrap(z' - 1) < z'
  {
  }

  /** An estimate for limb i brings the dividend into [-s, s), s being the divisor moved up below limb i. */
  lemma EstimateFits(x: seq<Limb>, y: seq<Limb>, i: nat, t: nat, z: Limb)
    requires 1 <= i < |x| && t < i && t < |y| && y[t] != 0 && Val(y) < BP(t + 1)
    requires Val(x) < Val(y) * BP(i - t) && IsEstimate(z, Top2(y, t), Top3(x, i))
    ensures var s := Val(y) * BP(i - t - 1); -s <= Val(x) - z * s < s
  {
    ValSmall(y, t + 1);
    DividendBound(Val(x), Val(y), i, t);
    ValSmall(x, i + 1);
    var xr := LeadingDividend(x, i);
    var yr := LeadingDivisor(y, t, i);
    ValPositive(y, t);
    ScaledWeight(Val(y), BP(i - t - 1));
    StrictProduct(0, Val(y), BP(i - t - 1));
    QuotientDigit(Val(x), Val(y) * BP(i - t - 1), BP(i - 1), Top3(x, i), xr, Top2(y, t), yr, z);
  }

  lemma DividendBound(x: nat, y: nat, i: nat, t: nat)
    requires t < i && y < BP(t + 1) && x < y * BP(i - t)
    ensures x < BP(i + 1)
  {
    BPAdd(t + 1, i - t);
    MulMono(y, BP(t + 1), BP(i - t));
  }

  /** X <- X - Z[j]*Y*BASE^j. */
  method SubtractMultiple(X: Mpi, Y: Mpi, T1: Mpi, z: Limb, j: nat, product: bool)
    requires X != Y && X != T1 && Y != T1 && X.Signed() && Y.s == 1 && |X.p| > 0
    modifies X, T1
    ensures X.Signed() && X.Value() == old(X.Value()) - if product then z * (Val(Y.p) * BP(j)) else 0
    ensures |X.p| >= |old(X.p)| && |T1.p| >= |old(T1.p)|
  {
    MulInt(T1, Y, z, product);
    ShiftedProduct(T1.s, Val(T1.p), Val(Y.p), z, BP(j), product);
    BPPow2(j);
    ShiftL(T1, BI_L * j);
    var ret := SubMpi(X, X, T1);
  }

  lemma ShiftedProduct(s: int, v: nat, y: nat, z: nat, w: nat, product: bool)
    requires (if s < 0 then -(v as int) else v) == if product then y * z else 0
    ensures (if s < 0 then -(v * w) else v * w) == if product then z * (y * w) else 0
  {
    assert y * z >= 0;
    assert y * z * w == z * (y * w) && 0 * w == 0;
  }

  /** X <- X + Y*BASE^j: the add-back. */
  method AddBack(X: Mpi, Y: Mpi, T1: Mpi, j: nat)
    requires X != Y && X != T1 && Y != T1 && X.Signed() && Y.s == 1 && |X.p| > 0 && |Y.p| > 0
    modifies X, T1
    ensures X.Signed() && X.Value() == old(X.Value()) + Val(Y.p) * BP(j)
    ensures |X.p| >= |old(X.p)| && |T1.p| >= |old(T1.p)|
  {
    Copy(T1, Y);
    BPPow2(j);
    ShiftL(T1, BI_L * j);
    var ret := AddMpi(X, X, T1);
  }

  /** X <- X - Z[j]*Y*BASE^j, with the add-back when that is negative. */
  method SubtractDigit(X: Mpi, Y: Mpi, Z: Mpi, T1: Mpi, j: nat, product: bool)
    requires X != Y && X != T1 && Y != T1 && Z != X && Z != Y && Z != T1 && X.Signed() && X.Value() >= 0 && Y.s == 1
    requires |X.p| > 0 && |Y.p| > 0 && j < |Z.p|
    requires product ==> var s := Val(Y.p) * BP(j); -s <= X.Value() - Z.p[j] * s < s
    modifies X, Z`p, T1
    ensures X.Signed() && X.Value() >= 0 && |X.p| >= |old(X.p)| && |T1.p| >= |old(T1.p)|
    ensures |Z.p| == |old(Z.p)| && Z.p == old(Z.p)[j := Z.p[j]]
    ensures X.Value() == old(X.Value()) - if product then Z.p[j] * (Val(Y.p) * BP(j)) else 0
    ensures product ==> X.Value() < Val(Y.p) * BP(j)
    ensures !product ==> Z.p == old(Z.p)
  {
    ghost var x0, s, z := X.Value(), Val(Y.p) * BP(j), Z.p[j];
    SubtractMultiple(X, Y, T1, Z.p[j], j, product);
    var cmp := CmpInt(X, 0);
    if cmp < 0 {
      AddBack(X, Y, T1, j);
      OneLess(x0, z, s);
      Z.p := Z.p[j := Wrap(Z.p[j] as int - 1)];
      assert X.Value() == x0 - Z.p[j] * s;
    }
  }

  /** A digit that overshoots is positive, so taking one off it does not wrap. */
  lemma OneLess(x: int, z: Limb, s: int)
    requires 0 <= x && x - z * s < 0
    ensures z >= 1 && Wrap(z as int - 1) == z - 1 && x - z * s + s == x - Wrap(z as int - 1) * s
  {
    assert z == 0 ==> z * s == 0;
    NoWrap(z - 1);
    assert (z - 1) * s == z * s - s;
  }

  /** What one turn of the main loop keeps: the dividend is the remaining X plus a multiple of the divisor,
      and with the product loop restored that multiple is Z and X stays below divisor * BASE^k. */
  ghost predicate Reduced(a: int, x: int, b: int, k: nat, z: int, m: int, product: bool) {
    a == x + m * b && 0 <= x && 0 <= m && (product ==> m == z && x < b * BP(k))
  }

  /** The body of the main loop, for limb i. */
  method DivDigit(X: Mpi, Y: Mpi, Z: Mpi, T1: Mpi, T2: Mpi, i: nat, t: nat, product: bool, ghost a: int, ghost m0: int)
    returns (ghost m: int)
    requires T1 != T2 && T1 != X && T1 != Y && T2 != X && T2 != Y && Z != X && Z != Y && Z != T1 && Z != T2 && X != Y
    requires t < i < |X.p| && t < |Y.p| && Y.p[t] != 0 && Y.s == 1 && Val(Y.p) < BP(t + 1) && X.Signed()
    requires i - t - 1 < |Z.p| && Z.p[i - t - 1] == 0 && |T1.p| >= 2 && |T2.p| >= 3
    requires Reduced(a, X.Value(), Val(Y.p), i - t, Val(Z.p), m0, product)
    modifies X, Z`p, T1, T2
    ensures Reduced(a, X.Value(), Val(Y.p), i - t - 1, Val(Z.p), m, product)
    ensures !product ==> X.Value() == old(X.Value()) && m == m0
    ensures !product ==> var j := i - t - 1;
      Val(Z.p) == old(Val(Z.p)) + NatProduct(TrialAt(X.Value(), Val(Y.p), t, j), BP(j))
    ensures X.Signed() && |X.p| >= |old(X.p)| && |T1.p| >= 2 && |T2.p| >= 3
    ensures |Z.p| == |old(Z.p)| && Z.p == old(Z.p)[i - t - 1 := Z.p[i - t - 1]]
  {
    var j := i - t - 1;
    ghost var z0, x := Z.p, X.Value();
    LimbOfVal(X.p, i);
    LimbOfVal(X.p, i - 1);
    LimbOfVal(Y.p, t);
    EstimateDigit(X, Y, Z, T1, T2, i, t, j, product);
    if product {
      EstimateFits(X.p, Y.p, i, t, Z.p[j]);
    }
    SubtractDigit(X, Y, Z, T1, j, product);
    m := if product then m0 + Z.p[j] * BP(j) else m0;
    ReducedStep(a, x, X.Value(), Val(Y.p), i - t - 1, z0, Z.p, m0, m, product);
    ValUpdate(z0, j, Z.p[j]);
  }

  lemma ReducedStep(a: int, x: int, x': int, b: nat, j: nat, z0: seq<Limb>, z: seq<Limb>, m0: int, m: int,
                    product: bool)
    requires j < |z0| == |z| && z == z0[j := z[j]] && z0[j] == 0 && Reduced(a, x, b, j + 1, Val(z0), m0, product)
    requires x' == x - (if product then z[j] * (b * BP(j)) else 0) && 0 <= x' && (product ==> x' < b * BP(j))
    requires m == if product then m0 + z[j] * BP(j) else m0
    ensures Reduced(a, x', b, j, Val(z), m, product)
  {
    ValUpdate(z0, j, z[j]);
    DigitMultiple(a, x, x', m0, m, z[j], b, BP(j), product);
  }

  lemma DigitMultiple(a: int, x: int, x': int, m: int, m': int, z: int, b: int, w: int, product: bool)
    requires a == x + m * b && x' == x - (if product then z * (b * w) else 0)
    requires m' == if product then m + z * w else m
    ensures a == x' + m' * b
  {
    assert (m + z * w) * b == m * b + z * (b * w);
  }

  // ----- Normalisation -----

  lemma ShiftedBits(v: nat, bits: nat, k: nat)
    requires IsBitLen(v, bits) && v > 0
    ensures IsBitLen(v * Pow2(k), bits + k) && bits > 0
  {
    Pow2Add(bits, k);
    Pow2Add(bits - 1, k);
    StrictProduct(v, Pow2(bits), Pow2(k));
    MulMono(Pow2(bits - 1), v, Pow2(k));
  }

  lemma SigBits(p: seq<Limb>, bits: nat)
    requires IsBitLen(Val(p), bits) && Val(p) > 0
    ensures 32 * (Sig(p) - 1) < bits <= 32 * Sig(p)
  {
    SigTop(p);
    ValBound(p[..Sig(p)]);
    BPPow2(Sig(p));
    BPPow2(Sig(p) - 1);
    if bits > 32 * Sig(p) {
      Pow2Mono(32 * Sig(p), bits - 1);
    }
    if bits <= 32 * (Sig(p) - 1) {
      Pow2Mono(bits, 32 * (Sig(p) - 1));
    }
  }

  lemma TopLimbNonzero(p: seq<Limb>)
    requires |p| > 0 && Val(p) >= BP(|p| - 1)
    ensures p[|p| - 1] != 0
  {
    ValSnoc(p, |p| - 1);
    ValBound(p[..|p| - 1]);
    assert p[..|p|] == p;
  }

  lemma NormalisedCount(sig: nat, bits: nat, k: nat)
    requires 32 * (sig - 1) < bits <= 32 * sig && k == if bits % 32 < 31 then 31 - bits % 32 else 0
    ensures BitsToLimbs(bits + k) >= sig && bits + k == 32 * BitsToLimbs(bits + k) - 1
  {
  }

  /** The shift count leaves the divisor's top limb with its second-highest bit set and its highest clear. */
  lemma NormalisedTop(y: seq<Limb>, y': seq<Limb>, bits: nat, k: nat)
    requires Val(y) > 0 && IsBitLen(Val(y), bits) && Sig(y) == |y|
    requires k == if bits % 32 < 31 then 31 - bits % 32 else 0
    requires Val(y') == Val(y) * Pow2(k) && |y'| == AtLeast(|y|, BitsToLimbs(bits + k))
    ensures |y'| > 0 && y'[|y'| - 1] != 0 && |y'| == BitsToLimbs(bits + k)
  {
    SigBits(y, bits);
    NormalisedCount(|y|, bits, k);
    ShiftedBits(Val(y), bits, k);
    BPPow2(|y'| - 1);
    Pow2Mono(32 * (|y'| - 1), bits + k - 1);
    TopLimbNonzero(y');
  }

  lemma MoreBits(a: nat, ra: nat, b: nat, rb: nat)
    requires IsBitLen(a, ra) && IsBitLen(b, rb) && b <= a
    ensures rb <= ra
  {
    if ra < rb {
      Pow2Mono(ra, rb - 1);
    }
  }

  lemma BitLenExists(v: nat)
    ensures exists r: nat :: IsBitLen(v, r)
  {
    if v == 0 {
      assert IsBitLen(0, 0);
    } else {
      BitLenExists(v / 2);
      var r: nat :| IsBitLen(v / 2, r);
      assert IsBitLen(v, 1 + r);
    }
  }

  ghost function BitLenOf(v: nat): (r: nat)
    ensures IsBitLen(v, r)
  {
    BitLenExists(v);
    var r: nat :| IsBitLen(v, r);
    r
  }

  /** The normalising shift for divisor b. */
  ghost function ShiftCount(b: nat): nat {
    if BitLenOf(b) % 32 < 31 then 31 - BitLenOf(b) % 32 else 0
  }

  /** How many limbs the normalised divisor has. */
  ghost function DivisorLimbs(b: nat): nat {
    BitsToLimbs(BitLenOf(b) + ShiftCount(b))
  }

  /** How many limbs the normalised dividend has above the normalised divisor. */
  ghost function TopPlace(a: nat, b: nat): nat
    requires b <= a
  {
    MoreBits(a, BitLenOf(a), b, BitLenOf(b));
    BitsToLimbs(BitLenOf(a) + ShiftCount(b)) - DivisorLimbs(b)
  }

  lemma GrownLimbs(x: seq<Limb>, k: nat)
    requires Val(x) > 0 && Sig(x) == |x| && k < 32
    ensures AtLeast(|x|, BitsToLimbs(BitLenOf(Val(x)) + k)) == BitsToLimbs(BitLenOf(Val(x)) + k) <= |x| + 1
    ensures k == 0 ==> BitsToLimbs(BitLenOf(Val(x)) + k) == |x|
  {
    SigBits(x, BitLenOf(Val(x)));
    LimbsAfterShift(|x|, BitLenOf(Val(x)), k);
  }

  lemma LimbsAfterShift(s: nat, bits: nat, k: nat)
    requires 32 * (s - 1) < bits <= 32 * s && k < 32
    ensures s <= BitsToLimbs(bits + k) <= s + 1 && (k == 0 ==> BitsToLimbs(bits + k) == s)
  {
  }

  method Normalise(X: Mpi, Y: Mpi) returns (k: nat)
    requires X != Y && 0 < Val(Y.p) <= Val(X.p) && Sig(X.p) == |X.p| && Sig(Y.p) == |Y.p|
    modifies X`p, Y`p
    ensures Val(X.p) == old(Val(X.p)) * Pow2(k) && Val(Y.p) == old(Val(Y.p)) * Pow2(k)
    ensures |X.p| == |Y.p| + TopPlace(old(Val(X.p)), old(Val(Y.p))) && |X.p| <= |old(X.p)| + 1
    ensures k == ShiftCount(old(Val(Y.p))) && |Y.p| == DivisorLimbs(old(Val(Y.p)))
    ensures 0 < |Y.p| && Y.p[|Y.p| - 1] != 0
  {
    ghost var x, y := X.p, Y.p;
    GrownLimbs(x, ShiftCount(Val(y)));
    k := ShiftBoth(X, Y);
    NormalisedTop(y, Y.p, BitLenOf(Val(y)), k);
  }

  /** p' is p shifted left by k bits, in exactly the limbs that its bits need. */
  ghost predicate OperandShifted(p: seq<Limb>, p': seq<Limb>, k: nat) {
    Val(p') == Val(p) * Pow2(k)
    && |p'| == BitsToLimbs(BitLenOf(Val(p)) + k) && |p'| == AtLeast(|p|, BitsToLimbs(BitLenOf(Val(p)) + k))
  }

  method ShiftBoth(X: Mpi, Y: Mpi) returns (k: nat)
    requires X != Y && 0 < Val(Y.p) && 0 < Val(X.p) && Sig(X.p) == |X.p| && Sig(Y.p) == |Y.p|
    modifies X`p, Y`p
    ensures k == ShiftCount(old(Val(Y.p)))
    ensures OperandShifted(old(X.p), X.p, k) && OperandShifted(old(Y.p), Y.p, k)
  {
    var bits := Bitlen(Y);
    BitLenUnique(Val(Y.p), bits, BitLenOf(Val(Y.p)));
    k := bits % BI_L;
    if k < BI_L - 1 {
      k := BI_L - 1 - k;
      ShiftOperand(X, k);
      ShiftOperand(Y, k);
    } else {
      k := 0;
      OperandKept(X.p);
      OperandKept(Y.p);
    }
  }

  lemma OperandKept(p: seq<Limb>)
    requires 0 < Val(p) && Sig(p) == |p|
    ensures OperandShifted(p, p, 0)
  {
    GrownLimbs(p, 0);
  }

  method ShiftOperand(X: Mpi, k: nat)
    requires 0 < Val(X.p) && Sig(X.p) == |X.p| && k < 32
    modifies X`p
    ensures OperandShifted(old(X.p), X.p, k)
  {
    GrownLimbs(X.p, k);
    assert IsBitLen(Val(X.p), BitLenOf(Val(X.p)));
    ShiftL(X, k);
  }

  // ----- The leading digit -----

  lemma LeadingDigitFits(c: nat, y: nat, x: nat, a: nat, n: nat)
    requires x + c * y == a && y <= x && a < BP(n + 1) && BP(n) <= y
    ensures c + 1 < BASE && x - y + Wrap(c + 1) * y == a
  {
    assert (c + 1) * y == c * y + y;
    if c + 1 >= BASE {
      MulMono(BASE, c + 1, y);
    }
    NoWrap(c + 1);
  }

  /** One turn of the leading loop: count up in Z[j] and subtract. */
  method CountDigit(X: Mpi, Y: Mpi, Z: Mpi, j: nat, ghost n: nat, ghost a: nat)
    requires X != Y && Z != X && Z != Y && X.Signed() && Val(Y.p) <= X.Value() && Y.s == 1 && j < |Z.p|
    requires a < BP(n + 1) && BP(n) <= Val(Y.p) && |X.p| > 0 && |Y.p| > 0
    requires X.Value() + Z.p[j] * Val(Y.p) == a
    modifies X, Z`p
    ensures X.Signed() && X.Value() == old(X.Value()) - Val(Y.p) && |X.p| >= |old(X.p)|
    ensures |Z.p| == |old(Z.p)| && Z.p == old(Z.p)[j := Z.p[j]] && X.Value() + Z.p[j] * Val(Y.p) == a
  {
    ghost var y := Val(Y.p);
    LeadingDigitFits(Z.p[j], y, X.Value(), a, n);
    Z.p := Z.p[j := Wrap(Z.p[j] as int + 1)];
    var ret := SubMpi(X, X, Y);
    assert X.Value() + Z.p[j] * y == a;
  }

  /** The leading loop: subtracts Y while it fits. */
  method TopDigit(X: Mpi, Y: Mpi, Z: Mpi, j: nat, ghost n: nat)
    requires X != Y && Z != X && Z != Y && X.Signed() && X.Value() >= 0 && Y.s == 1 && j < |Z.p| && Z.p[j] == 0
    requires X.Value() < BP(n + 1) && BP(n) <= Val(Y.p) && |X.p| > 0 && |Y.p| > 0
    modifies X, Z`p
    ensures X.Signed() && 0 <= X.Value() < Val(Y.p) && |X.p| >= |old(X.p)|
    ensures |Z.p| == |old(Z.p)| && Z.p == old(Z.p)[j := Z.p[j]]
    ensures X.Value() + Z.p[j] * Val(Y.p) == old(X.Value())
  {
    ghost var a := X.Value();
    var cmp := CmpMpi(X, Y);
    while cmp >= 0
      invariant X.Signed() && 0 <= X.Value() && |X.p| >= |old(X.p)|
      invariant cmp == Cmp(X.Value(), Val(Y.p))
      invariant |Z.p| == |old(Z.p)| && Z.p == old(Z.p)[j := Z.p[j]]
      invariant X.Value() + Z.p[j] * Val(Y.p) == a
      decreases X.Value()
    {
      CountDigit(X, Y, Z, j, n, a);
      cmp := CmpMpi(X, Y);
    }
  }

  lemma TopLimbAt(p: seq<Limb>, t: nat)
    requires t < |p| && BP(t) <= Val(p) < BP(t + 1)
    ensures p[t] != 0
  {
    ValSmall(p, t + 1);
    ValSnoc(p, t);
    ValBound(p[..t]);
  }

  /** The divisor is moved up to the dividend's top limb, subtracted while it fits, and moved back. */
  method LeadDigit(X: Mpi, Y: Mpi, Z: Mpi, n: nat, t: nat)
    requires X != Y && Z != X && Z != Y && X.Signed() && X.Value() >= 0 && Y.s == 1
    requires t <= n && |X.p| == n + 1 && |Y.p| == t + 1 && Y.p[t] != 0 && n - t < |Z.p| && Z.p[n - t] == 0
    modifies X, Y, Z`p
    ensures X.Signed() && 0 <= X.Value() < Val(Y.p) * BP(n - t) && |X.p| >= n + 1
    ensures Y.s == 1 && Val(Y.p) == old(Val(Y.p)) && |Y.p| > t && Y.p[t] != 0
    ensures |Z.p| == |old(Z.p)| && Z.p == old(Z.p)[n - t := Z.p[n - t]]
    ensures X.Value() + Z.p[n - t] * (Val(Y.p) * BP(n - t)) == old(X.Value())
  {
    ghost var y := Val(Y.p);
    ValPositive(Y.p, t);
    ValBound(Y.p);
    ValBound(X.p);
    BPPow2(n - t);
    BPAdd(t, n - t);
    MulMono(BP(t), y, BP(n - t));
    ShiftL(Y, BI_L * (n - t));
    TopDigit(X, Y, Z, n - t, n);
    ShiftRoundTrip(y, BI_L * (n - t));
    ShiftR(Y, BI_L * (n - t));
    TopLimbAt(Y.p, t);
  }

  lemma LeadReduced(a: int, x: int, b: int, j: nat, z0: seq<Limb>, z: seq<Limb>, product: bool)
    requires j < |z0| == |z| && z == z0[j := z[j]] && z0[j] == 0 && Val(z0) == 0
    requires 0 <= x < b * BP(j) && x + z[j] * (b * BP(j)) == a
    ensures Reduced(a, x, b, j, Val(z), z[j] * BP(j), product)
  {
    ValUpdate(z0, j, z[j]);
    LeadMultiple(a, x, b, z[j], BP(j));
  }

  lemma LeadMultiple(a: int, x: int, b: int, d: nat, w: nat)
    requires x + d * (b * w) == a
    ensures a == x + d * w * b && 0 <= d * w
  {
    assert d * (b * w) == d * w * b;
  }

  /** The main loop, from the top limb down to the divisor's. */
  method DivLoop(X: Mpi, Y: Mpi, Z: Mpi, T1: Mpi, T2: Mpi, n: nat, t: nat, product: bool, ghost a: int, ghost m0: int)
    returns (ghost m: int)
    requires T1 != T2 && T1 != X && T1 != Y && T2 != X && T2 != Y && Z != X && Z != Y && Z != T1 && Z != T2 && X != Y
    requires t <= n < |X.p| && t < |Y.p| && Y.p[t] != 0 && Y.s == 1 && Val(Y.p) < BP(t + 1) && X.Signed()
    requires n - t < |Z.p| && (forall k :: 0 <= k < n - t ==> Z.p[k] == 0) && |T1.p| >= 2 && |T2.p| >= 3
    requires Reduced(a, X.Value(), Val(Y.p), n - t, Val(Z.p), m0, product)
    modifies X, Z`p, T1, T2
    ensures Reduced(a, X.Value(), Val(Y.p), 0, Val(Z.p), m, product) && X.Signed()
    ensures |X.p| > 0 && |Z.p| == |old(Z.p)|
    ensures !product ==> X.Value() == old(X.Value()) && m == m0
    ensures !product ==> Val(Z.p) == old(Val(Z.p)) + TrialSum(X.Value(), Val(Y.p), t, n - t)
  {
    m := m0;
    var i := n;
    while i > t
      invariant t <= i <= n < |X.p| && X.Signed() && |T1.p| >= 2 && |T2.p| >= 3
      invariant n - t < |Z.p| == |old(Z.p)| && forall k :: 0 <= k < i - t ==> Z.p[k] == 0
      invariant Reduced(a, X.Value(), Val(Y.p), i - t, Val(Z.p), m, product)
      invariant !product ==> X.Value() == old(X.Value()) && m == m0
      invariant !product ==> Val(Z.p) + TrialSum(X.Value(), Val(Y.p), t, i - t)
                             == old(Val(Z.p)) + TrialSum(X.Value(), Val(Y.p), t, n - t)
    {
      m := DivDigit(X, Y, Z, T1, T2, i, t, product, a, m);
      i := i - 1;
    }
  }

  ghost function Scaled(b: nat, k: nat): nat {
    NatProduct(b, Pow2(k))
  }

  /** What the loops leave: the dividend is X plus a multiple m of the divisor. With the product loop m is the
      digits in Z; without it m is the leading digit alone, and Z holds the trial digits of X besides. */
  ghost predicate Divided(a: nat, b: nat, j: nat, t: nat, x: int, z: int, m: int, product: bool) {
    Reduced(a, x, b, 0, z, m, product)
    && (!product ==> x < b * BP(j) && m % BP(j) == 0 && z == m + TrialSum(x, b, t, j))
  }

  /** The division proper, on normalised operands of values a and b, of t + 1 and t + 1 + j limbs. */
  method DivideNormalised(X: Mpi, Y: Mpi, Z: Mpi, T1: Mpi, T2: Mpi, product: bool, ghost a: nat, ghost b: nat,
                          ghost j: nat, ghost t0: nat)
    returns (ghost m: int)
    requires T1 != T2 && T1 != X && T1 != Y && T2 != X && T2 != Y && Z != X && Z != Y && Z != T1 && Z != T2 && X != Y
    requires X.s == 1 && Y.s == 1 && Val(X.p) == a && Val(Y.p) == b && |Y.p| == t0 + 1 && |X.p| == t0 + 1 + j
    requires Y.p[t0] != 0
    requires |Z.p| > |X.p| && (forall k :: 0 <= k < |Z.p| ==> Z.p[k] == 0) && |T1.p| >= 2 && |T2.p| >= 3
    modifies X, Y, Z`p, T1, T2
    ensures X.Signed() && |X.p| > 0 && |Z.p| > 0
    ensures Divided(a, b, j, t0, X.Value(), Val(Z.p), m, product)
  {
    ghost var z0 := Z.p;
    ValZeros(z0);
    var n, t := |X.p| - 1, |Y.p| - 1;
    ValBound(Y.p);
    LeadDigit(X, Y, Z, n, t);
    LeadReduced(a, X.Value(), Val(Y.p), n - t, z0, Z.p, product);
    ModMultiple(Z.p[n - t], BP(n - t));
    ValUpdate(z0, n - t, Z.p[n - t]);
    m := DivLoop(X, Y, Z, T1, T2, n, t, product, a, Z.p[n - t] * BP(n - t));
  }

  /** From the copies of |A| and |B| to the scaled remainder in X and the digits in Z. */
  method DivideMagnitudes(X: Mpi, Y: Mpi, Z: Mpi, T1: Mpi, T2: Mpi, product: bool) returns (k: nat, ghost m: int)
    requires T1 != T2 && T1 != X && T1 != Y && T2 != X && T2 != Y && Z != X && Z != Y && Z != T1 && Z != T2 && X != Y
    requires X.s == 1 && Y.s == 1 && 0 < Val(Y.p) <= Val(X.p) && Sig(X.p) == |X.p| && Sig(Y.p) == |Y.p|
    requires |Z.p| >= |X.p| + 2 && (forall k :: 0 <= k < |Z.p| ==> Z.p[k] == 0) && |T1.p| >= 2 && |T2.p| >= 3
    modifies X, Y, Z`p, T1, T2
    ensures k == ShiftCount(old(Val(Y.p))) && DivisorLimbs(old(Val(Y.p))) > 0
    ensures var a, b := old(Val(X.p)), old(Val(Y.p));
      Divided(Scaled(a, k), Scaled(b, k), TopPlace(a, b), DivisorLimbs(b) - 1, X.Value(), Val(Z.p), m, product)
    ensures X.Signed() && |X.p| > 0 && |Z.p| > 0
  {
    ghost var a, b := Val(X.p), Val(Y.p);
    k := Normalise(X, Y);
    m := DivideNormalised(X, Y, Z, T1, T2, product, Scaled(a, k), Scaled(b, k), TopPlace(a, b), DivisorLimbs(b) - 1);
  }

  // ----- Results -----

  /** A remainder as mbedtls_mpi_div_mpi leaves it whatever the product loop does: congruent to the
      dividend, no larger, and zero or of the dividend's sign. */
  ghost predicate IsPartialRem(a: int, b: int, r: int)
    requires b != 0
  {
    Cong(a, r, Abs(b)) && Abs(r) <= Abs(a) && (r == 0 || (r < 0) == (a < 0))
  }

  /** The divisor at the leading place. */
  ghost function LeadingDivisorAt(a: nat, b: nat): (r: nat)
    requires 0 < b <= a
    ensures r == b * BP(TopPlace(a, b)) && r > 0
  {
    StrictProduct(0, b, BP(TopPlace(a, b)));
    b * BP(TopPlace(a, b))
  }

  /** The remainder magnitude as shipped: only the leading quotient digit is ever subtracted. */
  ghost function ShippedRem(a: nat, b: nat): nat
    requires b > 0
  {
    if a < b then a else a % LeadingDivisorAt(a, b)
  }

  /** The quotient magnitude as shipped: the leading digit, and below it the trial digits of the normalised
      remainder, from which no digit has been taken off. */
  ghost function ShippedQuot(a: nat, b: nat): nat
    requires b > 0
  {
    if a < b then 0
    else
      var k, w := ShiftCount(b), TopPlace(a, b);
      DivBound(a, LeadingDivisorAt(a, b));
      DivisorHasLimbs(b);
      NatProduct(a / LeadingDivisorAt(a, b), BP(w))
      + TrialSum(Scaled(ShippedRem(a, b), k), Scaled(b, k), DivisorLimbs(b) - 1, w)
  }

  lemma DivisorHasLimbs(b: nat)
    requires b > 0
    ensures DivisorLimbs(b) > 0
  {
  }

  /** Unscaling: the remaining X is a multiple of 2^k, and dividing it out leaves |A| - m*|B|. */
  lemma Unscaled(a: nat, b: nat, k: nat, x: nat, z: int, m: int, product: bool)
    requires 0 < b <= a && k == ShiftCount(b) && DivisorLimbs(b) > 0
    requires Divided(Scaled(a, k), Scaled(b, k), TopPlace(a, b), DivisorLimbs(b) - 1, x, z, m, product)
    ensures Quotient(x, Pow2(k)) == a - m * b && 0 <= a - m * b
    ensures z == QuotMagnitude(a, b, product) && a - m * b == RemMagnitude(a, b, product)
  {
    UnscaledInts(a, b, Pow2(k), x, m);
    ModMultiple(a - m * b, Pow2(k));
    if product {
      MulLess(a - m * b, b, Pow2(k));
      DivModUnique(a, b, m, a - m * b);
    } else {
      UnscaledLeading(a, b, k, TopPlace(a, b), DivisorLimbs(b) - 1, x, z, m);
    }
  }

  lemma UnscaledLeading(a: nat, b: nat, k: nat, j: nat, t: nat, x: nat, z: int, m: int)
    requires 0 < b && Divided(Scaled(a, k), Scaled(b, k), j, t, x, z, m, false)
    requires x == (a - m * b) * Pow2(k) && 0 <= a - m * b
    ensures b * BP(j) > 0 && a % (b * BP(j)) == a - m * b && a / (b * BP(j)) * BP(j) == m
  {
    DivExact(m, BP(j));
    LeadingOnly(a, b, BP(j), Pow2(k), m, m / BP(j));
  }

  lemma LeadingOnly(a: int, b: int, w: int, p: int, m: int, c: int)
    requires 0 < b && 0 < w && 0 < p && m == c * w && 0 <= a - m * b && (a - m * b) * p < b * p * w
    ensures b * w > 0 && a % (b * w) == a - m * b && a / (b * w) == c
  {
    assert b * p * w == b * w * p;
    MulLess(a - m * b, b * w, p);
    assert m * b == c * (b * w);
    DivModUnique(a, b * w, c, a - m * b);
  }

  lemma UnscaledInts(a: int, b: int, w: int, x: int, m: int)
    requires a * w == x + m * (b * w) && 0 <= x && 0 < w
    ensures x == (a - m * b) * w && 0 <= a - m * b
  {
    assert m * (b * w) == m * b * w;
    if a - m * b < 0 {
      MulMono(a - m * b, -1, w);
    }
  }

  ghost function QuotMagnitude(a: nat, b: nat, product: bool): nat
    requires b > 0
  {
    if product then Quotient(a, b) else ShippedQuot(a, b)
  }

  ghost function RemMagnitude(a: nat, b: nat, product: bool): nat
    requires b > 0
  {
    if product then a % b else ShippedRem(a, b)
  }

  ghost function WithSign(negative: bool, v: nat): int {
    if negative then -(v as int) else v
  }

  /** The quotient stored for a magnitude q. qa and qb say that Q is the object A or B: it then takes over the
      positive sign of the digits before that operand's sign is read. */
  ghost function SignedQuot(a: int, b: int, qa: bool, qb: bool, q: nat): int {
    WithSign((a < 0 && !qa) != (b < 0 && !qb), q)
  }

  /** The remainder stored for a magnitude r. When Q is A, a dividend smaller than the divisor is lost before
      it is copied, and otherwise the sign read is that of the quotient. */
  ghost function SignedRem(a: int, b: int, qa: bool, qb: bool, r: nat): int {
    if Abs(a) < Abs(b) then if qa then 0 else a
    else WithSign(if qa then b < 0 && !qb else a < 0, r)
  }

  ghost function StoredQuot(a: int, b: int, qa: bool, qb: bool, product: bool): int
    requires b != 0
  {
    SignedQuot(a, b, qa, qb, QuotMagnitude(Abs(a), Abs(b), product))
  }

  ghost function StoredRem(a: int, b: int, qa: bool, qb: bool, product: bool): int
    requires b != 0
  {
    SignedRem(a, b, qa, qb, RemMagnitude(Abs(a), Abs(b), product))
  }

  /** The sign read from an operand that Q may just have replaced. */
  ghost function SeenSign(replaced: bool, s: int): int {
    if replaced then 1 else s
  }

  method StoreQuotient(Q: Mpi, Z: Mpi, A: Mpi, B: Mpi)
    requires Q != Z && A.Signed() && B.Signed() && |Z.p| > 0 && Z.s == 1 && Val(B.p) > 0 && Val(A.p) > 0
    modifies Q
    ensures Q.Signed() && Q.Value() == SignedQuot(old(A.Value()), old(B.Value()), Q == A, Q == B, old(Val(Z.p)))
    ensures Q.s == SeenSign(Q == A, old(A.s)) * SeenSign(Q == B, old(B.s))
    ensures |Q.p| >= |old(Q.p)|
  {
    Copy(Q, Z);
    Q.s := A.s * B.s;
  }

  method StoreRemainder(R: Mpi, X: Mpi, A: Mpi, k: nat)
    requires R != X && X != A && X.Signed() && X.Value() >= 0 && A.Signed() && |X.p| > 0
    modifies R, X
    ensures |R.p| >= |old(R.p)| && R.s == if Val(R.p) == 0 then 1 else old(A.s)
    ensures R.Signed() && R.Value() == WithSign(old(A.s) == -1, Quotient(old(X.Value()), Pow2(k)))
  {
    ShiftR(X, k);
    X.s := A.s;
    Copy(R, X);
    var cmp := CmpInt(R, 0);
    if cmp == 0 {
      R.s := 1;
    }
  }

  ghost function Quotient(a: nat, b: nat): (q: nat)
    requires b > 0
    ensures q == a / b
  {
    DivBound(a, b);
    a / b
  }

  /** The operands are not smaller than the divisor: normalise, divide, store. */
  method DivLarge(Q: Mpi?, R: Mpi?, A: Mpi, B: Mpi, product: bool)
    requires A.Signed() && B.Signed() && 0 < Val(B.p) <= Val(A.p)
    modifies Q, R
    ensures Q != null && Q != R ==>
      Q.Signed() && Q.Value() == StoredQuot(old(A.Value()), old(B.Value()), Q == A, Q == B, product)
    ensures R != null ==>
      R.Signed() && R.Value() == StoredRem(old(A.Value()), old(B.Value()), Q == A, Q == B, product)
    ensures Q != null && Q != R ==> Q.s == SeenSign(Q == A, old(A.s)) * SeenSign(Q == B, old(B.s))
    ensures R != null ==> |R.p| >= |old(R.p)| && (Val(R.p) == 0 ==> R.s == 1)
  {
    var X, Z, k := DivideCopies(A, B, product);
    StoreResults(Q, R, X, Z, A, B, k);
  }

  /** Copies, normalises and divides: Z gets the quotient digits and X the remainder, still scaled by 2^k. */
  method DivideCopies(A: Mpi, B: Mpi, product: bool) returns (X: Mpi, Z: Mpi, k: nat)
    requires 0 < Val(B.p) <= Val(A.p)
    ensures fresh(X) && fresh(Z) && X != Z && |X.p| > 0 && |Z.p| > 0 && X.Signed() && X.Value() >= 0 && Z.s == 1
    ensures Val(Z.p) == QuotMagnitude(Val(A.p), Val(B.p), product)
    ensures Quotient(X.Value(), Pow2(k)) == RemMagnitude(Val(A.p), Val(B.p), product)
  {
    var Y, T1, T2;
    X, Y, Z, T1, T2 := DivTemporaries(A, B);
    ghost var a, b := Val(A.p), Val(B.p);
    ghost var m;
    k, m := DivideMagnitudes(X, Y, Z, T1, T2, product);
    Unscaled(a, b, k, X.Value(), Val(Z.p), m, product);
  }

  /** The copies to Q and then to R, which read the operands' signs as they then are. */
  method StoreResults(Q: Mpi?, R: Mpi?, X: Mpi, Z: Mpi, A: Mpi, B: Mpi, k: nat)
    requires A.Signed() && B.Signed() && 0 < Val(B.p) <= Val(A.p) && |Z.p| > 0 && Z.s == 1 && |X.p| > 0 && X.Signed()
    requires X != Z && {X, Z} !! {Q, R, A, B} && X.Value() >= 0
    modifies Q, R, X
    ensures Q != null && Q != R ==>
      Q.Signed() && Q.Value() == SignedQuot(old(A.Value()), old(B.Value()), Q == A, Q == B, old(Val(Z.p)))
    ensures R != null ==> var r := old(Quotient(X.Value(), Pow2(k)));
      R.Signed() && R.Value() == SignedRem(old(A.Value()), old(B.Value()), Q == A, Q == B, r)
    ensures Q != null && Q != R ==> Q.s == SeenSign(Q == A, old(A.s)) * SeenSign(Q == B, old(B.s))
    ensures R != null ==> |R.p| >= |old(R.p)| && (Val(R.p) == 0 ==> R.s == 1)
  {
    if Q != null {
      StoreQuotient(Q, Z, A, B);
    }
    if R != null {
      StoreRemainder(R, X, A, k);
    }
  }

  method DivTemporaries(A: Mpi, B: Mpi) returns (X: Mpi, Y: Mpi, Z: Mpi, T1: Mpi, T2: Mpi)
    requires 0 < Val(B.p) <= Val(A.p)
    ensures fresh(X) && fresh(Y) && fresh(Z) && fresh(T1) && fresh(T2)
    ensures T1 != T2 && T1 != X && T1 != Y && T2 != X && T2 != Y && Z != X && Z != Y && Z != T1 && Z != T2 && X != Y
    ensures X.s == 1 && Y.s == 1 && Z.s == 1 && Val(X.p) == Val(A.p) && Val(Y.p) == Val(B.p)
    ensures Sig(X.p) == |X.p| && Sig(Y.p) == |Y.p|
    ensures |Z.p| >= |X.p| + 2 && (forall k :: 0 <= k < |Z.p| ==> Z.p[k] == 0) && |T1.p| >= 2 && |T2.p| >= 3
  {
    X := new Mpi();
    Y := new Mpi();
    Z := new Mpi();
    T1 := new Mpi();
    T2 := new Mpi();
    SigTop(A.p);
    SigTop(B.p);
    ValZeros([]);
    Copy(X, A);
    Copy(Y, B);
    X.s := 1;
    Y.s := 1;
    Grow(Z, |A.p| + 2);
    Lset(Z, 0);
    Grow(T1, 2);
    Grow(T2, 3);
  }

  /** The check for zero, the small dividend, and the division proper. */
  method Divide(Q: Mpi?, R: Mpi?, A: Mpi, B: Mpi, product: bool) returns (ret: Status)
    requires A.Signed() && B.Signed()
    modifies Q, R
    ensures ret == if old(B.Value()) == 0 then DivisionByZero else Ok
    ensures ret.Ok? && Q != null && Q != R ==>
      Q.Signed() && Q.Value() == StoredQuot(old(A.Value()), old(B.Value()), Q == A, Q == B, product)
    ensures ret.Ok? && R != null ==>
      R.Signed() && R.Value() == StoredRem(old(A.Value()), old(B.Value()), Q == A, Q == B, product)
    ensures ret.Ok? && Q != null && Q != R && old(Val(A.p)) < old(Val(B.p)) ==> Q.s == 1
    ensures ret.Ok? && Q != null && Q != R && old(Val(A.p)) >= old(Val(B.p)) ==>
      Q.s == SeenSign(Q == A, old(A.s)) * SeenSign(Q == B, old(B.s))
    ensures ret.Ok? && R != null && old(Val(A.p)) < old(Val(B.p)) ==>
      R.s == if Q != A && (old(|A.p|) > 0 || R == A) then old(A.s) else 1
    ensures ret.Ok? && R != null && old(Val(A.p)) >= old(Val(B.p)) && Val(R.p) == 0 ==> R.s == 1
    ensures R != null ==> |R.p| >= if |old(A.p)| > 0 then |old(R.p)| else 0
    ensures !ret.Ok? && Q != null ==> Q.p == old(Q.p) && Q.s == old(Q.s)
    ensures !ret.Ok? && R != null ==> R.p == old(R.p) && R.s == old(R.s)
  {
    var zero := CmpInt(B, 0);
    if zero == 0 {
      return DivisionByZero;
    }
    var cmp := CmpAbs(A, B);
    if cmp < 0 {
      SmallDividend(A.Value(), B.Value());
      if Q != null {
        Lset(Q, 0);
      }
      if R != null {
        Copy(R, A);
      }
      return Ok;
    }
    DivLarge(Q, R, A, B, product);
    return Ok;
  }

  /** mbedtls_mpi_div_mpi, for every aliasing of its arguments; when Q and R are one object it ends up holding
      the remainder. */
  method DivMpi(Q: Mpi?, R: Mpi?, A: Mpi, B: Mpi, product: bool) returns (ret: Status)
    requires A.Signed() && B.Signed()
    modifies Q, R
    ensures ret == if old(B.Value()) == 0 then DivisionByZero else Ok
    ensures ret.Ok? && Q != null && Q != R ==>
      Q.Signed() && Q.Value() == StoredQuot(old(A.Value()), old(B.Value()), Q == A, Q == B, product)
    ensures ret.Ok? && R != null ==>
      R.Signed() && R.Value() == StoredRem(old(A.Value()), old(B.Value()), Q == A, Q == B, product)
    ensures ret.Ok? && product && Q != A && Q != B ==>
      (Q != null && Q != R ==> Q.Value() == TruncDiv(old(A.Value()), old(B.Value())))
      && (R != null ==> R.Value() == TruncRem(old(A.Value()), old(B.Value())))
    ensures ret.Ok? && R != null && Q != A ==> IsPartialRem(old(A.Value()), old(B.Value()), R.Value())
    ensures ret.Ok? && Q != null && Q != R && old(Val(A.p)) < old(Val(B.p)) ==> Q.s == 1
    ensures ret.Ok? && Q != null && Q != R && old(Val(A.p)) >= old(Val(B.p)) ==>
      Q.s == SeenSign(Q == A, old(A.s)) * SeenSign(Q == B, old(B.s))
    ensures ret.Ok? && R != null && old(Val(A.p)) < old(Val(B.p)) ==>
      R.s == if Q != A && (old(|A.p|) > 0 || R == A) then old(A.s) else 1
    ensures ret.Ok? && R != null && old(Val(A.p)) >= old(Val(B.p)) && Val(R.p) == 0 ==> R.s == 1
    ensures R != null ==> |R.p| >= if |old(A.p)| > 0 then |old(R.p)| else 0
    ensures !ret.Ok? && Q != null ==> Q.p == old(Q.p) && Q.s == old(Q.s)
    ensures !ret.Ok? && R != null ==> R.p == old(R.p) && R.s == old(R.s)
  {
    if B.Value() != 0 {
      RestoredResults(A.Value(), B.Value());
      PartialRem(A.Value(), B.Value(), Q == B, product);
    }
    ret := Divide(Q, R, A, B, product);
  }

  lemma SmallDividend(a: int, b: int)
    requires Abs(a) < Abs(b)
    ensures TruncDiv(a, b) == 0 && TruncRem(a, b) == a && IsPartialRem(a, b, a)
    ensures QuotMagnitude(Abs(a), Abs(b), true) == 0 && QuotMagnitude(Abs(a), Abs(b), false) == 0
  {
    DivModUnique(Abs(a), Abs(b), 0, Abs(a));
    CongIntro(a, a, Abs(b), 0);
  }

  // ----- What the results mean -----

  /** With the product loop, and Q apart from the operands, the results are those of truncated division. */
  lemma RestoredResults(a: int, b: int)
    requires b != 0
    ensures StoredQuot(a, b, false, false, true) == TruncDiv(a, b)
    ensures StoredRem(a, b, false, false, true) == TruncRem(a, b)
  {
    if Abs(a) < Abs(b) {
      SmallDividend(a, b);
    } else if a == 0 || Abs(a) / Abs(b) == 0 {
    }
  }

  /** When Q is an operand, the quotient is right exactly when the signs lost cancel or no digit is stored. */
  lemma QuotAliasing(a: int, b: int, qa: bool, qb: bool)
    requires b != 0
    ensures StoredQuot(a, b, qa, qb, true) == TruncDiv(a, b) <==>
            Abs(a) < Abs(b) || (qa && a < 0) == (qb && b < 0)
  {
    if Abs(a) < Abs(b) {
      SmallDividend(a, b);
    } else {
      PositiveQuotient(Abs(a), Abs(b));
    }
  }

  lemma PositiveQuotient(a: nat, b: nat)
    requires 0 < b <= a
    ensures a / b > 0
  {
    if a / b <= 0 {
      MulMono(a / b, 0, b);
    }
  }

  /** When Q is A, the remainder is right exactly when it is zero or, for a dividend no smaller than the
      divisor, the sign the quotient takes is the dividend's; Q being B does it no harm. */
  lemma RemAliasing(a: int, b: int, qa: bool, qb: bool)
    requires b != 0
    ensures StoredRem(a, b, qa, qb, true) == TruncRem(a, b) <==>
            !qa || (if Abs(a) < Abs(b) then a == 0 else Abs(a) % Abs(b) == 0 || (a < 0) == (b < 0 && !qb))
  {
    if Abs(a) < Abs(b) {
      SmallDividend(a, b);
    }
  }

  /** Dividing -7 by 2 in place gives 3, and the remainder of 1 by 2 is lost when the quotient replaces 1. */
  lemma AliasingFails()
    ensures StoredQuot(-7, 2, true, false, true) == 3 != TruncDiv(-7, 2)
    ensures StoredRem(1, 2, true, false, true) == 0 != TruncRem(1, 2)
  {
  }

  /** Whatever the product loop does, the remainder is a partial one. */
  lemma PartialRem(a: int, b: int, qb: bool, product: bool)
    requires b != 0
    ensures IsPartialRem(a, b, StoredRem(a, b, false, qb, product))
  {
    if Abs(a) < Abs(b) {
      SmallDividend(a, b);
    } else {
      var d := if product then Abs(b) else LeadingDivisorAt(Abs(a), Abs(b));
      var c := if product then 1 else BP(TopPlace(Abs(a), Abs(b)));
      PartialMagnitude(Abs(a), Abs(b), d, c);
      var q := Abs(a) / d * c;
      CongIntro(a, StoredRem(a, b, false, qb, product), Abs(b), if a < 0 then -q else q);
    }
  }

  lemma PartialMagnitude(a: nat, b: nat, d: nat, c: nat)
    requires d == b * c && d > 0
    ensures a - a % d == a / d * c * b && -(a / d * c) * b == -(a / d * c * b) && a % d <= a
  {
    DivBound(a, d);
    MulMono(0, a / d, d);
    assert a / d * (b * c) == a / d * c * b;
  }
}
