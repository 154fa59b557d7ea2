/** When the results of mbedtls_mpi_div_mpi as shipped, without its product, are nevertheless the true ones. */
module ShippedDivision {
  import opened Arith
  import opened Limbs
  import opened Mpis
  import opened Shift
  import opened TrialDigits
  import opened Division

  // ----- The remainder -----

  /** As shipped the remainder is the true one exactly when every quotient limb below the leading place is zero. */
  lemma ShippedRemExact(a: nat, b: nat)
    requires 0 < b <= a
    ensures ShippedRem(a, b) == a % b <==> a / b % BP(TopPlace(a, b)) == 0
  {
    LeadingRemainder(a, b, BP(TopPlace(a, b)));
    assert ShippedRem(a, b) == a % LeadingDivisorAt(a, b);
  }

  lemma LeadingRemainder(a: nat, b: nat, w: nat)
    requires b > 0 && w > 0
    ensures b * w > 0 && (a % (b * w) == a % b <==> a / b % w == 0)
  {
    var q, r := a / b, a % b;
    LeadingPlace(a, b, w, q, r, q / w, q % w);
  }

  lemma LeadingPlace(a: int, b: int, w: int, q: int, r: int, hi: int, lo: int)
    requires 0 < b && 0 < w && a == q * b + r && 0 <= r < b && q == hi * w + lo && 0 <= lo < w
    ensures b * w > 0 && (a % (b * w) == r <==> lo == 0)
  {
    LeadingSum(a, b, w, q, r, hi, lo);
    DivModUnique(a, b * w, hi, lo * b + r);
    if lo > 0 {
      MulMono(1, lo, b);
    }
  }

  lemma LeadingSum(a: int, b: int, w: int, q: int, r: int, hi: int, lo: int)
    requires 0 < b && 0 < w && a == q * b + r && 0 <= r < b && q == hi * w + lo && 0 <= lo < w
    ensures b * w > 0 && a == hi * (b * w) + (lo * b + r) && 0 <= lo * b + r < b * w
  {
    assert (hi * w + lo) * b == hi * (b * w) + lo * b;
    MulMono(lo + 1, w, b);
    assert (lo + 1) * b == lo * b + b;
    MulMono(0, lo, b);
  }

  // ----- The quotient -----

  /** The trial digit that the shipped code leaves in the quotient's limb j. */
  ghost function ShippedDigit(a: nat, b: nat, j: nat): Limb
    requires 0 < b <= a
  {
    DivisorHasLimbs(b);
    TrialAt(Scaled(ShippedRem(a, b), ShiftCount(b)), Scaled(b, ShiftCount(b)), DivisorLimbs(b) - 1, j)
  }

  /** The leading place is always right, so the shipped quotient is the true one exactly when every trial digit
      below it is the digit of the true quotient there. */
  lemma ShippedQuotExact(a: nat, b: nat)
    requires 0 < b <= a
    ensures ShippedQuot(a, b) == Quotient(a, b) <==>
            forall j: nat :: 0 <= j < TopPlace(a, b) ==> ShippedDigit(a, b, j) == LimbOf(Quotient(a, b), j)
  {
    DivisorHasLimbs(b);
    var k, t, w := ShiftCount(b), DivisorLimbs(b) - 1, TopPlace(a, b);
    var x, y := Scaled(ShippedRem(a, b), k), Scaled(b, k);
    TrialSumExact(x, y, t, Quotient(a, b), w);
    LeadingPart(a, b, BP(w));
    assert forall j: nat :: ShippedDigit(a, b, j) == TrialAt(x, y, t, j);
  }

  lemma LeadingPart(a: nat, b: nat, w: nat)
    requires b > 0 && w > 0
    ensures b * w > 0 && a / b == a / (b * w) * w + a / b % w
  {
    assert a / b * b + a % b == a;
    NestedDivision(a, a % b, a / b, b, w);
  }

  /** Operands whose leading places coincide leave no trial digit: both results are exact. */
  lemma LeadingPlaceOnly(a: nat, b: nat)
    requires 0 < b <= a && TopPlace(a, b) == 0
    ensures ShippedQuot(a, b) == a / b && ShippedRem(a, b) == a % b
  {
    ShippedQuotExact(a, b);
    assert LeadingDivisorAt(a, b) == b;
  }

  /** With a divisor of one limb and one place below the leading one, the only trial digit is exact. */
  lemma OneLimbDivisor(a: nat, b: nat)
    requires 0 < b <= a && DivisorLimbs(b) == 1 && TopPlace(a, b) == 1
    ensures ShippedQuot(a, b) == a / b
  {
    var k, rem := ShiftCount(b), ShippedRem(a, b);
    var x, y := Scaled(rem, k), Scaled(b, k);
    OneLimb(b);
    assert BP(1) == BASE && BP(0) == 1;
    OneDigit(a, b, rem, Pow2(k), x, y);
    ShippedQuotExact(a, b);
  }

  lemma OneLimb(b: nat)
    requires b > 0 && DivisorLimbs(b) == 1
    ensures 0 < Scaled(b, ShiftCount(b)) < BASE
  {
    var bits, k := BitLenOf(b), ShiftCount(b);
    ShiftedBits(b, bits, k);
    Pow2Mono(bits + k, 32);
    Pow2Values();
    StrictProduct(0, b, Pow2(k));
  }

  lemma OneDigit(a: nat, b: nat, rem: nat, k: nat, x: nat, y: nat)
    requires 0 < b && 0 < k && b * BASE > 0 && rem == a % (b * BASE) && x == rem * k && y == b * k && 0 < y < BASE
    ensures TwoByOne(LimbOf(x, 1), LimbOf(x, 0), LimbOf(y, 0)) == LimbOf(Quotient(a, b), 0)
  {
    var q, r := rem / b, rem % b;
    DigitOfQuotient(a, b, a / (b * BASE), rem, q, r);
    ScaledParts(rem, b, k, q, r);
    assert BP(1) == BASE && BP(0) == 1;
    DivModUnique(x, y, q, r * k);
    NoWrap(y);
    HighLimbBelow(x, y, q);
  }

  lemma DigitOfQuotient(a: nat, b: nat, c: int, rem: nat, q: int, r: int)
    requires 0 < b && a == c * (b * BASE) + rem && rem < b * BASE && rem == q * b + r && 0 <= r < b
    ensures a / b % BASE == q && 0 <= q < BASE
  {
    if q < 0 {
      MulMono(q, -1, b);
    } else if q >= BASE {
      MulMono(BASE, q, b);
    }
    assert (c * BASE + q) * b == c * (b * BASE) + q * b;
    DivModUnique(a, b, c * BASE + q, r);
    DivModUnique(a / b, BASE, c, q);
  }

  lemma ScaledParts(rem: nat, b: nat, k: nat, q: int, r: int)
    requires 0 < k && rem == q * b + r && 0 <= r < b
    ensures rem * k == q * (b * k) + r * k && 0 <= r * k < b * k
  {
    assert (q * b + r) * k == q * (b * k) + r * k;
    StrictProduct(r, b, k);
    MulMono(0, r, k);
  }

  lemma HighLimbBelow(x: nat, y: nat, q: int)
    requires 0 < y < BASE && x / y == q < BASE
    ensures x / BASE < y && x / BASE % BASE == x / BASE && x / BASE * BASE + x % BASE == x
  {
    var h := x / BASE;
    assert x < (q + 1) * y by {
      assert x == q * y + x % y && (q + 1) * y == q * y + y;
    }
    MulMono(q + 1, BASE, y);
    assert 0 <= h < y;
    NoWrap(h);
  }

  // ----- An input that fails -----

  /** 2^64 + 2^32 divided by 1: the lowest trial digit sees a leading limb that was never reduced and becomes
      all ones. */
  lemma ShippedQuotFails()
    ensures ShippedQuot(BASE * BASE + BASE, 1) == BASE * BASE + 2 * BASE - 1 != (BASE * BASE + BASE) / 1
  {
    WitnessQuot(BASE * BASE + BASE, 1, 2, 30);
  }

  lemma WitnessQuot(a: nat, b: nat, w: nat, k: nat)
    requires a == BASE * BASE + BASE && b == 1 && w == 2 && k == 30
    ensures ShippedQuot(a, b) == BASE * BASE + 2 * BASE - 1
  {
    WitnessSizes(a);
    var x, y := Scaled(BASE, k), Scaled(b, k);
    assert BP(w) == BASE * BASE by { assert BP(0) == 1 && BP(1) == BASE; }
    assert LeadingDivisorAt(a, b) == BASE * BASE;
    DivModUnique(a, BASE * BASE, 1, BASE);
    WitnessDigits(x, y, w);
    assert ShippedRem(a, b) == BASE;
  }

  lemma WitnessSizes(a: nat)
    requires a == BASE * BASE + BASE
    ensures ShiftCount(1) == 30 && DivisorLimbs(1) == 1 && TopPlace(a, 1) == 2 && Pow2(30) == 0x4000_0000
  {
    Pow2Values();
    Pow2Add(32, 32);
    Pow2Add(16, 14);
    Pow2Add(8, 6);
    assert Pow2(6) == 64;
    assert IsBitLen(1, 1) && IsBitLen(a, 65);
    BitLenUnique(1, BitLenOf(1), 1);
    BitLenUnique(a, BitLenOf(a), 65);
  }

  lemma WitnessDigits(x: nat, y: nat, w: nat)
    requires x == 0x4000_0000 * BASE && y == 0x4000_0000 && w == 2
    ensures TrialSum(x, y, 0, w) == 2 * BASE - 1
  {
    var one: nat := 1;
    assert BP(0) == 1 && BP(1) == BASE && BP(2) == BASE * BASE;
    assert LimbOf(x, 0) == 0 && LimbOf(x, 1) == 0x4000_0000 && LimbOf(y, 0) == 0x4000_0000;
    DivModUnique(x, BASE * BASE, 0, x);
    assert LimbOf(x, 2) == 0;
    assert TrialAt(x, y, 0, 0) == BASE - 1 && TrialAt(x, y, 0, one) == 1;
    assert TrialSum(x, y, 0, one) == BASE - 1;
  }

  /** The signed result: with Q apart from the operands the shipped quotient is the truncated one exactly when
      its magnitude is. */
  lemma ShippedSign(a: int, b: int)
    requires b != 0
    ensures StoredQuot(a, b, false, false, false) == TruncDiv(a, b)
            <==> ShippedQuot(Abs(a), Abs(b)) == Quotient(Abs(a), Abs(b))
  {
    if Abs(a) < Abs(b) {
      SmallDividend(a, b);
    }
  }
}
