/** Division of two limbs by one: the double-width form in use, and the half-limb form of
    Knuth's Algorithm D that follows it in the source and is never reached. */
module WordDivision {
  import opened Arith
  import opened Limbs
  import opened Mpis
  import opened Shift

  /** mbedtls_int_div_int up to its return. */
  method IntDivInt(u1: Limb, u0: Limb, d: Limb) returns (q: Limb, r: Limb)
    ensures d == 0 || u1 >= d ==> q == r == BASE - 1
    ensures d != 0 && u1 < d ==> q * d + r == u1 * BASE + u0 && r < d
  {
    if 0 == d || u1 >= d {
      return BASE - 1, BASE - 1;
    }
    Pow2Values();
    OrDisjoint(u1, u0, BI_L);
    var dividend := Or(u1 * BASE, u0);
    var quotient := dividend / d;
    QuotBound(dividend, d, BASE) by {
      MulMono(u1 + 1, d, BASE);
    }
    if quotient > BASE - 1 {
      quotient := BASE - 1;
    }
    return quotient, dividend - quotient * d;
  }

  // ----- The half-limb form -----

  /** (q, r) is the quotient and remainder of u by d. */
  ghost predicate IsDivision(u: int, d: int, q: int, r: int) {
    u == q * d + r && 0 <= r < d
  }

  lemma DivisionUnique(u: int, d: int, q: int, r: int, q': int, r': int)
    requires IsDivision(u, d, q, r) && IsDivision(u, d, q', r')
    ensures q == q' && r == r'
  {
    DivModUnique(u, d, q, r);
    DivModUnique(u, d, q', r');
  }

  /** An estimate with q*d0 > HALF*r + lsw is too large; one with q*d0 <= HALF*r + lsw is not. */
  lemma EstimateTest(u: int, lsw: int, d1: int, d0: int, q: int, r: int)
    requires u == q * d1 + r
    ensures q * d0 > HALF * r + lsw <==> q * (HALF * d1 + d0) > HALF * u + lsw
  {
    assert q * (HALF * d1 + d0) == HALF * (q * d1) + q * d0;
  }

  lemma TrialBelow(u: int, d1: int, d0: int, q: int, r: int)
    requires HALF / 2 <= d1 < HALF && 0 <= d0 < HALF
    requires 0 <= u < HALF * d1 + d0 && u == q * d1 + r && 0 <= r < d1
    ensures 0 <= q <= HALF + 1
  {
    if q >= HALF + 2 {
      MulMono(HALF + 2, q, d1);
    } else if q < 0 {
      MulMono(q, -1, d1);
    }
  }

  lemma TrueDigit(n: int, d: int, t: int, tr: int)
    requires IsDivision(n, d, t, tr) && 0 <= n < HALF * d
    ensures 0 <= t < HALF
  {
    if t >= HALF {
      MulMono(HALF, t, d);
    } else if t < 0 {
      MulMono(t, -1, d);
    }
  }

  lemma TrialAbove(u: int, lsw: int, d1: int, d0: int, q: int, r: int, t: int, tr: int)
    requires 0 < d1 && 0 <= d0 && 0 <= lsw < HALF && u == q * d1 + r && 0 <= r < d1 && 0 <= q
    requires IsDivision(HALF * u + lsw, HALF * d1 + d0, t, tr)
    ensures t <= q
  {
    assert (q + 1) * (HALF * d1 + d0) == HALF * (q * d1) + HALF * d1 + (q + 1) * d0;
    MulMono(0, q + 1, d0);
    if t >= q + 1 {
      MulMono(q + 1, t, HALF * d1 + d0);
    }
  }

  lemma TrialClose(u: int, lsw: int, d1: int, d0: int, q: int, r: int, t: int, tr: int)
    requires HALF / 2 <= d1 && 0 <= d0 < HALF && 0 <= lsw && u == q * d1 + r && 0 <= r && q <= HALF + 1
    requires IsDivision(HALF * u + lsw, HALF * d1 + d0, t, tr)
    ensures q <= t + 2
  {
    var d := HALF * d1 + d0;
    if q >= t + 3 {
      MulMono(t + 1, q - 2, d);
      assert (t + 1) * d == t * d + d;
      assert (q - 2) * d == HALF * (q * d1) + q * d0 - 2 * d;
      MulMono(q, HALF + 1, d0);
    }
  }

  /** A trial quotient from the leading half limb of a normalised divisor is at most HALF + 1,
      not below the true one and at most two above it. */
  lemma TrialQuotient(u: int, lsw: int, d1: int, d0: int, q: int, r: int, t: int, tr: int)
    requires HALF / 2 <= d1 < HALF && 0 <= d0 < HALF && 0 <= lsw < HALF
    requires 0 <= u < HALF * d1 + d0 && u == q * d1 + r && 0 <= r < d1
    requires IsDivision(HALF * u + lsw, HALF * d1 + d0, t, tr)
    ensures 0 <= t <= q <= t + 2 && t < HALF && q <= HALF + 1
  {
    TrialBelow(u, d1, d0, q, r);
    TrueDigit(HALF * u + lsw, HALF * d1 + d0, t, tr);
    TrialAbove(u, lsw, d1, d0, q, r, t, tr);
    TrialClose(u, lsw, d1, d0, q, r, t, tr);
  }

  /** The loop guard, in wrapping limb arithmetic. */
  predicate TooBig(q: nat, d0: nat, r0: nat, lsw: nat) {
    q >= HALF || Wrap(q * d0) > Wrap(HALF * r0 + lsw)
  }

  lemma GuardFits(q: nat, d0: nat, r0: nat, lsw: nat)
    requires d0 < HALF && r0 < HALF && lsw < HALF
    ensures TooBig(q, d0, r0, lsw) <==> q >= HALF || q * d0 > HALF * r0 + lsw
  {
    if q < HALF {
      MulMono(q, HALF - 1, d0);
      MulMono(0, q, d0);
    }
  }

  /** The loop guard holds exactly when the estimate exceeds the true digit, given that it is not below it. */
  lemma GuardExact(u: int, lsw: nat, d1: nat, d0: nat, q: nat, r: nat, t: int, tr: int)
    requires 0 <= u < HALF * d1 + d0 && lsw < HALF && d0 < HALF && r < HALF && u == q * d1 + r && t <= q && t < HALF
    requires IsDivision(HALF * u + lsw, HALF * d1 + d0, t, tr)
    ensures TooBig(q, d0, r, lsw) <==> q > t
  {
    GuardFits(q, d0, r, lsw);
    var d := HALF * d1 + d0;
    EstimateTest(u, lsw, d1, d0, q, r);
    if q > t {
      MulMono(t + 1, q, d);
      assert (t + 1) * d == t * d + d;
    }
  }

  /** Once the running remainder reaches HALF the estimate can no longer be too large. */
  lemma BreakExact(u: int, lsw: int, d1: int, d0: int, q: int, r: int, t: int, tr: int)
    requires 0 <= u < HALF * d1 + d0 && 0 <= lsw < HALF && u == q * d1 + r && t <= q <= HALF && t < HALF
    requires 0 <= d0 < HALF && r >= HALF
    requires IsDivision(HALF * u + lsw, HALF * d1 + d0, t, tr)
    ensures q == t
  {
    MulMono(q, HALF, d0);
    EstimateTest(u, lsw, d1, d0, q, r);
    assert (t + 1) * (HALF * d1 + d0) == t * (HALF * d1 + d0) + (HALF * d1 + d0);
    if q > t {
      MulMono(t + 1, q, HALF * d1 + d0);
    }
  }

  lemma Division(n: nat, d: nat)
    requires d > 0
    ensures IsDivision(n, d, n / d, n % d)
  {
  }

  /** One half-limb quotient digit: a trial division and its correcting loop. */
  method HalfDigit(u: Limb, lsw: nat, d1: nat, d0: nat) returns (q: nat, ghost corrections: nat)
    requires HALF / 2 <= d1 < HALF && d0 < HALF && lsw < HALF && u < HALF * d1 + d0
    ensures q < HALF && corrections <= 2
    ensures q == (HALF * u + lsw) / (HALF * d1 + d0)
  {
    ghost var n, d := HALF * u + lsw, HALF * d1 + d0;
    Division(n, d);
    Division(u, d1);
    DivBound(u, d1);
    q := u / d1;
    var r0 := u - d1 * q;
    TrialQuotient(u, lsw, d1, d0, q, r0, n / d, n % d);
    q, corrections := CorrectDigit(u, lsw, d1, d0, q, r0, n / d, n % d);
  }

  lemma StepDown(u: int, d1: int, q: int, r: int)
    requires u == q * d1 + r
    ensures u == (q - 1) * d1 + (r + d1)
  {
  }

  /** The correcting loop: it stops at the true digit t after at most two decrements. */
  method CorrectDigit(u: Limb, lsw: nat, d1: nat, d0: nat, q0: nat, r: nat, ghost t: int, ghost tr: int)
    returns (q: nat, ghost corrections: nat)
    requires HALF / 2 <= d1 < HALF && d0 < HALF && lsw < HALF && u < HALF * d1 + d0
    requires u == q0 * d1 + r && IsDivision(HALF * u + lsw, HALF * d1 + d0, t, tr)
    requires 0 <= t <= q0 <= t + 2 && t < HALF && q0 <= HALF + 1 && r < HALF
    ensures q == t && corrections <= 2
  {
    q := q0;
    var r0: nat := r;
    corrections := 0;
    GuardExact(u, lsw, d1, d0, q, r0, t, tr);
    while TooBig(q, d0, r0, lsw)
      invariant t <= q && q + corrections == q0 && u == q * d1 + r0 && r0 < HALF
      invariant TooBig(q, d0, r0, lsw) <==> q > t
      decreases q
    {
      StepDown(u, d1, q, r0);
      q := q - 1;
      r0 := r0 + d1;
      corrections := corrections + 1;
      if r0 >= HALF {
        BreakExact(u, lsw, d1, d0, q, r0, t, tr);
        break;
      }
      GuardExact(u, lsw, d1, d0, q, r0, t, tr);
    }
  }

  /** Normalising the dividend: its top limb stays below the normalised divisor. */
  lemma NormalisedDividend(u1: Limb, u0: Limb, d: Limb, s: nat)
    requires 0 < s < 32 && u1 < d && d * Pow2(s) < BASE
    ensures Shl(d, s) == d * Pow2(s)
    ensures Or(Shl(u1, s), Shr(u0, 32 - s)) < Shl(d, s)
    ensures BASE * Or(Shl(u1, s), Shr(u0, 32 - s)) + Shl(u0, s) == (u1 * BASE + u0) * Pow2(s)
  {
    LimbShl(u0, 0, s);
    OrZero(Shl(u0, s));
    LimbShl(u1, Shr(u0, 32 - s), s);
    ScaledDividend(u1, u0, d, Pow2(s), Or(Shl(u1, s), Shr(u0, 32 - s)), Shl(u0, s), Shr(u1, 32 - s), Shr(u0, 32 - s));
    NoWrap(d * Pow2(s));
  }

  lemma ScaledDividend(u1: int, u0: int, d: int, k: int, n1: int, n0: int, out: int, mid: int)
    requires 0 <= u1 < d && d * k < BASE && 0 <= mid < k && 0 <= out && 0 <= n1
    requires n1 + out * BASE == u1 * k + mid && n0 + mid * BASE == u0 * k
    ensures n1 < d * k && BASE * n1 + n0 == (u1 * BASE + u0) * k
  {
    MulMono(u1 + 1, d, k);
    assert (u1 + 1) * k == u1 * k + k;
    assert (u1 * BASE + u0) * k == BASE * (u1 * k) + u0 * k;
  }

  lemma NormalisedDivisor(d: Limb, s: nat)
    requires d != 0 && s <= 32 && IsBitLen(d, 32 - s)
    ensures s < 32 && BASE / 2 <= d * Pow2(s) < BASE
  {
    if s < 32 {
      LimbHalves(s);
      LimbSplit(s);
      ScaledBounds(d, Pow2(s), Pow2(32 - s), Pow2(31 - s));
    }
  }

  lemma ScaledBounds(d: int, k: int, h: int, l: int)
    requires 0 < k && l <= d < h && k * h == BASE && 2 * l * k == BASE
    ensures BASE / 2 <= d * k < BASE
  {
    MulMono(d + 1, h, k);
    MulMono(l, d, k);
    assert (d + 1) * k == d * k + k;
  }

  /** Dividing the scaled dividend by the scaled divisor scales the remainder only. */
  lemma ScaledDivision(u: nat, d: nat, k: nat, q: int, r: int)
    requires d > 0 && k > 0 && IsDivision(u * k, d * k, q, r)
    ensures IsDivision(u, d, q, r / k)
  {
    var m := u - q * d;
    ScaledRemainder(u, d, k, q, r);
    ModMultiple(m, k);
    MulLess(m, d, k);
    if m < 0 {
      MulMono(m, -1, k);
    }
  }

  lemma ScaledRemainder(u: int, d: int, k: int, q: int, r: int)
    requires u * k == q * (d * k) + r
    ensures r == (u - q * d) * k
  {
    assert q * (d * k) == q * d * k;
  }

  /** Combining the two half digits gives the whole quotient. */
  lemma TwoDigits(u1: nat, msw: nat, lsw: nat, d: nat, q1: nat, rax: nat, q0: nat, r: int)
    requires IsDivision(HALF * u1 + msw, d, q1, rax) && IsDivision(HALF * rax + lsw, d, q0, r)
    ensures IsDivision(BASE * u1 + (HALF * msw + lsw), d, HALF * q1 + q0, r)
  {
    assert (HALF * q1 + q0) * d == HALF * (q1 * d) + q0 * d;
  }

  method FirstHalf(u1: Limb, msw: nat, d: Limb, d1: nat, d0: nat) returns (q1: nat, rAX: Limb)
    requires BASE / 2 <= d && u1 < d && msw < HALF && d1 == d / HALF && d0 == d % HALF
    ensures IsDivision(HALF * u1 + msw, d, q1, rAX) && q1 < HALF
  {
    ghost var c1;
    q1, c1 := HalfDigit(u1, msw, d1, d0);
    Division(HALF * u1 + msw, d);
    rAX := Wrap(Wrap(u1 * HALF) + Wrap(msw - q1 * d));
    WrapSum(u1 * HALF, msw - q1 * d, (HALF * u1 + msw) % d);
  }

  method SecondHalf(rAX: Limb, lsw: nat, d: Limb, d1: nat, d0: nat) returns (q0: nat, r: Limb)
    requires BASE / 2 <= d && rAX < d && lsw < HALF && d1 == d / HALF && d0 == d % HALF
    ensures IsDivision(HALF * rAX + lsw, d, q0, r) && q0 < HALF
  {
    ghost var c0;
    q0, c0 := HalfDigit(rAX, lsw, d1, d0);
    Division(HALF * rAX + lsw, d);
    r := Wrap(Wrap(rAX * HALF + lsw) - Wrap(q0 * d));
    WrapDifference(rAX * HALF + lsw, q0 * d, (HALF * rAX + lsw) % d);
  }

  /** The two half digits on a normalised divisor, all intermediate results wrapping at one limb. */
  method NormalisedHalves(u1: Limb, u0: Limb, d: Limb) returns (q: nat, r: Limb)
    requires BASE / 2 <= d && u1 < d
    ensures IsDivision(BASE * u1 + u0, d, q, r) && q < BASE
  {
    var d1, d0 := d / HALF, d % HALF;
    var msw, lsw := u0 / HALF, u0 % HALF;
    var q1, rAX := FirstHalf(u1, msw, d, d1, d0);
    var q0;
    q0, r := SecondHalf(rAX, lsw, d, d1, d0);
    q := q1 * HALF + q0;
    TwoDigits(u1, msw, lsw, d, q1, rAX, q0, r);
  }

  lemma WrapSum(x: int, y: int, z: int)
    requires x + y == z && 0 <= z < BASE
    ensures Wrap(Wrap(x) + Wrap(y)) == z
  {
  }

  lemma WrapDifference(x: int, y: int, z: int)
    requires x - y == z && 0 <= z < BASE
    ensures Wrap(Wrap(x) - Wrap(y)) == z
  {
  }

  /** The code after the return of mbedtls_int_div_int: the same quotient and remainder. */
  method HalfLimbDivide(u1: Limb, u0: Limb, d: Limb) returns (q: Limb, r: Limb)
    requires d != 0 && u1 < d
    ensures q * d + r == u1 * BASE + u0 && r < d
  {
    var s := Clz(d);
    NormalisedDivisor(d, s);
    NormalisedInputs(u1, u0, d, s);
    var nr;
    q, nr := NormalisedHalves(TopLimb(u1, u0, s), Shl(u0, s), Shl(d, s));
    ScaledDivision(u1 * BASE + u0, d, Pow2(s), q, nr);
    r := Shr(nr, s);
  }

  /** The shifted top limb with the top s bits of u0 brought in; the source masks them out when s is 0. */
  function TopLimb(u1: Limb, u0: Limb, s: nat): nat
    requires s < 32
  {
    if s > 0 then Or(Shl(u1, s), Shr(u0, BI_L - s)) else Shl(u1, s)
  }

  lemma NormalisedInputs(u1: Limb, u0: Limb, d: Limb, s: nat)
    requires s < 32 && u1 < d && d * Pow2(s) < BASE
    ensures Shl(d, s) == d * Pow2(s) && TopLimb(u1, u0, s) < Shl(d, s)
    ensures BASE * TopLimb(u1, u0, s) + Shl(u0, s) == (u1 * BASE + u0) * Pow2(s)
  {
    if s > 0 {
      NormalisedDividend(u1, u0, d, s);
    }
  }

  /** The contract of either form determines its results. */
  lemma FormsAgree(u1: Limb, u0: Limb, d: Limb, q: int, r: int, q': int, r': int)
    requires q * d + r == u1 * BASE + u0 && 0 <= r < d
    requires q' * d + r' == u1 * BASE + u0 && 0 <= r' < d
    ensures q == q' && r == r'
  {
    DivisionUnique(u1 * BASE + u0, d, q, r, q', r');
  }

  /** Both forms give the same results, for every dividend whose top limb is below the divisor. */
  method BothForms(u1: Limb, u0: Limb, d: Limb) returns (q: Limb, r: Limb, q': Limb, r': Limb)
    requires d != 0 && u1 < d
    ensures q == q' && r == r' && q * d + r == u1 * BASE + u0 && r < d
  {
    q, r := IntDivInt(u1, u0, d);
    q', r' := HalfLimbDivide(u1, u0, d);
    FormsAgree(u1, u0, d, q, r, q', r');
  }
}
