/** Reduction modulo a multi-precision integer and modulo a machine word. */
module Modulo {
  import opened Arith
  import opened Limbs
  import opened Mpis
  import opened AddSub
  import opened Division
  import Shift

  /** The division left a number with a minus: a negative remainder, or a zero dividend that carries one. */
  ghost predicate LeftNegative(a: int, b: int, product: bool, minus: bool)
    requires b != 0
  {
    StoredRem(a, b, false, false, product) < 0 || (a == 0 && minus)
  }

  /** mbedtls_mpi_mod_mpi. Whatever the division left, the two closing loops bring it into [0, B). */
  method ModMpi(R: Mpi, A: Mpi, B: Mpi, product: bool) returns (ret: Status)
    requires R != B && A.Signed() && B.Signed()
    modifies R
    ensures ret == if B.Value() < 0 then NegativeValue else if B.Value() == 0 then DivisionByZero else Ok
    ensures ret.Ok? ==> R.Signed() && R.Value() == old(A.Value()) % B.Value()
    ensures ret.Ok? ==> R.s == if Val(R.p) == 0 && LeftNegative(old(A.Value()), B.Value(), product,
      old(A.s) == -1 && (old(|A.p|) > 0 || R == A)) then -1 else 1
    ensures ret.Ok? && old(|A.p|) > 0 ==> |R.p| >= |old(R.p)|
    ensures !ret.Ok? ==> R.p == old(R.p) && R.s == old(R.s)
  {
    var neg := CmpInt(B, 0);
    if neg < 0 {
      return NegativeValue;
    }
    ghost var a, b := A.Value(), B.Value();
    ret := DivMpi(null, R, A, B, product);
    if ret != Ok {
      return;
    }
    SmallRemainder(a, b, product);
    BringIntoRange(R, B, a);
  }

  lemma SmallRemainder(a: int, b: int, product: bool)
    requires b != 0
    ensures Abs(a) < Abs(b) ==> StoredRem(a, b, false, false, product) == a
  {
  }

  /** The two closing loops. */
  method BringIntoRange(R: Mpi, B: Mpi, ghost a: int)
    requires R != B && R.Signed() && B.Signed() && B.Value() > 0 && Cong(a, R.Value(), B.Value())
    modifies R
    ensures R.Value() == a % B.Value() && R.s == (if Val(R.p) == 0 then old(R.s) else 1) && |R.p| >= |old(R.p)|
  {
    LiftToPositive(R, B, a);
    ReduceBelow(R, B, a);
    CongMod(R.Value(), a, B.Value());
  }

  /** Adds B while R is negative. */
  method LiftToPositive(R: Mpi, B: Mpi, ghost a: int)
    requires R != B && R.Signed() && B.Signed() && B.Value() > 0 && Cong(a, R.Value(), B.Value())
    modifies R
    ensures R.Signed() && R.Value() >= 0 && Cong(a, R.Value(), B.Value()) && |R.p| >= |old(R.p)|
    ensures Val(R.p) == 0 || old(R.Value()) >= 0 ==> R.s == old(R.s)
    ensures old(R.Value()) < 0 ==> R.Value() < B.Value()
  {
    var cmp := CmpInt(R, 0);
    while cmp < 0
      invariant R.Signed() && |R.p| >= |old(R.p)| && cmp == Cmp(R.Value(), 0) && Cong(a, R.Value(), B.Value())
      invariant Val(R.p) == 0 || old(R.Value()) >= 0 ==> R.s == old(R.s)
      invariant old(R.Value()) < 0 ==> R.Value() < B.Value()
      decreases -R.Value()
    {
      AddedMultiple(a, R.Value(), B.Value());
      var ret := AddMpi(R, R, B);
      cmp := CmpInt(R, 0);
    }
  }

  /** Subtracts B while R is not below it. */
  method ReduceBelow(R: Mpi, B: Mpi, ghost a: int)
    requires R != B && R.Signed() && B.Signed() && B.Value() > 0 && R.Value() >= 0 && Cong(a, R.Value(), B.Value())
    modifies R
    ensures R.Signed() && 0 <= R.Value() < B.Value() && Cong(R.Value(), a, B.Value()) && |R.p| >= |old(R.p)|
    ensures R.s == old(R.s) && (old(R.Value()) < B.Value() ==> R.Value() == old(R.Value()))
  {
    var cmp := CmpMpi(R, B);
    while cmp >= 0
      invariant R.Signed() && R.Value() >= 0 && |R.p| >= |old(R.p)| && R.s == old(R.s)
      invariant old(R.Value()) < B.Value() ==> R.Value() == old(R.Value())
      invariant cmp == Cmp(R.Value(), B.Value()) && Cong(a, R.Value(), B.Value())
      decreases R.Value()
    {
      AddedMultiple(a, R.Value(), B.Value());
      var ret := SubMpi(R, R, B);
      cmp := CmpMpi(R, B);
    }
    CongSym(a, R.Value(), B.Value());
  }

  lemma AddedMultiple(a: int, r: int, b: int)
    requires b > 0 && Cong(a, r, b)
    ensures Cong(a, r + b, b) && Cong(a, r - b, b)
  {
    var k := CongElim(a, r, b);
    assert a - (r + b) == (k - 1) * b && a - (r - b) == (k + 1) * b;
    CongIntro(a, r + b, b, k - 1);
    CongIntro(a, r - b, b, k + 1);
  }

  // ----- Modulo a word -----

  /** One half-limb step of the remainder, in wrapping limb arithmetic. */
  function HalfStep(y: Limb, h: Limb, b: int): (r: Limb)
    requires 0 < b < BASE
  {
    Or(Shl(y, BI_H), h) % b
  }

  /** Two half steps consume a limb. */
  function LimbStep(y: Limb, x: Limb, b: int): Limb
    requires 0 < b < BASE
  {
    HalfStep(HalfStep(y, Shr(x, BI_H), b), Shr(Shl(x, BI_H), BI_H), b)
  }

  /** The remainder computed by the loop, from the top limb down. */
  ghost function ModFold(p: seq<Limb>, b: int): Limb
    requires 0 < b < BASE
  {
    if |p| == 0 then 0 else LimbStep(ModFold(p[1..], b), p[0], b)
  }

  lemma HalfParts(y: Limb, h: Limb, b: int)
    requires 0 < b < BASE && h < HALF
    ensures Shl(y, BI_H) == y % HALF * HALF && Or(Shl(y, BI_H), h) == y % HALF * HALF + h
    ensures HalfStep(y, h, b) == (y % HALF * HALF + h) % b < b
  {
    Pow2Values();
    DivModUnique(y * HALF, BASE, y / HALF, y % HALF * HALF);
    OrDisjoint(y % HALF, h, 16);
  }

  /** For a divisor of at most half a limb no shift of the remainder overflows. */
  lemma HalfShiftFits(y: Limb, h: Limb, b: int)
    requires 0 < b <= HALF && y < b && h < HALF
    ensures y * HALF + h < BASE && Shl(y, BI_H) == y * HALF && Or(Shl(y, BI_H), h) == y * HALF + h
  {
    Pow2Values();
    NoWrap(y * HALF);
    OrDisjoint(y, h, 16);
  }

  /** A half step is exact when the bits shifted out are a multiple of b. */
  lemma HalfStepExact(v: nat, y: Limb, h: Limb, b: int)
    requires 0 < b < BASE && h < HALF && y == v % b && y / HALF * BASE % b == 0
    ensures HalfStep(y, h, b) == (v * HALF + h) % b
  {
    HalfParts(y, h, b);
    LostBits(y, h, b);
    ShiftedRemainder(v, y, h, b);
    var kept := y % HALF * HALF + h;
    CongTrans(kept, y * HALF + h, v * HALF + h, b);
    CongMod(kept, v * HALF + h, b);
  }

  lemma LostBits(y: Limb, h: Limb, b: int)
    requires 0 < b && y / HALF * BASE % b == 0
    ensures Cong(y % HALF * HALF + h, y * HALF + h, b)
  {
    var kept, lost := y % HALF * HALF + h, y / HALF * BASE;
    assert kept - (y * HALF + h) == -lost;
    DivExact(lost, b);
    assert -lost == -(lost / b) * b;
    CongIntro(kept, y * HALF + h, b, -(lost / b));
  }

  lemma ShiftedRemainder(v: nat, y: Limb, h: Limb, b: int)
    requires 0 < b && y == v % b
    ensures Cong(y * HALF + h, v * HALF + h, b)
  {
    ModCong(v, b);
    CongRefl(HALF, b);
    CongMul(y, v, HALF, HALF, b);
    CongRefl(h, b);
    CongAdd(y * HALF, v * HALF, h, h, b);
  }

  lemma LimbHalvesOf(x: Limb)
    ensures Shr(x, BI_H) == x / HALF < HALF && Shr(Shl(x, BI_H), BI_H) == x % HALF
  {
    Pow2Values();
  }

  // ----- The loop in terms of the number -----

  /** Half-limb reduction of the n low half limbs of v, from the top: each step drops what exceeds a half limb of
      the remainder so far. */
  ghost function HalfFold(v: nat, n: nat, b: int): (r: int)
    requires 0 < b
    ensures 0 <= r < b
  {
    if n == 0 then 0 else FoldStep(HalfFold(v / HALF, n - 1, b), v % HALF, b)
  }

  /** What exceeds a half limb of y is dropped, h is appended, and the multiples of b are taken off. */
  function FoldStep(y: int, h: int, b: int): (r: int)
    requires 0 < b
    ensures 0 <= r < b
  {
    (y % HALF * HALF + h) % b
  }

  /** The loop over limbs is that reduction of the number they denote. */
  lemma {:induction false} ModFoldHalves(p: seq<Limb>, b: int)
    requires 0 < b < BASE
    ensures ModFold(p, b) == HalfFold(Val(p), 2 * |p|, b)
  {
    if |p| != 0 {
      ModFoldHalves(p[1..], b);
      LimbStepHalves(ModFold(p[1..], b), p[0], b);
      FoldTwice(Val(p), p[0], Val(p[1..]), 2 * |p| - 2, b);
    }
  }

  lemma LimbStepHalves(y: Limb, x: Limb, b: int)
    requires 0 < b < BASE
    ensures LimbStep(y, x, b) == FoldStep(FoldStep(y, x / HALF, b), x % HALF, b)
  {
    LimbHalvesOf(x);
    HalfStepFold(y, Shr(x, BI_H), b);
    HalfStepFold(HalfStep(y, Shr(x, BI_H), b), Shr(Shl(x, BI_H), BI_H), b);
  }

  lemma HalfStepFold(y: Limb, h: Limb, b: int)
    requires 0 < b < BASE && h < HALF
    ensures HalfStep(y, h, b) == FoldStep(y, h, b)
  {
    HalfParts(y, h, b);
  }

  lemma FoldTwice(v: nat, x: Limb, rest: nat, n: nat, b: int)
    requires 0 < b && v == x + BASE * rest
    ensures HalfFold(v, n + 2, b) == FoldStep(FoldStep(HalfFold(rest, n, b), x / HALF, b), x % HALF, b)
  {
    HalvesOfValue(v, x, rest);
    var u: nat := v / HALF;
    assert HalfFold(u, n + 1, b) == FoldStep(HalfFold(rest, n, b), x / HALF, b);
  }

  lemma HalvesOfValue(v: nat, x: Limb, rest: nat)
    requires v == x + BASE * rest
    ensures v % HALF == x % HALF && v / HALF % HALF == x / HALF && v / HALF / HALF == rest && v / HALF >= 0
  {
    DivModUnique(v, HALF, x / HALF + HALF * rest, x % HALF);
    DivModUnique(x / HALF + HALF * rest, HALF, rest, x / HALF);
  }

  /** The true remainder of v without its k low half limbs: what the loop should hold before shifting. */
  ghost function Running(v: nat, b: int, k: nat): int
    requires 0 < b
  {
    v / Pow2(16 * k) % b
  }

  /** No shift of a running remainder loses bits other than multiples of b. */
  ghost predicate NothingLost(v: nat, b: int)
    requires 0 < b
  {
    forall k: nat :: k >= 1 ==> Running(v, b, k) / HALF * BASE % b == 0
  }

  lemma {:induction false} HalfFoldExact(v: nat, n: nat, b: int)
    requires 0 < b < BASE && v < Pow2(16 * n) && NothingLost(v, b)
    ensures HalfFold(v, n, b) == v % b
  {
    if n == 0 {
      DivModUnique(0, b, 0, 0);
    } else {
      var u := v / HALF;
      DivBound(v, HALF);
      Pow2Add(16, 16 * (n - 1));
      Pow2Values();
      forall k: nat
        ensures Running(u, b, k) == Running(v, b, k + 1)
      {
        RunningShift(v, b, k);
      }
      HalfFoldExact(u, n - 1, b);
      assert Running(v, b, 1) == u % b;
      HalfStepExact(u, u % b, v % HALF, b);
      HalfParts(u % b, v % HALF, b);
    }
  }

  lemma RunningShift(v: nat, b: int, k: nat)
    requires 0 < b
    ensures v / HALF >= 0 && Running(v / HALF, b, k) == Running(v, b, k + 1)
  {
    Pow2Add(16, 16 * k);
    Pow2Values();
    Shift.NestedDivision(v, v % HALF, v / HALF, HALF, Pow2(16 * k));
  }

  /** The remainder is right for every number of which no running remainder reaches half a limb. */
  lemma SmallRemainders(v: nat, b: int)
    requires 0 < b && forall k: nat :: k >= 1 ==> Running(v, b, k) < HALF
    ensures NothingLost(v, b)
  {
    forall k: nat | k >= 1
      ensures Running(v, b, k) / HALF * BASE % b == 0
    {
      assert 0 <= Running(v, b, k) < HALF;
      DivModUnique(0, b, 0, 0);
    }
  }

  /** Every number below 2^32 is such a number. */
  lemma OneLimbKept(v: nat, b: int)
    requires 0 < b && v < BASE
    ensures NothingLost(v, b)
  {
    forall k: nat | k >= 1
      ensures Running(v, b, k) < HALF
    {
      Pow2Mono(16, 16 * k);
      Pow2Values();
      QuotientBelow(v, Pow2(16 * k), b);
    }
    SmallRemainders(v, b);
  }

  lemma QuotientBelow(v: nat, w: nat, b: int)
    requires v < BASE && w >= HALF && 0 < b
    ensures v / w % b < HALF
  {
    var q := v / w;
    DivBound(v, w);
    if q >= HALF {
      MulMono(HALF, q, w);
    }
    DivBound(q, b);
    assert q % b <= q;
  }

  /** For a divisor of at most half a limb, or one that divides the base, so is every number. */
  lemma DivisorKept(v: nat, b: int)
    requires 0 < b < BASE && (b <= HALF || BASE % b == 0)
    ensures NothingLost(v, b)
  {
    forall k: nat | k >= 1
      ensures Running(v, b, k) / HALF * BASE % b == 0
    {
      LostMultiple(Running(v, b, k), b);
    }
  }

  lemma LostMultiple(y: int, b: int)
    requires 0 < b < BASE && 0 <= y < b && (b <= HALF || BASE % b == 0)
    ensures y / HALF * BASE % b == 0
  {
    var l := y / HALF;
    if b <= HALF {
      DivModUnique(0, b, 0, 0);
    } else {
      DivExact(BASE, b);
      assert l * (BASE / b * b) == l * (BASE / b) * b;
      ModMultiple(l * (BASE / b), b);
    }
  }

  lemma ModFoldExact(p: seq<Limb>, b: int)
    requires 0 < b < BASE && NothingLost(Val(p), b)
    ensures ModFold(p, b) == Val(p) % b
  {
    ModFoldHalves(p, b);
    ValBound(p);
    BPPow2(|p|);
    HalfFoldExact(Val(p), 2 * |p|, b);
  }

  /** The value 2^32: the loop returns 0 for it whenever b exceeds half a limb. */
  lemma OverflowWitness(b: int)
    requires HALF < b < BASE
    ensures Val([0, 1]) == BASE && ModFold([0, 1], b) == 0
  {
    assert [0, 1][1..] == [1] && [1][1..] == [];
    FirstOverflowLimb(b);
    LimbHalvesOf(0);
    HalfParts(1, 0, b);
    HalfParts(HALF, 0, b);
    DivModUnique(HALF, b, 0, HALF);
    DivModUnique(0, b, 0, 0);
  }

  lemma FirstOverflowLimb(b: int)
    requires HALF < b < BASE
    ensures ModFold([1], b) == 1
  {
    assert [1][1..] == [];
    LimbHalvesOf(1);
    HalfParts(0, 0, b);
    HalfParts(0, 1, b);
    DivModUnique(0, b, 0, 0);
    DivModUnique(1, b, 0, 1);
  }

  /** The loop computes the remainder of every integer exactly for these divisors. */
  lemma ModFoldCondition(b: int)
    requires 0 < b < BASE
    ensures (forall p: seq<Limb> :: ModFold(p, b) == Val(p) % b) <==> b <= HALF || BASE % b == 0
  {
    if b <= HALF || BASE % b == 0 {
      forall p: seq<Limb>
        ensures ModFold(p, b) == Val(p) % b
      {
        DivisorKept(Val(p), b);
        ModFoldExact(p, b);
      }
    } else {
      OverflowWitness(b);
      assert ModFold([0, 1], b) != Val([0, 1]) % b;
    }
  }

  /** mbedtls_mpi_mod_int */
  method ModInt(A: Mpi, b: int) returns (ret: Status, r: Limb)
    requires A.Signed() && -0x8000_0000 <= b < 0x8000_0000 && (b == 2 ==> |A.p| > 0)
    ensures ret == if b == 0 then DivisionByZero else if b < 0 then NegativeValue else Ok
    ensures ret.Ok? && NothingLost(Val(A.p), b) ==> r == A.Value() % b
    ensures ret.Ok? && (b <= HALF || BASE % b == 0 || Val(A.p) < BASE) ==> r == A.Value() % b
    ensures ret.Ok? && b > 2 ==> var y := HalfFold(Val(A.p), 2 * |A.p|, b); r == if A.s < 0 && y != 0 then b - y else y
  {
    if b == 0 {
      return DivisionByZero, 0;
    }
    if b < 0 {
      return NegativeValue, 0;
    }
    if b == 1 {
      return Ok, 0;
    }
    if b == 2 {
      return Ok, A.p[0] % 2;
    }
    r := GeneralModInt(A, b);
    return Ok, r;
  }

  /** The general case: the loop, and the correction for a negative number. */
  method GeneralModInt(A: Mpi, b: int) returns (y: Limb)
    requires A.Signed() && 2 < b < BASE
    ensures NothingLost(Val(A.p), b) ==> y == A.Value() % b
    ensures b <= HALF || BASE % b == 0 || Val(A.p) < BASE ==> y == A.Value() % b
    ensures var f := HalfFold(Val(A.p), 2 * |A.p|, b); y == if A.s < 0 && f != 0 then b - f else f
  {
    y := RemainderLoop(A, b);
    ModFoldHalves(A.p, b);
    KeptNumbers(Val(A.p), b);
    if NothingLost(Val(A.p), b) {
      ModFoldExact(A.p, b);
      SignedRemainder(A.s, Val(A.p), b, y);
    }
    if A.s < 0 && y != 0 {
      y := b - y;
    }
  }

  lemma KeptNumbers(v: nat, b: int)
    requires 0 < b < BASE
    ensures b <= HALF || BASE % b == 0 || v < BASE ==> NothingLost(v, b)
  {
    if v < BASE {
      OneLimbKept(v, b);
    } else if b <= HALF || BASE % b == 0 {
      DivisorKept(v, b);
    }
  }

  method RemainderLoop(A: Mpi, b: int) returns (y: Limb)
    requires 2 < b < BASE
    ensures y == ModFold(A.p, b) < b
  {
    y := 0;
    var i := |A.p|;
    while i > 0
      invariant 0 <= i <= |A.p| && y == ModFold(A.p[i..], b) && y < b
    {
      i := i - 1;
      assert A.p[i..][1..] == A.p[i + 1..];
      var x := A.p[i];
      y := RemainderStep(y, Shr(x, BI_H), b);
      x := Shl(x, BI_H);
      y := RemainderStep(y, Shr(x, BI_H), b);
    }
    assert A.p[0..] == A.p;
  }

  /** Brings in a half limb and takes off the multiples of b. */
  method RemainderStep(y0: Limb, h: Limb, b: int) returns (y: Limb)
    requires 2 < b < BASE
    ensures y == HalfStep(y0, h, b) < b
  {
    var n: nat := Or(Shl(y0, BI_H), h);
    var z := n / b;
    RemainderBound(n, b);
    y := n - z * b;
  }

  lemma RemainderBound(n: nat, b: int)
    requires 0 < b < BASE
    ensures 0 <= n - n / b * b == n % b < b
  {
  }

  lemma SignedRemainder(s: int, v: nat, b: int, y: int)
    requires 0 < b && y == v % b
    ensures (if s < 0 && y != 0 then b - y else y) == (if s < 0 then -(v as int) else v) % b
  {
    NegatedRemainder(v, b);
  }

  lemma NegatedRemainder(v: int, b: int)
    requires 0 < b && 0 <= v
    ensures -v % b == if v % b != 0 then b - v % b else 0
  {
    var q := v / b;
    if v % b != 0 {
      assert -v == (-q - 1) * b + (b - v % b);
      DivModUnique(-v, b, -q - 1, b - v % b);
    } else {
      assert -v == (-q) * b;
      DivModUnique(-v, b, -q, 0);
    }
  }

  // ----- What the disabled product costs -----

  /** As shipped, division by one leaves a nonzero remainder. */
  lemma ShippedRemainderFails()
    ensures ShippedRem(BASE + 1, 1) == 1 != (BASE + 1) % 1
  {
    Pow2Values();
    Shift.BitLenUnique(BASE + 1, BitLenOf(BASE + 1), 33);
    Shift.BitLenUnique(1, BitLenOf(1), 1);
    assert TopPlace(BASE + 1, 1) == 1;
    assert BP(1) == BASE;
  }
}
