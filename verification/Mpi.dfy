/** The multi-precision integer object, its storage management, and the operations that only read it. */
module Mpis {
  import opened Arith
  import opened Limbs

  /** The sizes and error codes of mbedtls/bignum.h that the modelled functions return. */
  datatype Status =
    | Ok
    | BadInputData
    | InvalidCharacter
    | BufferTooSmall
    | NegativeValue
    | DivisionByZero

  /** A multi-precision integer: sign s and limb buffer p, least significant limb first.
      The limb count n is |p|, and a NULL buffer is the empty one. */
  class Mpi {
    var s: int
    var p: seq<Limb>

    /** mbedtls_mpi_init */
    constructor ()
      ensures s == 1 && p == []
    {
      s, p := 1, [];
    }

    /** A single-limb integer built on the stack, or an entry of the zeroed window table. */
    constructor Of(s: int, p: seq<Limb>)
      ensures this.s == s && this.p == p
    {
      this.s, this.p := s, p;
    }

    ghost predicate Signed()
      reads this
    {
      s == 1 || s == -1
    }

    ghost function Value(): int
      reads this
    {
      var v: int := Val(p);
      if s < 0 then -v else v
    }
  }

  // ----- Storage -----

  method Free(X: Mpi)
    modifies X
    ensures X.s == 1 && X.p == []
  {
    X.s, X.p := 1, [];
  }

  method Grow(X: Mpi, nblimbs: nat)
    modifies X`p
    ensures X.p == old(X.p) + Zeros(if |old(X.p)| < nblimbs then nblimbs - |old(X.p)| else 0)
    ensures Val(X.p) == old(Val(X.p))
  {
    if |X.p| < nblimbs {
      ValExtend(X.p, nblimbs - |X.p|);
      X.p := X.p + Zeros(nblimbs - |X.p|);
    } else {
      assert X.p == X.p + Zeros(0);
    }
  }

  method Lset(X: Mpi, z: int)
    requires -0x8000_0000 <= z < 0x8000_0000
    modifies X
    ensures X.Value() == z && X.Signed() && (z >= 0 ==> X.s == 1)
    ensures |X.p| == if |old(X.p)| < 1 then 1 else |old(X.p)|
    ensures X.p == [if z < 0 then -z else z] + Zeros(|X.p| - 1)
  {
    Grow(X, 1);
    X.p := Zeros(|X.p|);
    X.p := X.p[0 := if z < 0 then -z else z];
    X.s := if z < 0 then -1 else 1;
    ValExtend([X.p[0]], |X.p| - 1);
    assert X.p == [X.p[0]] + Zeros(|X.p| - 1);
    assert Val([X.p[0]]) == X.p[0];
  }

  // ----- Significant limbs -----

  /** The number of limbs up to and including the highest nonzero one. */
  ghost function Sig(p: seq<Limb>): (i: nat)
    ensures i <= |p|
  {
    if |p| == 0 then 0 else if p[|p| - 1] != 0 then |p| else Sig(p[..|p| - 1])
  }

  lemma {:induction false} SigChar(p: seq<Limb>, i: nat)
    requires i <= |p| && (forall k :: i <= k < |p| ==> p[k] == 0)
    requires i == 0 || p[i - 1] != 0
    ensures Sig(p) == i
  {
    if i < |p| {
      SigChar(p[..|p| - 1], i);
    }
  }

  lemma {:induction false} SigTop(p: seq<Limb>)
    ensures forall k :: Sig(p) <= k < |p| ==> p[k] == 0
    ensures Sig(p) > 0 ==> p[Sig(p) - 1] != 0
    ensures Val(p[..Sig(p)]) == Val(p)
    ensures Sig(p) == 0 <==> Val(p) == 0
    ensures Sig(p) > 0 ==> Val(p) >= BP(Sig(p) - 1)
  {
    if |p| != 0 && p[|p| - 1] == 0 {
      SigTop(p[..|p| - 1]);
    }
    ValTrim(p, Sig(p));
    if Sig(p) > 0 {
      ValPositive(p, Sig(p) - 1);
    } else {
      ValZeros(p);
    }
  }

  /** The loop at the head of the comparisons, copies, additions and products. */
  method SigLimbs(p: seq<Limb>) returns (i: nat)
    ensures i == Sig(p)
  {
    i := |p|;
    while i > 0
      invariant i <= |p|
      invariant forall k :: i <= k < |p| ==> p[k] == 0
    {
      if p[i - 1] != 0 {
        break;
      }
      i := i - 1;
    }
    SigChar(p, i);
  }

  function AtLeast(n: nat, i: nat): nat { if n < i then i else n }

  method Copy(X: Mpi, Y: Mpi)
    modifies X
    ensures X == Y ==> X.s == old(X.s) && X.p == old(X.p)
    ensures X != Y && |Y.p| == 0 ==> X.s == 1 && X.p == []
    ensures X != Y && |Y.p| > 0 ==> X.s == Y.s
    ensures X != Y && |Y.p| > 0 ==> |X.p| == AtLeast(|old(X.p)|, AtLeast(Sig(Y.p), 1))
    ensures Val(X.p) == Val(Y.p) && Sig(X.p) == Sig(Y.p)
  {
    if X == Y {
      return;
    }
    if |Y.p| == 0 {
      Free(X);
      return;
    }
    var i: nat := |Y.p| - 1;
    while i > 0
      invariant i < |Y.p|
      invariant forall k :: i < k < |Y.p| ==> Y.p[k] == 0
    {
      if Y.p[i] != 0 {
        break;
      }
      i := i - 1;
    }
    i := i + 1;
    X.s := Y.s;
    if |X.p| < i {
      Grow(X, i);
    } else {
      X.p := X.p[..i] + Zeros(|X.p| - i);
    }
    CopiedLimbs(X.p, Y.p, i);
    X.p := Y.p[..i] + X.p[i..];
  }

  /** Overwriting the low i limbs of x by those of y gives y's value when both are zero above. */
  lemma CopiedLimbs(x: seq<Limb>, y: seq<Limb>, i: nat)
    requires 0 < i <= |y| && i <= |x| && (i == 1 || y[i - 1] != 0)
    requires forall k :: i <= k < |y| ==> y[k] == 0
    requires forall k :: i <= k < |x| ==> x[k] == 0
    ensures var r := y[..i] + x[i..]; Val(r) == Val(y) && Sig(r) == Sig(y)
    ensures AtLeast(Sig(y), 1) == i
  {
    var r := y[..i] + x[i..];
    assert r[..i] == y[..i] && r[i - 1] == y[i - 1];
    SigTrim(y, i);
    SigTrim(r, i);
  }

  lemma SigTrim(p: seq<Limb>, i: nat)
    requires 0 < i <= |p| && (i == 1 || p[i - 1] != 0) && forall k :: i <= k < |p| ==> p[k] == 0
    ensures Sig(p) == (if p[i - 1] == 0 then 0 else i) && Val(p[..i]) == Val(p)
  {
    ValTrim(p, i);
    SigChar(p, if p[i - 1] == 0 then 0 else i);
  }

  // ----- Comparison -----

  /** The three-way order of the comparisons. */
  function Cmp(a: int, b: int): (r: int)
    ensures r == -1 <==> a < b
    ensures r == 0 <==> a == b
    ensures r == 1 <==> a > b
  {
    if a < b then -1 else if a > b then 1 else 0
  }

  lemma ValLess(x: seq<Limb>, y: seq<Limb>, i: nat)
    requires i < |x| && i < |y| && x[i] < y[i] && Val(x[i + 1..]) == Val(y[i + 1..])
    ensures Val(x) < Val(y)
  {
    ValSplit(x, i);
    ValSplit(y, i);
    ValCons(x, i);
    ValCons(y, i);
    ValBound(x[..i]);
    HighLess(BP(i), Val(x[..i]), Val(x[i..]), Val(y[..i]), Val(y[i..]));
  }

  lemma HighLess(w: nat, lo: nat, hi: nat, lo': nat, hi': nat)
    requires lo < w && hi < hi'
    ensures lo + w * hi < lo' + w * hi'
  {
    MulMono(hi + 1, hi', w);
  }

  lemma SigLess(x: seq<Limb>, y: seq<Limb>)
    requires Sig(x) < Sig(y)
    ensures Val(x) < Val(y)
  {
    SigTop(x);
    SigTop(y);
    ValBound(x[..Sig(x)]);
    BPMono(Sig(x), Sig(y) - 1);
  }

  /** The limb loop shared by the absolute and the signed comparison. */
  method CmpLimbs(x: seq<Limb>, y: seq<Limb>, n: nat) returns (r: int)
    requires n <= |x| && n <= |y|
    requires (forall k :: n <= k < |x| ==> x[k] == 0) && (forall k :: n <= k < |y| ==> y[k] == 0)
    ensures r == Cmp(Val(x), Val(y))
  {
    ValZeros(x[n..]);
    ValZeros(y[n..]);
    var i := n;
    while i > 0
      invariant i <= n && Val(x[i..]) == Val(y[i..])
    {
      if x[i - 1] > y[i - 1] {
        ValLess(y, x, i - 1);
        return 1;
      }
      if x[i - 1] < y[i - 1] {
        ValLess(x, y, i - 1);
        return -1;
      }
      ValCons(x, i - 1);
      ValCons(y, i - 1);
      i := i - 1;
    }
    assert x[0..] == x && y[0..] == y;
    return 0;
  }

  method CmpAbs(X: Mpi, Y: Mpi) returns (r: int)
    ensures r == Cmp(Val(X.p), Val(Y.p))
  {
    var i := SigLimbs(X.p);
    var j := SigLimbs(Y.p);
    SigTop(X.p);
    SigTop(Y.p);
    if i == 0 && j == 0 {
      return 0;
    }
    if i > j {
      SigLess(Y.p, X.p);
      return 1;
    }
    if j > i {
      SigLess(X.p, Y.p);
      return -1;
    }
    r := CmpLimbs(X.p, Y.p, i);
  }

  method CmpMpi(X: Mpi, Y: Mpi) returns (r: int)
    requires X.Signed() && Y.Signed()
    ensures r == Cmp(X.Value(), Y.Value())
  {
    var i := SigLimbs(X.p);
    var j := SigLimbs(Y.p);
    SigTop(X.p);
    SigTop(Y.p);
    if i == 0 && j == 0 {
      return 0;
    }
    if i > j {
      SigLess(Y.p, X.p);
      return X.s;
    }
    if j > i {
      SigLess(X.p, Y.p);
      return -Y.s;
    }
    if X.s > 0 && Y.s < 0 {
      return 1;
    }
    if Y.s > 0 && X.s < 0 {
      return -1;
    }
    r := CmpLimbs(X.p, Y.p, i);
    r := X.s * r;
  }

  method CmpInt(X: Mpi, z: int) returns (r: int)
    requires X.Signed() && -0x8000_0000 <= z < 0x8000_0000
    ensures r == Cmp(X.Value(), z)
  {
    var Y := new Mpi.Of(if z < 0 then -1 else 1, [if z < 0 then -z else z]);
    assert Val(Y.p) == Y.p[0];
    r := CmpMpi(X, Y);
  }

  // ----- Bit counts -----

  /** r is the number of bits of v. */
  ghost predicate IsBitLen(v: nat, r: nat) {
    v < Pow2(r) && (r > 0 ==> Pow2(r - 1) <= v)
  }

  method Clz(x: Limb) returns (j: nat)
    ensures j <= 32 && IsBitLen(x, 32 - j)
  {
    Pow2Values();
    j := 0;
    var mask := Pow2(31);
    while j < 32
      invariant j <= 32 && x < Pow2(32 - j)
      invariant j < 32 ==> mask == Pow2(31 - j)
    {
      if x / mask % 2 != 0 {
        BitSet(x, mask);
        break;
      }
      BitSet(x, mask);
      mask := mask / 2;
      j := j + 1;
    }
  }

  lemma BitSet(x: nat, mask: nat)
    requires mask > 0 && x < 2 * mask
    ensures x / mask % 2 != 0 <==> x >= mask
  {
    if x >= mask {
      DivModUnique(x, mask, 1, x - mask);
    } else {
      DivModUnique(x, mask, 0, x);
    }
  }

  lemma BitLenShift(lo: nat, hi: nat, e: nat, j: nat)
    requires lo < Pow2(e) && IsBitLen(hi, j) && (j == 0 ==> e == 0)
    ensures IsBitLen(lo + hi * Pow2(e), e + j)
  {
    Pow2Add(e, j);
    if j > 0 {
      Pow2Add(e, j - 1);
      JoinedBounds(lo, hi, Pow2(e), Pow2(j - 1), Pow2(j));
    }
  }

  lemma JoinedBounds(lo: nat, hi: nat, w: nat, u: nat, v: nat)
    requires lo < w && u <= hi < v
    ensures w * u <= lo + hi * w < w * v
  {
    MulMono(u, hi, w);
    MulMono(hi + 1, v, w);
  }

  lemma TopLimbBits(p: seq<Limb>, i: nat, j: nat)
    requires i < |p| && (forall k :: i < k < |p| ==> p[k] == 0)
    requires i > 0 ==> p[i] != 0
    requires j <= 32 && IsBitLen(p[i], j)
    ensures IsBitLen(Val(p), 32 * i + j)
  {
    ValTrim(p, i + 1);
    ValSnoc(p, i);
    ValBound(p[..i]);
    BPPow2(i);
    BitLenShift(Val(p[..i]), p[i], 32 * i, j);
  }

  method Bitlen(X: Mpi) returns (r: nat)
    ensures IsBitLen(Val(X.p), r)
  {
    if |X.p| == 0 {
      return 0;
    }
    var i: nat := |X.p| - 1;
    while i > 0
      invariant i < |X.p|
      invariant forall k :: i < k < |X.p| ==> X.p[k] == 0
    {
      if X.p[i] != 0 {
        break;
      }
      i := i - 1;
    }
    var z := Clz(X.p[i]);
    var j := BI_L - z;
    TopLimbBits(X.p, i, j);
    return i * BI_L + j;
  }

  /** 2^r divides v exactly: v is an odd multiple of 2^r. */
  ghost predicate IsOrder(v: nat, r: nat) {
    v % Pow2(r) == 0 && v / Pow2(r) % 2 == 1
  }

  lemma OrderShift(x: nat, rest: nat, e: nat, j: nat)
    requires j < 32 && IsOrder(x, j)
    ensures IsOrder(Pow2(e) * (x + BASE * rest), e + j)
  {
    var odd, c := x / Pow2(j), Pow2(31 - j) * rest;
    DivExact(x, Pow2(j));
    LimbSplit(j);
    Pow2Add(e, j);
    OddMultiple(Pow2(e), x, rest, odd, Pow2(31 - j), Pow2(j));
    ModMultiple(odd + 2 * c, Pow2(e + j));
    ParityKept(odd, c);
  }

  lemma OddMultiple(b: nat, x: nat, rest: nat, odd: nat, w: nat, u: nat)
    requires x == odd * u && 2 * w * u == BASE
    ensures b * (x + BASE * rest) == (odd + 2 * (w * rest)) * (b * u)
  {
    calc {
      BASE * rest;
      2 * w * u * rest;
      2 * (w * rest) * u;
    }
    assert x + BASE * rest == (odd + 2 * (w * rest)) * u;
  }

  lemma LimbSplit(j: nat)
    requires j < 32
    ensures 2 * Pow2(31 - j) * Pow2(j) == BASE
  {
    Pow2Add(32 - j, j);
    Pow2Values();
  }

  lemma LowLimbBits(p: seq<Limb>, i: nat, j: nat)
    requires i < |p| && (forall k :: 0 <= k < i ==> p[k] == 0)
    requires j < 32 && IsOrder(p[i], j)
    ensures IsOrder(Val(p), 32 * i + j)
  {
    ValSplit(p, i);
    ValZeros(p[..i]);
    ValCons(p, i);
    BPPow2(i);
    OrderShift(p[i], Val(p[i + 1..]), 32 * i, j);
  }

  method Lsb(X: Mpi) returns (count: nat)
    ensures Val(X.p) == 0 ==> count == 0
    ensures Val(X.p) != 0 ==> IsOrder(Val(X.p), count)
  {
    count := 0;
    var i: nat := 0;
    while i < |X.p|
      invariant i <= |X.p| && count == 32 * i
      invariant forall k :: 0 <= k < i ==> X.p[k] == 0
    {
      var j := LimbLsb(X.p[i]);
      count := count + j;
      if j < 32 {
        LowLimbBits(X.p, i, j);
        ValPositive(X.p, i);
        return;
      }
      i := i + 1;
    }
    ValZeros(X.p);
    return 0;
  }

  /** The inner loop: the lowest bit set in a limb, and 32 for none. */
  method LimbLsb(x: Limb) returns (j: nat)
    ensures j <= 32 && if j == 32 then x == 0 else IsOrder(x, j)
  {
    j := 0;
    while j < 32
      invariant j <= 32 && x % Pow2(j) == 0
    {
      if Shr(x, j) % 2 != 0 {
        return;
      }
      NextBit(x, j);
      j := j + 1;
    }
    Pow2Values();
  }

  lemma NextBit(x: nat, j: nat)
    requires x % Pow2(j) == 0 && x / Pow2(j) % 2 == 0
    ensures x % Pow2(j + 1) == 0
  {
    var h := x / Pow2(j) / 2;
    assert x == h * Pow2(j + 1) by {
      assert x == 2 * h * Pow2(j);
    }
    ModMultiple(h, Pow2(j + 1));
  }
}
