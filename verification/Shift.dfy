/** Left and right shift of the whole limb buffer, in place. */
module Shift {
  import opened Arith
  import opened Limbs
  import opened Mpis

  /** BITS_TO_LIMBS */
  function BitsToLimbs(i: nat): (r: nat)
    ensures 32 * r >= i && (r > 0 ==> 32 * (r - 1) < i)
  {
    i / 32 + if i % 32 != 0 then 1 else 0
  }

  lemma BitLenUnique(v: nat, a: nat, b: nat)
    requires IsBitLen(v, a) && IsBitLen(v, b)
    ensures a == b
  {
    if a < b {
      Pow2Mono(a, b - 1);
    } else if b < a {
      Pow2Mono(b, a - 1);
    }
  }

  // ----- Left -----

  lemma LimbHalves(t: nat)
    requires t <= 32
    ensures Pow2(t) * Pow2(32 - t) == BASE
  {
    Pow2Add(t, 32 - t);
    Pow2Values();
  }

  lemma QuotBound(x: nat, h: nat, k: nat)
    requires h > 0 && x < k * h
    ensures 0 <= x / h < k && 0 <= x % h < h && x == x / h * h + x % h
  {
    DivBound(x, h);
    if x / h >= k {
      MulMono(k, x / h, h);
    }
  }

  /** Multiplying x = q*h + lo by k, where k*h = b, splits at b. */
  lemma SplitProduct(x: nat, k: nat, h: nat, b: nat, q: nat, lo: nat)
    requires x == q * h + lo && k * h == b && lo < h && b > 0
    ensures x * k == q * b + lo * k && lo * k + k <= b
    ensures x * k / b == q && x * k % b == lo * k
  {
    calc {
      x * k;
      q * h * k + lo * k;
      { assert q * h * k == q * (k * h); }
      q * b + lo * k;
    }
    MulMono(lo + 1, h, k);
    if k == 0 {
      assert false;
    }
    DivModUnique(x * k, b, q, lo * k);
  }

  /** One limb of the bit loop: shifting out at the top and ORing in at the bottom loses nothing. */
  lemma LimbShl(x: Limb, r0: nat, t: nat)
    requires 0 < t < 32 && r0 < Pow2(t)
    ensures Shr(x, 32 - t) < Pow2(t)
    ensures Or(Shl(x, t), r0) < BASE
    ensures Or(Shl(x, t), r0) + Shr(x, 32 - t) * BASE == x * Pow2(t) + r0
  {
    var k, h := Pow2(t), Pow2(32 - t);
    LimbHalves(t);
    QuotBound(x, h, k);
    SplitProduct(x, k, h, BASE, x / h, x % h);
    OrDisjoint(x % h, r0, t);
  }

  lemma ShlStep(lo: int, qlo: int, w: int, k: int, x: int, y: int, r0: int, r1: int)
    requires lo + w * r0 == qlo * k && y + r1 * BASE == x * k + r0
    ensures lo + y * w + BASE * w * r1 == (qlo + x * w) * k
  {
    calc {
      lo + y * w + BASE * w * r1;
      lo + (y + r1 * BASE) * w;
      lo + (x * k + r0) * w;
      qlo * k + x * k * w;
      { assert x * k * w == x * w * k; }
      (qlo + x * w) * k;
    }
  }

  lemma ShlPrefix(p: seq<Limb>, p': seq<Limb>, q: seq<Limb>, i: nat, t: nat, r0: nat, r1: nat)
    requires i < |p| == |q| && |p'| == |p| && p'[..i] == p[..i] && p'[i + 1..] == p[i + 1..] && p[i..] == q[i..]
    requires Val(p[..i]) + BP(i) * r0 == Val(q[..i]) * Pow2(t)
    requires p'[i] + r1 * BASE == q[i] * Pow2(t) + r0
    ensures Val(p'[..i + 1]) + BP(i + 1) * r1 == Val(q[..i + 1]) * Pow2(t)
    ensures p'[i + 1..] == q[i + 1..]
  {
    ShlStep(Val(p[..i]), Val(q[..i]), BP(i), Pow2(t), q[i], p'[i], r0, r1);
    ValSnoc(p', i);
    ValSnoc(q, i);
    assert p[i + 1..] == p[i..][1..] && q[i + 1..] == q[i..][1..];
  }

  /** The buffer when the limbs from i on have been moved up from q. */
  ghost function MovingUp(q: seq<Limb>, v0: nat, i: nat): (p: seq<Limb>)
    requires v0 <= i <= |q|
    ensures |p| == |q|
  {
    q[..i] + q[i - v0..|q| - v0]
  }

  lemma MoveUpStep(q: seq<Limb>, p: seq<Limb>, v0: nat, i: nat)
    requires v0 < i <= |q| && p == MovingUp(q, v0, i)
    ensures p[i - 1 := p[i - v0 - 1]] == MovingUp(q, v0, i - 1)
  {
  }

  lemma MovedUpEnds(q: seq<Limb>, v0: nat)
    requires v0 <= |q|
    ensures MovingUp(q, v0, |q|) == q && MovingUp(q, v0, v0) == q[..v0] + q[..|q| - v0]
  {
  }

  method MoveOneUp(X: Mpi, v0: nat, i: nat, ghost q: seq<Limb>)
    requires v0 < i <= |q| && X.p == MovingUp(q, v0, i)
    modifies X`p
    ensures X.p == MovingUp(q, v0, i - 1)
  {
    MoveUpStep(q, X.p, v0, i);
    X.p := X.p[i - 1 := X.p[i - v0 - 1]];
  }

  /** The loop that moves the limbs up by v0 places, and the one that clears the places they leave. */
  method MoveUp(X: Mpi, v0: nat)
    requires v0 <= |X.p|
    modifies X`p
    ensures X.p == old(X.p)[..v0] + old(X.p)[..|old(X.p)| - v0]
  {
    ghost var q := X.p;
    var i := |X.p|;
    MovedUpEnds(q, v0);
    while i > v0
      invariant v0 <= i <= |q| && X.p == MovingUp(q, v0, i)
    {
      MoveOneUp(X, v0, i, q);
      i := i - 1;
    }
  }

  method ClearLow(X: Mpi, v0: nat)
    requires v0 <= |X.p|
    modifies X`p
    ensures X.p == Zeros(v0) + old(X.p)[v0..]
  {
    ghost var q := X.p;
    var i := v0;
    assert q == q[..v0] + Zeros(0) + q[v0..];
    while i > 0
      invariant 0 <= i <= v0 <= |q| && X.p == q[..i] + Zeros(v0 - i) + q[v0..]
    {
      ClearStep(q[..i], v0 - i, q[v0..]);
      X.p := X.p[i - 1 := 0];
      i := i - 1;
      assert q[..i + 1][..i] == q[..i];
    }
    assert q[..0] + Zeros(v0) == Zeros(v0);
  }

  lemma ClearStep(low: seq<Limb>, n: nat, rest: seq<Limb>)
    requires |low| > 0
    ensures (low + Zeros(n) + rest)[|low| - 1 := 0] == low[..|low| - 1] + Zeros(n + 1) + rest
  {
  }

  method MoveLimbsUp(X: Mpi, v0: nat)
    requires v0 <= |X.p|
    modifies X`p
    ensures X.p == Zeros(v0) + old(X.p)[..|old(X.p)| - v0]
  {
    MoveUp(X, v0);
    ClearLow(X, v0);
  }

  /** Shifts every limb from v0 up by t bits; r0 carries the bits between limbs. */
  method ShiftBitsUp(X: Mpi, v0: nat, t: nat)
    requires 0 < t < 32 && v0 <= |X.p| && (forall k :: 0 <= k < v0 ==> X.p[k] == 0)
    requires Val(X.p) * Pow2(t) < BP(|X.p|)
    modifies X`p
    ensures Val(X.p) == old(Val(X.p)) * Pow2(t) && |X.p| == |old(X.p)|
  {
    ghost var q, k := X.p, Pow2(t);
    var r0: Limb := 0;
    var i := v0;
    ValZeros(q[..v0]);
    while i < |X.p|
      invariant v0 <= i <= |X.p| == |q| && r0 < k
      invariant X.p[i..] == q[i..]
      invariant Val(X.p[..i]) + BP(i) * r0 == Val(q[..i]) * k
    {
      ghost var p0 := X.p;
      assert p0[i] == p0[i..][0] && q[i] == q[i..][0];
      LimbShl(X.p[i], r0, t);
      var r1 := Shr(X.p[i], BI_L - t);
      X.p := X.p[i := Shl(X.p[i], t)];
      X.p := X.p[i := Or(X.p[i], r0)];
      ShlPrefix(p0, X.p, q, i, t, r0, r1);
      r0 := r1;
      i := i + 1;
    }
    assert X.p[..i] == X.p && q[..i] == q;
    NothingOut(Val(X.p), BP(i), r0, Val(q) * k);
  }

  lemma NothingOut(v: nat, w: nat, r: nat, total: nat)
    requires v + w * r == total && total < w
    ensures r == 0 && v == total
  {
    if r >= 1 {
      MulMono(1, r, w);
    }
  }

  method ShiftL(X: Mpi, count: nat)
    modifies X`p
    ensures Val(X.p) == old(Val(X.p)) * Pow2(count) && |X.p| >= |old(X.p)|
    ensures forall r: nat :: IsBitLen(old(Val(X.p)), r) ==> |X.p| == AtLeast(|old(X.p)|, BitsToLimbs(r + count))
  {
    var v0 := count / BI_L;
    var t1 := count % BI_L;
    var bits := Bitlen(X);
    var i := bits + count;
    if |X.p| * BI_L < i {
      Grow(X, BitsToLimbs(i));
    }
    ghost var v := Val(X.p);
    forall r: nat | IsBitLen(v, r)
      ensures r == bits
    {
      BitLenUnique(v, r, bits);
    }
    ShiftFits(v, bits, count, v0, |X.p|);
    ShiftUp(X, v0, t1);
  }

  /** The limb moves and then the bit loop, in a buffer with room for the result. */
  method ShiftUp(X: Mpi, v0: nat, t1: nat)
    requires t1 < 32 && v0 <= |X.p| && Val(X.p) < BP(|X.p| - v0) && Val(X.p) * Pow2(32 * v0 + t1) < BP(|X.p|)
    modifies X`p
    ensures Val(X.p) == old(Val(X.p)) * Pow2(32 * v0 + t1) && |X.p| == |old(X.p)|
  {
    ShiftWeights(Val(X.p), v0, t1);
    if v0 > 0 {
      MovedUp(X.p, v0);
      MoveLimbsUp(X, v0);
    }
    if t1 > 0 {
      ShiftBitsUp(X, v0, t1);
    }
  }

  lemma ShiftWeights(v: nat, v0: nat, t: nat)
    ensures v * BP(v0) * Pow2(t) == v * Pow2(32 * v0 + t) && v * BP(0) == v && v * BP(v0) * Pow2(0) == v * BP(v0)
  {
    Pow2Add(32 * v0, t);
    BPPow2(v0);
    assert v * BP(v0) * Pow2(t) == v * (BP(v0) * Pow2(t));
  }

  lemma ShiftFits(v: nat, bits: nat, count: nat, v0: nat, n: nat)
    requires IsBitLen(v, bits) && bits + count <= 32 * n && 32 * v0 <= count
    ensures v0 <= n && v < BP(n - v0) && v * Pow2(count) < BP(n)
  {
    BPPow2(n);
    BPPow2(n - v0);
    Pow2Mono(bits, 32 * (n - v0));
    Pow2Add(bits, count);
    Pow2Mono(bits + count, 32 * n);
    StrictProduct(v, Pow2(bits), Pow2(count));
  }

  lemma MovedUp(q: seq<Limb>, v0: nat)
    requires v0 <= |q| && Val(q) < BP(|q| - v0)
    ensures Val(Zeros(v0) + q[..|q| - v0]) == Val(q) * BP(v0)
  {
    ValSmall(q, |q| - v0);
    ValZeros(Zeros(v0));
    ValAppend(Zeros(v0), q[..|q| - v0]);
  }

  // ----- Right -----

  lemma LimbShr(x: Limb, rem: nat, t: nat)
    requires 0 < t < 32 && rem < Pow2(t)
    ensures rem * Pow2(32 - t) < BASE
    ensures Or(Shr(x, t), rem * Pow2(32 - t)) < BASE
    ensures Pow2(t) * Or(Shr(x, t), rem * Pow2(32 - t)) + x % Pow2(t) == x + rem * BASE
    ensures Shl(x, 32 - t) == x % Pow2(t) * Pow2(32 - t) && 0 <= x % Pow2(t) < Pow2(t)
  {
    var k, h := Pow2(t), Pow2(32 - t);
    LimbHalves(t);
    QuotBound(x, k, h);
    SplitProduct(x, h, k, BASE, x / k, x % k);
    OrDisjoint(rem, x / k, 32 - t);
    ProductRoom(rem, k, h);
    JoinProduct(x, k, h, BASE, x / k, x % k, rem);
  }

  lemma ProductRoom(a: nat, b: nat, c: nat)
    requires a < b
    ensures a * c + c <= b * c
  {
    MulMono(a + 1, b, c);
  }

  lemma JoinProduct(x: nat, k: nat, h: nat, b: nat, q: nat, lo: nat, rem: nat)
    requires x == q * k + lo && k * h == b
    ensures k * (q + rem * h) + lo == x + rem * b
  {
    calc {
      k * (q + rem * h) + lo;
      k * q + k * (rem * h) + lo;
      { assert k * (rem * h) == rem * (k * h); }
      q * k + rem * b + lo;
    }
  }

  lemma ShrStep(qhi: int, phi: int, k: int, rem: int, x: int, y: int, rem': int)
    requires qhi == k * phi + rem && k * y + rem' == x + rem * BASE
    ensures x + BASE * qhi == k * (y + BASE * phi) + rem'
  {
    assert k * (y + BASE * phi) == k * y + BASE * (k * phi);
  }

  /** Limbs i and up of p are those of q divided by k, with remainder rem; the limbs below are still q's. */
  ghost predicate ShiftedFrom(q: seq<Limb>, p: seq<Limb>, i: nat, k: nat, rem: nat) {
    i <= |q| == |p| && (forall j :: 0 <= j < i ==> p[j] == q[j]) && Val(q[i..]) == k * Val(p[i..]) + rem
  }

  lemma ShrSuffix(q: seq<Limb>, p: seq<Limb>, p': seq<Limb>, i: nat, k: nat, rem: nat, rem': nat)
    requires i < |p| == |p'| && p' == p[i := p'[i]] && ShiftedFrom(q, p, i + 1, k, rem)
    requires k * p'[i] + rem' == p[i] + rem * BASE
    ensures ShiftedFrom(q, p', i, k, rem')
  {
    assert p'[i + 1..] == p[i + 1..];
    ShrStep(Val(q[i + 1..]), Val(p[i + 1..]), k, rem, q[i], p'[i], rem');
    ValCons(p', i);
    ValCons(q, i);
  }

  lemma DividedWhole(q: seq<Limb>, p: seq<Limb>, k: nat, rem: nat)
    requires ShiftedFrom(q, p, 0, k, rem) && rem < k
    ensures Val(p) == Val(q) / k
  {
    assert p[0..] == p && q[0..] == q;
    DivModUnique(Val(q), k, Val(p), rem);
  }

  /** The buffer when the limbs below i have been moved down from q. */
  ghost function MovingDown(q: seq<Limb>, v0: nat, i: nat): (p: seq<Limb>)
    requires i + v0 <= |q|
    ensures |p| == |q|
  {
    q[v0..i + v0] + q[i..]
  }

  lemma MoveDownStep(q: seq<Limb>, p: seq<Limb>, v0: nat, i: nat)
    requires i + v0 < |q| && p == MovingDown(q, v0, i)
    ensures p[i := p[i + v0]] == MovingDown(q, v0, i + 1)
  {
  }

  lemma MoveDownStart(q: seq<Limb>, v0: nat)
    requires v0 <= |q|
    ensures MovingDown(q, v0, 0) == q
  {
  }

  lemma MoveDownEnd(q: seq<Limb>, v0: nat, i: nat)
    requires i + v0 == |q|
    ensures MovingDown(q, v0, i) == q[v0..] + q[|q| - v0..]
  {
  }

  method MoveOneDown(X: Mpi, v0: nat, i: nat, ghost q: seq<Limb>)
    requires i + v0 < |q| && X.p == MovingDown(q, v0, i)
    modifies X`p
    ensures X.p == MovingDown(q, v0, i + 1)
  {
    MoveDownStep(q, X.p, v0, i);
    X.p := X.p[i := X.p[i + v0]];
  }

  /** The loop that moves the limbs down by v0 places, and the one that clears the places they leave. */
  method MoveDown(X: Mpi, v0: nat)
    requires v0 <= |X.p|
    modifies X`p
    ensures X.p == old(X.p)[v0..] + old(X.p)[|old(X.p)| - v0..]
  {
    ghost var q := X.p;
    var i: nat := 0;
    MoveDownStart(q, v0);
    while i < |X.p| - v0
      invariant i + v0 <= |q| && X.p == MovingDown(q, v0, i)
    {
      MoveOneDown(X, v0, i, q);
      i := i + 1;
    }
    MoveDownEnd(q, v0, i);
  }

  method ClearHigh(X: Mpi, i0: nat)
    requires i0 <= |X.p|
    modifies X`p
    ensures X.p == old(X.p)[..i0] + Zeros(|old(X.p)| - i0)
  {
    ghost var q := X.p;
    var i := i0;
    assert q == q[..i0] + Zeros(0) + q[i0..];
    while i < |X.p|
      invariant i0 <= i <= |q| && X.p == q[..i0] + Zeros(i - i0) + q[i..]
    {
      ClearNext(q[..i0], i - i0, q[i..]);
      X.p := X.p[i := 0];
      i := i + 1;
      assert q[i - 1..][1..] == q[i..];
    }
  }

  lemma ClearNext(low: seq<Limb>, n: nat, rest: seq<Limb>)
    requires |rest| > 0
    ensures (low + Zeros(n) + rest)[|low| + n := 0] == low + Zeros(n + 1) + rest[1..]
  {
  }

  method MoveLimbsDown(X: Mpi, v0: nat)
    requires v0 <= |X.p|
    modifies X`p
    ensures X.p == old(X.p)[v0..] + Zeros(v0)
  {
    MoveDown(X, v0);
    ClearHigh(X, |X.p| - v0);
  }

  /** One turn of the bit loop: limb i takes in r0 from above, and the bits it loses are returned. */
  method ShiftLimbDown(X: Mpi, i: nat, t: nat, r0: Limb, ghost rem: nat) returns (r1: Limb, ghost rem': nat)
    requires i < |X.p| && 0 < t < 32 && rem < Pow2(t) && r0 == rem * Pow2(32 - t)
    modifies X`p
    ensures |X.p| == |old(X.p)| && X.p == old(X.p)[i := X.p[i]]
    ensures rem' < Pow2(t) && r1 == rem' * Pow2(32 - t)
    ensures Pow2(t) * X.p[i] + rem' == old(X.p[i]) + rem * BASE
  {
    LimbShr(X.p[i], rem, t);
    rem' := X.p[i] % Pow2(t);
    r1 := Shl(X.p[i], BI_L - t);
    X.p := X.p[i := Shr(X.p[i], t)];
    X.p := X.p[i := Or(X.p[i], r0)];
  }

  method ShiftBitsDown(X: Mpi, t: nat)
    requires 0 < t < 32
    modifies X`p
    ensures Val(X.p) == old(Val(X.p)) / Pow2(t) && |X.p| == |old(X.p)|
  {
    ghost var q, rem: nat := X.p, 0;
    var r0: Limb := 0;
    var i: nat := |X.p|;
    while i > 0
      invariant rem < Pow2(t) && r0 == rem * Pow2(32 - t) && ShiftedFrom(q, X.p, i, Pow2(t), rem)
    {
      ghost var p, above := X.p, rem;
      i := i - 1;
      r0, rem := ShiftLimbDown(X, i, t, r0, rem);
      ShrSuffix(q, p, X.p, i, Pow2(t), above, rem);
    }
    DividedWhole(q, X.p, Pow2(t), rem);
  }

  method ShiftR(X: Mpi, count: nat)
    modifies X
    ensures Val(X.p) == old(Val(X.p)) / Pow2(count)
    ensures X.s == if count > 32 * |old(X.p)| then 1 else old(X.s)
    ensures Val(X.p) > 0 ==> X.s == old(X.s)
    ensures |X.p| == if count > 32 * |old(X.p)| then AtLeast(|old(X.p)|, 1) else |old(X.p)|
  {
    var v0 := count / BI_L;
    var v1 := count % BI_L;
    if v0 > |X.p| || (v0 == |X.p| && v1 > 0) {
      ShiftedOut(X.p, count);
      Lset(X, 0);
      return;
    }
    ShiftDown(X, v0, v1);
  }

  /** The limb moves and then the bit loop, within the limbs X owns. */
  method ShiftDown(X: Mpi, v0: nat, v1: nat)
    requires v1 < 32 && v0 <= |X.p|
    modifies X`p
    ensures Val(X.p) == old(Val(X.p)) / Pow2(32 * v0 + v1) && |X.p| == |old(X.p)|
  {
    ghost var q := X.p;
    if v0 > 0 {
      MoveLimbsDown(X, v0);
    }
    ShiftedDown(q, X.p, v0, v1);
    if v1 > 0 {
      ShiftBitsDown(X, v1);
    }
  }

  lemma ShiftedDown(q: seq<Limb>, p: seq<Limb>, v0: nat, t: nat)
    requires v0 <= |q| && p == if v0 > 0 then q[v0..] + Zeros(v0) else q
    ensures Val(p) / Pow2(t) == Val(q) / Pow2(32 * v0 + t) && (t == 0 ==> Val(p) / Pow2(t) == Val(p))
  {
    assert p == q[v0..] + Zeros(v0);
    ValSplit(q, v0);
    ValBound(q[..v0]);
    ValExtend(q[v0..], v0);
    DivTwice(Val(q), Val(q[..v0]), Val(q[v0..]), v0, t);
  }

  lemma ShiftedOut(q: seq<Limb>, count: nat)
    requires count >= 32 * |q|
    ensures Val(q) / Pow2(count) == 0
  {
    ValBound(q);
    BPPow2(|q|);
    Pow2Mono(32 * |q|, count);
    DivModUnique(Val(q), Pow2(count), 0, Val(q));
  }

  /** Dropping v0 limbs and then t bits is one floor division. */
  lemma DivTwice(v: nat, lo: nat, hi: nat, v0: nat, t: nat)
    requires v == lo + BP(v0) * hi && lo < BP(v0)
    ensures hi / Pow2(t) == v / Pow2(32 * v0 + t)
  {
    BPPow2(v0);
    Pow2Add(32 * v0, t);
    NestedDivision(v, lo, hi, BP(v0), Pow2(t));
  }

  lemma NestedDivision(v: nat, lo: nat, hi: nat, w: nat, k: nat)
    requires v == lo + w * hi && lo < w && k > 0
    ensures w * k > 0 && hi / k == v / (w * k)
  {
    var y, rem := hi / k, hi % k;
    assert w * hi == y * (w * k) + w * rem by {
      assert hi == y * k + rem;
      assert w * (y * k) == y * (w * k);
    }
    HighLess(w, lo, rem, 0, k);
    DivModUnique(v, w * k, y, lo + w * rem);
  }

  /** A right shift undoes a left shift by the same count. */
  lemma ShiftRoundTrip(v: nat, count: nat)
    ensures v * Pow2(count) / Pow2(count) == v
  {
    ModMultiple(v, Pow2(count));
  }

  /** So the two operations undo each other on the object, its sign included unless the number is zero. */
  method ShiftThereAndBack(X: Mpi, count: nat)
    modifies X
    ensures Val(X.p) == old(Val(X.p)) && (Val(X.p) > 0 || count == 0 ==> X.s == old(X.s))
  {
    ghost var v := Val(X.p);
    ShiftL(X, count);
    ShiftR(X, count);
    ShiftRoundTrip(v, count);
  }
}
