/** Sliding-window modular exponentiation (HAC 14.85). */
module ExpMod {
  import opened Arith
  import opened Limbs
  import opened Mpis
  import opened AddSub
  import opened Shift
  import opened Modulo
  import opened Montgomery

  // ----- Montgomery form -----

  /** x is the Montgomery form of v: reduced, and congruent to v*r. */
  ghost predicate IsMont(x: int, v: int, r: int, n: int) {
    0 <= x < n && Cong(x, v * r, n)
  }

  /** r is a power of two and n odd, so r cancels. */
  ghost predicate IsRadix(r: int, k: nat, n: int) {
    r == BP(k) && n > 0 && n % 2 == 1
  }

  lemma CancelRadix(a: int, b: int, r: int, k: nat, n: int)
    requires IsRadix(r, k, n) && Cong(a * r, b * r, n)
    ensures Cong(a, b, n)
  {
    BPPow2(k);
    CongCancelPow2(a, b, 32 * k, n);
  }

  /** The Montgomery product of two forms is the form of the product. */
  lemma MontProduct(x: int, v: int, y: int, w: int, z: int, r: int, k: nat, n: int)
    requires IsRadix(r, k, n) && IsMont(x, v, r, n) && IsMont(y, w, r, n) && 0 <= z < n && Cong(z * r, x * y, n)
    ensures IsMont(z, v * w, r, n)
  {
    CongMul(x, v * r, y, w * r, n);
    FormsProduct(v, w, r);
    CongTrans(z * r, x * y, v * w * r * r, n);
    CancelRadix(z, v * w * r, r, k, n);
  }

  lemma FormsProduct(v: int, w: int, r: int)
    ensures v * r * (w * r) == v * w * r * r
  {
    assert v * r * w == v * w * r;
  }

  /** Multiplying by r^2 enters Montgomery form. */
  lemma MontEnter(x: int, a: int, rr: int, z: int, r: int, k: nat, n: int)
    requires IsRadix(r, k, n) && Cong(x, a, n) && Cong(rr, r * r, n) && 0 <= z < n && Cong(z * r, x * rr, n)
    ensures IsMont(z, a, r, n)
  {
    CongMul(x, a, rr, r * r, n);
    SquaredFactor(a, r);
    CongTrans(z * r, x * rr, a * r * r, n);
    CancelRadix(z, a * r, r, k, n);
  }

  lemma SquaredFactor(a: int, r: int)
    ensures a * (r * r) == a * r * r
  {
  }

  /** Multiplying by one leaves it. */
  lemma MontLeave(x: int, v: int, z: int, r: int, k: nat, n: int)
    requires IsRadix(r, k, n) && IsMont(x, v, r, n) && 0 <= z < n && Cong(z * r, x, n)
    ensures z == v % n
  {
    CongTrans(z * r, x, v * r, n);
    CancelRadix(z, v, r, k, n);
    CongMod(z, v, n);
  }

  // ----- The working set -----

  /** What every Montgomery multiplication into X needs. */
  ghost predicate Ready(X: Mpi, N: Mpi, mm: Limb, T: Mpi)
    reads X, N, T
  {
    X != N && X != T && N != T && 0 < |N.p| < |X.p| && |T.p| >= 2 * |N.p| + 2
    && IsMontgomeryInverse(mm, N.p[0]) && Val(N.p) % 2 == 1
  }

  /** Y holds the Montgomery form of v modulo N. */
  ghost predicate Holds(Y: Mpi, v: int, N: Mpi)
    reads Y, N
  {
    0 < |Y.p| && IsMont(Val(Y.p), v, BP(|N.p|), Val(N.p))
  }

  /** X <- X * Y in Montgomery form; Y may be X. */
  method Times(X: Mpi, Y: Mpi, N: Mpi, mm: Limb, T: Mpi, ghost v: int, ghost w: int)
    requires Ready(X, N, mm, T) && Y != T && Holds(X, v, N) && Holds(Y, w, N)
    modifies X`p, T`p
    ensures Ready(X, N, mm, T) && Holds(X, v * w, N) && |T.p| == |old(T.p)|
  {
    ghost var x, y := Val(X.p), Val(Y.p);
    var ret := MontMul(X, Y, N, mm, T);
    MontProduct(x, v, y, w, Val(X.p), BP(|N.p|), |N.p|, Val(N.p));
  }

  /** One squaring doubles the exponent. */
  method Square(X: Mpi, N: Mpi, mm: Limb, T: Mpi, ghost a: int, ghost e: nat)
    requires Ready(X, N, mm, T) && Holds(X, Pow(a, e), N)
    modifies X`p, T`p
    ensures Ready(X, N, mm, T) && Holds(X, Pow(a, 2 * e), N) && |T.p| == |old(T.p)|
  {
    Times(X, X, N, mm, T, Pow(a, e), Pow(a, e));
    PowAdd(a, e, e);
  }

  lemma DoubledExponent(e: nat, i: nat)
    ensures 2 * (e * Pow2(i)) == e * Pow2(i + 1)
  {
  }

  /** count squarings raise the exponent by 2^count. */
  method SquareTimes(X: Mpi, N: Mpi, mm: Limb, T: Mpi, count: nat, ghost a: int, ghost e: nat)
    requires Ready(X, N, mm, T) && Holds(X, Pow(a, e), N)
    modifies X`p, T`p
    ensures Ready(X, N, mm, T) && Holds(X, Pow(a, NatProduct(e, Pow2(count))), N) && |T.p| == |old(T.p)|
  {
    var i := 0;
    assert NatProduct(e, Pow2(0)) == e;
    while i < count
      invariant 0 <= i <= count && Ready(X, N, mm, T) && |T.p| == |old(T.p)|
      invariant Holds(X, Pow(a, NatProduct(e, Pow2(i))), N)
    {
      Square(X, N, mm, T, a, NatProduct(e, Pow2(i)));
      DoubledExponent(e, i);
      i := i + 1;
    }
  }

  // ----- Precomputation -----

  /** RR <- BASE^(2n) mod N, unless a cached copy is supplied. */
  method SquaredRadix(N: Mpi, cache: Mpi?, product: bool) returns (RR: Mpi)
    requires cache != N && N.Signed() && N.Value() > 0
    requires cache != null && |cache.p| > 0 ==> cache.s == 1 && Val(cache.p) == BP(|N.p|) * BP(|N.p|) % Val(N.p)
    modifies cache
    ensures fresh(RR) && RR.s == 1 && |RR.p| > 0 && Val(RR.p) == BP(|N.p|) * BP(|N.p|) % Val(N.p)
    ensures cache != null ==> cache.p == RR.p && cache.s == RR.s
  {
    RR := new Mpi();
    if cache == null || |cache.p| == 0 {
      Lset(RR, 1);
      ShiftL(RR, |N.p| * 2 * BI_L);
      BPAdd(|N.p|, |N.p|);
      BPPow2(2 * |N.p|);
      var ret := ModMpi(RR, RR, N, product);
      if cache != null {
        cache.s, cache.p := RR.s, RR.p;
      }
    } else {
      RR.s, RR.p := cache.s, cache.p;
    }
  }

  /** W[1] <- A * BASE^n mod N. */
  method FirstPower(W1: Mpi, A: Mpi, N: Mpi, RR: Mpi, mm: Limb, T: Mpi, product: bool)
    requires Ready(W1, N, mm, T) && RR != T && W1 != A && W1 != RR && A != T
    requires A.s == 1 && 0 < |A.p| && N.s == 1 && 0 < |RR.p| && Val(RR.p) == BP(|N.p|) * BP(|N.p|) % Val(N.p)
    modifies W1, T`p
    ensures Ready(W1, N, mm, T) && Holds(W1, Val(A.p), N)
  {
    ghost var n := Val(N.p);
    var cmp := CmpMpi(A, N);
    if cmp >= 0 {
      var ret := ModMpi(W1, A, N, product);
    } else {
      Copy(W1, A);
      DivModUnique(Val(A.p), n, 0, Val(A.p));
    }
    ghost var x := Val(W1.p);
    ModCong(Val(A.p), n);
    ModCong(BP(|N.p|) * BP(|N.p|), n);
    var ret' := MontMul(W1, RR, N, mm, T);
    MontEnter(x, Val(A.p), Val(RR.p), Val(W1.p), BP(|N.p|), |N.p|, n);
  }

  /** X <- BASE^n mod N, the form of one. */
  method FormOfOne(X: Mpi, N: Mpi, RR: Mpi, mm: Limb, T: Mpi)
    requires Ready(X, N, mm, T) && X != RR && RR != T
    requires 0 < |RR.p| && Val(RR.p) == BP(|N.p|) * BP(|N.p|) % Val(N.p)
    modifies X, T`p
    ensures Ready(X, N, mm, T) && Holds(X, 1, N) && X.s == RR.s
  {
    ghost var n := Val(N.p);
    Copy(X, RR);
    ghost var rr := Val(X.p);
    var ret := MontRed(X, N, mm, T);
    ModCong(BP(|N.p|) * BP(|N.p|), n);
    CongRefl(1, n);
    MontEnter(1, 1, rr, Val(X.p), BP(|N.p|), |N.p|, n);
  }

  // ----- The window table -----

  /** The zeroed table W of integers. */
  method NewTable(size: nat) returns (W: seq<Mpi>)
    ensures |W| == size && (forall i :: 0 <= i < size ==> fresh(W[i]))
    ensures forall i, j :: 0 <= i < j < size ==> W[i] != W[j]
  {
    W := [];
    while |W| < size
      invariant |W| <= size && (forall i :: 0 <= i < |W| ==> fresh(W[i]))
      invariant forall i, j :: 0 <= i < j < |W| ==> W[i] != W[j]
    {
      var entry := new Mpi.Of(0, []);
      W := W + [entry];
    }
  }

  /** Entry 1 and the entries from 2^(wsize-1) up to, not including, top hold the powers of a. */
  ghost predicate TableHolds(W: seq<Mpi>, wsize: nat, top: nat, a: int, N: Mpi)
    requires wsize > 0 && 1 < |W| && top <= |W|
    reads N, W
  {
    Holds(W[1], a, N) && forall i :: Pow2(wsize - 1) <= i < top ==> Holds(W[i], Pow(a, i), N)
  }

  /** One table entry: W[i] <- W[i - 1] * W[1]. */
  method NextEntry(Wi: Mpi, Wp: Mpi, W1: Mpi, N: Mpi, mm: Limb, T: Mpi, ghost a: int, ghost i: nat)
    requires Wi != Wp && Wi != W1 && Wi != N && Wi != T && N != T && W1 != T && Wp != T && 1 < i
    requires 0 < |N.p| && |T.p| >= 2 * |N.p| + 2 && IsMontgomeryInverse(mm, N.p[0]) && Val(N.p) % 2 == 1
    requires Holds(W1, a, N) && Holds(Wp, Pow(a, i - 1), N)
    modifies Wi, T`p
    ensures |T.p| == |old(T.p)| && Holds(Wi, Pow(a, i), N)
  {
    CopyForm(Wi, Wp, N, Pow(a, i - 1));
    PowNext(a, i);
    Times(Wi, W1, N, mm, T, Pow(a, i - 1), a);
  }

  lemma PowNext(a: int, i: nat)
    requires 0 < i
    ensures Pow(a, i - 1) * a == Pow(a, i)
  {
  }

  lemma FirstPowers(a: int, k: nat)
    ensures Pow(a, 0) == 1 && Pow(a, 1) == a && 1 * Pow2(k) == Pow2(k)
  {
  }

  /** grow and copy, as each table entry starts. */
  method CopyForm(Wi: Mpi, Wp: Mpi, N: Mpi, ghost v: int)
    requires Wi != Wp && Wi != N && Holds(Wp, v, N)
    modifies Wi
    ensures |Wi.p| > |N.p| && Holds(Wi, v, N)
  {
    Grow(Wi, |N.p| + 1);
    Copy(Wi, Wp);
  }

  /** W[2^(wsize-1)] <- W[1]^(2^(wsize-1)). */
  method FirstEntry(Wj: Mpi, W1: Mpi, N: Mpi, mm: Limb, T: Mpi, wsize: nat, ghost a: int)
    requires Wj != W1 && Wj != N && Wj != T && N != T && W1 != T && 1 < wsize
    requires 0 < |N.p| && |T.p| >= 2 * |N.p| + 2 && IsMontgomeryInverse(mm, N.p[0]) && Val(N.p) % 2 == 1
    requires Holds(W1, a, N)
    modifies Wj, T`p
    ensures |T.p| == |old(T.p)| && Holds(Wj, Pow(a, Pow2(wsize - 1)), N)
  {
    FirstPowers(a, wsize - 1);
    CopyForm(Wj, W1, N, a);
    SquareTimes(Wj, N, mm, T, wsize - 1, a, 1);
  }

  /** One turn of the table loop: entry i is added to the entries below it. */
  method ExtendTable(W: seq<Mpi>, N: Mpi, mm: Limb, T: Mpi, wsize: nat, i: nat, ghost a: int)
    requires 1 < wsize && Pow2(wsize - 1) < i < Pow2(wsize) <= |W| && (forall j, k :: 0 <= j < k < |W| ==> W[j] != W[k])
    requires N !in W && T !in W && N != T && 1 < i
    requires 0 < |N.p| && |T.p| >= 2 * |N.p| + 2 && IsMontgomeryInverse(mm, N.p[0]) && Val(N.p) % 2 == 1
    requires TableHolds(W, wsize, i, a, N)
    modifies W[i], T`p
    ensures |T.p| == |old(T.p)| && TableHolds(W, wsize, i + 1, a, N)
  {
    NextEntry(W[i], W[i - 1], W[1], N, mm, T, a, i);
  }

  method BuildTable(W: seq<Mpi>, N: Mpi, mm: Limb, T: Mpi, wsize: nat, ghost a: int)
    requires 1 < wsize && Pow2(wsize) <= |W| && (forall i, j :: 0 <= i < j < |W| ==> W[i] != W[j])
    requires N !in W && T !in W && N != T
    requires 0 < |N.p| && |T.p| >= 2 * |N.p| + 2 && IsMontgomeryInverse(mm, N.p[0]) && Val(N.p) % 2 == 1
    requires Holds(W[1], a, N)
    modifies W, T`p
    ensures |T.p| == |old(T.p)| && TableHolds(W, wsize, Pow2(wsize), a, N)
  {
    var j := Pow2(wsize - 1);
    FirstEntry(W[j], W[1], N, mm, T, wsize, a);
    var i := j + 1;
    while i < Pow2(wsize)
      invariant j < i <= Pow2(wsize) && |T.p| == |old(T.p)| && TableHolds(W, wsize, i, a, N)
    {
      ExtendTable(W, N, mm, T, wsize, i, a);
      i := i + 1;
    }
  }

  // ----- The window automaton -----

  /** The loop variables state, nbits and wbits. */
  datatype Window = Window(state: nat, nbits: nat, wbits: nat)

  /** The exponent bits consumed so far are e followed by the nbits pending bits w: state 0 has consumed
      only zeros, state 1 is between windows, and state 2 is inside a window whose first bit is set. */
  ghost predicate WindowInv(s: Window, wsize: nat, e: nat, w: nat, prefix: nat) {
    s.nbits < wsize && s.state <= 2 && w < Pow2(s.nbits)
    && prefix == e * Pow2(s.nbits) + w && s.wbits == w * Pow2(wsize - s.nbits)
    && (s.state == 0 ==> e == 0 && s.nbits == 0)
    && (s.state == 1 ==> s.nbits == 0)
    && (s.state == 2 ==> s.nbits > 0 && w >= Pow2(s.nbits - 1))
  }

  /** ORs the bit into the window, below the bits already there; nbits has been incremented. */
  function PushBit(wbits: nat, ei: nat, wsize: nat, nbits: nat): nat
    requires nbits <= wsize
  {
    Or(wbits, ei * Pow2(wsize - nbits))
  }

  /** A pushed bit extends the pending bits; the window's first bit stays set. */
  lemma PushedBit(s: Window, wsize: nat, e: nat, w: nat, prefix: nat, ei: nat)
    requires WindowInv(s, wsize, e, w, prefix) && ei <= 1 && (ei == 1 || s.state == 2)
    ensures PushBit(s.wbits, ei, wsize, s.nbits + 1) == (2 * w + ei) * Pow2(wsize - s.nbits - 1)
    ensures Pow2(s.nbits) <= 2 * w + ei < Pow2(s.nbits + 1)
    ensures 2 * prefix + ei == e * Pow2(s.nbits + 1) + (2 * w + ei)
  {
    var u := Pow2(wsize - s.nbits - 1);
    assert s.wbits == w * Pow2(wsize - s.nbits) by {
      assert Pow2(wsize - s.nbits) == 2 * u;
    }
    assert w * (2 * u) == w * Pow2(wsize - s.nbits);
    OrDisjoint(w, ei * u, wsize - s.nbits);
    PushedValue(w, u, ei);
    DoubledExponent(e, s.nbits);
  }

  lemma PushedValue(w: nat, u: nat, ei: nat)
    ensures w * (2 * u) + ei * u == (2 * w + ei) * u
  {
  }

  /** Between windows a zero bit doubles the consumed exponent (and before the first set bit it stays zero). */
  lemma WindowZero(s: Window, wsize: nat, e: nat, w: nat, prefix: nat)
    requires WindowInv(s, wsize, e, w, prefix) && s.state != 2
    ensures WindowInv(s, wsize, 2 * e, 0, 2 * prefix) && w == 0 && (s.state == 0 ==> 2 * e == e)
  {
  }

  lemma WindowPush(s: Window, wsize: nat, e: nat, w: nat, prefix: nat, ei: nat)
    requires WindowInv(s, wsize, e, w, prefix) && ei <= 1 && (ei == 1 || s.state == 2) && s.nbits + 1 < wsize
    ensures var s' := Window(2, s.nbits + 1, PushBit(s.wbits, ei, wsize, s.nbits + 1));
      WindowInv(s', wsize, e, 2 * w + ei, 2 * prefix + ei)
  {
    PushedBit(s, wsize, e, w, prefix, ei);
  }

  /** A full window selects an entry of the table's upper half. */
  lemma WindowFull(s: Window, wsize: nat, e: nat, w: nat, prefix: nat, ei: nat)
    requires WindowInv(s, wsize, e, w, prefix) && ei <= 1 && (ei == 1 || s.state == 2) && s.nbits + 1 == wsize
    ensures var wbits := PushBit(s.wbits, ei, wsize, wsize);
      Pow2(wsize - 1) <= wbits < Pow2(wsize)
      && WindowInv(Window(1, 0, 0), wsize, NatProduct(e, Pow2(wsize)) + wbits, 0, 2 * prefix + ei)
  {
    PushedBit(s, wsize, e, w, prefix, ei);
  }

  /** A complete window: wsize squarings and one multiplication by the table entry it selects. */
  method CloseWindow(X: Mpi, W: seq<Mpi>, N: Mpi, mm: Limb, T: Mpi, wsize: nat, wbits: nat, ghost a: int, ghost e: nat)
    requires 0 < wsize && 1 < |W| && Pow2(wsize) <= |W| && Pow2(wsize - 1) <= wbits < Pow2(wsize)
    requires Ready(X, N, mm, T) && X !in W && T !in W && N !in W && TableHolds(W, wsize, Pow2(wsize), a, N)
    requires Holds(X, Pow(a, e), N)
    modifies X`p, T`p
    ensures Ready(X, N, mm, T) && Holds(X, Pow(a, NatProduct(e, Pow2(wsize)) + wbits), N) && |T.p| == |old(T.p)|
  {
    SquareTimes(X, N, mm, T, wsize, a, e);
    Times(X, W[wbits], N, mm, T, Pow(a, NatProduct(e, Pow2(wsize))), Pow(a, wbits));
    PowAdd(a, NatProduct(e, Pow2(wsize)), wbits);
  }

  /** One turn of the window loop: the bit ei is consumed. */
  method WindowBit(X: Mpi, W: seq<Mpi>, N: Mpi, mm: Limb, T: Mpi, wsize: nat, s: Window, ei: nat,
                   ghost a: int, ghost e: nat, ghost w: nat, ghost prefix: nat)
    returns (s': Window, ghost e': nat, ghost w': nat)
    requires 0 < wsize && 1 < |W| && Pow2(wsize) <= |W| && ei <= 1
    requires Ready(X, N, mm, T) && X !in W && T !in W && N !in W && TableHolds(W, wsize, Pow2(wsize), a, N)
    requires WindowInv(s, wsize, e, w, prefix) && Holds(X, Pow(a, e), N)
    modifies X`p, T`p
    ensures Ready(X, N, mm, T) && TableHolds(W, wsize, Pow2(wsize), a, N) && |T.p| == |old(T.p)|
    ensures WindowInv(s', wsize, e', w', 2 * prefix + ei) && Holds(X, Pow(a, e'), N)
  {
    s', e', w' := s, e, w;
    if ei == 0 && s.state == 0 {
      WindowZero(s, wsize, e, w, prefix);
      return;
    }
    if ei == 0 && s.state == 1 {
      WindowZero(s, wsize, e, w, prefix);
      Square(X, N, mm, T, a, e);
      e' := 2 * e;
      return;
    }
    s', e', w' := AddToWindow(X, W, N, mm, T, wsize, s, ei, a, e, w, prefix);
  }

  /** The bit is added to the current window, which is closed when it is full. */
  method AddToWindow(X: Mpi, W: seq<Mpi>, N: Mpi, mm: Limb, T: Mpi, wsize: nat, s: Window, ei: nat,
                     ghost a: int, ghost e: nat, ghost w: nat, ghost prefix: nat)
    returns (s': Window, ghost e': nat, ghost w': nat)
    requires 0 < wsize && 1 < |W| && Pow2(wsize) <= |W| && ei <= 1 && (ei == 1 || s.state == 2)
    requires Ready(X, N, mm, T) && X !in W && T !in W && N !in W && TableHolds(W, wsize, Pow2(wsize), a, N)
    requires WindowInv(s, wsize, e, w, prefix) && Holds(X, Pow(a, e), N)
    modifies X`p, T`p
    ensures Ready(X, N, mm, T) && TableHolds(W, wsize, Pow2(wsize), a, N) && |T.p| == |old(T.p)|
    ensures WindowInv(s', wsize, e', w', 2 * prefix + ei) && Holds(X, Pow(a, e'), N)
  {
    var nbits := s.nbits + 1;
    var wbits := PushBit(s.wbits, ei, wsize, nbits);
    if nbits == wsize {
      WindowFull(s, wsize, e, w, prefix, ei);
      CloseWindow(X, W, N, mm, T, wsize, wbits, a, e);
      s', e', w' := Window(1, 0, 0), NatProduct(e, Pow2(wsize)) + wbits, 0;
    } else {
      WindowPush(s, wsize, e, w, prefix, ei);
      s', e', w' := Window(2, nbits, wbits), e, 2 * w + ei;
    }
  }

  // ----- Exponent bits -----

  /** Bit 32*i + j of a limb sequence is bit j of its limb i. */
  lemma BitOfLimbs(p: seq<Limb>, i: nat, j: nat)
    requires i < |p| && j < 32
    ensures Val(p) / Pow2(32 * i + j) % 2 == p[i] / Pow2(j) % 2
  {
    ValSplit(p, i);
    ValBound(p[..i]);
    ValCons(p, i);
    DivTwice(Val(p), Val(p[..i]), Val(p[i..]), i, j);
    LimbSplit(j);
    HighBits(p[i], Pow2(j), Pow2(31 - j), Val(p[i + 1..]));
  }

  lemma HighBits(x: nat, u: nat, h: nat, rest: nat)
    requires u > 0 && 2 * h * u == BASE
    ensures (x + BASE * rest) / u % 2 == x / u % 2
  {
    var q, c := x / u, h * rest;
    HighMultiple(x, u, h, rest, q, x % u);
    DivModUnique(x + BASE * rest, u, q + 2 * c, x % u);
    ParityKept(q, c);
  }

  lemma HighMultiple(x: int, u: int, h: int, rest: int, q: int, r: int)
    requires x == q * u + r && 2 * h * u == BASE
    ensures x + BASE * rest == (q + 2 * (h * rest)) * u + r
  {
    assert 2 * h * u * rest == 2 * (h * rest) * u;
  }

  lemma NextPrefix(v: nat, k: nat)
    ensures v / Pow2(k) == 2 * (v / Pow2(k + 1)) + v / Pow2(k) % 2
  {
    var u := Pow2(k);
    var q := v / u;
    assert v == q / 2 * (2 * u) + (q % 2 * u + v % u) by {
      assert v == q * u + v % u && q == 2 * (q / 2) + q % 2;
      assert q * u == q / 2 * (2 * u) + q % 2 * u;
    }
    DivModUnique(v, 2 * u, q / 2, q % 2 * u + v % u);
  }

  /** The bit read extends the consumed prefix of the exponent. */
  lemma ExtendedPrefix(p: seq<Limb>, i: nat, j: nat)
    requires i < |p| && j < 32
    ensures Val(p) / Pow2(32 * i + j) == 2 * (Val(p) / Pow2(32 * i + j + 1)) + Shr(p[i], j) % 2
  {
    BitOfLimbs(p, i, j);
    NextPrefix(Val(p), 32 * i + j);
  }

  /** The endless loop over every bit of E, from the top limb's top bit. */
  method WindowLoop(X: Mpi, E: Mpi, W: seq<Mpi>, N: Mpi, mm: Limb, T: Mpi, wsize: nat, ghost a: int)
    returns (s: Window, ghost e: nat, ghost w: nat)
    requires 0 < wsize && 1 < |W| && Pow2(wsize) <= |W| && E != X && E != T
    requires Ready(X, N, mm, T) && X !in W && T !in W && N !in W && TableHolds(W, wsize, Pow2(wsize), a, N)
    requires Holds(X, 1, N)
    modifies X`p, T`p
    ensures Ready(X, N, mm, T) && TableHolds(W, wsize, Pow2(wsize), a, N) && |T.p| == |old(T.p)|
    ensures WindowInv(s, wsize, e, w, Val(E.p)) && Holds(X, Pow(a, e), N)
  {
    s, e, w := Window(0, 0, 0), 0, 0;
    var nblimbs: nat, bufsize: nat := |E.p|, 0;
    ghost var prefix: nat := 0;
    PrefixStart(E.p);
    while true
      invariant nblimbs <= |E.p| && bufsize < 32 && (bufsize > 0 ==> nblimbs < |E.p|)
      invariant prefix == Val(E.p) / Pow2(32 * nblimbs + bufsize)
      invariant Ready(X, N, mm, T) && TableHolds(W, wsize, Pow2(wsize), a, N) && |T.p| == |old(T.p)|
      invariant WindowInv(s, wsize, e, w, prefix) && Holds(X, Pow(a, e), N)
      decreases 32 * nblimbs + bufsize
    {
      if bufsize == 0 {
        if nblimbs == 0 {
          break;
        }
        nblimbs := nblimbs - 1;
        bufsize := BI_L;
      }
      bufsize := bufsize - 1;
      var ei := Shr(E.p[nblimbs], bufsize) % 2;
      ExtendedPrefix(E.p, nblimbs, bufsize);
      s, e, w := WindowBit(X, W, N, mm, T, wsize, s, ei, a, e, w, prefix);
      prefix := 2 * prefix + ei;
    }
    DivModUnique(Val(E.p), 1, Val(E.p), 0);
  }

  lemma PrefixStart(p: seq<Limb>)
    ensures Val(p) / Pow2(32 * |p|) == 0
  {
    ValBound(p);
    BPPow2(|p|);
    DivModUnique(Val(p), Pow2(32 * |p|), 0, Val(p));
  }

  // ----- The remaining bits -----

  /** Bit wsize of the shifted window is the next pending bit. */
  lemma PendingBit(w: nat, nbits: nat, i: nat, wsize: nat)
    requires i < nbits < wsize
    ensures 2 * (w * Pow2(wsize - nbits + i)) == w * Pow2(wsize - nbits + i + 1)
    ensures w * Pow2(wsize - nbits + i + 1) / Pow2(wsize) == w / Pow2(nbits - i - 1)
  {
    Pow2Add(wsize - nbits + i + 1, nbits - i - 1);
    ScaledQuotient(w, Pow2(wsize - nbits + i + 1), Pow2(nbits - i - 1));
    DoubledProduct(w, Pow2(wsize - nbits + i));
  }

  lemma ScaledQuotient(w: nat, c: nat, d: nat)
    requires c > 0 && d > 0
    ensures c * d > 0 && w * c / (c * d) == w / d
  {
    assert w * c == c * w;
    NestedDivision(c * w, 0, w, c, d);
  }

  lemma DoubledProduct(w: nat, c: nat)
    ensures 2 * (w * c) == w * (2 * c)
  {
  }

  /** One remaining bit: square, shift the window, and multiply by W[1] if bit wsize is set. */
  method RemainingBit(X: Mpi, W1: Mpi, N: Mpi, mm: Limb, T: Mpi, wsize: nat, wbits0: nat, ghost a: int, ghost k: nat)
    returns (wbits: nat)
    requires Ready(X, N, mm, T) && W1 != X && W1 != T && Holds(W1, a, N) && Holds(X, Pow(a, k), N)
    modifies X`p, T`p
    ensures wbits == 2 * wbits0
    ensures Ready(X, N, mm, T) && Holds(W1, a, N) && Holds(X, Pow(a, 2 * k + wbits / Pow2(wsize) % 2), N)
  {
    Square(X, N, mm, T, a, k);
    wbits := 2 * wbits0;
    if wbits / Pow2(wsize) % 2 != 0 {
      PowNext(a, 2 * k + 1);
      Times(X, W1, N, mm, T, Pow(a, 2 * k), a);
    }
  }

  method RemainingBits(X: Mpi, W1: Mpi, N: Mpi, mm: Limb, T: Mpi, wsize: nat, s: Window,
                       ghost a: int, ghost e: nat, ghost w: nat, ghost prefix: nat)
    requires Ready(X, N, mm, T) && W1 != X && W1 != T && Holds(W1, a, N)
    requires WindowInv(s, wsize, e, w, prefix) && Holds(X, Pow(a, e), N)
    modifies X`p, T`p
    ensures Ready(X, N, mm, T) && Holds(X, Pow(a, prefix), N)
  {
    var wbits: nat, i: nat := s.wbits, 0;
    TailStart(e, w, s.nbits);
    while i < s.nbits
      invariant i <= s.nbits && wbits == w * Pow2(wsize - s.nbits + i)
      invariant Ready(X, N, mm, T) && Holds(W1, a, N) && Holds(X, Pow(a, Consumed(e, w, s.nbits, i)), N)
    {
      PendingBit(w, s.nbits, i, wsize);
      TailExponent(e, w, s.nbits, i);
      wbits := RemainingBit(X, W1, N, mm, T, wsize, wbits, a, Consumed(e, w, s.nbits, i));
      i := i + 1;
    }
    TailEnd(e, w, s.nbits);
  }

  /** The exponent after i of the nbits pending bits. */
  ghost function Consumed(e: nat, w: nat, nbits: nat, i: nat): nat
    requires i <= nbits
  {
    DivBound(w, Pow2(nbits - i));
    e * Pow2(i) + w / Pow2(nbits - i)
  }

  lemma TailStart(e: nat, w: nat, nbits: nat)
    requires w < Pow2(nbits)
    ensures Consumed(e, w, nbits, 0) == e
  {
    DivModUnique(w, Pow2(nbits), 0, w);
  }

  lemma TailEnd(e: nat, w: nat, nbits: nat)
    ensures Consumed(e, w, nbits, nbits) == e * Pow2(nbits) + w
  {
    DivModUnique(w, 1, w, 0);
  }

  lemma TailExponent(e: nat, w: nat, nbits: nat, i: nat)
    requires i < nbits
    ensures Consumed(e, w, nbits, i + 1) == 2 * Consumed(e, w, nbits, i) + w / Pow2(nbits - i - 1) % 2
  {
    NextPrefix(w, nbits - i - 1);
    DoubledProduct(e, Pow2(i));
  }

  // ----- The whole exponentiation -----

  /** The window size for an exponent of i bits, capped by MBEDTLS_MPI_WINDOW_SIZE. */
  function WindowSize(i: nat, cap: nat): (wsize: nat)
    requires 0 < cap
    ensures 0 < wsize <= cap
  {
    var wsize := if i > 671 then 6 else if i > 239 then 5 else if i > 79 then 4 else if i > 23 then 3 else 1;
    if wsize > cap then cap else wsize
  }

  /** From the precomputed R^2 to the result, for a non-negative base. */
  method ExpModPositive(X: Mpi, A: Mpi, E: Mpi, N: Mpi, cache: Mpi?, W: seq<Mpi>, T: Mpi, mm: Limb, wsize: nat,
                        product: bool)
    requires X != E && cache != X && cache != A && cache != E && cache != N && cache !in W && cache != T
    requires 0 < wsize && 1 < |W| && Pow2(wsize) <= |W| && (forall i, j :: 0 <= i < j < |W| ==> W[i] != W[j])
    requires X !in W && A !in W && E !in W && N !in W && T !in W && T != A && T != E && T != N && T != X
    requires Ready(X, N, mm, T) && Ready(W[1], N, mm, T) && A.s == 1 && 0 < |A.p| && N.s == 1
    requires cache != null && |cache.p| > 0 ==> cache.s == 1 && Val(cache.p) == BP(|N.p|) * BP(|N.p|) % Val(N.p)
    modifies X, cache, W, T`p
    ensures X.s == 1 && Val(X.p) == Pow(old(Val(A.p)), Val(E.p)) % Val(N.p)
    ensures cache != null ==> cache.s == 1 && |cache.p| > 0 && Val(cache.p) == BP(|N.p|) * BP(|N.p|) % Val(N.p)
  {
    ghost var a := Val(A.p);
    var RR := SquaredRadix(N, cache, product);
    FirstPower(W[1], A, N, RR, mm, T, product);
    FormOfOne(X, N, RR, mm, T);
    if wsize > 1 {
      BuildTable(W, N, mm, T, wsize, a);
    } else {
      assert Pow(a, 1) == a;
    }
    PowersAndResult(X, E, W, N, mm, T, wsize, a);
  }

  method PowersAndResult(X: Mpi, E: Mpi, W: seq<Mpi>, N: Mpi, mm: Limb, T: Mpi, wsize: nat, ghost a: int)
    requires 0 < wsize && 1 < |W| && Pow2(wsize) <= |W| && E != X && E != T
    requires Ready(X, N, mm, T) && X !in W && T !in W && N !in W && TableHolds(W, wsize, Pow2(wsize), a, N)
    requires Holds(X, 1, N)
    modifies X`p, T`p
    ensures Val(X.p) == Pow(a, Val(E.p)) % Val(N.p)
  {
    var s;
    ghost var e, w;
    s, e, w := WindowLoop(X, E, W, N, mm, T, wsize, a);
    RemainingBits(X, W[1], N, mm, T, wsize, s, a, e, w, Val(E.p));
    ghost var x := Val(X.p);
    var ret := MontRed(X, N, mm, T);
    MontLeave(x, Pow(a, Val(E.p)), Val(X.p), BP(|N.p|), |N.p|, Val(N.p));
  }

  /** What mbedtls_mpi_exp_mod leaves in X: the power's residue of |a|, subtracted from n when a carries a
      minus sign and the exponent is odd. */
  ghost function ExpResult(sign: int, a: nat, e: nat, n: int): int
    requires n > 0
  {
    if sign == -1 && e % 2 == 1 then n - Pow(a, e) % n else Pow(a, e) % n
  }

  /** mbedtls_mpi_exp_mod: X <- A^E mod N, X and A possibly the same object; cap is MBEDTLS_MPI_WINDOW_SIZE
      and cache the optional R^2 mod N kept between calls. */
  method ExpMod(X: Mpi, A0: Mpi, E: Mpi, N: Mpi, cache: Mpi?, cap: nat, product: bool) returns (ret: Status)
    requires X != E && X != N && cache != X && cache != A0 && cache != E && cache != N && 0 < cap
    requires A0.Signed() && E.Signed() && N.Signed() && 0 < |A0.p|
    requires N.Value() > 0 && cache != null && |cache.p| > 0 ==>
      cache.s == 1 && Val(cache.p) == BP(|N.p|) * BP(|N.p|) % Val(N.p)
    modifies X, cache
    ensures ret == if N.Value() <= 0 || N.Value() % 2 == 0 || E.Value() < 0 then BadInputData else Ok
    ensures ret.Ok? ==> X.s == 1 && X.Value() == ExpResult(old(A0.s), old(Val(A0.p)), Val(E.p), N.Value())
    ensures ret.Ok? && cache != null ==>
      cache.s == 1 && |cache.p| > 0 && Val(cache.p) == BP(|N.p|) * BP(|N.p|) % Val(N.p)
    ensures !ret.Ok? ==> X.p == old(X.p) && X.s == old(X.s)
  {
    var nsign := CmpInt(N, 0);
    if nsign > 0 {
      ParityOfValue(N.p);
    }
    if nsign <= 0 || N.p[0] % 2 == 0 {
      return BadInputData;
    }
    var esign := CmpInt(E, 0);
    if esign < 0 {
      return BadInputData;
    }
    ExpModChecked(X, A0, E, N, cache, cap, product);
    return Ok;
  }

  /** The exponentiation proper, once the arguments have passed the checks. */
  method ExpModChecked(X: Mpi, A0: Mpi, E: Mpi, N: Mpi, cache: Mpi?, cap: nat, product: bool)
    requires X != E && X != N && cache != X && cache != A0 && cache != E && cache != N && 0 < cap
    requires A0.Signed() && N.s == 1 && 0 < |A0.p| && Val(N.p) % 2 == 1
    requires cache != null && |cache.p| > 0 ==> cache.s == 1 && Val(cache.p) == BP(|N.p|) * BP(|N.p|) % Val(N.p)
    modifies X, cache
    ensures X.s == 1 && X.Value() == ExpResult(old(A0.s), old(Val(A0.p)), Val(E.p), N.Value())
    ensures cache != null ==> cache.s == 1 && |cache.p| > 0 && Val(cache.p) == BP(|N.p|) * BP(|N.p|) % Val(N.p)
  {
    ParityOfValue(N.p);
    var mm := MontgInit(N);
    var bits := Bitlen(E);
    var wsize := WindowSize(bits, cap);
    var W, T := Workspace(N, cap, wsize);
    Grow(X, |N.p| + 1);
    var neg := A0.s == -1;
    var A := A0;
    if neg {
      A := new Mpi();
      Copy(A, A0);
      A.s := 1;
    }
    ExpModPositive(X, A, E, N, cache, W, T, mm, wsize, product);
    RestoreSign(X, N, E, neg);
  }

  /** The closing step: N - X for a negative base and an odd exponent. */
  method RestoreSign(X: Mpi, N: Mpi, E: Mpi, neg: bool)
    requires X != N && X != E && X.s == 1 && N.Signed()
    modifies X
    ensures X.Signed() && (N.s == 1 && 0 <= old(X.Value()) <= N.Value() ==> X.s == 1)
    ensures X.Value() == if neg && Val(E.p) % 2 == 1 then N.Value() - old(X.Value()) else old(X.Value())
  {
    ParityOfValue(E.p);
    if neg && |E.p| != 0 && E.p[0] % 2 != 0 {
      X.s := -1;
      var ret := AddMpi(X, N, X);
    }
  }

  lemma ParityOfValue(p: seq<Limb>)
    ensures Val(p) > 0 ==> |p| > 0
    ensures Val(p) % 2 == if |p| != 0 then p[0] % 2 else 0
  {
  }

  /** The zeroed table with W[1] grown, and the scratch buffer. */
  method Workspace(N: Mpi, cap: nat, wsize: nat) returns (W: seq<Mpi>, T: Mpi)
    requires 0 < wsize <= cap
    ensures 1 < |W| && Pow2(wsize) <= |W| && (forall i :: 0 <= i < |W| ==> fresh(W[i]))
    ensures forall i, j :: 0 <= i < j < |W| ==> W[i] != W[j]
    ensures fresh(T) && T !in W && |W[1].p| > |N.p| && |T.p| >= 2 * |N.p| + 2
  {
    Pow2Mono(wsize, cap);
    T := new Mpi();
    Grow(T, (|N.p| + 1) * 2);
    W := NewTable(2 * Pow2(cap));
    Grow(W[1], |N.p| + 1);
  }

  // ----- What the result means -----

  lemma {:induction false} NegativePow(a: int, e: nat)
    ensures Pow(-a, e) == if e % 2 == 1 then -Pow(a, e) else Pow(a, e)
  {
    if e != 0 {
      NegativePow(a, e - 1);
      NegatedProduct(a, Pow(a, e - 1));
    }
  }

  lemma NegatedProduct(a: int, p: int)
    ensures (-a) * p == -(a * p) && (-a) * (-p) == a * p
  {
  }

  /** The result is always congruent to the signed power and lies in [0, n]. It is the residue itself
      except for a minus sign with an odd exponent when n divides the power: then it is n. */
  lemma ExpResultExact(sign: int, a: nat, e: nat, n: int)
    requires n > 0 && (sign == 1 || sign == -1)
    ensures var v := Pow(sign * a, e); var x := ExpResult(sign, a, e, n);
      0 <= x <= n && Cong(x, v, n)
      && (x == v % n <==> !(sign == -1 && e % 2 == 1 && Pow(a, e) % n == 0))
  {
    NegativePow(a, e);
    var p, b: int := Pow(a, e), a;
    assert sign * a == if sign == 1 then b else -b;
    if sign == -1 && e % 2 == 1 {
      NegatedResidue(p, n);
    } else {
      ModCong(p, n);
    }
  }

  lemma NegatedResidue(p: int, n: int)
    requires n > 0
    ensures Cong(n - p % n, -p, n) && (n - p % n == -p % n <==> p % n != 0)
  {
    var q := p / n;
    assert n - p % n - (-p) == (q + 1) * n;
    CongIntro(n - p % n, -p, n, q + 1);
    if p % n != 0 {
      CongMod(n - p % n, -p, n);
    } else {
      assert -p == (-q) * n;
      DivModUnique(-p, n, -q, 0);
    }
  }

  /** A negative multiple of the modulus to the first power: 3 is returned for (-3)^1 mod 3. */
  lemma ExpResultFails()
    ensures ExpResult(-1, 3, 1, 3) == 3 != Pow(-3, 1) % 3
  {
    assert Pow(3, 1) == 3 && Pow(-3, 1) == -3;
    assert -3 == (-1) * 3;
  }
}
