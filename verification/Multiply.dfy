/** The in-place multiply-accumulate loop and the schoolbook product built on it (HAC 14.12).

    The product loop and the sign assignment of mbedtls_mpi_mul_mpi are commented out in the source.
    The flag `product` selects the reading: false is the code as shipped, true the code with those
    lines restored. */
module Multiply {
  import opened Arith
  import opened Limbs
  import opened Mpis

  /** Whether the port has an eight-step MULADDC_HUIT; the proofs hold for either configuration. */
  const MULADDC_HUIT: bool

  // ----- One multiply-accumulate step -----

  lemma ProductRange(s: nat, b: nat, m: nat)
    requires s <= m && b <= m
    ensures 0 <= s * b <= m * m
  {
    MulMono(s, m, b);
    MulMono(b, m, m);
  }

  /** The generic MULADDC_CORE of bn_mul.h: the high half absorbs both carries without overflowing. */
  method MulAddWord(s: Limb, b: Limb, c: Limb, d: Limb) returns (c': Limb, d': Limb)
    ensures d' + c' * BASE == s * b + c + d
  {
    ProductRange(s, b, BASE - 1);
    c', d' := AddCarries(s * b, c, d);
  }

  /** The additions of the carry and of the target limb to the double-width product r. */
  method AddCarries(r: int, c: Limb, d: Limb) returns (c': Limb, d': Limb)
    requires 0 <= r <= (BASE - 1) * (BASE - 1)
    ensures d' + c' * BASE == r + c + d
  {
    var r0 := Wrap(r);
    var r1 := r / BASE;
    r0 := Wrap(r0 + c);
    r1 := r1 + if r0 < c then 1 else 0;
    r0 := Wrap(r0 + d);
    r1 := r1 + if r0 < d then 1 else 0;
    return r1, r0;
  }

  method MulAddCore(s: Limb, D: Mpi, j: nat, b: Limb, c0: Limb) returns (c: Limb)
    requires j < |D.p|
    modifies D`p
    ensures |D.p| == |old(D.p)| && D.p == old(D.p)[j := D.p[j]]
    ensures Val(D.p) + BP(j + 1) * c == old(Val(D.p)) + BP(j) * (s * b + c0)
  {
    ghost var p0 := D.p;
    var d: Limb;
    c, d := MulAddWord(s, b, c0, D.p[j]);
    D.p := D.p[j := d];
    WeightedUpdate(p0, j, d, s * b + c0, c);
  }

  lemma MulAddStep(v: int, v': int, w: int, b: int, c: int, c': int, x: int, rest: int, rest': int)
    requires v' + BASE * w * c' == v + w * (x * b + c) && rest == x + BASE * rest'
    ensures v' + BASE * w * (c' + b * rest') == v + w * (c + b * rest)
  {
    calc {
      v' + BASE * w * (c' + b * rest');
      { assert BASE * w * (b * rest') == w * (b * (BASE * rest')); }
      v + w * (x * b + c) + w * (b * (BASE * rest'));
      { assert x * b + b * (BASE * rest') == b * rest; }
      v + w * (c + b * rest);
    }
  }

  /** "Accumulator + carry and product still to come" while limb k of t is next. */
  ghost function Pending(p: seq<Limb>, off: nat, k: nat, c: nat, b: nat, t: seq<Limb>): nat
    requires k <= |t|
  {
    Val(p) + BP(off + k) * (c + b * Val(t[k..]))
  }

  /** count consecutive MULADDC_CORE steps: one iteration of an unrolled loop. */
  method MulAddRun(count: nat, t: seq<Limb>, k0: nat, D: Mpi, off: nat, b: Limb, c0: Limb) returns (c: Limb)
    requires k0 + count <= |t| && off + k0 + count <= |D.p|
    modifies D`p
    ensures |D.p| == |old(D.p)| && D.p[..off] == old(D.p)[..off]
    ensures Pending(D.p, off, k0 + count, c, b, t) == old(Pending(D.p, off, k0, c0, b, t))
  {
    c := c0;
    var k := k0;
    while k < k0 + count
      invariant k0 <= k <= k0 + count
      invariant |D.p| == |old(D.p)| && D.p[..off] == old(D.p)[..off]
      invariant Pending(D.p, off, k, c, b, t) == old(Pending(D.p, off, k0, c0, b, t))
    {
      ghost var v, c1 := Val(D.p), c;
      c := MulAddCore(t[k], D, off + k, b, c);
      ValCons(t, k);
      MulAddStep(v, Val(D.p), BP(off + k), b, c1, c, t[k], Val(t[k..]), Val(t[k + 1..]));
      k := k + 1;
    }
  }

  /** mpi_mul_hlp on the buffer window D[off..]: adds b * s[..n], unrolled by 16, 8 and 1 (or 8 and 1), then the carry.
      The carry stops inside D whenever the window has room for the sum. */
  method MulHlp(n: nat, s: seq<Limb>, D: Mpi, off: nat, b: Limb)
    requires n <= |s| && off + n < |D.p|
    requires Val(D.p[off..]) + b * Val(s[..n]) < BP(|D.p| - off)
    modifies D`p
    ensures |D.p| == |old(D.p)| && D.p[..off] == old(D.p)[..off]
    ensures Val(D.p[off..]) == old(Val(D.p[off..])) + b * Val(s[..n])
  {
    ghost var p0, x := D.p, b * Val(s[..n]);
    WindowRoom(D.p, off, x);
    var c := MulAddLoop(n, s[..n], D, off, b);
    CarryOut(D, off, n, c);
    WindowGain(p0, D.p, off, x);
  }

  lemma WindowRoom(p: seq<Limb>, off: nat, x: nat)
    requires off <= |p| && Val(p[off..]) + x < BP(|p| - off)
    ensures Val(p) + BP(off) * x < BP(|p|)
  {
    ValSplit(p, off);
    ValBound(p[..off]);
    BPAdd(off, |p| - off);
    WindowSum(Val(p), Val(p[..off]), BP(off), Val(p[off..]), x, BP(|p| - off));
  }

  lemma WindowSum(v: int, lo: int, w: int, hi: int, x: int, room: int)
    requires v == lo + w * hi && 0 <= lo < w && hi + x + 1 <= room
    ensures v + w * x < w * room
  {
    assert w * (hi + x + 1) == w * hi + w * x + w;
    MulMono(hi + x + 1, room, w);
  }

  lemma WindowGain(p: seq<Limb>, p': seq<Limb>, off: nat, x: nat)
    requires off <= |p| == |p'| && p'[..off] == p[..off] && Val(p') == Val(p) + BP(off) * x
    ensures Val(p'[off..]) == Val(p[off..]) + x
  {
    ValSplit(p, off);
    ValSplit(p', off);
    WindowCancel(BP(off), Val(p[off..]), Val(p'[off..]), x);
  }

  lemma WindowCancel(w: int, a: int, a': int, x: int)
    requires w > 0 && w * a' == w * a + w * x
    ensures a' == a + x
  {
    assert w * (a' - a - x) == 0;
    if a' - a - x >= 1 {
      MulMono(1, a' - a - x, w);
    } else if a' - a - x <= -1 {
      MulMono(a' - a - x, -1, w);
    }
  }

  /** One unrolled loop: width MULADDC_CORE steps a turn, while that many limbs are left. */
  method MulAddUnrolled(width: nat, i0: nat, t: seq<Limb>, D: Mpi, off: nat, b: Limb, c0: Limb)
    returns (i: nat, c: Limb)
    requires 0 < width && i0 <= |t| && off + |t| < |D.p|
    modifies D`p
    ensures i <= i0 && i < width && |D.p| == |old(D.p)| && D.p[..off] == old(D.p)[..off]
    ensures Pending(D.p, off, |t| - i, c, b, t) == old(Pending(D.p, off, |t| - i0, c0, b, t))
  {
    i, c := i0, c0;
    while i >= width
      invariant i <= i0 && |D.p| == |old(D.p)| && D.p[..off] == old(D.p)[..off]
      invariant Pending(D.p, off, |t| - i, c, b, t) == old(Pending(D.p, off, |t| - i0, c0, b, t))
    {
      c := MulAddRun(width, t, |t| - i, D, off, b, c);
      i := i - width;
    }
  }

  method MulAddLoop(n: nat, t: seq<Limb>, D: Mpi, off: nat, b: Limb) returns (c: Limb)
    requires n == |t| && off + n < |D.p|
    modifies D`p
    ensures Val(D.p) + BP(off + n) * c == old(Val(D.p)) + BP(off) * (b * Val(t))
    ensures |D.p| == |old(D.p)| && D.p[..off] == old(D.p)[..off]
  {
    assert t[0..] == t;
    var i := n;
    c := 0;
    if !MULADDC_HUIT {
      i, c := MulAddUnrolled(16, i, t, D, off, b, c);
    }
    i, c := MulAddUnrolled(8, i, t, D, off, b, c);
    i, c := MulAddUnrolled(1, i, t, D, off, b, c);
  }

  /** The trailing do-while: it always touches the limb above the product, and stops inside D. */
  method CarryOut(D: Mpi, off: nat, n: nat, c0: Limb)
    requires off + n < |D.p| && Val(D.p) + BP(off + n) * c0 < BP(|D.p|)
    modifies D`p
    ensures Val(D.p) == old(Val(D.p)) + BP(off + n) * c0
    ensures |D.p| == |old(D.p)| && D.p[..off] == old(D.p)[..off]
  {
    ghost var total := Val(D.p) + BP(off + n) * c0;
    var j, c := off + n, c0;
    var more := true;
    while more
      invariant off <= j <= |D.p| && |D.p| == |old(D.p)| && D.p[..off] == old(D.p)[..off]
      invariant Val(D.p) + BP(j) * c == total
      invariant more <==> j == off + n || c != 0
      decreases |D.p| - j
    {
      CarryRoom(Val(D.p), BP(j), c, total, |D.p|, j);
      ghost var p0, c1 := D.p, c;
      D.p := D.p[j := Wrap(D.p[j] as int + c as int)];
      c := if D.p[j] < c then 1 else 0;
      WeightedUpdate(p0, j, D.p[j], c1, c);
      j := j + 1;
      more := c != 0;
    }
  }

  lemma CarryRoom(v: nat, w: nat, c: nat, total: nat, n: nat, j: nat)
    requires v + w * c == total && total < BP(n) && w == BP(j) && j <= n
    ensures c != 0 ==> j < n
  {
    if c >= 1 {
      MulMono(1, c, w);
    }
  }

  // ----- Product -----

  lemma ProductStep(b: seq<Limb>, j: nat, j0: nat, a: nat, x: nat)
    requires j < j0 <= |b| && x == a * Val(b[j + 1..])
    ensures BASE * x + b[j] * a == a * Val(b[j..])
  {
    ValCons(b, j);
    assert a * (b[j] + BASE * Val(b[j + 1..])) == b[j] * a + BASE * x;
  }

  lemma PartialProductRoom(a: nat, b: seq<Limb>, i: nat, j: nat, j0: nat, n: nat)
    requires j <= j0 <= |b| && a < BP(i) && i + j0 <= n && (forall k :: j0 <= k < |b| ==> b[k] == 0)
    ensures a * Val(b[j..]) < BP(n - j)
  {
    ValTrim(b[j..], j0 - j);
    ValBound(b[j..][..j0 - j]);
    BPAdd(i, j0 - j);
    BPMono(i + j0 - j, n - j);
    MulMono(a, BP(i), Val(b[j..]));
    StrictProduct(Val(b[j..]), BP(j0 - j), BP(i));
  }

  /** Accumulates A times each limb of B into X, from the top limb down. */
  method ProductLoop(X: Mpi, A: Mpi, B: Mpi, i: nat, j0: nat)
    requires X != A && X != B && i == Sig(A.p) && j0 == Sig(B.p) && i + j0 <= |X.p| && 1 <= |X.p|
    requires forall k :: 0 <= k < |X.p| ==> X.p[k] == 0
    modifies X`p
    ensures Val(X.p) == Val(A.p) * Val(B.p) && |X.p| == |old(X.p)|
  {
    SigTop(A.p);
    SigTop(B.p);
    ghost var a, b := Val(A.p), B.p;
    ProductStart(X.p, b, j0);
    ValBound(A.p[..i]);
    var j := j0;
    while j > 0
      invariant 0 <= j <= j0 && |X.p| == |old(X.p)| && ProductSoFar(X.p, a, b, j)
    {
      j := j - 1;
      ProductReady(X.p, a, b, i, j, j0);
      ghost var p := X.p;
      MulHlp(i, A.p, X, j, B.p[j]);
      ZerosKept(p, X.p, j);
    }
    assert b[0..] == b && X.p[0..] == X.p;
  }

  /** The limbs of b from j on have been multiplied in, and the places below j are still clear. */
  ghost predicate ProductSoFar(x: seq<Limb>, a: nat, b: seq<Limb>, j: nat) {
    j <= |x| && j <= |b| && (forall k :: 0 <= k < j ==> x[k] == 0) && Val(x[j..]) == a * Val(b[j..])
  }

  lemma ProductStart(x: seq<Limb>, b: seq<Limb>, j0: nat)
    requires j0 <= |x| && j0 <= |b|
    requires (forall k :: 0 <= k < |x| ==> x[k] == 0) && (forall k :: j0 <= k < |b| ==> b[k] == 0)
    ensures forall a: nat :: ProductSoFar(x, a, b, j0)
  {
    ValZeros(b[j0..]);
    ValZeros(x[j0..]);
  }

  lemma ProductReady(x: seq<Limb>, a: nat, b: seq<Limb>, i: nat, j: nat, j0: nat)
    requires j < j0 <= |b| && a < BP(i) && i + j0 <= |x| && (forall k :: j0 <= k < |b| ==> b[k] == 0)
    requires ProductSoFar(x, a, b, j + 1)
    ensures Val(x[j..]) + b[j] * a == a * Val(b[j..]) < BP(|x| - j)
  {
    ValCons(x, j);
    ProductStep(b, j, j0, a, Val(x[j + 1..]));
    PartialProductRoom(a, b, i, j, j0, |x|);
  }

  lemma ZerosKept(p: seq<Limb>, p': seq<Limb>, j: nat)
    requires j <= |p| == |p'| && p'[..j] == p[..j] && forall k :: 0 <= k < j ==> p[k] == 0
    ensures forall k :: 0 <= k < j ==> p'[k] == 0
  {
    assert forall k :: 0 <= k < j ==> p'[k] == p'[..j][k] == p[..j][k];
  }

  /** An operand that is X itself is replaced by a copy. */
  method Apart(X: Mpi, A0: Mpi) returns (A: Mpi)
    requires A0.Signed()
    ensures A != X && A.Signed() && A.Value() == A0.Value() && (if A0 != X then A == A0 else fresh(A))
  {
    A := A0;
    if X == A {
      A := new Mpi();
      Copy(A, A0);
    }
  }

  method MulMpi(X: Mpi, A0: Mpi, B0: Mpi, product: bool)
    requires A0.Signed() && B0.Signed()
    modifies X
    ensures X.Signed() && X.Value() == if product then old(A0.Value()) * old(B0.Value()) else 0
    ensures !product ==> X.s == 1
    ensures product && X != A0 && X != B0 ==> X.s == A0.s * B0.s
    ensures |X.p| >= 1 && |X.p| >= |old(X.p)|
  {
    var A := Apart(X, A0);
    var B := Apart(X, B0);
    var i := SigLimbs(A.p);
    var j := SigLimbs(B.p);
    Grow(X, i + j);
    Lset(X, 0);
    if product {
      RestoredProduct(X, A, B, i, j);
    }
  }

  /** The two lines that the source comments out. */
  method RestoredProduct(X: Mpi, A: Mpi, B: Mpi, i: nat, j: nat)
    requires X != A && X != B && A.Signed() && B.Signed()
    requires i == Sig(A.p) && j == Sig(B.p) && i + j <= |X.p| && 1 <= |X.p|
    requires forall k :: 0 <= k < |X.p| ==> X.p[k] == 0
    modifies X
    ensures X.Signed() && X.s == A.s * B.s && X.Value() == A.Value() * B.Value() && |X.p| == |old(X.p)|
  {
    ProductLoop(X, A, B, i, j);
    X.s := A.s * B.s;
    SignRule(A.s, Val(A.p), B.s, Val(B.p));
  }

  lemma SignRule(s: int, v: int, t: int, w: int)
    requires (s == 1 || s == -1) && (t == 1 || t == -1)
    ensures (if s < 0 then -v else v) * (if t < 0 then -w else w) == if s * t < 0 then -(v * w) else v * w
    ensures s * t == 1 || s * t == -1
  {
  }

  method MulInt(X: Mpi, A: Mpi, b: Limb, product: bool)
    requires A.Signed()
    modifies X
    ensures X.Signed() && X.Value() == if product then old(A.Value()) * b else 0
    ensures !product ==> X.s == 1
    ensures product && X != A ==> X.s == A.s
    ensures |X.p| >= 1 && |X.p| >= |old(X.p)|
  {
    var B := new Mpi.Of(1, [b]);
    assert Val(B.p) == b;
    MulMpi(X, A, B, product);
  }
}
