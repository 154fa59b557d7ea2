/** Addition and subtraction, unsigned (HAC 14.7 and 14.9) and signed, under every aliasing of the operands. */
module AddSub {
  import opened Arith
  import opened Limbs
  import opened Mpis

  // ----- One limb -----

  /** Two wrapping additions and their carry tests add x + c + o exactly. */
  lemma LimbAdd(x: Limb, c: nat, o: Limb)
    requires c <= 1
    ensures var x1 := Wrap(x + c); var c1 := if x1 < c then 1 else 0;
            var x2 := Wrap(x1 + o); var c2 := c1 + if x2 < o then 1 else 0;
            c2 <= 1 && x2 + c2 * BASE == x + c + o
  {
  }

  /** Two wrapping subtractions and their borrow tests subtract c + o exactly. */
  lemma LimbSub(d: Limb, c: nat, o: Limb)
    requires c <= 1
    ensures var z := if d < c then 1 else 0; var d1 := Wrap(d - c);
            var c1 := (if d1 < o then 1 else 0) + z; var d2 := Wrap(d1 - o);
            c1 <= 1 && d2 - c1 * BASE == d - c - o
  {
  }

  /** "Value + weight * (carry + operand still to add)" is kept when a limb is consumed. */
  lemma CarryStep(v: int, v': int, w: int, c: int, c': int, o: int, rest: int, rest': int)
    requires v' + BASE * w * c' == v + w * (c + o) && rest == o + BASE * rest'
    ensures v' + BASE * w * (c' + rest') == v + w * (c + rest)
  {
    calc {
      v' + BASE * w * (c' + rest');
      v + w * (c + o) + w * (BASE * rest');
      v + w * (c + rest);
    }
  }

  lemma BorrowStep(v: int, v': int, w: int, c: int, c': int, o: int, rest: int, rest': int)
    requires v' - BASE * w * c' == v - w * (c + o) && rest == o + BASE * rest'
    ensures v' - BASE * w * (c' + rest') == v - w * (c + rest)
  {
    calc {
      v' - BASE * w * (c' + rest');
      v - w * (c + o) - w * (BASE * rest');
      v - w * (c + rest);
    }
  }

  lemma WeightedBorrow(s: seq<Limb>, i: nat, x: Limb, d: int, c: int)
    requires i < |s| && x - c * BASE == s[i] - d
    ensures Val(s[i := x]) - BP(i + 1) * c == Val(s) - BP(i) * d
  {
    ValUpdate(s, i, x);
    calc {
      (x - s[i]) * BP(i) - BASE * BP(i) * c;
      (x - s[i] - c * BASE) * BP(i);
      (0 - d) * BP(i);
      0 - BP(i) * d;
    }
  }

  /** Adds the carry and the operand limb o, read beforehand, to limb i, with two overflow tests. */
  method AddLimb(X: Mpi, i: nat, c0: nat, o: Limb) returns (c: nat)
    requires i < |X.p| && c0 <= 1
    modifies X`p
    ensures |X.p| == |old(X.p)| && c <= 1 && X.p == old(X.p)[i := X.p[i]]
    ensures Val(X.p) + BP(i + 1) * c == old(Val(X.p)) + BP(i) * (c0 + o)
  {
    ghost var p0 := X.p;
    LimbAdd(X.p[i], c0, o);
    X.p := X.p[i := Wrap(X.p[i] + c0)];
    c := if X.p[i] < c0 then 1 else 0;
    X.p := X.p[i := Wrap(X.p[i] + o)];
    c := c + if X.p[i] < o then 1 else 0;
    assert X.p == p0[i := X.p[i]];
    WeightedUpdate(p0, i, X.p[i], c0 + o, c);
  }

  /** Subtracts the borrow and the operand limb o from limb i, with two underflow tests. */
  method SubLimb(D: Mpi, i: nat, c0: nat, o: Limb) returns (c: nat)
    requires i < |D.p| && c0 <= 1
    modifies D`p
    ensures |D.p| == |old(D.p)| && c <= 1
    ensures Val(D.p) - BP(i + 1) * c == old(Val(D.p)) - BP(i) * (c0 + o)
  {
    ghost var p0 := D.p;
    LimbSub(D.p[i], c0, o);
    var z := if D.p[i] < c0 then 1 else 0;
    D.p := D.p[i := Wrap(D.p[i] - c0)];
    c := (if D.p[i] < o then 1 else 0) + z;
    D.p := D.p[i := Wrap(D.p[i] - o)];
    assert D.p == p0[i := D.p[i]];
    WeightedBorrow(p0, i, D.p[i], c0 + o, c);
  }

  // ----- Unsigned -----

  method AddAbs(X: Mpi, A0: Mpi, B0: Mpi)
    modifies X
    ensures Val(X.p) == old(Val(A0.p)) + old(Val(B0.p)) && X.s == 1
    ensures old(|A0.p|) > 0 || X == A0 || X == B0 ==> |X.p| >= |old(X.p)|
  {
    var A, B := A0, B0;
    if X == B {
      A, B := X, A;
    }
    ghost var b := B.p;
    ghost var total := Val(A.p) + Val(b);
    if X != A {
      Copy(X, A);
    }
    X.s := 1;
    var j := SigLimbs(B.p);
    SigTop(B.p);
    Grow(X, j);
    assert B.p[..j] == b[..j];
    var c: nat := AddLoop(X, B, j, b[..j]);
    CarryLoop(X, j, c, total);
  }

  /** The sum still to be formed while limb i is next and c is the carry. */
  ghost function PendingSum(p: seq<Limb>, i: nat, c: nat, b: seq<Limb>): nat
    requires i <= |b|
  {
    Val(p) + BP(i) * (c + Val(b[i..]))
  }

  /** The limb loop of AddAbs: B may be X itself, so each limb is read before it is overwritten. */
  method AddLoop(X: Mpi, B: Mpi, j: nat, ghost b: seq<Limb>) returns (c: nat)
    requires j == |b| <= |B.p| && j <= |X.p| && B.p[..j] == b
    modifies X`p
    ensures c <= 1 && Val(X.p) + BP(j) * c == old(Val(X.p)) + Val(b) && |X.p| == |old(X.p)|
  {
    c := 0;
    var i: nat := 0;
    assert b[0..] == b;
    while i < j
      invariant i <= j <= |B.p| && c <= 1 && |X.p| == |old(X.p)|
      invariant forall k :: i <= k < j ==> B.p[k] == b[k]
      invariant PendingSum(X.p, i, c, b) == old(Val(X.p)) + Val(b)
    {
      var tmp := B.p[i];
      c := AddOperandLimb(X, i, c, tmp, b);
      i := i + 1;
    }
  }

  method AddOperandLimb(X: Mpi, i: nat, c0: nat, tmp: Limb, ghost b: seq<Limb>) returns (c: nat)
    requires i < |X.p| && i < |b| && tmp == b[i] && c0 <= 1
    modifies X`p
    ensures c <= 1 && |X.p| == |old(X.p)| && X.p == old(X.p)[i := X.p[i]]
    ensures PendingSum(X.p, i + 1, c, b) == old(PendingSum(X.p, i, c0, b))
  {
    ghost var v := Val(X.p);
    c := AddLimb(X, i, c0, tmp);
    ValCons(b, i);
    CarryStep(v, Val(X.p), BP(i), c0, c, tmp, Val(b[i..]), Val(b[i + 1..]));
  }

  /** Propagation of the last carry, growing X by one limb when it runs off the end. */
  method CarryLoop(X: Mpi, i0: nat, c0: nat, ghost total: nat)
    requires i0 <= |X.p| && c0 <= 1 && Val(X.p) + BP(i0) * c0 == total
    modifies X`p
    ensures Val(X.p) == total && |X.p| >= |old(X.p)|
  {
    var i: nat, c: nat := i0, c0;
    while c != 0
      invariant i <= |X.p| && c <= 1 && |X.p| >= |old(X.p)|
      invariant Val(X.p) + BP(i) * c == total
      decreases c, |X.p| - i
    {
      if i >= |X.p| {
        Grow(X, i + 1);
      }
      ghost var p0, c1 := X.p, c;
      LimbAdd(X.p[i], c, 0);
      X.p := X.p[i := Wrap(X.p[i] + c)];
      c := if X.p[i] < c then 1 else 0;
      WeightedUpdate(p0, i, X.p[i], c1, c);
      i := i + 1;
    }
  }

  /** mpi_sub_hlp: subtracts the low n limbs of s from D in place; the borrow dies inside D. */
  method SubHlp(n: nat, s: seq<Limb>, D: Mpi)
    requires n <= |s| && n <= |D.p| && Val(s[..n]) <= Val(D.p)
    modifies D`p
    ensures Val(D.p) == old(Val(D.p)) - Val(s[..n]) && |D.p| == |old(D.p)|
  {
    var c := SubLoop(n, s, D);
    BorrowLoop(n, c, D);
  }

  method SubLoop(n: nat, s: seq<Limb>, D: Mpi) returns (c: nat)
    requires n <= |s| && n <= |D.p|
    modifies D`p
    ensures c <= 1 && Val(D.p) - BP(n) * c == old(Val(D.p)) - Val(s[..n]) && |D.p| == |old(D.p)|
  {
    ghost var t := s[..n];
    var i: nat := 0;
    c := 0;
    assert t[0..] == t;
    while i < n
      invariant i <= n && c <= 1 && |D.p| == |old(D.p)|
      invariant Val(D.p) - BP(i) * (c + Val(t[i..])) == old(Val(D.p)) - Val(t)
    {
      ghost var v, c0 := Val(D.p), c;
      c := SubLimb(D, i, c, s[i]);
      ValCons(t, i);
      BorrowStep(v, Val(D.p), BP(i), c0, c, s[i], Val(t[i..]), Val(t[i + 1..]));
      i := i + 1;
    }
  }

  method BorrowLoop(i0: nat, c0: nat, D: Mpi)
    requires i0 <= |D.p| && c0 <= 1 && BP(i0) * c0 <= Val(D.p)
    modifies D`p
    ensures Val(D.p) == old(Val(D.p)) - BP(i0) * c0 && |D.p| == |old(D.p)|
  {
    ghost var goal: nat := Val(D.p) - BP(i0) * c0;
    var i: nat, c: nat := i0, c0;
    while c != 0
      invariant i <= |D.p| && c <= 1 && |D.p| == |old(D.p)|
      invariant Val(D.p) - BP(i) * c == goal
      decreases |D.p| - i
    {
      ValBound(D.p);
      ghost var p0, c1 := D.p, c;
      LimbSub(D.p[i], c, 0);
      var z := if D.p[i] < c then 1 else 0;
      D.p := D.p[i := Wrap(D.p[i] - c)];
      c := z;
      i := i + 1;
      WeightedBorrow(p0, i - 1, D.p[i - 1], c1, c);
    }
  }

  method SubAbs(X: Mpi, A: Mpi, B0: Mpi) returns (ret: Status)
    modifies X
    ensures ret == if old(Val(A.p)) < old(Val(B0.p)) then NegativeValue else Ok
    ensures ret.Ok? ==> Val(X.p) == old(Val(A.p)) - old(Val(B0.p)) && X.s == 1
    ensures !ret.Ok? ==> X.p == old(X.p) && X.s == old(X.s)
    ensures old(|A.p|) > 0 || X == A ==> |X.p| >= |old(X.p)|
  {
    var cmp := CmpAbs(A, B0);
    if cmp < 0 {
      return NegativeValue;
    }
    var B := B0;
    if X == B {
      var TB := new Mpi();
      Copy(TB, B);
      B := TB;
    }
    if X != A {
      Copy(X, A);
    }
    X.s := 1;
    var n := SigLimbs(B.p);
    EnoughLimbs(B.p, X.p);
    SubHlp(n, B.p, X);
    return Ok;
  }

  /** The significant limbs of a smaller number fit into the limbs of a larger one. */
  lemma EnoughLimbs(b: seq<Limb>, x: seq<Limb>)
    requires Val(b) <= Val(x)
    ensures Sig(b) <= |x| && Val(b[..Sig(b)]) == Val(b)
  {
    SigTop(b);
    ValBound(x);
    if Sig(b) > |x| {
      BPMono(|x|, Sig(b) - 1);
    }
  }

  // ----- Signed -----

  method AddMpi(X: Mpi, A: Mpi, B: Mpi) returns (ret: Status)
    requires A.Signed() && B.Signed()
    modifies X
    ensures ret == Ok && X.Signed() && X.Value() == old(A.Value()) + old(B.Value())
    ensures X.s == if old(A.s) == old(B.s) || old(Val(A.p)) >= old(Val(B.p)) then old(A.s) else -old(A.s)
    ensures old(|A.p|) > 0 && old(|B.p|) > 0 ==> |X.p| >= |old(X.p)|
  {
    var s := A.s;
    if A.s * B.s < 0 {
      var cmp := CmpAbs(A, B);
      if cmp >= 0 {
        ret := SubAbs(X, A, B);
        X.s := s;
      } else {
        ret := SubAbs(X, B, A);
        X.s := -s;
      }
    } else {
      AddAbs(X, A, B);
      X.s := s;
      ret := Ok;
    }
  }

  method SubMpi(X: Mpi, A: Mpi, B: Mpi) returns (ret: Status)
    requires A.Signed() && B.Signed()
    modifies X
    ensures ret == Ok && X.Signed() && X.Value() == old(A.Value()) - old(B.Value())
    ensures X.s == if old(A.s) != old(B.s) || old(Val(A.p)) >= old(Val(B.p)) then old(A.s) else -old(A.s)
    ensures old(A.s) == 1 && old(B.s) == 1 && old(Val(B.p)) <= old(Val(A.p)) ==> X.s == 1
    ensures old(|A.p|) > 0 && old(|B.p|) > 0 ==> |X.p| >= |old(X.p)|
  {
    var s := A.s;
    if A.s * B.s > 0 {
      var cmp := CmpAbs(A, B);
      if cmp >= 0 {
        ret := SubAbs(X, A, B);
        X.s := s;
      } else {
        ret := SubAbs(X, B, A);
        X.s := -s;
      }
    } else {
      AddAbs(X, A, B);
      X.s := s;
      ret := Ok;
    }
  }

  method AddInt(X: Mpi, A: Mpi, b: int) returns (ret: Status)
    requires A.Signed() && -0x8000_0000 <= b < 0x8000_0000
    modifies X
    ensures ret == Ok && X.Signed() && X.Value() == old(A.Value()) + b
    ensures old(A.s) == 1 && b >= 0 ==> X.s == 1
  {
    var B := new Mpi.Of(if b < 0 then -1 else 1, [if b < 0 then -b else b]);
    assert Val(B.p) == B.p[0];
    ret := AddMpi(X, A, B);
  }

  method SubInt(X: Mpi, A: Mpi, b: int) returns (ret: Status)
    requires A.Signed() && -0x8000_0000 <= b < 0x8000_0000
    modifies X
    ensures ret == Ok && X.Signed() && X.Value() == old(A.Value()) - b
    ensures old(A.s) == -1 && b >= 0 ==> X.s == -1
    ensures old(A.s) == 1 && 0 <= b <= old(A.Value()) ==> X.s == 1
  {
    var B := new Mpi.Of(if b < 0 then -1 else 1, [if b < 0 then -b else b]);
    assert Val(B.p) == B.p[0];
    ret := SubMpi(X, A, B);
  }
}
