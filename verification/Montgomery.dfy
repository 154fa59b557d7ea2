/** Montgomery initialisation, multiplication and reduction (HAC 14.36). */
module Montgomery {
  import opened Arith
  import opened Limbs
  import opened Mpis
  import opened AddSub
  import opened Multiply

  // ----- Initialisation: the negated inverse of an odd limb by Newton lifting -----

  /** mm is -1/m0 modulo the base. */
  ghost predicate IsMontgomeryInverse(mm: Limb, m0: Limb) {
    Cong(mm * m0, -1, BASE)
  }

  lemma FourBitTable(r: nat, e: nat)
    requires r < 16 && r % 2 == 1 && e == (r + 2) / 4 % 2
    ensures r * (r + 8 * e) % 16 == 1
  {
    assert r == 1 || r == 3 || r == 5 || r == 7 || r == 9 || r == 11 || r == 13 || r == 15;
  }

  lemma LowNibbles(m0: int, x: int, r: int, y: int)
    requires (m0 - r) % 16 == 0 && (x - y) % 16 == 0 && r * y % 16 == 1
    ensures Cong(m0 * x, 1, 16)
  {
    CongMul(m0, r, x, y, 16);
    CongTrans(m0 * x, r * y, 1, 16);
  }

  /** The starting value is an inverse to four bits. */
  lemma FourBits(m0: Limb, e: nat)
    requires m0 % 2 == 1 && e == (m0 + 2) % BASE / 4 % 2
    ensures Cong(m0 * Wrap(m0 + 8 * e), 1, 16)
  {
    StartNibbles(m0, e);
    FourBitTable(m0 % 16, e);
    LowNibbles(m0, Wrap(m0 + 8 * e), m0 % 16, m0 % 16 + 8 * e);
  }

  lemma StartNibbles(m0: Limb, e: nat)
    requires m0 % 2 == 1 && e == (m0 + 2) % BASE / 4 % 2
    ensures m0 % 16 % 2 == 1 && e == (m0 % 16 + 2) / 4 % 2
    ensures (m0 - m0 % 16) % 16 == 0 && (Wrap(m0 + 8 * e) - (m0 % 16 + 8 * e)) % 16 == 0
  {
    StartBit(m0, e);
    var q := (m0 + 8 * e) / BASE;
    assert Wrap(m0 + 8 * e) - (m0 % 16 + 8 * e) == 16 * (m0 / 16 - q * 0x1000_0000);
  }

  lemma StartBit(m0: Limb, e: nat)
    requires e == (m0 + 2) % BASE / 4 % 2
    ensures m0 % 2 == m0 % 16 % 2 && e == (m0 % 16 + 2) / 4 % 2
  {
    QuarterBit(m0 / 16, m0 % 16);
    if m0 + 2 < BASE {
      NoWrap(m0 + 2);
    } else {
      DivModUnique(m0 + 2, BASE, 1, m0 + 2 - BASE);
    }
  }

  lemma QuarterBit(h: int, l: nat)
    requires l < 16
    ensures (16 * h + l + 2) / 4 % 2 == (l + 2) / 4 % 2
  {
    var t := (l + 2) / 4;
    DivModUnique(16 * h + l + 2, 4, 4 * h + t, (l + 2) % 4);
    ParityKept(t, 2 * h);
  }

  lemma CongWeaken(a: int, b: int, m: int, c: int)
    requires m > 0 && c > 0 && m * c > 0 && Cong(a, b, m * c)
    ensures Cong(a, b, m)
  {
    var k := CongElim(a, b, m * c);
    assert k * (m * c) == k * c * m;
    CongIntro(a, b, m, k * c);
  }

  /** One Newton step doubles the number of correct bits. */
  lemma HenselStep(m0: int, x: int, x': int, m: int, c: int)
    requires m > 0 && c > 0 && m * m * c == BASE && Cong(m0 * x, 1, m)
    requires Cong(x', x * (2 - m0 * x), BASE)
    ensures m * m > 0 && Cong(m0 * x', 1, m * m)
  {
    assert m * m > 0;
    CongWeaken(x', x * (2 - m0 * x), m * m, c);
    CongRefl(m0, m * m);
    CongMul(m0, m0, x', x * (2 - m0 * x), m * m);
    var k := CongElim(m0 * x, 1, m);
    calc {
      m0 * (x * (2 - m0 * x));
      m0 * x * (2 - m0 * x);
      (1 + k * m) * (1 - k * m);
      1 - k * m * (k * m);
      { assert k * m * (k * m) == k * k * (m * m); }
      1 - k * k * (m * m);
    }
    assert m0 * (x * (2 - m0 * x)) - 1 == (-(k * k)) * (m * m);
    CongIntro(m0 * (x * (2 - m0 * x)), 1, m * m, -(k * k));
    CongTrans(m0 * x', m0 * (x * (2 - m0 * x)), 1, m * m);
  }

  /** Wrapping at each operation only changes the result by multiples of the base. */
  lemma WrappedNewton(m0: Limb, x: Limb)
    ensures Cong(Wrap(x * Wrap(2 - Wrap(m0 * x))), x * (2 - m0 * x), BASE)
  {
    var t := m0 * x;
    WrappedDifference(t);
    var u := Wrap(2 - Wrap(t));
    CongRefl(x, BASE);
    CongMul(x, x, u, 2 - t, BASE);
    ModCong(x * u, BASE);
    CongTrans(Wrap(x * u), x * u, x * (2 - t), BASE);
  }

  lemma WrappedDifference(t: int)
    ensures Cong(Wrap(2 - Wrap(t)), 2 - t, BASE)
  {
    CongRefl(2, BASE);
    ModCong(t, BASE);
    CongAdd(2, 2, t % BASE, t, BASE);
    ModCong(2 - t % BASE, BASE);
    CongTrans(Wrap(2 - Wrap(t)), 2 - Wrap(t), 2 - t, BASE);
  }

  /** mpi_montg_init */
  method MontgInit(N: Mpi) returns (mm: Limb)
    requires |N.p| > 0 && N.p[0] % 2 == 1
    ensures IsMontgomeryInverse(mm, N.p[0])
  {
    var m0 := N.p[0];
    var x: Limb := m0;
    x := Wrap(x + (m0 + 2) % BASE / 4 % 2 * 4 * 2);
    FourBits(m0, (m0 + 2) % BASE / 4 % 2);
    var i := BI_L;
    ghost var m := 16;
    while i >= 8
      invariant m > 0 && Cong(m0 * x, 1, m)
      invariant (i == 32 && m == 16) || (i == 16 && m == 0x100) || (i == 8 && m == 0x1_0000) || (i == 4 && m == BASE)
    {
      var x' := Wrap(x * Wrap(2 - Wrap(m0 * x)));
      WrappedNewton(m0, x);
      HenselStep(m0, x, x', m, if i == 32 then 0x100_0000 else if i == 16 then 0x1_0000 else 1);
      x := x';
      m := m * m;
      i := i / 2;
    }
    mm := Wrap(BASE - 1 - x + 1);
    NegatedInverse(m0, x, mm);
  }

  lemma NegatedInverse(m0: int, x: int, mm: int)
    requires Cong(m0 * x, 1, BASE) && (mm == BASE - x || (mm == 0 && x == 0))
    ensures Cong(mm * m0, -1, BASE)
  {
    var k := CongElim(m0 * x, 1, BASE);
    var e := if mm == 0 then 0 else 1;
    assert mm * m0 == e * m0 * BASE - m0 * x;
    CongIntro(mm * m0, -1, BASE, e * m0 - k);
  }

  // ----- Multiplication -----

  lemma LowLimb(s: seq<Limb>)
    requires |s| > 0
    ensures Cong(Val(s), s[0], BASE)
  {
    CongIntro(Val(s), s[0], BASE, Val(s[1..]));
  }

  /** The digit u1 makes the accumulated window divisible by the base. */
  lemma MontgomeryDigit(w: int, b: int, n: int, d0: Limb, b0: Limb, n0: Limb, u0: Limb, mm: Limb)
    requires Cong(w, d0, BASE) && Cong(b, b0, BASE) && Cong(n, n0, BASE) && IsMontgomeryInverse(mm, n0)
    ensures Cong(w + u0 * b + Wrap(Wrap(d0 + Wrap(u0 * b0)) * mm) * n, 0, BASE)
  {
    var t := Wrap(d0 + Wrap(u0 * b0));
    var u1 := Wrap(t * mm);
    DigitLow(w, b, d0, b0, u0, t);
    DigitHigh(n, n0, t, mm, u1);
    CongAdd(w + u0 * b, t, u1 * n, -t, BASE);
  }

  lemma DigitLow(w: int, b: int, d0: Limb, b0: Limb, u0: Limb, t: Limb)
    requires Cong(w, d0, BASE) && Cong(b, b0, BASE) && t == Wrap(d0 + Wrap(u0 * b0))
    ensures Cong(w + u0 * b, t, BASE)
  {
    CongRefl(u0, BASE);
    CongMul(u0, u0, b, b0, BASE);
    ModCong(u0 * b0, BASE);
    CongTrans(u0 * b, u0 * b0, Wrap(u0 * b0), BASE);
    CongAdd(w, d0, u0 * b, Wrap(u0 * b0), BASE);
    ModCong(d0 + Wrap(u0 * b0), BASE);
    CongTrans(w + u0 * b, d0 + Wrap(u0 * b0), t, BASE);
  }

  lemma DigitHigh(n: int, n0: Limb, t: int, mm: Limb, u1: Limb)
    requires Cong(n, n0, BASE) && IsMontgomeryInverse(mm, n0) && u1 == Wrap(t * mm)
    ensures Cong(u1 * n, -t, BASE)
  {
    ModCong(t * mm, BASE);
    CongMul(u1, t * mm, n, n0, BASE);
    CongRefl(t, BASE);
    CongMul(t, t, mm * n0, -1, BASE);
    assert t * mm * n0 == t * (mm * n0);
    CongTrans(u1 * n, t * mm * n0, -t, BASE);
  }

  /** One round keeps window * BASE^i = A[..i] * B + u * N and the bound window < N + B. */
  lemma MontgomeryRound(w: int, w2: int, p: int, va: int, u: int, u0: Limb, u1: Limb, b: int, n: int)
    requires w * p == va * b + u * n && w + u0 * b + u1 * n == BASE * w2
    requires 0 <= b && 0 <= n && w < n + b
    ensures w2 * (BASE * p) == (va + u0 * p) * b + (u + u1 * p) * n
    ensures w2 < n + b
  {
    calc {
      w2 * (BASE * p);
      (BASE * w2) * p;
      (w + u0 * b + u1 * n) * p;
      w * p + u0 * b * p + u1 * n * p;
      { assert u0 * b * p == u0 * p * b && u1 * n * p == u1 * p * n; }
      va * b + u * n + u0 * p * b + u1 * p * n;
      (va + u0 * p) * b + (u + u1 * p) * n;
    }
    MulMono(u0, BASE - 1, b);
    MulMono(u1, BASE - 1, n);
  }

  /** A window below 2 * BASE^n, plus two limb multiples, stays below BASE^(n+2). */
  lemma MontgomeryRoom(w: int, u0: Limb, u1: Limb, b: int, n: int, k: nat, l: nat)
    requires 0 <= b <= n < BP(k) && w < n + b && k + 2 <= l
    ensures w + u0 * b < BP(l) && w + u0 * b + u1 * n < BP(l) && n + b <= BP(k + 1)
  {
    BPMono(k + 2, l);
    LimbMultiples(w, u0, u1, b, n);
  }

  lemma LimbMultiples(w: int, u0: Limb, u1: Limb, b: int, n: int)
    requires 0 <= b <= n && w < n + b
    ensures w + u0 * b <= w + u0 * b + u1 * n < 2 * BASE * n
  {
    MulMono(u0, BASE - 1, b);
    MulMono(u1, BASE - 1, n);
    MulMono(0, u1, n);
  }

  /** Round i of the loop of mpi_montmul, on the window T[i..]. */
  method MontRound(T: Mpi, B: Mpi, N: Mpi, i: nat, m: nat, u0: Limb, mm: Limb) returns (ghost u1: Limb)
    requires T != B && T != N && i < |N.p| && |T.p| >= 2 * |N.p| + 2
    requires 0 < m <= |B.p| && m <= |N.p| && Val(B.p[..m]) == Val(B.p) <= Val(N.p)
    requires IsMontgomeryInverse(mm, N.p[0]) && Val(T.p[i..]) < Val(N.p) + Val(B.p)
    modifies T`p
    ensures |T.p| == |old(T.p)| && T.p[..i + 1] == old(T.p)[..i] + [u0]
    ensures BASE * Val(T.p[i + 1..]) == old(Val(T.p[i..])) + u0 * Val(B.p) + u1 * Val(N.p)
    ensures Val(T.p[i + 1..]) < Val(N.p) + Val(B.p)
  {
    var n := |N.p|;
    ghost var w, p0 := Val(T.p[i..]), T.p;
    ValBound(N.p);
    assert N.p[..n] == N.p;
    u1 := MontAccumulate(T, B, N, i, m, u0, mm);
    ghost var p1 := T.p;
    ValCons(p1, i);
    MontgomeryRoom(w, u0, u1, Val(B.p), Val(N.p), n, n + 2);
    MontgomeryRound(w, Val(p1[i + 1..]), 0, 0, 0, u0, u1, Val(B.p), Val(N.p));
    T.p := T.p[i := u0];
    WindowStored(p1, i, u0, n);
    T.p := T.p[i + n + 2 := 0];
  }

  /** Storing u0 below the window leaves the window alone, and the limb then cleared above it is clear already. */
  lemma WindowStored(p: seq<Limb>, i: nat, u0: Limb, n: nat)
    requires i + n + 2 < |p| && Val(p[i + 1..]) < BP(n + 1)
    ensures p[i := u0][i + n + 2 := 0] == p[i := u0]
    ensures p[i := u0][i + 1..] == p[i + 1..] && p[i := u0][..i + 1] == p[..i] + [u0]
  {
    ValSmall(p[i + 1..], n + 1);
    assert p[i + n + 2] == p[i + 1..][n + 1];
  }

  /** The two accumulations of a round: they leave the window's low limb zero. */
  method MontAccumulate(T: Mpi, B: Mpi, N: Mpi, i: nat, m: nat, u0: Limb, mm: Limb) returns (u1: Limb)
    requires T != B && T != N && i < |N.p| && |T.p| >= 2 * |N.p| + 2
    requires 0 < m <= |B.p| && m <= |N.p| && Val(B.p[..m]) == Val(B.p) <= Val(N.p)
    requires IsMontgomeryInverse(mm, N.p[0]) && Val(T.p[i..]) < Val(N.p) + Val(B.p)
    modifies T`p
    ensures |T.p| == |old(T.p)| && T.p[..i] == old(T.p)[..i] && T.p[i] == 0
    ensures Val(T.p[i..]) == old(Val(T.p[i..])) + u0 * Val(B.p) + u1 * Val(N.p)
  {
    u1 := MontDigit(T, B, N, i, u0, mm);
    ValBound(N.p);
    assert N.p[..|N.p|] == N.p;
    MontgomeryRoom(Val(T.p[i..]), u0, u1, Val(B.p), Val(N.p), |N.p|, |T.p| - i);
    MulHlp(m, B.p, T, i, u0);
    MulHlp(|N.p|, N.p, T, i, u1);
    ZeroLowLimb(T.p, i);
  }

  method MontDigit(T: Mpi, B: Mpi, N: Mpi, i: nat, u0: Limb, mm: Limb) returns (u1: Limb)
    requires i < |T.p| && 0 < |B.p| && 0 < |N.p| && IsMontgomeryInverse(mm, N.p[0])
    ensures Cong(Val(T.p[i..]) + u0 * Val(B.p) + u1 * Val(N.p), 0, BASE)
  {
    u1 := Wrap(Wrap(T.p[i] + Wrap(u0 * B.p[0])) * mm);
    LowLimb(T.p[i..]);
    LowLimb(B.p);
    LowLimb(N.p);
    MontgomeryDigit(Val(T.p[i..]), Val(B.p), Val(N.p), T.p[i], B.p[0], N.p[0], u0, mm);
  }

  lemma ZeroLowLimb(p: seq<Limb>, i: nat)
    requires i < |p| && Cong(Val(p[i..]), 0, BASE)
    ensures p[i] == 0
  {
    ValCons(p, i);
  }

  /** The n rounds: T ends as A in its low n limbs, and the reduced product from limb n up. */
  method MontLoop(A: Mpi, B: Mpi, N: Mpi, mm: Limb, T: Mpi) returns (ghost u: int)
    requires A != T && B != T && N != T && 0 < |N.p| && |T.p| >= 2 * |N.p| + 2 && |N.p| <= |A.p|
    requires 0 < |B.p| && IsMontgomeryInverse(mm, N.p[0]) && Val(B.p) <= Val(N.p)
    requires Val(T.p) == 0 && Val(N.p) > 0
    modifies T`p
    ensures |T.p| == |old(T.p)| && T.p[..|N.p|] == A.p[..|N.p|]
    ensures Val(T.p[|N.p|..]) * BP(|N.p|) == Val(A.p[..|N.p|]) * Val(B.p) + u * Val(N.p)
    ensures Val(T.p[|N.p|..]) < Val(N.p) + Val(B.p)
  {
    var n := |N.p|;
    var m := if |B.p| < n then |B.p| else n;
    OperandLimbs(B.p, N.p, m);
    u := 0;
    var i: nat := 0;
    assert T.p[0..] == T.p;
    while i < n
      invariant i <= n && |T.p| == |old(T.p)| && T.p[..i] == A.p[..i]
      invariant MontSoFar(Val(T.p[i..]), Val(A.p[..i]), i, u, Val(B.p), Val(N.p))
    {
      u := MontTurn(A, B, N, T, i, m, mm, u);
      i := i + 1;
    }
  }

  /** One turn of the loop: round i, with the quotient u so far. */
  method MontTurn(A: Mpi, B: Mpi, N: Mpi, T: Mpi, i: nat, m: nat, mm: Limb, ghost u: int) returns (ghost u': int)
    requires A != T && B != T && N != T && i < |N.p| <= |A.p| && |T.p| >= 2 * |N.p| + 2
    requires 0 < m <= |B.p| && m <= |N.p| && Val(B.p[..m]) == Val(B.p) <= Val(N.p)
    requires IsMontgomeryInverse(mm, N.p[0]) && T.p[..i] == A.p[..i]
    requires MontSoFar(Val(T.p[i..]), Val(A.p[..i]), i, u, Val(B.p), Val(N.p))
    modifies T`p
    ensures |T.p| == |old(T.p)| && T.p[..i + 1] == A.p[..i + 1]
    ensures MontSoFar(Val(T.p[i + 1..]), Val(A.p[..i + 1]), i + 1, u', Val(B.p), Val(N.p))
  {
    ghost var w := Val(T.p[i..]);
    ghost var u1 := MontRound(T, B, N, i, m, A.p[i], mm);
    ValSnoc(A.p, i);
    MontNext(w, Val(T.p[i + 1..]), Val(A.p[..i]), A.p[i], i, u, u1, Val(B.p), Val(N.p));
    assert A.p[..i + 1] == A.p[..i] + [A.p[i]];
    u' := u + u1 * BP(i);
  }

  /** After i rounds the window w is the product of A's i low limbs, of value va, and B, up to a multiple u of N. */
  ghost predicate MontSoFar(w: int, va: int, i: nat, u: int, b: int, n: int) {
    w * BP(i) == va * b + u * n && w < n + b
  }

  lemma MontNext(w: int, w2: int, va: int, u0: Limb, i: nat, u: int, u1: Limb, b: int, n: int)
    requires 0 <= b && 0 <= n && MontSoFar(w, va, i, u, b, n) && BASE * w2 == w + u0 * b + u1 * n
    ensures MontSoFar(w2, va + u0 * BP(i), i + 1, u + u1 * BP(i), b, n)
  {
    MontgomeryRound(w, w2, BP(i), va, u, u0, u1, b, n);
  }

  /** The multiplier's low m limbs carry its whole value: it does not exceed N. */
  lemma OperandLimbs(b: seq<Limb>, n: seq<Limb>, m: nat)
    requires Val(b) <= Val(n) && m == if |b| < |n| then |b| else |n|
    ensures Val(b[..m]) == Val(b)
  {
    ValBound(n);
    if |b| < |n| {
      assert b[..m] == b;
    } else {
      ValSmall(b, m);
    }
  }

  /** A <- T[n..2n+1): the copy loses nothing of the window. */
  lemma CopiedWindow(a: seq<Limb>, t: seq<Limb>, n: nat, vn: nat, vb: nat)
    requires n + 1 <= |a| && 2 * n + 2 <= |t| && Val(a) < BP(n) && vb <= vn < BP(n)
    requires Val(t[n..]) < vn + vb
    ensures Val(t[n..2 * n + 1] + a[n + 1..]) == Val(t[n..])
    ensures Val(a[..n]) == Val(a)
  {
    var r := t[n..2 * n + 1] + a[n + 1..];
    ValSmall(a, n);
    ValTrim(r, n + 1);
    ValSmall(t[n..], n + 1);
    assert r[..n + 1] == t[n..][..n + 1];
  }

  /** T is then old A plus new A times BASE^n, which covers the balancing subtraction of new A. */
  lemma BalancingRoom(t: seq<Limb>, a: seq<Limb>, n: nat)
    requires n <= |t| && n <= |a| && Val(t[n..]) == Val(a) < BP(n)
    ensures Val(t) == Val(t[..n]) + BP(n) * Val(a)
    ensures Val(a[..n]) == Val(a) <= Val(t)
  {
    ValSplit(t, n);
    ValSmall(a, n);
    MulMono(1, BP(n), Val(a));
  }

  lemma ReducedProduct(w: int, r: int, ab: int, u: int, n: int, q: int)
    requires n > 0 && w * r == ab + u * n
    ensures Cong((w - q * n) * r, ab, n)
  {
    assert (w - q * n) * r == w * r - q * r * n;
    CongIntro((w - q * n) * r, ab, n, u - q * r);
  }

  /** mpi_montmul: A <- A * B * BASE^-n mod N. A and B may be the same object. */
  method MontMul(A: Mpi, B: Mpi, N: Mpi, mm: Limb, T: Mpi) returns (ret: Status)
    requires A != N && A != T && B != T && N != T
    requires 0 < |N.p| < |A.p| && 0 < |B.p| && IsMontgomeryInverse(mm, N.p[0])
    requires Val(A.p) < Val(N.p) && Val(B.p) <= Val(N.p)
    requires |T.p| < |N.p| + 1 || |T.p| >= 2 * |N.p| + 2
    modifies A`p, T`p
    ensures ret == if |old(T.p)| < |N.p| + 1 then BadInputData else Ok
    ensures |A.p| == |old(A.p)| && |T.p| == |old(T.p)| && Val(A.p) < Val(N.p)
    ensures ret.Ok? ==> Cong(Val(A.p) * BP(|N.p|), old(Val(A.p)) * old(Val(B.p)), Val(N.p))
    ensures !ret.Ok? ==> A.p == old(A.p)
  {
    if |T.p| < |N.p| + 1 {
      return BadInputData;
    }
    var n := |N.p|;
    ghost var vn, a := Val(N.p), A.p;
    T.p := Zeros(|T.p|);
    ValZeros(T.p);
    ValBound(N.p);
    ghost var u := MontLoop(A, B, N, mm, T);
    ghost var w, ab := Val(T.p[n..]), Val(A.p) * Val(B.p);
    CopiedWindow(A.p, T.p, n, vn, Val(B.p));
    A.p := T.p[n..2 * n + 1] + A.p[n + 1..];
    FinalSubtract(A, N, T);
    ReducedProduct(w, BP(n), ab, u, vn, if w >= vn then 1 else 0);
    return Ok;
  }

  /** The closing subtraction, from A when it is not below N, and else a balancing one from T. */
  method FinalSubtract(A: Mpi, N: Mpi, T: Mpi)
    requires A != N && A != T && N != T && |N.p| <= |A.p| && |N.p| <= |T.p|
    requires Val(A.p) < 2 * Val(N.p) && Val(T.p[|N.p|..]) == Val(A.p)
    modifies A`p, T`p
    ensures |A.p| == |old(A.p)| && |T.p| == |old(T.p)| && Val(A.p) < Val(N.p)
    ensures Val(A.p) == old(Val(A.p)) - (if old(Val(A.p)) >= Val(N.p) then 1 else 0) * Val(N.p)
  {
    var n := |N.p|;
    assert N.p[..n] == N.p;
    ValBound(N.p);
    var cmp := CmpAbs(A, N);
    if cmp >= 0 {
      SubHlp(n, N.p, A);
    } else {
      BalancingRoom(T.p, A.p, n);
      SubHlp(n, A.p, T);
    }
  }

  /** mpi_montred: A <- A * BASE^-n mod N. */
  method MontRed(A: Mpi, N: Mpi, mm: Limb, T: Mpi) returns (ret: Status)
    requires A != N && A != T && N != T
    requires 0 < |N.p| < |A.p| && IsMontgomeryInverse(mm, N.p[0]) && Val(A.p) < Val(N.p)
    requires |T.p| < |N.p| + 1 || |T.p| >= 2 * |N.p| + 2
    modifies A`p, T`p
    ensures ret == if |old(T.p)| < |N.p| + 1 then BadInputData else Ok
    ensures |A.p| == |old(A.p)| && |T.p| == |old(T.p)| && Val(A.p) < Val(N.p)
    ensures ret.Ok? ==> Cong(Val(A.p) * BP(|N.p|), old(Val(A.p)), Val(N.p))
    ensures !ret.Ok? ==> A.p == old(A.p)
  {
    var U := new Mpi.Of(1, [1]);
    assert Val(U.p) == 1;
    ret := MontMul(A, U, N, mm, T);
  }
}
