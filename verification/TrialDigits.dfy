/** The two-by-one trial digits of long division, and the number they add up to when nothing corrects them. */
module TrialDigits {
  import opened Arith
  import opened Limbs

  /** Limb i of a number. */
  ghost function LimbOf(v: nat, i: nat): Limb {
    v / BP(i) % BASE
  }

  lemma LimbOfVal(p: seq<Limb>, i: nat)
    requires i < |p|
    ensures LimbOf(Val(p), i) == p[i]
  {
    ValSplit(p, i);
    ValBound(p[..i]);
    ValCons(p, i);
    MiddleDigit(Val(p), BP(i), Val(p[..i]), Val(p[i..]), p[i], Val(p[i + 1..]));
  }

  lemma MiddleDigit(v: nat, w: nat, lo: nat, hi: nat, d: Limb, rest: nat)
    requires v == lo + w * hi && lo < w && hi == d + BASE * rest
    ensures v / w % BASE == d
  {
    DivModUnique(v, w, hi, lo);
    DivModUnique(hi, BASE, rest, d);
  }

  /** The trial digit for two dividend limbs: all ones when the upper one is not below the divisor limb. */
  ghost function TwoByOne(hi: Limb, lo: Limb, d: Limb): (z: Limb) {
    if hi >= d then BASE - 1 else QuotientFits(hi, lo, d); (hi * BASE + lo) / d
  }

  lemma QuotientFits(hi: Limb, lo: Limb, d: Limb)
    requires hi < d
    ensures 0 <= (hi * BASE + lo) / d < BASE
  {
    var q := (hi * BASE + lo) / d;
    MulMono(hi + 1, d, BASE);
    if q >= BASE {
      MulMono(BASE, q, d);
    } else if q < 0 {
      MulMono(q, -1, d);
    }
  }

  /** The trial digit at place j for dividend x and divisor y, whose top limb is limb t. */
  ghost function TrialAt(x: nat, y: nat, t: nat, j: nat): Limb {
    TwoByOne(LimbOf(x, j + t + 1), LimbOf(x, j + t), LimbOf(y, t))
  }

  /** The trial digits below place j, all taken from the same dividend. */
  ghost function TrialSum(x: nat, y: nat, t: nat, j: nat): nat {
    if j == 0 then 0 else TrialSum(x, y, t, j - 1) + NatProduct(TrialAt(x, y, t, j - 1), BP(j - 1))
  }

  lemma {:induction false} TrialSumBound(x: nat, y: nat, t: nat, j: nat)
    ensures TrialSum(x, y, t, j) < BP(j)
  {
    if j > 0 {
      TrialSumBound(x, y, t, j - 1);
      NextPlace(TrialSum(x, y, t, j - 1), TrialAt(x, y, t, j - 1), BP(j - 1));
    }
  }

  lemma NextPlace(low: nat, d: Limb, w: nat)
    requires low < w
    ensures 0 <= d * w <= low + d * w < BASE * w
  {
    MulMono(0, d, w);
    MulMono(d + 1, BASE, w);
  }

  lemma DigitSplit(q: nat, j: nat)
    ensures q % BP(j + 1) == q % BP(j) + LimbOf(q, j) * BP(j)
  {
    var w, h := BP(j), q / BP(j);
    assert h / BASE * BASE + h % BASE == h;
    NextPlace(q % w, LimbOf(q, j), w);
    DigitParts(q, w, h, q % w, h / BASE, LimbOf(q, j));
    DivModUnique(q, BASE * w, h / BASE, q % w + LimbOf(q, j) * w);
  }

  lemma DigitParts(q: int, w: int, h: int, r: int, c: int, d: int)
    requires q == h * w + r && h == c * BASE + d
    ensures q == c * (BASE * w) + (r + d * w)
  {
    assert (c * BASE + d) * w == c * (BASE * w) + d * w;
  }

  /** The trial digits make up the low part of q exactly when each of them is q's digit at its place. */
  lemma {:induction false} TrialSumExact(x: nat, y: nat, t: nat, q: nat, j: nat)
    ensures TrialSum(x, y, t, j) == q % BP(j) <==> forall i :: 0 <= i < j ==> TrialAt(x, y, t, i) == LimbOf(q, i)
  {
    if j > 0 {
      var i := j - 1;
      TrialSumExact(x, y, t, q, i);
      TrialSumBound(x, y, t, i);
      DigitSplit(q, i);
      TopDigitFirst(TrialSum(x, y, t, i), TrialAt(x, y, t, i), q % BP(i), LimbOf(q, i), BP(i));
    }
  }

  lemma TopDigitFirst(r: nat, d: int, r': nat, d': int, w: nat)
    requires r < w && r' < w
    ensures r + d * w == r' + d' * w <==> r == r' && d == d'
  {
    if r + d * w == r' + d' * w {
      DivModUnique(r + d * w, w, d, r);
      DivModUnique(r + d * w, w, d', r');
    }
  }
}
