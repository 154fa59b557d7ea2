/** Little-endian sequences of 32-bit limbs and the natural numbers they denote. */
module Limbs {
  import opened Arith

  /** Bits in a limb, bits in half a limb, bytes in a limb. */
  const BI_L: nat := 32
  const BI_H: nat := 16
  const CI_L: nat := 4

  const BASE: int := U32
  const HALF: int := 0x1_0000

  type Limb = Word

  function Wrap(x: int): Limb { x % BASE }

  /** Right shift of one limb by k < 32 bits. */
  function Shr(x: Limb, k: nat): (r: Limb)
    ensures r == x / Pow2(k)
  {
    DivBound(x, Pow2(k));
    x / Pow2(k)
  }

  lemma NoWrap(x: int)
    requires 0 <= x < BASE
    ensures x % BASE == x
  {
  }

  lemma DivBound(x: nat, d: nat)
    requires d > 0
    ensures 0 <= x / d <= x
  {
    var q := x / d;
    assert q * d <= x;
    if q < 0 {
      MulMono(q, -1, d);
    } else {
      MulMono(1, d, q);
    }
  }

  /** The number denoted by a limb sequence, least significant limb first. */
  ghost function Val(s: seq<Limb>): nat {
    if |s| == 0 then 0 else s[0] + BASE * Val(s[1..])
  }

  /** BASE to the power i. */
  ghost function BP(i: nat): (r: nat)
    ensures r >= 1
  {
    if i == 0 then 1 else BASE * BP(i - 1)
  }

  function Zeros(n: nat): (s: seq<Limb>)
    ensures |s| == n && forall i :: 0 <= i < n ==> s[i] == 0
  {
    seq(n, _ => 0)
  }

  // ----- Powers of the base -----

  lemma {:induction false} BPPow2(i: nat)
    ensures BP(i) == Pow2(32 * i)
  {
    if i != 0 {
      BPPow2(i - 1);
      Pow2Values();
      Pow2Add(32, 32 * (i - 1));
    }
  }

  lemma {:induction false} BPAdd(a: nat, b: nat)
    ensures BP(a + b) == BP(a) * BP(b)
  {
    if a != 0 {
      BPAdd(a - 1, b);
      assert BASE * (BP(a - 1) * BP(b)) == BP(a) * BP(b);
    }
  }

  lemma {:induction false} BPMono(a: nat, b: nat)
    requires a <= b
    ensures BP(a) <= BP(b)
    ensures a < b ==> BASE * BP(a) <= BP(b)
  {
    if a < b {
      BPMono(a, b - 1);
    }
  }

  // ----- Values -----

  lemma {:induction false} ValBound(s: seq<Limb>)
    ensures Val(s) < BP(|s|)
  {
    if |s| != 0 {
      ValBound(s[1..]);
    }
  }

  lemma {:induction false} ValAppend(a: seq<Limb>, b: seq<Limb>)
    ensures Val(a + b) == Val(a) + BP(|a|) * Val(b)
  {
    if |a| == 0 {
      assert a + b == b;
    } else {
      assert (a + b)[1..] == a[1..] + b;
      ValAppend(a[1..], b);
      assert BASE * (BP(|a| - 1) * Val(b)) == BP(|a|) * Val(b);
    }
  }

  lemma ValSplit(s: seq<Limb>, i: nat)
    requires i <= |s|
    ensures Val(s) == Val(s[..i]) + BP(i) * Val(s[i..])
  {
    assert s == s[..i] + s[i..];
    ValAppend(s[..i], s[i..]);
  }

  /** Storing one limb changes the value by the difference at that limb's weight. */
  lemma {:induction false} ValUpdate(s: seq<Limb>, i: nat, v: Limb)
    requires i < |s|
    ensures Val(s[i := v]) == Val(s) + (v - s[i]) * BP(i)
  {
    if i == 0 {
      assert s[0 := v][1..] == s[1..];
    } else {
      assert s[i := v][1..] == s[1..][i - 1 := v];
      ValUpdate(s[1..], i - 1, v);
      assert BASE * ((v - s[i]) * BP(i - 1)) == (v - s[i]) * BP(i);
    }
  }

  /** As ValUpdate, for a stored limb with the carry it leaves. */
  lemma WeightedUpdate(s: seq<Limb>, i: nat, x: Limb, d: int, c: int)
    requires i < |s| && x + c * BASE == s[i] + d
    ensures Val(s[i := x]) + BP(i + 1) * c == Val(s) + BP(i) * d
  {
    ValUpdate(s, i, x);
    calc {
      (x - s[i]) * BP(i) + BASE * BP(i) * c;
      (x - s[i] + c * BASE) * BP(i);
      BP(i) * d;
    }
  }

  lemma {:induction false} ValZeros(s: seq<Limb>)
    requires forall i :: 0 <= i < |s| ==> s[i] == 0
    ensures Val(s) == 0
  {
    if |s| != 0 {
      ValZeros(s[1..]);
    }
  }

  lemma {:induction false} ValPositive(s: seq<Limb>, i: nat)
    requires i < |s| && s[i] != 0
    ensures Val(s) >= BP(i)
  {
    ValSplit(s, i);
    ValCons(s, i);
    AtLeastWeight(Val(s), Val(s[..i]), BP(i), Val(s[i..]));
  }

  lemma AtLeastWeight(v: nat, lo: nat, w: nat, hi: nat)
    requires v == lo + w * hi && hi >= 1
    ensures v >= w
  {
    MulMono(1, hi, w);
  }

  /** Dropping high limbs that are zero keeps the value. */
  lemma ValTrim(s: seq<Limb>, i: nat)
    requires i <= |s| && forall k :: i <= k < |s| ==> s[k] == 0
    ensures Val(s[..i]) == Val(s)
  {
    ValSplit(s, i);
    ValZeros(s[i..]);
  }

  /** A value below BASE^i has no limbs set from i upward. */
  lemma ValSmall(s: seq<Limb>, i: nat)
    requires i <= |s| && Val(s) < BP(i)
    ensures forall k :: i <= k < |s| ==> s[k] == 0
    ensures Val(s[..i]) == Val(s)
  {
    forall k | i <= k < |s|
      ensures s[k] == 0
    {
      if s[k] != 0 {
        ValPositive(s, k);
        BPMono(i, k);
      }
    }
    ValTrim(s, i);
  }

  lemma ValExtend(s: seq<Limb>, n: nat)
    ensures Val(s + Zeros(n)) == Val(s)
  {
    ValAppend(s, Zeros(n));
    ValZeros(Zeros(n));
  }

  lemma ValSnoc(s: seq<Limb>, i: nat)
    requires i < |s|
    ensures Val(s[..i + 1]) == Val(s[..i]) + s[i] * BP(i)
  {
    assert s[..i + 1] == s[..i] + [s[i]];
    ValAppend(s[..i], [s[i]]);
    assert Val([s[i]]) == s[i];
  }

  lemma ValCons(s: seq<Limb>, i: nat)
    requires i < |s|
    ensures Val(s[i..]) == s[i] + BASE * Val(s[i + 1..])
  {
    assert s[i..][1..] == s[i + 1..];
  }

  /** Sequences of one length with equal values are equal. */
  lemma {:induction false} ValInjective(a: seq<Limb>, b: seq<Limb>)
    requires |a| == |b| && Val(a) == Val(b)
    ensures a == b
  {
    if |a| != 0 {
      ValInjective(a[1..], b[1..]);
      assert a == [a[0]] + a[1..] && b == [b[0]] + b[1..];
    }
  }
}
