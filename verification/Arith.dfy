/** Integer facts shared by every module: powers, Euclidean division, congruences, and bitwise OR on naturals. */
module Arith {

  type Byte = x: int | 0 <= x < 256

  const U32: int := 0x1_0000_0000

  type Word = x: int | 0 <= x < U32

  /** Left shift in 32 bits. */
  function Shl(x: Word, k: nat): Word {
    x * Pow2(k) % U32
  }

  function Pow(b: int, e: nat): int {
    if e == 0 then 1 else b * Pow(b, e - 1)
  }

  function Pow2(e: nat): (r: nat)
    ensures r >= 1
  {
    if e == 0 then 1 else 2 * Pow2(e - 1)
  }

  lemma {:induction false} Pow2Add(a: nat, b: nat)
    ensures Pow2(a + b) == Pow2(a) * Pow2(b)
  {
    if a != 0 {
      Pow2Add(a - 1, b);
      assert 2 * (Pow2(a - 1) * Pow2(b)) == Pow2(a) * Pow2(b);
    }
  }

  lemma {:induction false} Pow2Mono(a: nat, b: nat)
    requires a <= b
    ensures Pow2(a) <= Pow2(b)
    ensures a < b ==> Pow2(a) < Pow2(b)
  {
    if a < b {
      Pow2Mono(a, b - 1);
    }
  }

  /** The powers of two the code's word and byte sizes need. */
  lemma Pow2Values()
    ensures Pow2(4) == 0x10 && Pow2(8) == 0x100 && Pow2(16) == 0x1_0000
    ensures Pow2(24) == 0x100_0000 && Pow2(32) == 0x1_0000_0000
  {
    assert Pow2(4) == 16;
    Pow2Add(4, 4);
    Pow2Add(8, 8);
    Pow2Add(16, 8);
    Pow2Add(16, 16);
  }

  lemma {:induction false} PowAdd(x: int, a: nat, b: nat)
    ensures Pow(x, a + b) == Pow(x, a) * Pow(x, b)
  {
    if a != 0 {
      PowAdd(x, a - 1, b);
      assert x * (Pow(x, a - 1) * Pow(x, b)) == Pow(x, a) * Pow(x, b);
    }
  }

  // ----- Multiplication and order -----

  lemma MulMono(a: int, b: int, c: int)
    requires a <= b && 0 <= c
    ensures a * c <= b * c
  {
  }

  /** The product of naturals as a natural. */
  ghost function NatProduct(a: nat, b: nat): (r: nat)
    ensures r == a * b
  {
    MulMono(0, a, b);
    a * b
  }

  lemma StrictProduct(a: int, b: int, c: int)
    requires a < b && c > 0
    ensures c * a < c * b && a * c < b * c
  {
  }

  lemma MulLess(a: int, b: int, c: int)
    requires a * c < b * c && 0 <= c
    ensures a < b
  {
  }

  // ----- Euclidean division -----

  /** Quotient and remainder are unique. */
  lemma DivModUnique(x: int, m: int, q: int, r: int)
    requires m > 0 && x == q * m + r && 0 <= r < m
    ensures x / m == q && x % m == r
  {
    var d := q - x / m;
    assert d * m == x % m - r;
    if d >= 1 {
      MulMono(1, d, m);
    } else if d <= -1 {
      MulMono(d, -1, m);
    }
  }

  lemma DivExact(x: int, m: int)
    requires m > 0 && x % m == 0
    ensures x == x / m * m
  {
  }

  lemma ModMultiple(k: int, m: int)
    requires m > 0
    ensures (k * m) % m == 0 && (k * m) / m == k
  {
    DivModUnique(k * m, m, k, 0);
  }

  lemma ParityKept(q: int, c: int)
    ensures (q + 2 * c) % 2 == q % 2
  {
    DivModUnique(q + 2 * c, 2, q / 2 + c, q % 2);
  }

  // ----- Congruences -----

  ghost predicate Cong(a: int, b: int, m: int)
    requires m > 0
  {
    (a - b) % m == 0
  }

  lemma CongIntro(a: int, b: int, m: int, k: int)
    requires m > 0 && a - b == k * m
    ensures Cong(a, b, m)
  {
    ModMultiple(k, m);
  }

  lemma CongRefl(a: int, m: int)
    requires m > 0
    ensures Cong(a, a, m)
  {
    CongIntro(a, a, m, 0);
  }

  /** The multiple of m by which congruent numbers differ. */
  ghost function CongElim(a: int, b: int, m: int): (k: int)
    requires m > 0 && Cong(a, b, m)
    ensures a - b == k * m
  {
    (a - b) / m
  }

  lemma CongTrans(a: int, b: int, c: int, m: int)
    requires m > 0 && Cong(a, b, m) && Cong(b, c, m)
    ensures Cong(a, c, m)
  {
    var k, l := CongElim(a, b, m), CongElim(b, c, m);
    assert a - c == (k + l) * m;
    CongIntro(a, c, m, k + l);
  }

  lemma CongSym(a: int, b: int, m: int)
    requires m > 0 && Cong(a, b, m)
    ensures Cong(b, a, m)
  {
    var k := CongElim(a, b, m);
    assert b - a == (-k) * m;
    CongIntro(b, a, m, -k);
  }

  lemma CongMul(a: int, b: int, c: int, d: int, m: int)
    requires m > 0 && Cong(a, b, m) && Cong(c, d, m)
    ensures Cong(a * c, b * d, m)
  {
    var k, l := CongElim(a, b, m), CongElim(c, d, m);
    calc {
      a * c - b * d;
      (a - b) * c + b * (c - d);
      k * m * c + b * (l * m);
      { assert k * m * c == k * c * m && b * (l * m) == b * l * m; }
      k * c * m + b * l * m;
      (k * c + b * l) * m;
    }
    CongIntro(a * c, b * d, m, k * c + b * l);
  }

  lemma CongAdd(a: int, b: int, c: int, d: int, m: int)
    requires m > 0 && Cong(a, b, m) && Cong(c, d, m)
    ensures Cong(a + c, b + d, m) && Cong(a - c, b - d, m)
  {
    var k, l := CongElim(a, b, m), CongElim(c, d, m);
    assert (a + c) - (b + d) == (k + l) * m;
    assert (a - c) - (b - d) == (k - l) * m;
    CongIntro(a + c, b + d, m, k + l);
    CongIntro(a - c, b - d, m, k - l);
  }

  lemma CongMod(a: int, b: int, m: int)
    requires m > 0 && Cong(a, b, m)
    ensures a % m == b % m
    ensures 0 <= a < m ==> a == b % m
  {
    var k := CongElim(a, b, m);
    assert a == (k + b / m) * m + b % m;
    DivModUnique(a, m, k + b / m, b % m);
    if 0 <= a < m {
      DivModUnique(a, m, 0, a);
    }
  }

  lemma ModCong(a: int, m: int)
    requires m > 0
    ensures Cong(a, a % m, m) && Cong(a % m, a, m)
  {
    CongIntro(a, a % m, m, a / m);
    CongSym(a, a % m, m);
  }

  lemma {:induction false} CongPow(a: int, b: int, e: nat, m: int)
    requires m > 0 && Cong(a, b, m)
    ensures Cong(Pow(a, e), Pow(b, e), m)
  {
    if e == 0 {
      assert (1 - 1) % m == 0;
    } else {
      CongPow(a, b, e - 1, m);
      CongMul(a, b, Pow(a, e - 1), Pow(b, e - 1), m);
    }
  }

  lemma OddFactor(k: int, m: int)
    requires m % 2 == 1 && (k * m) % 2 == 0
    ensures k % 2 == 0
  {
    var o := m / 2;
    assert k * m == 2 * (k * o) + k by { assert m == 2 * o + 1; }
  }

  lemma CongHalve(a: int, b: int, m: int)
    requires m > 0 && m % 2 == 1 && Cong(2 * a, 2 * b, m)
    ensures Cong(a, b, m)
  {
    var k := CongElim(2 * a, 2 * b, m);
    OddFactor(k, m);
    assert k * m == 2 * (k / 2 * m) by { assert k == 2 * (k / 2); }
    CongIntro(a, b, m, k / 2);
  }

  /** Powers of two can be cancelled from a congruence modulo an odd number. */
  lemma {:induction false} CongCancelPow2(a: int, b: int, e: nat, m: int)
    requires m > 0 && m % 2 == 1
    requires Cong(a * Pow2(e), b * Pow2(e), m)
    ensures Cong(a, b, m)
  {
    if e != 0 {
      var w := Pow2(e - 1);
      assert a * Pow2(e) == 2 * (a * w) && b * Pow2(e) == 2 * (b * w);
      CongHalve(a * w, b * w, m);
      CongCancelPow2(a, b, e - 1, m);
    }
  }

  // ----- Bitwise OR on naturals -----

  /** Bitwise OR, bit by bit. */
  function Or(a: nat, b: nat): nat
    decreases a + b
  {
    if a == 0 && b == 0 then 0
    else (if a % 2 == 1 || b % 2 == 1 then 1 else 0) + 2 * Or(a / 2, b / 2)
  }

  lemma {:induction false} OrZero(a: nat)
    ensures Or(a, 0) == a && Or(0, a) == a
  {
    if a != 0 {
      OrZero(a / 2);
    }
  }

  /** OR of a value below 2^k with a multiple of 2^k adds them, in either order. */
  lemma {:induction false} OrDisjoint(hi: nat, lo: nat, k: nat)
    requires lo < Pow2(k)
    ensures Or(hi * Pow2(k), lo) == Or(lo, hi * Pow2(k)) == hi * Pow2(k) + lo
  {
    if k == 0 {
      OrZero(hi);
    } else {
      var a := hi * Pow2(k);
      var w := hi * Pow2(k - 1);
      assert a == 2 * w;
      OrDisjoint(hi, lo / 2, k - 1);
      if a == 0 && lo == 0 {
      } else {
        assert Or(a, lo) == lo % 2 + 2 * Or(w, lo / 2);
        assert Or(lo, a) == lo % 2 + 2 * Or(lo / 2, w);
      }
    }
  }
}
