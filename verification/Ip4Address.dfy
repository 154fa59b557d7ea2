/** The Internet address parser of the sockets demo. */
module Ip4Address {
  import opened Arith
  import opened Numerals

  // ----- Character classes -----

  predicate IsDigit(c: char) { '0' <= c <= '9' }

  predicate IsHexDigit(c: char) { IsDigit(c) || 'a' <= c <= 'f' || 'A' <= c <= 'F' }

  predicate IsLower(c: char) { 'a' <= c <= 'z' }

  predicate IsSpace(c: char) {
    c == ' ' || c as int == 12 || c == '\n' || c == '\r' || c == '\t' || c as int == 11
  }

  /** The character at position i of a NUL-terminated string. */
  function At(s: string, i: nat): char {
    if i < |s| then s[i] else '\0'
  }

  // ----- The notation -----

  predicate InBase(c: char, base: nat)
    ensures InBase(c, base) ==> IsHexDigit(c)
  {
    IsDigit(c) || (base == 16 && IsHexDigit(c))
  }

  function DigitVal(c: char): nat
    requires IsHexDigit(c)
  {
    if IsDigit(c) then c as int - '0' as int
    else c as int + 10 - (if IsLower(c) then 'a' as int else 'A' as int)
  }

  /** As in C: 0x is hexadecimal, another leading 0 octal, anything else decimal. */
  function BaseOf(s: string, i: nat): nat {
    if At(s, i) != '0' then 10 else if At(s, i + 1) == 'x' || At(s, i + 1) == 'X' then 16 else 8
  }

  function StartOf(s: string, i: nat): nat {
    if At(s, i) != '0' then i else if At(s, i + 1) == 'x' || At(s, i + 1) == 'X' then i + 2 else i + 1
  }

  /** The end of the digits that start at i. */
  function SpanEnd(s: string, i: nat, base: nat): (j: nat)
    ensures i <= j
    decreases if i < |s| then |s| - i else 0
  {
    if InBase(At(s, i), base) then SpanEnd(s, i + 1, base) else i
  }

  /** The positional value of the characters from i up to j, unbounded. */
  ghost function Positional(s: string, i: nat, j: nat, base: nat): nat
    requires i <= j && forall k :: i <= k < j ==> InBase(At(s, k), base)
    decreases j
  {
    if i == j then 0
    else
      assert InBase(At(s, j - 1), base);
      Positional(s, i, j - 1, base) * base + DigitVal(At(s, j - 1))
  }

  /** The digits the loop takes: an octal number's may be 8 and 9 as well. */
  function Top(base: nat): nat {
    if base == 16 then 16 else 10
  }

  /** A character belongs to a base exactly when it is a digit there, and it then counts as that digit. */
  lemma DigitMeaning(c: char, base: nat)
    ensures InBase(c, base) <==> IsBelow(c, Top(base))
    ensures InBase(c, base) ==> StandsFor(c, DigitVal(c)) && DigitVal(c) < Top(base)
  {
    if InBase(c, base) {
      assert StandsFor(c, DigitVal(c)) && DigitVal(c) < Top(base);
    }
  }

  /** The value accumulated from the digits is the number they are a numeral of. */
  lemma {:induction false} PositionalNumeral(s: string, i: nat, j: nat, base: nat)
    requires base > 0 && i <= j <= |s| && forall k :: i <= k < j ==> InBase(At(s, k), base)
    ensures IsNumeral(s[i..j], Positional(s, i, j, base), base, Top(base))
    decreases j
  {
    if i < j {
      assert InBase(At(s, j - 1), base);
      PositionalNumeral(s, i, j - 1, base);
      DigitMeaning(s[j - 1], base);
      NumeralSnoc(s[i..j - 1], s[j - 1], DigitVal(s[j - 1]), Positional(s, i, j - 1, base), base, Top(base));
      assert s[i..j] == s[i..j - 1] + [s[j - 1]];
    }
  }

  lemma {:induction false} SpanDigits(s: string, i: nat, base: nat)
    ensures forall k :: i <= k < SpanEnd(s, i, base) ==> InBase(At(s, k), base)
    ensures !InBase(At(s, SpanEnd(s, i, base)), base)
    decreases if i < |s| then |s| - i else 0
  {
    if InBase(At(s, i), base) {
      SpanDigits(s, i + 1, base);
    }
  }

  lemma {:induction false} SpanUnique(s: string, i: nat, j: nat, base: nat)
    requires i <= j && (forall k :: i <= k < j ==> InBase(At(s, k), base)) && !InBase(At(s, j), base)
    ensures SpanEnd(s, i, base) == j
    decreases j - i
  {
    if i < j {
      SpanUnique(s, i + 1, j, base);
    }
  }

  function NumberEnd(s: string, i: nat): nat {
    SpanEnd(s, StartOf(s, i), BaseOf(s, i))
  }

  /** The number written at i, unbounded. */
  ghost function NumberWritten(s: string, i: nat): nat {
    SpanDigits(s, StartOf(s, i), BaseOf(s, i));
    Positional(s, StartOf(s, i), NumberEnd(s, i), BaseOf(s, i))
  }

  /** The same as the code computes it, modulo 2^32. */
  ghost function NumberVal(s: string, i: nat): Word {
    NumberWritten(s, i) % U32
  }

  /** Between its prefix and its end stands a numeral of the number written, and no further digit follows. */
  lemma WrittenNumber(s: string, i: nat)
    requires IsDigit(At(s, i))
    ensures i <= StartOf(s, i) <= NumberEnd(s, i) <= |s|
    ensures IsNumeral(s[StartOf(s, i)..NumberEnd(s, i)], NumberWritten(s, i), BaseOf(s, i), Top(BaseOf(s, i)))
    ensures !IsBelow(At(s, NumberEnd(s, i)), Top(BaseOf(s, i)))
  {
    var start, end, base := StartOf(s, i), NumberEnd(s, i), BaseOf(s, i);
    SpanDigits(s, start, base);
    if end > start {
      assert InBase(At(s, end - 1), base);
    }
    PositionalNumeral(s, start, end, base);
    DigitMeaning(At(s, end), base);
  }

  /** vals are the dot-separated numbers from position i, and end is where the last one stops. */
  ghost predicate Fields(s: string, i: nat, vals: seq<Word>, end: nat)
    decreases |vals|
  {
    |vals| > 0 && IsDigit(At(s, i)) && vals[0] == NumberVal(s, i)
    && (if |vals| == 1 then NumberEnd(s, i) == end && At(s, end) != '.'
        else At(s, NumberEnd(s, i)) == '.' && Fields(s, NumberEnd(s, i) + 1, vals[1..], end))
  }

  /** The largest value of the last of n parts. */
  function LastLimit(n: nat): Word {
    if n == 2 then 0xFF_FFFF else if n == 3 then 0xFFFF else if n == 4 then 0xFF else U32 - 1
  }

  /** One to four parts; all but the last are bytes and the last fills what remains of 32 bits. */
  predicate InRange(vals: seq<Word>) {
    1 <= |vals| <= 4 && vals[|vals| - 1] <= LastLimit(|vals|)
    && forall k :: 0 <= k < |vals| - 1 ==> vals[k] <= 0xFF
  }

  /** The positional sum: part k weighs 2^(24 - 8k), the last part 1. */
  function Address(vals: seq<Word>): int
    requires 1 <= |vals| <= 4
  {
    var n := |vals|;
    (vals[n - 1] as int)
    + (if n > 1 then vals[0] as int * 0x100_0000 else 0)
    + (if n > 2 then vals[1] as int * 0x1_0000 else 0)
    + (if n > 3 then vals[2] as int * 0x100 else 0)
  }

  predicate Ends(c: char) {
    c == '\0' || IsSpace(c)
  }

  /** s denotes the address a. */
  ghost predicate Denotes(s: string, a: int) {
    exists vals: seq<Word>, end: nat ::
      Fields(s, 0, vals, end) && InRange(vals) && Ends(At(s, end)) && a == Address(vals)
  }

  // ----- The parser -----

  /** One digit of the inner loop: multiplied in, or shifted and ORed in, all in 32 bits. */
  method AddDigit(val: Word, base: nat, c: char) returns (v: Word)
    requires InBase(c, base)
    ensures v == (val * base + DigitVal(c)) % U32
  {
    if IsDigit(c) {
      v := (val * base % U32 + (c as int - '0' as int)) % U32;
      WrapStep(val * base, DigitVal(c));
    } else {
      var d := c as int + 10 - (if IsLower(c) then 'a' as int else 'A' as int);
      HexStep(val, d);
      v := Or(val * 16 % U32, d);
    }
  }

  lemma WrapStep(x: int, d: int)
    ensures (x % U32 + d) % U32 == (x + d) % U32
  {
  }

  lemma HexStep(val: Word, d: nat)
    requires d < 16
    ensures Or(val * 16 % U32, d) == (val * 16 + d) % U32
  {
    ShiftedNibble(val, d);
    Pow2Values();
    OrDisjoint(val % 0x1000_0000, d, 4);
  }

  lemma ShiftedNibble(val: int, d: int)
    requires 0 <= d < 16
    ensures val * 16 % U32 == val % 0x1000_0000 * 16
    ensures (val * 16 + d) % U32 == val % 0x1000_0000 * 16 + d
  {
    var h, q := val % 0x1000_0000, val / 0x1000_0000;
    DivModUnique(val * 16, U32, q, h * 16);
    DivModUnique(val * 16 + d, U32, q, h * 16 + d);
  }

  /** Reducing modulo 2^32 at each digit gives the value of the whole number modulo 2^32. */
  lemma ReducedStep(v: nat, base: nat, d: nat)
    ensures (v % U32 * base + d) % U32 == (v * base + d) % U32
  {
    ModCong(v, U32);
    CongRefl(base, U32);
    CongMul(v % U32, v, base, base, U32);
    CongRefl(d, U32);
    CongAdd(v % U32 * base, v * base, d, d, U32);
    CongMod(v % U32 * base + d, v * base + d, U32);
  }

  /** Collects the number at cp: the prefix test and the inner loop. */
  method CollectNumber(s: string, cp0: nat) returns (val: Word, cp: nat)
    requires IsDigit(At(s, cp0))
    ensures val == NumberVal(s, cp0) && cp == NumberEnd(s, cp0)
  {
    cp := cp0;
    val := 0;
    var base: nat := 10;
    if At(s, cp) == '0' {
      cp := cp + 1;
      if At(s, cp) == 'x' || At(s, cp) == 'X' {
        base := 16;
        cp := cp + 1;
      } else {
        base := 8;
      }
    }
    ghost var start := cp;
    while InBase(At(s, cp), base)
      invariant start <= cp && start == StartOf(s, cp0) && base == BaseOf(s, cp0)
      invariant forall k :: start <= k < cp ==> InBase(At(s, k), base)
      invariant val == Positional(s, start, cp, base) % U32
      decreases if cp < |s| then |s| - cp else 0
    {
      ReducedStep(Positional(s, start, cp, base), base, DigitVal(At(s, cp)));
      val := AddDigit(val, base, At(s, cp));
      cp := cp + 1;
    }
    SpanUnique(s, start, cp, base);
  }

  /** The fields read so far, in front of those still to come. */
  lemma {:induction false} FieldsSnoc(s: string, i: nat, vals: seq<Word>, at: nat, more: seq<Word>, end: nat)
    requires FieldsUpTo(s, i, vals, at) && Fields(s, at, more, end)
    ensures Fields(s, i, vals + more, end)
    decreases |vals|
  {
    if |vals| == 0 {
      assert vals + more == more;
    } else {
      FieldsSnoc(s, NumberEnd(s, i) + 1, vals[1..], at, more, end);
      assert (vals + more)[1..] == vals[1..] + more;
    }
  }

  lemma FieldsOne(s: string, i: nat, v: Word, end: nat)
    requires IsDigit(At(s, i)) && v == NumberVal(s, i) && NumberEnd(s, i) == end && At(s, end) != '.'
    ensures Fields(s, i, [v], end)
  {
  }

  lemma FieldsCons(s: string, i: nat, v: Word, rest: seq<Word>, end: nat)
    requires IsDigit(At(s, i)) && v == NumberVal(s, i) && At(s, NumberEnd(s, i)) == '.'
    requires Fields(s, NumberEnd(s, i) + 1, rest, end)
    ensures Fields(s, i, [v] + rest, end)
  {
    assert ([v] + rest)[1..] == rest;
  }

  /** vals are complete fields, each followed by a dot, from i up to position at. */
  ghost predicate FieldsUpTo(s: string, i: nat, vals: seq<Word>, at: nat)
    decreases |vals|
  {
    if |vals| == 0 then i == at
    else (IsDigit(At(s, i)) && vals[0] == NumberVal(s, i) && At(s, NumberEnd(s, i)) == '.'
      && FieldsUpTo(s, NumberEnd(s, i) + 1, vals[1..], at))
  }

  lemma {:induction false} FieldsUpToSnoc(s: string, i: nat, vals: seq<Word>, at: nat)
    requires FieldsUpTo(s, i, vals, at) && IsDigit(At(s, at)) && At(s, NumberEnd(s, at)) == '.'
    ensures FieldsUpTo(s, i, vals + [NumberVal(s, at)], NumberEnd(s, at) + 1)
    decreases |vals|
  {
    if |vals| == 0 {
      assert vals + [NumberVal(s, at)] == [NumberVal(s, at)];
    } else {
      FieldsUpToSnoc(s, NumberEnd(s, i) + 1, vals[1..], at);
      assert (vals + [NumberVal(s, at)])[1..] == vals[1..] + [NumberVal(s, at)];
    }
  }

  /** The notation is unambiguous: after the fields read so far, any reading continues at the same place. */
  lemma {:induction false} FieldsSplit(s: string, i: nat, vals: seq<Word>, at: nat, all: seq<Word>, end: nat)
    requires FieldsUpTo(s, i, vals, at) && Fields(s, i, all, end)
    ensures |vals| < |all| && all[..|vals|] == vals && Fields(s, at, all[|vals|..], end)
    decreases |vals|
  {
    if |vals| == 0 {
      assert all[0..] == all;
    } else {
      FieldsSplit(s, NumberEnd(s, i) + 1, vals[1..], at, all[1..], end);
      assert all[1..][|vals| - 1..] == all[|vals|..];
      assert all[..|vals|] == [all[0]] + all[1..][..|vals| - 1];
      assert vals == [vals[0]] + vals[1..];
    }
  }

  lemma {:induction false} FieldsUnique(s: string, i: nat, v: seq<Word>, e: nat, w: seq<Word>, f: nat)
    requires Fields(s, i, v, e) && Fields(s, i, w, f)
    ensures v == w && e == f
    decreases |v|
  {
    if |v| == 1 {
      assert v == [v[0]] && w == [w[0]];
    } else {
      FieldsUnique(s, NumberEnd(s, i) + 1, v[1..], e, w[1..], f);
      assert v == [v[0]] + v[1..] && w == [w[0]] + w[1..];
    }
  }

  /** A string denotes at most one address. */
  lemma Unambiguous(s: string, a: int, b: int)
    requires Denotes(s, a) && Denotes(s, b)
    ensures a == b
  {
    var v: seq<Word>, e: nat :| Fields(s, 0, v, e) && InRange(v) && Ends(At(s, e)) && a == Address(v);
    var w: seq<Word>, f: nat :| Fields(s, 0, w, f) && InRange(w) && Ends(At(s, f)) && b == Address(w);
    FieldsUnique(s, 0, v, e, w, f);
  }

  /** After complete fields any reading needs a digit, and a further dot only while fewer than four parts result. */
  lemma ReadingContinues(s: string, vals: seq<Word>, at: nat, a: int)
    requires FieldsUpTo(s, 0, vals, at) && Denotes(s, a)
    ensures IsDigit(At(s, at))
    ensures At(s, NumberEnd(s, at)) == '.' ==> |vals| < 3
  {
    var all: seq<Word>, end: nat :| Fields(s, 0, all, end) && InRange(all) && Ends(At(s, end)) && a == Address(all);
    FieldsSplit(s, 0, vals, at, all, end);
  }

  /** The numbers of a string settle what it denotes. */
  lemma FieldsSettle(s: string, vals: seq<Word>, end: nat, a: int)
    requires Fields(s, 0, vals, end)
    ensures Denotes(s, a) <==> InRange(vals) && Ends(At(s, end)) && a == Address(vals)
  {
    if Denotes(s, a) {
      var w: seq<Word>, f: nat :| Fields(s, 0, w, f) && InRange(w) && Ends(At(s, f)) && a == Address(w);
      FieldsUnique(s, 0, vals, end, w, f);
    }
  }

  /** The last field settles what the whole string denotes. */
  lemma ReadingEnds(s: string, vals: seq<Word>, at: nat, a: int)
    requires FieldsUpTo(s, 0, vals, at) && IsDigit(At(s, at)) && At(s, NumberEnd(s, at)) != '.'
    ensures var all := vals + [NumberVal(s, at)];
      Denotes(s, a) <==> InRange(all) && Ends(At(s, NumberEnd(s, at))) && a == Address(all)
  {
    FieldsSnoc(s, 0, vals, at, [NumberVal(s, at)], NumberEnd(s, at));
    FieldsSettle(s, vals + [NumberVal(s, at)], NumberEnd(s, at), a);
  }

  lemma ShlByte(a: Word)
    requires a <= 0xFF
    ensures Shl(a, 24) == a * 0x100_0000 && Shl(a, 16) == a * 0x1_0000 && Shl(a, 8) == a * 0x100
  {
    Pow2Values();
  }

  /** The ORs of the closing switch put every part in its own bits, so they add. */
  lemma TwoPartsAdd(val: Word, a: Word)
    requires val <= 0xFF_FFFF && a <= 0xFF
    ensures Or(val, Shl(a, 24)) == val + a * 0x100_0000
  {
    Pow2Values();
    ShlByte(a);
    OrDisjoint(a, val, 24);
  }

  lemma ThreePartsAdd(val: Word, a: Word, b: Word)
    requires val <= 0xFFFF && a <= 0xFF && b <= 0xFF
    ensures Or(val, Or(Shl(a, 24), Shl(b, 16))) == val + a * 0x100_0000 + b * 0x1_0000
  {
    HighBytesAdd(a, b);
    Pow2Values();
    OrDisjoint(a * 0x100 + b, val, 16);
  }

  lemma HighBytesAdd(a: Word, b: Word)
    requires a <= 0xFF && b <= 0xFF
    ensures Or(Shl(a, 24), Shl(b, 16)) == (a * 0x100 + b) * 0x1_0000
  {
    Pow2Values();
    ShlByte(a);
    ShlByte(b);
    OrDisjoint(a, b * 0x1_0000, 24);
  }

  lemma FourPartsAdd(val: Word, a: Word, b: Word, c: Word)
    requires val <= 0xFF && a <= 0xFF && b <= 0xFF && c <= 0xFF
    ensures Or(val, Or(Or(Shl(a, 24), Shl(b, 16)), Shl(c, 8))) == val + a * 0x100_0000 + b * 0x1_0000 + c * 0x100
  {
    HighBytesAdd(a, b);
    Pow2Values();
    ShlByte(c);
    OrDisjoint(a * 0x100 + b, c * 0x100, 16);
    OrDisjoint((a * 0x100 + b) * 0x100 + c, val, 8);
  }

  /** The closing switch: range checks by number of parts, then the ORs. */
  method Concoct(parts: array<Word>, pp: nat, val: Word) returns (ok: bool, addr: Word)
    requires parts.Length == 4 && pp <= 3
    ensures ok <==> InRange(parts[..pp] + [val])
    ensures ok ==> addr == Address(parts[..pp] + [val])
  {
    addr := val;
    ghost var all := parts[..pp] + [val];
    match pp {
      case 0 => return true, val;
      case 1 =>
        assert all == [parts[0], val] && all[0] == parts[0];
        if val > 0xFF_FFFF { return false, 0; }
        if parts[0] > 0xFF { return false, 0; }
        TwoPartsAdd(val, parts[0]);
        addr := Or(val, Shl(parts[0], 24));
      case 2 =>
        assert all == [parts[0], parts[1], val] && all[0] == parts[0] && all[1] == parts[1];
        if val > 0xFFFF { return false, 0; }
        if parts[0] > 0xFF || parts[1] > 0xFF { return false, 0; }
        ThreePartsAdd(val, parts[0], parts[1]);
        addr := Or(val, Or(Shl(parts[0], 24), Shl(parts[1], 16)));
      case 3 =>
        assert all == [parts[0], parts[1], parts[2], val];
        assert all[0] == parts[0] && all[1] == parts[1] && all[2] == parts[2];
        if val > 0xFF { return false, 0; }
        if parts[0] > 0xFF || parts[1] > 0xFF || parts[2] > 0xFF { return false, 0; }
        FourPartsAdd(val, parts[0], parts[1], parts[2]);
        addr := Or(val, Or(Or(Shl(parts[0], 24), Shl(parts[1], 16)), Shl(parts[2], 8)));
      case _ =>
        assert false;
    }
    ok := true;
  }

  /** Accepts exactly the strings that denote an address, and stores that address. */
  method Ip4AddrAton(s: string) returns (ok: bool, addr: Word)
    ensures ok <==> exists a :: Denotes(s, a)
    ensures ok ==> Denotes(s, addr)
  {
    var parts := new Word[4];
    var pp: nat, cp: nat := 0, 0;
    var val: Word, next: nat := 0, 0;
    while true
      invariant pp <= 3 && FieldsUpTo(s, 0, parts[..pp], cp)
      decreases 3 - pp
    {
      if !IsDigit(At(s, cp)) {
        forall a | Denotes(s, a) ensures false { ReadingContinues(s, parts[..pp], cp, a); }
        return false, 0;
      }
      val, next := CollectNumber(s, cp);
      if At(s, next) == '.' {
        if pp >= 3 {
          forall a | Denotes(s, a) ensures false { ReadingContinues(s, parts[..pp], cp, a); }
          return false, 0;
        }
        FieldsUpToSnoc(s, 0, parts[..pp], cp);
        ghost var read := parts[..pp];
        parts[pp] := val;
        pp := pp + 1;
        cp := next + 1;
        assert parts[..pp] == read + [val];
      } else {
        break;
      }
    }
    forall a ensures Denotes(s, a) <==>
                     InRange(parts[..pp] + [val]) && Ends(At(s, next)) && a == Address(parts[..pp] + [val])
    {
      ReadingEnds(s, parts[..pp], cp, a);
    }
    if At(s, next) != '\0' && !IsSpace(At(s, next)) {
      return false, 0;
    }
    ok, addr := Concoct(parts, pp, val);
    assert ok ==> Denotes(s, addr);
  }
}
