/** The address notation with numbers as in C, and when the parser agrees with it. */
module StrictAddress {
  import opened Arith
  import opened Ip4Address
  import opened Numerals

  // ----- The notation, apart from the parser -----

  /** The characters from i up to j are a C number of value v: decimal without a leading zero, octal after a 0,
      or at least one hexadecimal digit after 0x. */
  ghost predicate Spells(s: string, i: nat, j: nat, v: nat) {
    i < j <= |s|
    && ((s[i] != '0' && IsNumeral(s[i..j], v, 10, 10))
        || (s[i] == '0' && IsNumeral(s[i + 1..j], v, 8, 8))
        || (s[i] == '0' && i + 2 < j && (s[i + 1] == 'x' || s[i + 1] == 'X') && IsNumeral(s[i + 2..j], v, 16, 16)))
  }

  /** From i on stand the numbers vals, ending at the positions ends, with dots between them. Their values are
      below 2^32 as written. */
  ghost predicate StrictFields(s: string, i: nat, vals: seq<Word>, ends: seq<nat>)
    decreases |vals|
  {
    |vals| == |ends| > 0 && Spells(s, i, ends[0], vals[0])
    && (|vals| > 1 ==>
          ends[0] < |s| && s[ends[0]] == '.' && StrictFields(s, ends[0] + 1, vals[1..], ends[1..]))
  }

  /** Blank, tab, line feed, vertical tab, form feed and carriage return. */
  const WHITE: string := " \t\n\U{0B}\U{0C}\r"

  predicate Stops(s: string, e: nat) {
    e >= |s| || s[e] == '\0' || s[e] in WHITE
  }

  /** The one to four parts of the 32-bit address a: its bytes from the top, and in the last part all that is
      left. */
  ghost predicate Fills(vals: seq<int>, a: int) {
    var n := |vals|;
    1 <= n <= 4 && 0 <= a < 0x1_0000_0000 && vals[n - 1] == a % Pow2(40 - 8 * n)
    && forall k :: 0 <= k < n - 1 ==> vals[k] == a / Pow2(24 - 8 * k) % 256
  }

  ghost predicate StrictDenotes(s: string, a: int) {
    exists vals: seq<Word>, ends: seq<nat> ::
      StrictFields(s, 0, vals, ends) && Stops(s, ends[|ends| - 1]) && Fills(vals, a)
  }

  // ----- What a caller can look for in the string -----

  /** No 8 or 9 in an octal number, no bare 0x, and no number of 2^32 or more. */
  ghost predicate StrictNumber(s: string, i: nat) {
    (BaseOf(s, i) == 8 ==> forall k :: StartOf(s, i) <= k < NumberEnd(s, i) ==> At(s, k) <= '7')
    && (BaseOf(s, i) == 16 ==> StartOf(s, i) < NumberEnd(s, i))
    && NumberWritten(s, i) < U32
  }

  /** Every dot-separated number from i on is strict. */
  ghost predicate StrictString(s: string, i: nat)
    decreases if i < |s| then |s| - i else 0
  {
    StrictNumber(s, i) && (At(s, NumberEnd(s, i)) == '.' ==> StrictString(s, NumberEnd(s, i) + 1))
  }

  // ----- Ranges and weights -----

  lemma TwoParts(x: int, v: int, a: int)
    ensures 0 <= x <= 0xFF && 0 <= v <= 0xFF_FFFF && a == v + x * 0x100_0000 <==>
            0 <= a < 0x1_0000_0000 && x == a / 0x100_0000 % 256 && v == a % 0x100_0000
  {
  }

  lemma ThreeParts(x: int, y: int, v: int, a: int)
    ensures 0 <= x <= 0xFF && 0 <= y <= 0xFF && 0 <= v <= 0xFFFF && a == v + x * 0x100_0000 + y * 0x1_0000 <==>
            0 <= a < 0x1_0000_0000 && x == a / 0x100_0000 % 256 && y == a / 0x1_0000 % 256 && v == a % 0x1_0000
  {
    NextByte(a, 0x1_0000);
    TwoParts(x, a % 0x100_0000, a);
    if 0 <= y <= 0xFF && 0 <= v <= 0xFFFF && a == v + x * 0x100_0000 + y * 0x1_0000 {
      DivModUnique(a, 0x1_0000, x * 0x100 + y, v);
      DivModUnique(a, 0x100_0000, x, y * 0x1_0000 + v);
      DivModUnique(x * 0x100 + y, 0x100, x, y);
    }
  }

  lemma FourParts(x: int, y: int, z: int, v: int, a: int)
    ensures 0 <= x <= 0xFF && 0 <= y <= 0xFF && 0 <= z <= 0xFF && 0 <= v <= 0xFF
            && a == v + x * 0x100_0000 + y * 0x1_0000 + z * 0x100 <==>
            0 <= a < 0x1_0000_0000 && x == a / 0x100_0000 % 256 && y == a / 0x1_0000 % 256 && z == a / 0x100 % 256
            && v == a % 0x100
  {
    NextByte(a, 0x100);
    ThreeParts(x, y, a % 0x1_0000, a);
    if 0 <= y <= 0xFF && 0 <= z <= 0xFF && 0 <= v <= 0xFF && a == v + x * 0x100_0000 + y * 0x1_0000 + z * 0x100 {
      DivModUnique(a, 0x1_0000, x * 0x100 + y, z * 0x100 + v);
      DivModUnique(a, 0x100, x * 0x1_0000 + y * 0x100 + z, v);
      DivModUnique(x * 0x1_0000 + y * 0x100 + z, 0x100, x * 0x100 + y, z);
    }
  }

  lemma NextByte(a: int, w: int)
    requires w == 0x100 || w == 0x1_0000
    ensures a / w == a / (0x100 * w) * 0x100 + a / w % 0x100
    ensures a % (0x100 * w) == a / w % 0x100 * w + a % w
  {
    var q := a / w;
    assert a == q / 0x100 * (0x100 * w) + (q % 0x100 * w + a % w);
    DivModUnique(a, 0x100 * w, q / 0x100, q % 0x100 * w + a % w);
  }

  lemma FillsWith(vals: seq<Word>, a: int)
    ensures |vals| == 2 ==> (Fills(vals, a) <==>
      0 <= a < 0x1_0000_0000 && vals[0] == a / 0x100_0000 % 256 && vals[1] == a % 0x100_0000)
    ensures |vals| == 3 ==> (Fills(vals, a) <==>
      0 <= a < 0x1_0000_0000 && vals[0] == a / 0x100_0000 % 256 && vals[1] == a / 0x1_0000 % 256
      && vals[2] == a % 0x1_0000)
    ensures |vals| == 4 ==> (Fills(vals, a) <==>
      0 <= a < 0x1_0000_0000 && vals[0] == a / 0x100_0000 % 256 && vals[1] == a / 0x1_0000 % 256
      && vals[2] == a / 0x100 % 256 && vals[3] == a % 0x100)
  {
    Pow2Values();
  }

  lemma InRangeWith(vals: seq<Word>)
    ensures |vals| == 2 ==> (InRange(vals) <==> vals[0] <= 0xFF && vals[1] <= 0xFF_FFFF)
    ensures |vals| == 3 ==> (InRange(vals) <==> vals[0] <= 0xFF && vals[1] <= 0xFF && vals[2] <= 0xFFFF)
    ensures |vals| == 4 ==>
      (InRange(vals) <==> vals[0] <= 0xFF && vals[1] <= 0xFF && vals[2] <= 0xFF && vals[3] <= 0xFF)
  {
  }

  /** The range checks and weights of the parser cut an address into its parts. */
  lemma FillsExact(vals: seq<Word>, a: int)
    ensures InRange(vals) && a == Address(vals) <==> Fills(vals, a)
  {
    FillsWith(vals, a);
    InRangeWith(vals);
    if |vals| == 1 {
      Pow2Values();
    } else if |vals| == 2 {
      TwoParts(vals[0], vals[1], a);
    } else if |vals| == 3 {
      ThreeParts(vals[0], vals[1], vals[2], a);
    } else if |vals| == 4 {
      FourParts(vals[0], vals[1], vals[2], vals[3], a);
    }
  }

  lemma EndsExact(s: string, e: nat)
    ensures Ends(At(s, e)) <==> Stops(s, e)
    ensures Ends(At(s, e)) ==> At(s, e) != '.' && !IsHexDigit(At(s, e)) && At(s, e) != 'x' && At(s, e) != 'X'
  {
  }

  // ----- Agreement -----

  /** What may follow a number without continuing it. */
  predicate Closes(c: char) {
    !IsHexDigit(c) && c != 'x' && c != 'X'
  }

  /** If digits of a base stand between the prefix at i and position j, and nothing continues them, the parser
      reads from i the number they are a numeral of. */
  lemma ReadNumeral(s: string, i: nat, j: nat, v: nat, top: nat)
    requires IsDigit(At(s, i)) && StartOf(s, i) <= j <= |s| && Closes(At(s, j)) && top <= Top(BaseOf(s, i))
    requires IsNumeral(s[StartOf(s, i)..j], v, BaseOf(s, i), top)
    ensures NumberEnd(s, i) == j && NumberWritten(s, i) == v
    ensures forall k :: StartOf(s, i) <= k < j ==> IsBelow(At(s, k), top)
  {
    var start, base := StartOf(s, i), BaseOf(s, i);
    var digits := s[start..j];
    NumeralDigits(digits, v, base, top);
    forall k | start <= k < j
      ensures IsBelow(At(s, k), top) && InBase(At(s, k), base)
    {
      assert digits[k - start] == s[k];
      DigitMeaning(s[k], base);
    }
    DigitMeaning(At(s, j), base);
    SpanUnique(s, start, j, base);
    WrittenNumber(s, i);
    forall k | 0 <= k < |digits|
      ensures IsBelow(digits[k], Top(base))
    {
      assert digits[k] == At(s, start + k);
    }
    OtherTop(digits, v, base, top, Top(base));
    OneValue(digits, v, NumberWritten(s, i), base, Top(base));
  }

  lemma SpelledNumber(s: string, i: nat, j: nat, v: Word)
    requires Spells(s, i, j, v) && Closes(At(s, j))
    ensures IsDigit(At(s, i)) && NumberEnd(s, i) == j && NumberVal(s, i) == v && StrictNumber(s, i)
  {
    if s[i] != '0' {
      NumeralDigits(s[i..j], v, 10, 10);
      assert IsBelow(s[i..j][0], 10);
      ReadNumeral(s, i, j, v, 10);
    } else if i + 1 < j && (s[i + 1] == 'x' || s[i + 1] == 'X') {
      if IsNumeral(s[i + 1..j], v, 8, 8) {
        NumeralDigits(s[i + 1..j], v, 8, 8);
        assert IsBelow(s[i + 1..j][0], 8);
      }
      ReadNumeral(s, i, j, v, 16);
    } else {
      ReadNumeral(s, i, j, v, 8);
    }
  }

  lemma NumberSpelled(s: string, i: nat)
    requires IsDigit(At(s, i)) && StrictNumber(s, i)
    ensures Spells(s, i, NumberEnd(s, i), NumberVal(s, i))
  {
    WrittenNumber(s, i);
    if BaseOf(s, i) == 10 {
      assert SpanEnd(s, i, 10) > i;
    } else if BaseOf(s, i) == 8 {
      OctalSpelled(s, i, NumberEnd(s, i));
    }
  }

  lemma OctalSpelled(s: string, i: nat, j: nat)
    requires At(s, i) == '0' && BaseOf(s, i) == 8 && j == NumberEnd(s, i) && StrictNumber(s, i)
    ensures i < j <= |s| && IsNumeral(s[i + 1..j], NumberWritten(s, i), 8, 8)
  {
    WrittenNumber(s, i);
    var digits := s[i + 1..j];
    forall k | 0 <= k < |digits|
      ensures IsBelow(digits[k], 8)
    {
      OctalDigit(s, i + 1, i + 1 + k, j);
    }
    OtherTop(digits, NumberWritten(s, i), 8, 10, 8);
  }

  lemma OctalDigit(s: string, i: nat, k: nat, j: nat)
    requires i <= k < j <= |s| && j == SpanEnd(s, i, 8) && At(s, k) <= '7'
    ensures IsBelow(s[k], 8)
  {
    SpanDigits(s, i, 8);
    assert InBase(At(s, k), 8);
    assert StandsFor(s[k], DigitVal(s[k])) && DigitVal(s[k]) < 8;
  }

  lemma {:induction false} StrictIsRead(s: string, i: nat, vals: seq<Word>, ends: seq<nat>)
    requires StrictFields(s, i, vals, ends) && Stops(s, ends[|ends| - 1])
    ensures Fields(s, i, vals, ends[|ends| - 1]) && StrictString(s, i)
    decreases |vals|
  {
    if |vals| == 1 {
      EndsExact(s, ends[0]);
      SpelledNumber(s, i, ends[0], vals[0]);
    } else {
      SpelledNumber(s, i, ends[0], vals[0]);
      StrictIsRead(s, ends[0] + 1, vals[1..], ends[1..]);
    }
  }

  lemma {:induction false} ReadIsStrict(s: string, i: nat, vals: seq<Word>, end: nat) returns (ends: seq<nat>)
    requires Fields(s, i, vals, end) && StrictString(s, i)
    ensures StrictFields(s, i, vals, ends) && ends[|ends| - 1] == end
    decreases |vals|
  {
    NumberSpelled(s, i);
    ends := [NumberEnd(s, i)];
    if |vals| > 1 {
      var rest := ReadIsStrict(s, NumberEnd(s, i) + 1, vals[1..], end);
      ends := ends + rest;
      assert ends[1..] == rest;
    }
  }

  /** A string denotes an address in the C notation exactly when the parser reads that address from it and
      every number in it is strict. */
  lemma StrictExact(s: string, a: int)
    ensures StrictDenotes(s, a) <==> Denotes(s, a) && StrictString(s, 0)
  {
    if StrictDenotes(s, a) {
      var vals: seq<Word>, ends: seq<nat> :|
        StrictFields(s, 0, vals, ends) && Stops(s, ends[|ends| - 1]) && Fills(vals, a);
      StrictIsRead(s, 0, vals, ends);
      EndsExact(s, ends[|ends| - 1]);
      FillsExact(vals, a);
    }
    if Denotes(s, a) && StrictString(s, 0) {
      var vals: seq<Word>, end: nat :|
        Fields(s, 0, vals, end) && InRange(vals) && Ends(At(s, end)) && a == Address(vals);
      var ends := ReadIsStrict(s, 0, vals, end);
      EndsExact(s, end);
      FillsExact(vals, a);
    }
  }

  /** The parser's verdict against the C notation: it misses no string of the notation, and what it accepts
      belongs to the notation, with the same address, exactly when every number is strict. */
  method ParseStrictly(s: string) returns (ok: bool, addr: Word)
    ensures !ok ==> forall a :: !StrictDenotes(s, a)
    ensures ok ==> (StrictDenotes(s, addr) <==> StrictString(s, 0))
    ensures forall a :: StrictDenotes(s, a) ==> ok && addr == a
  {
    ok, addr := Ip4AddrAton(s);
    forall a
      ensures StrictDenotes(s, a) <==> Denotes(s, a) && StrictString(s, 0)
    {
      StrictExact(s, a);
    }
    forall a | StrictDenotes(s, a)
      ensures addr == a
    {
      Unambiguous(s, addr, a);
    }
  }

  // ----- Strings on which they differ -----

  /** An octal 8 is accepted, 0x alone is zero, and 2^32 wraps to zero; none of them is in the notation. */
  lemma LooseNumbers()
    ensures Denotes("08", 8) && !StrictDenotes("08", 8)
    ensures Denotes("0x", 0) && !StrictDenotes("0x", 0)
    ensures Denotes("4294967296", 0) && !StrictDenotes("4294967296", 0)
  {
    SpanUnique("08", 1, 2, 8);
    assert Positional("08", 1, 1, 8) == 0;
    assert Fields("08", 0, [8], 2) && InRange([8]);
    assert At("08", 1) == '8';
    StrictExact("08", 8);
    SpanUnique("0x", 2, 2, 16);
    assert Fields("0x", 0, [0], 2) && InRange([0]);
    StrictExact("0x", 0);
    WrappedNumber("4294967296");
  }

  lemma WrappedNumber(s: string)
    requires s == "4294967296"
    ensures Denotes(s, 0) && !StrictDenotes(s, 0)
  {
    SpanUnique(s, 0, 10, 10);
    assert Positional(s, 0, 0, 10) == 0;
    assert Positional(s, 0, 2, 10) == 42;
    assert Positional(s, 0, 4, 10) == 4294;
    assert Positional(s, 0, 6, 10) == 429496;
    assert Positional(s, 0, 8, 10) == 42949672;
    assert NumberWritten(s, 0) == 0x1_0000_0000;
    assert Fields(s, 0, [0], 10) && InRange([0]);
    StrictExact(s, 0);
  }
}
