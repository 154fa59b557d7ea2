/** Addresses printed in every form the parser reads, and what it makes of them. */
module AddressForms {
  import opened Arith
  import opened Ip4Address
  import opened Numerals
  import opened StrictAddress

  /** How one number is printed. Hexadecimal has letters of either case, in the digits and in the prefix. */
  datatype Style = Decimal | Octal | Hexadecimal(upperDigits: bool, upperX: bool)

  function Prefix(style: Style): string {
    match style
    case Decimal => ""
    case Octal => "0"
    case Hexadecimal(_, upperX) => if upperX then "0X" else "0x"
  }

  function Radix(style: Style): nat {
    match style
    case Decimal => 10
    case Octal => 8
    case Hexadecimal(_, _) => 16
  }

  function Number(v: nat, style: Style): (s: string)
    ensures |s| > 0
  {
    Prefix(style) + Numeral(v, Radix(style), style.Hexadecimal? && style.upperDigits)
  }

  /** Numbers with dots between them, each in its own style. */
  function Notation(vals: seq<nat>, styles: seq<Style>): string
    requires |vals| == |styles| > 0
  {
    if |vals| == 1 then Number(vals[0], styles[0])
    else Number(vals[0], styles[0]) + ("." + Notation(vals[1..], styles[1..]))
  }

  /** The values the parser reads, modulo 2^32. */
  function Reduced(vals: seq<nat>): (r: seq<Word>)
    ensures |r| == |vals|
  {
    if |vals| == 0 then [] else [vals[0] % U32] + Reduced(vals[1..])
  }

  /** The first character of a numeral in place is a digit of its radix, and a zero only for zero. */
  lemma FirstDigit(s: string, i: nat, j: nat, v: nat, radix: nat, upper: bool)
    requires 2 <= radix <= 16 && i <= j <= |s| && s[i..j] == Numeral(v, radix, upper)
    ensures i < j && IsNumeral(s[i..j], v, radix, radix) && IsBelow(s[i], radix) && (s[i] == '0' <==> v == 0)
  {
    Printed(v, radix, upper);
    NumeralDigits(s[i..j], v, radix, radix);
    assert s[i..j][0] == s[i];
  }

  lemma DecimalAt(s: string, i: nat, j: nat, v: nat)
    requires i <= j <= |s| && s[i..j] == Numeral(v, 10, false) && Closes(At(s, j))
    ensures IsDigit(At(s, i)) && NumberWritten(s, i) == v && NumberEnd(s, i) == j
  {
    FirstDigit(s, i, j, v, 10, false);
    if v == 0 {
      assert s[i..j] == "0";
      assert s[i + 1..j] == "";
      ReadNumeral(s, i, j, 0, 8);
    } else {
      ReadNumeral(s, i, j, v, 10);
    }
  }

  lemma OctalAt(s: string, i: nat, j: nat, v: nat)
    requires i < j <= |s| && s[i] == '0' && s[i + 1..j] == Numeral(v, 8, false) && Closes(At(s, j))
    ensures IsDigit(At(s, i)) && NumberWritten(s, i) == v && NumberEnd(s, i) == j
  {
    FirstDigit(s, i + 1, j, v, 8, false);
    ReadNumeral(s, i, j, v, 8);
  }

  lemma HexadecimalAt(s: string, i: nat, j: nat, v: nat, upper: bool)
    requires i + 2 <= j <= |s| && s[i] == '0' && (s[i + 1] == 'x' || s[i + 1] == 'X')
    requires s[i + 2..j] == Numeral(v, 16, upper) && Closes(At(s, j))
    ensures IsDigit(At(s, i)) && NumberWritten(s, i) == v && NumberEnd(s, i) == j
  {
    FirstDigit(s, i + 2, j, v, 16, upper);
    ReadNumeral(s, i, j, v, 16);
  }

  /** A printed number is read back modulo 2^32, wherever it stands, if nothing after it continues it. */
  lemma NumberAt(s: string, i: nat, j: nat, v: nat, style: Style)
    requires i <= j <= |s| && s[i..j] == Number(v, style) && Closes(At(s, j))
    ensures IsDigit(At(s, i)) && NumberVal(s, i) == v % U32 && NumberEnd(s, i) == j
  {
    var number := Number(v, style);
    assert s[i + |Prefix(style)|..j] == number[|Prefix(style)|..];
    assert s[i] == number[0];
    match style {
      case Decimal =>
        DecimalAt(s, i, j, v);
      case Octal =>
        OctalAt(s, i, j, v);
      case Hexadecimal(upperDigits, _) =>
        assert s[i + 1] == number[1];
        HexadecimalAt(s, i, j, v, upperDigits);
    }
  }

  /** What stands in front of a dot and behind it. */
  lemma CutAtDot(s: string, i: nat, end: nat, first: string, rest: string)
    requires i <= end <= |s| && s[i..end] == first + ("." + rest)
    ensures var j := i + |first|; j < end && s[i..j] == first && s[j] == '.' && s[j + 1..end] == rest
  {
    var j := i + |first|;
    assert s[i..j] == s[i..end][..|first|];
    assert s[j] == s[i..end][|first|];
    assert s[j + 1..end] == s[i..end][|first| + 1..];
  }

  lemma FirstField(s: string, i: nat, end: nat, v: nat, style: Style, rest: string)
    requires i <= end <= |s| && s[i..end] == Number(v, style) + ("." + rest)
    ensures IsDigit(At(s, i)) && NumberVal(s, i) == v % U32
    ensures var j := NumberEnd(s, i); j < end && At(s, j) == '.' && s[j + 1..end] == rest
  {
    var first := Number(v, style);
    CutAtDot(s, i, end, first, rest);
    NumberAt(s, i, i + |first|, v, style);
  }

  /** The parser finds printed numbers, reduced modulo 2^32, wherever they stand. */
  lemma {:induction false} NotationFields(s: string, i: nat, end: nat, vals: seq<nat>, styles: seq<Style>)
    requires |vals| == |styles| > 0 && i <= end <= |s| && s[i..end] == Notation(vals, styles)
    requires Closes(At(s, end)) && At(s, end) != '.'
    ensures Fields(s, i, Reduced(vals), end)
    decreases |vals|
  {
    var v: Word := vals[0] % U32;
    if |vals| == 1 {
      NumberAt(s, i, end, vals[0], styles[0]);
      FieldsOne(s, i, v, end);
    } else {
      FirstField(s, i, end, vals[0], styles[0], Notation(vals[1..], styles[1..]));
      NotationFields(s, NumberEnd(s, i) + 1, end, vals[1..], styles[1..]);
      FieldsCons(s, i, v, Reduced(vals[1..]), end);
    }
  }

  /** Printed numbers denote the address whose parts they are modulo 2^32, and nothing else. */
  lemma NotationDenotes(vals: seq<nat>, styles: seq<Style>, tail: string, a: int)
    requires |vals| == |styles| > 0 && Closes(At(tail, 0)) && At(tail, 0) != '.'
    ensures Denotes(Notation(vals, styles) + tail, a) <==> Stops(tail, 0) && Fills(Reduced(vals), a)
  {
    var s := Notation(vals, styles) + tail;
    var end := |Notation(vals, styles)|;
    assert s[0..end] == Notation(vals, styles);
    assert At(s, end) == At(tail, 0);
    NotationFields(s, 0, end, vals, styles);
    EndsExact(s, end);
    FillsExact(Reduced(vals), a);
    FieldsSettle(s, Reduced(vals), end, a);
  }

  /** At most four parts, all but the last of them bytes, and the last one within what the others leave. */
  predicate WithinLimits(vals: seq<int>) {
    1 <= |vals| <= 4 && vals[|vals| - 1] <= [0xFFFF_FFFF, 0xFF_FFFF, 0xFFFF, 0xFF][|vals| - 1]
    && forall k :: 0 <= k < |vals| - 1 ==> vals[k] <= 0xFF
  }

  lemma LimitsFill(vals: seq<Word>)
    ensures WithinLimits(vals) <==> exists a :: Fills(vals, a)
  {
    if a :| Fills(vals, a) {
      FillsExact(vals, a);
    }
    if WithinLimits(vals) {
      FillsExact(vals, Address(vals));
    }
  }

  /** What the parser makes of numbers printed in any styles with text behind them that continues neither the
      last number nor the list. */
  method ParseNotation(vals: seq<nat>, styles: seq<Style>, tail: string) returns (ok: bool, addr: Word)
    requires |vals| == |styles| > 0 && Closes(At(tail, 0)) && At(tail, 0) != '.'
    ensures ok <==> Stops(tail, 0) && WithinLimits(Reduced(vals))
    ensures ok ==> Fills(Reduced(vals), addr)
  {
    forall a
      ensures Denotes(Notation(vals, styles) + tail, a) <==> Stops(tail, 0) && Fills(Reduced(vals), a)
    {
      NotationDenotes(vals, styles, tail, a);
    }
    LimitsFill(Reduced(vals));
    ok, addr := Ip4AddrAton(Notation(vals, styles) + tail);
  }

  /** Part k of an address: one of its leading bytes, or all the rest in the last part. */
  function PartOf(n: Word, k: nat, count: nat): (v: nat)
    requires k < count <= 4
    ensures v < U32
  {
    PartBelow(n, Pow2(40 - 8 * count));
    if k == count - 1 then n % Pow2(40 - 8 * count) else n / Pow2(24 - 8 * k) % 256
  }

  lemma PartBelow(n: Word, m: nat)
    requires m > 0
    ensures n % m < U32
  {
    if m > n {
      DivModUnique(n, m, 0, n);
    }
  }

  function PartsOf(n: Word, count: nat): (vals: seq<nat>)
    requires 1 <= count <= 4
    ensures |vals| == count
  {
    seq(count, k requires 0 <= k < count <= 4 => PartOf(n, k, count))
  }

  lemma {:induction false} ReducedWords(vals: seq<nat>)
    requires forall k :: 0 <= k < |vals| ==> vals[k] < U32
    ensures Reduced(vals) == vals
  {
    if |vals| > 0 {
      DivModUnique(vals[0], U32, 0, vals[0]);
      ReducedWords(vals[1..]);
      assert vals == [vals[0]] + vals[1..];
    }
  }

  lemma PartsFill(n: Word, count: nat)
    requires 1 <= count <= 4
    ensures Fills(PartsOf(n, count), n) && Reduced(PartsOf(n, count)) == PartsOf(n, count)
  {
    ReducedWords(PartsOf(n, count));
  }

  /** Every address is read back from each of its notations: in one to four parts, every part in decimal, octal
      or hexadecimal of either case, with white space and anything more behind it. */
  method PrintAndParse(n: Word, styles: seq<Style>, tail: string) returns (ok: bool, addr: Word)
    requires 1 <= |styles| <= 4 && Stops(tail, 0)
    ensures ok && addr == n
  {
    var vals := PartsOf(n, |styles|);
    PartsFill(n, |styles|);
    EndsExact(tail, 0);
    LimitsFill(Reduced(vals));
    ok, addr := ParseNotation(vals, styles, tail);
    FillsExact(Reduced(vals), n);
    FillsExact(Reduced(vals), addr);
  }
}
