/** Import and export: unsigned big-endian bytes, and digit strings in the radices from 2 to 16. */
module Codec {
  import opened Arith
  import opened Limbs
  import opened Mpis
  import opened AddSub
  import opened Shift
  import opened Multiply
  import opened Numerals

  // ----- Fields of bits inside the limb buffer -----

  /** A value below 2^(32*i + o) leaves bits o and up of limb i, and all later limbs, clear. */
  lemma ClearAbove(p: seq<Limb>, i: nat, o: nat)
    requires i < |p| && o <= 32 && Val(p) < Pow2(32 * i + o)
    ensures p[i] < Pow2(o)
  {
    ValSplit(p, i);
    ValCons(p, i);
    BPPow2(i);
    Pow2Add(32 * i, o);
    HighTooSmall(Val(p[..i]), BP(i), p[i], Val(p[i + 1..]), Pow2(o));
  }

  lemma HighTooSmall(lo: nat, w: nat, x: nat, rest: nat, u: nat)
    requires lo + w * (x + BASE * rest) < w * u
    ensures x < u
  {
    if x >= u {
      MulMono(u, x + BASE * rest, w);
    }
  }

  /** ORs d into the w bits from bit o of limb i on, which are still clear. */
  method PutField(X: Mpi, i: nat, o: nat, w: nat, d: nat)
    requires i < |X.p| && o + w <= 32 && d < Pow2(w) && Val(X.p) < Pow2(32 * i + o)
    modifies X`p
    ensures |X.p| == |old(X.p)|
    ensures Val(X.p) == old(Val(X.p)) + d * Pow2(32 * i + o) < Pow2(32 * i + o + w)
  {
    ghost var p0 := X.p;
    ClearAbove(X.p, i, o);
    FieldFits(X.p[i], d, o, w);
    X.p := X.p[i := Or(X.p[i], d * Pow2(o) % BASE)];
    ValUpdate(p0, i, X.p[i]);
    FieldWeight(Val(p0), d, i, o, w);
  }

  lemma FieldFits(x: Limb, d: nat, o: nat, w: nat)
    requires o + w <= 32 && d < Pow2(w) && x < Pow2(o)
    ensures d * Pow2(o) < BASE && Or(x, d * Pow2(o) % BASE) == x + d * Pow2(o) < BASE
  {
    Pow2Add(w, o);
    Pow2Mono(w + o, 32);
    Pow2Values();
    FieldRoom(x, d, Pow2(o), Pow2(w));
    OrDisjoint(d, x, o);
  }

  lemma FieldRoom(x: nat, d: nat, u: nat, v: nat)
    requires x < u && d < v && v * u <= BASE
    ensures 0 <= d * u <= x + d * u < BASE && d * u % BASE == d * u
  {
    ProductRoom(d, v, u);
    NoWrap(d * u);
  }

  lemma FieldWeight(v: nat, d: nat, i: nat, o: nat, w: nat)
    requires v < Pow2(32 * i + o) && d < Pow2(w)
    ensures d * Pow2(o) * BP(i) == d * Pow2(32 * i + o) && v + d * Pow2(32 * i + o) < Pow2(32 * i + o + w)
  {
    BPPow2(i);
    Pow2Add(32 * i, o);
    Associate(d, Pow2(o), BP(i));
    Pow2Add(w, 32 * i + o);
    ProductRoom(d, Pow2(w), Pow2(32 * i + o));
  }

  lemma Associate(a: int, b: int, c: int)
    ensures a * b * c == a * (c * b)
  {
  }

  /** The field of width w at bit o of limb i is that field of the whole value. */
  lemma FieldOfLimbs(p: seq<Limb>, i: nat, o: nat, w: nat)
    requires i < |p| && o + w <= 32
    ensures Val(p) / Pow2(32 * i + o) % Pow2(w) == p[i] / Pow2(o) % Pow2(w)
  {
    ValSplit(p, i);
    ValBound(p[..i]);
    ValCons(p, i);
    DivTwice(Val(p), Val(p[..i]), Val(p[i..]), i, o);
    Pow2Add(32 - o - w, w);
    Pow2Add(32 - o, o);
    Pow2Values();
    HighField(p[i], Pow2(o), Pow2(w), Pow2(32 - o - w), Val(p[i + 1..]));
  }

  lemma HighField(x: nat, u: nat, w: nat, h: nat, rest: nat)
    requires u > 0 && w > 0 && h * w * u == BASE
    ensures (x + BASE * rest) / u % w == x / u % w
  {
    var q := x / u;
    assert BASE * rest == h * rest * w * u by {
      assert h * w * u * rest == h * rest * w * u;
    }
    assert x + BASE * rest == (q + h * rest * w) * u + x % u;
    DivModUnique(x + BASE * rest, u, q + h * rest * w, x % u);
    CongIntro(q + h * rest * w, q, w, h * rest);
    CongMod(q + h * rest * w, q, w);
  }

  // ----- Bytes -----

  /** The big-endian value of a byte string. */
  ghost function BytesVal(s: seq<Byte>): nat {
    if |s| == 0 then 0 else s[0] * Pow2(8 * (|s| - 1)) + BytesVal(s[1..])
  }

  /** Byte k of a number, counted from the least significant. */
  ghost function ByteAt(v: nat, k: nat): Byte {
    v / Pow2(8 * k) % 256
  }

  lemma {:induction false} BytesBound(s: seq<Byte>)
    ensures BytesVal(s) < Pow2(8 * |s|)
  {
    if |s| > 0 {
      BytesBound(s[1..]);
      Pow2Add(8, 8 * (|s| - 1));
      Pow2Values();
      ProductRoom(s[0], 256, Pow2(8 * (|s| - 1)));
    }
  }

  lemma LowBytes(v: nat, m: nat)
    ensures v % Pow2(8 * (m + 1)) == ByteAt(v, m) * Pow2(8 * m) + v % Pow2(8 * m)
  {
    Pow2Add(8, 8 * m);
    Pow2Values();
    LowPart(v, Pow2(8 * m));
  }

  lemma LowPart(v: nat, u: nat)
    requires u > 0
    ensures v % (256 * u) == v / u % 256 * u + v % u
  {
    var q := v / u;
    ByteParts(v, u, q, v % u, q / 256, q % 256);
    DivModUnique(v, 256 * u, q / 256, q % 256 * u + v % u);
  }

  lemma ByteParts(v: int, u: int, q: int, r: int, c: int, b: nat)
    requires v == q * u + r && 0 <= r < u && q == c * 256 + b && b < 256
    ensures v == c * (256 * u) + (b * u + r) && 0 <= b * u + r < 256 * u
  {
    assert (c * 256 + b) * u == c * (256 * u) + b * u;
    MulMono(0, b, u);
    MulMono(b + 1, 256, u);
  }

  /** A string of the bytes of v, most significant first, denotes v modulo its capacity. */
  lemma {:induction false} BytesOfValue(s: seq<Byte>, v: nat)
    requires forall k :: 0 <= k < |s| ==> s[|s| - 1 - k] == ByteAt(v, k)
    ensures BytesVal(s) == v % Pow2(8 * |s|)
  {
    if |s| == 0 {
      DivModUnique(v, 1, v, 0);
    } else {
      var m := |s| - 1;
      assert s[m - m] == ByteAt(v, m);
      forall k | 0 <= k < m
        ensures s[1..][m - 1 - k] == ByteAt(v, k)
      {
        assert s[1..][m - 1 - k] == s[m - k];
      }
      BytesOfValue(s[1..], v);
      LowBytes(v, m);
    }
  }

  /** Byte strings of one length with one value are equal. */
  lemma {:induction false} BytesInjective(s: seq<Byte>, t: seq<Byte>)
    requires |s| == |t| && BytesVal(s) == BytesVal(t)
    ensures s == t
  {
    if |s| > 0 {
      var u := Pow2(8 * (|s| - 1));
      BytesBound(s[1..]);
      BytesBound(t[1..]);
      DivModUnique(BytesVal(s), u, s[0], BytesVal(s[1..]));
      DivModUnique(BytesVal(t), u, t[0], BytesVal(t[1..]));
      BytesInjective(s[1..], t[1..]);
      assert s == [s[0]] + s[1..] && t == [t[0]] + t[1..];
    }
  }

  /** Byte k of a byte string's value is its byte k from the end. */
  lemma BytesOfString(s: seq<Byte>)
    ensures forall k :: 0 <= k < |s| ==> s[|s| - 1 - k] == ByteAt(BytesVal(s), k)
  {
    var v := BytesVal(s);
    var t: seq<Byte> := seq(|s|, i requires 0 <= i < |s| => ByteAt(v, |s| - 1 - i));
    BytesOfValue(t, v);
    BytesBound(s);
    DivModUnique(v, Pow2(8 * |s|), 0, v);
    BytesInjective(s, t);
  }

  /** CHARS_TO_LIMBS */
  function CharsToLimbs(i: nat): nat {
    i / 4 + if i % 4 != 0 then 1 else 0
  }

  /** mbedtls_mpi_read_binary */
  method ReadBinary(X: Mpi, buf: seq<Byte>)
    modifies X
    ensures X.s == 1 && Val(X.p) == BytesVal(buf)
    ensures 4 * |X.p| >= |buf| && |X.p| >= 1 && (|X.p| > 1 ==> 4 * (|X.p| - 1) < |buf|)
    ensures forall k :: 0 <= k < |buf| ==> buf[|buf| - 1 - k] == ByteAt(Val(X.p), k)
  {
    BytesOfString(buf);
    var limbs := CharsToLimbs(|buf|);
    if |X.p| != limbs {
      Free(X);
      Grow(X, limbs);
    }
    Lset(X, 0);
    ReadBytes(X, buf);
  }

  /** The byte loop of mbedtls_mpi_read_binary, from the last byte to the first. */
  method ReadBytes(X: Mpi, buf: seq<Byte>)
    requires Val(X.p) == 0 && |buf| <= 4 * |X.p|
    modifies X`p
    ensures Val(X.p) == BytesVal(buf) && |X.p| == |old(X.p)|
  {
    var i: nat, j: nat := |buf|, 0;
    assert buf[i..] == [];
    while i > 0
      invariant i + j == |buf| && |X.p| == |old(X.p)|
      invariant Val(X.p) == BytesVal(buf[i..]) < Pow2(8 * j)
    {
      PutByte(X, j, buf[i - 1]);
      assert buf[i - 1..][1..] == buf[i..];
      i, j := i - 1, j + 1;
    }
    assert buf[0..] == buf;
  }

  /** ORs byte number j, counted from the least significant, into its limb. */
  method PutByte(X: Mpi, j: nat, b: Byte)
    requires j < 4 * |X.p| && Val(X.p) < Pow2(8 * j)
    modifies X`p
    ensures |X.p| == |old(X.p)| && Val(X.p) == old(Val(X.p)) + b * Pow2(8 * j) < Pow2(8 * (j + 1))
  {
    Pow2Values();
    assert 8 * j == 32 * (j / 4) + 8 * (j % 4);
    PutField(X, j / CI_L, 8 * (j % CI_L), 8, b);
  }

  /** GET_BYTE */
  method GetByte(X: Mpi, i: nat) returns (b: Byte)
    requires i < 4 * |X.p|
    ensures b == ByteAt(Val(X.p), i)
  {
    Pow2Values();
    FieldOfLimbs(X.p, i / CI_L, 8 * (i % CI_L), 8);
    assert 8 * i == 32 * (i / 4) + 8 * (i % 4);
    b := Shr(X.p[i / CI_L], i % CI_L * 8) % 256;
  }

  lemma StoredBytes(p: seq<Limb>)
    ensures Val(p) < Pow2(8 * (4 * |p|))
  {
    ValBound(p);
    BPPow2(|p|);
  }

  lemma NoHighByte(v: nat, k: nat)
    requires v < Pow2(8 * k)
    ensures ByteAt(v, k) == 0
  {
    DivModUnique(v, Pow2(8 * k), 0, v);
  }

  /** A number below 256^(k+1) whose byte k is zero is below 256^k, and conversely. */
  lemma TopByte(v: nat, k: nat)
    requires v < Pow2(8 * (k + 1))
    ensures ByteAt(v, k) == 0 <==> v < Pow2(8 * k)
  {
    LowBytes(v, k);
    DivModUnique(v, Pow2(8 * (k + 1)), 0, v);
    if v < Pow2(8 * k) {
      NoHighByte(v, k);
    }
  }

  lemma BytesAbove(v: nat, k: nat, m: nat)
    requires k <= m && v < Pow2(8 * k)
    ensures ByteAt(v, m) == 0
  {
    Pow2Mono(8 * k, 8 * m);
    NoHighByte(v, m);
  }

  /** Does X fit n bytes? The loop looks at each stored byte from n up. */
  method HighBytesZero(X: Mpi, n: nat) returns (fits: bool)
    requires n <= 4 * |X.p|
    ensures fits <==> Val(X.p) < Pow2(8 * n)
  {
    var stored := 4 * |X.p|;
    ghost var v := Val(X.p);
    StoredBytes(X.p);
    var i := n;
    while i < stored
      invariant n <= i <= stored && forall k :: n <= k < i ==> ByteAt(v, k) == 0
    {
      var b := GetByte(X, i);
      if b != 0 {
        if v < Pow2(8 * n) {
          BytesAbove(v, n, i);
        }
        return false;
      }
      i := i + 1;
    }
    ZeroBytesDown(v, n, stored);
    return true;
  }

  lemma {:induction false} ZeroBytesDown(v: nat, n: nat, m: nat)
    requires n <= m && v < Pow2(8 * m) && forall k :: n <= k < m ==> ByteAt(v, k) == 0
    ensures v < Pow2(8 * n)
  {
    if n < m {
      TopByte(v, m - 1);
      ZeroBytesDown(v, n, m - 1);
    }
  }

  /** mbedtls_mpi_write_binary, filling the whole caller's buffer. */
  method WriteBinary(X: Mpi, buf: array<Byte>) returns (ret: Status)
    modifies buf
    ensures ret == if Val(X.p) < Pow2(8 * buf.Length) then Ok else BufferTooSmall
    ensures ret.Ok? ==> BytesVal(buf[..]) == Val(X.p)
    ensures ret.Ok? ==> forall k :: 0 <= k < buf.Length ==> buf[buf.Length - 1 - k] == ByteAt(Val(X.p), k)
    ensures !ret.Ok? ==> buf[..] == old(buf[..])
  {
    var stored := |X.p| * CI_L;
    ghost var v := Val(X.p);
    StoredBytes(X.p);
    var copy, off := buf.Length, 0;
    if stored < buf.Length {
      Pow2Mono(8 * stored, 8 * buf.Length);
      copy, off := stored, buf.Length - stored;
      ZeroFill(buf, off);
    } else {
      var fits := HighBytesZero(X, buf.Length);
      if !fits {
        return BufferTooSmall;
      }
    }
    StoreBytes(X, buf, copy, off);
    DivModUnique(v, Pow2(8 * buf.Length), 0, v);
    BytesOfValue(buf[..], v);
    return Ok;
  }

  /** Zeroes the first n bytes of the buffer. */
  method ZeroFill(buf: array<Byte>, n: nat)
    requires n <= buf.Length
    modifies buf
    ensures forall k :: 0 <= k < n ==> buf[k] == 0
  {
    var z := 0;
    while z < n
      invariant 0 <= z <= n && forall k :: 0 <= k < z ==> buf[k] == 0
    {
      buf[z] := 0;
      z := z + 1;
    }
  }

  /** Stores the low bytes of X at the end of the buffer, least significant last. */
  method StoreBytes(X: Mpi, buf: array<Byte>, copy: nat, off: nat)
    requires off + copy == buf.Length && copy <= 4 * |X.p| && (off > 0 ==> copy == 4 * |X.p|)
    requires forall k :: 0 <= k < off ==> buf[k] == 0
    modifies buf
    ensures forall k :: 0 <= k < buf.Length ==> buf[buf.Length - 1 - k] == ByteAt(Val(X.p), k)
  {
    var i := 0;
    while i < copy
      invariant 0 <= i <= copy
      invariant forall k :: 0 <= k < i ==> buf[buf.Length - 1 - k] == ByteAt(Val(X.p), k)
      invariant forall k :: 0 <= k < off ==> buf[k] == 0
    {
      var b := GetByte(X, i);
      buf[off + copy - i - 1] := b;
      i := i + 1;
    }
    StoredBytes(X.p);
    forall k | copy <= k < buf.Length
      ensures ByteAt(Val(X.p), k) == 0
    {
      BytesAbove(Val(X.p), copy, k);
    }
  }

  /** Exporting an imported byte string into a buffer of its length gives the same bytes. */
  method ImportExport(X: Mpi, bytes: seq<Byte>, buf: array<Byte>) returns (ret: Status)
    requires buf.Length == |bytes|
    modifies X, buf
    ensures ret == Ok && buf[..] == bytes
  {
    ReadBinary(X, bytes);
    BytesBound(bytes);
    ret := WriteBinary(X, buf);
    BytesInjective(buf[..], bytes);
  }

  // ----- Hexadecimal strings -----

  /** mpi_get_digit: the digit value, 255 for any other character. */
  function DigitOf(c: char): nat {
    if '0' <= c <= '9' then c as int - 0x30
    else if 'A' <= c <= 'F' then c as int - 0x37
    else if 'a' <= c <= 'f' then c as int - 0x57
    else 255
  }

  /** The digits are the characters of the printed tables with their places there, and no other character. */
  lemma DigitTable(c: char, d: nat)
    requires d < 16
    ensures DigitOf(c) == d <==> StandsFor(c, d)
    ensures DigitOf(c) < 16 <==> c in "0123456789ABCDEFabcdef"
    ensures DigitOf(c) < 16 || DigitOf(c) == 255
  {
  }

  ghost predicate AllDigits(s: string, radix: nat) {
    forall i :: 0 <= i < |s| ==> DigitOf(s[i]) < radix
  }

  /** The positional value of a string of digits, most significant first. */
  ghost function RadixVal(s: string, radix: nat): nat {
    if |s| == 0 then 0 else RadixVal(s[..|s| - 1], radix) * radix + DigitOf(s[|s| - 1])
  }

  /** A string of digits has its positional value, and no other, as a numeral of the radix; any other string
      is no numeral at all. */
  lemma RadixValExact(s: string, v: nat, radix: nat)
    requires 2 <= radix <= 16
    ensures AllDigits(s, radix) && RadixVal(s, radix) == v <==> IsNumeral(s, v, radix, radix)
  {
    if AllDigits(s, radix) {
      DigitsNumeral(s, radix);
    }
    if IsNumeral(s, v, radix, radix) {
      NumeralRead(s, v, radix);
    }
  }

  lemma {:induction false} DigitsNumeral(s: string, radix: nat)
    requires 2 <= radix <= 16 && AllDigits(s, radix)
    ensures IsNumeral(s, RadixVal(s, radix), radix, radix)
  {
    if |s| > 0 {
      var pre, c := s[..|s| - 1], s[|s| - 1];
      assert forall i :: 0 <= i < |pre| ==> pre[i] == s[i];
      DigitsNumeral(pre, radix);
      DigitTable(c, DigitOf(c));
      NumeralSnoc(pre, c, DigitOf(c), RadixVal(pre, radix), radix, radix);
      assert s == pre + [c];
    }
  }

  lemma {:induction false} NumeralRead(s: string, v: nat, radix: nat)
    requires 2 <= radix <= 16 && IsNumeral(s, v, radix, radix)
    ensures AllDigits(s, radix) && RadixVal(s, radix) == v
  {
    if |s| > 0 {
      var d, u := NumeralLast(s, v, radix, radix);
      DigitTable(s[|s| - 1], d);
      NumeralRead(s[..|s| - 1], u, radix);
      assert forall i :: 0 <= i < |s| - 1 ==> s[i] == s[..|s| - 1][i];
    }
  }

  /** A string is a numeral of the radix exactly when all its characters are digits below the radix. */
  lemma DigitsAreNumerals(s: string, radix: nat)
    requires 2 <= radix <= 16
    ensures AllDigits(s, radix) <==> exists v: nat :: IsNumeral(s, v, radix, radix)
    ensures AllDigits(s, radix) ==> IsNumeral(s, RadixVal(s, radix), radix, radix)
  {
    if AllDigits(s, radix) {
      DigitsNumeral(s, radix);
      assert exists v: nat :: IsNumeral(s, v, radix, radix);
    }
    forall v: nat | IsNumeral(s, v, radix, radix)
      ensures AllDigits(s, radix)
    {
      NumeralRead(s, v, radix);
    }
  }

  ghost predicate Negative(s: string) {
    |s| > 0 && s[0] == '-'
  }

  ghost function Digits(s: string): string {
    if Negative(s) then s[1..] else s
  }

  /** What the strings of one radix denote: their digits' value, with an optional leading minus. */
  ghost predicate Reads(X: Mpi, s: string, radix: nat)
    reads X
  {
    ReadsAs(Val(X.p), X.s, s, radix)
  }

  ghost predicate ReadsAs(v: nat, sign: int, s: string, radix: nat) {
    v == RadixVal(Digits(s), radix) && sign == if Negative(s) then -1 else 1
  }

  /** ORs hexadecimal digit number j, counted from the least significant, into its limb. */
  method PutNibble(X: Mpi, j: nat, d: nat)
    requires j < 8 * |X.p| && d < 16 && Val(X.p) < Pow2(4 * j)
    modifies X`p
    ensures |X.p| == |old(X.p)| && Val(X.p) == old(Val(X.p)) + d * Pow2(4 * j) < Pow2(4 * (j + 1))
  {
    Pow2Values();
    assert 4 * j == 32 * (j / 8) + 4 * (j % 8);
    PutField(X, j / (2 * CI_L), 4 * (j % (2 * CI_L)), 4, d);
  }

  /** The branch of mbedtls_mpi_read_string for radix 16, where every digit is four bits. */
  method ReadHexString(X: Mpi, s: string) returns (ret: Status)
    modifies X
    ensures ret == if AllDigits(Digits(s), 16) then Ok else InvalidCharacter
    ensures ret.Ok? ==> Reads(X, s, 16)
  {
    Grow(X, BitsToLimbs(4 * |s|));
    Lset(X, 0);
    ret := ReadHexDigits(X, s);
  }

  /** The digit loop of mbedtls_mpi_read_string, from the last character to the first. */
  method ReadHexDigits(X: Mpi, s: string) returns (ret: Status)
    requires Val(X.p) == 0 && X.s == 1 && |s| <= 8 * |X.p|
    modifies X
    ensures ret == if AllDigits(Digits(s), 16) then Ok else InvalidCharacter
    ensures ret.Ok? ==> Reads(X, s, 16)
  {
    var i: nat, j: nat := |s|, 0;
    assert s[i..] == "";
    while i > 0
      invariant i + j == |s| <= 8 * |X.p| && X.s == 1 && HexRead(Val(X.p), s, i)
    {
      if i == 1 && s[i - 1] == '-' {
        X.s := -1;
        return Ok;
      }
      var d := DigitOf(s[i - 1]);
      if d >= 16 {
        BadDigit(s, i - 1, 16);
        return InvalidCharacter;
      }
      ghost var v := Val(X.p);
      PutNibble(X, j, d);
      NextDigit(s, i, v, Val(X.p));
      i, j := i - 1, j + 1;
    }
    AllRead(s, Val(X.p));
    return Ok;
  }

  /** The characters from i on are digits of value v, which fits their four bits each. */
  ghost predicate HexRead(v: nat, s: string, i: nat)
    requires i <= |s|
  {
    AllDigits(s[i..], 16) && v == RadixVal(s[i..], 16) && v < Pow2(4 * (|s| - i))
  }

  lemma NextDigit(s: string, i: nat, v: nat, v': nat)
    requires 0 < i <= |s| && DigitOf(s[i - 1]) < 16 && HexRead(v, s, i)
    requires v' == v + DigitOf(s[i - 1]) * Pow2(4 * (|s| - i)) < Pow2(4 * (|s| - i + 1))
    ensures HexRead(v', s, i - 1)
  {
    assert s[i - 1..] == [s[i - 1]] + s[i..];
    LeadingHexDigit(s[i - 1], s[i..]);
  }

  lemma AllRead(s: string, v: nat)
    requires HexRead(v, s, 0)
    ensures !Negative(s) && AllDigits(s, 16) && v == RadixVal(s, 16)
  {
    assert s[0..] == s;
    assert |s| > 0 ==> DigitOf(s[0]) < 16;
  }

  /** A digit in front weighs 16 to the number of digits behind it. */
  lemma {:induction false} LeadingHexDigit(c: char, s: string)
    ensures RadixVal([c] + s, 16) == RadixVal(s, 16) + DigitOf(c) * Pow2(4 * |s|)
  {
    if |s| == 0 {
      assert [c] + s == [c] && [c][..0] == "";
    } else {
      var pre := s[..|s| - 1];
      LeadingHexDigit(c, pre);
      assert ([c] + s)[..|s|] == [c] + pre;
      Pow2Add(4, 4 * |pre|);
      Pow2Values();
      SixteenTimes(DigitOf(c), Pow2(4 * |pre|));
    }
  }

  lemma SixteenTimes(d: nat, p: nat)
    ensures d * (16 * p) == d * p * 16
  {
  }

  lemma BadDigit(s: string, k: nat, radix: nat)
    requires k < |s| && DigitOf(s[k]) >= radix && (k > 0 || s[0] != '-')
    ensures !AllDigits(Digits(s), radix)
  {
    if Negative(s) {
      assert Digits(s)[k - 1] == s[k];
    } else {
      assert Digits(s)[k] == s[k];
    }
  }

  // ----- The other radices, which need the product loop -----

  /** What the digit loop accumulates: without the product loop only the last digit survives. */
  ghost function Accumulated(s: string, radix: nat, product: bool): nat {
    if |s| == 0 then 0
    else (if product then Accumulated(s[..|s| - 1], radix, product) * radix else 0) + DigitOf(s[|s| - 1])
  }

  lemma {:induction false} AccumulatedValue(s: string, radix: nat)
    ensures Accumulated(s, radix, true) == RadixVal(s, radix)
  {
    if |s| != 0 {
      AccumulatedValue(s[..|s| - 1], radix);
    }
  }

  /** As shipped the magnitude read is the number written exactly when all digits but the last are zeros. */
  lemma ShippedDigits(s: string, radix: nat)
    requires |s| > 0 && radix > 0
    ensures Accumulated(s, radix, false) == RadixVal(s, radix) <==> RadixVal(s[..|s| - 1], radix) == 0
  {
    var v := RadixVal(s[..|s| - 1], radix);
    if v > 0 {
      MulMono(1, v, radix);
    }
  }

  /** X <- X * radix + d, away from zero. */
  method AppendDigit(X: Mpi, T: Mpi, radix: nat, d: nat, product: bool)
    requires X != T && X.Signed() && radix <= 16 && d < 16
    modifies X, T
    ensures X.Signed() && Val(X.p) == (if product then old(Val(X.p)) * radix else 0) + d
    ensures X.s == if product || d > 0 then old(X.s) else 1
  {
    MulInt(T, X, radix, product);
    SignedProduct(X.s, Val(X.p), radix);
    var ret;
    if X.s == 1 {
      ret := AddInt(X, T, d);
    } else {
      ret := SubInt(X, T, d);
    }
  }

  lemma SignedProduct(s: int, v: nat, r: nat)
    ensures -(v as int) * r == -(v * r) && v * r >= 0
  {
  }

  /** The characters before i, the sign apart. */
  ghost function ReadSoFar(s: string, i: nat): string
    requires i <= |s|
  {
    if Negative(s) && i > 0 then s[1..i] else s[..i]
  }

  /** The sign after those characters: without the product loop, reading a zero turns it back to plus. */
  ghost function SignSoFar(s: string, i: nat, product: bool): int
    requires i <= |s|
  {
    if Negative(s) && i > 0 && (product || '0' !in ReadSoFar(s, i)) then -1 else 1
  }

  lemma ReadOneMore(s: string, i: nat, radix: nat, product: bool)
    requires i < |s| && (i > 0 || s[0] != '-')
    ensures Accumulated(ReadSoFar(s, i + 1), radix, product)
            == (if product then Accumulated(ReadSoFar(s, i), radix, product) * radix else 0) + DigitOf(s[i])
    ensures AllDigits(ReadSoFar(s, i), radix) && DigitOf(s[i]) < radix ==> AllDigits(ReadSoFar(s, i + 1), radix)
    ensures SignSoFar(s, i + 1, product) == if product || DigitOf(s[i]) > 0 then SignSoFar(s, i, product) else 1
  {
    var read := ReadSoFar(s, i + 1);
    assert read[..|read| - 1] == ReadSoFar(s, i) && read[|read| - 1] == s[i];
    assert read == ReadSoFar(s, i) + [s[i]];
  }

  /** The characters before i are digits, and v and sign are what has been read from them. */
  ghost predicate RadixRead(v: nat, sign: int, s: string, i: nat, radix: nat, product: bool)
    requires i <= |s|
  {
    AllDigits(ReadSoFar(s, i), radix) && v == Accumulated(ReadSoFar(s, i), radix, product)
    && sign == SignSoFar(s, i, product)
  }

  /** The body of the digit loop. */
  method ReadRadixDigit(X: Mpi, T: Mpi, radix: nat, s: string, i: nat, product: bool) returns (ret: Status)
    requires X != T && X.Signed() && 2 <= radix < 16 && i < |s|
    requires RadixRead(Val(X.p), X.s, s, i, radix, product)
    modifies X, T
    ensures ret == if (i == 0 && s[0] == '-') || DigitOf(s[i]) < radix then Ok else InvalidCharacter
    ensures ret.Ok? ==> X.Signed() && RadixRead(Val(X.p), X.s, s, i + 1, radix, product)
    ensures !ret.Ok? ==> !AllDigits(Digits(s), radix)
  {
    if i == 0 && s[i] == '-' {
      X.s := -1;
      return Ok;
    }
    var d := DigitOf(s[i]);
    if d >= radix {
      BadDigit(s, i, radix);
      return InvalidCharacter;
    }
    ReadOneMore(s, i, radix, product);
    AppendDigit(X, T, radix, d, product);
    return Ok;
  }

  /** The branch of mbedtls_mpi_read_string for the radices below 16. */
  method ReadRadixString(X: Mpi, radix: nat, s: string, product: bool) returns (ret: Status)
    requires 2 <= radix < 16
    modifies X
    ensures ret == if AllDigits(Digits(s), radix) then Ok else InvalidCharacter
    ensures ret.Ok? ==> Val(X.p) == Accumulated(Digits(s), radix, product) && X.s == SignSoFar(s, |s|, product)
    ensures ret.Ok? && product ==> Reads(X, s, radix)
  {
    var T := new Mpi();
    Lset(X, 0);
    var i: nat := 0;
    while i < |s|
      invariant i <= |s| && X.Signed() && fresh(T) && RadixRead(Val(X.p), X.s, s, i, radix, product)
    {
      ret := ReadRadixDigit(X, T, radix, s, i, product);
      if ret != Ok {
        return;
      }
      i := i + 1;
    }
    assert ReadSoFar(s, |s|) == Digits(s);
    AccumulatedValue(Digits(s), radix);
    return Ok;
  }

  lemma {:induction false} ZeroString(s: string, radix: nat)
    requires radix > 0
    ensures RadixVal(s, radix) == 0 <==> forall i :: 0 <= i < |s| ==> s[i] == '0'
  {
    if |s| > 0 {
      var v := RadixVal(s[..|s| - 1], radix);
      ZeroString(s[..|s| - 1], radix);
      if v > 0 {
        MulMono(1, v, radix);
      }
      assert forall i :: 0 <= i < |s| - 1 ==> s[i] == s[..|s| - 1][i];
    }
  }

  /** Every digit before the last is a zero. */
  ghost predicate LeadingZeros(d: string) {
    forall i :: 0 <= i < |d| - 1 ==> d[i] == '0'
  }

  lemma ShippedMagnitude(d: string, radix: nat)
    requires radix > 0
    ensures Accumulated(d, radix, false) == RadixVal(d, radix) <==> LeadingZeros(d)
    ensures Accumulated(d, radix, false) == 0 && LeadingZeros(d) ==> forall i :: 0 <= i < |d| ==> d[i] == '0'
  {
    if |d| > 0 {
      ShippedDigits(d, radix);
      ZeroString(d[..|d| - 1], radix);
      assert forall i :: 0 <= i < |d| - 1 ==> d[i] == d[..|d| - 1][i];
    }
  }

  /** As shipped, a string below radix 16 is read with its value and sign exactly when the digits before the
      last are zeros and no zero follows a minus; the value alone is also right for a minus and zeros. */
  lemma ShippedStringExact(s: string, radix: nat)
    requires radix > 0
    ensures ReadsAs(Accumulated(Digits(s), radix, false), SignSoFar(s, |s|, false), s, radix) <==>
            LeadingZeros(Digits(s)) && (Negative(s) ==> '0' !in Digits(s))
    ensures SignSoFar(s, |s|, false) * Accumulated(Digits(s), radix, false)
            == (if Negative(s) then -1 else 1) * RadixVal(Digits(s), radix) <==>
            LeadingZeros(Digits(s))
            && (Negative(s) ==> '0' !in Digits(s) || forall i :: 0 <= i < |Digits(s)| ==> Digits(s)[i] == '0')
  {
    var d := Digits(s);
    assert ReadSoFar(s, |s|) == d;
    ShippedMagnitude(d, radix);
    ZeroString(d, radix);
  }

  /** As shipped "10" is read as 0, and "-05" as +5. */
  lemma ShippedStringFails()
    ensures Accumulated(Digits("10"), 10, false) == 0
    ensures Accumulated(Digits("-05"), 10, false) == 5 && SignSoFar("-05", 3, false) == 1
  {
    assert Digits("-05") == "05" == ReadSoFar("-05", 3);
    assert "05"[0] == '0';
  }

  /** mbedtls_mpi_read_string */
  method ReadString(X: Mpi, radix: int, s: string, product: bool) returns (ret: Status)
    modifies X
    ensures ret == if radix < 2 || radix > 16 then BadInputData
                   else if AllDigits(Digits(s), radix) then Ok else InvalidCharacter
    ensures 2 <= radix <= 16 ==> (ret.Ok? <==> exists v: nat :: IsNumeral(Digits(s), v, radix, radix))
    ensures ret.Ok? && (product || radix == 16) ==> Reads(X, s, radix) && IsNumeral(Digits(s), Val(X.p), radix, radix)
    ensures ret.Ok? && radix != 16 ==>
      Val(X.p) == Accumulated(Digits(s), radix, product) && X.s == SignSoFar(s, |s|, product)
  {
    if radix < 2 || radix > 16 {
      return BadInputData;
    }
    DigitsAreNumerals(Digits(s), radix);
    if radix == 16 {
      ret := ReadHexString(X, s);
    } else {
      ret := ReadRadixString(X, radix, s, product);
    }
  }

  // ----- Canonical printing, the partner of the reader -----

  /** An integer in a radix, with a minus in front of the negative ones, in either case of the letters. */
  function PrintedInt(v: int, radix: nat, upper: bool): string
    requires 2 <= radix <= 16
  {
    if v < 0 then "-" + Numeral(-v, radix, upper) else Numeral(v, radix, upper)
  }

  /** What follows the sign of a printed integer is all digits, of the magnitude's value. */
  lemma PrintedDigits(v: int, radix: nat, upper: bool)
    requires 2 <= radix <= 16
    ensures var s, m: nat := PrintedInt(v, radix, upper), if v < 0 then -v else v;
      (Negative(s) <==> v < 0) && AllDigits(Digits(s), radix) && RadixVal(Digits(s), radix) == m
  {
    var s, m: nat := PrintedInt(v, radix, upper), if v < 0 then -v else v;
    var d := Numeral(m, radix, upper);
    Printed(m, radix, upper);
    RadixValExact(d, m, radix);
    assert DigitOf(d[0]) < radix && d[0] != '-';
    assert v < 0 ==> s[1..] == d;
  }

  /** Reading what was printed gives back every integer, in every radix whose branch is intact and with letters
      of either case. */
  method PrintAndRead(X: Mpi, v: int, radix: nat, upper: bool, product: bool) returns (ret: Status)
    requires 2 <= radix <= 16 && (product || radix == 16)
    modifies X
    ensures ret == Ok && X.Value() == v
  {
    PrintedDigits(v, radix, upper);
    ret := ReadString(X, radix, PrintedInt(v, radix, upper), product);
  }
}
