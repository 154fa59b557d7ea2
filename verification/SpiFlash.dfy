/** The page-splitting writer of the SPI flash demo, over a model of the NOR flash chip. */
module SpiFlash {
  import opened Arith

  const CHIP_SIZE: nat := 0x100_0000
  const PAGE: nat := 256
  const SECTOR: nat := 4096
  const U16: int := 0x1_0000

  // ----- The chip -----

  /** Programming clears bits: bitwise AND of n-bit numbers. */
  function And(a: nat, b: nat, n: nat): nat {
    if n == 0 then 0 else (if a % 2 == 1 && b % 2 == 1 then 1 else 0) + 2 * And(a / 2, b / 2, n - 1)
  }

  lemma {:induction false} AndBound(a: nat, b: nat, n: nat)
    ensures And(a, b, n) <= b
  {
    if n > 0 {
      AndBound(a / 2, b / 2, n - 1);
    }
  }

  function Programmed(was: Byte, value: Byte): Byte {
    AndBound(was, value, 8);
    And(was, value, 8)
  }

  function Ones(n: nat): nat {
    if n == 0 then 0 else 1 + 2 * Ones(n - 1)
  }

  lemma {:induction false} AndOnes(b: nat, n: nat)
    requires b <= Ones(n)
    ensures And(Ones(n), b, n) == b
  {
    if n > 0 {
      AndOnes(b / 2, n - 1);
    }
  }

  /** An erased byte takes the programmed value. */
  lemma ErasedTakes(b: Byte)
    ensures Programmed(0xFF, b) == b
  {
    assert Ones(4) == 15 && Ones(8) == 255;
    AndOnes(b, 8);
  }

  ghost function Bit(v: nat, i: nat): int {
    v / Pow2(i) % 2
  }

  lemma BitAbove(v: nat, i: nat)
    requires i > 0
    ensures v / 2 >= 0 && Bit(v, i) == Bit(v / 2, i - 1)
  {
    var h, u := v / 2, Pow2(i - 1);
    DivModUnique(v, 2 * u, h / u, h % u * 2 + v % 2);
  }

  lemma LowBit(v: nat)
    ensures Bit(v, 0) == v % 2
  {
    assert Pow2(0) == 1;
  }

  lemma AndLow(a: nat, b: nat, n: nat)
    requires n > 0
    ensures And(a, b, n) / 2 == And(a / 2, b / 2, n - 1)
    ensures And(a, b, n) % 2 == 1 <==> a % 2 == 1 && b % 2 == 1
  {
  }

  lemma {:induction false} AndBits(a: nat, b: nat, n: nat, i: nat)
    requires i < n
    ensures Bit(And(a, b, n), i) == 1 <==> Bit(a, i) == 1 && Bit(b, i) == 1
  {
    var c := And(a, b, n);
    AndLow(a, b, n);
    if i == 0 {
      LowBit(a);
      LowBit(b);
      LowBit(c);
    } else {
      BitAbove(a, i);
      BitAbove(b, i);
      BitAbove(c, i);
      AndBits(a / 2, b / 2, n - 1, i - 1);
    }
  }

  /** After programming a bit of a byte is set exactly when it was set and is set in the value. */
  lemma ProgrammedBits(was: Byte, value: Byte, i: nat)
    requires i < 8
    ensures Programmed(was, value) / Pow2(i) % 2 == 1 <==> was / Pow2(i) % 2 == 1 && value / Pow2(i) % 2 == 1
  {
    AndBits(was, value, 8, i);
  }

  /** How far address x lies beyond address a, going round the end of the chip. */
  function Beyond(x: nat, a: nat): nat {
    (x - a) % CHIP_SIZE
  }

  /** The memory after the bytes d are programmed at addresses a, a + 1, ..., going round the end of the chip. */
  function Cleared(mem: seq<Byte>, a: nat, d: seq<Byte>): (r: seq<Byte>)
    ensures |r| == |mem|
  {
    seq(|mem|, x requires 0 <= x < |mem| =>
      if Beyond(x, a) < |d| then Programmed(mem[x], d[Beyond(x, a)]) else mem[x])
  }

  /** Writing only clears bits: one is set afterwards exactly when it was set and, in the range written, is set
      in the data. */
  lemma ClearedBits(mem: seq<Byte>, a: nat, d: seq<Byte>)
    ensures forall x, i :: 0 <= x < |mem| && 0 <= i < 8 ==>
      (Bit(Cleared(mem, a, d)[x], i) == 1 <==>
       Bit(mem[x], i) == 1 && (Beyond(x, a) < |d| ==> Bit(d[Beyond(x, a)], i) == 1))
    ensures forall x :: 0 <= x < |mem| && Beyond(x, a) >= |d| ==> Cleared(mem, a, d)[x] == mem[x]
  {
    forall x, i | 0 <= x < |mem| && 0 <= i < 8
      ensures Bit(Cleared(mem, a, d)[x], i) == 1 <==>
              Bit(mem[x], i) == 1 && (Beyond(x, a) < |d| ==> Bit(d[Beyond(x, a)], i) == 1)
    {
      if Beyond(x, a) < |d| {
        ProgrammedBits(mem[x], d[Beyond(x, a)], i);
      }
    }
  }

  /** The address bytes sent after a command, and the address the chip decodes from them. */
  function AddressByte(a: nat, shift: nat): Byte
    requires shift > 0
  {
    a / shift % 256
  }

  function Decoded(c1: Byte, c2: Byte, c3: Byte): nat {
    c1 * 0x1_0000 + c2 * 0x100 + c3
  }

  /** The chip takes the bytes of an address most significant first. */
  lemma DecodedBytes(c1: Byte, c2: Byte, c3: Byte)
    ensures var a := Decoded(c1, c2, c3);
      a < CHIP_SIZE && a / 0x1_0000 == c1 && a / 0x100 % 0x100 == c2 && a % 0x100 == c3
  {
    DivModUnique(Decoded(c1, c2, c3), 0x1_0000, c1, c2 * 0x100 + c3);
    DivModUnique(Decoded(c1, c2, c3), 0x100, c1 * 0x100 + c2, c3);
    DivModUnique(c1 * 0x100 + c2, 0x100, c1, c2);
  }

  lemma DecodedAddress(a: nat)
    ensures Decoded(AddressByte(a, 0x1_0000), AddressByte(a, 0x100), AddressByte(a, 1)) == a % CHIP_SIZE
  {
    var q1 := a / 0x100;
    var q2 := q1 / 0x100;
    assert a / 0x1_0000 == q2;
    var q3 := q2 / 0x100;
    assert a == q3 * 0x100_0000 + (q2 % 0x100 * 0x1_0000 + q1 % 0x100 * 0x100 + a % 0x100);
  }

  /** The memory after a page program of d at address a: the column counter wraps inside the page. */
  function PageProgrammed(mem: seq<Byte>, a: nat, d: seq<Byte>): (r: seq<Byte>)
    ensures |r| == |mem|
  {
    seq(|mem|, x requires 0 <= x < |mem| =>
      if x / PAGE == a / PAGE && (x - a) % PAGE < |d| then Programmed(mem[x], d[(x - a) % PAGE]) else mem[x])
  }

  /** The memory after erasing the 4 KiB sector that holds address a. */
  function SectorErased(mem: seq<Byte>, a: nat): (r: seq<Byte>)
    ensures |r| == |mem|
  {
    seq(|mem|, x requires 0 <= x < |mem| => if x / SECTOR == a / SECTOR then 0xFF else mem[x])
  }

  /** The address i places beyond a, going round the end of the chip. */
  function Place(a: nat, i: nat): nat {
    (a + i) % CHIP_SIZE
  }

  /** The bytes at a, a + 1, ..., going round the end of the chip. */
  function BytesFrom(mem: seq<Byte>, a: nat, n: nat): (r: seq<Byte>)
    requires |mem| == CHIP_SIZE
    ensures |r| == n && forall i :: 0 <= i < n ==> r[i] == mem[Place(a, i)]
  {
    seq(n, i requires 0 <= i && |mem| == CHIP_SIZE => mem[Place(a, i)])
  }

  class Chip {
    var mem: seq<Byte>
    /** Every page-program command received: its address and data. */
    ghost var log: seq<(nat, seq<Byte>)>

    ghost predicate Valid()
      reads this
    {
      |mem| == CHIP_SIZE
    }

    constructor (image: seq<Byte>)
      requires |image| == CHIP_SIZE
      ensures Valid() && mem == image && log == []
    {
      mem, log := image, [];
    }

    method PageProgram(c1: Byte, c2: Byte, c3: Byte, data: seq<Byte>)
      requires Valid() && |data| <= PAGE
      modifies this
      ensures Valid() && log == old(log) + [(Decoded(c1, c2, c3), data)]
      ensures mem == PageProgrammed(old(mem), Decoded(c1, c2, c3), data)
    {
      mem := PageProgrammed(mem, Decoded(c1, c2, c3), data);
      log := log + [(Decoded(c1, c2, c3), data)];
    }

    method SectorErase(c1: Byte, c2: Byte, c3: Byte)
      requires Valid()
      modifies this`mem
      ensures Valid() && mem == SectorErased(old(mem), Decoded(c1, c2, c3))
    {
      mem := SectorErased(mem, Decoded(c1, c2, c3));
    }

    /** Sequential read: the address counter goes on round the end of the chip. */
    method ReadData(c1: Byte, c2: Byte, c3: Byte, size: nat) returns (data: seq<Byte>)
      requires Valid()
      ensures data == BytesFrom(mem, Decoded(c1, c2, c3), size)
    {
      data := BytesFrom(mem, Decoded(c1, c2, c3), size);
    }
  }

  // ----- The driver -----

  /** A program command that stays inside its page changes exactly the addressed bytes, although the chip
      counts columns round the page; the driver's address is wider than the 24 bits the chip sees. */
  lemma ClearedInPage(mem: seq<Byte>, a: nat, d: seq<Byte>)
    requires |mem| == CHIP_SIZE && a % PAGE + |d| <= PAGE
    ensures PageProgrammed(mem, a % CHIP_SIZE, d) == Cleared(mem, a, d)
  {
    var at := a % CHIP_SIZE;
    PageOnChip(a);
    forall x | 0 <= x < |mem|
      ensures PageProgrammed(mem, at, d)[x] == Cleared(mem, a, d)[x]
    {
      InPage(x, at, |d|);
      BeyondCases(x, a);
    }
  }

  lemma BeyondCases(x: nat, a: nat)
    requires x < CHIP_SIZE
    ensures Beyond(x, a) == if x >= a % CHIP_SIZE then x - a % CHIP_SIZE else x - a % CHIP_SIZE + CHIP_SIZE
  {
    var at, q := a % CHIP_SIZE, a / CHIP_SIZE;
    if x >= at {
      DivModUnique(x - a, CHIP_SIZE, -q, x - at);
    } else {
      DivModUnique(x - a, CHIP_SIZE, -q - 1, x - at + CHIP_SIZE);
    }
  }

  /** Pages do not straddle the end of the chip, nor of the 32-bit address. */
  lemma PageOnChip(a: nat)
    ensures a % CHIP_SIZE % PAGE == a % PAGE && a % CHIP_SIZE + (PAGE - a % PAGE) <= CHIP_SIZE
  {
    var at, q := a % CHIP_SIZE, a / CHIP_SIZE;
    DivModUnique(a, PAGE, q * 0x1_0000 + at / PAGE, at % PAGE);
  }

  lemma WrappedAddress(a: nat)
    ensures a % U32 % CHIP_SIZE == a % CHIP_SIZE && a % U32 % PAGE == a % PAGE
  {
    var w, q := a % U32, a / U32;
    DivModUnique(a, CHIP_SIZE, q * 0x100 + w / CHIP_SIZE, w % CHIP_SIZE);
    DivModUnique(a, PAGE, q * 0x100_0000 + w / PAGE, w % PAGE);
  }

  /** Inside one page the wrapped column test selects exactly the addresses a, ..., a + n - 1. */
  lemma InPage(x: nat, a: nat, n: nat)
    requires a % PAGE + n <= PAGE
    ensures x / PAGE == a / PAGE && (x - a) % PAGE < n <==> a <= x < a + n
    ensures a <= x < a + n ==> (x - a) % PAGE == x - a
  {
  }

  lemma ClearedTwice(mem: seq<Byte>, a: nat, d: seq<Byte>, e: seq<Byte>)
    requires |mem| == CHIP_SIZE && |d| + |e| <= CHIP_SIZE
    ensures Cleared(Cleared(mem, a, d), a + |d|, e) == Cleared(mem, a, d + e)
  {
    forall x | 0 <= x < |mem|
      ensures Cleared(Cleared(mem, a, d), a + |d|, e)[x] == Cleared(mem, a, d + e)[x]
    {
      BeyondShifted(x, a, |d|);
    }
  }

  lemma BeyondShifted(x: nat, a: nat, n: nat)
    requires n <= CHIP_SIZE
    ensures Beyond(x, a + n) == if Beyond(x, a) >= n then Beyond(x, a) - n else Beyond(x, a) - n + CHIP_SIZE
  {
    var m, q := Beyond(x, a), (x - a) / CHIP_SIZE;
    if m >= n {
      DivModUnique(x - (a + n), CHIP_SIZE, q, m - n);
    } else {
      DivModUnique(x - (a + n), CHIP_SIZE, q - 1, m - n + CHIP_SIZE);
    }
  }

  function Least(a: nat, b: nat): nat { if a < b then a else b }

  /** testSpiPageWrite: one page-program command of at most 256 bytes. */
  method PageWrite(chip: Chip, buf: seq<Byte>, pos: nat, writeaddr: nat, size: nat)
    requires chip.Valid() && pos + Least(size, 256) <= |buf|
    modifies chip
    ensures var d := buf[pos..pos + Least(size, 256)];
      chip.Valid() && chip.mem == PageProgrammed(old(chip.mem), writeaddr % CHIP_SIZE, d)
      && chip.log == old(chip.log) + [(writeaddr % CHIP_SIZE, d)]
  {
    var n := size;
    if n > 256 {
      n := 256;
    }
    DecodedAddress(writeaddr);
    chip.PageProgram(AddressByte(writeaddr, 0x1_0000), AddressByte(writeaddr, 0x100), AddressByte(writeaddr, 1),
                     buf[pos..pos + n]);
  }

  // ----- What the issued commands add up to -----

  /** Consecutive commands from address a, none longer than a page and none crossing a page boundary. */
  ghost predicate WellSplit(pieces: seq<(nat, seq<Byte>)>, a: nat) {
    |pieces| == 0 ||
    (pieces[0].0 == a % CHIP_SIZE && a % PAGE + |pieces[0].1| <= PAGE && WellSplit(pieces[1..], a + |pieces[0].1|))
  }

  ghost function Flatten(pieces: seq<(nat, seq<Byte>)>): seq<Byte> {
    if |pieces| == 0 then [] else pieces[0].1 + Flatten(pieces[1..])
  }

  lemma {:induction false} SplitSnoc(pieces: seq<(nat, seq<Byte>)>, a: nat, d: seq<Byte>)
    requires WellSplit(pieces, a) && (a + |Flatten(pieces)|) % PAGE + |d| <= PAGE
    ensures var more := pieces + [((a + |Flatten(pieces)|) % CHIP_SIZE, d)];
      WellSplit(more, a) && Flatten(more) == Flatten(pieces) + d
  {
    var p: (nat, seq<Byte>) := ((a + |Flatten(pieces)|) % CHIP_SIZE, d);
    if |pieces| == 0 {
      assert pieces + [p] == [p] && |[p][1..]| == 0 && d + [] == d;
    } else {
      assert (pieces + [p])[1..] == pieces[1..] + [p];
      SplitSnoc(pieces[1..], a + |pieces[0].1|, d);
      assert |Flatten(pieces)| == |pieces[0].1| + |Flatten(pieces[1..])|;
    }
  }

  /** The first pos bytes of the buffer have been written from address a, by well-split commands. */
  ghost predicate Written(chip: Chip, mem0: seq<Byte>, log0: seq<(nat, seq<Byte>)>, a: nat, buf: seq<Byte>, pos: nat)
    requires pos <= |buf|
    reads chip
  {
    chip.Valid() && Reached(chip.mem, chip.log, mem0, log0, a, buf[..pos])
  }

  /** From memory mem0 and command log log0, writing the data at address a has led to mem and log. */
  ghost predicate Reached(mem: seq<Byte>, log: seq<(nat, seq<Byte>)>, mem0: seq<Byte>, log0: seq<(nat, seq<Byte>)>,
                          a: nat, data: seq<Byte>)
  {
    mem == Cleared(mem0, a, data)
    && |log0| <= |log| && log[..|log0|] == log0
    && WellSplit(log[|log0|..], a) && Flatten(log[|log0|..]) == data
  }

  /** One more page program inside its page leads from the data written so far to that data and the piece. */
  lemma ReachedMore(mem: seq<Byte>, log: seq<(nat, seq<Byte>)>, mem0: seq<Byte>, log0: seq<(nat, seq<Byte>)>,
                    a: nat, data: seq<Byte>, d: seq<Byte>)
    requires Reached(mem, log, mem0, log0, a, data)
    requires |mem0| == CHIP_SIZE && |data| + |d| <= CHIP_SIZE && (a + |data|) % PAGE + |d| <= PAGE
    ensures var at := (a + |data|) % CHIP_SIZE;
      Reached(PageProgrammed(mem, at, d), log + [(at, d)], mem0, log0, a, data + d)
  {
    var pieces, p: (nat, seq<Byte>) := log[|log0|..], ((a + |data|) % CHIP_SIZE, d);
    ClearedInPage(mem, a + |data|, d);
    ClearedTwice(mem0, a, data, d);
    SplitSnoc(pieces, a, d);
    assert (log + [p])[|log0|..] == pieces + [p];
    assert (log + [p])[..|log0|] == log[..|log0|];
  }

  /** A page write that does not cross a page extends what has been written. */
  method WritePiece(chip: Chip, buf: seq<Byte>, pos: nat, writeaddr: nat, size: nat,
                    ghost mem0: seq<Byte>, ghost log0: seq<(nat, seq<Byte>)>, ghost a: nat)
    requires pos + size <= |buf| && Written(chip, mem0, log0, a, buf, pos)
    requires |mem0| == CHIP_SIZE && pos + size <= CHIP_SIZE
    requires writeaddr == (a + pos) % U32 && writeaddr % PAGE + size <= PAGE
    modifies chip
    ensures Written(chip, mem0, log0, a, buf, pos + size)
  {
    ghost var d := buf[pos..pos + size];
    WrappedAddress(a + pos);
    ReachedMore(chip.mem, chip.log, mem0, log0, a, buf[..pos], d);
    PageWrite(chip, buf, pos, writeaddr, size);
    assert buf[..pos] + d == buf[..pos + size];
  }

  /** A page write, followed by the advance of the buffer position and of the 32-bit address. */
  method WriteNext(chip: Chip, buf: seq<Byte>, pos: nat, writeaddr: nat, size: nat,
                   ghost mem0: seq<Byte>, ghost log0: seq<(nat, seq<Byte>)>, ghost a: nat)
    returns (pos': nat, writeaddr': nat)
    requires pos + size <= |buf| && Written(chip, mem0, log0, a, buf, pos)
    requires |mem0| == CHIP_SIZE && pos + size <= CHIP_SIZE
    requires writeaddr == (a + pos) % U32 && writeaddr % PAGE + size <= PAGE
    modifies chip
    ensures pos' == pos + size && writeaddr' == (a + pos') % U32 && Written(chip, mem0, log0, a, buf, pos')
    ensures writeaddr % PAGE + size == PAGE ==> writeaddr' % PAGE == 0
  {
    WritePiece(chip, buf, pos, writeaddr, size, mem0, log0, a);
    pos' := pos + size;
    writeaddr' := (writeaddr + size) % U32;
    NextAddress(a + pos, size);
  }

  lemma NextAddress(a: nat, n: nat)
    ensures (a % U32 + n) % U32 == (a + n) % U32
    ensures a % U32 % PAGE + n == PAGE ==> (a + n) % U32 % PAGE == 0
  {
    var w, q := a % U32, a / U32;
    DivModUnique(a + n, U32, q + (w + n) / U32, (w + n) % U32);
    WrappedAddress(w + n);
    if w % PAGE + n == PAGE {
      DivModUnique(w + n, PAGE, w / PAGE + 1, 0);
    }
  }

  /** The loop over full pages. */
  method WritePages(chip: Chip, buf: seq<Byte>, pos0: nat, writeaddr0: nat, numofpage0: nat,
                    ghost mem0: seq<Byte>, ghost log0: seq<(nat, seq<Byte>)>, ghost a: nat)
    returns (pos: nat, writeaddr: nat)
    requires pos0 + 256 * numofpage0 <= |buf| < U16 && |mem0| == CHIP_SIZE && Written(chip, mem0, log0, a, buf, pos0)
    requires writeaddr0 == (a + pos0) % U32 && writeaddr0 % PAGE == 0
    modifies chip
    ensures pos == pos0 + 256 * numofpage0 && writeaddr == (a + pos) % U32 && writeaddr % PAGE == 0
    ensures Written(chip, mem0, log0, a, buf, pos)
  {
    pos, writeaddr := pos0, writeaddr0;
    var numofpage := numofpage0;
    while numofpage > 0
      invariant 0 <= numofpage <= numofpage0 && pos == pos0 + 256 * (numofpage0 - numofpage)
      invariant writeaddr == (a + pos) % U32 && writeaddr % PAGE == 0
      invariant Written(chip, mem0, log0, a, buf, pos)
    {
      numofpage := numofpage - 1;
      pos, writeaddr := WriteNext(chip, buf, pos, writeaddr, 256, mem0, log0, a);
    }
  }

  /** The branch for a page-aligned start. */
  method WriteAligned(chip: Chip, buf: seq<Byte>, writeaddr0: nat,
                      ghost mem0: seq<Byte>, ghost log0: seq<(nat, seq<Byte>)>)
    requires Written(chip, mem0, log0, writeaddr0, buf, 0) && |mem0| == CHIP_SIZE && |buf| < U16
    requires writeaddr0 < U32 && writeaddr0 % PAGE == 0
    modifies chip
    ensures Written(chip, mem0, log0, writeaddr0, buf, |buf|)
  {
    var pos: nat, writeaddr, size := 0, writeaddr0, |buf|;
    var numofpage := size / 256;
    var numofsigle := size % 256;
    if numofpage == 0 {
      WritePiece(chip, buf, pos, writeaddr, size, mem0, log0, writeaddr0);
    } else {
      pos, writeaddr := WritePages(chip, buf, pos, writeaddr, numofpage, mem0, log0, writeaddr0);
      WritePiece(chip, buf, pos, writeaddr, numofsigle, mem0, log0, writeaddr0);
    }
  }

  /** The branch for an unaligned start and less than a page of data: one or two pieces. */
  method WriteShort(chip: Chip, buf: seq<Byte>, writeaddr0: nat,
                    ghost mem0: seq<Byte>, ghost log0: seq<(nat, seq<Byte>)>)
    requires Written(chip, mem0, log0, writeaddr0, buf, 0) && |mem0| == CHIP_SIZE && |buf| < U16
    requires writeaddr0 < U32 && writeaddr0 % PAGE != 0 && |buf| < 256
    modifies chip
    ensures Written(chip, mem0, log0, writeaddr0, buf, |buf|)
  {
    var pos: nat, writeaddr, numofsigle := 0, writeaddr0, |buf|;
    var count := 256 - writeaddr % 256;
    if numofsigle > count {
      var temp := numofsigle - count;
      pos, writeaddr := WriteNext(chip, buf, pos, writeaddr, count, mem0, log0, writeaddr0);
      WritePiece(chip, buf, pos, writeaddr, temp, mem0, log0, writeaddr0);
    } else {
      WritePiece(chip, buf, pos, writeaddr, numofsigle, mem0, log0, writeaddr0);
    }
  }

  /** The branch for an unaligned start and at least a page of data: up to the boundary, full pages, the rest. */
  method WriteLong(chip: Chip, buf: seq<Byte>, writeaddr0: nat,
                   ghost mem0: seq<Byte>, ghost log0: seq<(nat, seq<Byte>)>)
    requires Written(chip, mem0, log0, writeaddr0, buf, 0) && |mem0| == CHIP_SIZE && |buf| < U16
    requires writeaddr0 < U32 && writeaddr0 % PAGE != 0 && |buf| >= 256
    modifies chip
    ensures Written(chip, mem0, log0, writeaddr0, buf, |buf|)
  {
    var pos: nat, writeaddr, size := 0, writeaddr0, |buf|;
    var count := 256 - writeaddr % 256;
    size := size - count;
    var numofpage := size / 256;
    var numofsigle := size % 256;
    pos, writeaddr := WriteNext(chip, buf, pos, writeaddr, count, mem0, log0, writeaddr0);
    pos, writeaddr := WritePages(chip, buf, pos, writeaddr, numofpage, mem0, log0, writeaddr0);
    if numofsigle != 0 {
      WritePiece(chip, buf, pos, writeaddr, numofsigle, mem0, log0, writeaddr0);
    }
  }

  /** testSpiFlashWrite */
  method FlashWrite(chip: Chip, buf: seq<Byte>, writeaddr: nat)
    requires chip.Valid() && |buf| < U16 && writeaddr < U32
    modifies chip
    ensures Written(chip, old(chip.mem), old(chip.log), writeaddr, buf, |buf|)
    ensures forall x, i :: 0 <= x < CHIP_SIZE && 0 <= i < 8 ==>
      (Bit(chip.mem[x], i) == 1 <==>
       Bit(old(chip.mem)[x], i) == 1
       && (Beyond(x, writeaddr) < |buf| ==> Bit(buf[Beyond(x, writeaddr)], i) == 1))
    ensures forall x, i :: 0 <= x < CHIP_SIZE && 0 <= i < 8 && Bit(old(chip.mem)[x], i) == 0 ==>
      Bit(chip.mem[x], i) == 0
    ensures forall x :: 0 <= x < CHIP_SIZE && Beyond(x, writeaddr) >= |buf| ==> chip.mem[x] == old(chip.mem)[x]
  {
    ghost var mem0, log0 := chip.mem, chip.log;
    NothingWritten(chip, writeaddr, buf);
    ClearedBits(mem0, writeaddr, buf);
    assert buf[..|buf|] == buf;
    if writeaddr % 256 == 0 {
      WriteAligned(chip, buf, writeaddr, mem0, log0);
    } else if |buf| / 256 == 0 {
      WriteShort(chip, buf, writeaddr, mem0, log0);
    } else {
      WriteLong(chip, buf, writeaddr, mem0, log0);
    }
  }

  lemma NothingWritten(chip: Chip, a: nat, buf: seq<Byte>)
    requires chip.Valid()
    ensures Written(chip, chip.mem, chip.log, a, buf, 0)
  {
    assert chip.mem == Cleared(chip.mem, a, buf[..0]);
    assert |chip.log[|chip.log|..]| == 0 && chip.log[..|chip.log|] == chip.log;
  }

  // ----- Reading back -----

  /** Over an erased range the write leaves exactly the buffer there, and nothing else changes. */
  lemma ErasedRange(mem: seq<Byte>, a: nat, d: seq<Byte>)
    requires forall x :: 0 <= x < |mem| && Beyond(x, a) < |d| ==> mem[x] == 0xFF
    ensures forall x :: 0 <= x < |mem| ==>
      Cleared(mem, a, d)[x] == if Beyond(x, a) < |d| then d[Beyond(x, a)] else mem[x]
  {
    forall x | 0 <= x < |mem| && Beyond(x, a) < |d|
      ensures Cleared(mem, a, d)[x] == d[Beyond(x, a)]
    {
      ErasedTakes(d[Beyond(x, a)]);
    }
  }

  /** testSpiFlashSectorErase */
  method FlashSectorErase(chip: Chip, sectoraddr: nat)
    requires chip.Valid()
    modifies chip`mem
    ensures chip.Valid() && chip.mem == SectorErased(old(chip.mem), sectoraddr % CHIP_SIZE)
    ensures var first := sectoraddr % 0x100_0000 / 4096 * 4096; forall x :: 0 <= x < 0x100_0000 ==>
      chip.mem[x] == if first <= x < first + 4096 then 0xFF else old(chip.mem)[x]
  {
    DecodedAddress(sectoraddr);
    chip.SectorErase(AddressByte(sectoraddr, 0x1_0000), AddressByte(sectoraddr, 0x100), AddressByte(sectoraddr, 1));
  }

  /** testSpiFlashRead */
  method FlashRead(chip: Chip, readaddr: nat, size: nat) returns (data: seq<Byte>)
    requires chip.Valid() && size < U16 && readaddr < U32
    ensures data == BytesFrom(chip.mem, readaddr, size)
  {
    DecodedAddress(readaddr);
    data := chip.ReadData(AddressByte(readaddr, 0x1_0000), AddressByte(readaddr, 0x100), AddressByte(readaddr, 1),
                          size);
    ReadOnChip(chip.mem, readaddr, size);
  }

  lemma ReadOnChip(mem: seq<Byte>, a: nat, n: nat)
    requires |mem| == CHIP_SIZE
    ensures BytesFrom(mem, a % CHIP_SIZE, n) == BytesFrom(mem, a, n)
  {
    forall i | 0 <= i < n
      ensures BytesFrom(mem, a % CHIP_SIZE, n)[i] == BytesFrom(mem, a, n)[i]
    {
      ReducedAddress(a, i);
    }
  }

  lemma ReducedAddress(a: nat, i: nat)
    ensures Place(a % CHIP_SIZE, i) == Place(a, i)
    ensures i < CHIP_SIZE ==> Beyond(Place(a, i), a) == i
  {
    var r := Place(a, i);
    var q := (a + i) / CHIP_SIZE - a / CHIP_SIZE;
    DivModUnique(a % CHIP_SIZE + i, CHIP_SIZE, q, r);
    if i < CHIP_SIZE {
      DivModUnique(r - a, CHIP_SIZE, -((a + i) / CHIP_SIZE), i);
    }
  }

  /** Over an erased range of any position and length, the end of the chip included, writing a buffer and
      reading back returns it, and no other byte of the chip changes. */
  method WriteRead(chip: Chip, addr: nat, buf: seq<Byte>) returns (data: seq<Byte>)
    requires chip.Valid() && |buf| < U16 && addr < U32
    requires forall x :: 0 <= x < CHIP_SIZE && Beyond(x, addr) < |buf| ==> chip.mem[x] == 0xFF
    modifies chip
    ensures data == buf && chip.Valid()
    ensures forall x :: 0 <= x < CHIP_SIZE && Beyond(x, addr) >= |buf| ==> chip.mem[x] == old(chip.mem)[x]
  {
    ghost var erased := chip.mem;
    FlashWrite(chip, buf, addr);
    assert buf[..|buf|] == buf;
    ErasedRange(erased, addr, buf);
    data := FlashRead(chip, addr, |buf|);
    forall i | 0 <= i < |buf|
      ensures data[i] == buf[i]
    {
      ReducedAddress(addr, i);
    }
  }

  /** Erasing the sector, writing a buffer that fits it and reading back returns the buffer; the other
      sectors keep their contents. */
  method EraseWriteRead(chip: Chip, addr: nat, buf: seq<Byte>) returns (data: seq<Byte>)
    requires chip.Valid() && addr < CHIP_SIZE && addr % SECTOR + |buf| <= SECTOR
    modifies chip
    ensures data == buf && chip.Valid()
    ensures forall x :: 0 <= x < CHIP_SIZE && x / SECTOR != addr / SECTOR ==> chip.mem[x] == old(chip.mem)[x]
  {
    FlashSectorErase(chip, addr);
    forall x | 0 <= x < CHIP_SIZE && Beyond(x, addr) < |buf|
      ensures x / SECTOR == addr / SECTOR
    {
      SameSector(x, addr, |buf|);
    }
    data := WriteRead(chip, addr, buf);
  }

  lemma SameSector(x: nat, a: nat, n: nat)
    requires x < CHIP_SIZE && a < CHIP_SIZE && a % SECTOR + n <= SECTOR && Beyond(x, a) < n
    ensures x / SECTOR == a / SECTOR
  {
    BeyondCases(x, a);
  }
}
