/** A serial configuration flash chip, as seen from its pins.

    While chip select is asserted the chip collects the bytes shifted in (the window) and answers each further byte;
    when chip select is released it carries out the command the window spells.  Erasing sets a sector to 0xFF,
    programming can only clear bits and wraps inside its 256-byte page, and while an erase or program is in progress
    only the status register can be read. */
module EpcsChip {
  import opened Bytes

  const PAGE: nat := 256

  const PP: byte := 0x02
  const READ: byte := 0x03
  const RDSR: byte := 0x05
  const WREN: byte := 0x06
  const RDID: byte := 0x9F
  const RES: byte := 0xAB
  const EN4B: byte := 0xB7
  const SE: byte := 0xD8
  const DIS4B: byte := 0xE9

  /** `busy` is the number of status reads for which the write in progress still shows, and `latency` holds what
      `busy` will start from for the erases and programs to come. */
  datatype Chip = Chip(mem: seq<byte>, sector: nat, signature: byte, id: seq<byte>,
                       wel: bool, fourByte: bool, busy: nat, latency: seq<nat>)
  {
    ghost predicate Valid() {
      && 0 < sector && sector % PAGE == 0 && 0 < |mem| && |mem| % PAGE == 0
      && |id| == 3
    }

    function AddressLength(): nat {
      if fourByte then 4 else 3
    }

    /** No write in progress, no write enabled, three-byte addresses. */
    predicate AtRest() {
      busy == 0 && !wel && !fourByte
    }

    /** The chip once a write is under way. */
    function Writing(mem': seq<byte>): Chip {
      this.(mem := mem', wel := false,
            busy := if latency == [] then 0 else latency[0],
            latency := if latency == [] then [] else latency[1..])
    }
  }

  /** The big-endian number a sequence of bytes spells. */
  function Number(s: seq<byte>): nat {
    if s == [] then 0 else Number(s[..|s| - 1]) * 256 + s[|s| - 1]
  }

  /** What the chip shifts out while the byte after window `w` is shifted in. */
  function Respond(c: Chip, w: seq<byte>): byte
    requires c.Valid()
  {
    var a := c.AddressLength();
    if w == [] then 0
    else if w[0] == RDSR then (if c.busy > 0 then 1 else 0) + (if c.wel then 2 else 0)
    else if c.busy > 0 then 0
    else if w[0] == READ && |w| > a then c.mem[(Number(w[1..1 + a]) + |w| - 1 - a) % |c.mem|]
    else if w[0] == RES && |w| > 3 then c.signature
    else if w[0] == RDID && |w| <= 3 then c.id[|w| - 1]
    else 0
  }

  /** What releasing chip select after window `w` does. */
  function Deselect(c: Chip, w: seq<byte>): (d: Chip)
    requires c.Valid()
    ensures d.Valid()
  {
    var a := c.AddressLength();
    if w == [] then c
    else if w[0] == RDSR then c.(busy := if c.busy > 0 then c.busy - 1 else 0)
    else if c.busy > 0 then c
    else if w == [WREN] then c.(wel := true)
    else if !c.wel then c
    else if w == [EN4B] then c.(wel := false, fourByte := true)
    else if w == [DIS4B] then c.(wel := false, fourByte := false)
    else if w[0] == SE && |w| == 1 + a then c.Writing(Erased(c.mem, c.sector, Number(w[1..]) % |c.mem|))
    else if w[0] == PP && |w| > 1 + a then
      c.Writing(Programmed(c.mem, Number(w[1..1 + a]) % |c.mem|, w[1 + a..]))
    else c
  }

  /** The sector holding address `at` set to 0xFF. */
  function Erased(mem: seq<byte>, sector: nat, at: nat): (r: seq<byte>)
    requires sector > 0
    ensures |r| == |mem|
  {
    var lo := at - at % sector;
    seq(|mem|, i requires 0 <= i < |mem| => if lo <= i < lo + sector then 255 else mem[i])
  }

  function NextInPage(at: nat): nat {
    at - at % PAGE + (at % PAGE + 1) % PAGE
  }

  /** Programming byte after byte, wrapping at the end of the page. */
  function Programmed(mem: seq<byte>, at: nat, data: seq<byte>): (r: seq<byte>)
    requires at < |mem| && |mem| % PAGE == 0
    ensures |r| == |mem|
    decreases |data|
  {
    if data == [] then mem
    else Programmed(mem[at := BitAnd(mem[at], data[0])], NextInPage(at), data[1..])
  }

  /** The bits of a range cleared where `data` has zeros: what programming means without pages. */
  function AndAt(mem: seq<byte>, at: nat, data: seq<byte>): (r: seq<byte>)
    ensures |r| == |mem|
  {
    seq(|mem|, i requires 0 <= i < |mem| => if at <= i < at + |data| then BitAnd(mem[i], data[i - at]) else mem[i])
  }

  /** Programming two adjacent ranges is programming their union. */
  lemma AndAtJoins(mem: seq<byte>, at: nat, a: seq<byte>, b: seq<byte>)
    ensures AndAt(AndAt(mem, at, a), at + |a|, b) == AndAt(mem, at, a + b)
  {
  }

  lemma AndAtOne(mem: seq<byte>, at: nat, d: byte)
    requires at < |mem|
    ensures AndAt(mem, at, [d]) == mem[at := BitAnd(mem[at], d)]
  {
  }

  /** Programming a byte and then the rest is programming the whole. */
  lemma AndAtFirst(mem: seq<byte>, at: nat, data: seq<byte>)
    requires at < |mem| && data != []
    ensures AndAt(mem[at := BitAnd(mem[at], data[0])], at + 1, data[1..]) == AndAt(mem, at, data)
  {
    AndAtOne(mem, at, data[0]);
    AndAtJoins(mem, at, [data[0]], data[1..]);
    assert data == [data[0]] + data[1..];
  }

  /** Programming byte after byte, going on at the beginning past the end of the device: what programming means without
      pages, for any range. */
  function AndAround(mem: seq<byte>, at: nat, data: seq<byte>): (r: seq<byte>)
    requires mem != []
    ensures |r| == |mem|
    decreases |data|
  {
    if data == [] then mem
    else AndAround(mem[at % |mem| := BitAnd(mem[at % |mem|], data[0])], at + 1, data[1..])
  }

  lemma {:induction false} AndAroundJoins(mem: seq<byte>, at: nat, a: seq<byte>, b: seq<byte>)
    requires mem != []
    ensures AndAround(AndAround(mem, at, a), at + |a|, b) == AndAround(mem, at, a + b)
    decreases |a|
  {
    if a == [] {
      assert a + b == b;
    } else {
      assert (a + b)[1..] == a[1..] + b;
      AndAroundJoins(mem[at % |mem| := BitAnd(mem[at % |mem|], a[0])], at + 1, a[1..], b);
    }
  }

  /** Inside the device, nothing goes around. */
  lemma {:induction false} AndAroundInside(mem: seq<byte>, at: nat, data: seq<byte>)
    requires mem != [] && at + |data| <= |mem|
    ensures AndAround(mem, at, data) == AndAt(mem, at, data)
    decreases |data|
  {
    if data == [] {
      AndAtNothing(mem, at);
    } else {
      SmallModulo(at, |mem|);
      AndAtFirst(mem, at, data);
      AndAroundInside(mem[at := BitAnd(mem[at], data[0])], at + 1, data[1..]);
    }
  }

  lemma OnceRound(at: nat, size: nat)
    requires size > 0
    ensures (at + size) % size == at % size
  {
    DivisionIsUnique(at + size, size, at / size + 1, at % size);
  }

  lemma {:induction false} AndAroundShift(mem: seq<byte>, at: nat, data: seq<byte>)
    requires mem != []
    ensures AndAround(mem, at + |mem|, data) == AndAround(mem, at, data)
    decreases |data|
  {
    if data != [] {
      OnceRound(at, |mem|);
      AndAroundShift(mem[at % |mem| := BitAnd(mem[at % |mem|], data[0])], at + 1, data[1..]);
    }
  }

  /** A range that runs past the end of the device: what does not fit is programmed over its beginning. */
  lemma AndAroundOverrun(mem: seq<byte>, at: nat, data: seq<byte>)
    requires at < |mem| < at + |data| && |data| <= |mem|
    ensures var k := |mem| - at; AndAround(mem, at, data) == AndAt(AndAt(mem, at, data[..k]), 0, data[k..])
  {
    var k := |mem| - at;
    var fits := AndAt(mem, at, data[..k]);
    assert data == data[..k] + data[k..];
    AndAroundJoins(mem, at, data[..k], data[k..]);
    AndAroundInside(mem, at, data[..k]);
    AndAroundShift(fits, 0, data[k..]);
    AndAroundInside(fits, 0, data[k..]);
  }

  /** The next address inside a page, on a device of whole pages. */
  lemma NextOnDevice(at: nat, size: nat)
    requires size > 0 && size % PAGE == 0
    ensures at % size % PAGE == at % PAGE
    ensures at % PAGE + 1 < PAGE ==> (at + 1) % size == at % size + 1 == NextInPage(at % size)
  {
    var r := at % size;
    ModuloOfModulo(at, size, PAGE);
    if at % PAGE + 1 < PAGE {
      NotLast(r, size);
      NextModulo(at, size);
    }
  }

  lemma NextInsidePage(at: nat)
    requires at % PAGE + 1 < PAGE
    ensures (at + 1) % PAGE == at % PAGE + 1
  {
  }

  lemma NotLast(r: nat, size: nat)
    requires r < size && size % PAGE == 0 && r % PAGE + 1 < PAGE
    ensures r + 1 < size && NextInPage(r) == r + 1
  {
  }

  lemma NextModulo(at: nat, size: nat)
    requires size > 0 && at % size + 1 < size
    ensures (at + 1) % size == at % size + 1
  {
    var q := at / size;
    assert at == q * size + at % size;
    DivisionIsUnique(at + 1, size, q, at % size + 1);
  }

  /** A program that stays in its page never shows the wrap-around of the page, wherever on the device it is. */
  lemma {:induction false} ProgrammedPieceIsAround(mem: seq<byte>, at: nat, data: seq<byte>)
    requires mem != [] && |mem| % PAGE == 0 && at % PAGE + |data| <= PAGE
    ensures Programmed(mem, at % |mem|, data) == AndAround(mem, at, data)
    decreases |data|
  {
    if |data| == 1 {
      assert data[1..] == [];
    } else if |data| > 1 {
      var next := mem[at % |mem| := BitAnd(mem[at % |mem|], data[0])];
      NextOnDevice(at, |mem|);
      NextInsidePage(at);
      ProgrammedPieceIsAround(next, at + 1, data[1..]);
    }
  }

  /** Inside one page of the device neither wrapping shows. */
  lemma ProgrammedInsidePage(mem: seq<byte>, at: nat, data: seq<byte>)
    requires at + |data| <= |mem| && mem != [] && |mem| % PAGE == 0 && at < |mem| && at % PAGE + |data| <= PAGE
    ensures Programmed(mem, at, data) == AndAt(mem, at, data)
  {
    SmallModulo(at, |mem|);
    ProgrammedPieceIsAround(mem, at, data);
    AndAroundInside(mem, at, data);
  }

  /** The bytes a read of `n` bytes delivers: past the end of the device it goes on at the beginning. */
  function ReadOut(mem: seq<byte>, offset: nat, n: nat): (r: seq<byte>)
    requires mem != []
    ensures |r| == n
  {
    seq(n, i requires 0 <= i < n => mem[(offset + i) % |mem|])
  }

  lemma ReadOutInside(mem: seq<byte>, offset: nat, n: nat)
    requires mem != [] && offset + n <= |mem|
    ensures ReadOut(mem, offset, n) == mem[offset..offset + n]
  {
    forall i | 0 <= i < n
      ensures ReadOut(mem, offset, n)[i] == mem[offset + i]
    {
      SmallModulo(offset + i, |mem|);
    }
  }

  lemma AndAtNothing(mem: seq<byte>, at: nat)
    ensures AndAt(mem, at, []) == mem
  {
  }

  /** On an erased range, clearing bits is copying. */
  lemma AndAtOnErased(mem: seq<byte>, at: nat, data: seq<byte>)
    requires at + |data| <= |mem| && forall i :: at <= i < at + |data| ==> mem[i] == 255
    ensures AndAt(mem, at, data) == mem[..at] + data + mem[at + |data|..]
  {
    forall i | 0 <= i < |data|
      ensures BitAnd(255, data[i]) == data[i]
    {
      ErasedTakesAnyByte(data[i]);
    }
  }

  /** The address bytes the driver sends, most significant first. */
  function AddressBytes(offset: nat, four: bool): (s: seq<byte>)
    ensures |s| == if four then 4 else 3
  {
    (if four then [offset / 0x100_0000 % 256] else []) + [offset / 0x1_0000 % 256, offset / 256 % 256, offset % 256]
  }

  lemma NumberOfThree(a: byte, b: byte, c: byte)
    ensures Number([a, b, c]) == a * 0x1_0000 + b * 256 + c
  {
    assert [a, b, c][..2] == [a, b] && [a, b][..1] == [a] && [a][..0] == [];
    assert Number([a]) == a && Number([a, b]) == a * 256 + b;
  }

  lemma NumberOfFour(a: byte, b: byte, c: byte, d: byte)
    ensures Number([a, b, c, d]) == a * 0x100_0000 + b * 0x1_0000 + c * 256 + d
  {
    assert [a, b, c, d][..3] == [a, b, c];
    NumberOfThree(a, b, c);
  }

  lemma Digits(offset: nat)
    ensures offset == offset / 0x100_0000 * 0x100_0000 + offset / 0x1_0000 % 256 * 0x1_0000 + offset / 256 % 256 * 256
                      + offset % 256
  {
    var h := offset / 256;
    var g := h / 256;
    assert g == offset / 0x1_0000 && g / 256 == offset / 0x100_0000;
  }

  /** The address bytes spell the offset as far as they go. */
  lemma AddressModulo(offset: nat, four: bool)
    ensures Number(AddressBytes(offset, four)) == offset % if four then 0x1_0000_0000 else 0x100_0000
  {
    Digits(offset);
    var b, c, d := offset / 0x1_0000 % 256, offset / 256 % 256, offset % 256;
    if four {
      var h := offset / 0x100_0000;
      NumberOfFour(h % 256, b, c, d);
      assert AddressBytes(offset, four) == [h % 256, b, c, d];
      DivisionIsUnique(offset, 0x1_0000_0000, h / 256, h % 256 * 0x100_0000 + b * 0x1_0000 + c * 256 + d);
    } else {
      NumberOfThree(b, c, d);
      assert AddressBytes(offset, four) == [b, c, d];
      DivisionIsUnique(offset, 0x100_0000, offset / 0x100_0000, b * 0x1_0000 + c * 256 + d);
    }
  }

  /** The chip reads back the address the driver meant, as long as it fits the address length. */
  lemma AddressRoundTrip(offset: nat, four: bool)
    requires offset < (if four then 0x1_0000_0000 else 0x100_0000)
    ensures Number(AddressBytes(offset, four)) == offset
  {
    AddressModulo(offset, four);
  }

  /** Whatever the offset, the chip reads the address bytes as the offset's place on the device. */
  lemma AddressOnDevice(offset: nat, four: bool, size: nat)
    requires size > 0 && (if four then 0x1_0000_0000 else 0x100_0000) % size == 0
    ensures Number(AddressBytes(offset, four)) % size == offset % size
  {
    AddressModulo(offset, four);
    ModuloOfModulo(offset, if four then 0x1_0000_0000 else 0x100_0000, size);
  }

  lemma ModuloOfModulo(x: nat, n: nat, m: nat)
    requires m > 0 && n > 0 && n % m == 0
    ensures x % n % m == x % m
  {
    var q, r, k := x / n, x % n, n / m;
    var c, d := r / m, r % m;
    assert x == q * n + r;
    assert n == k * m;
    assert r == c * m + d;
    TwoDivisions(q, k, m, c, d);
    DivisionIsUnique(x, m, q * k + c, d);
  }

  lemma TwoDivisions(q: nat, k: nat, m: nat, c: nat, d: nat)
    ensures q * (k * m) + (c * m + d) == (q * k + c) * m + d
  {
    assert q * (k * m) == q * k * m;
    assert (q * k + c) * m == q * k * m + c * m;
  }

  lemma SmallModulo(a: nat, m: nat)
    requires a < m
    ensures a % m == a
  {
  }

  lemma EraseWindow(c: Chip, w: seq<byte>)
    requires c.Valid() && c.busy == 0 && c.wel && |w| == 1 + c.AddressLength() && w[0] == SE
    ensures Deselect(c, w) == c.Writing(Erased(c.mem, c.sector, Number(w[1..]) % |c.mem|))
  {
  }

  lemma ProgramWindow(c: Chip, w: seq<byte>)
    requires c.Valid() && c.busy == 0 && c.wel && |w| > 1 + c.AddressLength() && w[0] == PP
    ensures var a := 1 + c.AddressLength();
      Deselect(c, w) == c.Writing(Programmed(c.mem, Number(w[1..a]) % |c.mem|, w[a..]))
  {
  }
}
