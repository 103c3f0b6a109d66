/** The serial flash driver: device discovery, erase, page-split programming, reading, and the write that erases and
    programs only the sectors whose contents differ. */
module EpcsFlash {
  import opened Bytes
  import opened EpcsChip
  import opened EpcsCommands
  import opened Errno
  import opened Spi
  import opened Words

  /** An erase-block region of a device. */
  datatype Region = Region(offset: int, size: int, blocks: int, blockSize: int)

  // ---------------------------------------------------------------- device discovery

  /** The devices of the family: capacity in bytes and sector size, by electronic signature or else by device id. */
  function Geometry(signature: byte, id: nat): Option<(int, int)> {
    if signature == 0x16 then Some((0x80_0000, 0x1_0000))
    else if signature == 0x14 then Some((0x20_0000, 0x1_0000))
    else if signature == 0x13 then Some((0x10_0000, 0x1_0000))
    else if signature == 0x12 then Some((0x8_0000, 0x1_0000))
    else if signature == 0x10 then Some((0x2_0000, 0x8000))
    else if id == 0x20BA18 then Some((0x100_0000, 0x1_0000))
    else if id % 256 == 0x18 then Some((0x100_0000, 0x4_0000))
    else if id % 256 == 0x19 then Some((0x200_0000, 0x1_0000))
    else None
  }

  predicate KnownSignature(s: byte) {
    s == 0x10 || s == 0x12 || s == 0x13 || s == 0x14 || s == 0x16
  }

  /** A chip is recognised by its signature, or else by the last byte of its id. */
  predicate Recognised(signature: byte, id: nat) {
    KnownSignature(signature) || id % 256 == 0x18 || id % 256 == 0x19
  }

  /** The codes say the capacity: a signature is one less than the power of two, and the last byte of an id is the power
      of two.  All sectors are of 64 KB but those of the smallest chip and of one with id byte 0x18. */
  predicate FollowsCodes(signature: byte, id: nat, size: int, sector: int) {
    && size == Pow2(if KnownSignature(signature) then signature + 1 else id % 256)
    && sector == if signature == 0x10 then 0x8000
                 else if !KnownSignature(signature) && id % 256 == 0x18 && id != 0x20BA18 then 0x4_0000
                 else 0x1_0000
  }

  lemma CapacityPowers()
    ensures Pow2(17) == 0x2_0000 && Pow2(19) == 0x8_0000 && Pow2(20) == 0x10_0000 && Pow2(21) == 0x20_0000
    ensures Pow2(23) == 0x80_0000 && Pow2(24) == 0x100_0000 && Pow2(25) == 0x200_0000
  {
    assert Pow2(8) == 256 by { BytePowers(); }
    assert Pow2(12) == 4096;
    assert Pow2(16) == 65536;
    assert Pow2(20) == 0x10_0000;
  }

  /** The table of devices holds exactly the recognised chips, and follows their codes. */
  lemma GeometryFollowsCodes(signature: byte, id: nat)
    ensures Geometry(signature, id).Some? <==> Recognised(signature, id)
    ensures Geometry(signature, id).Some? ==>
      FollowsCodes(signature, id, Geometry(signature, id).value.0, Geometry(signature, id).value.1)
  {
    CapacityPowers();
  }

  /** The capacities of the family. */
  predicate IsCapacity(n: int) {
    || n == 0x2_0000 || n == 0x8_0000 || n == 0x10_0000 || n == 0x20_0000 || n == 0x80_0000 || n == 0x100_0000
    || n == 0x200_0000
  }

  lemma CapacityComesAround(c: Chip, four: bool)
    requires IsCapacity(|c.mem|) && (four <==> |c.mem| > 0x100_0000)
    ensures ComesAround(c, four)
  {
  }

  /** The chip behaves as the device it reports to be. */
  ghost predicate Genuine(c: Chip) {
    Geometry(c.signature, Number(c.id)) == Some((|c.mem|, c.sector))
  }

  /** The length of `n` blocks laid end to end. */
  function Span(n: nat, size: nat): nat {
    if n == 0 then 0 else Span(n - 1, size) + size
  }

  lemma {:induction false} SpanIsProduct(n: nat, size: nat)
    ensures Span(n, size) == n * size
  {
    if n > 0 {
      SpanIsProduct(n - 1, size);
      assert (n - 1) * size + size == n * size;
    }
  }

  /** The blocks of a region tile it. */
  ghost predicate Tiled(g: Region) {
    g.offset == 0 && g.blocks > 0 && g.blockSize > 0 && g.size == Span(g.blocks, g.blockSize)
  }

  // ---------------------------------------------------------------- page splitting

  /** The pieces in which a range is sent to the chip: (address, bytes). */
  function Pages(at: nat, data: seq<byte>): seq<(nat, seq<byte>)>
    decreases |data|
  {
    if data == [] then []
    else
      var n := Min(|data|, NextPage(at) - at);
      [(at, data[..n])] + Pages(NextPage(at), data[n..])
  }

  function NextMultiple(at: nat, size: nat): (n: nat)
    requires size > 0
    ensures size == PAGE ==> n == at - at % PAGE + PAGE
  {
    (at + size) / size * size
  }

  function NextPage(at: nat): (n: nat)
    ensures n == at - at % PAGE + PAGE
  {
    NextMultiple(at, PAGE)
  }

  function Joined(pieces: seq<(nat, seq<byte>)>): seq<byte> {
    if pieces == [] then [] else pieces[0].1 + Joined(pieces[1..])
  }

  /** The pieces are non-empty, each lies in one page, each begins where the one before ended, and joined they are the
      data: they partition the range. */
  lemma {:induction false} PagesPartition(at: nat, data: seq<byte>)
    ensures Joined(Pages(at, data)) == data
    ensures data != [] ==> Pages(at, data)[0].0 == at
    ensures forall k :: 0 <= k < |Pages(at, data)| ==>
      var p := Pages(at, data)[k]; p.1 != [] && p.0 % PAGE + |p.1| <= PAGE
    ensures forall k :: 0 < k < |Pages(at, data)| ==>
      Pages(at, data)[k].0 == Pages(at, data)[k - 1].0 + |Pages(at, data)[k - 1].1|
    decreases |data|
  {
    if data != [] {
      var n := Min(|data|, NextPage(at) - at);
      PagesPartition(NextPage(at), data[n..]);
      assert data == data[..n] + data[n..];
      var rest := Pages(NextPage(at), data[n..]);
      assert Pages(at, data) == [(at, data[..n])] + rest;
    }
  }

  /** The pieces lie end to end from `at` on. */
  predicate EndToEnd(pieces: seq<(nat, seq<byte>)>, at: nat) {
    pieces == [] || (pieces[0].0 == at && EndToEnd(pieces[1..], at + |pieces[0].1|))
  }

  lemma {:induction false} PagesEndToEnd(at: nat, data: seq<byte>)
    ensures EndToEnd(Pages(at, data), at)
    decreases |data|
  {
    if data != [] {
      var n := Min(|data|, NextPage(at) - at);
      PagesEndToEnd(NextPage(at), data[n..]);
      assert Pages(at, data)[1..] == Pages(NextPage(at), data[n..]);
    }
  }

  /** The bytes of a run from `at` on and their addresses on a device of `size` bytes. */
  function Places(at: nat, data: seq<byte>, size: nat): (p: seq<(nat, byte)>)
    requires size > 0
    ensures |p| == |data|
  {
    seq(|data|, i requires 0 <= i < |data| => ((at + i) % size, data[i]))
  }

  /** The bytes of the pieces and the addresses they reach, in the order they go out. */
  function Landed(pieces: seq<(nat, seq<byte>)>, size: nat): seq<(nat, byte)>
    requires size > 0
  {
    if pieces == [] then [] else Places(pieces[0].0, pieces[0].1, size) + Landed(pieces[1..], size)
  }

  lemma {:induction false} LandedFrom(pieces: seq<(nat, seq<byte>)>, at: nat, size: nat)
    requires size > 0 && EndToEnd(pieces, at)
    ensures Landed(pieces, size) == Places(at, Joined(pieces), size)
  {
    if pieces != [] {
      var first, rest := pieces[0].1, pieces[1..];
      LandedFrom(rest, at + |first|, size);
      PlacesJoin(at, first, Joined(rest), size);
    }
  }

  lemma PlacesJoin(at: nat, a: seq<byte>, b: seq<byte>, size: nat)
    requires size > 0
    ensures Places(at, a, size) + Places(at + |a|, b, size) == Places(at, a + b, size)
  {
  }

  /** The bytes of a range go out once each, in order, each to its own address on the device. */
  ghost predicate SentInPlace(pieces: seq<(nat, seq<byte>)>, offset: nat, data: seq<byte>, size: nat)
    requires size > 0
  {
    && |Landed(pieces, size)| == |data|
    && forall i :: 0 <= i < |data| ==> Landed(pieces, size)[i] == (offset + i, data[i])
  }

  /** Pieces that make the first `n` bytes of a range send it in place exactly if they are all of it and it lies inside
      the device. */
  lemma SentInPlaceExactlyInside(pieces: seq<(nat, seq<byte>)>, offset: nat, data: seq<byte>, n: nat, size: nat)
    requires data != [] && n <= |data| && size > 0 && EndToEnd(pieces, offset) && Joined(pieces) == data[..n]
    ensures SentInPlace(pieces, offset, data, size) <==> n == |data| && offset + |data| <= size
  {
    LandedFrom(pieces, offset, size);
    var last := |data| - 1;
    if n == |data| && offset + |data| > size {
      assert Landed(pieces, size)[last].0 < size;
      assert Landed(pieces, size)[last] != (offset + last, data[last]);
    } else if n == |data| {
      forall i | 0 <= i < |data|
        ensures Landed(pieces, size)[i] == (offset + i, data[i])
      {
        SmallModulo(offset + i, size);
      }
    }
  }

  /** The page programs of a range send it in place exactly if it lies inside the device. */
  lemma PagesInPlaceExactlyInside(offset: nat, data: seq<byte>, size: nat)
    requires data != [] && size > 0
    ensures SentInPlace(Pages(offset, data), offset, data, size) <==> offset + |data| <= size
  {
    PagesPartition(offset, data);
    PagesEndToEnd(offset, data);
    assert data[..|data|] == data;
    SentInPlaceExactlyInside(Pages(offset, data), offset, data, |data|, size);
  }

  /** Memory after a block write that begins on the device: the range is programmed if it lies inside, and otherwise
      what does not fit is programmed over the beginning. */
  ghost predicate AfterBlock(mem: seq<byte>, before: seq<byte>, at: nat, data: seq<byte>)
    requires at < |before|
  {
    var k := |before| - at;
    if |data| <= k then mem == AndAt(before, at, data)
    else |data| <= |before| ==> mem == AndAt(AndAt(before, at, data[..k]), 0, data[k..])
  }

  lemma BlockEffect(before: seq<byte>, at: nat, data: seq<byte>)
    requires at < |before|
    ensures AfterBlock(AndAround(before, at, data), before, at, data)
    ensures data != [] ==>
      (SentInPlace(Pages(at, data), at, data, |before|) <==> at + |data| <= |before|)
  {
    if at + |data| <= |before| {
      AndAroundInside(before, at, data);
    } else if |data| <= |before| {
      AndAroundOverrun(before, at, data);
    }
    if data != [] {
      PagesInPlaceExactlyInside(at, data, |before|);
    }
  }

  /** The command windows that program the pieces. */
  function ProgramFrames(pieces: seq<(nat, seq<byte>)>, four: bool): seq<seq<byte>> {
    if pieces == [] then []
    else WriteFrames(four, [PP] + AddressBytes(pieces[0].0, four) + pieces[0].1) + ProgramFrames(pieces[1..], four)
  }

  /** Programming the first piece leaves the rest to be programmed. */
  lemma PageStep(mem: seq<byte>, at: nat, rest: seq<byte>, n: nat)
    requires mem != [] && rest != [] && n == Min(|rest|, NextPage(at) - at)
    ensures at % PAGE + n <= PAGE
    ensures AndAround(AndAround(mem, at, rest[..n]), NextPage(at), rest[n..]) == AndAround(mem, at, rest)
  {
    assert rest == rest[..n] + rest[n..];
    AndAroundJoins(mem, at, rest[..n], rest[n..]);
    if n == |rest| {
      assert rest[n..] == [];
    }
  }

  lemma FirstFrame(at: nat, rest: seq<byte>, n: nat, four: bool, log: seq<seq<byte>>)
    requires rest != [] && n == Min(|rest|, NextPage(at) - at)
    ensures log + ProgramFrames(Pages(at, rest), four)
         == log + WriteFrames(four, [PP] + AddressBytes(at, four) + rest[..n])
            + ProgramFrames(Pages(NextPage(at), rest[n..]), four)
  {
    assert Pages(at, rest)[1..] == Pages(NextPage(at), rest[n..]);
  }

  /** Between `lo` and `hi`, memory holds `src` placed at `offset`. */
  ghost predicate Holds(mem: seq<byte>, offset: nat, src: seq<byte>, lo: nat, hi: nat)
    requires offset <= lo && hi <= |mem| && hi - offset <= |src|
  {
    forall b :: lo <= b < hi ==> mem[b] == src[b - offset]
  }

  lemma CompareStep(mem: seq<byte>, src: seq<byte>, offset: nat, n: nat, chunk: seq<byte>)
    requires n + |chunk| <= |src| && offset + |src| <= |mem| && Holds(mem, offset, src, offset, offset + n)
    requires chunk == mem[offset + n..offset + n + |chunk|]
    ensures src[n..n + |chunk|] == chunk <==> Holds(mem, offset, src, offset, offset + n + |chunk|)
  {
    if src[n..n + |chunk|] == chunk {
      forall b | offset <= b < offset + n + |chunk|
        ensures mem[b] == src[b - offset]
      {
        if b >= offset + n {
          assert src[b - offset] == src[n..n + |chunk|][b - offset - n];
        }
      }
    } else {
      var i :| 0 <= i < |chunk| && src[n + i] != chunk[i];
      assert mem[offset + n + i] != src[n + i];
    }
  }

  // ---------------------------------------------------------------- what a write does to memory

  /** Byte `a` of the sector starting at `s` after writing `src` at `offset`: a sector whose part of the range already
      holds the source is left alone, any other touched sector holds the source in the range and 0xFF elsewhere. */
  ghost function SectorByte(mem: seq<byte>, sector: nat, s: nat, offset: nat, src: seq<byte>, a: nat): byte
    requires a < |mem|
  {
    var lo, hi := Max(s, offset), PartEnd(mem, sector, s, offset, src);
    if lo >= hi || Holds(mem, offset, src, lo, hi) then mem[a]
    else if lo <= a < hi then src[a - offset]
    else 255
  }

  /** Where the part of the range in the sector at `s` ends. */
  function PartEnd(mem: seq<byte>, sector: nat, s: nat, offset: nat, src: seq<byte>): nat {
    Min(Min(s + sector, |mem|), offset + |src|)
  }

  function SectorStart(a: nat, sector: nat): (s: nat)
    requires sector > 0
    ensures s <= a < s + sector
  {
    a - a % sector
  }

  ghost function Written(mem: seq<byte>, sector: nat, offset: nat, src: seq<byte>): (r: seq<byte>)
    requires sector > 0
    ensures |r| == |mem|
  {
    seq(|mem|, a requires 0 <= a < |mem| => SectorByte(mem, sector, SectorStart(a, sector), offset, src, a))
  }

  lemma {:induction false} SpanGrows(i: nat, j: nat, size: nat)
    requires i <= j
    ensures Span(i, size) <= Span(j, size)
  {
    if i < j {
      SpanGrows(i, j - 1, size);
    }
  }

  lemma SpanIsWhole(n: nat, size: nat)
    requires size > 0
    ensures Span(n, size) % size == 0
  {
    SpanIsProduct(n, size);
    DivisionIsUnique(Span(n, size), size, n, 0);
  }

  /** Where block `j` of a tiled region lies. */
  lemma BlockPlace(g: Region, j: nat)
    requires Tiled(g) && j < g.blocks
    ensures Span(j, g.blockSize) % g.blockSize == Span(j + 1, g.blockSize) % g.blockSize == g.size % g.blockSize == 0
    ensures Span(j, g.blockSize) + g.blockSize == Span(j + 1, g.blockSize) <= g.size
  {
    SpanIsWhole(j, g.blockSize);
    SpanIsWhole(j + 1, g.blockSize);
    SpanIsWhole(g.blocks, g.blockSize);
    SpanGrows(j + 1, g.blocks, g.blockSize);
  }

  lemma SectorOf(a: nat, s: nat, sector: nat)
    requires sector > 0 && s % sector == 0 && s <= a < s + sector
    ensures SectorStart(a, sector) == s
  {
    DivisionIsUnique(a, sector, s / sector, a - s);
  }

  lemma WrittenInSector(mem: seq<byte>, sector: nat, offset: nat, src: seq<byte>, s: nat, a: nat)
    requires sector > 0 && s % sector == 0 && s <= a < s + sector <= |mem|
    ensures Written(mem, sector, offset, src)[a] == SectorByte(mem, sector, s, offset, src, a)
  {
    SectorOf(a, s, sector);
  }

  /** A sector's new content depends only on its own part of the range and of memory. */
  lemma SectorByteIsLocal(mem: seq<byte>, before: seq<byte>, sector: nat, offset: nat, src: seq<byte>, s: nat, lo: nat,
                          hi: nat, a: nat)
    requires s <= a < s + sector <= |mem| == |before| && forall b :: s <= b < s + sector ==> mem[b] == before[b]
    requires lo == Max(s, offset) && hi == PartEnd(before, sector, s, offset, src) && offset <= lo <= hi
    ensures SectorByte(mem, sector, s, lo, src[lo - offset..hi - offset], a)
         == SectorByte(before, sector, s, offset, src, a)
  {
    var part := src[lo - offset..hi - offset];
    assert Max(s, lo) == lo && PartEnd(mem, sector, s, lo, part) == hi;
    if lo < hi {
      HoldsIsLocal(mem, before, offset, src, lo, hi);
      if lo <= a < hi {
        assert part[a - lo] == src[a - offset];
      }
    }
  }

  lemma HoldsIsLocal(mem: seq<byte>, before: seq<byte>, offset: nat, src: seq<byte>, lo: nat, hi: nat)
    requires offset <= lo <= hi <= |mem| == |before| && hi - offset <= |src|
    requires forall b :: lo <= b < hi ==> mem[b] == before[b]
    ensures Holds(mem, lo, src[lo - offset..hi - offset], lo, hi) <==> Holds(before, offset, src, lo, hi)
  {
    var part := src[lo - offset..hi - offset];
    if Holds(mem, lo, part, lo, hi) {
      forall b | lo <= b < hi
        ensures before[b] == src[b - offset]
      {
        assert mem[b] == part[b - lo];
      }
    } else {
      var b :| lo <= b < hi && mem[b] != part[b - lo];
      assert before[b] != src[b - offset];
    }
  }

  /** `after` is `mem` with the sector at `s` brought to its written state for `src` at `offset`. */
  ghost predicate SectorWritten(after: seq<byte>, mem: seq<byte>, sector: nat, s: nat, offset: nat, src: seq<byte>) {
    && |after| == |mem|
    && forall a :: 0 <= a < |mem| ==>
         after[a] == if s <= a < s + sector then SectorByte(mem, sector, s, offset, src, a) else mem[a]
  }

  /** `mem` is `before` with the sectors below `upTo` brought to their written state. */
  ghost predicate WrittenBelow(mem: seq<byte>, before: seq<byte>, sector: nat, offset: nat, src: seq<byte>, upTo: nat)
    requires sector > 0
  {
    && |mem| == |before|
    && forall a :: 0 <= a < |mem| ==> mem[a] == if a < upTo then Written(before, sector, offset, src)[a] else before[a]
  }

  /** A sector that does not meet the range is in its written state already. */
  lemma SectorOutside(mem: seq<byte>, before: seq<byte>, sector: nat, offset: nat, src: seq<byte>, s: nat)
    requires sector > 0 && s % sector == 0 && s + sector <= |before|
    requires offset >= s + sector || offset + |src| <= s
    requires WrittenBelow(mem, before, sector, offset, src, s)
    ensures WrittenBelow(mem, before, sector, offset, src, s + sector)
  {
    forall a | s <= a < s + sector
      ensures Written(before, sector, offset, src)[a] == before[a]
    {
      SectorOf(a, s, sector);
    }
  }

  lemma SectorSkipped(mem: seq<byte>, before: seq<byte>, sector: nat, offset: nat, src: seq<byte>, s: nat, at: int)
    requires sector > 0 && s % sector == 0 && s + sector <= |before|
    requires at == Max(offset, s) && at >= s + sector
    requires WrittenBelow(mem, before, sector, offset, src, s)
    ensures WrittenBelow(mem, before, sector, offset, src, s + sector) && at == Max(offset, s + sector)
  {
    SectorOutside(mem, before, sector, offset, src, s);
  }

  /** Updating a sector with its part of the range brings it to its written state. */
  lemma SectorInside(mem: seq<byte>, after: seq<byte>, before: seq<byte>, sector: nat, offset: nat, src: seq<byte>,
                     s: nat, lo: nat, hi: nat)
    requires sector > 0 && s % sector == 0 && s + sector <= |before| == |after|
    requires lo == Max(s, offset) && hi == PartEnd(before, sector, s, offset, src) && offset <= lo <= hi
    requires WrittenBelow(mem, before, sector, offset, src, s)
    requires SectorWritten(after, mem, sector, s, lo, src[lo - offset..hi - offset])
    ensures WrittenBelow(after, before, sector, offset, src, s + sector)
  {
    forall a | s <= a < s + sector
      ensures after[a] == Written(before, sector, offset, src)[a]
    {
      SectorByteIsLocal(mem, before, sector, offset, src, s, lo, hi, a);
      WrittenInSector(before, sector, offset, src, s, a);
    }
  }

  lemma PartOfRange(src: seq<byte>, from: nat, n: nat)
    requires from + n <= |src|
    ensures src[from..][..n] == src[from..from + n] && src[from..][n..] == src[from + n..]
  {
  }

  /** What is left of a range after its part of `n` bytes in the sector at `s`. */
  lemma LeftOver(s: nat, sector: nat, at: int, n: nat, offset: nat, src: seq<byte>)
    requires at == Max(offset, s) && at - offset <= |src| && at < s + sector
    requires n == Min(s + sector - at, |src| - (at - offset))
    ensures var rest := src[at - offset..];
      && n <= |rest| && rest[..n] == src[at - offset..at + n - offset]
      && (n == |rest| ==> offset + |src| <= s + sector)
      && (n < |rest| ==> offset <= s + sector && s + sector - offset <= |src|)
      && (n < |rest| ==> rest[n..] == src[s + sector - offset..])
  {
    PartOfRange(src, at - offset, n);
  }

  /** With every later sector outside the range, the whole memory is in its written state. */
  lemma RestOutside(mem: seq<byte>, before: seq<byte>, sector: nat, offset: nat, src: seq<byte>, upTo: nat)
    requires sector > 0 && upTo % sector == 0
    requires upTo >= |before| || offset + |src| <= upTo
    requires WrittenBelow(mem, before, sector, offset, src, upTo)
    ensures mem == Written(before, sector, offset, src)
  {
    forall a | upTo <= a < |before|
      ensures Written(before, sector, offset, src)[a] == before[a]
    {
      StartNotBefore(a, upTo, sector);
    }
  }

  lemma StartNotBefore(a: nat, s: nat, sector: nat)
    requires sector > 0 && s % sector == 0 && s <= a
    ensures s <= SectorStart(a, sector)
  {
    var q, p := a / sector, s / sector;
    assert a == q * sector + a % sector && s == p * sector;
    if q < p {
      MultiplyOrdered(q + 1, p, sector);
    } else {
      MultiplyOrdered(p, q, sector);
    }
  }

  /** A range that begins beyond the device changes nothing. */
  lemma WrittenBeyond(mem: seq<byte>, sector: nat, offset: nat, src: seq<byte>)
    requires sector > 0 && offset >= |mem|
    ensures Written(mem, sector, offset, src) == mem
  {
  }

  // ---------------------------------------------------------------- what a write promises

  /** The part of the range inside the device holds the source afterwards. */
  lemma WriteStoresSource(mem: seq<byte>, sector: nat, offset: nat, src: seq<byte>)
    requires sector > 0
    ensures forall a :: offset <= a < Min(|mem|, offset + |src|) ==>
      Written(mem, sector, offset, src)[a] == src[a - offset]
    ensures offset + |src| <= |mem| ==> Written(mem, sector, offset, src)[offset..offset + |src|] == src
  {
  }

  /** A sector the range does not meet is unchanged.  Outside the range, a sector the range meets is unchanged if
      its part of the range already held the source, and erased otherwise. */
  lemma WriteElsewhere(mem: seq<byte>, sector: nat, offset: nat, src: seq<byte>, a: nat)
    requires sector > 0 && a < |mem| && !(offset <= a < offset + |src|)
    ensures var s := SectorStart(a, sector);
      Written(mem, sector, offset, src)[a] ==
        if offset + |src| <= s || s + sector <= offset then mem[a]
        else if PartMatches(mem, sector, s, offset, src) then mem[a]
        else 255
  {
    var s := SectorStart(a, sector);
    var lo, hi := Max(s, offset), PartEnd(mem, sector, s, offset, src);
    if lo < hi && !Holds(mem, offset, src, lo, hi) {
      var b :| lo <= b < hi && mem[b] != src[b - offset];
      assert s <= b < s + sector;
    }
  }

  /** Memory in the sector at `s` already holds the part of the range that lies in it. */
  ghost predicate PartMatches(mem: seq<byte>, sector: nat, s: nat, offset: nat, src: seq<byte>) {
    forall b :: 0 <= b < |mem| && offset <= b < offset + |src| && s <= b < s + sector ==> mem[b] == src[b - offset]
  }

  /** Writing the same source again changes nothing, so no sector is erased for it. */
  lemma WriteTwice(mem: seq<byte>, sector: nat, offset: nat, src: seq<byte>)
    requires sector > 0
    ensures var w := Written(mem, sector, offset, src); Written(w, sector, offset, src) == w
  {
    var w := Written(mem, sector, offset, src);
    WriteStoresSource(mem, sector, offset, src);
    forall a | 0 <= a < |w|
      ensures Written(w, sector, offset, src)[a] == w[a]
    {
      HeldSectorStays(w, sector, SectorStart(a, sector), offset, src, a);
    }
  }

  lemma HeldSectorStays(w: seq<byte>, sector: nat, s: nat, offset: nat, src: seq<byte>, a: nat)
    requires a < |w| && forall b :: offset <= b < Min(|w|, offset + |src|) ==> w[b] == src[b - offset]
    ensures SectorByte(w, sector, s, offset, src, a) == w[a]
  {
  }

  /** Memory after a write, whatever the range: one that begins before the device is dropped, like one that begins
      beyond it. */
  ghost function AfterWrite(mem: seq<byte>, sector: nat, offset: int, src: seq<byte>): (r: seq<byte>)
    requires sector > 0
    ensures |r| == |mem|
  {
    if offset < 0 then mem else Written(mem, sector, offset, src)
  }

  /** Every byte of the source is where it was to go. */
  ghost predicate AllStored(mem: seq<byte>, offset: int, src: seq<byte>) {
    forall i :: 0 <= i < |src| ==> StoredAt(mem, offset + i, src[i])
  }

  predicate StoredAt(mem: seq<byte>, at: int, b: byte) {
    0 <= at < |mem| && mem[at] == b
  }

  /** A write, which reports success for every range, has stored all of its source exactly if the range lies inside the
      device. */
  lemma WriteIsCompleteExactlyInside(mem: seq<byte>, sector: nat, offset: int, src: seq<byte>)
    requires sector > 0 && src != []
    ensures AllStored(AfterWrite(mem, sector, offset, src), offset, src) <==> 0 <= offset && offset + |src| <= |mem|
  {
    var w := AfterWrite(mem, sector, offset, src);
    if 0 <= offset && offset + |src| <= |mem| {
      WriteStoresSource(mem, sector, offset, src);
      SliceIsStored(w, offset, src);
    } else {
      OverrunIsNotStored(w, offset, src);
    }
  }

  lemma SliceIsStored(w: seq<byte>, offset: nat, src: seq<byte>)
    requires offset + |src| <= |w| && w[offset..offset + |src|] == src
    ensures AllStored(w, offset, src)
  {
    forall i | 0 <= i < |src|
      ensures StoredAt(w, offset + i, src[i])
    {
      assert w[offset..offset + |src|][i] == src[i];
    }
  }

  lemma OverrunIsNotStored(w: seq<byte>, offset: int, src: seq<byte>)
    requires src != [] && !(0 <= offset && offset + |src| <= |w|)
    ensures !AllStored(w, offset, src)
  {
    var i := if offset < 0 then 0 else |src| - 1;
    assert !StoredAt(w, offset + i, src[i]);
  }

  /** Two bytes at the last address of the smallest device: the first is stored, the second is gone, and address 0,
      where reading would go on, is as it was. */
  lemma WriteOverrun(mem: seq<byte>, a: byte, b: byte)
    requires |mem| == 0x2_0000
    ensures var w := AfterWrite(mem, 0x8000, 0x1_FFFF, [a, b]);
      w[0x1_FFFF] == a && w[0] == mem[0] && !AllStored(w, 0x1_FFFF, [a, b])
  {
    WriteStoresSource(mem, 0x8000, 0x1_FFFF, [a, b]);
    WriteElsewhere(mem, 0x8000, 0x1_FFFF, [a, b], 0);
    WriteIsCompleteExactlyInside(mem, 0x8000, 0x1_FFFF, [a, b]);
  }

  /** Erasing a sector and programming the part of the range in it makes it what the write promises. */
  lemma EraseAndProgramByte(mem: seq<byte>, sector: nat, s: nat, offset: nat, src: seq<byte>, a: nat)
    requires sector > 0 && s % sector == 0 && s <= offset && offset + |src| <= s + sector <= |mem| && a < |mem|
    requires !Holds(mem, offset, src, offset, offset + |src|)
    ensures AndAt(Erased(mem, sector, s), offset, src)[a]
         == if s <= a < s + sector then SectorByte(mem, sector, s, offset, src, a) else mem[a]
  {
    if offset <= a < offset + |src| {
      ErasedTakesAnyByte(src[a - offset]);
    }
  }

  // ---------------------------------------------------------------- the driver

  class EpcsDevice {
    const spi: SpiMaster
    var regions: seq<Region>
    var fourBytesMode: bool
    var siliconId: nat
    var sizeInBytes: int
    var pageSize: nat

    constructor (spi: SpiMaster)
      ensures this.spi == spi
    {
      this.spi := spi;
      regions, fourBytesMode, siliconId, sizeInBytes, pageSize := [Region(0, 0, 0, 0)], false, 0, 0, 0;
    }

    /** A discovered device whose chip is what it reports to be. */
    ghost predicate Valid()
      reads this, spi
    {
      && Settled(spi) && pageSize == PAGE && |regions| == 1 && Tiled(regions[0]) && regions[0].blocks <= 512
      && regions[0].size == |spi.chip.mem| <= 0x200_0000 && regions[0].blockSize == spi.chip.sector
      && (fourBytesMode <==> |spi.chip.mem| > 0x100_0000) && IsCapacity(|spi.chip.mem|)
    }

    ghost function Mem(): seq<byte>
      reads spi
    {
      spi.chip.mem
    }

    /** The region and the addressing mode of the attached chip, found by its signature or else by its id. */
    method Identify() returns (rc: int, g: Region, four: bool)
      requires Settled(spi)
      modifies this`siliconId, spi
      ensures Settled(spi) && spi.chip == old(spi.chip)
      ensures match Geometry(spi.chip.signature, Number(spi.chip.id))
        case None => rc == -ENODEV
        case Some((size, sector)) => rc == 0 && Tiled(g) && g.blocks <= 512 && g.size == size && g.blockSize == sector
      ensures rc == if Recognised(spi.chip.signature, Number(spi.chip.id)) then 0 else -ENODEV
      ensures rc == 0 ==> FollowsCodes(spi.chip.signature, Number(spi.chip.id), g.size, g.blockSize)
      ensures rc == 0 ==> (four <==> g.size > 0x100_0000)
      ensures rc == 0 ==> IsCapacity(g.size)
    {
      GeometryFollowsCodes(spi.chip.signature, Number(spi.chip.id));
      rc, four := 0, false;
      siliconId := ReadElectronicSignature(spi);
      if siliconId == 0x16 {
        g := Region(0, 64 * 1024 * 1024 / 8, 128, 65536);
      } else if siliconId == 0x14 {
        g := Region(0, 16 * 1024 * 1024 / 8, 32, 65536);
      } else if siliconId == 0x13 {
        g := Region(0, 8 * 1024 * 1024 / 8, 16, 65536);
      } else if siliconId == 0x12 {
        g := Region(0, 4 * 1024 * 1024 / 8, 8, 65536);
      } else if siliconId == 0x10 {
        g := Region(0, 1 * 1024 * 1024 / 8, 4, 32768);
      } else {
        siliconId := ReadDeviceId(spi);
        if siliconId % 0x100_0000 == 0x20BA18 {
          g := Region(0, 128 * 1024 * 1024 / 8, 256, 65536);
        } else if siliconId % 0x100 == 0x18 {
          g := Region(0, 128 * 1024 * 1024 / 8, 64, 262144);
        } else if siliconId % 0x100 == 0x19 {
          g := Region(0, 256 * 1024 * 1024 / 8, 512, 65536);
          four := true;
        } else {
          rc, g := -ENODEV, Region(0, 0, 0, 0);
        }
      }
      if rc == 0 {
        SpanIsProduct(g.blocks, g.blockSize);
      }
    }

    method Query() returns (rc: int)
      requires Settled(spi)
      modifies this, spi
      ensures spi.chip == old(spi.chip)
      ensures rc == if Recognised(spi.chip.signature, Number(spi.chip.id)) then 0 else -ENODEV
      ensures rc == 0 ==>
        && |regions| == 1 && Tiled(regions[0]) && sizeInBytes == regions[0].size && pageSize == PAGE
        && FollowsCodes(spi.chip.signature, Number(spi.chip.id), regions[0].size, regions[0].blockSize)
        && (fourBytesMode <==> sizeInBytes > 0x100_0000)
      ensures rc == 0 && Genuine(spi.chip) ==> Valid()
    {
      var g, four;
      rc, g, four := Identify();
      regions, fourBytesMode, sizeInBytes, pageSize := [g], four, g.size, 256;
    }

    /** The error code for an address, compared with the last one as unsigned values. */
    function TestAddress(offset: int): (rc: int)
      requires |regions| > 0
      reads this
    {
      var last := regions[|regions| - 1];
      if U32(offset) > U32(-1 + last.offset + last.size) then -EIO else 0
    }

    /** Exactly the addresses of the device pass. */
    lemma TestAddressIsExact(offset: int)
      requires Valid() && IsInt(offset)
      ensures TestAddress(offset) == (if 0 <= offset < |Mem()| then 0 else -EIO)
    {
    }

    method EraseBlock(blockOffset: int) returns (rc: int)
      requires Valid() && IsInt(blockOffset)
      modifies spi
      ensures Valid() && SameDevice(old(spi.chip), spi.chip)
      ensures rc == if 0 <= blockOffset < old(|Mem()|) then 0 else -EIO
      ensures Mem() == if rc == 0 then Erased(old(Mem()), spi.chip.sector, blockOffset) else old(Mem())
    {
      TestAddressIsExact(blockOffset);
      rc := TestAddress(blockOffset);
      if rc >= 0 {
        SectorErase(spi, blockOffset, fourBytesMode);
      }
    }

    /** Program a range in page-sized pieces; past the end of the device it goes on at the beginning. */
    method ProgramPages(dataOffset: nat, data: seq<byte>)
      requires Valid() && IsInt(dataOffset + |data| + PAGE)
      modifies spi
      ensures Settled(spi) && SameDevice(old(spi.chip), spi.chip)
      ensures Mem() == AndAround(old(Mem()), dataOffset, data)
      ensures spi.commands == old(spi.commands) + ProgramFrames(Pages(dataOffset, data), fourBytesMode)
    {
      var at: nat, rest := dataOffset, data;
      ghost var goal := old(spi.commands) + ProgramFrames(Pages(dataOffset, data), fourBytesMode);
      while rest != []
        invariant Settled(spi) && SameDevice(old(spi.chip), spi.chip)
        invariant AndAround(Mem(), at, rest) == AndAround(old(Mem()), dataOffset, data)
        invariant spi.commands + ProgramFrames(Pages(at, rest), fourBytesMode) == goal
        decreases |rest|
      {
        var nextPageStart := NextMultiple(at, pageSize);
        var n := Min(|rest|, nextPageStart - at);
        PageStep(Mem(), at, rest, n);
        ProgrammedPieceIsAround(Mem(), at, rest[..n]);
        CapacityComesAround(spi.chip, fourBytesMode);
        FirstFrame(at, rest, n, fourBytesMode, spi.commands);
        WriteBuffer(spi, at, rest[..n], fourBytesMode);
        rest := rest[n..];
        at := nextPageStart;
      }
    }

    /** Programming takes bits away whatever the range held, and the page structure does not show.  A range that begins
        on the device is programmed as a whole: what passes its end lands at its beginning. */
    method WriteBlock(blockOffset: int, dataOffset: int, data: seq<byte>) returns (rc: int)
      requires Valid() && IsInt(dataOffset) && IsInt(dataOffset + |data| + PAGE)
      modifies spi
      ensures Valid() && SameDevice(old(spi.chip), spi.chip)
      ensures rc == if 0 <= dataOffset < old(|Mem()|) then 0 else -EIO
      ensures Mem() == if rc == 0 then AndAround(old(Mem()), dataOffset, data) else old(Mem())
      ensures rc == 0 ==> AfterBlock(Mem(), old(Mem()), dataOffset, data)
      ensures spi.commands == if rc == 0
        then old(spi.commands) + ProgramFrames(Pages(dataOffset, data), fourBytesMode) else old(spi.commands)
      ensures data != [] ==>
        (rc == 0 && SentInPlace(Pages(dataOffset, data), dataOffset, data, |Mem()|)
         <==> 0 <= dataOffset && dataOffset + |data| <= |Mem()|)
    {
      TestAddressIsExact(dataOffset);
      rc := TestAddress(dataOffset);
      if rc >= 0 {
        BlockEffect(Mem(), dataOffset, data);
        ProgramPages(dataOffset, data);
      }
    }

    /** Reading past the end wraps around to the beginning; a start outside the device is an error. */
    method Read(offset: int, length: nat) returns (rc: int, data: seq<byte>)
      requires Valid() && IsInt(offset)
      modifies spi
      ensures Valid() && spi.chip == old(spi.chip)
      ensures rc == if 0 <= offset < |Mem()| then 0 else -EIO
      ensures rc == 0 ==> data == ReadOut(Mem(), offset, length)
    {
      data := [];
      TestAddressIsExact(offset);
      rc := TestAddress(offset);
      if rc >= 0 {
        data := ReadBuffer(spi, offset, length, fourBytesMode);
        rc := |data|;
        if rc == length {
          rc := 0;
        }
      }
    }

    /** Compare a range with a buffer, 32 bytes at a time. */
    method Compare(src: seq<byte>, offset: int) returns (cmp: int)
      requires Valid() && IsInt(offset) && 0 <= offset && offset + |src| <= |Mem()|
      modifies spi
      ensures Valid() && spi.chip == old(spi.chip)
      ensures cmp == 0 <==> Holds(Mem(), offset, src, offset, offset + |src|)
    {
      var n, current := |src|, 0;
      while n > 0
        invariant Valid() && spi.chip == old(spi.chip)
        invariant 0 <= current && 0 <= n && current + n == |src|
        invariant Holds(Mem(), offset, src, offset, offset + current)
      {
        var chunkSize := if n > 32 then 32 else n;
        var rc, chunk := Read(offset + current, chunkSize);
        if rc < 0 {
          return -1;
        }
        ReadOutInside(Mem(), offset + current, chunkSize);
        CompareStep(Mem(), src, offset, current, chunk);
        if src[current..current + chunkSize] != chunk {
          return 1;
        }
        n := n - chunkSize;
        current := current + chunkSize;
      }
      return 0;
    }

    /** Bring the part of the range in the sector at `s` up to date: nothing if it already matches, else erase the
        sector and program the part. */
    method UpdateSector(s: nat, offset: nat, src: seq<byte>) returns (rc: int)
      requires Valid() && s % spi.chip.sector == 0 && s <= offset
      requires offset + |src| <= s + spi.chip.sector <= |Mem()|
      modifies spi
      ensures Valid() && SameDevice(old(spi.chip), spi.chip) && rc == 0
      ensures SectorWritten(Mem(), old(Mem()), spi.chip.sector, s, offset, src)
    {
      rc := 0;
      ghost var mem, sector := Mem(), spi.chip.sector;
      var cmp := Compare(src, offset);
      if cmp != 0 {
        rc := EraseBlock(s);
        if rc == 0 {
          rc := WriteBlock(s, offset, src);
        }
        forall a | 0 <= a < |mem|
          ensures Mem()[a] == if s <= a < s + sector then SectorByte(mem, sector, s, offset, src, a) else mem[a]
        {
          EraseAndProgramByte(mem, sector, s, offset, src, a);
        }
      }
    }

    /** The remaining range is still to be dealt with from `current` on. */
    ghost predicate Pending(current: nat, at: int, rest: seq<byte>, offset: nat, src: seq<byte>, before: seq<byte>)
      reads this, spi
    {
      && at == Max(offset, current) && at - offset <= |src| && rest == src[at - offset..]
      && spi.chip.sector > 0 && WrittenBelow(Mem(), before, spi.chip.sector, offset, src, current)
    }

    /** Bring the sector at `current` up to date with `part`, its part of the range, which begins at `at`. */
    method UpdatePart(current: nat, at: int, part: seq<byte>, ghost offset: nat, ghost src: seq<byte>,
                      ghost before: seq<byte>)
      returns (rc: int)
      requires Valid() && current % spi.chip.sector == 0 && current + spi.chip.sector <= |Mem()| == |before|
      requires at == Max(offset, current) && at + |part| == PartEnd(before, spi.chip.sector, current, offset, src)
      requires at + |part| - offset <= |src| && part == src[at - offset..at + |part| - offset]
      requires WrittenBelow(Mem(), before, spi.chip.sector, offset, src, current)
      modifies spi
      ensures Valid() && SameDevice(old(spi.chip), spi.chip) && rc == 0
      ensures WrittenBelow(Mem(), before, spi.chip.sector, offset, src, current + spi.chip.sector)
    {
      ghost var mem := Mem();
      rc := UpdateSector(current, at, part);
      SectorInside(mem, Mem(), before, spi.chip.sector, offset, src, current, at, at + |part|);
    }

    /** One block of the walk over a region. */
    method VisitBlock(current: nat, at: int, rest: seq<byte>, ghost offset: nat, ghost src: seq<byte>,
                      ghost before: seq<byte>)
      returns (rc: int, finished: bool, next: int, left: seq<byte>)
      requires Valid() && Pending(current, at, rest, offset, src, before)
      requires current % spi.chip.sector == 0 && current + spi.chip.sector <= |Mem()|
      modifies spi
      ensures Valid() && SameDevice(old(spi.chip), spi.chip) && rc == 0
      ensures WrittenBelow(Mem(), before, spi.chip.sector, offset, src, current + spi.chip.sector)
      ensures finished ==> offset + |src| <= current + spi.chip.sector
      ensures !finished ==> Pending(current + spi.chip.sector, next, left, offset, src, before)
    {
      rc, finished, next, left := 0, false, at, rest;
      var blockSize := regions[0].blockSize;
      if at >= current && at < current + blockSize {
        var n := Min(current + blockSize - at, |rest|);
        LeftOver(current, blockSize, at, n, offset, src);
        rc := UpdatePart(current, at, rest[..n], offset, src, before);
        if |rest| == n || rc != 0 {
          finished := true;
          return;
        }
        left := rest[n..];
        next := current + blockSize;
      } else {
        SectorSkipped(Mem(), before, spi.chip.sector, offset, src, current, at);
      }
    }

    /** The blocks of the region in turn, as far as the range reaches; `finished` unless the range goes on beyond. */
    method WriteRegion(g: Region, offset: nat, src: seq<byte>)
      returns (rc: int, finished: bool, at: int, rest: seq<byte>)
      requires Valid() && regions == [g] && offset < g.size
      modifies spi
      ensures Valid() && SameDevice(old(spi.chip), spi.chip) && rc == 0
      ensures Mem() == Written(old(Mem()), spi.chip.sector, offset, src)
      ensures !finished ==> at == g.size
    {
      rc, finished, at, rest := 0, false, offset, src;
      ghost var before := Mem();
      var current := g.offset;
      for j := 0 to g.blocks
        invariant Valid() && SameDevice(old(spi.chip), spi.chip) && rc == 0 && !finished
        invariant current == Span(j, g.blockSize) && Pending(current, at, rest, offset, src, before)
      {
        BlockPlace(g, j);
        rc, finished, at, rest := VisitBlock(current, at, rest, offset, src, before);
        current := current + g.blockSize;
        if finished {
          RestOutside(Mem(), before, spi.chip.sector, offset, src, current);
          return;
        }
      }
      BlockPlace(g, g.blocks - 1);
      RestOutside(Mem(), before, spi.chip.sector, offset, src, current);
    }

    /** Write a range, erasing where needed.  A part beyond the end of the device, or a range that begins outside it,
        is dropped without an error. */
    method Write(offset: int, src: seq<byte>) returns (rc: int)
      requires Valid() && IsInt(offset) && IsInt(offset + |src|)
      modifies spi
      ensures Valid() && SameDevice(old(spi.chip), spi.chip) && rc == 0
      ensures Mem() == AfterWrite(old(Mem()), spi.chip.sector, offset, src)
      ensures src != [] ==> (AllStored(Mem(), offset, src) <==> 0 <= offset && offset + |src| <= |Mem()|)
    {
      if src != [] {
        WriteIsCompleteExactlyInside(Mem(), spi.chip.sector, offset, src);
      }
      rc := 0;
      var at, rest, finished := offset, src, false;
      ghost var before, sector := Mem(), spi.chip.sector;
      for i := 0 to |regions|
        invariant Valid() && SameDevice(old(spi.chip), spi.chip) && rc == 0
        invariant i == 0 ==> at == offset && rest == src && Mem() == before
        invariant i == 1 ==> Mem() == if offset < 0 then before else Written(before, sector, offset, src)
      {
        var g := regions[i];
        if at >= g.offset && at < g.offset + g.size {
          rc, finished, at, rest := WriteRegion(g, at, rest);
          if finished {
            return;
          }
        } else if at >= 0 {
          WrittenBeyond(before, sector, offset, src);
        }
      }
    }
  }
}
