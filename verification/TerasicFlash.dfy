/** The board library's flash access: block geometry, block-wise writing and the self-test, on top of the serial flash
    driver. */
module TerasicFlash {
  import opened Bytes
  import opened EpcsChip
  import opened EpcsCommands
  import opened EpcsFlash
  import opened Errno
  import opened Words

  // ---------------------------------------------------------------- block geometry

  /** The sizes of all erase blocks, in address order. */
  function BlockSizes(regions: seq<Region>): seq<int> {
    if regions == [] then []
    else Repeated(Max(0, regions[0].blocks), regions[0].blockSize) + BlockSizes(regions[1..])
  }

  function Repeated(n: nat, x: int): (s: seq<int>)
    ensures |s| == n
    ensures forall i :: 0 <= i < n ==> s[i] == x
  {
    seq(n, _ => x)
  }

  function Sum(s: seq<int>): int {
    if s == [] then 0 else Sum(s[..|s| - 1]) + s[|s| - 1]
  }

  lemma {:induction false} BlockSizesJoin(a: seq<Region>, b: seq<Region>)
    ensures BlockSizes(a + b) == BlockSizes(a) + BlockSizes(b)
  {
    if a == [] {
      assert a + b == b;
    } else {
      assert (a + b)[0] == a[0] && (a + b)[1..] == a[1..] + b;
      BlockSizesJoin(a[1..], b);
    }
  }

  /** Offset and size of block `index`: found exactly when the device has that many blocks, and then its offset is the
      total size of the blocks before it, so the blocks tile the device, as far as 32 bits hold it. */
  method GetBlockInfo(regions: seq<Region>, index: nat) returns (found: bool, offset: int, length: int)
    ensures found <==> index < |BlockSizes(regions)|
    ensures found ==> length == BlockSizes(regions)[index] && offset == Int32(Sum(BlockSizes(regions)[..index]))
  {
    var blockCount, sum := 0, 0;
    found, offset, length := false, 0, 0;
    var r := 0;
    while r < |regions| && !found
      invariant 0 <= r <= |regions|
      invariant !found ==> blockCount == |BlockSizes(regions[..r])| <= index
      invariant Counted(BlockSizes(regions), blockCount, sum)
      invariant found ==> blockCount == index < |BlockSizes(regions)| && length == BlockSizes(regions)[index]
    {
      var g := regions[r];
      ghost var base, all := blockCount, BlockSizes(regions);
      NextBlocks(regions, r);
      for i := 0 to Max(0, g.blocks)
        invariant blockCount == (if found then index else base + i) <= index
        invariant Counted(all, blockCount, sum)
        invariant found ==> index < base + i && length == all[index]
      {
        if blockCount == index {
          found := true;
          length := g.blockSize;
        } else {
          NextSum(all, blockCount, sum);
          sum := U32(sum + g.blockSize);
          blockCount := blockCount + 1;
        }
      }
      r := r + 1;
    }
    assert regions[..|regions|] == regions;
    if found {
      offset := Int32(sum);
      AddWords(Sum(BlockSizes(regions)[..index]), 0);
    }
  }

  /** `sum` is the 32-bit sum of the first `k` sizes. */
  ghost predicate Counted(sizes: seq<int>, k: int, sum: int) {
    0 <= k <= |sizes| && sum == U32(Sum(sizes[..k]))
  }

  lemma NextSum(sizes: seq<int>, k: nat, sum: int)
    requires k < |sizes| && Counted(sizes, k, sum)
    ensures Counted(sizes, k + 1, U32(sum + sizes[k]))
  {
    assert sizes[..k + 1] == sizes[..k] + [sizes[k]];
    AddWords(Sum(sizes[..k]), sizes[k]);
  }

  /** The blocks of region `r` follow those of the regions before it. */
  lemma NextBlocks(regions: seq<Region>, r: nat)
    requires r < |regions|
    ensures var base, n := |BlockSizes(regions[..r])|, Max(0, regions[r].blocks);
      && |BlockSizes(regions[..r + 1])| == base + n <= |BlockSizes(regions)|
      && forall i :: base <= i < base + n ==> BlockSizes(regions)[i] == regions[r].blockSize
  {
    var single := [regions[r]];
    var one := BlockSizes(single);
    var own := Repeated(Max(0, regions[r].blocks), regions[r].blockSize);
    assert single[0] == regions[r] && single[1..] == [];
    assert one == own + BlockSizes(single[1..]) == own;
    BlockSizesJoin(regions[..r], [regions[r]]);
    assert regions[..r + 1] == regions[..r] + [regions[r]];
    BlockSizesJoin(regions[..r + 1], regions[r + 1..]);
    assert regions == regions[..r + 1] + regions[r + 1..];
  }

  lemma AddIn16(x: nat, y: nat)
    ensures (x % 0x1_0000 + y) % 0x1_0000 == (x + y) % 0x1_0000
  {
  }

  /** The 16-bit block count. */
  method GetBlockCount(regions: seq<Region>) returns (count: nat)
    requires forall i :: 0 <= i < |regions| ==> regions[i].blocks >= 0
    ensures count == |BlockSizes(regions)| % 0x1_0000
  {
    count := 0;
    for r := 0 to |regions|
      invariant count == |BlockSizes(regions[..r])| % 0x1_0000
    {
      NextBlocks(regions, r);
      AddIn16(|BlockSizes(regions[..r])|, regions[r].blocks);
      count := (count + regions[r].blocks) % 0x1_0000;
    }
    assert regions[..|regions|] == regions;
  }

  // ---------------------------------------------------------------- block-wise writing

  lemma {:induction false} EndToEndSnoc(calls: seq<(nat, seq<byte>)>, at: nat, data: seq<byte>)
    requires EndToEnd(calls, at)
    ensures EndToEnd(calls + [(at + |Joined(calls)|, data)], at)
    ensures Joined(calls + [(at + |Joined(calls)|, data)]) == Joined(calls) + data
  {
    var more := calls + [(at + |Joined(calls)|, data)];
    if calls == [] {
      assert more[1..] == [];
    } else {
      var first := calls[0].1;
      assert more[0] == calls[0] && more[1..] == calls[1..] + [(at + |first| + |Joined(calls[1..])|, data)];
      EndToEndSnoc(calls[1..], at + |first|, data);
      assert first + (Joined(calls[1..]) + data) == first + Joined(calls[1..]) + data;
    }
  }

  /** The command windows of a sequence of block writes. */
  function CallFrames(calls: seq<(nat, seq<byte>)>, four: bool): seq<seq<byte>>
    decreases |calls|
  {
    if calls == [] then []
    else
      var last := calls[|calls| - 1];
      CallFrames(calls[..|calls| - 1], four) + ProgramFrames(Pages(last.0, last.1), four)
  }

  /** The size of the next block write.  The first comparison is between unsigned values, so a first block that ends
      before the range begins does not shorten the write: the whole range goes out in one piece.  In every case the
      write stays inside the range, and unless it completes the range it ends with the block. */
  method ThisWriteSize(blockOffset: nat, blockSize: nat, offset: nat, size: nat, count: nat) returns (n: nat)
    requires 0 < blockSize && blockOffset + blockSize < 0x8000_0000 && offset + size < 0x8000_0000 && count < size
    requires (blockOffset == 0 && count == 0) || offset + count == blockOffset
    ensures n <= size - count && (count + n == size || offset + count + n == blockOffset + blockSize)
    ensures count == 0 && offset > blockOffset + blockSize ==> n == size
    ensures count > 0 || offset <= blockOffset + blockSize ==> offset + count + n <= blockOffset + blockSize
  {
    n := size - count;
    if count == 0 {
      if n > U32(blockOffset + blockSize - offset) {
        n := U32(blockOffset + blockSize - offset);
      }
    } else if n > blockSize {
      n := blockSize;
    }
  }

  /** The block writes `calls`, and the command log `now` that was `log` before them, after the first `count` bytes. */
  ghost predicate Called(now: seq<seq<byte>>, log: seq<seq<byte>>, four: bool, calls: seq<(nat, seq<byte>)>,
                         offset: nat, data: seq<byte>, count: nat)
  {
    && count <= |data| && Joined(calls) == data[..count] && EndToEnd(calls, offset)
    && now == log + CallFrames(calls, four)
  }

  /** After its first `count` bytes a block-wise write has programmed just those bytes and sent just their commands:
      `mem` and `now` are memory and command log, `before` and `log` what they were at the start. */
  ghost predicate Progress(mem: seq<byte>, now: seq<seq<byte>>, before: seq<byte>, log: seq<seq<byte>>, four: bool,
                           calls: seq<(nat, seq<byte>)>, offset: nat, data: seq<byte>, count: nat)
  {
    && Called(now, log, four, calls, offset, data, count)
    && before != [] && mem == AndAround(before, offset, data[..count])
  }

  lemma ProgressStep(mem: seq<byte>, now: seq<seq<byte>>, before: seq<byte>, log: seq<seq<byte>>, four: bool,
                     calls: seq<(nat, seq<byte>)>, offset: nat, data: seq<byte>, count: nat, size: nat)
    requires Progress(mem, now, before, log, four, calls, offset, data, count) && count + size <= |data|
    ensures var at, piece := offset + count, data[count..count + size];
      Progress(AndAround(mem, at, piece), now + ProgramFrames(Pages(at, piece), four), before, log, four,
               calls + [(at, piece)], offset, data, count + size)
  {
    TakeMore(data, count, size);
    MemoryStep(before, offset, data, count, data[count..count + size]);
    CallsStep(now, log, four, calls, offset, data, count, data[count..count + size], offset + count);
  }

  lemma MemoryStep(before: seq<byte>, offset: nat, data: seq<byte>, count: nat, piece: seq<byte>)
    requires before != [] && count + |piece| <= |data| && data[..count + |piece|] == data[..count] + piece
    ensures AndAround(AndAround(before, offset, data[..count]), offset + count, piece)
         == AndAround(before, offset, data[..count + |piece|])
  {
    AndAroundJoins(before, offset, data[..count], piece);
  }

  lemma PiecesStep(calls: seq<(nat, seq<byte>)>, offset: nat, done: seq<byte>, piece: seq<byte>, at: nat)
    requires Joined(calls) == done && EndToEnd(calls, offset) && at == offset + |done|
    ensures Joined(calls + [(at, piece)]) == done + piece && EndToEnd(calls + [(at, piece)], offset)
  {
    EndToEndSnoc(calls, offset, piece);
  }

  lemma CallsStep(now: seq<seq<byte>>, log: seq<seq<byte>>, four: bool, calls: seq<(nat, seq<byte>)>, offset: nat,
                  data: seq<byte>, count: nat, piece: seq<byte>, at: nat)
    requires Called(now, log, four, calls, offset, data, count) && at == offset + count
    requires count + |piece| <= |data| && data[..count + |piece|] == data[..count] + piece
    ensures Called(now + ProgramFrames(Pages(at, piece), four), log, four, calls + [(at, piece)], offset, data,
                   count + |piece|)
  {
    PiecesStep(calls, offset, data[..count], piece, at);
    FramesSnoc(calls, (at, piece), four, log);
  }

  /** Where a block-wise write stands on a device. */
  ghost predicate Underway(dev: EpcsDevice, before: seq<byte>, log: seq<seq<byte>>, calls: seq<(nat, seq<byte>)>,
                           offset: nat, data: seq<byte>, count: nat)
    reads dev, dev.spi
  {
    && dev.Valid() && |before| == |dev.Mem()| && IsInt(offset + |data| + PAGE)
    && Progress(dev.Mem(), dev.spi.commands, before, log, dev.fourBytesMode, calls, offset, data, count)
  }

  /** One block write of `size` bytes; it is refused if it begins beyond the device. */
  method SendPiece(dev: EpcsDevice, blockOffset: nat, offset: nat, data: seq<byte>, count: nat, size: nat,
                   ghost before: seq<byte>, ghost log: seq<seq<byte>>, ghost calls: seq<(nat, seq<byte>)>)
    returns (rc: int)
    requires Underway(dev, before, log, calls, offset, data, count) && count + size <= |data|
    modifies dev.spi
    ensures SameDevice(old(dev.spi.chip), dev.spi.chip) && rc == if offset + count < |dev.Mem()| then 0 else -EIO
    ensures if rc == 0
      then Underway(dev, before, log, calls + [(offset + count, data[count..count + size])], offset, data, count + size)
      else Underway(dev, before, log, calls, offset, data, count)
  {
    ghost var mem, now := dev.Mem(), dev.spi.commands;
    rc := dev.WriteBlock(blockOffset, offset + count, data[count..count + size]);
    if rc == 0 {
      ProgressStep(mem, now, before, log, dev.fourBytesMode, calls, offset, data, count, size);
    }
  }

  /** One block of the walk: the part of the range that goes with it, if any. */
  method VisitForWrite(dev: EpcsDevice, blockOffset: nat, offset: nat, data: seq<byte>, count: nat,
                       ghost before: seq<byte>, ghost log: seq<seq<byte>>, ghost calls: seq<(nat, seq<byte>)>)
    returns (ok: bool, next: nat, ghost made: seq<(nat, seq<byte>)>)
    requires Underway(dev, before, log, calls, offset, data, count) && count <= |data|
    requires blockOffset + dev.regions[0].blockSize <= |dev.Mem()|
    requires count == |data| || (blockOffset == 0 && count == 0) || offset + count == blockOffset
    modifies dev.spi
    ensures SameDevice(old(dev.spi.chip), dev.spi.chip)
    ensures ok <==> count == |data| || offset + count < |dev.Mem()|
    ensures ok ==> Underway(dev, before, log, made, offset, data, next)
    ensures ok ==> VisitReaches(blockOffset, dev.regions[0].blockSize, offset, |data|, count, next)
    ensures !ok ==> made == calls && Underway(dev, before, log, calls, offset, data, count)
  {
    ok, next, made := true, count, calls;
    if U32(offset + count) >= U32(blockOffset) && count < |data| {
      var size := ThisWriteSize(blockOffset, dev.regions[0].blockSize, offset, |data|, count);
      var rc := SendPiece(dev, blockOffset, offset, data, count, size, before, log, calls);
      if rc != 0 {
        ok := false;
      } else {
        made := calls + [(offset + count, data[count..count + size])];
      }
      next := count + size;
    }
  }

  /** How far the visit of a block takes a write. */
  predicate VisitReaches(blockOffset: nat, blockSize: int, offset: nat, size: nat, count: nat, next: nat) {
    && count <= next <= size && (next == size || offset + next == blockOffset + blockSize)
    && (count == 0 && blockOffset == 0 && offset > blockSize ==> next == size)
    && (count < size && (count > 0 || offset <= blockOffset + blockSize) ==> offset + next <= blockOffset + blockSize)
  }

  /** How much of a range a block-wise write sends: all of it, unless the walk over the blocks reaches the end of the
      device first, which it does not if the range begins beyond the first block. */
  function Reach(offset: nat, size: nat, device: nat, block: int): (n: nat)
    ensures n <= size
    ensures offset + size <= device ==> n == size
  {
    if offset <= block && offset < device < offset + size then device - offset else size
  }

  /** Where the walk over the blocks stands at `blockOffset`, on a write not refused. */
  predicate WalkStands(blockOffset: nat, blockSize: int, offset: nat, size: nat, count: nat) {
    && count <= size && (if blockOffset == 0 then count == 0 else count == size || offset + count == blockOffset)
    && (blockOffset > 0 ==> if offset > blockSize then count == size else offset + count <= blockOffset)
  }

  lemma WalkStep(blockOffset: nat, blockSize: nat, offset: nat, size: nat, count: nat, next: nat)
    requires blockSize > 0 && (blockOffset == 0 || blockOffset >= blockSize)
    requires WalkStands(blockOffset, blockSize, offset, size, count)
    requires VisitReaches(blockOffset, blockSize, offset, size, count, next)
    ensures WalkStands(blockOffset + blockSize, blockSize, offset, size, next)
  {
  }

  lemma WalkEnds(device: nat, blockSize: nat, offset: nat, size: nat, count: nat)
    requires device > 0 && WalkStands(device, blockSize, offset, size, count) && (size == 0 || offset < device)
    ensures count == Reach(offset, size, device, blockSize)
  {
  }

  /** The loop of a block-wise write, at the block beginning at `blockOffset`. */
  ghost predicate Walking(dev: EpcsDevice, before: seq<byte>, log: seq<seq<byte>>, calls: seq<(nat, seq<byte>)>,
                          offset: nat, data: seq<byte>, blockOffset: nat, count: nat, ok: bool)
    reads dev, dev.spi
  {
    && dev.Valid() && (blockOffset == 0 || blockOffset >= dev.regions[0].blockSize)
    && if ok then
         && Underway(dev, before, log, calls, offset, data, count)
         && WalkStands(blockOffset, dev.regions[0].blockSize, offset, |data|, count)
         && (blockOffset > 0 ==> data == [] || offset < |before|)
       else Underway(dev, before, log, calls, offset, data, 0) && data != [] && offset >= |before|
  }

  /** One turn of the loop. */
  method WalkOn(dev: EpcsDevice, blockOffset: nat, offset: nat, data: seq<byte>, count: nat,
                ghost before: seq<byte>, ghost log: seq<seq<byte>>, ghost calls: seq<(nat, seq<byte>)>)
    returns (ok: bool, next: nat, ghost made: seq<(nat, seq<byte>)>)
    requires Walking(dev, before, log, calls, offset, data, blockOffset, count, true)
    requires blockOffset + dev.regions[0].blockSize <= |dev.Mem()|
    modifies dev.spi
    ensures SameDevice(old(dev.spi.chip), dev.spi.chip)
    ensures Walking(dev, before, log, made, offset, data, blockOffset + dev.regions[0].blockSize, next, ok)
  {
    ok, next, made := VisitForWrite(dev, blockOffset, offset, data, count, before, log, calls);
    if ok {
      WalkStep(blockOffset, dev.regions[0].blockSize, offset, |data|, count, next);
    }
  }

  lemma WholeRange(dev: EpcsDevice, before: seq<byte>, log: seq<seq<byte>>, calls: seq<(nat, seq<byte>)>, offset: nat,
                   data: seq<byte>)
    requires Underway(dev, before, log, calls, offset, data, |data|) && offset + |data| <= |before|
    ensures dev.Mem() == AndAt(before, offset, data) && Joined(calls) == data && EndToEnd(calls, offset)
  {
    assert data[..|data|] == data;
    AndAroundInside(before, offset, data);
  }

  /** Memory after a range from `offset` on that runs past the end of the device: one that begins in the first block is
      cut off there, any other goes on over the beginning. */
  ghost predicate AfterOverrun(mem: seq<byte>, before: seq<byte>, block: int, offset: nat, data: seq<byte>)
    requires offset < |before| < offset + |data|
  {
    var k := |before| - offset;
    var cutOff := AndAt(before, offset, data[..k]);
    mem == if offset <= block then cutOff else AndAt(cutOff, 0, data[k..])
  }

  lemma OverrunShows(mem: seq<byte>, before: seq<byte>, block: int, offset: nat, data: seq<byte>)
    requires offset < |before| && mem == AndAround(before, offset, data[..Reach(offset, |data|, |before|, block)])
    ensures offset + |data| > |before| && |data| <= |before| ==> AfterOverrun(mem, before, block, offset, data)
  {
    var k := |before| - offset;
    if k < |data| <= |before| {
      if offset <= block {
        AndAroundInside(before, offset, data[..k]);
      } else {
        assert data[..|data|] == data;
        AndAroundOverrun(before, offset, data);
      }
    }
  }

  /** The smallest device, erased, and one byte too many from the second block on: everything before the last byte is
      written, and the write, which reports success, never sends that byte. */
  lemma CutOff(before: seq<byte>, data: seq<byte>)
    requires |before| == 0x2_0000 && (forall a :: 0 <= a < |before| ==> before[a] == 255) && |data| == 0x1_8001
    ensures Reach(0x8000, |data|, |before|, 0x8000) == |data| - 1
    ensures AndAround(before, 0x8000, data[..|data| - 1]) == before[..0x8000] + data[..|data| - 1]
  {
    var sent := data[..|data| - 1];
    AndAroundInside(before, 0x8000, sent);
    AndAtOnErased(before, 0x8000, sent);
    assert before[0x8000 + |sent|..] == [];
  }

  /** The same device and two bytes at its last address: the second is written over address 0, outside the range. */
  lemma GoesRound(before: seq<byte>, a: byte, b: byte)
    requires |before| == 0x2_0000 && forall a :: 0 <= a < |before| ==> before[a] == 255
    ensures Reach(0x1_FFFF, 2, |before|, 0x8000) == 2
    ensures var mem := AndAround(before, 0x1_FFFF, [a, b]); mem[0x1_FFFF] == a && mem[0] == b
  {
    var data := [a, b];
    AndAroundOverrun(before, 0x1_FFFF, data);
    assert data[..1] == [a] && data[1..] == [b];
    ErasedTakesAnyByte(a);
    ErasedTakesAnyByte(b);
  }

  lemma WalkBegins(dev: EpcsDevice, offset: nat, data: seq<byte>)
    requires dev.Valid() && IsInt(offset + |data| + PAGE)
    ensures Walking(dev, dev.Mem(), dev.spi.commands, [], offset, data, 0, 0, true)
  {
    assert data[..0] == [] && dev.spi.commands + [] == dev.spi.commands;
  }

  /** What a walk that was not refused has done when it ends. */
  lemma WalkIsOver(dev: EpcsDevice, before: seq<byte>, log: seq<seq<byte>>, calls: seq<(nat, seq<byte>)>, offset: nat,
                   data: seq<byte>, count: nat)
    requires Walking(dev, before, log, calls, offset, data, |before|, count, true) && before != []
    ensures count == Reach(offset, |data|, |before|, dev.regions[0].blockSize)
    ensures offset + |data| <= |before| ==>
      dev.Mem() == AndAt(before, offset, data) && Joined(calls) == data && EndToEnd(calls, offset)
    ensures data != [] ==> (SentInPlace(calls, offset, data, |before|) <==> offset + |data| <= |before|)
    ensures |data| <= |before| < offset + |data| && data != [] ==>
      AfterOverrun(dev.Mem(), before, dev.regions[0].blockSize, offset, data)
  {
    WalkEnds(|before|, dev.regions[0].blockSize, offset, |data|, count);
    if offset + |data| <= |before| {
      WholeRange(dev, before, log, calls, offset, data);
    }
    if data != [] {
      SentInPlaceExactlyInside(calls, offset, data, count, |before|);
      OverrunShows(dev.Mem(), before, dev.regions[0].blockSize, offset, data);
    }
  }

  /** Write a range block by block, without erasing.  The bytes that are sent are sent exactly once, in order, each to
      its own address, whatever block offset accompanies it; that is all of them if the range lies inside the device.
      A range that begins beyond the device is refused; one that runs past the end is reported as written. */
  method FlashWrite(dev: EpcsDevice, offset: nat, data: seq<byte>)
    returns (ok: bool, ghost calls: seq<(nat, seq<byte>)>)
    requires dev.Valid() && IsInt(offset + |data| + PAGE)
    modifies dev.spi
    ensures dev.Valid() && SameDevice(old(dev.spi.chip), dev.spi.chip)
    ensures ok <==> data == [] || offset < |dev.Mem()|
    ensures Underway(dev, old(dev.Mem()), old(dev.spi.commands), calls, offset, data,
                     if ok then Reach(offset, |data|, |dev.Mem()|, dev.regions[0].blockSize) else 0)
    ensures offset + |data| <= |dev.Mem()| ==>
      ok && dev.Mem() == AndAt(old(dev.Mem()), offset, data) && Joined(calls) == data && EndToEnd(calls, offset)
    ensures data != [] ==>
      (ok && SentInPlace(calls, offset, data, |dev.Mem()|) <==> offset + |data| <= |dev.Mem()|)
    ensures ok && offset + |data| > |dev.Mem()| && |data| <= |dev.Mem()| && data != [] ==>
      AfterOverrun(dev.Mem(), old(dev.Mem()), dev.regions[0].blockSize, offset, data)
  {
    ok, calls := true, [];
    var blockOffset, count := 0, 0;
    var g := dev.regions[0];
    ghost var before, log := dev.Mem(), dev.spi.commands;
    WalkBegins(dev, offset, data);
    var i := 0;
    while i < g.blocks && ok
      invariant SameDevice(old(dev.spi.chip), dev.spi.chip) && 0 <= i <= g.blocks && blockOffset == Span(i, g.blockSize)
      invariant Walking(dev, before, log, calls, offset, data, blockOffset, count, ok)
    {
      BlockPlace(g, i);
      ok, count, calls := WalkOn(dev, blockOffset, offset, data, count, before, log, calls);
      blockOffset := blockOffset + g.blockSize;
      i := i + 1;
    }
    if ok {
      WalkIsOver(dev, before, log, calls, offset, data, count);
    }
  }

  lemma FramesSnoc(calls: seq<(nat, seq<byte>)>, c: (nat, seq<byte>), four: bool, log: seq<seq<byte>>)
    ensures log + CallFrames(calls, four) + ProgramFrames(Pages(c.0, c.1), four) == log + CallFrames(calls + [c], four)
  {
    assert (calls + [c])[..|calls|] == calls;
  }

  // ---------------------------------------------------------------- the self-test

  const BUF_SIZE: nat := 8 * 1024

  /** An 8-bit counter `n` steps on. */
  function After(from: byte, n: nat): byte {
    (from as int + n) % 256
  }

  lemma AfterJoins(from: byte, n: nat, m: nat)
    ensures After(After(from, n), m) == After(from, n + m)
  {
  }

  /** `n` bytes counting up from `from`, as an 8-bit counter does. */
  function Pattern(from: byte, n: nat): (p: seq<byte>)
    ensures |p| == n
  {
    seq(n, k requires 0 <= k < n => After(from, k))
  }

  lemma PatternPart(from: byte, size: nat, at: nat, n: nat)
    requires at + n <= size
    ensures Pattern(from, size)[at..at + n] == Pattern(After(from, at), n)
  {
    forall k | 0 <= k < n
      ensures After(from, at + k) == After(After(from, at), k)
    {
      AfterJoins(from, at, k);
    }
  }

  /** Programming the next `n` test bytes extends the programmed pattern. */
  lemma PatternExtends(mem: seq<byte>, offset: nat, from: byte, n: nat, m: nat)
    ensures AndAt(AndAt(mem, offset, Pattern(from, n)), offset + n, Pattern(After(from, n), m))
         == AndAt(mem, offset, Pattern(from, n + m))
  {
    PatternPart(from, n + m, 0, n);
    PatternPart(from, n + m, n, m);
    AndAtJoins(mem, offset, Pattern(from, n), Pattern(After(from, n), m));
    assert Pattern(from, n) + Pattern(After(from, n), m) == Pattern(from, n + m);
  }

  lemma {:induction false} SumRepeated(k: nat, n: nat, x: nat)
    requires k <= n
    ensures Sum(Repeated(n, x)[..k]) == Span(k, x)
  {
    if k > 0 {
      var s := Repeated(n, x);
      assert s[..k][..k - 1] == s[..k - 1];
      SumRepeated(k - 1, n, x);
    }
  }

  /** The geometry of a one-region device. */
  lemma OneRegion(g: Region)
    requires Tiled(g)
    ensures BlockSizes([g]) == Repeated(g.blocks, g.blockSize)
    ensures forall k :: 0 <= k < g.blocks ==> Sum(BlockSizes([g])[..k]) == Span(k, g.blockSize)
  {
    var single := [g];
    assert single[1..] == [];
    assert BlockSizes(single) == Repeated(g.blocks, g.blockSize) + BlockSizes(single[1..]);
    assert Repeated(g.blocks, g.blockSize) + [] == Repeated(g.blocks, g.blockSize);
    forall k | 0 <= k < g.blocks
      ensures Sum(BlockSizes([g])[..k]) == Span(k, g.blockSize)
    {
      SumRepeated(k, g.blocks, g.blockSize);
    }
  }

  /** The next `n` test bytes, and the counter after them. */
  method FillBuffer(cnt: byte, n: nat) returns (buf: seq<byte>, next: byte)
    ensures buf == Pattern(cnt, n) && next == After(cnt, n)
  {
    buf, next := [], cnt;
    for k := 0 to n
      invariant buf == Pattern(cnt, k) && next == After(cnt, k)
    {
      buf := buf + [next];
      next := (next as int + 1) % 256;
    }
  }

  /** A block-wise write of a range inside the device. */
  method WriteInside(dev: EpcsDevice, offset: nat, data: seq<byte>) returns (ok: bool)
    requires dev.Valid() && offset + |data| <= |dev.Mem()|
    modifies dev.spi
    ensures dev.Valid() && SameDevice(old(dev.spi.chip), dev.spi.chip) && ok
    ensures dev.Mem() == AndAt(old(dev.Mem()), offset, data)
  {
    ghost var calls;
    ok, calls := FlashWrite(dev, offset, data);
  }

  /** Fill the buffer and write it, after the first `sum` bytes of a block. */
  method FillChunk(dev: EpcsDevice, offset: nat, sum: nat, n: nat, cnt: byte, ghost first: byte,
                   ghost before: seq<byte>)
    returns (ok: bool, next: byte)
    requires dev.Valid() && offset + sum + n <= |dev.Mem()| && cnt == After(first, sum)
    requires dev.Mem() == AndAt(before, offset, Pattern(first, sum))
    modifies dev.spi
    ensures dev.Valid() && SameDevice(old(dev.spi.chip), dev.spi.chip) && ok
    ensures dev.Mem() == AndAt(before, offset, Pattern(first, sum + n)) && next == After(first, sum + n)
  {
    var buf;
    buf, next := FillBuffer(cnt, n);
    PatternExtends(before, offset, first, sum, n);
    AfterJoins(first, sum, n);
    ok := WriteInside(dev, offset + sum, buf);
  }

  /** Write test bytes over a block, a buffer at a time. */
  method FillBlock(dev: EpcsDevice, offset: nat, size: nat, cnt: byte) returns (ok: bool, next: byte)
    requires dev.Valid() && offset + size <= |dev.Mem()|
    modifies dev.spi
    ensures dev.Valid() && SameDevice(old(dev.spi.chip), dev.spi.chip) && ok
    ensures dev.Mem() == AndAt(old(dev.Mem()), offset, Pattern(cnt, size)) && next == After(cnt, size)
  {
    ok, next := true, cnt;
    ghost var before := dev.Mem();
    AndAtNothing(before, offset);
    var sum := 0;
    while sum < size && ok
      invariant dev.Valid() && SameDevice(old(dev.spi.chip), dev.spi.chip) && ok && 0 <= sum <= size
      invariant dev.Mem() == AndAt(before, offset, Pattern(cnt, sum)) && next == After(cnt, sum)
    {
      var n := if BUF_SIZE > size - sum then size - sum else BUF_SIZE;
      ok, next := FillChunk(dev, offset, sum, n, next, cnt, before);
      sum := sum + n;
    }
  }

  /** Compare a buffer with the next test bytes. */
  method CheckBuffer(buf: seq<byte>, cnt: byte) returns (ok: bool, next: byte)
    ensures ok <==> buf == Pattern(cnt, |buf|)
    ensures ok ==> next == After(cnt, |buf|)
  {
    ok, next := true, cnt;
    var k := 0;
    while k < |buf| && ok
      invariant 0 <= k <= |buf|
      invariant ok ==> next == After(cnt, k) && forall i :: 0 <= i < k ==> buf[i] == Pattern(cnt, |buf|)[i]
      invariant !ok ==> buf != Pattern(cnt, |buf|)
    {
      if buf[k] != next {
        ok := false;
        assert buf[k] != Pattern(cnt, |buf|)[k];
      } else {
        next := (next as int + 1) % 256;
      }
      k := k + 1;
    }
  }

  /** Read and compare one buffer of a block. */
  method CheckChunk(dev: EpcsDevice, offset: nat, sum: nat, n: nat, cnt: byte, ghost pattern: seq<byte>)
    returns (ok: bool, next: byte)
    requires dev.Valid() && offset + |pattern| <= |dev.Mem()| && 0 < n && sum + n <= |pattern|
    requires Holds(dev.Mem(), offset, pattern, offset, offset + sum) && pattern[sum..sum + n] == Pattern(cnt, n)
    modifies dev.spi
    ensures dev.Valid() && dev.spi.chip == old(dev.spi.chip)
    ensures ok <==> Holds(dev.Mem(), offset, pattern, offset, offset + sum + n)
    ensures ok ==> next == After(cnt, n)
  {
    var rc, buf := dev.Read(offset + sum, n);
    ok, next := rc == 0, cnt;
    if ok {
      ReadOutInside(dev.Mem(), offset + sum, n);
      CompareStep(dev.Mem(), pattern, offset, sum, buf);
      ok, next := CheckBuffer(buf, cnt);
    }
  }

  /** Compare a block with the test bytes, a buffer at a time. */
  method CheckBlock(dev: EpcsDevice, offset: nat, size: nat, cnt: byte) returns (ok: bool, next: byte)
    requires dev.Valid() && offset + size <= |dev.Mem()|
    modifies dev.spi
    ensures dev.Valid() && dev.spi.chip == old(dev.spi.chip)
    ensures ok <==> Holds(dev.Mem(), offset, Pattern(cnt, size), offset, offset + size)
    ensures ok ==> next == After(cnt, size)
  {
    ok, next := true, cnt;
    var sum := 0;
    while sum < size && ok
      invariant dev.Valid() && dev.spi.chip == old(dev.spi.chip) && 0 <= sum <= size
      invariant ok <==> Holds(dev.Mem(), offset, Pattern(cnt, size), offset, offset + sum)
      invariant ok ==> next == After(cnt, sum)
    {
      var n := if BUF_SIZE > size - sum then size - sum else BUF_SIZE;
      PatternPart(cnt, size, sum, n);
      AfterJoins(cnt, sum, n);
      ok, next := CheckChunk(dev, offset, sum, n, next, Pattern(cnt, size));
      sum := sum + n;
    }
  }

  /** Whether the test visits address `a`: in quick mode only the first and the last block. */
  predicate Visited(quick: bool, g: Region, a: nat) {
    !quick || a < g.blockSize || a >= g.size - g.blockSize
  }

  /** How many visited addresses come before the visited address `a`. */
  function Rank(quick: bool, g: Region, a: nat): int {
    if quick && a >= g.blockSize then g.blockSize + (a - (g.size - g.blockSize)) else a
  }

  /** The byte the test puts at a visited address. */
  function TestByte(quick: bool, init: byte, g: Region, a: nat): byte
    requires Rank(quick, g, a) >= 0
  {
    After(init, Rank(quick, g, a))
  }

  predicate BlockVisited(quick: bool, g: Region, i: nat) {
    !(quick && i != 0 && i != g.blocks - 1)
  }

  /** A block is visited as a whole, and its ranks run on from its first address. */
  lemma VisitedByBlocks(quick: bool, g: Region, i: nat, a: nat)
    requires Tiled(g) && i < g.blocks && Span(i, g.blockSize) <= a < Span(i, g.blockSize) + g.blockSize
    ensures Visited(quick, g, a) <==> BlockVisited(quick, g, i)
    ensures Visited(quick, g, a) <==> !quick || i == 0 || i == g.blocks - 1
    ensures Visited(quick, g, a) ==>
      Rank(quick, g, a) == (if quick && i > 0 then g.blockSize else Span(i, g.blockSize)) + a - Span(i, g.blockSize)
  {
    if i > 0 {
      SpanGrows(1, i, g.blockSize);
      assert Span(1, g.blockSize) == g.blockSize;
    }
    if i < g.blocks - 1 {
      SpanGrows(i + 1, g.blocks - 1, g.blockSize);
    }
  }

  /** The test bytes count up by one from the start value, modulo 256, from address to address and, in quick mode, on
      from the first block to the last. */
  lemma TestBytesCountUp(quick: bool, init: byte, g: Region, a: nat)
    requires Tiled(g) && g.blocks > 1 && a + 1 < g.size
    ensures TestByte(quick, init, g, 0) == init
    ensures var next := if quick && a + 1 == g.blockSize then g.size - g.blockSize else a + 1;
      Visited(quick, g, a) && (Visited(quick, g, a + 1) || a + 1 == g.blockSize) ==>
        Rank(quick, g, a) >= 0 && Rank(quick, g, next) >= 0
        && TestByte(quick, init, g, next) == (TestByte(quick, init, g, a) as int + 1) % 256
  {
    SpanGrows(2, g.blocks, g.blockSize);
    assert Span(1, g.blockSize) == Span(0, g.blockSize) + g.blockSize;
    assert Span(2, g.blockSize) == Span(1, g.blockSize) + g.blockSize;
    AfterJoins(init, if Rank(quick, g, a) >= 0 then Rank(quick, g, a) else 0, 1);
  }

  /** Erase one block by index. */
  method FlashErase(dev: EpcsDevice, index: nat) returns (ok: bool)
    requires dev.Valid()
    modifies dev.spi
    ensures dev.Valid() && SameDevice(old(dev.spi.chip), dev.spi.chip)
    ensures ok <==> index < dev.regions[0].blocks
    ensures dev.Mem() == if ok then Erased(old(dev.Mem()), dev.spi.chip.sector, Span(index, dev.regions[0].blockSize))
                         else old(dev.Mem())
  {
    ok := false;
    var found, offset, length := GetBlockInfo(dev.regions, index);
    OneRegion(dev.regions[0]);
    if found {
      BlockPlace(dev.regions[0], index);
      var rc := dev.EraseBlock(offset);
      ok := rc == 0;
    }
  }

  /** The visited addresses below `upTo` have been erased, nothing else has changed. */
  ghost predicate ErasedBelow(quick: bool, g: Region, mem: seq<byte>, before: seq<byte>, upTo: nat) {
    && |mem| == |before|
    && forall a :: 0 <= a < |mem| ==> mem[a] == if a < upTo && Visited(quick, g, a) then 255 else before[a]
  }

  /** The visited addresses below `upTo` hold their test bytes, the visited ones from there on are erased. */
  ghost predicate FilledBelow(quick: bool, init: byte, g: Region, mem: seq<byte>, before: seq<byte>, upTo: nat)
    requires Tiled(g)
  {
    && |mem| == |before| == g.size
    && forall a :: 0 <= a < |mem| ==>
      mem[a] == if !Visited(quick, g, a) then before[a]
                else if a < upTo then TestByte(quick, init, g, a) else 255
  }

  lemma EraseStep(quick: bool, g: Region, i: nat, mem: seq<byte>, before: seq<byte>)
    requires Tiled(g) && i < g.blocks && |mem| == g.size && ErasedBelow(quick, g, mem, before, Span(i, g.blockSize))
    ensures ErasedBelow(quick, g,
                        if BlockVisited(quick, g, i) then Erased(mem, g.blockSize, Span(i, g.blockSize)) else mem,
                        before, Span(i + 1, g.blockSize))
  {
    BlockPlace(g, i);
    forall a: nat | Span(i, g.blockSize) <= a < Span(i + 1, g.blockSize)
      ensures Visited(quick, g, a) <==> BlockVisited(quick, g, i)
    {
      VisitedByBlocks(quick, g, i, a);
    }
  }

  /** The counter value with which block `i` begins, if it is visited. */
  function StartCount(quick: bool, init: byte, g: Region, i: nat): byte
    requires g.blockSize >= 0
  {
    After(init, if quick && i > 0 then g.blockSize else Span(i, g.blockSize))
  }

  /** The pattern written over a visited block puts the test byte at each of its addresses. */
  lemma PatternIsTestByte(quick: bool, init: byte, g: Region, i: nat, a: nat)
    requires Tiled(g) && i < g.blocks && BlockVisited(quick, g, i)
    requires Span(i, g.blockSize) <= a < Span(i, g.blockSize) + g.blockSize
    ensures Visited(quick, g, a)
    ensures Pattern(StartCount(quick, init, g, i), g.blockSize)[a - Span(i, g.blockSize)] == TestByte(quick, init, g, a)
  {
    VisitedByBlocks(quick, g, i, a);
    AfterJoins(init, if quick && i > 0 then g.blockSize else Span(i, g.blockSize), a - Span(i, g.blockSize));
  }

  lemma FillStep(quick: bool, init: byte, g: Region, i: nat, mem: seq<byte>, before: seq<byte>)
    requires Tiled(g) && i < g.blocks && FilledBelow(quick, init, g, mem, before, Span(i, g.blockSize))
    ensures var pattern := Pattern(StartCount(quick, init, g, i), g.blockSize);
      FilledBelow(quick, init, g, if BlockVisited(quick, g, i) then AndAt(mem, Span(i, g.blockSize), pattern) else mem,
                  before, Span(i + 1, g.blockSize))
  {
    BlockPlace(g, i);
    var start, pattern := Span(i, g.blockSize), Pattern(StartCount(quick, init, g, i), g.blockSize);
    forall a: nat | start <= a < start + g.blockSize
      ensures Visited(quick, g, a) <==> BlockVisited(quick, g, i)
      ensures Visited(quick, g, a) ==> AndAt(mem, start, pattern)[a] == TestByte(quick, init, g, a)
    {
      VisitedByBlocks(quick, g, i, a);
      if BlockVisited(quick, g, i) {
        PatternIsTestByte(quick, init, g, i, a);
        ErasedTakesAnyByte(pattern[a - start]);
      }
    }
  }

  /** The visited addresses below `upTo` hold their test bytes. */
  ghost predicate PatternBelow(quick: bool, init: byte, g: Region, mem: seq<byte>, upTo: nat)
    requires Tiled(g)
  {
    forall a :: 0 <= a < |mem| && a < upTo && Visited(quick, g, a) ==> mem[a] == TestByte(quick, init, g, a)
  }

  /** A visited block passes the comparison exactly if its addresses hold their test bytes. */
  lemma BlockHolds(quick: bool, init: byte, g: Region, i: nat, mem: seq<byte>)
    requires Tiled(g) && i < g.blocks && |mem| == g.size && BlockVisited(quick, g, i)
    ensures var start, pattern := Span(i, g.blockSize), Pattern(StartCount(quick, init, g, i), g.blockSize);
      start + g.blockSize <= |mem| &&
      (Holds(mem, start, pattern, start, start + g.blockSize)
       <==> forall a :: start <= a < start + g.blockSize ==> mem[a] == TestByte(quick, init, g, a))
  {
    BlockPlace(g, i);
    var start := Span(i, g.blockSize);
    forall a: nat | start <= a < start + g.blockSize
      ensures Visited(quick, g, a)
      ensures Pattern(StartCount(quick, init, g, i), g.blockSize)[a - start] == TestByte(quick, init, g, a)
    {
      PatternIsTestByte(quick, init, g, i, a);
    }
  }

  /** One block of the reading pass. */
  lemma CheckStep(quick: bool, init: byte, g: Region, i: nat, mem: seq<byte>)
    requires Tiled(g) && i < g.blocks && |mem| == g.size
    ensures var start, pattern := Span(i, g.blockSize), Pattern(StartCount(quick, init, g, i), g.blockSize);
      && start + g.blockSize <= |mem|
      && (PatternBelow(quick, init, g, mem, Span(i + 1, g.blockSize)) <==>
            PatternBelow(quick, init, g, mem, start)
            && (BlockVisited(quick, g, i) ==> Holds(mem, start, pattern, start, start + g.blockSize)))
  {
    BlockPlace(g, i);
    var start := Span(i, g.blockSize);
    if BlockVisited(quick, g, i) {
      BlockHolds(quick, init, g, i, mem);
    }
    forall a: nat | start <= a < start + g.blockSize
      ensures Visited(quick, g, a) <==> BlockVisited(quick, g, i)
    {
      VisitedByBlocks(quick, g, i, a);
    }
  }

  /** The counter on the way from block `i` to block `i + 1`. */
  lemma CountStep(quick: bool, init: byte, g: Region, i: nat)
    requires Tiled(g) && i + 1 < g.blocks
    ensures StartCount(quick, init, g, i + 1)
         == if BlockVisited(quick, g, i) then After(StartCount(quick, init, g, i), g.blockSize)
            else StartCount(quick, init, g, i)
  {
    AfterJoins(init, if quick && i > 0 then g.blockSize else Span(i, g.blockSize), g.blockSize);
  }

  /** First pass: erase the visited blocks. */
  method EraseBlocks(dev: EpcsDevice, quick: bool) returns (pass: bool)
    requires dev.Valid()
    modifies dev.spi
    ensures dev.Valid() && SameDevice(old(dev.spi.chip), dev.spi.chip) && pass
    ensures ErasedBelow(quick, dev.regions[0], dev.Mem(), old(dev.Mem()), dev.regions[0].size)
  {
    pass := true;
    var blockNum := GetBlockCount(dev.regions);
    var g := dev.regions[0];
    OneRegion(g);
    var i := 0;
    while i < blockNum && pass
      invariant dev.Valid() && SameDevice(old(dev.spi.chip), dev.spi.chip) && pass && 0 <= i <= g.blocks == blockNum
      invariant ErasedBelow(quick, g, dev.Mem(), old(dev.Mem()), Span(i, g.blockSize))
    {
      EraseStep(quick, g, i, dev.Mem(), old(dev.Mem()));
      if !(quick && i != 0 && i != blockNum - 1) {
        pass := FlashErase(dev, i);
      }
      i := i + 1;
    }
  }

  /** Write the test bytes of one block. */
  method FillOne(dev: EpcsDevice, i: nat, cnt: byte) returns (ok: bool, next: byte)
    requires dev.Valid() && i < dev.regions[0].blocks
    modifies dev.spi
    ensures dev.Valid() && SameDevice(old(dev.spi.chip), dev.spi.chip) && ok
    ensures var g := dev.regions[0];
      && dev.Mem() == AndAt(old(dev.Mem()), Span(i, g.blockSize), Pattern(cnt, g.blockSize))
      && next == After(cnt, g.blockSize)
  {
    OneRegion(dev.regions[0]);
    BlockPlace(dev.regions[0], i);
    var offset, size;
    ok, offset, size := GetBlockInfo(dev.regions, i);
    next := cnt;
    if ok {
      ok, next := FillBlock(dev, offset, size, cnt);
    }
  }

  /** One turn of the second pass. */
  method FillTurn(dev: EpcsDevice, quick: bool, init: byte, i: nat, cnt: byte, ghost before: seq<byte>)
    returns (ok: bool, next: byte)
    requires dev.Valid() && i < dev.regions[0].blocks && cnt == StartCount(quick, init, dev.regions[0], i)
    requires FilledBelow(quick, init, dev.regions[0], dev.Mem(), before, Span(i, dev.regions[0].blockSize))
    modifies dev.spi
    ensures dev.Valid() && SameDevice(old(dev.spi.chip), dev.spi.chip) && ok
    ensures var g := dev.regions[0];
      && FilledBelow(quick, init, g, dev.Mem(), before, Span(i + 1, g.blockSize))
      && (i + 1 < g.blocks ==> next == StartCount(quick, init, g, i + 1))
  {
    ok, next := true, cnt;
    ghost var g := dev.regions[0];
    FillStep(quick, init, g, i, dev.Mem(), before);
    if i + 1 < g.blocks {
      CountStep(quick, init, g, i);
    }
    if !(quick && i != 0 && i != dev.regions[0].blocks - 1) {
      ok, next := FillOne(dev, i, cnt);
    }
  }

  /** Second pass: write the test bytes over the visited blocks. */
  method FillBlocks(dev: EpcsDevice, quick: bool, init: byte) returns (pass: bool)
    requires dev.Valid()
    requires forall a :: 0 <= a < |dev.Mem()| && Visited(quick, dev.regions[0], a) ==> dev.Mem()[a] == 255
    modifies dev.spi
    ensures dev.Valid() && SameDevice(old(dev.spi.chip), dev.spi.chip) && pass
    ensures FilledBelow(quick, init, dev.regions[0], dev.Mem(), old(dev.Mem()), dev.regions[0].size)
  {
    pass := true;
    var blockNum := GetBlockCount(dev.regions);
    var g := dev.regions[0];
    OneRegion(g);
    var cnt := init;
    var i := 0;
    while i < blockNum && pass
      invariant dev.Valid() && SameDevice(old(dev.spi.chip), dev.spi.chip) && pass && 0 <= i <= g.blocks == blockNum
      invariant FilledBelow(quick, init, g, dev.Mem(), old(dev.Mem()), Span(i, g.blockSize))
      invariant i < g.blocks ==> cnt == StartCount(quick, init, g, i)
    {
      pass, cnt := FillTurn(dev, quick, init, i, cnt, old(dev.Mem()));
      i := i + 1;
    }
  }

  /** One turn of the third pass. */
  method CheckTurn(dev: EpcsDevice, quick: bool, init: byte, i: nat, cnt: byte) returns (ok: bool, next: byte)
    requires dev.Valid() && i < dev.regions[0].blocks && cnt == StartCount(quick, init, dev.regions[0], i)
    requires PatternBelow(quick, init, dev.regions[0], dev.Mem(), Span(i, dev.regions[0].blockSize))
    modifies dev.spi
    ensures dev.Valid() && dev.spi.chip == old(dev.spi.chip)
    ensures ok <==> PatternBelow(quick, init, dev.regions[0], dev.Mem(), Span(i + 1, dev.regions[0].blockSize))
    ensures ok && i + 1 < dev.regions[0].blocks ==> next == StartCount(quick, init, dev.regions[0], i + 1)
  {
    ok, next := true, cnt;
    ghost var g := dev.regions[0];
    OneRegion(g);
    CheckStep(quick, init, g, i, dev.Mem());
    if i + 1 < g.blocks {
      CountStep(quick, init, g, i);
    }
    if !(quick && i != 0 && i != dev.regions[0].blocks - 1) {
      BlockPlace(g, i);
      var offset, size;
      ok, offset, size := GetBlockInfo(dev.regions, i);
      if ok {
        ok, next := CheckBlock(dev, offset, size, cnt);
      }
    }
  }

  /** Third pass: read the visited blocks back.  Whatever the device holds, it passes exactly if every visited address
      holds its test byte. */
  method CheckBlocks(dev: EpcsDevice, quick: bool, init: byte) returns (pass: bool)
    requires dev.Valid()
    modifies dev.spi
    ensures dev.Valid() && dev.spi.chip == old(dev.spi.chip)
    ensures pass <==> PatternBelow(quick, init, dev.regions[0], dev.Mem(), dev.regions[0].size)
  {
    pass := true;
    var blockNum := GetBlockCount(dev.regions);
    var g := dev.regions[0];
    OneRegion(g);
    var cnt := init;
    var i := 0;
    while i < blockNum && pass
      invariant dev.Valid() && dev.spi.chip == old(dev.spi.chip) && 0 <= i <= g.blocks == blockNum
      invariant pass <==> PatternBelow(quick, init, g, dev.Mem(), Span(i, g.blockSize))
      invariant pass && i < g.blocks ==> cnt == StartCount(quick, init, g, i)
    {
      pass, cnt := CheckTurn(dev, quick, init, i, cnt);
      i := i + 1;
    }
    if !pass {
      SpanGrows(i, g.blocks, g.blockSize);
    }
  }

  /** The device may not have kept what was written to it. */
  method Forget(dev: EpcsDevice, fault: Option<seq<byte>>)
    requires dev.Valid() && (fault.Some? ==> |fault.value| == |dev.Mem()|)
    modifies dev.spi
    ensures dev.Valid() && SameDevice(old(dev.spi.chip), dev.spi.chip)
    ensures dev.Mem() == if fault.Some? then fault.value else old(dev.Mem())
  {
    if fault.Some? {
      dev.spi.chip := dev.spi.chip.(mem := fault.value);
    }
  }

  /** The self-test, on a device that may have lost what was written when it is read back: `fault` is then what it
      holds.  It passes exactly if every address it visits holds its test byte, in full and in quick mode, for every
      start value; so it passes on a device that works, and then leaves the counting pattern in the blocks it visits and
      every other block as it was. */
  method FlashVerify(dev: EpcsDevice, init: byte, quick: bool, fault: Option<seq<byte>>) returns (pass: bool)
    requires dev.Valid() && (fault.Some? ==> |fault.value| == |dev.Mem()|)
    modifies dev.spi
    ensures dev.Valid() && SameDevice(old(dev.spi.chip), dev.spi.chip)
    ensures pass <==> forall a :: 0 <= a < |dev.Mem()| && Visited(quick, dev.regions[0], a) ==>
      dev.Mem()[a] == TestByte(quick, init, dev.regions[0], a)
    ensures fault.Some? ==> dev.Mem() == fault.value
    ensures fault.None? ==> pass
    ensures fault.None? ==> forall a :: 0 <= a < |dev.Mem()| ==>
      dev.Mem()[a] == if Visited(quick, dev.regions[0], a) then TestByte(quick, init, dev.regions[0], a)
                      else old(dev.Mem())[a]
  {
    pass := EraseBlocks(dev, quick);
    if pass {
      pass := FillBlocks(dev, quick, init);
      Forget(dev, fault);
      if pass {
        pass := CheckBlocks(dev, quick, init);
      }
    }
  }
}
