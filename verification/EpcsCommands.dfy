/** The command layer of the serial flash driver: each operation as the SPI transactions that make it up. */
module EpcsCommands {
  import opened Bytes
  import opened EpcsChip
  import opened Spi

  /** The windows of an erase or program with command bytes `body`: write enable immediately before it, and the whole
      bracketed by entering and leaving four-byte addressing when the device needs that. */
  function WriteFrames(four: bool, body: seq<byte>): seq<seq<byte>> {
    if four then [[WREN], [EN4B], [WREN], body, [WREN], [DIS4B]] else [[WREN], body]
  }

  function ReadFrames(four: bool, body: seq<byte>): seq<seq<byte>> {
    if four then [[WREN], [EN4B], body, [WREN], [DIS4B]] else [body]
  }

  /** An address the driver can send and the device has. */
  ghost predicate Addressable(c: Chip, offset: int, four: bool) {
    0 <= offset < |c.mem| && |c.mem| <= (if four then 0x1_0000_0000 else 0x100_0000)
  }

  /** The addresses the driver can send are a whole number of devices, so that those past the end come around. */
  ghost predicate ComesAround(c: Chip, four: bool) {
    c.mem != [] && (if four then 0x1_0000_0000 else 0x100_0000) % |c.mem| == 0
  }

  /** Between two operations: chip select released, the chip at rest. */
  ghost predicate Settled(s: SpiMaster)
    reads s
  {
    s.Idle() && !s.selected && s.chip.AtRest()
  }

  predicate SameDevice(c: Chip, d: Chip) {
    c.sector == d.sector && c.signature == d.signature && c.id == d.id && |c.mem| == |d.mem|
  }

  method ReadStatusRegister(s: SpiMaster) returns (status: byte)
    requires s.Idle() && !s.selected
    modifies s
    ensures s.Idle() && !s.selected && s.commands == old(s.commands)
    ensures status % 2 == (if old(s.chip).busy > 0 then 1 else 0)
    ensures s.chip == old(s.chip).(busy := if old(s.chip).busy > 0 then old(s.chip).busy - 1 else 0)
  {
    var data := s.Command([RDSR], 1, false);
    status := data[0];
    assert [RDSR] + Zeros(0) == [RDSR] && [] + [RDSR] + Zeros(1) == [RDSR, 0];
  }

  method AwaitWipReleased(s: SpiMaster)
    requires s.Idle() && !s.selected
    modifies s
    ensures s.Idle() && !s.selected && s.commands == old(s.commands)
    ensures s.chip == old(s.chip).(busy := 0)
  {
    var status := ReadStatusRegister(s);
    while status % 2 == 1
      invariant s.Idle() && !s.selected && s.commands == old(s.commands)
      invariant s.chip == old(s.chip).(busy := s.chip.busy)
      invariant status % 2 == 0 ==> s.chip.busy == 0
      decreases s.chip.busy, status % 2
    {
      status := ReadStatusRegister(s);
    }
  }

  /** A transaction that only sends command bytes. */
  method Send(s: SpiMaster, w: seq<byte>)
    requires s.Idle() && !s.selected && w != [] && w[0] != RDSR
    modifies s
    ensures s.Idle() && !s.selected
    ensures s.chip == Deselect(old(s.chip), w) && s.commands == old(s.commands) + [w]
  {
    var _ := s.Command(w, 0, false);
    assert [] + w + Zeros(0) == w;
  }

  method WriteEnable(s: SpiMaster)
    requires s.Idle() && !s.selected && s.chip.busy == 0
    modifies s
    ensures s.Idle() && !s.selected
    ensures s.chip == old(s.chip).(wel := true) && s.commands == old(s.commands) + [[WREN]]
  {
    Send(s, [WREN]);
  }

  method EnterFourByteMode(s: SpiMaster)
    requires s.Idle() && !s.selected && s.chip.busy == 0
    modifies s
    ensures s.Idle() && !s.selected
    ensures s.chip == old(s.chip).(wel := false, fourByte := true)
    ensures s.commands == old(s.commands) + [[WREN], [EN4B]]
  {
    WriteEnable(s);
    Send(s, [EN4B]);
  }

  method ExitFourByteMode(s: SpiMaster)
    requires s.Idle() && !s.selected && s.chip.busy == 0
    modifies s
    ensures s.Idle() && !s.selected
    ensures s.chip == old(s.chip).(wel := false, fourByte := false)
    ensures s.commands == old(s.commands) + [[WREN], [DIS4B]]
  {
    WriteEnable(s);
    Send(s, [DIS4B]);
  }

  /** The windows of an erase and of a program on the wires, byte by byte: the address goes out most significant byte
      first. */
  lemma WritesOnTheWires(a: byte, b: byte, c: byte, d: byte, data: seq<byte>)
    ensures var three, four := b * 0x1_0000 + c * 0x100 + d, a * 0x100_0000 + b * 0x1_0000 + c * 0x100 + d;
      && WriteFrames(false, [SE] + AddressBytes(three, false)) == [[0x06], [0xD8, b, c, d]]
      && WriteFrames(true, [SE] + AddressBytes(four, true))
         == [[0x06], [0xB7], [0x06], [0xD8, a, b, c, d], [0x06], [0xE9]]
      && WriteFrames(false, [PP] + AddressBytes(three, false) + data) == [[0x06], [0x02, b, c, d] + data]
      && WriteFrames(true, [PP] + AddressBytes(four, true) + data)
         == [[0x06], [0xB7], [0x06], [0x02, a, b, c, d] + data, [0x06], [0xE9]]
  {
    AddressSpelled(a, b, c, d);
    assert [SE] + [b, c, d] == [0xD8, b, c, d] && [SE] + [a, b, c, d] == [0xD8, a, b, c, d];
    assert [PP] + [b, c, d] == [0x02, b, c, d] && [PP] + [a, b, c, d] == [0x02, a, b, c, d];
  }

  /** And the windows of a read. */
  lemma ReadsOnTheWires(a: byte, b: byte, c: byte, d: byte)
    ensures var three, four := b * 0x1_0000 + c * 0x100 + d, a * 0x100_0000 + b * 0x1_0000 + c * 0x100 + d;
      && ReadFrames(false, [READ] + AddressBytes(three, false)) == [[0x03, b, c, d]]
      && ReadFrames(true, [READ] + AddressBytes(four, true)) == [[0x06], [0xB7], [0x03, a, b, c, d], [0x06], [0xE9]]
  {
    AddressSpelled(a, b, c, d);
    assert [READ] + [b, c, d] == [0x03, b, c, d] && [READ] + [a, b, c, d] == [0x03, a, b, c, d];
  }

  lemma AddressSpelled(a: byte, b: byte, c: byte, d: byte)
    ensures AddressBytes(b * 0x1_0000 + c * 0x100 + d, false) == [b, c, d]
    ensures AddressBytes(a * 0x100_0000 + b * 0x1_0000 + c * 0x100 + d, true) == [a, b, c, d]
  {
    SpelledOut(b, c, d);
    SpelledOut(a * 0x100 + b, c, d);
    var n := a * 0x100_0000 + b * 0x1_0000 + c * 0x100 + d;
    DivisionIsUnique(a * 0x100 + b, 0x100, a, b);
    DivisionIsUnique(n, 0x100_0000, a, b * 0x1_0000 + c * 0x100 + d);
  }

  lemma SpelledOut(b: nat, c: byte, d: byte)
    ensures var n := b * 0x1_0000 + c * 0x100 + d; n / 0x1_0000 == b && n / 256 % 256 == c && n % 256 == d
  {
    var n := b * 0x1_0000 + c * 0x100 + d;
    DivisionIsUnique(n, 0x1_0000, b, c * 0x100 + d);
    DivisionIsUnique(n, 0x100, b * 0x100 + c, d);
    DivisionIsUnique(b * 0x100 + c, 0x100, b, c);
  }

  /** What the chip makes of a sector-erase window. */
  lemma EraseDecodes(c: Chip, offset: nat, four: bool)
    requires c.Valid() && Addressable(c, offset, four) && c.busy == 0 && c.wel && c.fourByte == four
    ensures Deselect(c, [SE] + AddressBytes(offset, four)) == c.Writing(Erased(c.mem, c.sector, offset))
  {
    var w := [SE] + AddressBytes(offset, four);
    AddressRoundTrip(offset, four);
    assert w[1..] == AddressBytes(offset, four);
    SmallModulo(offset, |c.mem|);
    EraseWindow(c, w);
  }

  /** What the chip makes of a page-program window. */
  lemma ProgramDecodes(c: Chip, offset: nat, data: seq<byte>, four: bool)
    requires c.Valid() && ComesAround(c, four) && c.busy == 0 && c.wel && c.fourByte == four && data != []
    ensures Deselect(c, [PP] + AddressBytes(offset, four) + data)
         == c.Writing(Programmed(c.mem, offset % |c.mem|, data))
  {
    var address := AddressBytes(offset, four);
    var w := [PP] + address + data;
    AddressOnDevice(offset, four, |c.mem|);
    assert w[1..1 + |address|] == address && w[1 + |address|..] == data;
    ProgramWindow(c, w);
  }

  /** What the chip answers to a read, byte by byte. */
  lemma ReadDecodes(c: Chip, offset: nat, i: nat, four: bool)
    requires c.Valid() && Addressable(c, offset, four) && c.busy == 0 && c.fourByte == four
    ensures Respond(c, [READ] + AddressBytes(offset, four) + Zeros(i)) == c.mem[(offset + i) % |c.mem|]
  {
    var address := AddressBytes(offset, four);
    var w := [READ] + address + Zeros(i);
    AddressRoundTrip(offset, four);
    assert w[1..1 + |address|] == address;
  }

  lemma ReadAnswers(c: Chip, offset: nat, length: nat, four: bool)
    requires c.Valid() && Addressable(c, offset, four) && c.busy == 0 && c.fourByte == four
    ensures Answers(c, [READ] + AddressBytes(offset, four), length) == ReadOut(c.mem, offset, length)
  {
    forall i | 0 <= i < length
      ensures Answers(c, [READ] + AddressBytes(offset, four), length)[i] == c.mem[(offset + i) % |c.mem|]
    {
      ReadDecodes(c, offset, i, four);
    }
  }

  method SectorErase(s: SpiMaster, offset: nat, four: bool)
    requires Settled(s) && Addressable(s.chip, offset, four)
    modifies s
    ensures Settled(s) && SameDevice(old(s.chip), s.chip)
    ensures s.chip.mem == Erased(old(s.chip.mem), s.chip.sector, offset)
    ensures s.commands == old(s.commands) + WriteFrames(four, [SE] + AddressBytes(offset, four))
  {
    var se := [SE] + AddressBytes(offset, four);
    if four {
      EnterFourByteMode(s);
    }
    WriteEnable(s);
    EraseDecodes(s.chip, offset, four);
    Send(s, se);
    AwaitWipReleased(s);
    if four {
      ExitFourByteMode(s);
    }
  }

  /** Read from `offset` on, after waiting for a write still in progress; with four-byte addressing there must be none,
      because the change of mode does not wait. */
  method ReadBuffer(s: SpiMaster, offset: nat, length: nat, four: bool) returns (data: seq<byte>)
    requires s.Idle() && !s.selected && !s.chip.wel && !s.chip.fourByte && (four ==> s.chip.busy == 0)
    requires Addressable(s.chip, offset, four)
    modifies s
    ensures Settled(s) && s.chip == old(s.chip).(busy := 0)
    ensures data == ReadOut(s.chip.mem, offset, length)
    ensures s.commands == old(s.commands) + ReadFrames(four, [READ] + AddressBytes(offset, four) + Zeros(length))
  {
    var command := [READ] + AddressBytes(offset, four);
    if four {
      EnterFourByteMode(s);
    }
    AwaitWipReleased(s);
    ReadAnswers(s.chip, offset, length, four);
    data := s.Command(command, length, false);
    assert [] + command == command;
    if four {
      ExitFourByteMode(s);
    }
  }

  /** Program a partial or full page: the command bytes and the data travel in one chip-select window.  An offset past
      the end of the device comes around to its beginning. */
  method WriteBuffer(s: SpiMaster, offset: nat, data: seq<byte>, four: bool)
    requires Settled(s) && ComesAround(s.chip, four) && data != []
    modifies s
    ensures Settled(s) && SameDevice(old(s.chip), s.chip)
    ensures s.chip.mem == Programmed(old(s.chip.mem), offset % |s.chip.mem|, data)
    ensures s.commands == old(s.commands) + WriteFrames(four, [PP] + AddressBytes(offset, four) + data)
  {
    var pp := [PP] + AddressBytes(offset, four);
    if four {
      EnterFourByteMode(s);
    }
    WriteEnable(s);
    ProgramDecodes(s.chip, offset, data, four);
    var _ := s.Command(pp, 0, true);
    assert [] + pp + Zeros(0) == pp && pp + data + Zeros(0) == pp + data;
    var _ := s.Command(data, 0, false);
    AwaitWipReleased(s);
    if four {
      ExitFourByteMode(s);
    }
  }

  method ReadElectronicSignature(s: SpiMaster) returns (signature: byte)
    requires Settled(s)
    modifies s
    ensures Settled(s) && s.chip == old(s.chip) && signature == s.chip.signature
  {
    var data := s.Command([RES, 0, 0, 0], 1, false);
    assert [] + [RES, 0, 0, 0] + Zeros(0) == [RES, 0, 0, 0];
    signature := data[0];
  }

  method ReadDeviceId(s: SpiMaster) returns (id: nat)
    requires Settled(s)
    modifies s
    ensures Settled(s) && s.chip == old(s.chip) && id == Number(s.chip.id) && id < 0x100_0000
  {
    var data := s.Command([RDID], 3, false);
    assert data == s.chip.id by {
      assert forall i :: 0 <= i < 3 ==> |[] + [RDID] + Zeros(i)| == 1 + i && ([] + [RDID] + Zeros(i))[0] == RDID;
    }
    NumberOfThree(data[0], data[1], data[2]);
    id := data[0] as int * 0x1_0000 + data[1] as int * 0x100 + data[2] as int;
    assert data == [data[0], data[1], data[2]];
  }
}
