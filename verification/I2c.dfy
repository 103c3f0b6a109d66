/** The two wires, a sequential-memory slave that sees nothing but the wires, and the log a bus monitor would write. */
module I2cBus {
  import opened Bytes

  /** What the monitor sees: a start or stop condition, or the level of SDA over a whole high period of SCL. */
  datatype Mark = Start | Stop | Bit(level: bool)

  /** Bit `i` of a byte, most significant first. */
  predicate BitOf(b: byte, i: nat)
    requires i < 8
  {
    Shr(b, 7 - i) % 2 == 1
  }

  /** The first `n` bits of a byte as marks. */
  function BitMarks(b: byte, n: nat): (m: seq<Mark>)
    requires n <= 8
    ensures |m| == n
  {
    if n == 0 then [] else BitMarks(b, n - 1) + [Bit(BitOf(b, n - 1))]
  }

  /** A byte and its acknowledge slot, which is low for an acknowledge. */
  function Frame(b: byte, ack: bool): (m: seq<Mark>)
    ensures |m| == 9
  {
    BitMarks(b, 8) + [Bit(!ack)]
  }

  /** What the next byte received means to the slave. */
  datatype Role = Address | Pointer | Data

  /** `Receiving` holds the bits so far, `Acking` is the acknowledge slot of a received byte and says whether the slave
      sends next, `Sending` counts the bits sent, `Listening` is the acknowledge slot of a sent byte. */
  datatype Phase =
    | Waiting
    | Receiving(n: nat, shift: nat)
    | Acking(sendNext: bool)
    | Sending(sent: nat)
    | Listening
    | Answered(nack: bool)

  /** `low` is whether the slave pulls SDA down; it stores at most `room` further bytes.  `mood` says, for each of the
      bytes to come, whether the slave is willing to take it; after that it is.  Any answers to any bytes are some
      mood. */
  datatype Slave =
    Slave(id: byte, mem: seq<byte>, ptr: nat, room: nat, mood: seq<bool>, role: Role, phase: Phase, low: bool)
  {
    predicate Valid() {
      && id % 2 == 0 && |mem| == 256 && ptr < 256
      && (phase.Sending? ==> phase.sent < 8)
    }
  }

  // ---------------------------------------------------------------- the slave, edge by edge

  function OnRise(s: Slave, sda: bool): Slave {
    match s.phase
    case Receiving(n, shift) => if n < 8 then s.(phase := Receiving(n + 1, 2 * shift + if sda then 1 else 0)) else s
    case Listening => s.(phase := Answered(sda))
    case _ => s
  }

  function OnFall(s: Slave): (t: Slave)
    requires s.Valid()
    ensures t.Valid()
  {
    match s.phase
    case Receiving(n, shift) => if n == 8 then Judged(s, shift % 256) else s
    case Acking(sendNext) => if sendNext then SendFirst(s) else s.(phase := Receiving(0, 0), low := false)
    case Sending(sent) =>
      if sent < 7 then s.(phase := Sending(sent + 1), low := !BitOf(s.mem[s.ptr], sent + 1))
      else s.(phase := Listening, low := false, ptr := (s.ptr + 1) % 256)
    case Answered(nack) => if nack then s.(phase := Waiting, low := false) else SendFirst(s)
    case _ => s
  }

  function SendFirst(s: Slave): Slave
    requires s.Valid()
  {
    s.(phase := Sending(0), low := !BitOf(s.mem[s.ptr], 0))
  }

  /** Whether a byte is one for the slave. */
  predicate Suits(s: Slave, b: byte) {
    match s.role
    case Address => b == s.id || b == s.id as int + 1
    case Pointer => true
    case Data => s.room > 0
  }

  /** Whether the slave is willing to take the byte `i` places on. */
  predicate Willing(mood: seq<bool>, i: nat) {
    i >= |mood| || mood[i]
  }

  /** Whether the slave takes a byte: it may refuse any byte that suits it. */
  predicate Accepts(s: Slave, b: byte) {
    Suits(s, b) && Willing(s.mood, 0)
  }

  /** The mood once a byte has been judged. */
  function NextMood(mood: seq<bool>): seq<bool> {
    if mood == [] then [] else mood[1..]
  }

  /** The slave in the acknowledge slot of a byte. */
  function Judged(s: Slave, b: byte): (t: Slave)
    requires s.Valid()
    ensures t.Valid()
  {
    var t := s.(mood := NextMood(s.mood));
    if !Accepts(s, b) then t.(phase := Waiting, low := false)
    else match s.role
      case Address => t.(phase := Acking(b != s.id), low := true, role := Pointer)
      case Pointer => t.(phase := Acking(false), low := true, ptr := b, role := Data)
      case Data =>
        t.(phase := Acking(false), low := true, mem := s.mem[s.ptr := b], ptr := (s.ptr + 1) % 256, room := s.room - 1)
  }

  function OnStart(s: Slave): Slave {
    s.(phase := Receiving(0, 0), role := Address, low := false)
  }

  function OnStop(s: Slave): Slave {
    s.(phase := Waiting, low := false)
  }

  /** The slave once a byte and its acknowledge slot are over. */
  function AfterByte(s: Slave, b: byte): (t: Slave)
    requires s.Valid()
    ensures t.Valid()
  {
    OnFall(Judged(s, b))
  }

  // ---------------------------------------------------------------- the wires

  /** The pins of the master, which drives SDA only while `dirOut`, and the slave; SDA is low if either pulls it low.
      `marked` is whether the running high period of SCL has seen a start or stop condition, and `fought` whether the
      master ever drove SDA high against the slave while SCL was high. */
  class Bus {
    var scl: bool
    var sdaOut: bool
    var dirOut: bool
    var slave: Slave
    ghost var marked: bool
    ghost var fought: bool
    ghost var log: seq<Mark>

    ghost predicate Valid()
      reads this
    {
      slave.Valid()
    }

    predicate Sda()
      reads this
    {
      (dirOut ==> sdaOut) && !slave.low
    }

    /** Every change of the master's share of SDA comes through here: the slave and the monitor see it only as a
        change of level while SCL is high. */
    method DriveSda(out: bool, level: bool)
      requires Valid()
      modifies this
      ensures Valid() && scl == old(scl) && dirOut == out && sdaOut == level
      ensures var before, after := old(Sda()), (out ==> level) && !old(slave).low;
        if scl && before && !after then
          slave == OnStart(old(slave)) && log == old(log) + [Start] && marked
        else if scl && !before && after then
          slave == OnStop(old(slave)) && log == old(log) + [Stop] && marked
        else slave == old(slave) && log == old(log) && marked == old(marked)
      ensures fought == (old(fought) || (scl && out && level && old(slave).low))
    {
      var before := Sda();
      dirOut, sdaOut := out, level;
      fought := fought || (scl && out && level && slave.low);
      if scl && before != Sda() {
        marked := true;
        if before {
          slave, log := OnStart(slave), log + [Start];
        } else {
          slave, log := OnStop(slave), log + [Stop];
        }
      }
    }

    method SetSda(level: bool)
      requires Valid()
      modifies this
      ensures Valid() && scl == old(scl) && dirOut == old(dirOut) && sdaOut == level
      ensures var before, after := old(Sda()), (dirOut ==> level) && !old(slave).low;
        if scl && before && !after then
          slave == OnStart(old(slave)) && log == old(log) + [Start] && marked
        else if scl && !before && after then
          slave == OnStop(old(slave)) && log == old(log) + [Stop] && marked
        else slave == old(slave) && log == old(log) && marked == old(marked)
      ensures fought == (old(fought) || (scl && dirOut && level && old(slave).low))
    {
      DriveSda(dirOut, level);
    }

    method SetDirection(out: bool)
      requires Valid()
      modifies this
      ensures Valid() && scl == old(scl) && dirOut == out && sdaOut == old(sdaOut)
      ensures var before, after := old(Sda()), (out ==> sdaOut) && !old(slave).low;
        if scl && before && !after then
          slave == OnStart(old(slave)) && log == old(log) + [Start] && marked
        else if scl && !before && after then
          slave == OnStop(old(slave)) && log == old(log) + [Stop] && marked
        else slave == old(slave) && log == old(log) && marked == old(marked)
      ensures fought == (old(fought) || (scl && out && sdaOut && old(slave).low))
    {
      DriveSda(out, sdaOut);
    }

    method SclHigh()
      requires Valid()
      modifies this
      ensures Valid() && scl && sdaOut == old(sdaOut) && dirOut == old(dirOut) && log == old(log)
      ensures slave == if old(scl) then old(slave) else OnRise(old(slave), old(Sda()))
      ensures marked == (old(scl) && old(marked))
      ensures fought == (old(fought) || (dirOut && sdaOut && slave.low))
    {
      if !scl {
        scl, marked := true, false;
        slave := OnRise(slave, Sda());
      }
      fought := fought || (dirOut && sdaOut && slave.low);
    }

    method SclLow()
      requires Valid()
      modifies this
      ensures Valid() && !scl && sdaOut == old(sdaOut) && dirOut == old(dirOut) && fought == old(fought)
      ensures slave == if old(scl) then OnFall(old(slave)) else old(slave)
      ensures log == if old(scl) && !old(marked) then old(log) + [Bit(old(Sda()))] else old(log)
    {
      if scl {
        if !marked {
          log := log + [Bit(Sda())];
        }
        scl := false;
        slave := OnFall(slave);
      }
    }
  }
}

/** The bit-banging master: conditions and bytes on the wires, and the transfers built from them. */
module I2cMaster {
  import opened Bytes
  import opened I2cBus

  // ---------------------------------------------------------------- bits of a byte

  /** What an 8-bit register holding the bits before `i` holds after a left shift and bit `i`. */
  lemma ShiftIn(d: byte, i: nat)
    requires i < 8
    ensures 2 * Shr(d, 8 - i) + (if BitOf(d, i) then 1 else 0) == Shr(d, 7 - i)
    ensures Shr(d, 8 - i) < 128
  {
  }

  lemma WholeByte(d: byte)
    ensures Shr(d, 8) == 0 && Shr(d, 0) == d
  {
    BytePowers();
    ShrOut(d, 8);
  }

  // ---------------------------------------------------------------- conditions

  /** SCL is low, or both wires rest high. */
  ghost predicate Quiet(bus: Bus)
    reads bus
  {
    bus.Valid() && !bus.slave.low && (bus.scl ==> bus.sdaOut)
  }

  method StartCondition(bus: Bus)
    requires Quiet(bus)
    modifies bus
    ensures bus.Valid() && !bus.scl && bus.slave == OnStart(old(bus.slave)) && bus.log == old(bus.log) + [Start]
    ensures bus.fought == old(bus.fought)
  {
    bus.SetDirection(true);
    bus.SetSda(true);
    bus.SclHigh();
    bus.SetSda(false);
    bus.SclLow();
  }

  /** A stop condition, unless the slave is holding SDA low: then none appears, and the master drives against it. */
  method StopCondition(bus: Bus)
    requires bus.Valid() && !bus.scl
    modifies bus
    ensures bus.Valid() && bus.scl && bus.sdaOut
    ensures !old(bus.slave).low ==>
      bus.slave == OnStop(old(bus.slave)) && bus.log == old(bus.log) + [Stop] && bus.fought == old(bus.fought)
    ensures old(bus.slave).low ==>
      bus.slave == OnRise(old(bus.slave), false) && bus.log == old(bus.log) && bus.fought
  {
    bus.SetDirection(true);
    bus.SetSda(false);
    bus.SclHigh();
    bus.SetSda(true);
  }

  // ---------------------------------------------------------------- bytes

  /** Ready to take the first bit of a byte. */
  ghost predicate TakesByte(bus: Bus)
    reads bus
  {
    bus.Valid() && !bus.scl && bus.slave.phase == Receiving(0, 0) && !bus.slave.low
  }

  /** With its first bit of a byte on the wire. */
  ghost predicate GivesByte(bus: Bus)
    reads bus
  {
    && bus.Valid() && !bus.scl && bus.slave.phase == Sending(0)
    && bus.slave.low == !BitOf(bus.slave.mem[bus.slave.ptr], 0)
  }

  /** The slave has taken the first `i` bits of `data`, and judges it with the last. */
  function Taken(s: Slave, data: byte, i: nat): Slave
    requires s.Valid() && i <= 8
  {
    if i < 8 then s.(phase := Receiving(i, Shr(data, 8 - i))) else Judged(s, data)
  }

  /** The level of the next bit, while SCL is low. */
  method PlaceBit(bus: Bus, level: bool)
    requires bus.Valid() && !bus.scl && bus.dirOut
    modifies bus
    ensures bus.Valid() && !bus.scl && bus.dirOut && bus.sdaOut == level
    ensures bus.slave == old(bus.slave) && bus.log == old(bus.log) && bus.fought == old(bus.fought)
  {
    bus.SclLow();
    if level {
      bus.SetSda(true);
    } else {
      bus.SetSda(false);
    }
  }

  /** One bit on its way to the slave. */
  method SendBit(bus: Bus, data: byte, i: nat, level: bool, ghost s: Slave)
    requires bus.Valid() && !bus.scl && bus.dirOut && i < 8 && level == BitOf(data, i)
    requires s.Valid() && !s.low && bus.slave == Taken(s, data, i)
    modifies bus
    ensures bus.Valid() && !bus.scl && bus.dirOut && bus.fought == old(bus.fought)
    ensures bus.slave == Taken(s, data, i + 1) && bus.log == old(bus.log) + [Bit(level)]
  {
    ShiftIn(data, i);
    WholeByte(data);
    PlaceBit(bus, level);
    bus.SclHigh();
    bus.SclLow();
  }

  /** Send a byte, most significant bit first, and report whether the slave acknowledged it. */
  method WriteByte(bus: Bus, data: byte) returns (ack: bool)
    requires TakesByte(bus)
    modifies bus
    ensures bus.Valid() && !bus.scl && bus.fought == old(bus.fought)
    ensures ack == Accepts(old(bus.slave), data) && bus.slave == AfterByte(old(bus.slave), data)
    ensures bus.log == old(bus.log) + Frame(data, ack)
  {
    var mask := 0x80;
    ghost var s, log := bus.slave, bus.log;
    WholeByte(data);
    BytePowers();
    bus.SetDirection(true);
    for i := 0 to 8
      invariant bus.Valid() && !bus.scl && bus.dirOut && bus.fought == old(bus.fought)
      invariant i < 8 ==> mask == Pow2(7 - i)
      invariant bus.slave == Taken(s, data, i) && bus.log == log + BitMarks(data, i)
    {
      MaskTest(data, 7 - i);
      SendBit(bus, data, i, BitAnd(data, mask) != 0, s);
      mask := mask / 2;
    }
    bus.SetDirection(false);
    bus.SclHigh();
    ack := !bus.Sda();
    bus.SclLow();
  }

  /** The slave once a byte it sent has been answered. */
  function AfterAnswer(s: Slave, ack: bool): (t: Slave)
    requires s.Valid()
    ensures t.Valid()
  {
    OnFall(s.(phase := Answered(!ack), low := false, ptr := (s.ptr + 1) % 256))
  }

  /** The slave with `i` bits of its byte sent. */
  function Given(s: Slave, i: nat): Slave
    requires s.Valid() && i <= 8
  {
    if i < 8 then s.(phase := Sending(i), low := !BitOf(s.mem[s.ptr], i))
    else s.(phase := Listening, low := false, ptr := (s.ptr + 1) % 256)
  }

  /** One bit on its way from the slave. */
  method TakeBit(bus: Bus, i: nat, ghost s: Slave) returns (level: bool)
    requires bus.Valid() && !bus.scl && !bus.dirOut && i < 8 && s.Valid() && bus.slave == Given(s, i)
    modifies bus
    ensures bus.Valid() && !bus.scl && !bus.dirOut && bus.fought == old(bus.fought)
    ensures level == BitOf(s.mem[s.ptr], i) && bus.slave == Given(s, i + 1) && bus.log == old(bus.log) + [Bit(level)]
  {
    bus.SclHigh();
    level := bus.Sda();
    bus.SclLow();
  }

  /** The acknowledge slot of a received byte. */
  method AnswerByte(bus: Bus, ack: bool)
    requires bus.Valid() && !bus.scl && bus.slave.phase == Listening && !bus.slave.low
    modifies bus
    ensures bus.Valid() && !bus.scl && bus.fought == old(bus.fought)
    ensures bus.slave == OnFall(old(bus.slave).(phase := Answered(!ack))) && bus.log == old(bus.log) + [Bit(!ack)]
  {
    bus.SclLow();
    bus.SetDirection(true);
    if ack {
      bus.SetSda(false);
    } else {
      bus.SetSda(true);
    }
    bus.SclHigh();
    bus.SclLow();
    bus.SetSda(false);
  }

  /** Receive a byte and answer it. */
  method ReadByte(bus: Bus, ack: bool) returns (data: byte)
    requires GivesByte(bus)
    modifies bus
    ensures bus.Valid() && !bus.scl && bus.fought == old(bus.fought)
    ensures data == old(bus.slave.mem)[old(bus.slave.ptr)] && bus.slave == AfterAnswer(old(bus.slave), ack)
    ensures bus.log == old(bus.log) + Frame(data, ack)
  {
    data := 0;
    ghost var s, b := bus.slave, bus.slave.mem[bus.slave.ptr];
    WholeByte(b);
    bus.SetDirection(false);
    bus.SclLow();
    for i := 0 to 8
      invariant bus.Valid() && !bus.scl && !bus.dirOut && bus.fought == old(bus.fought)
      invariant data == Shr(b, 8 - i) && bus.slave == Given(s, i) && bus.log == old(bus.log) + BitMarks(b, i)
    {
      ShiftIn(b, i);
      var level := TakeBit(bus, i, s);
      var shifted := data as int * 2 % 256 + if level then 1 else 0;
      data := shifted;
    }
    AnswerByte(bus, ack);
  }
}

/** The transfers: what they put on the wires, and what they do to a slave that sees only the wires. */
module I2cTransfers {
  import opened Bytes
  import opened I2cBus
  import opened I2cMaster

  // ---------------------------------------------------------------- sending a run of bytes

  /** The outcome of sending bytes until the slave refuses one. */
  datatype Delivery = Delivery(slave: Slave, marks: seq<Mark>, ok: bool)

  function Deliver(s: Slave, bytes: seq<byte>): (d: Delivery)
    requires s.Valid()
    ensures d.slave.Valid()
    decreases |bytes|
  {
    if bytes == [] then Delivery(s, [], true)
    else
      var ack, t := Accepts(s, bytes[0]), AfterByte(s, bytes[0]);
      if !ack then Delivery(t, Frame(bytes[0], false), false)
      else
        var d := Deliver(t, bytes[1..]);
        Delivery(d.slave, Frame(bytes[0], true) + d.marks, d.ok)
  }

  /** Ready for a run that begins, if it begins with a device address, with the write address. */
  ghost predicate Ready(s: Slave, bytes: seq<byte>) {
    && s.Valid() && s.phase == Receiving(0, 0) && !s.low
    && (s.role == Address && bytes != [] ==> bytes[0] % 2 == 0)
  }

  lemma AcceptedStaysReady(s: Slave, bytes: seq<byte>)
    requires Ready(s, bytes) && bytes != []
    ensures Accepts(s, bytes[0]) ==> Ready(AfterByte(s, bytes[0]), bytes[1..])
    ensures !AfterByte(s, bytes[0]).low
  {
  }

  /** A run of bytes: `rest` is still to be sent, and together with the log so far it makes the whole delivery. */
  ghost predicate Sending(bus: Bus, d: Delivery, log: seq<Mark>, ok: bool, rest: seq<byte>)
    reads bus
  {
    && bus.Valid() && !bus.scl && !bus.slave.low
    && if ok then
         && Ready(bus.slave, rest)
         && var r := Deliver(bus.slave, rest);
         && d.slave == r.slave && d.ok == r.ok && log + d.marks == bus.log + r.marks
       else d == d.(slave := bus.slave, ok := false) && bus.log == log + d.marks
  }

  /** Send the next byte of a run. */
  method SendNext(bus: Bus, b: byte, ghost d: Delivery, ghost log: seq<Mark>, ghost rest: seq<byte>) returns (ok: bool)
    requires rest != [] && b == rest[0] && Sending(bus, d, log, true, rest)
    modifies bus
    ensures Sending(bus, d, log, ok, rest[1..]) && bus.fought == old(bus.fought)
  {
    AcceptedStaysReady(bus.slave, rest);
    ghost var before, s := bus.log, bus.slave;
    ok := WriteByte(bus, b);
    JoinMarks(before, Frame(rest[0], true), Deliver(AfterByte(s, rest[0]), rest[1..]).marks);
  }

  lemma RunOver(bus: Bus, d: Delivery, log: seq<Mark>, ok: bool, rest: seq<byte>)
    requires Sending(bus, d, log, ok, rest) && (ok ==> rest == [])
    ensures bus.slave == d.slave && ok == d.ok && bus.log == log + d.marks && !bus.slave.low
  {
    assert bus.log + [] == bus.log;
  }

  lemma JoinMarks(a: seq<Mark>, b: seq<Mark>, c: seq<Mark>)
    ensures a + (b + c) == a + b + c
  {
  }

  // ---------------------------------------------------------------- transfers

  /** A transfer from an idle bus back to one, if its stop condition got through. */
  datatype Transfer = Transfer(ok: bool, data: seq<byte>, slave: Slave, marks: seq<Mark>, stopped: bool)

  function Ended(ok: bool, data: seq<byte>, s: Slave, marks: seq<Mark>): Transfer {
    if s.low then Transfer(ok, data, OnRise(s, false), marks, false)
    else Transfer(ok, data, OnStop(s), marks + [Stop], true)
  }

  function WriteTransfer(s: Slave, device: byte, control: byte, data: seq<byte>): Transfer
    requires s.Valid()
  {
    var d := Deliver(OnStart(s), [device, control] + data);
    Ended(d.ok, [], d.slave, [Start] + d.marks)
  }

  /** The outcome of reading bytes and acknowledging all but the last. */
  datatype Fetch = Fetch(slave: Slave, marks: seq<Mark>, data: seq<byte>)

  function Fetched(s: Slave, n: nat): (f: Fetch)
    requires s.Valid()
    ensures f.slave.Valid() && |f.data| == n
    decreases n
  {
    if n == 0 then Fetch(s, [], [])
    else
      var b := s.mem[s.ptr];
      var f := Fetched(AfterAnswer(s, n > 1), n - 1);
      Fetch(f.slave, Frame(b, n > 1) + f.marks, [b] + f.data)
  }

  /** The second half of a read: repeated start, read address, and `n` bytes if the slave answers. */
  datatype Half = Half(ok: bool, data: seq<byte>, slave: Slave, marks: seq<Mark>)

  function SecondHalf(s: Slave, device: byte, n: nat): (h: Half)
    requires s.Valid() && device % 2 == 0
    ensures h.slave.Valid()
  {
    var e := Deliver(OnStart(s), [device as int + 1]);
    if !e.ok then Half(false, [], e.slave, [Start] + e.marks)
    else
      var f := Fetched(e.slave, n);
      Half(true, f.data, f.slave, [Start] + e.marks + f.marks)
  }

  function ReadTransfer(s: Slave, device: byte, control: byte, n: nat): Transfer
    requires s.Valid() && device % 2 == 0
  {
    var d := Deliver(OnStart(s), [device, control]);
    if !d.ok then Ended(false, [], d.slave, [Start] + d.marks)
    else
      var h := SecondHalf(d.slave, device, n);
      Ended(h.ok, h.data, h.slave, [Start] + d.marks + h.marks)
  }

  /** An idle bus and an idle slave. */
  ghost predicate IdleBus(bus: Bus)
    reads bus
  {
    Quiet(bus) && bus.slave.phase == Waiting
  }

  method MultipleWrite(bus: Bus, device: byte, control: byte, data: seq<byte>) returns (ok: bool)
    requires Quiet(bus) && device % 2 == 0
    modifies bus
    ensures var t := WriteTransfer(old(bus.slave), device, control, data);
      && ok == t.ok && bus.slave == t.slave && bus.log == old(bus.log) + t.marks && bus.fought == old(bus.fought)
    ensures IdleBus(bus)
  {
    ghost var log := bus.log + [Start];
    ghost var d := Deliver(OnStart(bus.slave), [device, control] + data);
    ghost var rest := data;
    ok := SendHeader(bus, device, control, data);
    if ok {
      var i := 0;
      while i < |data| && ok
        invariant 0 <= i <= |data| && bus.fought == old(bus.fought)
        invariant rest == data[i..] && Sending(bus, d, log, ok, rest)
      {
        ok := SendNext(bus, data[i], d, log, rest);
        rest := rest[1..];
        i := i + 1;
      }
    }
    FinishWrite(bus, d, old(bus.log), ok, rest);
  }

  /** Start, device address and register address: the beginning of every transfer. */
  method SendHeader(bus: Bus, device: byte, control: byte, ghost data: seq<byte>) returns (ok: bool)
    requires Quiet(bus) && device % 2 == 0
    modifies bus
    ensures Sending(bus, Deliver(OnStart(old(bus.slave)), [device, control] + data), old(bus.log) + [Start], ok, data)
    ensures bus.fought == old(bus.fought)
  {
    ghost var all, log := [device, control] + data, bus.log + [Start];
    ghost var d := Deliver(OnStart(bus.slave), all);
    assert all[1..][1..] == data;
    StartCondition(bus);
    ok := SendNext(bus, device, d, log, all);
    if ok {
      ok := SendNext(bus, control, d, log, all[1..]);
    }
  }

  /** The stop condition of a write. */
  method FinishWrite(bus: Bus, ghost d: Delivery, ghost log: seq<Mark>, ok: bool, ghost rest: seq<byte>)
    requires Sending(bus, d, log + [Start], ok, rest) && (ok ==> rest == [])
    modifies bus
    ensures IdleBus(bus) && bus.slave == OnStop(d.slave) && ok == d.ok && !d.slave.low
    ensures bus.log == log + ([Start] + d.marks + [Stop]) && bus.fought == old(bus.fought)
  {
    RunOver(bus, d, log + [Start], ok, rest);
    JoinMarks(log, [Start], d.marks);
    JoinMarks(log, [Start] + d.marks, [Stop]);
    StopCondition(bus);
  }

  /** The first half of every read. */
  method PointTo(bus: Bus, device: byte, control: byte) returns (ok: bool)
    requires Quiet(bus) && device % 2 == 0
    modifies bus
    ensures var d := Deliver(OnStart(old(bus.slave)), [device, control]);
      && ok == d.ok && bus.slave == d.slave && bus.log == old(bus.log) + ([Start] + d.marks)
    ensures bus.Valid() && !bus.scl && !bus.slave.low && bus.fought == old(bus.fought)
  {
    ghost var d := Deliver(OnStart(bus.slave), [device, control]);
    assert [device, control] + [] == [device, control];
    ok := SendHeader(bus, device, control, []);
    RunOver(bus, d, old(bus.log) + [Start], ok, []);
    JoinMarks(old(bus.log), [Start], d.marks);
  }

  /** Repeated start and the read address. */
  method TurnAround(bus: Bus, device: byte) returns (ok: bool)
    requires Quiet(bus) && !bus.scl && device % 2 == 0
    modifies bus
    ensures var e := Deliver(OnStart(old(bus.slave)), [device as int + 1]);
      && ok == e.ok && bus.slave == e.slave && bus.log == old(bus.log) + ([Start] + e.marks)
    ensures bus.Valid() && !bus.scl && bus.fought == old(bus.fought)
    ensures if ok then GivesByte(bus) else !bus.slave.low
  {
    StartCondition(bus);
    OneDelivery(bus.slave, device as int + 1);
    TurnsAround(bus.slave, device as int + 1);
    ok := WriteByte(bus, device as int + 1);
    JoinMarks(old(bus.log), [Start], Frame(device as int + 1, ok));
  }

  /** After a read address the slave has its first bit on the wire, or has let go of it. */
  lemma TurnsAround(s: Slave, b: byte)
    requires s.Valid() && s.role == Address && b % 2 == 1
    ensures var t := AfterByte(s, b);
      if Accepts(s, b) then t.phase == Phase.Sending(0) && t.low == !BitOf(t.mem[t.ptr], 0) else !t.low
  {
  }

  /** Sending one byte. */
  lemma OneDelivery(s: Slave, b: byte)
    requires s.Valid()
    ensures Deliver(s, [b]) == Delivery(AfterByte(s, b), Frame(b, Accepts(s, b)), Accepts(s, b))
  {
    assert [b][1..] == [];
    assert Frame(b, true) + [] == Frame(b, true);
  }

  /** `n` bytes are still to be read, and together with those read so far they make the whole fetch. */
  ghost predicate Fetching(bus: Bus, f: Fetch, log: seq<Mark>, data: seq<byte>, n: nat)
    reads bus
  {
    && bus.Valid() && !bus.scl && (n > 0 ==> GivesByte(bus))
    && var r := Fetched(bus.slave, n);
    && f.slave == r.slave && f.data == data + r.data && log + f.marks == bus.log + r.marks
  }

  method FetchNext(bus: Bus, ghost f: Fetch, ghost log: seq<Mark>, ghost data: seq<byte>, n: nat) returns (b: byte)
    requires n > 0 && Fetching(bus, f, log, data, n)
    modifies bus
    ensures Fetching(bus, f, log, data + [b], n - 1) && bus.fought == old(bus.fought)
  {
    ghost var before, r := bus.log, Fetched(bus.slave, n);
    b := ReadByte(bus, n > 1);
    ghost var more := Fetched(bus.slave, n - 1);
    JoinMarks(before, Frame(b, n > 1), more.marks);
    assert data + ([b] + more.data) == data + [b] + more.data;
  }

  /** Read `n` bytes, acknowledging all but the last. */
  method FetchAll(bus: Bus, n: nat) returns (data: seq<byte>)
    requires GivesByte(bus)
    modifies bus
    ensures var f := Fetched(old(bus.slave), n);
      bus.slave == f.slave && data == f.data && bus.log == old(bus.log) + f.marks
    ensures bus.Valid() && !bus.scl && bus.fought == old(bus.fought)
  {
    data := [];
    ghost var f, log := Fetched(bus.slave, n), bus.log;
    assert [] + f.data == f.data;
    for i := 0 to n
      invariant Fetching(bus, f, log, data, n - i) && bus.fought == old(bus.fought)
    {
      var b := FetchNext(bus, f, log, data, n - i);
      data := data + [b];
    }
    assert bus.log + [] == bus.log && data + [] == data;
  }

  method ReadBack(bus: Bus, device: byte, n: nat) returns (ok: bool, data: seq<byte>)
    requires Quiet(bus) && !bus.scl && device % 2 == 0
    modifies bus
    ensures var h := SecondHalf(old(bus.slave), device, n);
      ok == h.ok && data == h.data && bus.slave == h.slave && bus.log == old(bus.log) + h.marks
    ensures bus.Valid() && !bus.scl && bus.fought == old(bus.fought) && (n > 0 ==> !bus.slave.low)
  {
    data := [];
    ghost var log, e := bus.log, Deliver(OnStart(bus.slave), [device as int + 1]);
    ok := TurnAround(bus, device);
    if ok {
      data := FetchAll(bus, n);
      JoinMarks(log, [Start] + e.marks, Fetched(e.slave, n).marks);
      FetchLeavesFree(e.slave, n);
    }
  }

  method MultipleRead(bus: Bus, device: byte, control: byte, n: nat) returns (ok: bool, data: seq<byte>)
    requires Quiet(bus) && device % 2 == 0
    modifies bus
    ensures var t := ReadTransfer(old(bus.slave), device, control, n);
      && ok == t.ok && data == t.data && bus.slave == t.slave && bus.log == old(bus.log) + t.marks
      && bus.fought == (old(bus.fought) || !t.stopped) && (if t.stopped then IdleBus(bus) else bus.slave.low)
    ensures n > 0 ==> IdleBus(bus)
  {
    data := [];
    ghost var log, d := bus.log, Deliver(OnStart(bus.slave), [device, control]);
    ghost var made := [Start] + d.marks;
    ok := PointTo(bus, device, control);
    if ok {
      ghost var h := SecondHalf(bus.slave, device, n);
      ok, data := ReadBack(bus, device, n);
      JoinMarks(log, made, h.marks);
      made := made + h.marks;
    }
    JoinMarks(log, made, [Stop]);
    StopCondition(bus);
  }

  /** After a last byte that was not acknowledged the slave has let go of SDA. */
  lemma {:induction false} FetchLeavesFree(s: Slave, n: nat)
    requires s.Valid()
    ensures n > 0 ==> !Fetched(s, n).slave.low
    decreases n
  {
    if n > 1 {
      FetchLeavesFree(AfterAnswer(s, true), n - 1);
    } else if n == 1 {
      assert Fetched(AfterAnswer(s, false), 0).slave == AfterAnswer(s, false);
    }
  }

  method Write(bus: Bus, device: byte, control: byte, value: byte) returns (ok: bool)
    requires Quiet(bus) && device % 2 == 0
    modifies bus
    ensures var t := WriteTransfer(old(bus.slave), device, control, [value]);
      && ok == t.ok && bus.slave == t.slave && bus.log == old(bus.log) + t.marks && bus.fought == old(bus.fought)
    ensures IdleBus(bus)
  {
    ghost var log := bus.log + [Start];
    ghost var d := Deliver(OnStart(bus.slave), [device, control] + [value]);
    ok := SendHeader(bus, device, control, [value]);
    if ok {
      ok := SendNext(bus, value, d, log, [value]);
    }
    FinishWrite(bus, d, old(bus.log), ok, []);
  }

  /** A single read restarts the bus even when the slave has refused its address or the register address. */
  function SingleReadTransfer(s: Slave, device: byte, control: byte): Transfer
    requires s.Valid() && device % 2 == 0
  {
    var d := Deliver(OnStart(s), [device, control]);
    if !d.ok then Ended(false, [], OnStart(d.slave), [Start] + d.marks + [Start])
    else
      var h := SecondHalf(d.slave, device, 1);
      Ended(h.ok, h.data, h.slave, [Start] + d.marks + h.marks)
  }

  method Read(bus: Bus, device: byte, control: byte) returns (ok: bool, data: seq<byte>)
    requires Quiet(bus) && device % 2 == 0
    modifies bus
    ensures var t := SingleReadTransfer(old(bus.slave), device, control);
      && ok == t.ok && data == t.data && bus.slave == t.slave && bus.log == old(bus.log) + t.marks
      && bus.fought == old(bus.fought)
    ensures IdleBus(bus)
  {
    data := [];
    ghost var log, d := bus.log, Deliver(OnStart(bus.slave), [device, control]);
    ghost var made := [Start] + d.marks;
    ok := PointTo(bus, device, control);
    if ok {
      ghost var h := SecondHalf(bus.slave, device, 1);
      ok, data := ReadBack(bus, device, 1);
      JoinMarks(log, made, h.marks);
      made := made + h.marks;
    } else {
      StartCondition(bus);
      JoinMarks(log, made, [Start]);
      made := made + [Start];
    }
    JoinMarks(log, made, [Stop]);
    StopCondition(bus);
  }

  // ---------------------------------------------------------------- what the log shows

  /** The number a run of levels spells, most significant first. */
  function Value(marks: seq<Mark>): nat {
    if marks == [] then 0
    else 2 * Value(marks[..|marks| - 1]) + if marks[|marks| - 1] == Bit(true) then 1 else 0
  }

  lemma {:induction false} BitMarksSpell(b: byte, n: nat)
    requires n <= 8
    ensures Value(BitMarks(b, n)) == Shr(b, 8 - n)
  {
    if n == 0 {
      WholeByte(b);
    } else {
      BitMarksSpell(b, n - 1);
      ShiftIn(b, n - 1);
      assert BitMarks(b, n)[..n - 1] == BitMarks(b, n - 1);
    }
  }

  /** A monitor recovers the byte and the answer from the nine levels of a frame. */
  lemma FrameDecodes(b: byte, ack: bool)
    ensures Value(Frame(b, ack)[..8]) == b
    ensures Frame(b, ack)[8] == Bit(!ack)
  {
    BitMarksSpell(b, 8);
    assert Frame(b, ack)[..8] == BitMarks(b, 8);
  }

  ghost predicate AllBits(marks: seq<Mark>) {
    forall i :: 0 <= i < |marks| ==> marks[i].Bit?
  }

  lemma {:induction false} BitMarksAreBits(b: byte, n: nat)
    requires n <= 8
    ensures AllBits(BitMarks(b, n))
  {
    if n > 0 {
      BitMarksAreBits(b, n - 1);
    }
  }

  lemma FramesJoin(b: byte, ack: bool, rest: seq<Mark>)
    requires AllBits(rest)
    ensures AllBits(Frame(b, ack) + rest) && |Frame(b, ack) + rest| == 9 + |rest|
  {
    BitMarksAreBits(b, 8);
  }

  /** Between its start and stop conditions SDA never changes while SCL is high: a run of bytes is whole frames. */
  lemma {:induction false} DeliveryIsFrames(s: Slave, bytes: seq<byte>)
    requires s.Valid()
    ensures AllBits(Deliver(s, bytes).marks) && |Deliver(s, bytes).marks| % 9 == 0
    decreases |bytes|
  {
    if bytes == [] {
    } else if Accepts(s, bytes[0]) {
      DeliveryIsFrames(AfterByte(s, bytes[0]), bytes[1..]);
      FramesJoin(bytes[0], true, Deliver(AfterByte(s, bytes[0]), bytes[1..]).marks);
    } else {
      FramesJoin(bytes[0], false, []);
      assert Frame(bytes[0], false) + [] == Frame(bytes[0], false);
    }
  }

  lemma {:induction false} FetchIsFrames(s: Slave, n: nat)
    requires s.Valid()
    ensures AllBits(Fetched(s, n).marks) && |Fetched(s, n).marks| == 9 * n
    decreases n
  {
    if n > 0 {
      var t := AfterAnswer(s, n > 1);
      FetchIsFrames(t, n - 1);
      FramesJoin(s.mem[s.ptr], n > 1, Fetched(t, n - 1).marks);
    }
  }

  // ---------------------------------------------------------------- what a transfer does

  /** Frames that were all acknowledged. */
  function Acked(bytes: seq<byte>): seq<Mark> {
    if bytes == [] then [] else Frame(bytes[0], true) + Acked(bytes[1..])
  }

  /** Sequential storing, wrapping at the end of the memory. */
  function StoredAt(mem: seq<byte>, at: nat, data: seq<byte>): (r: seq<byte>)
    requires |mem| == 256 && at < 256
    ensures |r| == 256
    decreases |data|
  {
    if data == [] then mem else StoredAt(mem[at := data[0]], (at + 1) % 256, data[1..])
  }

  /** How far address `j` is from address `at`, going around. */
  function Distance(at: nat, j: nat): nat
    requires at < 256 && j < 256
  {
    if j >= at then j - at else j - at + 256
  }

  lemma NextDistance(at: nat, j: nat)
    requires at < 256 && j < 256
    ensures (at + 1) % 256 < 256
    ensures Distance((at + 1) % 256, j) == if j == at then 255 else Distance(at, j) - 1
  {
    if at == 255 {
      assert (at + 1) % 256 == 0;
    } else {
      assert (at + 1) % 256 == at + 1;
    }
  }

  /** Where a byte of a run of at most 256 ends up. */
  lemma {:induction false} StoredByte(mem: seq<byte>, at: nat, data: seq<byte>, j: nat)
    requires |mem| == 256 && at < 256 && |data| <= 256 && j < 256
    ensures var i := Distance(at, j);
      StoredAt(mem, at, data)[j] == if i < |data| then data[i] else mem[j]
    decreases |data|
  {
    if data != [] {
      NextDistance(at, j);
      StoredByte(mem[at := data[0]], (at + 1) % 256, data[1..], j);
    }
  }

  /** Frames that were acknowledged up to the byte at `k`, if there is one, after which nothing is sent. */
  function FramesUpTo(bytes: seq<byte>, k: nat): seq<Mark>
    requires k <= |bytes|
  {
    Acked(bytes[..k]) + if k < |bytes| then Frame(bytes[k], false) else []
  }

  /** How many bytes of a run the slave takes before it refuses one. */
  function Run(s: Slave, bytes: seq<byte>): (k: nat)
    requires s.Valid()
    ensures k <= |bytes|
    decreases |bytes|
  {
    if bytes == [] || !Accepts(s, bytes[0]) then 0 else 1 + Run(AfterByte(s, bytes[0]), bytes[1..])
  }

  lemma FirstFrame(bytes: seq<byte>, k: nat)
    requires 0 < k <= |bytes|
    ensures FramesUpTo(bytes, k) == Frame(bytes[0], true) + FramesUpTo(bytes[1..], k - 1)
  {
    var rest := bytes[1..];
    assert bytes[..k][0] == bytes[0] && bytes[..k][1..] == rest[..k - 1];
    JoinMarks(Frame(bytes[0], true), Acked(rest[..k - 1]), if k < |bytes| then Frame(bytes[k], false) else []);
  }

  /** Whatever the slave answers, the first byte it refuses is the last one sent. */
  lemma {:induction false} DeliveryStopsAtRefusal(s: Slave, bytes: seq<byte>)
    requires s.Valid()
    ensures var d, k := Deliver(s, bytes), Run(s, bytes);
      d.ok == (k == |bytes|) && d.marks == FramesUpTo(bytes, k)
    decreases |bytes|
  {
    if bytes == [] {
    } else if !Accepts(s, bytes[0]) {
      assert bytes[..0] == [];
    } else {
      DeliveryStopsAtRefusal(AfterByte(s, bytes[0]), bytes[1..]);
      FirstFrame(bytes, Run(s, bytes));
    }
  }

  /** Whether the slave takes the byte at `i` of a run of data, after all those before it. */
  predicate TakesDataAt(s: Slave, i: nat) {
    i < s.room && Willing(s.mood, i)
  }

  /** How many bytes of a run of data are taken. */
  lemma {:induction false} DataRun(s: Slave, data: seq<byte>)
    requires Ready(s, data) && s.role == Data
    ensures var k := Run(s, data);
      (forall i :: 0 <= i < k ==> TakesDataAt(s, i)) && (k < |data| ==> !TakesDataAt(s, k))
    decreases |data|
  {
    var k := Run(s, data);
    if k > 0 {
      var t := AfterByte(s, data[0]);
      AcceptedStaysReady(s, data);
      DataRun(t, data[1..]);
      forall i | 0 <= i < k
        ensures TakesDataAt(s, i)
      {
        assert i > 0 ==> TakesDataAt(t, i - 1);
      }
    }
  }

  /** The bytes of a run of data that are taken are stored. */
  lemma {:induction false} DataStored(s: Slave, data: seq<byte>)
    requires Ready(s, data) && s.role == Data
    ensures var d, k := Deliver(s, data), Run(s, data);
      && !d.slave.low && d.slave.mem == StoredAt(s.mem, s.ptr, data[..k])
      && d.slave.room == s.room - k && d.slave.id == s.id && (s.mood == [] ==> d.slave.mood == [])
    decreases |data|
  {
    var k := Run(s, data);
    if k == 0 {
      assert data[..0] == [];
    } else {
      AcceptedStaysReady(s, data);
      DataStored(AfterByte(s, data[0]), data[1..]);
      assert data[..k][0] == data[0] && data[..k][1..] == data[1..][..k - 1];
    }
  }

  /** A run of data: what is stored of it, what goes over the wires, and how many bytes that is. */
  lemma DataDelivery(s: Slave, data: seq<byte>)
    requires Ready(s, data) && s.role == Data
    ensures var d, k := Deliver(s, data), Run(s, data);
      && d.ok == (k == |data|) && d.marks == FramesUpTo(data, k)
      && !d.slave.low && d.slave.mem == StoredAt(s.mem, s.ptr, data[..k])
      && d.slave.room == s.room - k && d.slave.id == s.id && (s.mood == [] ==> d.slave.mood == [])
      && (forall i :: 0 <= i < k ==> TakesDataAt(s, i)) && (k < |data| ==> !TakesDataAt(s, k))
  {
    DataRun(s, data);
    DataStored(s, data);
    DeliveryStopsAtRefusal(s, data);
  }

  /** Whether the slave takes its address and the register address. */
  predicate TakesHeader(s: Slave, device: byte) {
    device == s.id && Willing(s.mood, 0) && Willing(s.mood, 1)
  }

  /** Whether it takes those and then the read address. */
  predicate AnswersRead(s: Slave, device: byte) {
    TakesHeader(s, device) && Willing(s.mood, 2)
  }

  /** The slave once it has been addressed for writing and has taken its register address. */
  function Pointed(s: Slave, control: byte): Slave {
    s.(phase := Receiving(0, 0), role := Data, ptr := control, mood := NextMood(NextMood(s.mood)), low := false)
  }

  lemma HeaderDelivery(s: Slave, device: byte, control: byte, data: seq<byte>)
    requires s.Valid() && TakesHeader(s, device)
    ensures var all, p := [device, control] + data, Pointed(s, control);
      var d, e := Deliver(OnStart(s), all), Deliver(p, data);
      && d.slave == e.slave && d.ok == e.ok && d.marks == Frame(device, true) + (Frame(control, true) + e.marks)
      && Run(OnStart(s), all) == 2 + Run(p, data)
  {
    var all := [device, control] + data;
    assert all[0] == device && all[1..][0] == control && all[1..][1..] == data;
    var t := AfterByte(OnStart(s), device);
    assert t == s.(phase := Receiving(0, 0), role := Pointer, mood := NextMood(s.mood), low := false);
    assert AfterByte(t, control) == Pointed(s, control);
    assert Deliver(t, all[1..]).marks == Frame(control, true) + Deliver(Pointed(s, control), data).marks;
  }

  /** What a slave that refuses its address or the register address leaves of the header on the wires. */
  function RefusedHeader(s: Slave, device: byte, control: byte): seq<Mark> {
    if device == s.id && Willing(s.mood, 0) then Frame(device, true) + Frame(control, false) else Frame(device, false)
  }

  /** Nothing is sent after a refused header, and nothing is stored. */
  lemma HeaderRefused(s: Slave, device: byte, control: byte, data: seq<byte>)
    requires s.Valid() && device % 2 == 0 && !TakesHeader(s, device)
    ensures var all := [device, control] + data;
      var d := Deliver(OnStart(s), all);
      && !d.ok && !d.slave.low && d.slave.mem == s.mem && d.marks == RefusedHeader(s, device, control)
      && Run(OnStart(s), all) == if device == s.id && Willing(s.mood, 0) then 1 else 0
  {
    var all := [device, control] + data;
    assert all[0] == device && all[1..][0] == control;
    if device == s.id && Willing(s.mood, 0) {
      var t := AfterByte(OnStart(s), device);
      assert t == s.(phase := Receiving(0, 0), role := Pointer, mood := NextMood(s.mood), low := false);
      assert Deliver(t, all[1..]).marks == Frame(control, false);
    }
  }

  lemma PairRefused(s: Slave, device: byte, control: byte)
    requires s.Valid() && device % 2 == 0 && !TakesHeader(s, device)
    ensures var d := Deliver(OnStart(s), [device, control]);
      !d.ok && !d.slave.low && d.slave.mem == s.mem && d.marks == RefusedHeader(s, device, control)
  {
    HeaderRefused(s, device, control, []);
    assert [device, control] + [] == [device, control];
  }

  /** Whether the slave takes the byte at `i` of a write, after all those before it. */
  predicate TakesAt(s: Slave, device: byte, i: nat) {
    Willing(s.mood, i) && (i == 0 ==> device == s.id) && (i >= 2 ==> i - 2 < s.room)
  }

  lemma AfterHeader(s: Slave, device: byte, control: byte, i: nat)
    requires TakesHeader(s, device)
    ensures TakesAt(s, device, i) <==> i < 2 || TakesDataAt(Pointed(s, control), i - 2)
  {
  }

  /** The first byte of a write that the slave does not take. */
  lemma WriteRun(s: Slave, device: byte, control: byte, data: seq<byte>)
    requires s.Valid() && device % 2 == 0
    ensures var all := [device, control] + data;
      var k := Run(OnStart(s), all);
      (forall i :: 0 <= i < k ==> TakesAt(s, device, i)) && (k < |all| ==> !TakesAt(s, device, k))
  {
    if TakesHeader(s, device) {
      var p := Pointed(s, control);
      var k := Run(p, data);
      HeaderDelivery(s, device, control, data);
      DataRun(p, data);
      forall i | 0 <= i < 2 + k
        ensures TakesAt(s, device, i)
      {
        AfterHeader(s, device, control, i);
      }
      AfterHeader(s, device, control, 2 + k);
    } else {
      HeaderRefused(s, device, control, data);
    }
  }

  /** A write: frames up to the first byte refused, whichever that is, and the data bytes taken are stored. */
  lemma WriteToSlave(s: Slave, device: byte, control: byte, data: seq<byte>)
    requires s.Valid() && device % 2 == 0
    ensures var t, all := WriteTransfer(s, device, control, data), [device, control] + data;
      var k := Run(OnStart(s), all);
      && t.ok == (k == |all|) && t.stopped && t.marks == [Start] + FramesUpTo(all, k) + [Stop]
      && (forall i :: 0 <= i < k ==> TakesAt(s, device, i)) && (k < |all| ==> !TakesAt(s, device, k))
      && t.slave.Valid() && t.slave.id == s.id
      && t.slave.mem == if k < 2 then s.mem else StoredAt(s.mem, control, data[..k - 2])
  {
    WriteRun(s, device, control, data);
    DeliveryStopsAtRefusal(OnStart(s), [device, control] + data);
    DeliveryKeepsSlave(OnStart(s), [device, control] + data);
    if TakesHeader(s, device) {
      HeaderDelivery(s, device, control, data);
      DataDelivery(Pointed(s, control), data);
    } else {
      HeaderRefused(s, device, control, data);
    }
  }

  /** A write whose address or register address is refused ends there, with nothing stored. */
  lemma WriteRefused(s: Slave, device: byte, control: byte, data: seq<byte>)
    requires s.Valid() && device % 2 == 0 && !TakesHeader(s, device)
    ensures var t := WriteTransfer(s, device, control, data);
      !t.ok && t.stopped && t.slave.mem == s.mem && t.marks == [Start] + RefusedHeader(s, device, control) + [Stop]
  {
    HeaderRefused(s, device, control, data);
  }

  lemma {:induction false} FetchKeepsMemory(s: Slave, n: nat)
    requires s.Valid()
    ensures Fetched(s, n).slave.mem == s.mem && Fetched(s, n).slave.id == s.id
    decreases n
  {
    if n > 0 {
      FetchKeepsMemory(AfterAnswer(s, n > 1), n - 1);
    }
  }

  lemma WrapsOn(p: nat, i: nat)
    ensures ((p + 1) % 256 + i) % 256 == (p + (i + 1)) % 256
  {
  }

  /** After a byte has been answered the pointer is one on. */
  lemma NextByte(s: Slave, ack: bool, i: nat)
    requires s.Valid()
    ensures var t := AfterAnswer(s, ack); t.mem[(t.ptr + i) % 256] == s.mem[(s.ptr + (i + 1)) % 256]
  {
    WrapsOn(s.ptr, i);
  }

  lemma {:induction false} FetchedByte(s: Slave, n: nat, i: nat)
    requires s.Valid() && i < n
    ensures Fetched(s, n).data[i] == s.mem[(s.ptr + i) % 256]
    decreases n
  {
    if i > 0 {
      var t := AfterAnswer(s, n > 1);
      FetchedByte(t, n - 1, i - 1);
      NextByte(s, n > 1, i - 1);
    }
  }

  /** The bytes of a read come from successive addresses, and nothing is stored. */
  lemma FetchedBytes(s: Slave, n: nat)
    requires s.Valid()
    ensures var f := Fetched(s, n);
      f.slave.mem == s.mem && f.slave.id == s.id && forall i :: 0 <= i < n ==> f.data[i] == s.mem[(s.ptr + i) % 256]
  {
    FetchKeepsMemory(s, n);
    forall i | 0 <= i < n
      ensures Fetched(s, n).data[i] == s.mem[(s.ptr + i) % 256]
    {
      FetchedByte(s, n, i);
    }
  }

  /** All bytes of a read are acknowledged but the last. */
  lemma {:induction false} FetchedAnswers(s: Slave, n: nat)
    requires s.Valid() && n > 0
    ensures var f := Fetched(s, n); f.marks == Acked(f.data[..n - 1]) + Frame(f.data[n - 1], false)
    decreases n
  {
    var b, g := s.mem[s.ptr], Fetched(AfterAnswer(s, n > 1), n - 1);
    if n > 1 {
      FetchedAnswers(AfterAnswer(s, true), n - 1);
      var front := [b] + g.data[..n - 2];
      assert front[1..] == g.data[..n - 2] && ([b] + g.data)[..n - 1] == front;
      JoinMarks(Frame(b, true), Acked(g.data[..n - 2]), Frame(g.data[n - 2], false));
    } else {
      assert Frame(b, false) + [] == Frame(b, false) && [] + Frame(b, false) == Frame(b, false);
      assert ([b] + g.data)[..0] == [];
    }
  }

  /** The slave about to send the byte its pointer names. */
  function Turned(s: Slave): Slave
    requires s.Valid()
  {
    SendFirst(s.(role := Pointer, mood := NextMood(s.mood)))
  }

  /** The repeated start and the read address, taken or refused. */
  lemma TurnedDelivery(s: Slave, device: byte)
    requires s.Valid() && device == s.id
    ensures var e := Deliver(OnStart(s), [device as int + 1]);
      && e.ok == Willing(s.mood, 0) && e.marks == Frame(device as int + 1, e.ok)
      && if e.ok then e.slave == Turned(s) else !e.slave.low && e.slave.mem == s.mem
  {
    var b: byte := device as int + 1;
    assert [b][1..] == [];
    if Willing(s.mood, 0) {
      assert Judged(OnStart(s), b)
          == OnStart(s).(phase := Acking(true), low := true, role := Pointer, mood := NextMood(s.mood));
    }
  }

  lemma PointedFirst(s: Slave, device: byte, control: byte)
    requires s.Valid() && TakesHeader(s, device)
    ensures var d := Deliver(OnStart(s), [device, control]);
      d.ok && d.slave == Pointed(s, control) && d.marks == Frame(device, true) + Frame(control, true)
  {
    HeaderDelivery(s, device, control, []);
    assert [device, control] + [] == [device, control] && Frame(control, true) + [] == Frame(control, true);
  }

  lemma HalfFromAddressed(p: Slave, device: byte, n: nat)
    requires p.Valid() && device == p.id && Willing(p.mood, 0)
    ensures var f := Fetched(Turned(p), n);
      SecondHalf(p, device, n) == Half(true, f.data, f.slave, [Start] + Frame(device as int + 1, true) + f.marks)
  {
    TurnedDelivery(p, device);
  }

  lemma ReadFromAddressed(s: Slave, device: byte, control: byte, n: nat)
    requires s.Valid() && AnswersRead(s, device) && n > 0
    ensures var f := Fetched(Turned(Pointed(s, control)), n);
      ReadTransfer(s, device, control, n) == Transfer(true, f.data, OnStop(f.slave),
        [Start] + (Frame(device, true) + Frame(control, true)) + ([Start] + Frame(device as int + 1, true) + f.marks)
          + [Stop], true)
  {
    var p := Pointed(s, control);
    PointedFirst(s, device, control);
    HalfFromAddressed(p, device, n);
    FetchLeavesFree(Turned(p), n);
  }

  lemma ReadGives(s: Slave, device: byte, control: byte, n: nat)
    requires s.Valid() && AnswersRead(s, device) && n > 0
    ensures var t, f := ReadTransfer(s, device, control, n), Fetched(Turned(Pointed(s, control)), n);
      t.ok && t.stopped && t.data == f.data && t.slave.mem == f.slave.mem
  {
    ReadFromAddressed(s, device, control, n);
  }

  /** The bytes fetched by a slave that has been pointed to a register. */
  lemma FetchedFrom(s: Slave, control: byte, n: nat, data: seq<byte>)
    requires s.Valid() && data == Fetched(Turned(Pointed(s, control)), n).data
    ensures |data| == n && forall i :: 0 <= i < n ==> data[i] == s.mem[(control + i) % 256]
    ensures Fetched(Turned(Pointed(s, control)), n).slave.mem == s.mem
  {
    FetchedBytes(Turned(Pointed(s, control)), n);
  }

  /** A read from a slave that takes the three bytes before the data returns the bytes at successive addresses. */
  lemma ReadFromSlave(s: Slave, device: byte, control: byte, n: nat)
    requires s.Valid() && AnswersRead(s, device) && n > 0
    ensures var t := ReadTransfer(s, device, control, n);
      && t.ok && t.stopped && |t.data| == n && t.slave.mem == s.mem
      && forall i :: 0 <= i < n ==> t.data[i] == s.mem[(control + i) % 256]
  {
    ReadGives(s, device, control, n);
    FetchedFrom(s, control, n, ReadTransfer(s, device, control, n).data);
  }

  /** Every frame of a read on the wires. */
  lemma ReadOnTheWires(s: Slave, device: byte, control: byte, n: nat)
    requires s.Valid() && AnswersRead(s, device) && n > 0
    ensures var t := ReadTransfer(s, device, control, n);
      |t.data| == n && t.marks == [Start] + (Frame(device, true) + Frame(control, true)) +
        ([Start] + Frame(device as int + 1, true) + (Acked(t.data[..n - 1]) + Frame(t.data[n - 1], false))) + [Stop]
  {
    ReadFromAddressed(s, device, control, n);
    FetchedAnswers(Turned(Pointed(s, control)), n);
  }

  /** A read whose address or register address is refused ends there, without the restart. */
  lemma MultipleReadRefused(s: Slave, device: byte, control: byte, n: nat)
    requires s.Valid() && device % 2 == 0 && !TakesHeader(s, device)
    ensures var t := ReadTransfer(s, device, control, n);
      && !t.ok && t.stopped && t.data == [] && t.slave.mem == s.mem
      && t.marks == [Start] + RefusedHeader(s, device, control) + [Stop]
  {
    PairRefused(s, device, control);
  }

  /** A read whose read address is refused ends after it. */
  lemma ReadAddressRefused(s: Slave, device: byte, control: byte, n: nat)
    requires s.Valid() && TakesHeader(s, device) && !Willing(s.mood, 2)
    ensures var t := ReadTransfer(s, device, control, n);
      && !t.ok && t.stopped && t.data == [] && t.slave.mem == s.mem
      && t.marks == [Start] + (Frame(device, true) + Frame(control, true)) + ([Start] + Frame(device as int + 1, false))
           + [Stop]
  {
    PointedFirst(s, device, control);
    TurnedDelivery(Pointed(s, control), device);
  }

  /** A read succeeds exactly if the slave takes the three bytes before the data. */
  lemma ReadSucceeds(s: Slave, device: byte, control: byte, n: nat)
    requires s.Valid() && device % 2 == 0
    ensures ReadTransfer(s, device, control, n).ok <==> AnswersRead(s, device)
  {
    if TakesHeader(s, device) {
      PointedFirst(s, device, control);
      TurnedDelivery(Pointed(s, control), device);
    } else {
      PairRefused(s, device, control);
    }
  }

  /** A byte of a stored block read back from its place. */
  lemma StoredAndRead(mem: seq<byte>, at: nat, data: seq<byte>, i: nat)
    requires |mem| == 256 && at < 256 && i < |data| <= 256
    ensures StoredAt(mem, at, data)[(at + i) % 256] == data[i]
  {
    StoredByte(mem, at, data, (at + i) % 256);
  }

  /** Writing a block of up to 256 bytes and reading the same addresses returns it, from any slave, whenever the two
      calls report success. */
  lemma BlockRoundTrip(s: Slave, device: byte, control: byte, data: seq<byte>)
    requires s.Valid() && device % 2 == 0 && 0 < |data| <= 256
    ensures var w := WriteTransfer(s, device, control, data);
      && w.slave.Valid()
      && var r := ReadTransfer(w.slave, device, control, |data|);
      && (w.ok && r.ok ==> r.data == data)
  {
    var w := WriteTransfer(s, device, control, data);
    WriteToSlave(s, device, control, data);
    ReadSucceeds(w.slave, device, control, |data|);
    if w.ok && AnswersRead(w.slave, device) {
      assert data[..|data|] == data;
      ReadFromSlave(w.slave, device, control, |data|);
      forall i | 0 <= i < |data|
        ensures w.slave.mem[(control + i) % 256] == data[i]
      {
        StoredAndRead(s.mem, control, data, i);
      }
    }
  }

  /** They do if the slave is addressed, has room for the block and refuses nothing. */
  lemma BlockRoundTripSucceeds(s: Slave, device: byte, control: byte, data: seq<byte>)
    requires s.Valid() && device == s.id && |data| <= s.room && s.mood == []
    ensures var w := WriteTransfer(s, device, control, data);
      w.ok && w.slave.Valid() && ReadTransfer(w.slave, device, control, |data|).ok
  {
    var w := WriteTransfer(s, device, control, data);
    WriteToSlave(s, device, control, data);
    HeaderDelivery(s, device, control, data);
    DataDelivery(Pointed(s, control), data);
    ReadSucceeds(w.slave, device, control, |data|);
  }

  /** A read of no bytes leaves the slave sending, if it takes the three bytes, and the stop condition gets through
      exactly when the first bit it has on the wire is a one. */
  lemma EmptyReadStops(s: Slave, device: byte, control: byte)
    requires s.Valid() && device % 2 == 0
    ensures ReadTransfer(s, device, control, 0).stopped <==> !AnswersRead(s, device) || BitOf(s.mem[control], 0)
  {
    if AnswersRead(s, device) {
      PointedFirst(s, device, control);
      EmptyHalf(Pointed(s, control), device);
    } else if TakesHeader(s, device) {
      ReadAddressRefused(s, device, control, 0);
    } else {
      MultipleReadRefused(s, device, control, 0);
    }
  }

  // ---------------------------------------------------------------- the single read

  /** If its address and the register address are taken, a single read is a read of one byte. */
  lemma SingleReadIsReadOfOne(s: Slave, device: byte, control: byte)
    requires s.Valid() && TakesHeader(s, device)
    ensures SingleReadTransfer(s, device, control) == ReadTransfer(s, device, control, 1)
  {
    PointedFirst(s, device, control);
  }

  /** If the slave takes the read address too, it returns the byte at the address, and changes nothing. */
  lemma SingleReadReturnsByte(s: Slave, device: byte, control: byte)
    requires s.Valid() && AnswersRead(s, device)
    ensures var t := SingleReadTransfer(s, device, control);
      t.ok && t.stopped && t.data == [s.mem[control]] && t.slave.mem == s.mem
  {
    var p := Turned(Pointed(s, control));
    SingleReadIsReadOfOne(s, device, control);
    ReadGives(s, device, control, 1);
    FetchKeepsMemory(p, 1);
    FetchedByte(p, 1, 0);
  }

  /** With its address or the register address refused it returns nothing: what there is of the header, a start it has
      no use for, and the stop. */
  lemma SingleReadRefused(s: Slave, device: byte, control: byte)
    requires s.Valid() && device % 2 == 0 && !TakesHeader(s, device)
    ensures var t := SingleReadTransfer(s, device, control);
      && !t.ok && t.stopped && t.data == [] && t.slave.mem == s.mem
      && t.marks == [Start] + RefusedHeader(s, device, control) + [Start] + [Stop]
  {
    PairRefused(s, device, control);
  }

  /** It puts a start condition directly before its stop condition exactly when its address or the register address was
      refused: a message without a single byte. */
  lemma VoidMessageWhenRefused(s: Slave, device: byte, control: byte)
    requires s.Valid() && device % 2 == 0
    ensures var m := SingleReadTransfer(s, device, control).marks;
      |m| >= 2 && (m[|m| - 2..] == [Start, Stop] <==> !TakesHeader(s, device))
  {
    var m := SingleReadTransfer(s, device, control).marks;
    if !TakesHeader(s, device) {
      SingleReadRefused(s, device, control);
      assert m[|m| - 2..] == [Start, Stop];
    } else {
      SingleReadIsReadOfOne(s, device, control);
      if Willing(s.mood, 2) {
        ReadOnTheWires(s, device, control, 1);
      } else {
        ReadAddressRefused(s, device, control, 1);
      }
      assert m[|m| - 2].Bit?;
    }
  }

  lemma EmptyHalf(p: Slave, device: byte)
    requires p.Valid() && device == p.id && Willing(p.mood, 0)
    ensures SecondHalf(p, device, 0) == Half(true, [], Turned(p), [Start] + Frame(device as int + 1, true))
  {
    HalfFromAddressed(p, device, 0);
    assert [Start] + Frame(device as int + 1, true) + [] == [Start] + Frame(device as int + 1, true);
  }

  /** What a read of no bytes puts on the wires. */
  lemma EmptyReadOnTheWires(s: Slave, device: byte, control: byte)
    requires s.Valid() && AnswersRead(s, device)
    ensures var t := ReadTransfer(s, device, control, 0);
      && t.ok && t.data == [] && t.slave.mem == s.mem
      && t.marks == [Start] + (Frame(device, true) + Frame(control, true)) + ([Start] + Frame(device as int + 1, true))
           + if t.stopped then [Stop] else []
  {
    PointedFirst(s, device, control);
    EmptyHalf(Pointed(s, control), device);
    var all := [Start] + (Frame(device, true) + Frame(control, true)) + ([Start] + Frame(device as int + 1, true));
    assert all + [] == all;
  }

  // ---------------------------------------------------------------- every slave state

  lemma {:induction false} DeliveryKeepsSlave(s: Slave, bytes: seq<byte>)
    requires s.Valid()
    ensures Deliver(s, bytes).slave.Valid() && Deliver(s, bytes).slave.id == s.id
    decreases |bytes|
  {
    if bytes != [] && Accepts(s, bytes[0]) {
      DeliveryKeepsSlave(AfterByte(s, bytes[0]), bytes[1..]);
    }
  }

  /** A transfer leaves a slave that is one, with the same address. */
  lemma WriteKeepsSlave(s: Slave, device: byte, control: byte, data: seq<byte>)
    requires s.Valid()
    ensures var t := WriteTransfer(s, device, control, data); t.slave.Valid() && t.slave.id == s.id
  {
    DeliveryKeepsSlave(OnStart(s), [device, control] + data);
  }

  lemma SecondHalfKeepsSlave(s: Slave, device: byte, n: nat)
    requires s.Valid() && device % 2 == 0
    ensures SecondHalf(s, device, n).slave.Valid() && SecondHalf(s, device, n).slave.id == s.id
  {
    DeliveryKeepsSlave(OnStart(s), [device as int + 1]);
    FetchKeepsMemory(Deliver(OnStart(s), [device as int + 1]).slave, n);
  }

  lemma ReadKeepsSlave(s: Slave, device: byte, control: byte, n: nat)
    requires s.Valid() && device % 2 == 0
    ensures var t := ReadTransfer(s, device, control, n); t.slave.Valid() && t.slave.id == s.id
  {
    var d := Deliver(OnStart(s), [device, control]);
    DeliveryKeepsSlave(OnStart(s), [device, control]);
    SecondHalfKeepsSlave(d.slave, device, n);
  }

  lemma SingleReadKeepsSlave(s: Slave, device: byte, control: byte)
    requires s.Valid() && device % 2 == 0
    ensures var t := SingleReadTransfer(s, device, control); t.slave.Valid() && t.slave.id == s.id
  {
    var d := Deliver(OnStart(s), [device, control]);
    DeliveryKeepsSlave(OnStart(s), [device, control]);
    SecondHalfKeepsSlave(d.slave, device, 1);
  }
}
