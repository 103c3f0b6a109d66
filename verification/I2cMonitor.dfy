/** A bus monitor that knows nothing of the transfers, and what it makes of any sequence of calls. */
module I2cMonitor {
  import opened Bytes
  import opened I2cBus
  import opened I2cMaster
  import opened I2cTransfers

  // ---------------------------------------------------------------- the monitor

  /** What the monitor reports: a (repeated) start, a byte with its answer, a stop. */
  datatype Token = Began | Byte(value: nat, ack: bool) | Ended

  /** Between messages; in a message with `bytes` bytes behind it and `bits` bits of the next, spelling `value`; or
      after something no message contains. */
  datatype Monitor = Closed | Open(bytes: nat, bits: nat, value: nat) | Broken

  /** A message is opened by a start, and ended by a stop or another start after at least one byte and no part of
      another (sections 3.1.4 to 3.1.6 of UM10204). */
  function Seen(m: Monitor, mark: Mark): Monitor {
    match m
    case Closed => if mark == Start then Open(0, 0, 0) else Broken
    case Broken => Broken
    case Open(bytes, bits, value) =>
      match mark
      case Bit(level) =>
        if bits < 8 then Open(bytes, bits + 1, 2 * value + if level then 1 else 0) else Open(bytes + 1, 0, 0)
      case Start => if bytes > 0 && bits == 0 then Open(0, 0, 0) else Broken
      case Stop => if bytes > 0 && bits == 0 then Closed else Broken
  }

  function Reported(m: Monitor, mark: Mark): seq<Token> {
    match mark
    case Start => [Began]
    case Stop => [Token.Ended]
    case Bit(level) => if m.Open? && m.bits >= 8 then [Byte(m.value, !level)] else []
  }

  function After(m: Monitor, marks: seq<Mark>): Monitor
    decreases |marks|
  {
    if marks == [] then m else After(Seen(m, marks[0]), marks[1..])
  }

  function Report(m: Monitor, marks: seq<Mark>): seq<Token>
    decreases |marks|
  {
    if marks == [] then [] else Reported(m, marks[0]) + Report(Seen(m, marks[0]), marks[1..])
  }

  /** A whole log, read from between messages to between messages. */
  predicate WellFormed(marks: seq<Mark>) {
    After(Closed, marks) == Closed
  }

  lemma {:induction false} ReadsOn(m: Monitor, a: seq<Mark>, b: seq<Mark>)
    ensures After(m, a + b) == After(After(m, a), b)
    ensures Report(m, a + b) == Report(m, a) + Report(After(m, a), b)
    decreases |a|
  {
    if a == [] {
      assert a + b == b;
    } else {
      assert (a + b)[1..] == a[1..] + b;
      ReadsOn(Seen(m, a[0]), a[1..], b);
      Associate(Reported(m, a[0]), Report(Seen(m, a[0]), a[1..]), Report(After(m, a), b));
    }
  }

  lemma {:induction false} StaysBroken(marks: seq<Mark>)
    ensures After(Broken, marks) == Broken
  {
    if marks != [] {
      StaysBroken(marks[1..]);
    }
  }

  lemma OneMark(m: Monitor, mark: Mark)
    ensures After(m, [mark]) == Seen(m, mark) && Report(m, [mark]) == Reported(m, mark)
  {
    assert [mark][1..] == [];
  }

  lemma {:induction false} BitsAreRead(b: byte, n: nat, k: nat)
    requires n <= 8
    ensures After(Open(k, 0, 0), BitMarks(b, n)) == Open(k, n, Shr(b, 8 - n))
    ensures Report(Open(k, 0, 0), BitMarks(b, n)) == []
  {
    if n == 0 {
      WholeByte(b);
    } else {
      BitsAreRead(b, n - 1, k);
      ShiftIn(b, n - 1);
      var last := Bit(BitOf(b, n - 1));
      ReadsOn(Open(k, 0, 0), BitMarks(b, n - 1), [last]);
      OneMark(Open(k, n - 1, Shr(b, 9 - n)), last);
    }
  }

  /** The monitor makes of a frame the byte and the answer it was made from. */
  lemma FrameIsRead(b: byte, ack: bool, k: nat)
    ensures After(Open(k, 0, 0), Frame(b, ack)) == Open(k + 1, 0, 0)
    ensures Report(Open(k, 0, 0), Frame(b, ack)) == [Byte(b, ack)]
  {
    BitsAreRead(b, 8, k);
    WholeByte(b);
    ReadsOn(Open(k, 0, 0), BitMarks(b, 8), [Bit(!ack)]);
    OneMark(Open(k, 8, b), Bit(!ack));
  }

  // ---------------------------------------------------------------- parts of a message

  /** Reading `marks` takes the monitor from one state to another and makes it report `told`. */
  ghost predicate Reads(m: Monitor, marks: seq<Mark>, n: Monitor, told: seq<Token>) {
    After(m, marks) == n && Report(m, marks) == told
  }

  lemma Joined(m: Monitor, a: seq<Mark>, n: Monitor, s: seq<Token>, b: seq<Mark>, o: Monitor, t: seq<Token>)
    requires Reads(m, a, n, s) && Reads(n, b, o, t)
    ensures Reads(m, a + b, o, s + t)
  {
    ReadsOn(m, a, b);
  }

  lemma FrameReads(b: byte, ack: bool, k: nat)
    ensures Reads(Open(k, 0, 0), Frame(b, ack), Open(k + 1, 0, 0), [Byte(b, ack)])
  {
    FrameIsRead(b, ack, k);
  }

  lemma StartReads(m: Monitor)
    requires m.Closed? || (m.Open? && m.bytes > 0 && m.bits == 0)
    ensures Reads(m, [Start], Open(0, 0, 0), [Began])
  {
    OneMark(m, Start);
  }

  lemma StopReads(k: nat)
    requires k > 0
    ensures Reads(Open(k, 0, 0), [Stop], Closed, [Token.Ended])
  {
    OneMark(Open(k, 0, 0), Stop);
  }

  /** Bytes that were all acknowledged. */
  function AllAcked(data: seq<byte>): (t: seq<Token>)
    ensures |t| == |data|
  {
    seq(|data|, i requires 0 <= i < |data| => Byte(data[i], true))
  }

  /** Bytes that were all acknowledged but the last. */
  function LastRefused(data: seq<byte>): seq<Token> {
    if data == [] then [] else AllAcked(data[..|data| - 1]) + [Byte(data[|data| - 1], false)]
  }

  lemma {:induction false} AckedReads(data: seq<byte>, k: nat)
    ensures Reads(Open(k, 0, 0), Acked(data), Open(k + |data|, 0, 0), AllAcked(data))
  {
    if data != [] {
      FrameReads(data[0], true, k);
      AckedReads(data[1..], k + 1);
      Joined(Open(k, 0, 0), Frame(data[0], true), Open(k + 1, 0, 0), [Byte(data[0], true)],
             Acked(data[1..]), Open(k + |data|, 0, 0), AllAcked(data[1..]));
      assert AllAcked(data) == [Byte(data[0], true)] + AllAcked(data[1..]);
    }
  }

  lemma LastRefusedReads(data: seq<byte>, k: nat)
    requires data != []
    ensures var n := |data| - 1;
      Reads(Open(k, 0, 0), Acked(data[..n]) + Frame(data[n], false), Open(k + |data|, 0, 0), LastRefused(data))
  {
    var n := |data| - 1;
    AckedReads(data[..n], k);
    FrameReads(data[n], false, k + n);
    Joined(Open(k, 0, 0), Acked(data[..n]), Open(k + n, 0, 0), AllAcked(data[..n]),
           Frame(data[n], false), Open(k + |data|, 0, 0), [Byte(data[n], false)]);
  }

  // ---------------------------------------------------------------- the calls

  datatype Op =
    | WriteOp(device: byte, control: byte, value: byte)
    | ReadOp(device: byte, control: byte)
    | MultipleWriteOp(device: byte, control: byte, data: seq<byte>)
    | MultipleReadOp(device: byte, control: byte, n: nat)

  /** Device addresses are write addresses. */
  predicate Proper(op: Op) {
    op.device % 2 == 0
  }

  function Outcome(s: Slave, op: Op): Transfer
    requires s.Valid() && Proper(op)
  {
    match op
    case WriteOp(device, control, value) => WriteTransfer(s, device, control, [value])
    case ReadOp(device, control) => SingleReadTransfer(s, device, control)
    case MultipleWriteOp(device, control, data) => WriteTransfer(s, device, control, data)
    case MultipleReadOp(device, control, n) => ReadTransfer(s, device, control, n)
  }

  /** Bytes acknowledged up to the one at `k`, if there is one. */
  function ToldUpTo(bytes: seq<byte>, k: nat): seq<Token>
    requires k <= |bytes|
  {
    AllAcked(bytes[..k]) + if k < |bytes| then [Byte(bytes[k], false)] else []
  }

  /** What a write says and hears: the bytes up to the first one refused. */
  function WriteTold(s: Slave, device: byte, control: byte, data: seq<byte>): seq<Token>
    requires s.Valid()
  {
    var all := [device, control] + data;
    ToldUpTo(all, Run(OnStart(s), all))
  }

  /** What a read says and hears, given the bytes it returned: a byte refused before those is the last. */
  function ReadTold(s: Slave, device: byte, control: byte, data: seq<byte>): seq<Token> {
    var b := device as int + 1;
    if device != s.id || !Willing(s.mood, 0) then [Byte(device, false)]
    else if !Willing(s.mood, 1) then [Byte(device, true), Byte(control, false)]
    else
      var header := [Byte(device, true), Byte(control, true), Began];
      if !Willing(s.mood, 2) then header + [Byte(b, false)] else header + [Byte(b, true)] + LastRefused(data)
  }

  /** What a call says and hears between its start and its stop: the bytes it was given, with the slave's answers, and
      the bytes it returned, with its own. */
  function Told(s: Slave, op: Op): seq<Token>
    requires s.Valid() && Proper(op)
  {
    match op
    case WriteOp(device, control, value) => WriteTold(s, device, control, [value])
    case MultipleWriteOp(device, control, data) => WriteTold(s, device, control, data)
    case ReadOp(device, control) => ReadTold(s, device, control, Outcome(s, op).data)
    case MultipleReadOp(device, control, n) => ReadTold(s, device, control, Outcome(s, op).data)
  }

  /** A single read whose address or register address is refused. */
  predicate ReadsInVain(s: Slave, op: Op) {
    op.ReadOp? && !TakesHeader(s, op.device)
  }

  /** A read of no bytes from a slave that takes the bytes before the data and whose next bit is a zero, which leaves
      the bus held. */
  predicate LeavesHeld(s: Slave, op: Op)
    requires s.Valid()
  {
    op.MultipleReadOp? && op.n == 0 && AnswersRead(s, op.device) && !BitOf(s.mem[op.control], 0)
  }

  // ---------------------------------------------------------------- what one call leaves in the log

  /** A message of one call, from its start to its stop. */
  function Message(told: seq<Token>): seq<Token> {
    [Began] + told + [Token.Ended]
  }

  lemma Wrapped(body: seq<Mark>, k: nat, told: seq<Token>)
    requires k > 0 && Reads(Open(0, 0, 0), body, Open(k, 0, 0), told)
    ensures Reads(Closed, [Start] + body + [Stop], Closed, Message(told))
  {
    StartReads(Closed);
    StopReads(k);
    Joined(Closed, [Start], Open(0, 0, 0), [Began], body, Open(k, 0, 0), told);
    Joined(Closed, [Start] + body, Open(k, 0, 0), [Began] + told, [Stop], Closed, [Token.Ended]);
  }

  lemma UpToReads(bytes: seq<byte>, k: nat)
    requires k <= |bytes|
    ensures var n := if k < |bytes| then k + 1 else k;
      Reads(Open(0, 0, 0), FramesUpTo(bytes, k), Open(n, 0, 0), ToldUpTo(bytes, k))
  {
    AckedReads(bytes[..k], 0);
    if k < |bytes| {
      FrameReads(bytes[k], false, k);
      Joined(Open(0, 0, 0), Acked(bytes[..k]), Open(k, 0, 0), AllAcked(bytes[..k]),
             Frame(bytes[k], false), Open(k + 1, 0, 0), [Byte(bytes[k], false)]);
    } else {
      assert Acked(bytes[..k]) + [] == Acked(bytes[..k]) && AllAcked(bytes[..k]) + [] == AllAcked(bytes[..k]);
    }
  }

  /** Two acknowledged bytes and whatever follows them. */
  lemma HeaderReads(a: byte, b: byte, rest: seq<Mark>, n: Monitor, told: seq<Token>)
    requires Reads(Open(2, 0, 0), rest, n, told)
    ensures Reads(Open(0, 0, 0), Frame(a, true) + (Frame(b, true) + rest), n, [Byte(a, true), Byte(b, true)] + told)
  {
    FrameReads(a, true, 0);
    FrameReads(b, true, 1);
    Joined(Open(1, 0, 0), Frame(b, true), Open(2, 0, 0), [Byte(b, true)], rest, n, told);
    Joined(Open(0, 0, 0), Frame(a, true), Open(1, 0, 0), [Byte(a, true)],
           Frame(b, true) + rest, n, [Byte(b, true)] + told);
    assert [Byte(a, true)] + ([Byte(b, true)] + told) == [Byte(a, true), Byte(b, true)] + told;
  }

  /** A header that is refused. */
  lemma RefusedHeaderReads(s: Slave, device: byte, control: byte)
    requires !TakesHeader(s, device)
    ensures var told := ReadTold(s, device, control, []);
      Reads(Open(0, 0, 0), RefusedHeader(s, device, control), Open(|told|, 0, 0), told) && |told| > 0
  {
    FrameReads(device, false, 0);
    if device == s.id && Willing(s.mood, 0) {
      FrameReads(device, true, 0);
      FrameReads(control, false, 1);
      Joined(Open(0, 0, 0), Frame(device, true), Open(1, 0, 0), [Byte(device, true)],
             Frame(control, false), Open(2, 0, 0), [Byte(control, false)]);
    }
  }

  /** Every write is one message, whatever the slave refuses. */
  lemma WriteIsMessage(s: Slave, device: byte, control: byte, data: seq<byte>)
    requires s.Valid() && device % 2 == 0
    ensures var t := WriteTransfer(s, device, control, data);
      t.stopped && Reads(Closed, t.marks, Closed, Message(WriteTold(s, device, control, data)))
  {
    var all := [device, control] + data;
    var k := Run(OnStart(s), all);
    WriteToSlave(s, device, control, data);
    UpToReads(all, k);
    Wrapped(FramesUpTo(all, k), if k < |all| then k + 1 else k, ToldUpTo(all, k));
  }

  /** The second half of a read, after two bytes of the first. */
  lemma SecondHalfReads(b: byte, ack: bool, rest: seq<Mark>, n: Monitor, told: seq<Token>)
    requires Reads(Open(1, 0, 0), rest, n, told)
    ensures Reads(Open(2, 0, 0), [Start] + (Frame(b, ack) + rest), n, [Began, Byte(b, ack)] + told)
  {
    StartReads(Open(2, 0, 0));
    FrameReads(b, ack, 0);
    Joined(Open(0, 0, 0), Frame(b, ack), Open(1, 0, 0), [Byte(b, ack)], rest, n, told);
    Joined(Open(2, 0, 0), [Start], Open(0, 0, 0), [Began], Frame(b, ack) + rest, n, [Byte(b, ack)] + told);
    assert [Began] + ([Byte(b, ack)] + told) == [Began, Byte(b, ack)] + told;
  }

  /** A whole read whose header was taken, up to its stop; `rest` is what the data bytes left. */
  lemma ReadBodyReads(device: byte, control: byte, ack: bool, rest: seq<Mark>, k: nat, told: seq<Token>)
    requires device < 255 && Reads(Open(1, 0, 0), rest, Open(k, 0, 0), told)
    ensures var b := device as int + 1;
      Reads(Open(0, 0, 0), Frame(device, true) + (Frame(control, true) + ([Start] + (Frame(b, ack) + rest))),
            Open(k, 0, 0), [Byte(device, true), Byte(control, true), Began] + [Byte(b, ack)] + told)
  {
    var b: byte := device as int + 1;
    SecondHalfReads(b, ack, rest, Open(k, 0, 0), told);
    HeaderReads(device, control, [Start] + (Frame(b, ack) + rest), Open(k, 0, 0), [Began, Byte(b, ack)] + told);
    assert [Byte(device, true), Byte(control, true)] + ([Began, Byte(b, ack)] + told)
        == [Byte(device, true), Byte(control, true), Began] + [Byte(b, ack)] + told;
  }

  lemma Regroup(a: seq<Mark>, b: seq<Mark>, c: seq<Mark>, d: seq<Mark>, e: seq<Mark>, f: seq<Mark>)
    ensures a + (b + c) + (d + e + f) == a + (b + (c + (d + (e + f))))
  {
  }

  lemma WholeReadReads(device: byte, control: byte, data: seq<byte>)
    requires device < 255 && data != []
    ensures var b, n := device as int + 1, |data|;
      var told := [Byte(device, true), Byte(control, true), Began] + [Byte(b, true)] + LastRefused(data);
      Reads(Closed, [Start] + (Frame(device, true) + Frame(control, true)) +
                      ([Start] + Frame(b, true) + (Acked(data[..n - 1]) + Frame(data[n - 1], false))) + [Stop],
            Closed, Message(told))
  {
    var b, n := device as int + 1, |data|;
    var rest := Acked(data[..n - 1]) + Frame(data[n - 1], false);
    LastRefusedReads(data, 1);
    ReadBodyReads(device, control, true, rest, n + 1, LastRefused(data));
    Wrapped(Frame(device, true) + (Frame(control, true) + ([Start] + (Frame(b, true) + rest))), n + 1,
            [Byte(device, true), Byte(control, true), Began] + [Byte(b, true)] + LastRefused(data));
    Regroup([Start], Frame(device, true), Frame(control, true), [Start], Frame(b, true), rest);
  }

  lemma ReadIsMessage(s: Slave, device: byte, control: byte, n: nat)
    requires s.Valid() && AnswersRead(s, device) && n > 0
    ensures var t := ReadTransfer(s, device, control, n);
      t.stopped && Reads(Closed, t.marks, Closed, Message(ReadTold(s, device, control, t.data)))
  {
    ReadOnTheWires(s, device, control, n);
    ReadFromSlave(s, device, control, n);
    WholeReadReads(device, control, ReadTransfer(s, device, control, n).data);
  }

  /** A read with nothing after the read address, before its stop. */
  lemma EmptyReadReads(device: byte, control: byte, ack: bool)
    requires device < 255
    ensures var b := device as int + 1;
      var body := Frame(device, true) + (Frame(control, true) + ([Start] + Frame(b, ack)));
      var told := [Byte(device, true), Byte(control, true), Began] + [Byte(b, ack)];
      && Reads(Open(0, 0, 0), body, Open(1, 0, 0), told) && Reads(Closed, [Start] + body, Open(1, 0, 0), [Began] + told)
      && [Start] + (Frame(device, true) + Frame(control, true)) + ([Start] + Frame(b, ack)) == [Start] + body
  {
    var b: byte := device as int + 1;
    var body := Frame(device, true) + (Frame(control, true) + ([Start] + Frame(b, ack)));
    var told := [Byte(device, true), Byte(control, true), Began] + [Byte(b, ack)];
    ReadBodyReads(device, control, ack, [], 1, []);
    assert Frame(b, ack) + [] == Frame(b, ack) && told + [] == told;
    StartReads(Closed);
    Joined(Closed, [Start], Open(0, 0, 0), [Began], body, Open(1, 0, 0), told);
    Regroup([Start], Frame(device, true), Frame(control, true), [Start], Frame(b, ack), []);
    assert [Start] + Frame(b, ack) + [] == [Start] + Frame(b, ack);
  }

  lemma EmptyReadIsMessage(s: Slave, device: byte, control: byte)
    requires s.Valid() && AnswersRead(s, device)
    ensures var t := ReadTransfer(s, device, control, 0);
      if t.stopped then Reads(Closed, t.marks, Closed, Message(ReadTold(s, device, control, t.data)))
      else After(Closed, t.marks) == Open(1, 0, 0)
  {
    var t, b := ReadTransfer(s, device, control, 0), device as int + 1;
    var told := [Byte(device, true), Byte(control, true), Began] + [Byte(b, true)];
    EmptyReadOnTheWires(s, device, control);
    EmptyReadReads(device, control, true);
    assert told + [] == told;
    if t.stopped {
      var body := Frame(device, true) + (Frame(control, true) + ([Start] + Frame(b, true)));
      Wrapped(body, 1, told);
    } else {
      var all := [Start] + (Frame(device, true) + Frame(control, true)) + ([Start] + Frame(b, true));
      assert t.marks == all + [] == all;
    }
  }

  /** A read that the slave does not answer, and that is not restarted in vain. */
  lemma RefusedReadIsMessage(s: Slave, device: byte, control: byte, n: nat)
    requires s.Valid() && device % 2 == 0 && !AnswersRead(s, device)
    ensures var t := ReadTransfer(s, device, control, n);
      t.stopped && Reads(Closed, t.marks, Closed, Message(ReadTold(s, device, control, t.data)))
  {
    if TakesHeader(s, device) {
      var b := device as int + 1;
      ReadAddressRefused(s, device, control, n);
      EmptyReadReads(device, control, false);
      Wrapped(Frame(device, true) + (Frame(control, true) + ([Start] + Frame(b, false))), 1,
              [Byte(device, true), Byte(control, true), Began] + [Byte(b, false)]);
    } else {
      var told := ReadTold(s, device, control, []);
      MultipleReadRefused(s, device, control, n);
      RefusedHeaderReads(s, device, control);
      Wrapped(RefusedHeader(s, device, control), |told|, told);
    }
  }

  /** A call that is no trouble leaves a message; one that is leaves a log no message ends. */
  lemma CallIsMessage(s: Slave, op: Op)
    requires s.Valid() && Proper(op) && !ReadsInVain(s, op)
    ensures var t := Outcome(s, op);
      && t.stopped == !LeavesHeld(s, op)
      && if t.stopped then Reads(Closed, t.marks, Closed, Message(Told(s, op))) else After(Closed, t.marks).Open?
  {
    match op
    case WriteOp(device, control, value) => WriteIsMessage(s, device, control, [value]);
    case MultipleWriteOp(device, control, data) => WriteIsMessage(s, device, control, data);
    case ReadOp(device, control) =>
      SingleReadIsReadOfOne(s, device, control);
      ReadTransferIsMessage(s, device, control, 1);
    case MultipleReadOp(device, control, n) =>
      ReadTransferIsMessage(s, device, control, n);
      EmptyReadStops(s, device, control);
  }

  lemma ReadTransferIsMessage(s: Slave, device: byte, control: byte, n: nat)
    requires s.Valid() && device % 2 == 0
    ensures var t := ReadTransfer(s, device, control, n);
      && (n > 0 ==> t.stopped)
      && if t.stopped then Reads(Closed, t.marks, Closed, Message(ReadTold(s, device, control, t.data)))
         else After(Closed, t.marks).Open?
  {
    if !AnswersRead(s, device) {
      RefusedReadIsMessage(s, device, control, n);
    } else if n > 0 {
      ReadIsMessage(s, device, control, n);
    } else {
      EmptyReadIsMessage(s, device, control);
    }
  }

  lemma VoidMessageBreaks(s: Slave, op: Op)
    requires s.Valid() && Proper(op) && ReadsInVain(s, op)
    ensures Outcome(s, op).stopped && After(Closed, Outcome(s, op).marks) == Broken
  {
    var body, told := RefusedHeader(s, op.device, op.control), ReadTold(s, op.device, op.control, []);
    SingleReadRefused(s, op.device, op.control);
    RefusedHeaderReads(s, op.device, op.control);
    StartReads(Closed);
    Joined(Closed, [Start], Open(0, 0, 0), [Began], body, Open(|told|, 0, 0), told);
    StartReads(Open(|told|, 0, 0));
    Joined(Closed, [Start] + body, Open(|told|, 0, 0), [Began] + told, [Start], Open(0, 0, 0), [Began]);
    OneMark(Open(0, 0, 0), Stop);
    ReadsOn(Closed, [Start] + body + [Start], [Stop]);
  }

  lemma OutcomeKeepsSlave(s: Slave, op: Op)
    requires s.Valid() && Proper(op)
    ensures Outcome(s, op).slave.Valid() && Outcome(s, op).slave.id == s.id
  {
    match op
    case WriteOp(device, control, value) => WriteKeepsSlave(s, device, control, [value]);
    case MultipleWriteOp(device, control, data) => WriteKeepsSlave(s, device, control, data);
    case ReadOp(device, control) => SingleReadKeepsSlave(s, device, control);
    case MultipleReadOp(device, control, n) => ReadKeepsSlave(s, device, control, n);
  }

  // ---------------------------------------------------------------- any sequence of calls

  /** The calls made, one after another from an idle bus: their outcomes, the log and the slave afterwards.  A call that
      leaves the bus held is the last; the master and the slave then drive SDA against each other. */
  datatype History = History(slave: Slave, log: seq<Mark>, outcomes: seq<Transfer>, held: bool)

  ghost function Calls(s: Slave, ops: seq<Op>): (h: History)
    requires s.Valid() && forall i :: 0 <= i < |ops| ==> Proper(ops[i])
    decreases |ops|
  {
    if ops == [] then History(s, [], [], false)
    else
      var t := Outcome(s, ops[0]);
      if !t.stopped then History(t.slave, t.marks, [t], true)
      else
        OutcomeKeepsSlave(s, ops[0]);
        var h := Calls(t.slave, ops[1..]);
        h.(log := t.marks + h.log, outcomes := [t] + h.outcomes)
  }

  /** What the calls say and hear: one message a call. */
  ghost function AllTold(s: Slave, ops: seq<Op>): seq<Token>
    requires s.Valid() && forall i :: 0 <= i < |ops| ==> Proper(ops[i])
    decreases |ops|
  {
    if ops == [] then []
    else
      OutcomeKeepsSlave(s, ops[0]);
      Message(Told(s, ops[0])) + AllTold(Outcome(s, ops[0]).slave, ops[1..])
  }

  /** No call made is a single read refused before its restart, and none leaves the bus held. */
  ghost predicate NoTrouble(s: Slave, ops: seq<Op>)
    requires s.Valid() && forall i :: 0 <= i < |ops| ==> Proper(ops[i])
    decreases |ops|
  {
    ops != [] ==>
      && !ReadsInVain(s, ops[0]) && !LeavesHeld(s, ops[0])
      && (OutcomeKeepsSlave(s, ops[0]); NoTrouble(Outcome(s, ops[0]).slave, ops[1..]))
  }

  /** The log of any sequence of calls, to a slave that may refuse any byte, is well formed exactly if no call made is a
      single read refused before its restart and none leaves the bus held; and then a monitor that sees only the wires
      reports exactly the bytes and the answers that the calls passed and returned, call by call. */
  lemma {:induction false} LogIsWellFormedExactlyWithoutTrouble(s: Slave, ops: seq<Op>)
    requires s.Valid() && forall i :: 0 <= i < |ops| ==> Proper(ops[i])
    ensures WellFormed(Calls(s, ops).log) <==> NoTrouble(s, ops)
    ensures NoTrouble(s, ops) ==> Report(Closed, Calls(s, ops).log) == AllTold(s, ops) && !Calls(s, ops).held
    decreases |ops|
  {
    if ops != [] {
      var op, t, rest := ops[0], Outcome(s, ops[0]), ops[1..];
      OutcomeKeepsSlave(s, op);
      if ReadsInVain(s, op) {
        VoidMessageBreaks(s, op);
        ReadsOn(Closed, t.marks, Calls(t.slave, rest).log);
        StaysBroken(Calls(t.slave, rest).log);
      } else {
        CallIsMessage(s, op);
        if t.stopped {
          LogIsWellFormedExactlyWithoutTrouble(t.slave, rest);
          ReadsOn(Closed, t.marks, Calls(t.slave, rest).log);
        }
      }
    }
  }

  // ---------------------------------------------------------------- the calls on the wires

  method MakeCall(bus: Bus, op: Op) returns (ok: bool, data: seq<byte>)
    requires Quiet(bus) && Proper(op)
    modifies bus
    ensures var t := Outcome(old(bus.slave), op);
      && ok == t.ok && data == t.data && bus.slave == t.slave && bus.log == old(bus.log) + t.marks
      && if t.stopped then IdleBus(bus) && bus.fought == old(bus.fought) else bus.slave.low
  {
    CallStops(bus.slave, op);
    data := [];
    match op
    case WriteOp(device, control, value) => ok := Write(bus, device, control, value);
    case MultipleWriteOp(device, control, bytes) => ok := MultipleWrite(bus, device, control, bytes);
    case ReadOp(device, control) => ok, data := Read(bus, device, control);
    case MultipleReadOp(device, control, n) => ok, data := MultipleRead(bus, device, control, n);
  }

  /** Only a read of no bytes can fail to stop; and what is not read is not returned. */
  lemma CallStops(s: Slave, op: Op)
    requires s.Valid() && Proper(op)
    ensures !op.MultipleReadOp? ==> Outcome(s, op).stopped
    ensures op.WriteOp? || op.MultipleWriteOp? ==> Outcome(s, op).data == []
  {
    if ReadsInVain(s, op) {
      VoidMessageBreaks(s, op);
    } else {
      CallIsMessage(s, op);
    }
  }

  /** The calls one after another, until one leaves the bus held. */
  method MakeCalls(bus: Bus, ops: seq<Op>) returns (results: seq<(bool, seq<byte>)>)
    requires Quiet(bus) && forall i :: 0 <= i < |ops| ==> Proper(ops[i])
    modifies bus
    ensures var h := Calls(old(bus.slave), ops);
      && bus.slave == h.slave && bus.log == old(bus.log) + h.log && |results| == |h.outcomes|
      && (forall i :: 0 <= i < |results| ==> results[i] == (h.outcomes[i].ok, h.outcomes[i].data))
      && (!h.held ==> Quiet(bus) && bus.fought == old(bus.fought))
    decreases |ops|
  {
    results := [];
    if ops != [] {
      ghost var log, s := bus.log, bus.slave;
      var ok, data := MakeCall(bus, ops[0]);
      results := [(ok, data)];
      if !bus.slave.low {
        var more := MakeCalls(bus, ops[1..]);
        JoinMarks(log, Outcome(s, ops[0]).marks, Calls(Outcome(s, ops[0]).slave, ops[1..]).log);
        results := results + more;
      }
    }
  }
}
