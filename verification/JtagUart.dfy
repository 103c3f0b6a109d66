/** The circular buffer both halves of the JTAG UART driver use. */
module UartRing {
  import opened Bytes

  const BUF_LEN: nat := 2048

  /** `head` is the driver's `out` index and `tail` its `in` index. */
  datatype Ring = Ring(buf: seq<byte>, head: nat, tail: nat) {
    ghost predicate Valid() {
      |buf| == BUF_LEN && head < BUF_LEN && tail < BUF_LEN
    }

    ghost function Contents(): (c: seq<byte>)
      requires Valid()
      ensures |c| == Ahead(head, tail)
    {
      if head <= tail then buf[head..tail] else buf[head..] + buf[..tail]
    }

    predicate Empty() {
      head == tail
    }

    predicate Full() {
      Wrap(tail + 1) == head
    }
  }

  function Wrap(i: nat): (j: nat)
    ensures j < BUF_LEN
    ensures i < BUF_LEN ==> j == i
    ensures BUF_LEN <= i < 2 * BUF_LEN ==> j == i - BUF_LEN
  {
    i % BUF_LEN
  }

  /** The number of bytes from `head` up to an index `i`. */
  function Ahead(head: nat, i: nat): int {
    if head <= i then i - head else BUF_LEN - head + i
  }

  /** The ring never uses its last slot, so full and empty are told apart by the indices. */
  lemma FullOrEmpty(r: Ring)
    requires r.Valid()
    ensures r.Full() <==> |r.Contents()| == BUF_LEN - 1
    ensures r.Empty() <==> r.Contents() == []
  {
  }

  /** Writing a free slot at or beyond `tail` leaves the contents alone. */
  lemma StoreBeyondTail(r: Ring, i: nat, b: byte)
    requires r.Valid() && r.tail <= i < BUF_LEN && |r.Contents()| + (i - r.tail) + 1 < BUF_LEN
    ensures r.(buf := r.buf[i := b]).Contents() == r.Contents()
  {
  }

  /** Advancing `tail` over `n` stored bytes appends them. */
  lemma PublishAppends(r: Ring, n: nat)
    requires r.Valid() && r.tail + n <= BUF_LEN && |r.Contents()| + n < BUF_LEN
    ensures r.(tail := Wrap(r.tail + n)).Contents() == r.Contents() + r.buf[r.tail..r.tail + n]
  {
    var next := r.tail + n;
    if r.head <= r.tail {
      JoinSlices(r.buf, r.head, r.tail, next);
      if next == BUF_LEN {
        assert r.buf[r.head..] == r.buf[r.head..next] && r.buf[..0] == [];
      }
    } else {
      JoinSlices(r.buf, 0, r.tail, next);
      Associate(r.buf[r.head..], r.buf[..r.tail], r.buf[r.tail..next]);
    }
  }

  lemma ConsumeInOneRun(r: Ring, n: nat)
    requires r.Valid() && r.head <= r.tail && n <= r.tail - r.head
    ensures r.buf[r.head..r.head + n] + r.(head := r.head + n).Contents() == r.Contents()
  {
    JoinSlices(r.buf, r.head, r.head + n, r.tail);
  }

  lemma ConsumeBeforeEnd(r: Ring, n: nat)
    requires r.Valid() && r.tail < r.head && r.head + n < BUF_LEN
    ensures r.buf[r.head..r.head + n] + r.(head := r.head + n).Contents() == r.Contents()
  {
    var next := r.head + n;
    JoinSlices(r.buf, r.head, next, BUF_LEN);
    Associate(r.buf[r.head..next], r.buf[next..BUF_LEN], r.buf[..r.tail]);
    assert r.buf[next..BUF_LEN] == r.buf[next..] && r.buf[r.head..BUF_LEN] == r.buf[r.head..];
  }

  lemma ConsumeToEnd(r: Ring)
    requires r.Valid() && r.tail < r.head
    ensures r.buf[r.head..BUF_LEN] + r.(head := 0).Contents() == r.Contents()
  {
    assert r.buf[r.head..BUF_LEN] == r.buf[r.head..] && r.buf[0..r.tail] == r.buf[..r.tail];
  }

  /** Advancing `head` over `n` bytes removes them from the front. */
  lemma ConsumeDrops(r: Ring, n: nat)
    requires r.Valid() && r.head + n <= BUF_LEN && n <= |r.Contents()|
    ensures r.buf[r.head..r.head + n] + r.(head := Wrap(r.head + n)).Contents() == r.Contents()
  {
    if r.head <= r.tail {
      ConsumeInOneRun(r, n);
    } else if r.head + n < BUF_LEN {
      ConsumeBeforeEnd(r, n);
    } else {
      ConsumeToEnd(r);
    }
  }

  /** Storing one byte at `tail` and advancing it appends the byte. */
  lemma PutAppends(r: Ring, b: byte)
    requires r.Valid() && !r.Full()
    ensures r.(buf := r.buf[r.tail := b], tail := Wrap(r.tail + 1)).Contents() == r.Contents() + [b]
  {
    FullOrEmpty(r);
    StoreBeyondTail(r, r.tail, b);
    PublishAppends(r.(buf := r.buf[r.tail := b]), 1);
  }
}

/** The transmit half: the writing thread, the transmit ring, the WE bit and the hardware transmit FIFO. */
module UartTx {
  import opened Bytes
  import opened Errno
  import opened UartRing
  import opened Words

  const TX_DEPTH: nat := 64

  /** Where the writing thread is; each name stands for the statement about to execute. */
  datatype Pc =
    | Idle      // outside the driver, or just returned
    | Test      // while (count > 0), and in = tx_in
    | SnapOut   // out = tx_out, and the space computation
    | Copy      // one byte of the memcpy, or the end of it
    | Publish   // tx_in = (in + n) % BUF_LEN
    | Enable    // the critical section that sets WE
    | Check     // if (count > 0) ... if (flags & O_NONBLOCK)
    | Spin      // while (out == tx_out && host_inactive < timeout)
    | Recheck   // if (out == tx_out) break

  /** `mark` is `ptr` when this call last set WE, `first` the length of the history when the call began, and
      `gone` whether the spin was left because the host was declared inactive. */
  datatype Writer = Writer(pc: Pc, src: seq<byte>, nonblock: bool, ptr: nat, inn: nat, out: nat, n: int, k: nat,
                           mark: nat, first: nat, gone: bool, rc: int)
  {
    function Count(): int {
      |src| - ptr
    }
  }

  datatype Side = Side(ring: Ring, we: bool, fifo: seq<byte>, w: Writer, accepted: seq<byte>, hostGot: seq<byte>)

  /** The space the writer computes from its two snapshots. */
  function WriteRun(inn: nat, out: nat): int {
    if inn < out then out - 1 - inn
    else if out > 0 then BUF_LEN - inn
    else BUF_LEN - 1 - inn
  }

  /** One step of the writing thread; `gone` is host_inactive >= timeout. */
  function Step(t: Side, gone: bool): Side
    requires Inv(t)
  {
    var w := t.w;
    match w.pc
    case Copy => if w.k < w.n then Stored(t) else t.(w := w.(pc := Publish))
    case Publish => Published(t)
    case Enable => t.(we := true, w := w.(pc := Check, mark := w.ptr))
    case _ => t.(w := Control(w, t.ring, gone))
  }

  function Stored(t: Side): Side
    requires t.w.inn + t.w.k < |t.ring.buf| && t.w.ptr + t.w.k < |t.w.src|
  {
    var w := t.w;
    t.(ring := t.ring.(buf := t.ring.buf[w.inn + w.k := w.src[w.ptr + w.k]]), w := w.(k := w.k + 1))
  }

  function Published(t: Side): Side
    requires t.w.n > 0 && t.w.ptr + t.w.n <= |t.w.src|
  {
    var w := t.w;
    t.(ring := t.ring.(tail := Wrap(w.inn + w.n)), accepted := t.accepted + w.src[w.ptr..w.ptr + w.n], w := Advance(w))
  }

  /** The steps that touch only the thread's own variables. */
  function Control(w: Writer, ring: Ring, gone: bool): Writer
    requires ring.Valid() && (w.pc.SnapOut? ==> w.inn == ring.tail && w.Count() > 0)
  {
    match w.pc
    case Test => if w.Count() > 0 then w.(pc := SnapOut, inn := ring.tail) else w.(pc := Enable)
    case SnapOut =>
      var out := ring.head;
      var n := WriteRun(w.inn, out);
      if n == 0 then w.(pc := Enable, out := out) else w.(pc := Copy, out := out, n := Min(n, w.Count()), k := 0)
    case Check => if w.Count() <= 0 || w.nonblock then Return(w) else w.(pc := Spin)
    case Spin => if w.out == ring.head && !gone then w else w.(pc := Recheck, gone := w.out == ring.head)
    case Recheck => if w.out == ring.head then Return(w) else w.(pc := Test)
    case _ => w
  }

  function Advance(w: Writer): Writer
    requires w.n > 0
  {
    w.(pc := Test, ptr := w.ptr + w.n)
  }

  function Return(w: Writer): Writer {
    w.(pc := Idle, rc := if w.ptr != 0 then w.ptr else if w.nonblock then -EWOULDBLOCK else -EIO)
  }

  function Call(t: Side, src: seq<byte>, nonblock: bool): Side {
    t.(w := Writer(Test, src, nonblock, 0, 0, 0, 0, 0, 0, |t.accepted|, false, 0))
  }

  /** The interrupt routine moves the oldest byte of the ring to the hardware FIFO, where a push into a full FIFO
      is silently lost. */
  function Push(t: Side): Side
    requires t.ring.Valid()
  {
    t.(fifo := if |t.fifo| < TX_DEPTH then t.fifo + [t.ring.buf[t.ring.head]] else t.fifo,
       ring := t.ring.(head := Wrap(t.ring.head + 1)))
  }

  function Disable(t: Side): Side {
    t.(we := false)
  }

  function HostTakes(t: Side): Side {
    if t.fifo == [] then t else t.(fifo := t.fifo[1..], hostGot := t.hostGot + [t.fifo[0]])
  }

  // ---------------------------------------------------------------- what every step keeps

  /** No accepted byte is lost, duplicated or reordered on its way to the host. */
  ghost predicate Flow(ring: Ring, fifo: seq<byte>, accepted: seq<byte>, hostGot: seq<byte>) {
    ring.Valid() && accepted == hostGot + fifo + ring.Contents() && |fifo| <= TX_DEPTH
  }

  ghost predicate WriterInv(w: Writer, ring: Ring, accepted: seq<byte>)
    requires ring.Valid()
  {
    && w.mark <= w.ptr <= |w.src| && w.first <= |accepted|
    && accepted[w.first..] == w.src[..w.ptr]
    && (w.pc.SnapOut? ==> w.inn == ring.tail && w.Count() > 0)
    && (w.pc.Copy? || w.pc.Publish? ==> Copying(w, ring))
    && (w.pc.Publish? ==> w.k == w.n)
    && ((w.pc.Enable? || w.pc.Check? || w.pc.Idle?) && w.Count() > 0 ==> Wrap(ring.tail + 1) == w.out)
    && (w.pc.Spin? || w.pc.Recheck? ==> w.Count() > 0 && !w.nonblock && Wrap(ring.tail + 1) == w.out)
    && (w.pc.Recheck? && !w.gone ==> ring.head != w.out)
    && (w.pc.Idle? ==> Result(w))
  }

  /** The slots being filled are free, whatever the interrupt routine has done since the snapshots. */
  ghost predicate Copying(w: Writer, ring: Ring)
    requires ring.Valid() && w.ptr <= |w.src|
  {
    && w.inn == ring.tail && 0 < w.n <= w.Count() && w.k <= w.n
    && w.inn + w.n <= BUF_LEN && Ahead(ring.head, ring.tail) + w.n < BUF_LEN
    && ring.buf[w.inn..w.inn + w.k] == w.src[w.ptr..w.ptr + w.k]
  }

  /** What a finished call reports; only a host declared inactive makes a blocking call give up early. */
  ghost predicate Result(w: Writer) {
    && w.rc == (if w.ptr != 0 then w.ptr else if w.nonblock then -EWOULDBLOCK else -EIO)
    && (!w.nonblock && w.ptr < |w.src| ==> w.gone)
  }

  /** A byte waits in the ring with WE off only while the writer has published bytes and is still to set WE. */
  ghost predicate Wake(ring: Ring, we: bool, w: Writer) {
    !ring.Empty() && !we ==> BeforeEnable(w.pc) && w.mark < w.ptr
  }

  predicate BeforeEnable(pc: Pc) {
    pc.Test? || pc.SnapOut? || pc.Copy? || pc.Publish? || pc.Enable?
  }

  ghost predicate Inv(t: Side) {
    Flow(t.ring, t.fifo, t.accepted, t.hostGot) && WriterInv(t.w, t.ring, t.accepted) && Wake(t.ring, t.we, t.w)
  }

  lemma StoreKeepsCopying(w: Writer, ring: Ring)
    requires ring.Valid() && w.ptr <= |w.src| && Copying(w, ring) && w.k < w.n
    ensures Copying(w.(k := w.k + 1), ring.(buf := ring.buf[w.inn + w.k := w.src[w.ptr + w.k]]))
  {
    assert w.src[w.ptr..w.ptr + w.k + 1] == w.src[w.ptr..w.ptr + w.k] + [w.src[w.ptr + w.k]];
  }

  lemma StoreKeepsFlow(t: Side)
    requires Flow(t.ring, t.fifo, t.accepted, t.hostGot)
    requires t.w.ptr <= |t.w.src| && Copying(t.w, t.ring) && t.w.k < t.w.n
    ensures var u := Stored(t); Flow(u.ring, u.fifo, u.accepted, u.hostGot)
  {
    StoreBeyondTail(t.ring, t.w.inn + t.w.k, t.w.src[t.w.ptr + t.w.k]);
  }

  lemma StoreKeepsWriter(t: Side)
    requires t.ring.Valid() && WriterInv(t.w, t.ring, t.accepted) && t.w.pc.Copy? && t.w.k < t.w.n
    ensures var u := Stored(t); u.ring.Valid() && WriterInv(u.w, u.ring, u.accepted)
  {
    StoreKeepsCopying(t.w, t.ring);
  }

  lemma StoreKeeps(t: Side)
    requires Inv(t) && t.w.pc.Copy? && t.w.k < t.w.n
    ensures Inv(Stored(t))
  {
    StoreKeepsFlow(t);
    StoreKeepsWriter(t);
  }

  lemma CopyIsStore(t: Side, gone: bool)
    requires Inv(t) && t.w.pc.Copy? && t.w.k < t.w.n
    ensures Step(t, gone) == Stored(t)
  {
  }

  lemma CopyEnds(t: Side, gone: bool)
    requires Inv(t) && t.w.pc.Copy? && t.w.k >= t.w.n
    ensures Inv(Step(t, gone))
  {
  }

  lemma CopyKeeps(t: Side, gone: bool)
    requires Inv(t) && t.w.pc.Copy?
    ensures Inv(Step(t, gone))
  {
    if t.w.k < t.w.n {
      CopyIsStore(t, gone);
      StoreKeeps(t);
    } else {
      CopyEnds(t, gone);
    }
  }

  lemma PublishKeepsFlow(t: Side)
    requires Flow(t.ring, t.fifo, t.accepted, t.hostGot)
    requires t.w.ptr <= |t.w.src| && Copying(t.w, t.ring) && t.w.k == t.w.n
    ensures var u := Published(t); Flow(u.ring, u.fifo, u.accepted, u.hostGot)
  {
    GrowKeepsFlow(t.ring, t.fifo, t.accepted, t.hostGot, t.w.src[t.w.ptr..t.w.ptr + t.w.n]);
  }

  lemma GrowKeepsFlow(ring: Ring, fifo: seq<byte>, accepted: seq<byte>, hostGot: seq<byte>, stored: seq<byte>)
    requires Flow(ring, fifo, accepted, hostGot) && |ring.Contents()| + |stored| < BUF_LEN
    requires ring.tail + |stored| <= BUF_LEN && stored == ring.buf[ring.tail..ring.tail + |stored|]
    ensures Flow(ring.(tail := Wrap(ring.tail + |stored|)), fifo, accepted + stored, hostGot)
  {
    var next := ring.(tail := Wrap(ring.tail + |stored|));
    PublishAppends(ring, |stored|);
    GrowBack(accepted, hostGot, fifo, ring.Contents(), stored, next.Contents());
  }

  lemma AdvanceKeeps(w: Writer, ring: Ring, accepted: seq<byte>)
    requires ring.Valid() && WriterInv(w, ring, accepted) && w.pc.Publish?
    ensures WriterInv(Advance(w), ring.(tail := Wrap(w.inn + w.n)), accepted + w.src[w.ptr..w.ptr + w.n])
    ensures Advance(w).mark < Advance(w).ptr
  {
    DropAppended(accepted, w.src[w.ptr..w.ptr + w.n], w.first);
    TakeMore(w.src, w.ptr, w.n);
  }

  lemma PublishIsPublished(t: Side, gone: bool)
    requires Inv(t) && t.w.pc.Publish?
    ensures Step(t, gone) == Published(t)
  {
  }

  lemma PublishKeepsWriter(t: Side)
    requires t.ring.Valid() && WriterInv(t.w, t.ring, t.accepted) && t.w.pc.Publish?
    ensures var u := Published(t); u.ring.Valid() && WriterInv(u.w, u.ring, u.accepted) && Wake(u.ring, u.we, u.w)
  {
    AdvanceKeeps(t.w, t.ring, t.accepted);
  }

  lemma PublishKeeps(t: Side)
    requires Inv(t) && t.w.pc.Publish?
    ensures Inv(Published(t))
  {
    PublishKeepsFlow(t);
    PublishKeepsWriter(t);
  }

  lemma ControlKeeps(w: Writer, ring: Ring, accepted: seq<byte>, gone: bool)
    requires ring.Valid() && WriterInv(w, ring, accepted) && !w.pc.Copy? && !w.pc.Publish? && !w.pc.Enable?
    ensures WriterInv(Control(w, ring, gone), ring, accepted)
  {
  }

  lemma ControlKeepsWake(t: Side, gone: bool)
    requires Inv(t) && !t.w.pc.Copy? && !t.w.pc.Publish? && !t.w.pc.Enable?
    ensures Wake(t.ring, t.we, Control(t.w, t.ring, gone))
  {
  }

  lemma StepKeeps(t: Side, gone: bool)
    requires Inv(t)
    ensures Inv(Step(t, gone))
  {
    match t.w.pc
    case Copy => CopyKeeps(t, gone);
    case Publish => PublishKeeps(t);
    case Enable =>
    case _ =>
      ControlKeeps(t.w, t.ring, t.accepted, gone);
      ControlKeepsWake(t, gone);
  }

  lemma CallKeeps(t: Side, src: seq<byte>, nonblock: bool)
    requires Inv(t) && t.w.pc.Idle?
    ensures Inv(Call(t, src, nonblock))
  {
  }

  /** The writer's snapshots stay usable when the interrupt routine takes a byte away. */
  lemma WriterSurvivesPush(w: Writer, ring: Ring, accepted: seq<byte>)
    requires ring.Valid() && WriterInv(w, ring, accepted) && !ring.Empty()
    ensures WriterInv(w, ring.(head := Wrap(ring.head + 1)), accepted)
  {
  }

  lemma PushKeepsFlow(ring: Ring, fifo: seq<byte>, accepted: seq<byte>, hostGot: seq<byte>)
    requires Flow(ring, fifo, accepted, hostGot) && !ring.Empty() && |fifo| < TX_DEPTH
    ensures Flow(ring.(head := Wrap(ring.head + 1)), fifo + [ring.buf[ring.head]], accepted, hostGot)
    ensures ring.Contents()[0] == ring.buf[ring.head]
  {
    FullOrEmpty(ring);
    ConsumeDrops(ring, 1);
    var b := ring.buf[ring.head];
    assert ring.buf[ring.head..ring.head + 1] == [b];
    MoveAcross(hostGot, fifo, [b], ring.(head := Wrap(ring.head + 1)).Contents());
  }

  lemma PushKeeps(t: Side)
    requires Inv(t) && !t.ring.Empty() && |t.fifo| < TX_DEPTH
    ensures Inv(Push(t))
    ensures Push(t).fifo == t.fifo + [t.ring.Contents()[0]]
  {
    PushKeepsFlow(t.ring, t.fifo, t.accepted, t.hostGot);
    WriterSurvivesPush(t.w, t.ring, t.accepted);
  }

  lemma DisableKeeps(t: Side)
    requires Inv(t) && t.ring.Empty()
    ensures Inv(Disable(t))
  {
  }

  lemma HostTakesKeeps(t: Side)
    requires Inv(t)
    ensures Inv(HostTakes(t))
  {
    if t.fifo != [] {
      assert t.hostGot + t.fifo == t.hostGot + [t.fifo[0]] + t.fifo[1..];
    }
  }

  /** What a returned write has to show: it has accepted exactly the prefix of the caller's buffer whose length it
      reports (a negative report means none), and it stops short only with the ring full up to the `tx_out` it last
      sampled, and then only in non-blocking mode or when the host was declared inactive. */
  ghost predicate Reports(w: Writer, ring: Ring, accepted: seq<byte>) {
    && w.ptr <= |w.src| && w.first + w.ptr == |accepted| && accepted[w.first..] == w.src[..w.ptr]
    && w.rc == (if w.ptr > 0 then w.ptr else if w.nonblock then -EWOULDBLOCK else -EIO)
    && (w.ptr < |w.src| ==> Wrap(ring.tail + 1) == w.out && (w.nonblock || w.gone))
  }

  lemma LastCall(t: Side)
    requires Inv(t) && t.w.pc.Idle?
    ensures Reports(t.w, t.ring, t.accepted)
  {
    assert |t.accepted[t.w.first..]| == |t.w.src[..t.w.ptr]|;
  }
}

/** The receive half: the reading thread, the receive ring, the RE bit and the hardware receive FIFO. */
module UartRx {
  import opened Bytes
  import opened Errno
  import opened UartRing
  import opened Words

  const RX_DEPTH: nat := 64

  /** Where the reading thread is; each name stands for the statement about to execute. */
  datatype Pc =
    | Idle      // outside the driver, or just returned
    | Test      // while (space > 0)
    | SnapIn    // in = rx_in
    | SnapOut   // out = rx_out, and the length computation
    | Copy      // one byte of the memcpy, or the end of it
    | Publish   // rx_out = (out + n) % BUF_LEN
    | Decide    // if (ptr != buffer) ... if (flags & O_NONBLOCK)
    | Spin      // while (in == rx_in && host_inactive < timeout)
    | Recheck   // if (in == rx_in) break
    | Finish    // if (ptr != buffer): the critical section that sets RE

  /** `got` is the caller's buffer up to `ptr`, `chunk` what the running memcpy has moved so far, `first` the
      length of the history when the call began. */
  datatype Reader = Reader(pc: Pc, cap: nat, nonblock: bool, got: seq<byte>, chunk: seq<byte>, inn: nat, out: nat,
                           n: int, first: nat, gone: bool, rc: int)
  {
    function Space(): int {
      cap - |got|
    }
  }

  datatype Side = Side(ring: Ring, re: bool, fifo: seq<byte>, r: Reader, hostSent: seq<byte>, delivered: seq<byte>)

  /** The run of bytes the reader computes from its two snapshots. */
  function ReadRun(inn: nat, out: nat): int {
    if inn >= out then inn - out else BUF_LEN - out
  }

  /** One step of the reading thread; `gone` is host_inactive >= timeout. */
  function Step(t: Side, gone: bool): Side
    requires Inv(t)
  {
    var r := t.r;
    match r.pc
    case Publish => Published(t)
    case Finish => t.(re := t.re || r.got != [], r := Return(r))
    case _ => t.(r := Control(r, t.ring, gone))
  }

  function Published(t: Side): Side
    requires t.r.n >= 0
  {
    t.(ring := t.ring.(head := Wrap(t.r.out + t.r.n)), delivered := t.delivered + t.r.chunk, r := Advance(t.r))
  }

  /** The steps that touch only the thread's own variables. */
  function Control(r: Reader, ring: Ring, gone: bool): Reader
    requires ring.Valid() && (r.pc.Copy? ==> Copying(r, ring))
  {
    match r.pc
    case Test => r.(pc := if r.Space() > 0 then SnapIn else Finish)
    case SnapIn => r.(pc := SnapOut, inn := ring.tail)
    case SnapOut =>
      var out := ring.head;
      var n := ReadRun(r.inn, out);
      if n == 0 then r.(pc := Decide, out := out) else r.(pc := Copy, out := out, n := Min(n, r.Space()), chunk := [])
    case Copy =>
      if |r.chunk| < r.n then r.(chunk := r.chunk + [ring.buf[r.out + |r.chunk|]]) else r.(pc := Publish)
    case Decide => r.(pc := if r.got != [] || r.nonblock then Finish else Spin)
    case Spin => if r.inn == ring.tail && !gone then r else r.(pc := Recheck, gone := r.inn == ring.tail)
    case Recheck => r.(pc := if r.inn == ring.tail then Finish else Test)
    case _ => r
  }

  function Advance(r: Reader): Reader {
    r.(pc := if |r.got + r.chunk| < r.cap then SnapIn else Decide, got := r.got + r.chunk)
  }

  function Return(r: Reader): Reader {
    r.(pc := Idle, rc := if r.got != [] then |r.got| else if r.nonblock then -EWOULDBLOCK else -EIO)
  }

  function Call(t: Side, cap: nat, nonblock: bool): Side {
    t.(r := Reader(Test, cap, nonblock, [], [], 0, 0, 0, |t.delivered|, false, 0))
  }

  /** The interrupt routine moves the oldest byte of the hardware FIFO to the ring. */
  function Pop(t: Side): Side
    requires t.ring.Valid() && t.fifo != []
  {
    t.(ring := t.ring.(buf := t.ring.buf[t.ring.tail := t.fifo[0]], tail := Wrap(t.ring.tail + 1)), fifo := t.fifo[1..])
  }

  function Disable(t: Side): Side {
    t.(re := false)
  }

  /** The host is held off while the hardware FIFO is full. */
  function HostSends(t: Side, b: byte): Side {
    if |t.fifo| >= RX_DEPTH then t else t.(fifo := t.fifo + [b], hostSent := t.hostSent + [b])
  }

  // ---------------------------------------------------------------- what every step keeps

  /** No byte the host sent is lost, duplicated or reordered on its way to the readers. */
  ghost predicate Flow(ring: Ring, fifo: seq<byte>, hostSent: seq<byte>, delivered: seq<byte>) {
    ring.Valid() && hostSent == delivered + ring.Contents() + fifo && |fifo| <= RX_DEPTH
  }

  ghost predicate ReaderInv(r: Reader, ring: Ring, delivered: seq<byte>)
    requires ring.Valid()
  {
    && |r.got| <= r.cap && r.first <= |delivered|
    && delivered[r.first..] == r.got
    && (r.pc.SnapIn? || r.pc.SnapOut? ==> r.Space() > 0)
    && (r.pc.SnapOut? ==> r.inn < BUF_LEN && Ahead(ring.head, r.inn) <= Ahead(ring.head, ring.tail))
    && (r.pc.Copy? || r.pc.Publish? ==> Copying(r, ring))
    && (r.pc.Publish? ==> |r.chunk| == r.n)
    && (r.pc.Decide? && r.got == [] ==> r.cap > 0)
    && ((r.pc.Decide? || r.pc.Finish? || r.pc.Idle?) && |r.got| < r.cap ==> r.inn == ring.head)
    && (r.pc.Spin? || r.pc.Recheck? ==> r.got == [] && !r.nonblock && r.inn == ring.head && r.cap > 0)
    && (r.pc.Recheck? && !r.gone ==> !ring.Empty())
    && (r.pc.Finish? || r.pc.Idle? ==> r.got == [] && !r.nonblock && r.cap > 0 ==> r.gone)
    && (r.pc.Idle? ==> r.rc == Return(r).rc)
  }

  /** The slots being copied out hold the oldest bytes of the ring: none has been overwritten. */
  ghost predicate Copying(r: Reader, ring: Ring)
    requires ring.Valid()
  {
    && r.out == ring.head && 0 < r.n <= r.Space() && |r.chunk| <= r.n
    && r.out + r.n <= BUF_LEN && r.n <= Ahead(ring.head, ring.tail)
    && r.chunk == ring.buf[r.out..r.out + |r.chunk|]
  }

  /** RE is off only while the ring is full, or the reader has taken bytes and is still to set RE. */
  ghost predicate Wake(ring: Ring, re: bool, r: Reader) {
    !re ==> ring.Full() || (!r.pc.Idle? && r.got != [])
  }

  ghost predicate Inv(t: Side) {
    Flow(t.ring, t.fifo, t.hostSent, t.delivered) && ReaderInv(t.r, t.ring, t.delivered) && Wake(t.ring, t.re, t.r)
  }

  lemma ConsumeKeepsFlow(ring: Ring, fifo: seq<byte>, hostSent: seq<byte>, delivered: seq<byte>, chunk: seq<byte>)
    requires Flow(ring, fifo, hostSent, delivered) && |chunk| <= |ring.Contents()|
    requires ring.head + |chunk| <= BUF_LEN && chunk == ring.buf[ring.head..ring.head + |chunk|]
    ensures Flow(ring.(head := Wrap(ring.head + |chunk|)), fifo, hostSent, delivered + chunk)
  {
    var next := ring.(head := Wrap(ring.head + |chunk|));
    ConsumeDrops(ring, |chunk|);
    ShiftFront(hostSent, delivered, ring.Contents(), fifo, chunk, next.Contents());
  }

  lemma AdvanceKeeps(r: Reader, ring: Ring, delivered: seq<byte>)
    requires ring.Valid() && ReaderInv(r, ring, delivered) && r.pc.Publish?
    ensures Advance(r).got != [] && !Advance(r).pc.Idle?
    ensures ReaderInv(Advance(r), ring.(head := Wrap(r.out + r.n)), delivered + r.chunk)
  {
    DropAppended(delivered, r.chunk, r.first);
  }

  lemma GiveBackKeepsFlow(ring: Ring, fifo: seq<byte>, hostSent: seq<byte>, delivered: seq<byte>, r: Reader)
    requires Flow(ring, fifo, hostSent, delivered) && Copying(r, ring) && |r.chunk| == r.n
    ensures Flow(ring.(head := Wrap(r.out + r.n)), fifo, hostSent, delivered + r.chunk)
  {
    ChunkIsFront(r, ring);
    ConsumeKeepsFlow(ring, fifo, hostSent, delivered, r.chunk);
  }

  lemma PublishKeepsFlow(t: Side)
    requires Flow(t.ring, t.fifo, t.hostSent, t.delivered) && Copying(t.r, t.ring) && |t.r.chunk| == t.r.n
    ensures var u := Published(t); Flow(u.ring, u.fifo, u.hostSent, u.delivered)
  {
    GiveBackKeepsFlow(t.ring, t.fifo, t.hostSent, t.delivered, t.r);
  }

  lemma PublishKeepsReader(t: Side)
    requires t.ring.Valid() && ReaderInv(t.r, t.ring, t.delivered) && t.r.pc.Publish?
    ensures var u := Published(t); u.ring.Valid() && ReaderInv(u.r, u.ring, u.delivered) && Wake(u.ring, u.re, u.r)
  {
    AdvanceKeeps(t.r, t.ring, t.delivered);
  }

  lemma PublishKeeps(t: Side)
    requires Inv(t) && t.r.pc.Publish?
    ensures Inv(Published(t))
  {
    PublishKeepsFlow(t);
    PublishKeepsReader(t);
  }

  lemma ChunkIsFront(r: Reader, ring: Ring)
    requires ring.Valid() && Copying(r, ring) && |r.chunk| == r.n
    ensures ring.buf[ring.head..ring.head + r.n] == r.chunk
  {
  }

  lemma SnapOutKeeps(r: Reader, ring: Ring, delivered: seq<byte>, gone: bool)
    requires ring.Valid() && ReaderInv(r, ring, delivered) && r.pc.SnapOut?
    ensures ReaderInv(Control(r, ring, gone), ring, delivered)
  {
  }

  lemma CopyKeeps(r: Reader, ring: Ring, delivered: seq<byte>, gone: bool)
    requires ring.Valid() && ReaderInv(r, ring, delivered) && r.pc.Copy?
    ensures ReaderInv(Control(r, ring, gone), ring, delivered)
  {
    if |r.chunk| < r.n {
      var k := |r.chunk|;
      assert ring.buf[r.out..r.out + k + 1] == ring.buf[r.out..r.out + k] + [ring.buf[r.out + k]];
    }
  }

  lemma ControlKeeps(r: Reader, ring: Ring, delivered: seq<byte>, gone: bool)
    requires ring.Valid() && ReaderInv(r, ring, delivered)
    requires !r.pc.SnapOut? && !r.pc.Copy? && !r.pc.Publish? && !r.pc.Finish?
    ensures ReaderInv(Control(r, ring, gone), ring, delivered)
  {
  }

  lemma FinishKeeps(r: Reader, ring: Ring, delivered: seq<byte>)
    requires ring.Valid() && ReaderInv(r, ring, delivered) && r.pc.Finish?
    ensures ReaderInv(Return(r), ring, delivered)
  {
  }

  lemma ControlKeepsWake(r: Reader, ring: Ring, re: bool, gone: bool)
    requires ring.Valid() && (r.pc.Copy? ==> Copying(r, ring)) && Wake(ring, re, r) && !r.pc.Publish? && !r.pc.Finish?
    ensures Wake(ring, re, Control(r, ring, gone))
  {
  }

  lemma OwnStepKeeps(t: Side, gone: bool)
    requires Inv(t) && !t.r.pc.Publish? && !t.r.pc.Finish?
    ensures Inv(Step(t, gone))
  {
    match t.r.pc {
      case SnapOut => SnapOutKeeps(t.r, t.ring, t.delivered, gone);
      case Copy => CopyKeeps(t.r, t.ring, t.delivered, gone);
      case _ => ControlKeeps(t.r, t.ring, t.delivered, gone);
    }
    ControlKeepsWake(t.r, t.ring, t.re, gone);
  }

  lemma StepKeeps(t: Side, gone: bool)
    requires Inv(t)
    ensures Inv(Step(t, gone))
  {
    if t.r.pc.Publish? {
      PublishKeeps(t);
    } else if t.r.pc.Finish? {
      FinishKeeps(t.r, t.ring, t.delivered);
    } else {
      OwnStepKeeps(t, gone);
    }
  }

  lemma CallKeeps(t: Side, cap: nat, nonblock: bool)
    requires Inv(t) && t.r.pc.Idle?
    ensures Inv(Call(t, cap, nonblock))
  {
  }

  /** The reader's snapshots and the slots it copies survive a store by the interrupt routine. */
  lemma ReaderSurvivesPop(r: Reader, ring: Ring, b: byte, delivered: seq<byte>)
    requires ring.Valid() && ReaderInv(r, ring, delivered) && !ring.Full()
    ensures ReaderInv(r, ring.(buf := ring.buf[ring.tail := b], tail := Wrap(ring.tail + 1)), delivered)
  {
  }

  lemma PopKeeps(t: Side)
    requires Inv(t) && !t.ring.Full() && t.fifo != []
    ensures Inv(Pop(t))
    ensures Pop(t).ring.Contents() == t.ring.Contents() + [t.fifo[0]]
  {
    PutAppends(t.ring, t.fifo[0]);
    ReaderSurvivesPop(t.r, t.ring, t.fifo[0], t.delivered);
    MoveAcross(t.delivered, t.ring.Contents(), [t.fifo[0]], t.fifo[1..]);
  }

  lemma DisableKeeps(t: Side)
    requires Inv(t) && t.ring.Full()
    ensures Inv(Disable(t))
  {
  }

  lemma HostSendsKeeps(t: Side, b: byte)
    requires Inv(t)
    ensures Inv(HostSends(t, b))
  {
    if |t.fifo| < RX_DEPTH {
      AppendInner(t.delivered, t.ring.Contents(), t.fifo, [b]);
    }
  }

  /** What a returned read has to show: it hands over exactly the bytes delivered during the call, never more than the
      caller's buffer holds; it returns less than that only when the `rx_in` it sampled met `rx_out`, and a blocking
      read returns nothing only when the host was declared inactive. */
  ghost predicate Reports(r: Reader, ring: Ring, delivered: seq<byte>) {
    && r.first <= |delivered| && delivered[r.first..] == r.got && |r.got| <= r.cap
    && r.rc == (if |r.got| > 0 then |r.got| else if r.nonblock then -EWOULDBLOCK else -EIO)
    && (|r.got| < r.cap ==> r.inn == ring.head)
    && (r.got == [] && r.cap > 0 ==> r.nonblock || r.gone)
  }
}

/** The whole driver: both halves, the interrupt routine that serves them, the timer and the host.

    One event is one access to shared memory or one critical section, and a run is any sequence of events, so
    every interleaving of the two threads, the interrupt routine, the timer and the host is a run.  The interrupt
    routine itself is a sequence of steps; threads and the timer do not run until it has returned. */
module JtagUart {
  import opened Bytes
  import opened Errno
  import opened UartRing
  import UartTx
  import UartRx

  const INT_MAX: int := 0x7fff_ffff

  datatype IsrPc =
    | Off
    | Control   // control = IORD(CONTROL)
    | RxRoom    // next = (rx_in + 1) % BUF_LEN, and the comparison with rx_out
    | RxPop     // data = IORD(DATA), the store and the advance of rx_in
    | RxEnd     // if (data & RAVAIL) ...
    | TxLoop    // while (space > 0 && tx_out != tx_in)
    | TxEnd     // if (space > 0) ...

  datatype Isr = Isr(pc: IsrPc, wi: bool, space: int, ravail: bool)

  datatype State = State(tx: UartTx.Side, rx: UartRx.Side, isr: Isr, inactive: nat, timeout: nat) {
    predicate HostGone() {
      inactive >= timeout
    }
  }

  datatype Event =
    | CallWrite(src: seq<byte>, wNonblock: bool)
    | CallRead(cap: nat, rNonblock: bool)
    | WriterStep
    | ReaderStep
    | Interrupt
    | IsrStep(ri: bool, wi: bool)
    | TimerTick(active: bool)
    | HostSends(b: byte)
    | HostTakes

  /** One step of the interrupt routine.  `ri` and `wi` are the bits the control register shows if this step reads
      it: the hardware raises RI only while RE is set, WI only while WE is set and the transmit FIFO has room.  A
      read of an empty receive FIFO returns RVALID = 0 and RAVAIL = 0. */
  function RunIsr(s: State, ri: bool, wi: bool): State
    requires Inv(s)
  {
    var i := s.isr;
    match i.pc
    case Off => s
    case Control =>
      var space := UartTx.TX_DEPTH - |s.tx.fifo|;
      var wi' := wi && s.tx.we && space > 0;
      s.(isr := Isr(if ri && s.rx.re then RxRoom else if wi' then TxLoop else Off, wi', space, true))
    case RxRoom => s.(isr := i.(pc := if s.rx.ring.Full() then RxEnd else RxPop))
    case RxPop =>
      if s.rx.fifo == [] then s.(isr := i.(pc := RxEnd, ravail := false))
      else s.(rx := UartRx.Pop(s.rx), isr := i.(pc := RxRoom, ravail := |s.rx.fifo| > 1))
    case RxEnd =>
      s.(rx := if i.ravail then UartRx.Disable(s.rx) else s.rx, isr := i.(pc := if i.wi then TxLoop else Control))
    case TxLoop =>
      if i.space > 0 && !s.tx.ring.Empty() then s.(tx := UartTx.Push(s.tx), isr := i.(space := i.space - 1))
      else s.(isr := i.(pc := TxEnd))
    case TxEnd =>
      s.(tx := if i.space > 0 then UartTx.Disable(s.tx) else s.tx, isr := i.(pc := Control))
  }

  /** An event that cannot happen in a state leaves it alone. */
  function Next(s: State, e: Event): State
    requires Inv(s)
  {
    match e
    case CallWrite(src, nonblock) =>
      if s.isr.pc.Off? && s.tx.w.pc.Idle? then s.(tx := UartTx.Call(s.tx, src, nonblock)) else s
    case CallRead(cap, nonblock) =>
      if s.isr.pc.Off? && s.rx.r.pc.Idle? then s.(rx := UartRx.Call(s.rx, cap, nonblock)) else s
    case WriterStep => if s.isr.pc.Off? then s.(tx := UartTx.Step(s.tx, s.HostGone())) else s
    case ReaderStep => if s.isr.pc.Off? then s.(rx := UartRx.Step(s.rx, s.HostGone())) else s
    case Interrupt => if s.isr.pc.Off? then s.(isr := s.isr.(pc := Control)) else s
    case IsrStep(ri, wi) => RunIsr(s, ri, wi)
    case TimerTick(active) =>
      if !s.isr.pc.Off? then s
      else if active then s.(inactive := 0)
      else if s.inactive < INT_MAX - 2 then s.(inactive := s.inactive + 1)
      else s
    case HostSends(b) => s.(rx := UartRx.HostSends(s.rx, b))
    case HostTakes => s.(tx := UartTx.HostTakes(s.tx))
  }

  /** The interrupt routine pops only bytes it can store and pushes only bytes the hardware can take. */
  ghost predicate IsrInv(i: Isr, rx: Ring, tx: Ring, queued: nat) {
    && (i.pc.RxPop? ==> !rx.Full())
    && (i.pc.RxEnd? && i.ravail ==> rx.Full())
    && (i.pc.TxLoop? || i.pc.TxEnd? || (i.wi && (i.pc.RxRoom? || i.pc.RxPop? || i.pc.RxEnd?)) ==>
          i.space + queued <= UartTx.TX_DEPTH)
    && (i.pc.TxEnd? && i.space > 0 ==> tx.Empty())
  }

  ghost predicate Inv(s: State) {
    && UartTx.Inv(s.tx) && UartRx.Inv(s.rx)
    && IsrInv(s.isr, s.rx.ring, s.tx.ring, |s.tx.fifo|)
  }

  lemma IsrPopKeeps(s: State, ri: bool, wi: bool)
    requires Inv(s) && s.isr.pc.RxPop?
    ensures Inv(RunIsr(s, ri, wi))
  {
    if s.rx.fifo != [] {
      UartRx.PopKeeps(s.rx);
    }
  }

  lemma IsrPushKeeps(s: State, ri: bool, wi: bool)
    requires Inv(s) && s.isr.pc.TxLoop?
    ensures Inv(RunIsr(s, ri, wi))
  {
    if s.isr.space > 0 && !s.tx.ring.Empty() {
      UartTx.PushKeeps(s.tx);
    }
  }

  lemma IsrEndKeeps(s: State, ri: bool, wi: bool)
    requires Inv(s) && (s.isr.pc.RxEnd? || s.isr.pc.TxEnd?)
    ensures Inv(RunIsr(s, ri, wi))
  {
    if s.isr.pc.RxEnd? && s.isr.ravail {
      UartRx.DisableKeeps(s.rx);
    } else if s.isr.pc.TxEnd? && s.isr.space > 0 {
      UartTx.DisableKeeps(s.tx);
    }
  }

  lemma RunIsrKeeps(s: State, ri: bool, wi: bool)
    requires Inv(s)
    ensures Inv(RunIsr(s, ri, wi))
  {
    match s.isr.pc
    case RxPop => IsrPopKeeps(s, ri, wi);
    case TxLoop => IsrPushKeeps(s, ri, wi);
    case RxEnd => IsrEndKeeps(s, ri, wi);
    case TxEnd => IsrEndKeeps(s, ri, wi);
    case _ =>
  }

  lemma NextKeeps(s: State, e: Event)
    requires Inv(s)
    ensures Inv(Next(s, e))
  {
    match e
    case CallWrite(src, nonblock) => if s.tx.w.pc.Idle? { UartTx.CallKeeps(s.tx, src, nonblock); }
    case CallRead(cap, nonblock) => if s.rx.r.pc.Idle? { UartRx.CallKeeps(s.rx, cap, nonblock); }
    case WriterStep => UartTx.StepKeeps(s.tx, s.HostGone());
    case ReaderStep => UartRx.StepKeeps(s.rx, s.HostGone());
    case IsrStep(ri, wi) => RunIsrKeeps(s, ri, wi);
    case HostSends(b) => UartRx.HostSendsKeeps(s.rx, b);
    case HostTakes => UartTx.HostTakesKeeps(s.tx);
    case _ =>
  }

  // ---------------------------------------------------------------- runs

  /** After initialisation both rings are empty (the buffers hold anything), RE is set and WE is clear. */
  ghost predicate Init(s: State) {
    && |s.tx.ring.buf| == BUF_LEN && s.tx.ring.head == s.tx.ring.tail == 0 && !s.tx.we
    && |s.rx.ring.buf| == BUF_LEN && s.rx.ring.head == s.rx.ring.tail == 0 && s.rx.re
    && s.tx.fifo == s.tx.accepted == s.tx.hostGot == [] && s.rx.fifo == s.rx.hostSent == s.rx.delivered == []
    && s.tx.w == UartTx.Return(UartTx.Writer(UartTx.Idle, [], true, 0, 0, 0, 0, 0, 0, 0, false, 0))
    && s.rx.r == UartRx.Return(UartRx.Reader(UartRx.Idle, 0, true, [], [], 0, 0, 0, 0, false, 0))
    && s.isr.pc.Off? && s.inactive == 0
  }

  lemma InitHolds(s: State)
    requires Init(s)
    ensures Inv(s)
  {
  }

  /** The state a sequence of events leads to. */
  ghost function Run(s: State, es: seq<Event>): (t: State)
    requires Inv(s)
    ensures Inv(t)
    decreases |es|
  {
    if es == [] then s
    else
      var t := Run(s, es[..|es| - 1]);
      NextKeeps(t, es[|es| - 1]);
      Next(t, es[|es| - 1])
  }

  // ---------------------------------------------------------------- the promises, over every run

  /** In every interleaving the bytes accepted from writers are those the host has taken, then those in the hardware
      FIFO, then those in the ring, in order; and the bytes the host sent are those delivered to readers, then those
      in the ring, then those in the hardware FIFO.  A ring never wraps into the empty state. */
  lemma NothingLostOrReordered(s0: State, es: seq<Event>)
    requires Init(s0)
    ensures Inv(s0)
    ensures var s := Run(s0, es);
      && s.tx.accepted == s.tx.hostGot + s.tx.fifo + s.tx.ring.Contents()
      && s.rx.hostSent == s.rx.delivered + s.rx.ring.Contents() + s.rx.fifo
      && |s.tx.ring.Contents()| < BUF_LEN && |s.rx.ring.Contents()| < BUF_LEN
  {
    InitHolds(s0);
  }

  /** A write that has returned reports just what it has accepted, in every run. */
  lemma WriteReportsAcceptedPrefix(s0: State, es: seq<Event>)
    requires Init(s0)
    ensures Inv(s0)
    ensures var t := Run(s0, es).tx; t.w.pc.Idle? ==> UartTx.Reports(t.w, t.ring, t.accepted)
  {
    InitHolds(s0);
    var t := Run(s0, es).tx;
    if t.w.pc.Idle? {
      UartTx.LastCall(t);
    }
  }

  /** A read that has returned reports just what it has delivered, in every run. */
  lemma ReadReportsDeliveredBytes(s0: State, es: seq<Event>)
    requires Init(s0)
    ensures Inv(s0)
    ensures var t := Run(s0, es).rx; t.r.pc.Idle? ==> UartRx.Reports(t.r, t.ring, t.delivered)
  {
    InitHolds(s0);
  }

  /** While a blocking write waits on an unmoved `tx_out`, the ring is full and the transmit interrupt is enabled;
      if `tx_out` has moved there is room. */
  lemma WaitingWriterIsServed(s0: State, es: seq<Event>)
    requires Init(s0)
    ensures Inv(s0)
    ensures var t := Run(s0, es).tx;
      t.w.pc.Spin? ==>
        if t.ring.head == t.w.out then t.we && |t.ring.Contents()| == BUF_LEN - 1
        else |t.ring.Contents()| < BUF_LEN - 1
  {
    InitHolds(s0);
    FullOrEmpty(Run(s0, es).tx.ring);
  }

  /** While a blocking read waits on an unmoved `rx_in`, the ring is empty and the receive interrupt is enabled; if
      `rx_in` has moved there is something to read. */
  lemma WaitingReaderIsServed(s0: State, es: seq<Event>)
    requires Init(s0)
    ensures Inv(s0)
    ensures var t := Run(s0, es).rx;
      t.r.pc.Spin? ==>
        if t.ring.tail == t.r.inn then t.re && t.ring.Contents() == [] else t.ring.Contents() != []
  {
    InitHolds(s0);
    FullOrEmpty(Run(s0, es).rx.ring);
  }

  /** The wake-up protocol with no thread waiting: once a write has returned, bytes are left in the ring only with
      WE on; once a read has returned, RE is off only with the ring full. */
  lemma QuiescentBitsAreRight(s0: State, es: seq<Event>)
    requires Init(s0)
    ensures Inv(s0)
    ensures var s := Run(s0, es);
      && (s.tx.w.pc.Idle? && s.tx.ring.Contents() != [] ==> s.tx.we)
      && (s.rx.r.pc.Idle? && !s.rx.re ==> |s.rx.ring.Contents()| == BUF_LEN - 1)
  {
    InitHolds(s0);
    FullOrEmpty(Run(s0, es).tx.ring);
    FullOrEmpty(Run(s0, es).rx.ring);
  }

  /** One poll of `close`: its result, or None while it goes on waiting. */
  function ClosePoll(s: State, nonblock: bool): Option<int> {
    if !s.tx.ring.Empty() && !s.HostGone() then (if nonblock then Some(-EWOULDBLOCK) else None)
    else Some(0)
  }

  /** Between writes, `close` succeeds on an active host only when every accepted byte has left the ring, and while
      it waits the transmit interrupt is enabled. */
  lemma CloseDrains(s0: State, es: seq<Event>, nonblock: bool)
    requires Init(s0)
    ensures Inv(s0)
    ensures var s := Run(s0, es);
      && (ClosePoll(s, nonblock) == Some(0) && !s.HostGone() ==> s.tx.accepted == s.tx.hostGot + s.tx.fifo)
      && (ClosePoll(s, nonblock) != Some(0) && s.tx.w.pc.Idle? ==> s.tx.we)
  {
    InitHolds(s0);
  }

  // ---------------------------------------------------------------- a wait can always be ended

  lemma RunOne(s: State, es: seq<Event>, e: Event)
    requires Inv(s)
    ensures Run(s, es + [e]) == Next(Run(s, es), e)
  {
    assert (es + [e])[..|es|] == es;
  }

  lemma RunTwo(s: State, e: Event, f: Event)
    requires Inv(s)
    ensures Inv(Next(s, e)) && Run(s, [e, f]) == Next(Next(s, e), f)
  {
    NextKeeps(s, e);
    RunOne(s, [], e);
    RunOne(s, [] + [e], f);
    assert [] + [e] + [f] == [e, f];
  }

  lemma InterruptEnters(s: State)
    requires Inv(s) && s.isr.pc.Off?
    ensures Next(s, Interrupt).tx == s.tx && Next(s, Interrupt).rx == s.rx && Next(s, Interrupt).isr.pc.Control?
  {
  }

  lemma ControlDispatches(s: State, ri: bool)
    requires Inv(s) && s.isr.pc.Control?
    ensures var t := Next(s, IsrStep(ri, !ri));
      && t.tx == s.tx && t.rx == s.rx
      && (ri && s.rx.re ==> t.isr.pc.RxRoom?)
      && (!ri && s.tx.we && |s.tx.fifo| < UartTx.TX_DEPTH ==> t.isr.pc.TxLoop? && t.isr.space > 0)
  {
  }

  /** With room in the hardware FIFO and WE on, an interrupt reaches the transmit loop. */
  lemma TransmitInterruptStarts(s: State)
    requires Inv(s) && s.isr.pc.Off? && s.tx.we && |s.tx.fifo| < UartTx.TX_DEPTH
    ensures var t := Run(s, [Interrupt, IsrStep(false, true)]);
      t.tx == s.tx && t.isr.pc.TxLoop? && t.isr.space > 0
  {
    RunTwo(s, Interrupt, IsrStep(false, true));
    InterruptEnters(s);
    ControlDispatches(Next(s, Interrupt), false);
  }

  lemma {:induction false} RunJoin(s: State, es: seq<Event>, fs: seq<Event>)
    requires Inv(s)
    ensures Run(s, es + fs) == Run(Run(s, es), fs)
    decreases |fs|
  {
    if fs == [] {
      assert es + fs == es;
    } else {
      var front, last, t := fs[..|fs| - 1], fs[|fs| - 1], Run(s, es);
      AppendSnoc(es, fs);
      calc {
        Run(s, es + fs);
        { RunOne(s, es + front, last); }
        Next(Run(s, es + front), last);
        { RunJoin(s, es, front); }
        Next(Run(t, front), last);
        { RunOne(t, front, last); }
        Run(t, fs);
      }
    }
  }

  lemma HostTakesMakesRoom(s: State)
    requires Inv(s) && s.isr.pc.Off? && s.tx.w.pc.Spin? && s.tx.ring.head == s.tx.w.out
    ensures var t := Next(s, HostTakes);
      && t.tx.w == s.tx.w && t.tx.ring == s.tx.ring && t.isr.pc.Off?
      && t.tx.we && !t.tx.ring.Empty() && |t.tx.fifo| < UartTx.TX_DEPTH
  {
  }

  lemma TransmitLoopMovesHead(s: State)
    requires Inv(s) && s.isr.pc.TxLoop? && s.isr.space > 0 && !s.tx.ring.Empty()
    ensures var t := Next(s, IsrStep(false, false));
      t.tx.w == s.tx.w && t.tx.ring.head == Wrap(s.tx.ring.head + 1)
  {
  }

  /** From any wait of a writer there is a way out: the host takes one byte, and the routine runs. */
  lemma WriterWaitCanEnd(s: State)
    requires Inv(s) && s.isr.pc.Off? && s.tx.w.pc.Spin? && s.tx.ring.head == s.tx.w.out
    ensures var t := Run(s, [HostTakes] + [Interrupt, IsrStep(false, true)] + [IsrStep(false, false)]);
      t.tx.w == s.tx.w && t.tx.ring.head != t.tx.w.out
  {
    RunOne(s, [], HostTakes);
    assert [] + [HostTakes] == [HostTakes];
    HostTakesMakesRoom(s);
    var b := Run(s, [HostTakes]);
    TransmitInterruptStarts(b);
    RunJoin(s, [HostTakes], [Interrupt, IsrStep(false, true)]);
    var c := Run(b, [Interrupt, IsrStep(false, true)]);
    RunOne(s, [HostTakes] + [Interrupt, IsrStep(false, true)], IsrStep(false, false));
    TransmitLoopMovesHead(c);
  }

  lemma ReceiveInterruptStarts(s: State)
    requires Inv(s) && s.isr.pc.Off? && s.rx.re
    ensures var t := Run(s, [Interrupt, IsrStep(true, false)]);
      t.rx == s.rx && t.isr.pc.RxRoom?
  {
    RunTwo(s, Interrupt, IsrStep(true, false));
    InterruptEnters(s);
    ControlDispatches(Next(s, Interrupt), true);
  }

  lemma RoomLeadsToPop(s: State)
    requires Inv(s) && s.isr.pc.RxRoom? && !s.rx.ring.Full()
    ensures Next(s, IsrStep(false, false)).rx == s.rx && Next(s, IsrStep(false, false)).isr.pc.RxPop?
  {
  }

  lemma PopMovesTail(s: State)
    requires Inv(s) && s.isr.pc.RxPop? && s.rx.fifo != []
    ensures var t := Next(s, IsrStep(false, false));
      t.rx.r == s.rx.r && t.rx.ring.tail == Wrap(s.rx.ring.tail + 1)
  {
  }

  lemma ReceiveLoopMovesTail(s: State)
    requires Inv(s) && s.isr.pc.RxRoom? && s.rx.fifo != [] && !s.rx.ring.Full()
    ensures var t := Run(s, [IsrStep(false, false), IsrStep(false, false)]);
      t.rx.r == s.rx.r && t.rx.ring.tail == Wrap(s.rx.ring.tail + 1)
  {
    var e := IsrStep(false, false);
    RunTwo(s, e, e);
    RoomLeadsToPop(s);
    PopMovesTail(Next(s, e));
  }

  lemma HostSendsArrives(s: State, b: byte)
    requires Inv(s) && s.isr.pc.Off? && s.rx.r.pc.Spin? && s.rx.ring.tail == s.rx.r.inn
    ensures var t := Next(s, HostSends(b));
      t.rx.r == s.rx.r && t.rx.ring == s.rx.ring && t.isr.pc.Off? && t.rx.re && t.rx.fifo != [] && t.rx.ring.Empty()
  {
  }

  /** From any wait of a reader there is a way out: the host sends one byte, and the routine runs. */
  lemma ReaderWaitCanEnd(s: State, b: byte)
    requires Inv(s) && s.isr.pc.Off? && s.rx.r.pc.Spin? && s.rx.ring.tail == s.rx.r.inn
    ensures var t := Run(s, [HostSends(b)] + [Interrupt, IsrStep(true, false)]
                            + [IsrStep(false, false), IsrStep(false, false)]);
      t.rx.r == s.rx.r && t.rx.ring.tail != t.rx.r.inn
  {
    RunOne(s, [], HostSends(b));
    assert [] + [HostSends(b)] == [HostSends(b)];
    HostSendsArrives(s, b);
    var u := Run(s, [HostSends(b)]);
    ReceiveInterruptStarts(u);
    RunJoin(s, [HostSends(b)], [Interrupt, IsrStep(true, false)]);
    var v := Run(u, [Interrupt, IsrStep(true, false)]);
    ReceiveLoopMovesTail(v);
    RunJoin(s, [HostSends(b)] + [Interrupt, IsrStep(true, false)], [IsrStep(false, false), IsrStep(false, false)]);
  }

  // ---------------------------------------------------------------- every interrupt ends a wait

  /** The routine has been shown WI and is on its way to the transmit loop, or the ring has moved on from the sample of
      the waiting writer. */
  ghost predicate WriterFreed(s: State) {
    || s.tx.ring.head != s.tx.w.out
    || (s.isr.wi && s.isr.space > 0 && (s.isr.pc.RxRoom? || s.isr.pc.RxPop? || s.isr.pc.RxEnd? || s.isr.pc.TxLoop?))
  }

  /** The same of RI, with a byte to read, and the receive loop. */
  ghost predicate ReaderFreed(s: State) {
    || s.rx.ring.tail != s.rx.r.inn
    || (s.rx.fifo != [] && (s.isr.pc.RxRoom? || s.isr.pc.RxPop?))
  }

  lemma WriterStaysFreed(s: State, e: Event)
    requires Inv(s) && s.tx.w.pc.Spin? && Next(s, e).tx.w == s.tx.w && WriterFreed(s)
    ensures WriterFreed(Next(s, e))
  {
  }

  lemma ReaderStaysFreed(s: State, e: Event)
    requires Inv(s) && s.rx.r.pc.Spin? && Next(s, e).rx.r == s.rx.r && ReaderFreed(s)
    ensures ReaderFreed(Next(s, e))
  {
  }

  /** The thread does not move during the events, though the others may. */
  ghost predicate WriterWaits(s: State, es: seq<Event>)
    requires Inv(s)
  {
    forall i :: 0 <= i <= |es| ==> Run(s, es[..i]).tx.w == s.tx.w
  }

  ghost predicate ReaderWaits(s: State, es: seq<Event>)
    requires Inv(s)
  {
    forall i :: 0 <= i <= |es| ==> Run(s, es[..i]).rx.r == s.rx.r
  }

  lemma WaitsBefore(es: seq<Event>, i: nat)
    requires es != [] && i < |es|
    ensures es[..|es| - 1][..i] == es[..i]
  {
  }

  lemma {:induction false} FreedWriterStays(s: State, es: seq<Event>)
    requires Inv(s) && s.tx.w.pc.Spin? && WriterWaits(s, es) && WriterFreed(s)
    ensures WriterFreed(Run(s, es))
    decreases |es|
  {
    if es != [] {
      var front := es[..|es| - 1];
      assert es[..|es|] == es;
      forall i | 0 <= i <= |front|
        ensures Run(s, front[..i]).tx.w == s.tx.w
      {
        WaitsBefore(es, i);
      }
      FreedWriterStays(s, front);
      assert front[..|front|] == front;
      WriterStaysFreed(Run(s, front), es[|es| - 1]);
    }
  }

  lemma {:induction false} FreedReaderStays(s: State, es: seq<Event>)
    requires Inv(s) && s.rx.r.pc.Spin? && ReaderWaits(s, es) && ReaderFreed(s)
    ensures ReaderFreed(Run(s, es))
    decreases |es|
  {
    if es != [] {
      var front := es[..|es| - 1];
      assert es[..|es|] == es;
      forall i | 0 <= i <= |front|
        ensures Run(s, front[..i]).rx.r == s.rx.r
      {
        WaitsBefore(es, i);
      }
      FreedReaderStays(s, front);
      assert front[..|front|] == front;
      ReaderStaysFreed(Run(s, front), es[|es| - 1]);
    }
  }

  /** Whatever else happens, once the routine has been shown WI and has returned, the ring has moved on from the sample
      of a writer that waited all the while. */
  lemma TransmitInterruptEndsWait(s: State, es: seq<Event>)
    requires Inv(s) && s.tx.w.pc.Spin? && s.isr.wi && s.isr.space > 0 && (s.isr.pc.RxRoom? || s.isr.pc.TxLoop?)
    ensures WriterWaits(s, es) && Run(s, es).isr.pc.Off? ==> Run(s, es).tx.ring.head != Run(s, es).tx.w.out
  {
    if WriterWaits(s, es) {
      FreedWriterStays(s, es);
    }
  }

  /** And once it has been shown RI with a byte to read and has returned, there is something for a waiting reader. */
  lemma ReceiveInterruptEndsWait(s: State, es: seq<Event>)
    requires Inv(s) && s.rx.r.pc.Spin? && s.isr.pc.RxRoom? && s.rx.fifo != []
    ensures ReaderWaits(s, es) && Run(s, es).isr.pc.Off? ==> Run(s, es).rx.ring.tail != Run(s, es).rx.r.inn
  {
    if ReaderWaits(s, es) {
      FreedReaderStays(s, es);
    }
  }

  /** The states those begin from are what reading the control register leads to. */
  lemma ControlShows(s: State, ri: bool, wi: bool)
    requires Inv(s) && s.isr.pc.Control?
    ensures var t := Next(s, IsrStep(ri, wi));
      && (t.isr.wi <==> wi && s.tx.we && |s.tx.fifo| < UartTx.TX_DEPTH)
      && (t.isr.wi ==> t.isr.space > 0 && (t.isr.pc.RxRoom? || t.isr.pc.TxLoop?))
      && (t.isr.pc.RxRoom? <==> ri && s.rx.re) && t.tx == s.tx && t.rx == s.rx
  {
  }

  // ---------------------------------------------------------------- who gives up

  /** Nothing but ticks without activity. */
  ghost predicate Inactive(es: seq<Event>) {
    forall i :: 0 <= i < |es| ==> es[i] == TimerTick(false)
  }

  lemma TickIs(s: State, active: bool)
    requires Inv(s) && s.isr.pc.Off?
    ensures Next(s, TimerTick(active)) ==
      s.(inactive := if active then 0 else if s.inactive < INT_MAX - 2 then s.inactive + 1 else s.inactive)
  {
  }

  /** Ticks without activity count up to the largest value there is. */
  lemma {:induction false} TicksCount(s: State, es: seq<Event>)
    requires Inv(s) && s.isr.pc.Off? && s.inactive <= INT_MAX - 2 && Inactive(es)
    ensures var t := Run(s, es);
      && t.tx == s.tx && t.rx == s.rx && t.isr == s.isr && t.timeout == s.timeout
      && t.inactive == if s.inactive + |es| <= INT_MAX - 2 then s.inactive + |es| else INT_MAX - 2
    decreases |es|
  {
    if es != [] {
      var front := es[..|es| - 1];
      TicksCount(s, front);
      LastOfRun(s, es);
      TickIs(Run(s, front), false);
    }
  }

  /** So the host counts as gone after exactly as many ticks without activity as the timeout, if that can be reached,
      and not after one with. */
  lemma HostGoneAfterTimeout(s: State, es: seq<Event>)
    requires Inv(s) && s.isr.pc.Off? && s.inactive == 0 && Inactive(es)
    ensures Run(s, es).HostGone() <==> s.timeout <= |es| && s.timeout <= INT_MAX - 2
    ensures Next(Run(s, es), TimerTick(true)).HostGone() <==> s.timeout == 0
  {
    TicksCount(s, es);
    TickIs(Run(s, es), true);
  }

  /** The event begins a call. */
  predicate BeginsWrite(s: State, e: Event) {
    e.CallWrite? && s.isr.pc.Off? && s.tx.w.pc.Idle?
  }

  predicate BeginsRead(s: State, e: Event) {
    e.CallRead? && s.isr.pc.Off? && s.rx.r.pc.Idle?
  }

  /** Waiting on a full ring, or an empty one, with the host counted as gone. */
  predicate WriterSeesHostGone(s: State) {
    s.HostGone() && s.tx.w.pc.Spin? && s.tx.ring.head == s.tx.w.out
  }

  predicate ReaderSeesHostGone(s: State) {
    s.HostGone() && s.rx.r.pc.Spin? && s.rx.ring.tail == s.rx.r.inn
  }

  /** The states a run goes through, the first and the last included. */
  ghost function Trace(s0: State, es: seq<Event>): (states: seq<State>)
    requires Inv(s0)
    ensures |states| == |es| + 1
  {
    seq(|es| + 1, k requires 0 <= k <= |es| => Run(s0, es[..k]))
  }

  /** After `i` of the events, with no call begun since, the call that is in progress or has just returned at the end
      was waiting, and the host counted as gone. */
  predicate WriterSawHostGone(states: seq<State>, es: seq<Event>, i: nat)
    requires |states| == |es| + 1
  {
    i < |es| && WriterSeesHostGone(states[i]) && forall j :: i <= j < |es| ==> !BeginsWrite(states[j], es[j])
  }

  predicate ReaderSawHostGone(states: seq<State>, es: seq<Event>, i: nat)
    requires |states| == |es| + 1
  {
    i < |es| && ReaderSeesHostGone(states[i]) && forall j :: i <= j < |es| ==> !BeginsRead(states[j], es[j])
  }

  lemma LastOfRun(s0: State, es: seq<Event>)
    requires Inv(s0) && es != []
    ensures Run(s0, es) == Next(Run(s0, es[..|es| - 1]), es[|es| - 1])
  {
  }

  lemma FrontOfFront(es: seq<Event>, j: nat)
    requires es != [] && j < |es|
    ensures es[..|es| - 1][..j] == es[..j] && (j < |es| - 1 ==> es[..|es| - 1][j] == es[j])
  {
  }

  lemma RunNext(s0: State, es: seq<Event>, n: nat)
    requires Inv(s0) && n < |es|
    ensures Run(s0, es[..n + 1]) == Next(Run(s0, es[..n]), es[n])
  {
    assert es[..n + 1][..n] == es[..n];
    LastOfRun(s0, es[..n + 1]);
  }

  /** Only a step out of the wait, on a gone host, declares the host gone. */
  lemma WriterDeclaresOnGoneHost(s: State, e: Event)
    requires Inv(s) && Next(s, e).tx.w.gone
    ensures !BeginsWrite(s, e) && (s.tx.w.gone || WriterSeesHostGone(s))
  {
  }

  lemma ReaderDeclaresOnGoneHost(s: State, e: Event)
    requires Inv(s) && Next(s, e).rx.r.gone
    ensures !BeginsRead(s, e) && (s.rx.r.gone || ReaderSeesHostGone(s))
  {
  }

  predicate WriterDeclares(s: State, e: Event, t: State) {
    t.tx.w.gone ==> !BeginsWrite(s, e) && (s.tx.w.gone || WriterSeesHostGone(s))
  }

  lemma WriterStepDeclares(s0: State, es: seq<Event>, k: nat)
    requires Inv(s0) && k < |es|
    ensures WriterDeclares(Trace(s0, es)[k], es[k], Trace(s0, es)[k + 1])
  {
    RunNext(s0, es, k);
    if Run(s0, es[..k + 1]).tx.w.gone {
      WriterDeclaresOnGoneHost(Run(s0, es[..k]), es[k]);
    }
  }

  lemma WriterStepsDeclare(s0: State, es: seq<Event>)
    requires Inv(s0)
    ensures forall k :: 0 <= k < |es| ==> WriterDeclares(Trace(s0, es)[k], es[k], Trace(s0, es)[k + 1])
  {
    forall k | 0 <= k < |es|
      ensures WriterDeclares(Trace(s0, es)[k], es[k], Trace(s0, es)[k + 1])
    {
      WriterStepDeclares(s0, es, k);
    }
  }

  /** Who has declared the host gone saw it to be gone in the same call. */
  lemma {:induction false} WriterSawIt(states: seq<State>, es: seq<Event>) returns (i: nat)
    requires |states| == |es| + 1 && !states[0].tx.w.gone && states[|es|].tx.w.gone
    requires forall k :: 0 <= k < |es| ==> WriterDeclares(states[k], es[k], states[k + 1])
    ensures WriterSawHostGone(states, es, i)
    decreases |es|
  {
    var n := |es| - 1;
    assert WriterDeclares(states[n], es[n], states[n + 1]);
    i := n;
    if states[n].tx.w.gone {
      var front, before := es[..n], states[..n + 1];
      forall k | 0 <= k < n
        ensures WriterDeclares(before[k], front[k], before[k + 1])
      {
        assert WriterDeclares(states[k], es[k], states[k + 1]);
      }
      i := WriterSawIt(before, front);
      forall j | i <= j < |es|
        ensures !BeginsWrite(states[j], es[j])
      {
        assert j < n ==> !BeginsWrite(before[j], front[j]);
      }
    }
  }

  predicate ReaderDeclares(s: State, e: Event, t: State) {
    t.rx.r.gone ==> !BeginsRead(s, e) && (s.rx.r.gone || ReaderSeesHostGone(s))
  }

  lemma ReaderStepDeclares(s0: State, es: seq<Event>, k: nat)
    requires Inv(s0) && k < |es|
    ensures ReaderDeclares(Trace(s0, es)[k], es[k], Trace(s0, es)[k + 1])
  {
    RunNext(s0, es, k);
    if Run(s0, es[..k + 1]).rx.r.gone {
      ReaderDeclaresOnGoneHost(Run(s0, es[..k]), es[k]);
    }
  }

  lemma ReaderStepsDeclare(s0: State, es: seq<Event>)
    requires Inv(s0)
    ensures forall k :: 0 <= k < |es| ==> ReaderDeclares(Trace(s0, es)[k], es[k], Trace(s0, es)[k + 1])
  {
    forall k | 0 <= k < |es|
      ensures ReaderDeclares(Trace(s0, es)[k], es[k], Trace(s0, es)[k + 1])
    {
      ReaderStepDeclares(s0, es, k);
    }
  }

  /** Who has declared the host gone saw it to be gone in the same call. */
  lemma {:induction false} ReaderSawIt(states: seq<State>, es: seq<Event>) returns (i: nat)
    requires |states| == |es| + 1 && !states[0].rx.r.gone && states[|es|].rx.r.gone
    requires forall k :: 0 <= k < |es| ==> ReaderDeclares(states[k], es[k], states[k + 1])
    ensures ReaderSawHostGone(states, es, i)
    decreases |es|
  {
    var n := |es| - 1;
    assert ReaderDeclares(states[n], es[n], states[n + 1]);
    i := n;
    if states[n].rx.r.gone {
      var front, before := es[..n], states[..n + 1];
      forall k | 0 <= k < n
        ensures ReaderDeclares(before[k], front[k], before[k + 1])
      {
        assert ReaderDeclares(states[k], es[k], states[k + 1]);
      }
      i := ReaderSawIt(before, front);
      forall j | i <= j < |es|
        ensures !BeginsRead(states[j], es[j])
      {
        assert j < n ==> !BeginsRead(before[j], front[j]);
      }
    }
  }

  lemma TraceEnds(s0: State, es: seq<Event>)
    requires Inv(s0)
    ensures Trace(s0, es)[0] == s0 && Trace(s0, es)[|es|] == Run(s0, es)
  {
    assert es[..|es|] == es && es[..0] == [];
  }

  /** In every run, a blocking write that has returned without having accepted everything was waiting on a full ring, at
      a moment between its call and its return at which the host counted as gone. */
  lemma ShortWriteMeansHostGone(s0: State, es: seq<Event>)
    requires Init(s0)
    ensures Inv(s0)
    ensures var w := Run(s0, es).tx.w;
      w.pc.Idle? && !w.nonblock && w.ptr < |w.src| ==> exists i :: WriterSawHostGone(Trace(s0, es), es, i)
  {
    InitHolds(s0);
    WriteReportsAcceptedPrefix(s0, es);
    TraceEnds(s0, es);
    if Run(s0, es).tx.w.gone {
      WriterStepsDeclare(s0, es);
      var i := WriterSawIt(Trace(s0, es), es);
    }
  }

  /** In every run, a blocking read of something that has returned nothing was waiting on an empty ring, at a moment
      between its call and its return at which the host counted as gone. */
  lemma EmptyReadMeansHostGone(s0: State, es: seq<Event>)
    requires Init(s0)
    ensures Inv(s0)
    ensures var r := Run(s0, es).rx.r;
      r.pc.Idle? && !r.nonblock && r.got == [] && r.cap > 0 ==> exists i :: ReaderSawHostGone(Trace(s0, es), es, i)
  {
    InitHolds(s0);
    ReadReportsDeliveredBytes(s0, es);
    TraceEnds(s0, es);
    if Run(s0, es).rx.r.gone {
      ReaderStepsDeclare(s0, es);
      var i := ReaderSawIt(Trace(s0, es), es);
    }
  }

  // ---------------------------------------------------------------- what a turn of the routine achieves

  /** How many bytes have left the transmit ring, and how many have reached the receive ring. */
  function Sent(t: UartTx.Side): nat {
    |t.hostGot| + |t.fifo|
  }

  ghost function Received(t: UartRx.Side): nat
    requires t.ring.Valid()
  {
    |t.delivered| + |t.ring.Contents()|
  }

  /** In a turn whose reading of the control register showed WI and space for `n` bytes, `sent` having been sent before
      it. */
  ghost predicate InTransmitTurn(s: State, n: nat, sent: nat) {
    && s.isr.wi && s.isr.space >= 0 && s.isr.space + Sent(s.tx) == n + sent
    && match s.isr.pc
       case RxRoom | RxPop | RxEnd => s.isr.space == n && s.tx.we
       case TxLoop => s.tx.we
       case TxEnd => s.tx.we && (s.isr.space > 0 ==> s.tx.ring.Empty())
       case _ => false
  }

  /** The turn has sent `n` bytes, or all there were and switched WE off. */
  ghost predicate TransmitTurnOver(s: State, n: nat, sent: nat) {
    || (s.tx.we && Sent(s.tx) == sent + n)
    || (!s.tx.we && Sent(s.tx) < sent + n && s.tx.ring.Empty())
  }

  lemma TransmitTurnGoesOn(s: State, e: Event, n: nat, sent: nat)
    requires Inv(s) && InTransmitTurn(s, n, sent)
    ensures InTransmitTurn(Next(s, e), n, sent) || (Next(s, e).isr.pc.Control? && TransmitTurnOver(Next(s, e), n, sent))
  {
  }

  /** In a turn whose reading of the control register showed RI with `k` bytes waiting, `received` having been received
      before it: once a byte has come with none behind it, all of the `k` have. */
  ghost predicate InReceiveTurn(s: State, k: nat, received: nat)
    requires Inv(s)
  {
    && s.rx.re && |s.rx.fifo| + Received(s.rx) >= k + received
    && (s.isr.pc.RxRoom? || s.isr.pc.RxPop? || s.isr.pc.RxEnd?)
    && (!s.isr.ravail ==> Received(s.rx) >= received + k)
  }

  /** The turn has received all that was waiting, or filled the ring and switched RE off. */
  ghost predicate ReceiveTurnOver(s: State, k: nat, received: nat)
    requires Inv(s)
  {
    || (s.rx.re && Received(s.rx) >= received + k)
    || (!s.rx.re && s.rx.ring.Full())
  }

  lemma PopReceives(t: UartRx.Side)
    requires UartRx.Inv(t) && !t.ring.Full() && t.fifo != []
    ensures UartRx.Inv(UartRx.Pop(t))
    ensures Received(UartRx.Pop(t)) == Received(t) + 1 && |UartRx.Pop(t).fifo| == |t.fifo| - 1
  {
    UartRx.PopKeeps(t);
  }

  lemma ReceiveTurnGoesOn(s: State, e: Event, k: nat, received: nat)
    requires Inv(s) && InReceiveTurn(s, k, received)
    ensures Inv(Next(s, e))
    ensures || InReceiveTurn(Next(s, e), k, received)
            || (Next(s, e).isr.pc == (if s.isr.wi then TxLoop else Control) && ReceiveTurnOver(Next(s, e), k, received))
  {
    NextKeeps(s, e);
    if s.isr.pc.RxPop? && s.rx.fifo != [] {
      PopReceives(s.rx);
    }
  }

  /** The routine has not left the block it is in before the last event. */
  ghost predicate StaysInTransmitTurn(s: State, es: seq<Event>)
    requires Inv(s)
  {
    forall i :: 0 <= i < |es| ==> !Run(s, es[..i]).isr.pc.Control?
  }

  ghost predicate StaysInReceiveTurn(s: State, es: seq<Event>)
    requires Inv(s)
  {
    forall i :: 0 <= i < |es| ==> var pc := Run(s, es[..i]).isr.pc; pc.RxRoom? || pc.RxPop? || pc.RxEnd?
  }

  lemma {:induction false} TransmitTurn(s: State, es: seq<Event>, n: nat, sent: nat)
    requires Inv(s) && InTransmitTurn(s, n, sent) && StaysInTransmitTurn(s, es)
    ensures var t := Run(s, es);
      InTransmitTurn(t, n, sent) || (t.isr.pc.Control? && TransmitTurnOver(t, n, sent))
    decreases |es|
  {
    if es != [] {
      var front := es[..|es| - 1];
      forall i | 0 <= i < |front|
        ensures !Run(s, front[..i]).isr.pc.Control?
      {
        FrontOfFront(es, i);
      }
      TransmitTurn(s, front, n, sent);
      LastOfRun(s, es);
      assert !Run(s, es[..|front|]).isr.pc.Control?;
      TransmitTurnGoesOn(Run(s, front), es[|es| - 1], n, sent);
    }
  }

  lemma {:induction false} ReceiveTurn(s: State, es: seq<Event>, k: nat, received: nat)
    requires Inv(s) && InReceiveTurn(s, k, received) && StaysInReceiveTurn(s, es)
    ensures var t := Run(s, es);
      InReceiveTurn(t, k, received) || ((t.isr.pc.TxLoop? || t.isr.pc.Control?) && ReceiveTurnOver(t, k, received))
    decreases |es|
  {
    if es != [] {
      var front := es[..|es| - 1];
      forall i | 0 <= i < |front|
        ensures var pc := Run(s, front[..i]).isr.pc; pc.RxRoom? || pc.RxPop? || pc.RxEnd?
      {
        FrontOfFront(es, i);
      }
      ReceiveTurn(s, front, k, received);
      LastOfRun(s, es);
      var pc := Run(s, es[..|front|]).isr.pc;
      assert pc.RxRoom? || pc.RxPop? || pc.RxEnd?;
      ReceiveTurnGoesOn(Run(s, front), es[|es| - 1], k, received);
    }
  }

  /** Whatever the host does meanwhile: when the routine, having been shown WI and space for `n` bytes, is back at the
      control register, it has sent exactly `n` bytes, or all there were and WE is off. */
  lemma TransmitTurnIsComplete(s: State, ri: bool, es: seq<Event>)
    requires Inv(s) && s.isr.pc.Control? && s.tx.we && |s.tx.fifo| < UartTx.TX_DEPTH
    ensures Inv(Next(s, IsrStep(ri, true)))
    ensures var t := Next(s, IsrStep(ri, true));
      StaysInTransmitTurn(t, es) && Run(t, es).isr.pc.Control? ==>
        TransmitTurnOver(Run(t, es), UartTx.TX_DEPTH - |s.tx.fifo|, Sent(s.tx))
  {
    var t := Next(s, IsrStep(ri, true));
    NextKeeps(s, IsrStep(ri, true));
    if StaysInTransmitTurn(t, es) {
      TransmitTurn(t, es, UartTx.TX_DEPTH - |s.tx.fifo|, Sent(s.tx));
    }
  }

  /** And when, having been shown RI, it has done with the receive ring, every byte that was waiting has been received,
      or the ring is full and RE is off. */
  lemma ReceiveTurnIsComplete(s: State, wi: bool, es: seq<Event>)
    requires Inv(s) && s.isr.pc.Control? && s.rx.re
    ensures Inv(Next(s, IsrStep(true, wi)))
    ensures var t := Next(s, IsrStep(true, wi));
      StaysInReceiveTurn(t, es) && (Run(t, es).isr.pc.TxLoop? || Run(t, es).isr.pc.Control?) ==>
        ReceiveTurnOver(Run(t, es), |s.rx.fifo|, Received(s.rx))
  {
    var t := Next(s, IsrStep(true, wi));
    NextKeeps(s, IsrStep(true, wi));
    if StaysInReceiveTurn(t, es) {
      ReceiveTurn(t, es, |s.rx.fifo|, Received(s.rx));
    }
  }
}
