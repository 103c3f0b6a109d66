/** The JTAG UART driver as the code it is: buffers, indices, loops and the interrupt routine, with interrupts, the
    timer and the host free to act between any two statements.  Every statement is one step of the transition
    system. */
module UartDriver {
  import opened Bytes
  import opened Errno
  import opened UartRing
  import Tx = UartTx
  import Rx = UartRx
  import J = JtagUart

  /** Whether the host is there: the one-second alarm counts up while it is not.  `seen` counts how often a thread that
      was waiting looked and found the host gone. */
  class Watch {
    const timeout: nat
    var inactive: nat
    ghost var seen: nat

    constructor (timeout: nat)
      ensures inactive == 0 && this.timeout == timeout && seen == 0
    {
      this.timeout, inactive, seen := timeout, 0, 0;
    }

    predicate HostGone()
      reads this
    {
      inactive >= timeout
    }

    /** A waiting thread looks. */
    method Expired() returns (gone: bool)
      modifies this`seen
      ensures gone == (inactive >= timeout) && seen == old(seen) + if gone then 1 else 0
    {
      gone := inactive >= timeout;
      if gone {
        seen := seen + 1;
      }
    }

    method Tick(active: bool)
      modifies this`inactive
      ensures inactive == if active then 0
                          else if old(inactive) < J.INT_MAX - 2 then old(inactive) + 1 else old(inactive)
    {
      if active {
        inactive := 0;
      } else if inactive < J.INT_MAX - 2 {
        inactive := inactive + 1;
      }
    }

    /** Any number of ticks. */
    method Ticks()
      modifies this`inactive
    {
      var n: nat := *;
      while n > 0 {
        var active := *;
        Tick(active);
        n := n - 1;
      }
    }

    /** No activity until the host counts as gone. */
    method RunOut()
      requires timeout <= J.INT_MAX - 2
      modifies this`inactive
      ensures HostGone()
    {
      while inactive < timeout
        decreases timeout - inactive
      {
        Tick(false);
      }
    }
  }

  /** The transmit half of the driver's state, and the hardware's transmit FIFO. */
  class Transmitter {
    const buf: array<byte>
    const watch: Watch
    var tail: nat
    var head: nat
    var we: bool
    var fifo: seq<byte>
    var patience: nat
    ghost var w: Tx.Writer
    ghost var accepted: seq<byte>
    ghost var hostGot: seq<byte>

    ghost function Side(): Tx.Side
      reads this, buf
    {
      Tx.Side(Ring(buf[..], head, tail), we, fifo, w, accepted, hostGot)
    }

    ghost predicate Valid()
      reads this, buf
    {
      buf.Length == BUF_LEN && Tx.Inv(Side())
    }

    predicate HasRoom()
      reads this
    {
      Wrap(tail + 1) != head
    }

    constructor (watch: Watch)
      ensures Valid() && fresh(buf) && this.watch == watch && w.pc.Idle? && accepted == []
    {
      this.watch := watch;
      buf := new byte[BUF_LEN];
      tail, head, we, fifo, patience := 0, 0, false, [], 0;
      w := Tx.Return(Tx.Writer(Tx.Idle, [], true, 0, 0, 0, 0, 0, 0, 0, false, 0));
      accepted, hostGot := [], [];
    }

    // ---------------------------------------------------------------- what the interrupt routine and the host do

    /** Push the oldest byte of the ring into the hardware. */
    method PushOne()
      requires Valid() && head != tail && |fifo| < Tx.TX_DEPTH
      modifies this`fifo, this`head
      ensures Valid() && Side() == Tx.Push(old(Side())) && |fifo| == |old(fifo)| + 1
      ensures Ahead(head, tail) == Ahead(old(head), tail) - 1
    {
      ghost var was := Side();
      Tx.PushKeeps(was);
      fifo := fifo + [buf[head]];
      head := Wrap(head + 1);
      assert Side() == Tx.Push(was);
    }

    method HostTake()
      requires Valid()
      modifies this`fifo, this`hostGot
      ensures Valid() && Side() == Tx.HostTakes(old(Side())) && |fifo| <= |old(fifo)| && |fifo| < Tx.TX_DEPTH
    {
      Tx.HostTakesKeeps(Side());
      if fifo != [] {
        hostGot, fifo := hostGot + [fifo[0]], fifo[1..];
      }
    }

    method HostMoves()
      requires Valid()
      modifies this`fifo, this`hostGot
      ensures Valid() && |fifo| <= |old(fifo)|
    {
      var moves: nat := *;
      while moves > 0
        invariant Valid() && |fifo| <= |old(fifo)|
      {
        HostTake();
        moves := moves - 1;
      }
    }

    method DisableWrite()
      requires Valid() && head == tail
      modifies this`we
      ensures Valid() && Side() == Tx.Disable(old(Side()))
    {
      Tx.DisableKeeps(Side());
      we := false;
    }

    /** How many bytes are in the ring. */
    ghost function Waiting(): (n: nat)
      requires head < BUF_LEN && tail < BUF_LEN
      reads this
      ensures n < BUF_LEN && (n == 0 <==> head == tail) && (n == BUF_LEN - 1 <==> Wrap(tail + 1) == head)
    {
      Ahead(head, tail)
    }

    /** What has left the ring is the oldest of what has been accepted. */
    lemma OldestFirst()
      requires Valid()
      ensures Waiting() <= |accepted| && hostGot + fifo == accepted[..|accepted| - Waiting()]
      ensures head != tail ==> buf[head] == accepted[|accepted| - Waiting()]
    {
      var ring := Ring(buf[..], head, tail);
      var contents := ring.Contents();
      assert accepted == hostGot + fifo + contents && |contents| == Waiting();
      if head != tail {
        assert contents[0] == buf[head];
      }
    }

    /** The interrupt routine's answer to WI; `room` is the space the control register showed.  It sends as much as
        there is room for, and switches WE off exactly if room is left. */
    method ServeTransmit(room: nat)
      requires Valid() && room + |fifo| <= Tx.TX_DEPTH
      modifies this`fifo, this`hostGot, this`head, this`we
      ensures Valid() && ((room > 0 && old(head) != tail) || old(HasRoom()) ==> HasRoom())
      ensures Waiting() == if old(Waiting()) <= room then 0 else old(Waiting()) - room
      ensures we == (old(we) && room <= old(Waiting()))
    {
      var space := room;
      while space > 0 && head != tail
        invariant Valid() && 0 <= space <= room && space + |fifo| <= Tx.TX_DEPTH
        invariant Waiting() == old(Waiting()) - (room - space)
        invariant we == old(we) && (if space == room then head == old(head) else HasRoom())
      {
        PushOne();
        HostMoves();
        space := space - 1;
      }
      if space > 0 {
        DisableWrite();
      }
    }

    /** What may happen between two statements of a thread: interrupts, ticks and the host. */
    method Interfere()
      requires Valid()
      modifies this`fifo, this`hostGot, this`head, this`we, watch`inactive
      ensures Valid() && (old(HasRoom()) ==> HasRoom()) && Ahead(head, tail) <= Ahead(old(head), tail)
    {
      watch.Ticks();
      var rounds: nat := *;
      while rounds > 0
        invariant Valid() && (old(HasRoom()) ==> HasRoom()) && Ahead(head, tail) <= Ahead(old(head), tail)
      {
        HostMoves();
        if we && |fifo| < Tx.TX_DEPTH {
          ServeTransmit(Tx.TX_DEPTH - |fifo|);
        }
        rounds := rounds - 1;
      }
    }

    // ---------------------------------------------------------------- the writing thread

    ghost predicate At(pc: Tx.Pc, src: seq<byte>, nonblock: bool, ptr: nat)
      reads this
    {
      w.pc == pc && w.src == src && w.nonblock == nonblock && w.ptr == ptr
    }

    /** A statement that touches only the thread's own variables. */
    ghost method Control(gone: bool)
      requires Valid() && !w.pc.Copy? && !w.pc.Publish? && !w.pc.Enable?
      modifies this`w
      ensures Valid() && w == Tx.Control(old(w), Ring(buf[..], head, tail), gone)
    {
      var was := Side();
      Tx.StepKeeps(was, gone);
      w := Tx.Control(w, was.ring, gone);
      assert Side() == Tx.Step(was, gone);
    }

    method Begin(src: seq<byte>, nonblock: bool)
      requires Valid() && w.pc.Idle?
      modifies this`w
      ensures Valid() && At(Tx.Test, src, nonblock, 0) && w.mark == 0 && w.first == |accepted|
    {
      ghost var was := Side();
      Tx.CallKeeps(was, src, nonblock);
      w := Tx.Call(was, src, nonblock).w;
      assert Side() == Tx.Call(was, src, nonblock);
    }

    method StoreByte(at: nat, b: byte)
      requires Valid() && w.pc.Copy? && w.k < w.n && at == w.inn + w.k && b == w.src[w.ptr + w.k]
      modifies this`w, buf
      ensures Valid() && w == old(w).(k := old(w).k + 1)
    {
      ghost var was := Side();
      Tx.StoreKeeps(was);
      Tx.CopyIsStore(was, false);
      buf[at] := b;
      w := w.(k := w.k + 1);
      assert buf[..] == was.ring.buf[at := b];
      assert Side() == Tx.Stored(was);
    }

    ghost method CopyDone()
      requires Valid() && w.pc.Copy? && w.k == w.n
      modifies this`w
      ensures Valid() && w == old(w).(pc := Tx.Publish)
    {
      var was := Side();
      Tx.CopyKeeps(was, false);
      w := w.(pc := Tx.Publish);
      assert Side() == Tx.Step(was, false);
    }

    method PublishTail(inn: nat, n: nat, ghost src: seq<byte>, ghost ptr: nat)
      requires Valid() && w.pc.Publish? && inn == w.inn && n == w.n && src == w.src && ptr == w.ptr
      modifies this`w, this`tail, this`accepted
      ensures Valid() && w == Tx.Advance(old(w)) && ptr + n <= |src| && accepted == old(accepted) + src[ptr..ptr + n]
    {
      ghost var was := Side();
      Tx.PublishKeeps(was);
      Tx.PublishIsPublished(was, false);
      tail := Wrap(inn + n);
      accepted := accepted + src[ptr..ptr + n];
      w := Tx.Advance(w);
      assert Side() == Tx.Published(was);
    }

    method EnableWrite()
      requires Valid() && w.pc.Enable?
      modifies this`w, this`we
      ensures Valid() && we && w == old(w).(pc := Tx.Check, mark := w.ptr)
    {
      ghost var was := Side();
      Tx.StepKeeps(was, false);
      we := true;
      w := w.(pc := Tx.Check, mark := w.ptr);
      assert Side() == Tx.Step(was, false);
    }

    /** One byte of the copy, and whatever happens before the next. */
    method CopyByte(at: nat, b: byte)
      requires Valid() && w.pc.Copy? && w.k < w.n && at == w.inn + w.k && b == w.src[w.ptr + w.k]
      modifies this`w, buf, this`fifo, this`hostGot, this`head, this`we, watch`inactive
      ensures Valid() && w == old(w).(k := old(w).k + 1)
    {
      StoreByte(at, b);
      Interfere();
    }

    /** The copy into the transmit buffer, a byte at a time. */
    method CopyIn(src: seq<byte>, ptr: nat, inn: nat, n: nat)
      requires Valid() && w.pc.Copy? && w.k == 0 && src == w.src && ptr == w.ptr && inn == w.inn && n == w.n
      modifies this`w, buf, this`fifo, this`hostGot, this`head, this`we, watch`inactive
      ensures Valid() && w == old(w).(pc := Tx.Publish, k := n)
    {
      ghost var was := w;
      var k := 0;
      while k < n
        invariant Valid() && k <= n && w == was.(k := k)
      {
        CopyByte(inn + k, src[ptr + k]);
        k := k + 1;
      }
      CopyDone();
      Interfere();
    }

    /** in = tx_in. */
    method SampleIn(src: seq<byte>, nonblock: bool, ptr: nat) returns (inn: nat)
      requires Valid() && At(Tx.Test, src, nonblock, ptr) && ptr < |src|
      modifies this`w, this`fifo, this`hostGot, this`head, this`we, watch`inactive
      ensures Valid() && At(Tx.SnapOut, src, nonblock, ptr) && inn == w.inn && (old(HasRoom()) ==> HasRoom())
    {
      inn := tail;
      Control(false);
      Interfere();
    }

    /** The two snapshots and the space they leave. */
    method Sample(src: seq<byte>, nonblock: bool, ptr: nat) returns (inn: nat, out: nat, n: nat)
      requires Valid() && At(Tx.Test, src, nonblock, ptr) && ptr < |src|
      modifies this`w, this`fifo, this`hostGot, this`head, this`we, watch`inactive
      ensures Valid() && At(if n == 0 then Tx.Enable else Tx.Copy, src, nonblock, ptr)
      ensures inn == w.inn && out == w.out && (n > 0 ==> w.k == 0 && w.n == if n > |src| - ptr then |src| - ptr else n)
      ensures old(HasRoom()) ==> n > 0
    {
      inn := SampleIn(src, nonblock, ptr);
      out := head;
      n := Tx.WriteRun(inn, out);
      Control(false);
      Interfere();
    }

    /** Copy `n` bytes into the ring and publish them. */
    method MoveIn(src: seq<byte>, ptr: nat, inn: nat, n: nat)
      requires Valid() && w.pc.Copy? && w.k == 0 && src == w.src && ptr == w.ptr && inn == w.inn && n == w.n
      modifies this`w, this`tail, this`accepted, buf, this`fifo, this`hostGot, this`head, this`we, watch`inactive
      ensures Valid() && ptr + n <= |src| && accepted == old(accepted) + src[ptr..ptr + n]
      ensures w == old(w).(pc := Tx.Test, k := n, ptr := ptr + n)
    {
      CopyIn(src, ptr, inn, n);
      PublishTail(inn, n, src, ptr);
      Interfere();
    }

    /** One round of filling: up to `n` bytes go into the ring, or the statement after it is the one that sets WE. */
    method FillOnce(src: seq<byte>, nonblock: bool, ptr: nat) returns (n: nat, out: nat)
      requires Valid() && At(Tx.Test, src, nonblock, ptr) && ptr < |src|
      modifies this`w, this`tail, this`accepted, buf, this`fifo, this`hostGot, this`head, this`we, watch`inactive
      ensures Valid() && ptr + n <= |src| && (old(HasRoom()) ==> n > 0)
      ensures At(if n == 0 then Tx.Enable else Tx.Test, src, nonblock, ptr + n) && out == w.out
      ensures accepted == old(accepted) + src[ptr..ptr + n]
    {
      var inn;
      inn, out, n := Sample(src, nonblock, ptr);
      if n == 0 {
        return;
      }
      if n > |src| - ptr {
        n := |src| - ptr;
      }
      assert n == w.n && n > 0;
      MoveIn(src, ptr, inn, n);
    }

    /** Put as much as fits into the ring; the statement after that is the one that sets WE. */
    method Fill(src: seq<byte>, nonblock: bool, from: nat) returns (ptr: nat, out: nat)
      requires Valid() && At(Tx.Test, src, nonblock, from) && from <= |src|
      modifies this`w, this`tail, this`accepted, buf, this`fifo, this`hostGot, this`head, this`we, watch`inactive
      ensures Valid() && At(Tx.Enable, src, nonblock, ptr) && from <= ptr <= |src|
      ensures accepted == old(accepted) + src[from..ptr]
      ensures ptr < |src| ==> out == w.out
      ensures from < |src| && old(HasRoom()) ==> from < ptr
    {
      ptr, out := from, 0;
      ghost var before, roomy := accepted, HasRoom();
      while ptr < |src|
        invariant Valid() && At(Tx.Test, src, nonblock, ptr) && from <= ptr <= |src|
        invariant accepted == before + src[from..ptr]
        invariant roomy && ptr == from ==> HasRoom()
      {
        var n;
        n, out := FillOnce(src, nonblock, ptr);
        JoinSlices(src, from, ptr, ptr + n);
        Associate(before, src[from..ptr], src[ptr..ptr + n]);
        if n == 0 {
          return;
        }
        ptr := ptr + n;
      }
      Control(false);
    }

    /** The host takes a byte, and the interrupt routine puts others in its place. */
    method HostServes()
      requires Valid() && we && head != tail
      modifies this`fifo, this`hostGot, this`head, this`we
      ensures Valid() && HasRoom() && Ahead(head, tail) < old(Ahead(head, tail))
    {
      HostTake();
      ServeTransmit(Tx.TX_DEPTH - |fifo|);
    }

    /** Let time pass while the ring holds something.  A wait ends: in the end the host counts as gone or, if it is
        never to count as gone, it takes something. */
    method Wait()
      requires Valid() && head != tail && (we || watch.timeout <= J.INT_MAX - 2)
      modifies this`fifo, this`hostGot, this`head, this`we, this`patience, watch`inactive
      ensures Valid() && (old(HasRoom()) ==> HasRoom()) && Ahead(head, tail) <= old(Ahead(head, tail))
      ensures patience < old(patience) || (patience == old(patience) && (watch.HostGone() || Drained(old(head))))
    {
      if patience > 0 {
        patience := patience - 1;
        Interfere();
      } else if watch.timeout <= J.INT_MAX - 2 {
        watch.RunOut();
      } else {
        HostServes();
      }
    }

    /** The ring has moved on from `was`, and has room. */
    ghost predicate Drained(was: nat)
      reads this
    {
      HasRoom() && was < BUF_LEN && tail < BUF_LEN && Ahead(head, tail) < Ahead(was, tail)
    }

    /** The condition of the wait: the ring has not moved, and the host is not gone. */
    method MustWait(out: nat) returns (wait: bool)
      modifies watch`seen
      ensures wait == (out == head && watch.inactive < watch.timeout)
      ensures watch.seen == old(watch.seen) + if out == head && watch.HostGone() then 1 else 0
    {
      if out != head {
        return false;
      }
      var gone := watch.Expired();
      return !gone;
    }

    /** One turn of the wait. */
    method WaitOnce(out: nat) returns (wait: bool)
      requires Valid() && w.pc.Spin? && out == w.out == head && !watch.HostGone()
      modifies this`w, this`fifo, this`hostGot, this`head, this`we, this`patience, watch`inactive, watch`seen
      ensures Valid() && w == old(w) && wait == (out == head && !watch.HostGone())
      ensures watch.seen >= old(watch.seen) && (!wait && out == head ==> watch.seen > old(watch.seen))
      ensures patience < old(patience) || (patience == old(patience) && (watch.HostGone() || HasRoom()))
    {
      Control(false);
      Wait();
      wait := MustWait(out);
    }

    /** Spin until the interrupt routine has taken something, or the host has been seen to be gone. */
    method Spin(out: nat)
      requires Valid() && w.pc.Spin? && out == w.out
      modifies this`w, this`fifo, this`hostGot, this`head, this`we, this`patience, watch`inactive, watch`seen
      ensures Valid() && w == old(w).(pc := Tx.Recheck, gone := w.gone)
      ensures watch.seen >= old(watch.seen) && (w.gone ==> watch.seen > old(watch.seen))
    {
      patience := *;
      var wait := MustWait(out);
      while wait
        invariant Valid() && w == old(w) && wait == (out == head && !watch.HostGone())
        invariant watch.seen >= old(watch.seen)
        invariant !wait && out == head ==> watch.seen > old(watch.seen)
        decreases patience, if watch.HostGone() || HasRoom() then 0 else 1
      {
        wait := WaitOnce(out);
      }
      Control(out == head);
      Interfere();
    }

    /** The wait, and the test whether it was worth it. */
    method WaitForRoom(out: nat) returns (again: bool)
      requires Valid() && w.pc.Spin? && out == w.out
      modifies this`w, this`fifo, this`hostGot, this`head, this`we, this`patience, watch`inactive, watch`seen
      ensures Valid() && At(if again then Tx.Test else Tx.Idle, old(w.src), old(w.nonblock), old(w.ptr))
      ensures again ==> HasRoom()
      ensures watch.seen >= old(watch.seen) && (!again ==> watch.seen > old(watch.seen))
    {
      Interfere();
      Spin(out);
      again := out != head;
      Control(false);
      if again {
        Interfere();
      }
    }

    /** Set WE, and wait if there is data left: `again` if the ring has moved, otherwise the call is over. */
    method Settle(src: seq<byte>, nonblock: bool, ptr: nat, out: nat) returns (again: bool)
      requires Valid() && At(Tx.Enable, src, nonblock, ptr) && ptr <= |src| && (ptr < |src| ==> out == w.out)
      modifies this`w, this`fifo, this`hostGot, this`head, this`we, this`patience, watch`inactive, watch`seen
      ensures Valid() && At(if again then Tx.Test else Tx.Idle, src, nonblock, ptr)
      ensures again ==> ptr < |src| && HasRoom()
      ensures watch.seen >= old(watch.seen) && (!again ==> ptr == |src| || nonblock || watch.seen > old(watch.seen))
    {
      Interfere();
      EnableWrite();
      Interfere();
      Control(false);
      again := false;
      if ptr < |src| && !nonblock {
        again := WaitForRoom(out);
      }
    }

    /** Fill the ring, set WE, and wait if there is data left. */
    method Pass(src: seq<byte>, nonblock: bool, from: nat, ghost before: seq<byte>) returns (ptr: nat, again: bool)
      requires Valid() && At(Tx.Test, src, nonblock, from) && from <= |src| && accepted == before + src[..from]
      modifies this`w, this`tail, this`accepted, buf, this`fifo, this`hostGot, this`head, this`we, this`patience
      modifies watch`inactive, watch`seen
      ensures Valid() && At(if again then Tx.Test else Tx.Idle, src, nonblock, ptr) && from <= ptr <= |src|
      ensures accepted == before + src[..ptr] && (again ==> ptr < |src| && HasRoom())
      ensures from < |src| && old(HasRoom()) ==> from < ptr
      ensures watch.seen >= old(watch.seen) && (!again ==> ptr == |src| || nonblock || watch.seen > old(watch.seen))
    {
      var out;
      ptr, out := Fill(src, nonblock, from);
      JoinSlices(src, 0, from, ptr);
      Associate(before, src[..from], src[from..ptr]);
      again := Settle(src, nonblock, ptr, out);
    }

    /** write() of the fast driver.  It accepts a prefix of `src` and returns its length.  A blocking call accepts less
        than everything only if, while it waited, it looked and found the host gone; and any call accepts something if
        there is room when it begins. */
    method Write(src: seq<byte>, nonblock: bool) returns (rc: int)
      requires Valid() && w.pc.Idle?
      modifies this, buf, watch`inactive, watch`seen
      ensures Valid() && w.pc.Idle? && rc == w.rc
      ensures 0 < rc ==> rc <= |src| && accepted == old(accepted) + src[..rc]
      ensures rc <= 0 ==> accepted == old(accepted) && rc == if nonblock then -EWOULDBLOCK else -EIO
      ensures rc < |src| && !nonblock ==> src == [] || watch.seen > old(watch.seen)
      ensures src != [] && old(HasRoom()) ==> rc > 0
    {
      Begin(src, nonblock);
      Interfere();
      var ptr: nat, again := 0, true;
      ghost var roomy := HasRoom();
      while again
        invariant Valid() && At(if again then Tx.Test else Tx.Idle, src, nonblock, ptr) && ptr <= |src|
        invariant accepted == old(accepted) + src[..ptr]
        invariant roomy && again ==> HasRoom()
        invariant src != [] && old(HasRoom()) ==> ptr > 0 || again
        invariant watch.seen >= old(watch.seen)
        invariant !again ==> ptr == |src| || nonblock || watch.seen > old(watch.seen)
        decreases again, |src| - ptr, if roomy then 0 else 1
      {
        ptr, again := Pass(src, nonblock, ptr, old(accepted));
        roomy := true;
      }
      rc := if ptr != 0 then ptr else if nonblock then -EWOULDBLOCK else -EIO;
    }
  }

  /** The receive half of the driver's state, and the hardware's receive FIFO. */
  class Receiver {
    const buf: array<byte>
    const watch: Watch
    var tail: nat
    var head: nat
    var re: bool
    var fifo: seq<byte>
    var patience: nat
    ghost var r: Rx.Reader
    ghost var hostSent: seq<byte>
    ghost var delivered: seq<byte>

    ghost function Side(): Rx.Side
      reads this, buf
    {
      Rx.Side(Ring(buf[..], head, tail), re, fifo, r, hostSent, delivered)
    }

    ghost predicate Valid()
      reads this, buf
    {
      buf.Length == BUF_LEN && Rx.Inv(Side())
    }

    predicate HasData()
      reads this
    {
      head != tail
    }

    constructor (watch: Watch)
      ensures Valid() && fresh(buf) && this.watch == watch && re && r.pc.Idle? && delivered == []
    {
      this.watch := watch;
      buf := new byte[BUF_LEN];
      tail, head, re, fifo, patience := 0, 0, true, [], 0;
      r := Rx.Return(Rx.Reader(Rx.Idle, 0, true, [], [], 0, 0, 0, 0, false, 0));
      hostSent, delivered := [], [];
    }

    // ---------------------------------------------------------------- what the interrupt routine and the host do

    /** Take the oldest byte from the hardware; the result says whether more are waiting. */
    method PopOne() returns (ravail: bool)
      requires Valid() && Wrap(tail + 1) != head && fifo != []
      modifies this`fifo, this`tail, buf
      ensures Valid() && Side() == Rx.Pop(old(Side())) && HasData() && (ravail <==> fifo != [])
      ensures Ahead(head, tail) == Ahead(head, old(tail)) + 1
    {
      Rx.PopKeeps(Side());
      buf[tail] := fifo[0];
      tail := Wrap(tail + 1);
      fifo := fifo[1..];
      ravail := fifo != [];
    }

    /** The host is held off while the hardware is full. */
    method HostSend(b: byte)
      requires Valid()
      modifies this`fifo, this`hostSent
      ensures Valid() && Side() == Rx.HostSends(old(Side()), b) && old(fifo) <= fifo && fifo != []
    {
      Rx.HostSendsKeeps(Side(), b);
      if |fifo| < Rx.RX_DEPTH {
        hostSent, fifo := hostSent + [b], fifo + [b];
      }
    }

    method HostMoves()
      requires Valid()
      modifies this`fifo, this`hostSent
      ensures Valid() && |old(fifo)| <= |fifo|
    {
      var moves: nat := *;
      while moves > 0
        invariant Valid() && |old(fifo)| <= |fifo|
      {
        var b: byte := *;
        HostSend(b);
        moves := moves - 1;
      }
    }

    method DisableRead()
      requires Valid() && Wrap(tail + 1) == head
      modifies this`re
      ensures Valid() && Side() == Rx.Disable(old(Side()))
    {
      Rx.DisableKeeps(Side());
      re := false;
    }

    /** How many bytes are in the ring. */
    ghost function Waiting(): (n: nat)
      requires head < BUF_LEN && tail < BUF_LEN
      reads this
      ensures n < BUF_LEN && (n == 0 <==> head == tail) && (n == BUF_LEN - 1 <==> Wrap(tail + 1) == head)
    {
      Ahead(head, tail)
    }

    /** What has reached the ring is the first of what the host has sent. */
    lemma FirstSent()
      requires Valid()
      ensures |delivered| + Waiting() + |fifo| == |hostSent|
      ensures delivered + Ring(buf[..], head, tail).Contents() == hostSent[..|delivered| + Waiting()]
      ensures fifo == hostSent[|delivered| + Waiting()..]
    {
    }

    /** The interrupt routine's answer to RI: it takes in all that was waiting in the hardware and leaves RE as it was,
        or it fills the ring and switches RE off because more was waiting. */
    method ServeReceive()
      requires Valid()
      modifies this`fifo, this`hostSent, this`tail, this`re, buf
      ensures Valid() && (old(HasData()) || old(fifo) != [] ==> HasData()) && Waiting() >= old(Waiting())
      ensures || (re == old(re) && Waiting() >= old(Waiting()) + |old(fifo)|)
              || (!re && Wrap(tail + 1) == head)
      ensures old(Wrap(tail + 1) == head) || old(Waiting() + |fifo|) >= BUF_LEN ==> !re
    {
      var ravail := true;
      while Wrap(tail + 1) != head
        invariant Valid() && re == old(re)
        invariant old(Waiting()) <= Waiting() && old(Waiting() + |fifo|) <= Waiting() + |fifo|
        invariant !ravail ==> old(Waiting() + |fifo|) <= Waiting()
        invariant old(fifo) != [] && tail == old(tail) ==> fifo != [] && Waiting() == old(Waiting())
        invariant tail != old(tail) || old(HasData()) ==> HasData()
        invariant old(Wrap(tail + 1) == head) ==> tail == old(tail) && ravail
        decreases BUF_LEN - Ahead(head, tail)
      {
        if fifo == [] {
          ravail := false;
          break;
        }
        ravail := PopOne();
        HostMoves();
      }
      if ravail {
        DisableRead();
      }
    }

    /** What may happen between two statements of a thread: interrupts, ticks and the host. */
    method Interfere()
      requires Valid()
      modifies this`fifo, this`hostSent, this`tail, this`re, buf, watch`inactive
      ensures Valid() && (old(HasData()) ==> HasData())
    {
      watch.Ticks();
      var rounds: nat := *;
      while rounds > 0
        invariant Valid() && (old(HasData()) ==> HasData())
      {
        HostMoves();
        var ri := *;
        if re && ri {
          ServeReceive();
        }
        rounds := rounds - 1;
      }
    }

    // ---------------------------------------------------------------- the reading thread

    ghost predicate At(pc: Rx.Pc, cap: nat, nonblock: bool, got: seq<byte>)
      reads this
    {
      r.pc == pc && r.cap == cap && r.nonblock == nonblock && r.got == got
    }

    /** A statement that touches only the thread's own variables. */
    ghost method Control(gone: bool)
      requires Valid() && !r.pc.Publish? && !r.pc.Finish?
      modifies this`r
      ensures Valid() && r == Rx.Control(old(r), Ring(buf[..], head, tail), gone)
    {
      var was := Side();
      Rx.StepKeeps(was, gone);
      r := Rx.Control(r, was.ring, gone);
      assert Side() == Rx.Step(was, gone);
    }

    method Begin(cap: nat, nonblock: bool)
      requires Valid() && r.pc.Idle?
      modifies this`r
      ensures Valid() && At(Rx.Test, cap, nonblock, []) && !r.gone
    {
      ghost var was := Side();
      Rx.CallKeeps(was, cap, nonblock);
      r := Rx.Call(was, cap, nonblock).r;
      assert Side() == Rx.Call(was, cap, nonblock);
    }

    method LoadByte(at: nat) returns (b: byte)
      requires Valid() && r.pc.Copy? && |r.chunk| < r.n && at == r.out + |r.chunk|
      modifies this`r
      ensures Valid() && r == old(r).(chunk := old(r).chunk + [b])
    {
      b := buf[at];
      Control(false);
    }

    method PublishHead(out: nat, n: nat)
      requires Valid() && r.pc.Publish? && out == r.out && n == r.n
      modifies this`r, this`head, this`delivered
      ensures Valid() && r == Rx.Advance(old(r)) && delivered == old(delivered) + old(r).chunk
    {
      ghost var was := Side();
      Rx.PublishKeeps(was);
      head := Wrap(out + n);
      delivered := delivered + r.chunk;
      r := Rx.Advance(r);
      assert Side() == Rx.Step(was, false);
    }

    /** RE is set again if anything has been read; the call is over. */
    method Finish(got: seq<byte>)
      requires Valid() && r.pc.Finish? && got == r.got
      modifies this`r, this`re
      ensures Valid() && r == Rx.Return(old(r)) && re == (old(re) || got != [])
    {
      ghost var was := Side();
      Rx.StepKeeps(was, false);
      if got != [] {
        re := true;
      }
      r := Rx.Return(r);
      assert Side() == Rx.Step(was, false);
    }

    /** One byte of the copy, and whatever happens before the next. */
    method CopyByte(at: nat) returns (b: byte)
      requires Valid() && r.pc.Copy? && |r.chunk| < r.n && at == r.out + |r.chunk|
      modifies this`r, this`fifo, this`hostSent, this`tail, this`re, buf, watch`inactive
      ensures Valid() && r == old(r).(chunk := old(r).chunk + [b])
    {
      b := LoadByte(at);
      Interfere();
    }

    /** The copy out of the receive buffer, a byte at a time. */
    method CopyOut(out: nat, n: nat) returns (chunk: seq<byte>)
      requires Valid() && r.pc.Copy? && r.chunk == [] && out == r.out && n == r.n
      modifies this`r, this`fifo, this`hostSent, this`tail, this`re, buf, watch`inactive
      ensures Valid() && |chunk| == n && r == old(r).(pc := Rx.Publish, chunk := chunk)
    {
      chunk := [];
      while |chunk| < n
        invariant Valid() && |chunk| <= n && r == old(r).(chunk := chunk)
      {
        var b := CopyByte(out + |chunk|);
        chunk := chunk + [b];
      }
      Control(false);
      Interfere();
    }

    /** in = rx_in. */
    method SampleIn(cap: nat, nonblock: bool, got: seq<byte>) returns (inn: nat)
      requires Valid() && At(Rx.SnapIn, cap, nonblock, got)
      modifies this`r, this`fifo, this`hostSent, this`tail, this`re, buf, watch`inactive
      ensures Valid() && At(Rx.SnapOut, cap, nonblock, got) && inn == r.inn && (old(HasData()) ==> inn != head)
    {
      inn := tail;
      Control(false);
      Interfere();
    }

    /** The two snapshots and the run of bytes they show. */
    method Sample(cap: nat, nonblock: bool, got: seq<byte>) returns (inn: nat, out: nat, n: nat)
      requires Valid() && At(Rx.SnapIn, cap, nonblock, got)
      modifies this`r, this`fifo, this`hostSent, this`tail, this`re, buf, watch`inactive
      ensures Valid() && At(if n == 0 then Rx.Decide else Rx.Copy, cap, nonblock, got) && |got| < cap
      ensures inn == r.inn && out == r.out
      ensures n > 0 ==> r.chunk == [] && r.n == if n > cap - |got| then cap - |got| else n
      ensures old(HasData()) ==> n > 0
    {
      inn := SampleIn(cap, nonblock, got);
      out := head;
      n := Rx.ReadRun(inn, out);
      Control(false);
      Interfere();
    }

    /** Copy `n` bytes out of the ring and give their slots back. */
    method MoveOut(cap: nat, out: nat, n: nat) returns (chunk: seq<byte>)
      requires Valid() && r.pc.Copy? && r.chunk == [] && cap == r.cap && out == r.out && n == r.n
      modifies this`r, this`head, this`delivered, this`fifo, this`hostSent, this`tail, this`re, buf, watch`inactive
      ensures Valid() && |chunk| == n > 0 && delivered == old(delivered) + chunk
      ensures At(if |old(r.got) + chunk| < cap then Rx.SnapIn else Rx.Decide, cap, old(r.nonblock), old(r.got) + chunk)
    {
      chunk := CopyOut(out, n);
      PublishHead(out, n);
      Interfere();
    }

    /** Read as much as there is, in at most two runs or more if more keeps coming. */
    method Drain(cap: nat, nonblock: bool) returns (got: seq<byte>, inn: nat)
      requires Valid() && At(Rx.SnapIn, cap, nonblock, [])
      modifies this`r, this`head, this`delivered, this`fifo, this`hostSent, this`tail, this`re, buf, watch`inactive
      ensures Valid() && At(Rx.Decide, cap, nonblock, got) && |got| <= cap && delivered == old(delivered) + got
      ensures got == [] ==> inn == r.inn
      ensures old(HasData()) ==> got != []
    {
      got := [];
      ghost var before, promising := delivered, HasData();
      while true
        invariant Valid() && At(Rx.SnapIn, cap, nonblock, got) && |got| < cap && delivered == before + got
        invariant promising && got == [] ==> HasData()
        decreases cap - |got|
      {
        var out, n;
        inn, out, n := Sample(cap, nonblock, got);
        if n == 0 {
          return;
        }
        if n > cap - |got| {
          n := cap - |got|;
        }
        var chunk := MoveOut(cap, out, n);
        Associate(before, got, chunk);
        got := got + chunk;
        if |got| >= cap {
          return;
        }
      }
    }

    /** Let time pass while the ring is empty.  A wait ends: in the end the host counts as gone or, if it is never to
        count as gone, it sends something, which the interrupt routine takes in. */
    method Wait()
      requires Valid() && head == tail && re
      modifies this`fifo, this`hostSent, this`tail, this`re, this`patience, buf, watch`inactive
      ensures Valid()
      ensures patience < old(patience) || (patience == old(patience) && (watch.HostGone() || HasData()))
    {
      if patience > 0 {
        patience := patience - 1;
        Interfere();
      } else if watch.timeout <= J.INT_MAX - 2 {
        watch.RunOut();
      } else {
        var b: byte := *;
        HostSend(b);
        ServeReceive();
      }
    }

    /** The condition of the wait: the ring has not moved, and the host is not gone. */
    method MustWait(inn: nat) returns (wait: bool)
      modifies watch`seen
      ensures wait == (inn == tail && watch.inactive < watch.timeout)
      ensures watch.seen == old(watch.seen) + if inn == tail && watch.HostGone() then 1 else 0
    {
      if inn != tail {
        return false;
      }
      var gone := watch.Expired();
      return !gone;
    }

    /** One turn of the wait. */
    method WaitOnce(inn: nat) returns (wait: bool)
      requires Valid() && r.pc.Spin? && inn == r.inn == tail && !watch.HostGone()
      modifies this`r, this`fifo, this`hostSent, this`tail, this`re, this`patience, buf, watch`inactive, watch`seen
      ensures Valid() && r == old(r) && wait == (inn == tail && !watch.HostGone())
      ensures watch.seen >= old(watch.seen) && (!wait && inn == tail ==> watch.seen > old(watch.seen))
      ensures patience < old(patience) || (patience == old(patience) && (watch.HostGone() || HasData()))
    {
      Control(false);
      Wait();
      wait := MustWait(inn);
    }

    /** Spin until the interrupt routine has put something in, or the host has been seen to be gone. */
    method Spin(inn: nat)
      requires Valid() && r.pc.Spin? && inn == r.inn
      modifies this`r, this`fifo, this`hostSent, this`tail, this`re, this`patience, buf, watch`inactive, watch`seen
      ensures Valid() && r == old(r).(pc := Rx.Recheck, gone := r.gone)
      ensures watch.seen >= old(watch.seen) && (r.gone ==> watch.seen > old(watch.seen))
    {
      patience := *;
      var wait := MustWait(inn);
      while wait
        invariant Valid() && r == old(r) && wait == (inn == tail && !watch.HostGone())
        invariant watch.seen >= old(watch.seen)
        invariant !wait && inn == tail ==> watch.seen > old(watch.seen)
        decreases patience, if watch.HostGone() || HasData() then 0 else 1
      {
        wait := WaitOnce(inn);
      }
      Control(inn == tail);
      Interfere();
    }

    /** With nothing read: give up, or wait and see whether something has come. */
    method WaitForData(cap: nat, nonblock: bool, inn: nat) returns (again: bool)
      requires Valid() && At(Rx.Decide, cap, nonblock, []) && inn == r.inn
      modifies this`r, this`fifo, this`hostSent, this`tail, this`re, this`patience, buf, watch`inactive, watch`seen
      ensures Valid() && At(if again then Rx.Test else Rx.Finish, cap, nonblock, [])
      ensures again ==> HasData()
      ensures watch.seen >= old(watch.seen) && (!again ==> nonblock || watch.seen > old(watch.seen))
    {
      Control(false);
      Interfere();
      again := false;
      if !nonblock {
        Spin(inn);
        again := inn != tail;
        Control(false);
        Interfere();
      }
    }

    /** The inner loop, entered from the outer one. */
    method EnterAndDrain(cap: nat, nonblock: bool) returns (got: seq<byte>, inn: nat)
      requires Valid() && At(Rx.Test, cap, nonblock, []) && cap > 0
      modifies this`r, this`head, this`delivered, this`fifo, this`hostSent, this`tail, this`re, buf, watch`inactive
      ensures Valid() && At(Rx.Decide, cap, nonblock, got) && |got| <= cap && delivered == old(delivered) + got
      ensures (got == [] ==> inn == r.inn) && (old(HasData()) ==> got != [])
    {
      Control(false);
      Interfere();
      got, inn := Drain(cap, nonblock);
    }

    /** One pass of the outer loop: drain the ring, and if that gave nothing wait for more. */
    method Attempt(cap: nat, nonblock: bool) returns (again: bool, got: seq<byte>)
      requires Valid() && At(Rx.Test, cap, nonblock, []) && cap > 0
      modifies this`r, this`head, this`delivered, this`fifo, this`hostSent, this`tail, this`re, this`patience, buf,
               watch`inactive, watch`seen
      ensures Valid() && At(if again then Rx.Test else Rx.Finish, cap, nonblock, got)
      ensures |got| <= cap && delivered == old(delivered) + got && (again ==> got == [] && HasData())
      ensures old(HasData()) ==> !again && got != []
      ensures watch.seen >= old(watch.seen)
      ensures !again && got == [] ==> nonblock || watch.seen > old(watch.seen)
    {
      var inn;
      got, inn := EnterAndDrain(cap, nonblock);
      if got != [] {
        Control(false);
        again := false;
      } else {
        again := WaitForData(cap, nonblock, inn);
      }
    }

    /** read() of the fast driver.  It hands over up to `cap` bytes and returns their number.  A blocking call returns
        without any only if, while it waited, it looked and found the host gone; and any call returns some if there are
        any when it begins. */
    method Read(cap: nat, nonblock: bool) returns (rc: int, got: seq<byte>)
      requires Valid() && r.pc.Idle?
      modifies this, buf, watch`inactive, watch`seen
      ensures Valid() && r.pc.Idle? && rc == r.rc
      ensures |got| <= cap && delivered == old(delivered) + got
      ensures rc == if got != [] then |got| else if nonblock then -EWOULDBLOCK else -EIO
      ensures got == [] && !nonblock ==> cap == 0 || watch.seen > old(watch.seen)
      ensures cap > 0 && old(HasData()) ==> got != []
    {
      Begin(cap, nonblock);
      Interfere();
      got := [];
      ghost var before := delivered;
      var again := cap > 0;
      ghost var promising := HasData();
      if !again {
        Control(false);
      }
      while again
        invariant Valid() && At(if again then Rx.Test else Rx.Finish, cap, nonblock, got) && |got| <= cap
        invariant delivered == before + got
        invariant again ==> got == [] && cap > 0 && (promising ==> HasData())
        invariant old(HasData()) && cap > 0 ==> promising && (again || got != [])
        invariant watch.seen >= old(watch.seen)
        invariant !again && got == [] ==> cap == 0 || nonblock || watch.seen > old(watch.seen)
        decreases again, if promising then 0 else 1
      {
        again, got := Attempt(cap, nonblock);
        promising := true;
      }
      Interfere();
      Finish(got);
      rc := if got != [] then |got| else if nonblock then -EWOULDBLOCK else -EIO;
    }
  }

  /** The control register.  `shows` is what the hardware would show at the reads to come, RI and WI, if RE and WE let
      it; `quiet` is whether the last read showed neither. */
  class ControlRegister {
    var shows: seq<(bool, bool)>
    var quiet: bool

    /** RI shows only while RE is set, WI only while WE is set and the transmit FIFO has room. */
    method Read(tx: Transmitter, rx: Receiver) returns (ri: bool, wi: bool, space: int)
      modifies this
      ensures space == Tx.TX_DEPTH - |tx.fifo|
      ensures ri == (old(shows) != [] && old(shows)[0].0 && rx.re)
      ensures wi == (old(shows) != [] && old(shows)[0].1 && tx.we && space > 0)
      ensures shows == (if old(shows) == [] then [] else old(shows)[1..]) && quiet == !(ri || wi)
    {
      space := Tx.TX_DEPTH - |tx.fifo|;
      ri, wi := false, false;
      if shows != [] {
        ri, wi := shows[0].0 && rx.re, shows[0].1 && tx.we && space > 0;
        shows := shows[1..];
      }
      quiet := !(ri || wi);
    }
  }

  /** How full the rings and the hardware are, and the two enable bits. */
  datatype Levels = Levels(tx: nat, txFifo: nat, we: bool, rx: nat, rxFifo: nat, re: bool)

  ghost function LevelsOf(tx: Transmitter, rx: Receiver): Levels
    requires tx.Valid() && rx.Valid()
    reads tx, tx.buf, rx, rx.buf
  {
    Levels(tx.Waiting(), |tx.fifo|, tx.we, rx.Waiting(), |rx.fifo|, rx.re)
  }

  /** What serving WI comes to: it sends as much as there is space for, and switches WE off exactly if space is left. */
  predicate SentInTurn(b: Levels, a: Levels, wi: bool, space: nat) {
    if wi then a.tx == (if b.tx <= space then 0 else b.tx - space) && a.we == (b.we && space <= b.tx)
    else a.tx == b.tx && a.we == b.we
  }

  /** What serving RI comes to: all that was waiting is in the ring and RE is as it was, or the ring is full and RE is
      off; that is so if not all could be stored, or nothing. */
  predicate ReceivedInTurn(b: Levels, a: Levels, ri: bool) {
    && b.rx <= a.rx
    && if ri then
         && ((a.re == b.re && a.rx >= b.rx + b.rxFifo) || (!a.re && a.rx == BUF_LEN - 1))
         && (b.rx == BUF_LEN - 1 || b.rx + b.rxFifo >= BUF_LEN ==> !a.re)
       else a.rx == b.rx && a.re == b.re
  }

  /** What one read of the control register showed is served: the receive ring first, then the transmit ring. */
  method Serve(tx: Transmitter, rx: Receiver, ri: bool, wi: bool, space: nat)
    requires tx.Valid() && rx.Valid() && tx.buf != rx.buf && (wi ==> space + |tx.fifo| <= Tx.TX_DEPTH)
    modifies tx`fifo, tx`hostGot, tx`head, tx`we
    modifies rx`fifo, rx`hostSent, rx`tail, rx`re, rx.buf
    ensures tx.Valid() && rx.Valid()
    ensures SentInTurn(old(LevelsOf(tx, rx)), LevelsOf(tx, rx), wi, space)
    ensures ReceivedInTurn(old(LevelsOf(tx, rx)), LevelsOf(tx, rx), ri)
  {
    if ri {
      rx.ServeReceive();
    }
    if wi {
      tx.ServeTransmit(space);
    }
  }

  /** What the interrupt routine makes of the first thing it is shown: with WI, bytes have left the transmit ring if
      there were any, and if they all fitted the ring is empty and WE is off; with RI, all that was waiting has reached
      the receive ring, or the ring is full and RE is off. */
  predicate FirstServed(b: Levels, a: Levels, shows: seq<(bool, bool)>) {
    shows != [] ==>
      && (shows[0].1 && b.we && b.txFifo < Tx.TX_DEPTH ==>
            && (b.tx > 0 ==> a.tx < b.tx)
            && (b.tx + b.txFifo < Tx.TX_DEPTH ==> a.tx == 0 && !a.we))
      && (shows[0].0 && b.re ==> a.rx >= b.rx + b.rxFifo || (!a.re && a.rx == BUF_LEN - 1))
  }

  /** Nothing is taken back; WE goes off only with the transmit ring empty, RE only with the receive ring full. */
  predicate Forward(b: Levels, a: Levels) {
    && a.tx <= b.tx && b.rx <= a.rx
    && (a.we == b.we || (!a.we && a.tx == 0)) && (a.re == b.re || (!a.re && a.rx == BUF_LEN - 1))
  }

  /** The hardware moves while the routine looks away. */
  predicate HostMoved(b: Levels, a: Levels) {
    a.tx == b.tx && a.we == b.we && a.txFifo <= b.txFifo && a.rx == b.rx && a.re == b.re && a.rxFifo >= b.rxFifo
  }

  /** One turn of the routine, after the host has moved. */
  lemma TurnIs(b: Levels, m: Levels, a: Levels, shows: seq<(bool, bool)>, ri: bool, wi: bool, space: int)
    requires HostMoved(b, m) && space == Tx.TX_DEPTH - m.txFifo >= 0
    requires SentInTurn(m, a, wi, space) && ReceivedInTurn(m, a, ri)
    requires ri == (shows != [] && shows[0].0 && m.re) && wi == (shows != [] && shows[0].1 && m.we && space > 0)
    ensures FirstServed(b, a, shows) && Forward(b, a)
  {
  }

  /** Later turns undo nothing. */
  lemma LaterTurn(b: Levels, m: Levels, a: Levels, shows: seq<(bool, bool)>)
    requires FirstServed(b, m, shows) && Forward(b, m) && Forward(m, a) && a.rx < BUF_LEN
    ensures FirstServed(b, a, shows) && Forward(b, a)
  {
  }

  /** The control register is read once and served. */
  method Turn(tx: Transmitter, rx: Receiver, control: ControlRegister)
    requires tx.Valid() && rx.Valid() && tx.buf != rx.buf
    modifies tx`fifo, tx`hostGot, tx`head, tx`we
    modifies rx`fifo, rx`hostSent, rx`tail, rx`re, rx.buf
    modifies control
    ensures tx.Valid() && rx.Valid()
    ensures FirstServed(old(LevelsOf(tx, rx)), LevelsOf(tx, rx), old(control.shows))
    ensures Forward(old(LevelsOf(tx, rx)), LevelsOf(tx, rx))
    ensures !control.quiet ==> |control.shows| < |old(control.shows)|
  {
    ghost var b := LevelsOf(tx, rx);
    tx.HostMoves();
    rx.HostMoves();
    ghost var m := LevelsOf(tx, rx);
    ghost var shows := control.shows;
    var ri, wi, space := control.Read(tx, rx);
    if ri || wi {
      Serve(tx, rx, ri, wi, space);
    }
    TurnIs(b, m, LevelsOf(tx, rx), shows, ri, wi, space);
  }

  /** The interrupt routine: it reads the control register and serves what it shows, until it shows nothing; between two
      reads the host goes on sending and taking. */
  method Interrupt(tx: Transmitter, rx: Receiver, control: ControlRegister)
    requires tx.Valid() && rx.Valid() && tx.buf != rx.buf && !control.quiet
    modifies tx`fifo, tx`hostGot, tx`head, tx`we
    modifies rx`fifo, rx`hostSent, rx`tail, rx`re, rx.buf
    modifies control
    ensures tx.Valid() && rx.Valid() && control.quiet
    ensures FirstServed(old(LevelsOf(tx, rx)), LevelsOf(tx, rx), old(control.shows))
    ensures Forward(old(LevelsOf(tx, rx)), LevelsOf(tx, rx))
  {
    ghost var b, shows := LevelsOf(tx, rx), control.shows;
    Turn(tx, rx, control);
    while !control.quiet
      invariant tx.Valid() && rx.Valid()
      invariant FirstServed(b, LevelsOf(tx, rx), shows) && Forward(b, LevelsOf(tx, rx))
      decreases !control.quiet, |control.shows|
    {
      ghost var m := LevelsOf(tx, rx);
      Turn(tx, rx, control);
      LaterTurn(b, m, LevelsOf(tx, rx), shows);
    }
  }

  /** close(): wait until the ring has been emptied or the host is gone; zero means everything accepted is out of the
      ring, unless the host was found to be gone.  Without blocking, it looks once and returns zero exactly if it need
      not wait. */
  method Close(tx: Transmitter, nonblock: bool) returns (rc: int)
    requires tx.Valid() && (tx.w.pc.Idle? || tx.watch.timeout <= J.INT_MAX - 2)
    modifies tx`fifo, tx`hostGot, tx`head, tx`we, tx`patience, tx.watch`inactive, tx.watch`seen
    ensures tx.Valid() && (rc == 0 || (nonblock && rc == -EWOULDBLOCK && (tx.w.pc.Idle? ==> tx.we)))
    ensures rc == 0 ==> tx.watch.seen > old(tx.watch.seen) || tx.accepted == tx.hostGot + tx.fifo
    ensures nonblock ==> rc == if old(tx.head != tx.tail && !tx.watch.HostGone()) then -EWOULDBLOCK else 0
    ensures old(tx.watch.HostGone()) ==> rc == 0
  {
    tx.patience := *;
    var wait := MustDrain(tx);
    while wait
      invariant tx.Valid() && wait == (tx.head != tx.tail && !tx.watch.HostGone())
      invariant tx.watch.seen >= old(tx.watch.seen)
      invariant !wait ==> tx.watch.seen > old(tx.watch.seen) || tx.head == tx.tail
      invariant nonblock || old(tx.watch.HostGone()) ==> wait == old(tx.head != tx.tail && !tx.watch.HostGone())
      decreases tx.patience, Ahead(tx.head, tx.tail), if tx.watch.HostGone() then 0 else 1
    {
      if nonblock {
        return -EWOULDBLOCK;
      }
      tx.Wait();
      wait := MustDrain(tx);
    }
    return 0;
  }

  /** The condition of that wait. */
  method MustDrain(tx: Transmitter) returns (wait: bool)
    modifies tx.watch`seen
    ensures wait == (tx.head != tx.tail && tx.watch.inactive < tx.watch.timeout)
    ensures tx.watch.seen == old(tx.watch.seen) + if tx.head != tx.tail && tx.watch.HostGone() then 1 else 0
  {
    if tx.head == tx.tail {
      return false;
    }
    var gone := tx.watch.Expired();
    return !gone;
  }
}
