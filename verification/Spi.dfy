/** The SPI master that drives the flash chip, and the byte engine on top of it. */
module Spi {
  import opened Bytes
  import opened EpcsChip

  function Zeros(n: nat): (z: seq<byte>)
    ensures |z| == n
  {
    seq(n, _ => 0)
  }

  /** The `n` bytes the chip answers while zeros are clocked in after window `w`. */
  function Answers(c: Chip, w: seq<byte>, n: nat): (r: seq<byte>)
    requires c.Valid()
    ensures |r| == n
  {
    seq(n, i requires 0 <= i < n => Respond(c, w + Zeros(i)))
  }

  /** The commands that reach the chip: a window, unless it is one of the status reads of a busy wait. */
  function Logged(log: seq<seq<byte>>, w: seq<byte>): seq<seq<byte>> {
    if w != [] && w[0] == RDSR then log else log + [w]
  }

  /** The controller's registers and the chip on its wires.  `shifting` is the answer to the byte in flight, `stale`
      whether RXDATA still holds a byte of an interrupted transfer, and `patience` the number of status reads the
      controller may still take before it reports progress. */
  class SpiMaster {
    var chip: Chip
    var window: seq<byte>
    var selected: bool
    var shifting: Option<byte>
    var stale: bool
    var patience: nat
    ghost var commands: seq<seq<byte>>

    ghost predicate Valid()
      reads this
    {
      chip.Valid() && (!selected ==> window == [])
    }

    /** Between two commands. */
    ghost predicate Idle()
      reads this
    {
      Valid() && shifting.None?
    }

    constructor (c: Chip)
      requires c.Valid()
      ensures Idle() && !selected && chip == c && commands == []
    {
      chip, window, selected, shifting, stale, patience, commands := c, [], false, None, true, 0, [];
    }

    method AssertSelect()
      modifies this`selected
      ensures selected
    {
      selected := true;
    }

    /** A read of the status register: RRDY only with a byte in flight or a stale one, TMT only without a
        byte in flight, and some progress before patience runs out. */
    method ReadStatus() returns (trdy: bool, rrdy: bool, tmt: bool)
      modifies this`patience
      ensures rrdy ==> shifting.Some? || stale
      ensures tmt ==> shifting.None?
      ensures if old(patience) > 0 then patience < old(patience)
              else patience == 0 && (if shifting.Some? then rrdy else trdy && tmt)
    {
      trdy, rrdy, tmt := *, *, *;
      if patience == 0 {
        trdy, rrdy, tmt := shifting.None?, shifting.Some?, shifting.None?;
      } else {
        patience := patience - 1;
        rrdy := rrdy && (shifting.Some? || stale);
        tmt := tmt && shifting.None?;
      }
    }

    method DiscardRxData()
      modifies this`stale
      ensures !stale
    {
      stale := false;
    }

    method WriteTxData(b: byte)
      requires Valid() && selected && shifting.None?
      modifies this`window, this`shifting, this`patience
      ensures shifting == Some(Respond(chip, old(window))) && window == old(window) + [b]
    {
      shifting := Some(Respond(chip, window));
      window := window + [b];
      patience := *;
    }

    method ReadRxData() returns (b: byte)
      requires shifting.Some?
      modifies this`shifting, this`patience
      ensures old(shifting) == Some(b) && shifting.None?
    {
      b := shifting.value;
      shifting := None;
      patience := *;
    }

    method ReleaseSelect()
      requires Valid()
      modifies this
      ensures Valid() && !selected && window == []
      ensures chip == Deselect(old(chip), old(window)) && commands == Logged(old(commands), old(window))
      ensures shifting == old(shifting) && stale == old(stale)
    {
      commands := Logged(commands, window);
      chip := Deselect(chip, window);
      window, selected := [], false;
    }

    /** Poll until a byte can be sent or has arrived. */
    method AwaitWork(credits: int) returns (trdy: bool, rrdy: bool)
      requires !stale && (shifting.None? <==> credits != 0)
      modifies this`patience
      ensures (trdy && credits != 0) || rrdy
      ensures rrdy ==> shifting.Some?
    {
      var tmt;
      trdy, rrdy, tmt := ReadStatus();
      while (!trdy || credits == 0) && !rrdy
        invariant rrdy ==> shifting.Some?
        modifies this`patience
        decreases patience, if (!trdy || credits == 0) && !rrdy then 1 else 0
      {
        trdy, rrdy, tmt := ReadStatus();
      }
    }

    /** Wait until the interface has finished transmitting. */
    method AwaitEmpty()
      requires shifting.None?
      modifies this`patience
    {
      var trdy, rrdy, tmt := ReadStatus();
      while !tmt
        modifies this`patience
        decreases patience, !tmt
      {
        trdy, rrdy, tmt := ReadStatus();
      }
    }

    /** Clock `writeData` and then `readLength` zeros through the interface, never more than one byte ahead of the
        answers, and keep the answers to the zeros. */
    method Clock(writeData: seq<byte>, readLength: nat) returns (readData: seq<byte>)
      requires Idle() && selected && !stale && |writeData| + readLength > 0
      modifies this`window, this`shifting, this`patience
      ensures Idle() && window == old(window) + writeData + Zeros(readLength)
      ensures readData == Answers(chip, old(window) + writeData, readLength)
    {
      var writeZeros, readIgnore, credits, next := readLength, |writeData|, 1, 0;
      readData := [];
      ghost var w0, all, sent, received := window, writeData + Zeros(readLength), 0, 0;
      while true
        invariant received <= sent <= |all| && sent - received == 1 - credits && 0 <= credits <= 1
        invariant received < |all| && window == w0 + all[..sent]
        invariant if credits == 1 then shifting.None? else shifting == Some(Respond(chip, w0 + all[..received]))
        invariant next == (if sent < |writeData| then sent else |writeData|) && writeZeros == readLength - (sent - next)
        invariant readIgnore == if received < |writeData| then |writeData| - received else 0
        invariant |readData| == received - (|writeData| - readIgnore)
        invariant forall i :: 0 <= i < |readData| ==> readData[i] == Respond(chip, w0 + all[..|writeData| + i])
        decreases 2 * |all| - sent - received
      {
        var trdy, rrdy := AwaitWork(credits);
        if trdy && credits > 0 {
          credits := credits - 1;
          if next < |writeData| {
            WriteTxData(writeData[next]);
            next := next + 1;
          } else if writeZeros > 0 {
            writeZeros := writeZeros - 1;
            WriteTxData(0);
          } else {
            assert false;
            credits := -1024;
          }
          sent := sent + 1;
        }
        if rrdy {
          var rxdata := ReadRxData();
          if readIgnore > 0 {
            readIgnore := readIgnore - 1;
          } else {
            readData := readData + [rxdata];
          }
          credits := credits + 1;
          received := received + 1;
          if readIgnore == 0 && |readData| == readLength {
            break;
          }
        }
      }
      forall i | 0 <= i < readLength
        ensures w0 + all[..|writeData| + i] == w0 + writeData + Zeros(i)
      {
      }
    }

    /** One transaction: `writeData` is sent, then `readLength` zeros, and the answers to the zeros are returned.
        Chip select is released at the end unless `merge` is set. */
    method Command(writeData: seq<byte>, readLength: nat, merge: bool) returns (readData: seq<byte>)
      requires Idle() && |writeData| + readLength > 0
      modifies this
      ensures Idle() && selected == merge
      ensures readData == Answers(old(chip), old(window) + writeData, readLength)
      ensures var w := old(window) + writeData + Zeros(readLength);
        if merge then window == w && chip == old(chip) && commands == old(commands)
        else window == [] && chip == Deselect(old(chip), w) && commands == Logged(old(commands), w)
    {
      AssertSelect();
      DiscardRxData();
      readData := Clock(writeData, readLength);
      AwaitEmpty();
      if !merge {
        ReleaseSelect();
      }
    }
  }
}
