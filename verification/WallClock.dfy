/** The wall clock: a reset time plus the ticks since reset, in 32-bit arithmetic. */
module WallClock {
  import opened Bytes
  import opened Errno
  import opened Words

  const US: nat := 1_000_000
  datatype Time = Time(sec: int, usec: int) {
    function Micros(): int {
      sec * US + usec
    }

    predicate Normal() {
      0 <= sec && 0 <= usec < US
    }
  }

  /** Microseconds since reset according to the tick counter, in unbounded arithmetic. */
  function TickMicros(nticks: nat, rate: nat): nat
    requires rate > 0
  {
    nticks * (US / rate)
  }

  /** The sum of reset time and ticks before normalisation. */
  function RawTime(reset: Time, nticks: nat, rate: nat): Time
    requires rate > 0
  {
    Time(Int32(reset.sec + nticks / rate), Int32(reset.usec + TickMicros(nticks, rate) % US))
  }

  /** The normal form of a raw time: the same instant, or the epoch when a negative microsecond part cannot be made up
      for from the seconds. */
  function Normalised(t: Time): (n: Time)
    ensures 0 <= n.usec < US
  {
    if t.usec < 0 && t.Micros() < 0 then Time(0, 0)
    else Time((t.sec * US + t.usec) / US, (t.sec * US + t.usec) % US)
  }

  /** The reset time that setting the clock stores. */
  function ResetFor(t: Time, nticks: nat, rate: nat): Time
    requires rate > 0
  {
    Time(Int32(t.sec - nticks / rate), Int32(t.usec - TickMicros(nticks, rate) % WORD % US))
  }

  lemma NormalForm(t: Time, s: Time)
    requires t.Micros() == s.Micros() && 0 <= s.usec < US && !(t.usec < 0 && t.Micros() < 0)
    ensures Normalised(t) == s
  {
    EuclidIsUnique(t.sec * US + t.usec, US, s.sec, s.usec);
  }

  lemma EuclidIsUnique(x: int, m: nat, q: int, r: nat)
    requires m == US && r < m && x == q * m + r
    ensures x / m == q && x % m == r
  {
  }

  class Clock {
    var nticks: nat
    var tickRate: nat
    var reset: Time
    var zone: (int, int)

    ghost predicate Valid()
      reads this
    {
      nticks < WORD && tickRate < WORD && IsInt(reset.sec) && IsInt(reset.usec)
    }

    /** gettimeofday; the normalisation must not carry past the largest second. */
    method GetTimeOfDay() returns (rc: int, t: Time, zone: (int, int))
      requires Valid() && (tickRate > 0 ==> IsInt(Normalised(RawTime(reset, nticks, tickRate)).sec))
      ensures rc == if tickRate > 0 then 0 else -ENOTSUP
      ensures rc == 0 ==> t == Normalised(RawTime(reset, nticks, tickRate)) && zone == this.zone
    {
      t, zone := Time(0, 0), (0, 0);
      if tickRate == 0 {
        return -ENOTSUP, t, zone;
      }
      ghost var raw := RawTime(reset, nticks, tickRate);
      var sec := Int32(reset.sec + nticks / tickRate);
      var usec := Int32(reset.usec + nticks * (US / tickRate) % US);
      while usec < 0
        invariant if raw.usec < 0 && raw.Micros() < 0 then usec < 0 || (sec == 0 && usec == 0)
                  else sec * US + usec == raw.Micros() && (usec < 0 || raw.usec >= 0 || usec < US)
        invariant usec < 0 ==> sec * US + usec == raw.Micros() && raw.usec < 0
        decreases -usec
      {
        if sec <= 0 {
          sec := 0;
          usec := 0;
          break;
        } else {
          sec := sec - 1;
          usec := usec + US;
        }
      }
      while usec >= US
        invariant usec >= 0
        invariant if raw.usec < 0 && raw.Micros() < 0 then sec == 0 && usec == 0 else sec * US + usec == raw.Micros()
      {
        sec := sec + 1;
        usec := usec - US;
      }
      t := Time(sec, usec);
      zone := this.zone;
      if !(raw.usec < 0 && raw.Micros() < 0) {
        NormalForm(raw, t);
      }
      return 0, t, zone;
    }

    /** settimeofday; `errno` is left alone, at what it was, when there is a clock. */
    method SetTimeOfDay(t: Time, zone: (int, int), errno: int) returns (rc: int, err: int)
      requires Valid() && IsInt(t.sec) && IsInt(t.usec)
      modifies this`reset, this`zone
      ensures Valid()
      ensures rc == (if tickRate > 0 then 0 else -1) && err == if tickRate > 0 then errno else ENOSYS
      ensures rc == 0 ==> reset == ResetFor(t, nticks, tickRate) && this.zone == zone
      ensures rc != 0 ==> reset == old(reset) && this.zone == old(this.zone)
    {
      if tickRate > 0 {
        reset := Time(Int32(t.sec - nticks / tickRate), Int32(t.usec - nticks * (US / tickRate) % WORD % US));
        this.zone := zone;
        return 0, errno;
      }
      return -1, ENOSYS;
    }
  }

  // ---------------------------------------------------------------- the clock runs linearly

  /** With a tick rate that divides a second, the seconds and microseconds of the ticks add up to the ticks. */
  lemma TicksAddUp(n: nat, rate: nat)
    requires rate > 0 && US % rate == 0
    ensures n / rate * US + TickMicros(n, rate) % US == TickMicros(n, rate)
    ensures TickMicros(n, rate) * rate == n * US
  {
    var d, q, r := US / rate, n / rate, n % rate;
    assert US == d * rate && n == q * rate + r;
    assert n * d * rate == n * (d * rate);
    assert n * d == q * US + r * d by {
      assert n * d == q * rate * d + r * d == q * (d * rate) + r * d;
    }
    MultiplyOrdered(r + 1, rate, d);
    assert r * d < US;
    DivisionIsUnique(n * d, US, q, r * d);
  }

  /** And only then: for any other rate the clock is already wrong after one second of ticks. */
  lemma RunsLinearlyExactlyIfRateDivides(rate: nat)
    requires 0 < rate < WORD
    ensures US % rate == 0 <==>
      forall n: nat :: n < WORD ==> n / rate * US + TickMicros(n, rate) % US == TickMicros(n, rate)
  {
    if US % rate == 0 {
      forall n: nat | n < WORD
        ensures n / rate * US + TickMicros(n, rate) % US == TickMicros(n, rate)
      {
        TicksAddUp(n, rate);
      }
    } else {
      var d := US / rate;
      assert US == d * rate + US % rate;
      assert TickMicros(rate, rate) == rate * d < US;
      DivisionIsUnique(rate, rate, 1, 0);
      assert rate / rate * US + TickMicros(rate, rate) % US != TickMicros(rate, rate);
    }
  }

  /** With such a rate, and as long as nothing overflows and no clamp occurs, the time read is the reset time plus the
      ticks, in normal form. */
  lemma ReadingIsLinear(reset: Time, n: nat, rate: nat)
    requires rate > 0 && US % rate == 0
    requires IsInt(reset.sec + n / rate) && IsInt(reset.usec + TickMicros(n, rate) % US)
    requires reset.Micros() + TickMicros(n, rate) >= 0
    ensures Normalised(RawTime(reset, n, rate)).Micros() == reset.Micros() + TickMicros(n, rate)
  {
    TicksAddUp(n, rate);
    var raw := RawTime(reset, n, rate);
    assert raw.Micros() == reset.Micros() + TickMicros(n, rate);
    EuclidSum(raw.Micros());
  }

  lemma EuclidSum(x: int)
    ensures x / US * US + x % US == x
  {
  }

  // ---------------------------------------------------------------- set, then get

  /** Whether the 32-bit product in settimeofday leaves the same microseconds as the 64-bit one in gettimeofday. */
  predicate ProductsAgree(n: nat, rate: nat)
    requires rate > 0
  {
    TickMicros(n, rate) / WORD % 15625 == 0
  }

  /** Truncating to 32 bits is harmless modulo a million exactly if what is cut off is a multiple of 15625 words. */
  lemma TruncationModuloMillion(k: nat)
    ensures k % WORD % US == k % US <==> k / WORD % 15625 == 0
  {
    var q, m := k / WORD, k % WORD;
    assert k == q * WORD + m && WORD == 0x400_0000 * 64 && US == 15625 * 64;
    if q % 15625 == 0 {
      var r := q / 15625;
      assert k == m + r * 0x400_0000 * US;
      AddMillions(m, r * 0x400_0000);
    } else if m % US == k % US {
      var j := k / US - m / US;
      assert q * WORD == j * US;
      assert q * 0x400_0000 == j * 15625;
      // 2^26 is invertible modulo 15625
      assert 0x400_0000 * 12659 == 15625 * 54369991 + 1;
      assert q == 15625 * (j * 12659 - q * 54369991);
      MultipleHasNoRemainder(q, j * 12659 - q * 54369991);
    }
  }

  lemma AddMillions(m: nat, r: nat)
    ensures (m + r * US) % US == m % US
  {
    DivisionIsUnique(m + r * US, US, m / US + r, m % US);
  }

  lemma MultipleHasNoRemainder(q: nat, j: int)
    requires q == 15625 * j
    ensures q % 15625 == 0
  {
  }

  /** Reading back a time that has just been set.  It comes back exactly if the two products agree, or if the time is
      the epoch and the disagreement is clamped away. */
  lemma SetThenGet(t: Time, n: nat, rate: nat)
    requires t.Normal() && t.sec < 0x8000_0000 && 0 < rate && n < WORD
    ensures var k := TickMicros(n, rate);
      Normalised(RawTime(ResetFor(t, n, rate), n, rate)) == t <==>
        ProductsAgree(n, rate) || (t == Time(0, 0) && k % US < k % WORD % US)
  {
    var k := TickMicros(n, rate);
    TruncationModuloMillion(k);
    Int32Undone(t.sec, n / rate);
    var raw := RawTime(ResetFor(t, n, rate), n, rate);
    assert raw == Time(t.sec, t.usec - k % WORD % US + k % US);
    if k % WORD % US == k % US {
      NormalForm(raw, t);
    } else if !(raw.usec < 0 && raw.Micros() < 0) {
      EuclidSum(raw.Micros());
    }
  }

  /** Subtracting and adding back survives the 32-bit conversions. */
  lemma Int32Undone(x: int, q: nat)
    requires IsInt(x)
    ensures Int32(Int32(x - q) + q) == x
  {
  }

  /** In particular it comes back whenever the tick product fits 32 bits. */
  lemma SetThenGetWhileProductFits(t: Time, n: nat, rate: nat)
    requires t.Normal() && t.sec < 0x8000_0000 && 0 < rate && n < WORD && TickMicros(n, rate) < WORD
    ensures Normalised(RawTime(ResetFor(t, n, rate), n, rate)) == t
  {
    SetThenGet(t, n, rate);
  }

  /** At 1000 ticks a second the product outgrows 32 bits after less than 72 minutes, and a time set then is read back
      wrongly. */
  lemma SetThenGetFailsAfterOverflow()
    ensures TickMicros(4_294_968, 1000) == 4_294_968_000
    ensures Normalised(RawTime(ResetFor(Time(100, 0), 4_294_968, 1000), 4_294_968, 1000)) != Time(100, 0)
  {
    SetThenGet(Time(100, 0), 4_294_968, 1000);
  }
}
