/** Alarms on a 32-bit tick counter that wraps, compared with an unbounded clock. */
module AlarmTime {
  const WRAP: nat := 0x1_0000_0000

  /** Addition of 32-bit values. */
  function Plus(a: nat, b: nat): (r: nat)
    ensures r < WRAP
    ensures a + b < WRAP ==> r == a + b
    ensures WRAP <= a + b < 2 * WRAP ==> r == a + b - WRAP
  {
    (a + b) % WRAP
  }

  /** The tick counter after `now` ticks. */
  function Counter(now: nat): (c: nat)
    ensures c < WRAP
  {
    now % WRAP
  }

  lemma CounterSteps(now: nat)
    ensures Counter(now + 1) == if Counter(now) == WRAP - 1 then 0 else Counter(now) + 1
    ensures Counter(now + 1) == Plus(Counter(now), 1)
  {
  }

  /** The clear of the roll-over flag in a tick that brings the counter to `c`. */
  function Cleared(rollover: bool, c: nat): bool {
    rollover && c != 0
  }

  /** Whether an alarm's callback is made in that tick. */
  predicate Fires(time: nat, rollover: bool, c: nat) {
    time <= c && !Cleared(rollover, c)
  }

  /** The tick at which an alarm will next fire, told from its fields alone. */
  function NextFire(now: nat, time: nat, rollover: bool): nat
    requires time < WRAP
  {
    var c := Counter(now);
    if rollover || (c == WRAP - 1 && time <= c) then now + (WRAP - c) + time
    else if time > c then now + (time - c)
    else now + 1
  }

  /** The prediction is right: the next tick fires the alarm exactly if it is the predicted one, and otherwise leaves
      the prediction as it was. */
  lemma PredictionHolds(now: nat, time: nat, rollover: bool)
    requires time < WRAP
    ensures now < NextFire(now, time, rollover)
    ensures Fires(time, rollover, Counter(now + 1)) <==> NextFire(now, time, rollover) == now + 1
    ensures !Fires(time, rollover, Counter(now + 1)) ==>
      NextFire(now + 1, time, Cleared(rollover, Counter(now + 1))) == NextFire(now, time, rollover)
  {
    CounterSteps(now);
  }

  /** An alarm that fires with the counter equal to its time, not beyond it. */
  predicate Punctual(now: nat, time: nat, rollover: bool) {
    rollover || time > Counter(now) || Counter(now) == WRAP - 1
  }

  lemma PunctualStays(now: nat, time: nat, rollover: bool)
    requires time < WRAP && Punctual(now, time, rollover)
    ensures if Fires(time, rollover, Counter(now + 1)) then time == Counter(now + 1)
            else Punctual(now + 1, time, Cleared(rollover, Counter(now + 1)))
  {
    CounterSteps(now);
  }

  /** The deadline and flag that starting an alarm computes. */
  function StartTime(n: nat, c: nat): nat {
    Plus(n + c, 1)
  }

  /** A started alarm first fires on exactly the (n+1)-th later tick, if and only if `n` is not the largest 32-bit value
      or the counter is about to wrap.  Otherwise it fires at the next tick. */
  lemma StartIsExact(now: nat, n: nat)
    requires n < WRAP
    ensures var c, time := Counter(now), StartTime(n, Counter(now));
      && (NextFire(now, time, time < c) == now + n + 1 <==> n < WRAP - 1 || c == WRAP - 1)
      && (n < WRAP - 1 || c == WRAP - 1 ==> Punctual(now, time, time < c))
      && (!(n < WRAP - 1 || c == WRAP - 1) ==> NextFire(now, time, time < c) == now + 1)
  {
    var c := Counter(now);
    if n + c + 1 == 2 * WRAP - 1 {
      assert StartTime(n, c) == WRAP - 1;
    }
  }

  /** A punctual alarm rescheduled by `p` fires exactly `p` ticks later, for every non-zero 32-bit `p`. */
  lemma RescheduleIsExact(now: nat, p: nat)
    requires 0 < p < WRAP
    ensures var c := Counter(now);
      var time := Plus(c, p);
      NextFire(now, time, time < c) == now + p && Punctual(now, time, time < c)
  {
  }
}

/** The alarm list and the tick routine that walks it. */
module AlarmList {
  import opened AlarmTime
  import opened Errno

  /** A history of firings and callback results in which every firing came exactly when due: the first at `first`,
      each later one as many ticks after the one before as its callback asked for. */
  ghost predicate OnSchedule(first: nat, fires: seq<nat>, returned: seq<nat>) {
    |fires| == |returned| && forall k :: 0 <= k < |fires| ==> InStep(first, fires, returned, k)
  }

  ghost predicate InStep(first: nat, fires: seq<nat>, returned: seq<nat>, k: nat)
    requires k < |fires| == |returned|
  {
    if k == 0 then fires[0] == first else returned[k - 1] > 0 && fires[k] == fires[k - 1] + returned[k - 1]
  }

  /** When the next firing is due. */
  ghost function DueAfter(first: nat, fires: seq<nat>, returned: seq<nat>): nat
    requires |fires| == |returned|
  {
    if fires == [] then first else fires[|fires| - 1] + returned[|fires| - 1]
  }

  /** The last callback, if there has been one, asked for another. */
  ghost predicate Continues(returned: seq<nat>) {
    returned != [] ==> returned[|returned| - 1] > 0
  }

  lemma FiringWhenDue(first: nat, fires: seq<nat>, returned: seq<nat>, p: nat)
    requires OnSchedule(first, fires, returned) && Continues(returned)
    ensures var due := DueAfter(first, fires, returned);
      OnSchedule(first, fires + [due], returned + [p]) && DueAfter(first, fires + [due], returned + [p]) == due + p
  {
    var f, r := fires + [DueAfter(first, fires, returned)], returned + [p];
    forall k | 0 <= k < |f|
      ensures InStep(first, f, r, k)
    {
      if k < |fires| {
        assert InStep(first, fires, returned, k);
      }
    }
  }

  // ---------------------------------------------------------------- an alarm as a value

  /** The fields of an alarm.  `plan` is what its callback will return, call after call (and zero after that); `first`
      is the tick it was started for, `fires` the ticks at which its callback has been made, `returned` what the
      callback returned. */
  datatype Snapshot =
    Snapshot(time: nat, rollover: bool, plan: seq<nat>, first: nat, fires: seq<nat>, returned: seq<nat>)

  function NextPeriod(s: Snapshot): nat {
    if s.plan == [] then 0 else s.plan[0]
  }

  /** What the tick ending at `now`, which brings the counter to `c`, does to a listed alarm. */
  function AfterTick(s: Snapshot, c: nat, now: nat): Snapshot {
    var rollover, p := Cleared(s.rollover, c), NextPeriod(s);
    if !Fires(s.time, s.rollover, c) then s.(rollover := rollover)
    else
      var time := if p == 0 then s.time else Plus(s.time, p);
      s.(time := time, rollover := p != 0 && time < c, plan := if s.plan == [] then [] else s.plan[1..],
         fires := s.fires + [now], returned := s.returned + [p])
  }

  /** Whether the alarm is still listed after it. */
  predicate StaysListed(s: Snapshot, c: nat) {
    Fires(s.time, s.rollover, c) ==> NextPeriod(s) != 0
  }

  ghost predicate Plausible(s: Snapshot) {
    && OnSchedule(s.first, s.fires, s.returned) && Continues(s.returned)
    && forall i :: 0 <= i < |s.plan| ==> s.plan[i] < WRAP
  }

  ghost function Due(s: Snapshot): nat
    requires |s.fires| == |s.returned|
  {
    DueAfter(s.first, s.fires, s.returned)
  }

  /** On schedule so far, and set to fire next exactly when due. */
  ghost predicate Armed(s: Snapshot, now: nat) {
    && Plausible(s) && s.time < WRAP && now < Due(s)
    && Punctual(now, s.time, s.rollover) && NextFire(now, s.time, s.rollover) == Due(s)
  }

  /** A tick makes an armed alarm's callback exactly when it is due.  The alarm stays listed unless the callback returns
      zero, and is then armed again: for the same tick if it did not fire, for the tick its callback asked for if it
      did. */
  lemma ArmedFiresWhenDue(s: Snapshot, now: nat)
    requires Armed(s, now)
    ensures var c := Counter(now + 1);
      var t := AfterTick(s, c, now + 1);
      && OnSchedule(t.first, t.fires, t.returned) && t.first == s.first
      && (t.fires == (if Due(s) == now + 1 then s.fires + [now + 1] else s.fires))
      && (StaysListed(s, c) <==> Continues(t.returned))
      && (StaysListed(s, c) ==> Armed(t, now + 1))
      && (StaysListed(s, c) ==> Due(t) == if Due(s) == now + 1 then now + 1 + NextPeriod(s) else Due(s))
  {
    PredictionHolds(now, s.time, s.rollover);
    PunctualStays(now, s.time, s.rollover);
    if Due(s) == now + 1 {
      FiringWhenDue(s.first, s.fires, s.returned, NextPeriod(s));
      if NextPeriod(s) > 0 {
        RescheduleIsExact(now + 1, NextPeriod(s));
      }
    }
  }

  // ---------------------------------------------------------------- an alarm over a whole run

  /** An alarm and whether it is still listed, `k` ticks on from `now`. */
  function Run(s: Snapshot, now: nat, k: nat): (Snapshot, bool)
    decreases k
  {
    if k == 0 then (s, true)
    else
      var (t, listed) := Run(s, now, k - 1);
      var c := Counter(now + k);
      if listed then (AfterTick(t, c, now + k), StaysListed(t, c)) else (t, false)
  }

  /** A tick later, an armed alarm is on schedule, and armed if it is still listed. */
  lemma ArmedTick(s: Snapshot, now: nat)
    requires Armed(s, now)
    ensures var c := Counter(now + 1);
      var t := AfterTick(s, c, now + 1);
      OnSchedule(t.first, t.fires, t.returned) && t.first == s.first && (StaysListed(s, c) ==> Armed(t, now + 1))
  {
    ArmedFiresWhenDue(s, now);
  }

  /** A run so far: every firing of the alarm came when due, and if it is still listed it is armed. */
  ghost predicate OnTime(s: Snapshot, run: (Snapshot, bool), now: nat) {
    && OnSchedule(run.0.first, run.0.fires, run.0.returned) && run.0.first == s.first
    && (run.1 ==> Armed(run.0, now))
  }

  lemma OnTimeTick(s: Snapshot, t: Snapshot, now: nat)
    requires OnTime(s, (t, true), now)
    ensures var c := Counter(now + 1); OnTime(s, (AfterTick(t, c, now + 1), StaysListed(t, c)), now + 1)
  {
    ArmedTick(t, now);
  }

  lemma {:induction false} RunOnTime(s: Snapshot, now: nat, k: nat)
    requires Armed(s, now)
    ensures OnTime(s, Run(s, now, k), now + k)
    decreases k
  {
    if k > 0 {
      RunOnTime(s, now, k - 1);
      if Run(s, now, k - 1).1 {
        OnTimeTick(s, Run(s, now, k - 1).0, now + k - 1);
      }
    }
  }

  /** Over any number of ticks, and any number of counter roll-overs, every firing of an armed alarm comes exactly when
      due. */
  lemma AlwaysOnTime(s: Snapshot, now: nat, k: nat)
    requires Armed(s, now)
    ensures var (t, listed) := Run(s, now, k);
      && OnSchedule(t.first, t.fires, t.returned) && t.first == s.first
      && (listed ==> Armed(t, now + k))
  {
    RunOnTime(s, now, k);
  }

  /** One tick before it is due: it stays armed for the same tick, and nothing is recorded. */
  lemma QuietTick(s: Snapshot, now: nat)
    requires Armed(s, now) && now + 1 < Due(s)
    ensures var c := Counter(now + 1);
      var t := AfterTick(s, c, now + 1);
      StaysListed(s, c) && Armed(t, now + 1) && t.fires == s.fires && Due(t) == Due(s)
  {
    PredictionHolds(now, s.time, s.rollover);
    ArmedFiresWhenDue(s, now);
  }

  /** A run so far: the alarm is listed and armed as it was, and has not fired. */
  ghost predicate Quiet(s: Snapshot, run: (Snapshot, bool), now: nat)
    requires |s.fires| == |s.returned|
  {
    && run.1 && Armed(run.0, now) && |run.0.fires| == |run.0.returned| && run.0.fires == s.fires
    && Due(run.0) == Due(s)
  }

  lemma StaysQuiet(s: Snapshot, t: Snapshot, now: nat)
    requires |s.fires| == |s.returned| && Quiet(s, (t, true), now) && now + 1 < Due(s)
    ensures var c := Counter(now + 1); Quiet(s, (AfterTick(t, c, now + 1), StaysListed(t, c)), now + 1)
  {
    QuietTick(t, now);
  }

  /** Nothing happens before an armed alarm is due. */
  lemma {:induction false} QuietUntilDue(s: Snapshot, now: nat, k: nat)
    requires Armed(s, now) && now + k < Due(s)
    ensures Quiet(s, Run(s, now, k), now + k)
    decreases k
  {
    if k > 0 {
      QuietUntilDue(s, now, k - 1);
      StaysQuiet(s, Run(s, now, k - 1).0, now + k - 1);
    }
  }

  /** An alarm as starting it leaves it. */
  function Started(now: nat, n: nat, plan: seq<nat>): Snapshot {
    var time := StartTime(n, Counter(now));
    Snapshot(time, time < Counter(now), plan, now + n + 1, [], [])
  }

  /** An alarm started with `n` makes its first callback on exactly the (n+1)-th tick after the start. */
  lemma FirstFiring(now: nat, n: nat, plan: seq<nat>)
    requires n < WRAP - 1 && forall i :: 0 <= i < |plan| ==> plan[i] < WRAP
    ensures Armed(Started(now, n, plan), now)
    ensures Run(Started(now, n, plan), now, n).0.fires == []
    ensures Run(Started(now, n, plan), now, n + 1).0.fires == [now + n + 1]
  {
    var s := Started(now, n, plan);
    StartIsExact(now, n);
    QuietUntilDue(s, now, n);
    ArmedFiresWhenDue(Run(s, now, n).0, now + n);
  }

  // ---------------------------------------------------------------- the alarm list

  class Alarm {
    var time: nat
    var rollover: bool
    var plan: seq<nat>
    ghost var first: nat
    ghost var fires: seq<nat>
    ghost var returned: seq<nat>

    constructor (plan: seq<nat>)
      ensures this.plan == plan
    {
      this.plan := plan;
      time, rollover, first, fires, returned := 0, false, 0, [], [];
    }

    ghost function State(): Snapshot
      reads this
    {
      Snapshot(time, rollover, plan, first, fires, returned)
    }

    /** Make the callback. */
    method Callback(ghost now: nat) returns (next: nat)
      modifies this`plan, this`fires, this`returned
      ensures next == NextPeriod(old(State()))
      ensures plan == if old(plan) == [] then [] else old(plan)[1..]
      ensures fires == old(fires) + [now] && returned == old(returned) + [next]
    {
      next := 0;
      if plan != [] {
        next := plan[0];
        plan := plan[1..];
      }
      fires, returned := fires + [now], returned + [next];
    }

    /** The body of the walk over the list; the result says whether the alarm stays listed. */
    method OnTick(c: nat, ghost now: nat) returns (stays: bool)
      modifies this
      ensures State() == AfterTick(old(State()), c, now) && stays == StaysListed(old(State()), c)
    {
      stays := true;
      if rollover && c == 0 {
        rollover := false;
      }
      if time <= c && !rollover {
        var nextCallback := Callback(now);
        if nextCallback == 0 {
          stays := false;
        } else {
          time := Plus(time, nextCallback);
          if time < c {
            rollover := true;
          }
        }
      }
    }
  }

  /** The state of the alarm facility.  `now` is the number of ticks since reset, which the counter cannot hold. */
  class Clock {
    var nticks: nat
    var tickRate: nat
    var alarms: seq<Alarm>
    ghost var now: nat

    constructor (tickRate: nat)
      ensures Valid() && now == 0 && alarms == [] && this.tickRate == tickRate
    {
      nticks, now, alarms, this.tickRate := 0, 0, [], tickRate;
    }

    ghost predicate Valid()
      reads this, alarms
    {
      nticks == Counter(now) && Distinct(alarms) && forall a :: a in alarms ==> Armed(a.State(), now)
    }

    /** Start an alarm for the (n+1)-th later tick.  It is armed for that tick unless `n` is the largest 32-bit value
        and the counter is not about to wrap; then it will fire at the next tick. */
    method Start(alarm: Alarm?, n: nat) returns (rc: int)
      requires Valid() && n < WRAP
      requires alarm != null ==> alarm !in alarms && forall i :: 0 <= i < |alarm.plan| ==> alarm.plan[i] < WRAP
      modifies this`alarms, alarm
      ensures rc == if tickRate == 0 then -ENOTSUP else if alarm == null then -EINVAL else 0
      ensures rc != 0 ==> alarms == old(alarms) && Valid()
      ensures rc == 0 ==> alarms == [alarm] + old(alarms)
      ensures rc == 0 ==>
        alarm.fires == alarm.returned == [] && alarm.first == now + n + 1 && alarm.plan == old(alarm.plan)
      ensures rc == 0 && (n < WRAP - 1 || nticks == WRAP - 1) ==> Valid()
      ensures rc == 0 && !(n < WRAP - 1 || nticks == WRAP - 1) ==>
        alarm.time < WRAP && NextFire(now, alarm.time, alarm.rollover) == now + 1
    {
      if tickRate != 0 {
        if alarm != null {
          StartIsExact(now, n);
          alarm.time := StartTime(n, nticks);
          if alarm.time < nticks {
            alarm.rollover := true;
          } else {
            alarm.rollover := false;
          }
          alarm.first, alarm.fires, alarm.returned := now + n + 1, [], [];
          alarms := [alarm] + alarms;
          return 0;
        } else {
          return -EINVAL;
        }
      } else {
        return -ENOTSUP;
      }
    }

    /** The walk's step at `listed[k]`; `kept` are those before it that stay. */
    method Visit(kept: seq<Alarm>, listed: seq<Alarm>, k: nat, ghost after: Snapshot, ghost stays: seq<bool>)
      returns (kept': seq<Alarm>)
      requires k < |listed| == |stays| && alarms == kept + listed[k..] && Distinct(listed)
      requires kept == Stayers(listed, stays, k)
      requires after == AfterTick(listed[k].State(), nticks, now) && stays[k] == StaysListed(listed[k].State(), nticks)
      modifies this`alarms, listed[k]
      ensures alarms == kept' + listed[k + 1..] && kept' == Stayers(listed, stays, k + 1)
      ensures listed[k].State() == after
    {
      var alarm := listed[k];
      var listedStill := alarm.OnTick(nticks, now);
      if listedStill {
        kept' := kept + [alarm];
      } else {
        kept' := kept;
        alarms := kept + listed[k + 1..];
      }
    }

    /** The walk after its turn for the first `k` alarms, of which `kept` stay. */
    ghost predicate Midway(kept: seq<Alarm>, listed: seq<Alarm>, k: nat, before: seq<Snapshot>, after: seq<Snapshot>,
                           stays: seq<bool>)
      requires k <= |listed| == |before| == |after| == |stays|
      reads this`alarms, listed
    {
      alarms == kept + listed[k..] && kept == Stayers(listed, stays, k) && Standing(listed, k, before, after)
    }

    /** One turn of the walk; `before` and `after` are the states of the listed alarms. */
    method VisitNext(kept: seq<Alarm>, listed: seq<Alarm>, k: nat, ghost before: seq<Snapshot>,
                     ghost after: seq<Snapshot>, ghost stays: seq<bool>)
      returns (kept': seq<Alarm>)
      requires k < |listed| == |before| && Distinct(listed) && Ticked(before, after, stays, nticks, now)
      requires Midway(kept, listed, k, before, after, stays)
      modifies this`alarms, listed[k]
      ensures Midway(kept', listed, k + 1, before, after, stays)
    {
      kept' := Visit(kept, listed, k, after[k], stays);
      forall j | 0 <= j < |listed|
        ensures listed[j].State() == if j < k + 1 then after[j] else before[j]
      {
        assert j != k ==> listed[j] != listed[k] && listed[j].State() == old(listed[j].State());
      }
    }

    lemma WalkBegins(listed: seq<Alarm>, before: seq<Snapshot>, after: seq<Snapshot>, stays: seq<bool>)
      requires |listed| == |before| == |after| == |stays| && alarms == listed && Standing(listed, 0, before, after)
      ensures Midway([], listed, 0, before, after, stays)
    {
    }

    lemma WalkEnds(kept: seq<Alarm>, listed: seq<Alarm>, before: seq<Snapshot>, after: seq<Snapshot>, stays: seq<bool>)
      requires |listed| == |before| == |after| == |stays| && Midway(kept, listed, |listed|, before, after, stays)
      ensures alarms == Stayers(listed, stays, |listed|)
    {
    }

    /** The loop of the walk. */
    method WalkOn(listed: seq<Alarm>, ghost before: seq<Snapshot>, ghost after: seq<Snapshot>, ghost stays: seq<bool>)
      returns (kept: seq<Alarm>)
      requires Distinct(listed) && |before| == |listed| && Ticked(before, after, stays, nticks, now)
      requires Midway([], listed, 0, before, after, stays)
      modifies this`alarms, listed
      ensures Midway(kept, listed, |listed|, before, after, stays)
    {
      kept := [];
      var k := 0;
      ghost var c, t := nticks, now;
      while k < |listed|
        invariant k <= |listed| && nticks == c && now == t
        invariant Midway(kept, listed, k, before, after, stays)
      {
        kept := VisitNext(kept, listed, k, before, after, stays);
        k := k + 1;
      }
    }

    /** The walk, by the states of the listed alarms. */
    method WalkThrough(ghost before: seq<Snapshot>, ghost after: seq<Snapshot>, ghost stays: seq<bool>)
      requires Distinct(alarms) && |before| == |alarms| && Ticked(before, after, stays, nticks, now)
      requires Standing(alarms, 0, before, after)
      modifies this`alarms, alarms
      ensures alarms == Stayers(old(alarms), stays, |before|)
      ensures Standing(old(alarms), |before|, before, after)
    {
      var listed := alarms;
      WalkBegins(listed, before, after, stays);
      var kept := WalkOn(listed, before, after, stays);
      WalkEnds(kept, listed, before, after, stays);
    }

    /** Walk the list, unlinking the alarms whose callback returned zero. */
    method Walk()
      requires Distinct(alarms)
      modifies this`alarms, alarms
      ensures Distinct(alarms) && forall a :: a in alarms ==> a in old(alarms)
      ensures forall a :: a in old(alarms) ==> a.State() == AfterTick(old(a.State()), nticks, now)
      ensures forall a :: a in old(alarms) ==> (a in alarms <==> StaysListed(old(a.State()), nticks))
    {
      ghost var listed := alarms;
      ghost var c, t := nticks, now;
      ghost var before := seq(|listed|, j requires 0 <= j < |listed| reads listed => listed[j].State());
      ghost var after := seq(|listed|, j requires 0 <= j < |listed| => AfterTick(before[j], c, t));
      ghost var stays := seq(|listed|, j requires 0 <= j < |listed| => StaysListed(before[j], c));
      WalkThrough(before, after, stays);
      WalkIsOver(listed, stays);
    }

    /** One tick of the system clock.  Every listed alarm fires exactly if due, whatever the others do, and leaves the
        list exactly if its callback returned zero. */
    method Tick()
      requires Valid()
      modifies this`nticks, this`alarms, this`now, alarms
      ensures Valid() && now == old(now) + 1
      ensures forall a :: a in old(alarms) ==>
        a.fires == if old(Due(a.State())) == now then old(a.fires) + [now] else old(a.fires)
      ensures forall a :: a in old(alarms) ==>
        OnSchedule(a.first, a.fires, a.returned) && a.first == old(a.first) && (a in alarms <==> Continues(a.returned))
      ensures forall a :: a in alarms ==> a in old(alarms)
    {
      nticks := Plus(nticks, 1);
      now := now + 1;
      CounterSteps(now - 1);
      forall a | a in alarms {
        ArmedFiresWhenDue(a.State(), now - 1);
      }
      Walk();
    }

    /** Unlink an alarm; unlinking one that is not listed does nothing. */
    method Stop(alarm: Alarm)
      requires Valid()
      modifies this`alarms
      ensures Valid() && alarm !in alarms && now == old(now)
      ensures forall a :: a != alarm ==> (a in alarms <==> a in old(alarms))
    {
      if i :| 0 <= i < |alarms| && alarms[i] == alarm {
        alarms := alarms[..i] + alarms[i + 1..];
      }
    }
  }

  /** The states of alarms before and after a tick, and which of them stay listed. */
  ghost predicate Ticked(before: seq<Snapshot>, after: seq<Snapshot>, stays: seq<bool>, c: nat, now: nat) {
    && |after| == |stays| == |before|
    && forall j {:trigger AfterTick(before[j], c, now)} :: 0 <= j < |before| ==>
         after[j] == AfterTick(before[j], c, now) && stays[j] == StaysListed(before[j], c)
  }

  /** The first `k` of the listed alarms have had their turn. */
  ghost predicate Standing(listed: seq<Alarm>, k: nat, before: seq<Snapshot>, after: seq<Snapshot>)
    requires |listed| == |before| == |after|
    reads listed
  {
    forall j :: 0 <= j < |listed| ==> listed[j].State() == if j < k then after[j] else before[j]
  }

  ghost predicate Distinct<T>(s: seq<T>) {
    forall i, j :: 0 <= i < j < |s| ==> s[i] != s[j]
  }

  /** Those of the first `k` listed that stay. */
  function Stayers<T>(listed: seq<T>, stays: seq<bool>, k: nat): seq<T>
    requires k <= |listed| == |stays|
  {
    if k == 0 then [] else Stayers(listed, stays, k - 1) + if stays[k - 1] then [listed[k - 1]] else []
  }

  lemma {:induction false} StayersAre<T>(listed: seq<T>, stays: seq<bool>, k: nat)
    requires k <= |listed| == |stays| && Distinct(listed)
    ensures Distinct(Stayers(listed, stays, k)) && forall a :: a in Stayers(listed, stays, k) ==> a in listed[..k]
    ensures forall j :: 0 <= j < k ==> (listed[j] in Stayers(listed, stays, k) <==> stays[j])
  {
    if k > 0 {
      StayersAre(listed, stays, k - 1);
      assert listed[..k] == listed[..k - 1] + [listed[k - 1]];
      assert listed[k - 1] !in listed[..k - 1];
      DistinctSnoc(Stayers(listed, stays, k - 1), listed[k - 1]);
    }
  }

  lemma WalkIsOver<T>(listed: seq<T>, stays: seq<bool>)
    requires |stays| == |listed| && Distinct(listed)
    ensures var kept := Stayers(listed, stays, |listed|);
      && Distinct(kept) && (forall a :: a in kept ==> a in listed)
      && forall j :: 0 <= j < |listed| ==> (listed[j] in kept <==> stays[j])
  {
    StayersAre(listed, stays, |listed|);
    assert listed[..|listed|] == listed;
  }

  lemma DistinctSnoc<T>(s: seq<T>, x: T)
    requires Distinct(s) && x !in s
    ensures Distinct(s + [x])
  {
  }
}
