/** What the lap counter's numbers mean over whole runs: times, energies, budgets, counts. */
module LapLaws {
  import opened Wrappers
  import opened Numbers
  import opened DashLap

  // ---- the lap clock ----------------------------------------------------------

  /** The event closes a lap or resets the counter. */
  predicate Marks(l: Lap, e: Event) {
    Closes(l, e) || e.LapReset?
  }

  predicate Closes(l: Lap, e: Event) {
    CrossesGate(l, e) || TriggersLap(l, e)
  }

  predicate Timed(e: Event) { e.Frame? || e.LapTrigger? || e.LapReset? }

  /** Events come in the order of their times. */
  ghost predicate Timely(start: real, run: seq<Event>) {
    && (forall k :: 0 <= k < |run| && Timed(run[k]) ==> start <= run[k].now)
    && (forall i, j :: 0 <= i < j < |run| && Timed(run[i]) && Timed(run[j]) ==> run[i].now <= run[j].now)
  }

  /** When the last lap was closed or the counter reset, or else the start. */
  function LastMark(init: Lap, run: seq<Event>): real {
    if run == [] then init.start
    else
      var prior, e := run[..|run| - 1], run[|run| - 1];
      if Marks(Run(init, prior), e) then e.now else LastMark(init, prior)
  }

  lemma {:induction false} StartIsLastMark(init: Lap, run: seq<Event>)
    ensures Run(init, run).start == LastMark(init, run)
  {
    if run != [] {
      StartIsLastMark(init, run[..|run| - 1]);
    }
  }

  lemma {:induction false} MarkIsPast(init: Lap, run: seq<Event>, now: real)
    requires init.start <= now && forall k :: 0 <= k < |run| && Timed(run[k]) ==> run[k].now <= now
    ensures LastMark(init, run) <= now
  {
    if run != [] {
      MarkIsPast(init, run[..|run| - 1], now);
    }
  }

  /** The event leaves a card with the lap's number, the time since `mark` and the energy
      `before`, plus what the event itself integrates. */
  ghost predicate ShowsCard(l: Lap, e: Event, mark: real, before: real) {
    && Timed(e) && Step(l, e).count == l.count + 1
    && Step(l, e).card == Some(Card((l.count + 1) % TWO_TO_32, e.now - mark, before + Gained(l, e)))
  }

  lemma StepCloses(l: Lap, e: Event)
    requires Closes(l, e) && l.start <= e.now
    ensures ShowsCard(l, e, l.start, l.energy)
  {
  }

  lemma StartIsPast(init: Lap, run: seq<Event>, k: nat)
    requires Timely(init.start, run) && k < |run| && Timed(run[k])
    ensures Run(init, run[..k]).start <= run[k].now
  {
    StartIsLastMark(init, run[..k]);
    MarkIsPast(init, run[..k], run[k].now);
  }

  /** The card of a closed lap shows the lap's number, the time since the last close or
      reset and the energy integrated since then, the closing frame's included. */
  lemma CardTellsTheLap(init: Lap, run: seq<Event>, k: nat)
    requires Timely(init.start, run) && k < |run| && Closes(Run(init, run[..k]), run[k])
    ensures ShowsCard(Run(init, run[..k]), run[k], LastMark(init, run[..k]), EnergySince(init, run[..k]))
  {
    StartIsLastMark(init, run[..k]);
    SinceLastMark(init, run[..k]);
    StartIsPast(init, run, k);
    StepCloses(Run(init, run[..k]), run[k]);
  }

  /** The times on the cards of the laps that were closed. */
  function TimesOnCards(init: Lap, run: seq<Event>): real {
    if run == [] then 0.0
    else
      var prior, e := run[..|run| - 1], run[|run| - 1];
      var after := Step(Run(init, prior), e);
      TimesOnCards(init, prior) +
      if Closes(Run(init, prior), e) && after.card.Some? then after.card.value.time else 0.0
  }

  /** The times that resets cut off. */
  function TimesCutOff(init: Lap, run: seq<Event>): real {
    if run == [] then 0.0
    else
      var prior, e := run[..|run| - 1], run[|run| - 1];
      TimesCutOff(init, prior) + if e.LapReset? then e.now - LastMark(init, prior) else 0.0
  }

  /** No time is lost or counted twice: the times on the cards, those that resets cut off
      and the time since the last close or reset make up the time since the start. */
  lemma {:induction false} TimeIsAccounted(init: Lap, run: seq<Event>, now: real)
    requires Timely(init.start, run)
    ensures TimesOnCards(init, run) + TimesCutOff(init, run) + (now - Run(init, run).start) == now - init.start
    decreases |run|
  {
    StartIsLastMark(init, run);
    if run != [] {
      var n := |run| - 1;
      TimeIsAccounted(init, run[..n], now);
      StartIsLastMark(init, run[..n]);
      if Closes(Run(init, run[..n]), run[n]) {
        CardTellsTheLap(init, run, n);
      }
    }
  }

  // ---- energy and budget ------------------------------------------------------

  /** What was integrated since the last close or reset. */
  function EnergySince(init: Lap, run: seq<Event>): real {
    if run == [] then init.energy
    else
      var prior, e := run[..|run| - 1], run[|run| - 1];
      if Marks(Run(init, prior), e) then 0.0 else EnergySince(init, prior) + Gained(Run(init, prior), e)
  }

  function BudgetSince(init: Lap, run: seq<Event>): real {
    if run == [] then init.budget
    else
      var prior, e := run[..|run| - 1], run[|run| - 1];
      if Marks(Run(init, prior), e) then 0.0 else BudgetSince(init, prior) + Budgeted(Run(init, prior), e)
  }

  /** Energy and budget of the current lap count from the last close or reset. */
  lemma {:induction false} SinceLastMark(init: Lap, run: seq<Event>)
    ensures Run(init, run).energy == EnergySince(init, run)
    ensures Run(init, run).budget == BudgetSince(init, run)
  {
    if run != [] {
      SinceLastMark(init, run[..|run| - 1]);
    }
  }

  /** Frames at the given times, without a position; the power may be missing. */
  function Frames(times: seq<real>, powers: seq<Option<real>>): (run: seq<Event>)
    requires |powers| == |times|
    ensures |run| == |times| && forall k :: 0 <= k < |run| ==> run[k] == Frame(times[k], powers[k], None)
  {
    seq(|times|, k requires 0 <= k < |times| => Frame(times[k], powers[k], None))
  }

  /** A pause of more than half a second counts as half a one. */
  function Counted(gap: real): real { if gap > 0.5 then 0.5 else gap }

  /** The time of the last frame, or else the start. */
  function Before(start: real, times: seq<real>): real {
    if times == [] then start else times[|times| - 1]
  }

  /** Kilowatt-seconds of a power over a time, none without a power. */
  function Acting(power: Option<real>, time: real): real {
    if power.Some? then power.value * time else 0.0
  }

  /** Every power acts since the frame before, whether or not that one had a power. */
  function Work(start: real, times: seq<real>, powers: seq<Option<real>>): real
    requires |powers| == |times|
  {
    if times == [] then 0.0
    else
      var n := |times| - 1;
      Work(start, times[..n], powers[..n]) + Acting(powers[n], Counted(times[n] - Before(start, times[..n])))
  }

  /** The time for which there was a power. */
  function PoweredTime(start: real, times: seq<real>, powers: seq<Option<real>>): real
    requires |powers| == |times|
  {
    if times == [] then 0.0
    else
      var n := |times| - 1;
      PoweredTime(start, times[..n], powers[..n]) +
      if powers[n].Some? then Counted(times[n] - Before(start, times[..n])) else 0.0
  }

  ghost predicate Ascending(start: real, times: seq<real>) {
    && (forall k :: 0 <= k < |times| ==> start <= times[k])
    && (forall i, j :: 0 <= i < j < |times| ==> times[i] <= times[j])
  }

  /** From `l` to `after` the energy grew by `work` and the budget by the target over
      `time`: 3600 watt-hours are 1000 kilowatt-seconds. */
  predicate Grew(l: Lap, after: Lap, work: real, target: real, time: real) {
    && 3600.0 * (after.energy - l.energy) == 1000.0 * work
    && 3600.0 * (after.budget - l.budget) == 1000.0 * (target * time)
    && after.targetPower == Some(target)
  }

  /** Frames integrate their powers to energy, and the target to budget. */
  lemma {:induction false} FramesIntegrate(
    l: Lap, start: real, times: seq<real>, powers: seq<Option<real>>, target: real)
    requires |powers| == |times|
    requires l.lastUpdate == Some(start) && l.targetPower == Some(target) && Ascending(start, times)
    ensures Grew(l, Run(l, Frames(times, powers)), Work(start, times, powers), target,
      PoweredTime(start, times, powers))
    ensures Run(l, Frames(times, powers)).lastUpdate == Some(Before(start, times))
    decreases |times|
  {
    if times != [] {
      var n := |times| - 1;
      var t, p := times[..n], powers[..n];
      FramesIntegrate(l, start, t, p, target);
      RunOfFrames(l, times, powers);
      NotEarlier(start, times);
      FrameIntegrates(
        l, Run(l, Frames(t, p)), Before(start, t), times[n], powers[n],
        Work(start, t, p), target, PoweredTime(start, t, p));
    }
  }

  lemma NotEarlier(start: real, times: seq<real>)
    requires Ascending(start, times) && times != []
    ensures Ascending(start, times[..|times| - 1])
    ensures Before(start, times[..|times| - 1]) <= times[|times| - 1]
  {
  }

  lemma RunOfFrames(l: Lap, times: seq<real>, powers: seq<Option<real>>)
    requires |powers| == |times| > 0
    ensures var n := |times| - 1;
      Run(l, Frames(times, powers)) == Step(Run(l, Frames(times[..n], powers[..n])), Frame(times[n], powers[n], None))
  {
    var n := |times| - 1;
    assert Frames(times, powers)[..n] == Frames(times[..n], powers[..n]);
  }

  lemma FrameIntegrates(
    l: Lap, before: Lap, last: real, now: real, power: Option<real>, work: real, target: real, time: real)
    requires before.lastUpdate == Some(last) && last <= now && Grew(l, before, work, target, time)
    ensures var after := Step(before, Frame(now, power, None));
      && Grew(l, after, work + Acting(power, Counted(now - last)), target,
           time + if power.Some? then Counted(now - last) else 0.0)
      && after.lastUpdate == Some(now)
  {
    if power.Some? {
      var dt := StepTime(now, last);
      OneInterval(power.value, dt);
      OneInterval(target, dt);
      assert target * (time + dt) == target * time + target * dt;
    }
  }

  lemma OneInterval(power: real, dt: real)
    ensures 3600.0 * WattHours(power, dt) == 1000.0 * (power * dt)
  {
  }

  /** Gate, fix, target, card and clock change by their own events only. */
  lemma OnlyOwnEventsChange(l: Lap, e: Event)
    ensures Step(l, e).gate == if e.SfGate? then Some(e.gate) else l.gate
    ensures Step(l, e).targetPower == if e.TargetPower? then Some(e.kilowatts) else l.targetPower
    ensures Step(l, e).lastFix ==
      if e.SfGate? then None else if e.Frame? && UsableFix(e.gps).Some? then e.gps else l.lastFix
    ensures Step(l, e).lastUpdate == if e.Frame? then Some(e.now) else l.lastUpdate
    ensures Step(l, e).lastTrigger ==
      if e.LapTrigger? || e.LapCount? then Some(e.value) else if e.LapReset? then None else l.lastTrigger
    ensures !Marks(l, e) ==> Step(l, e).card == l.card && Step(l, e).start == l.start
    ensures e.LapReset? ==> Step(l, e).card.None?
  {
  }

  // ---- the count --------------------------------------------------------------

  /** Values are rounded to the nearest count, halves upwards, within its type. */
  lemma ToCountIsNearest(x: real)
    ensures x < 0.5 ==> ToCount(x) == 0
    ensures 0.5 <= x < U64_MAX as real ==> ToCount(x) as real - 0.5 <= x < ToCount(x) as real + 0.5
    ensures x >= U64_MAX as real ==> ToCount(x) == U64_MAX
  {
  }

  /** A trigger closes a lap exactly when it names the next one; a higher one is adopted
      without a card, and any other changes nothing but the remembered trigger. */
  lemma OnlyNextTriggerCloses(l: Lap, now: real, value: real)
    ensures var after := Step(l, LapTrigger(now, value)); var n := ToCount(value);
      && after.count == (if n > l.count then n else l.count)
      && (n == l.count + 1 ==>
            && after.card.Some? && after.card.value.number == n % TWO_TO_32 && after.card.value.energy == l.energy
            && after.start == now && after.energy == after.budget == 0.0)
      && (n != l.count + 1 ==>
            && after.card == l.card && after.start == l.start && after.energy == l.energy && after.budget == l.budget)
  {
  }

  lemma {:induction false} RunJoined(init: Lap, a: seq<Event>, b: seq<Event>)
    ensures Run(init, a + b) == Run(Run(init, a), b)
    decreases |b|
  {
    if b == [] {
      assert a + b == a;
    } else {
      RunJoined(init, a, b[..|b| - 1]);
      assert (a + b)[..|a + b| - 1] == a + b[..|b| - 1];
    }
  }

  /** After a correction or a reset the count starts anew, from the value given or from 0,
      and is the maximum of that and all triggers since. */
  lemma CountSinceCorrection(init: Lap, before: seq<Event>, e: Event, after: seq<Event>)
    requires e.LapCount? || e.LapReset?
    requires OnlyTriggers(Run(init, before + [e]), after)
    ensures IsMaximum(Run(init, before + [e] + after).count, if e.LapReset? then 0 else ToCount(e.value), after)
  {
    RunJoined(init, before, [e]);
    RunJoined(init, before + [e], after);
    assert [e][..0] == [];
    assert Run(Run(init, before), [e]) == Step(Run(init, before), e);
    CountIsMaximum(Run(init, before + [e]), after);
  }
}
