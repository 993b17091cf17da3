/** The dash's lap counter, energy integrator and gate detector. Several threads update
one locked state; each locked region is one step. */
module DashLap {
  import opened Wrappers
  import opened Numbers
  import opened GateCrossing

  const MAX_ENERGY_DT := 0.5

  /** The card of the most recently completed lap. */
  datatype Card = Card(number: nat, time: real, energy: real)

  datatype Lap = Lap(
    count: nat, energy: real, budget: real, start: real, lastUpdate: Option<real>,
    card: Option<Card>, targetPower: Option<real>, gate: Option<Gate>, lastFix: Option<Fix>,
    lastTrigger: Option<real>)

  /** A telemetry frame or a message from trackside. Times come from one monotonic clock. */
  datatype Event =
    | Frame(now: real, power: Option<real>, gps: Option<Fix>)
    | SfGate(gate: Gate)
    | TargetPower(kilowatts: real)
    | LapTrigger(now: real, value: real)
    | LapCount(value: real)
    | LapReset(now: real)

  // ---- arithmetic -------------------------------------------------------------

  /** Rounds half away from zero. */
  function Round(x: real): int {
    if x >= 0.0 then (x + 0.5).Floor else -((0.5 - x).Floor)
  }

  /** `val.round().max(0.0) as u64`. */
  function ToCount(x: real): (n: nat)
    ensures n <= U64_MAX
  {
    var r := Round(x);
    if r < 0 then 0 else if r > U64_MAX then U64_MAX else r
  }

  function Elapsed(now: real, since: real): real {
    if now > since then now - since else 0.0
  }

  function StepTime(now: real, since: real): real {
    var dt := Elapsed(now, since);
    if dt < MAX_ENERGY_DT then dt else MAX_ENERGY_DT
  }

  /** Watt-hours of `power` kilowatts over `dt` seconds. */
  function WattHours(power: real, dt: real): real {
    power * dt / 3.6
  }

  /** (0, 0) is the receiver's way of saying that it has no fix. */
  function UsableFix(gps: Option<Fix>): Option<Fix> {
    if gps.Some? && (gps.value.lat != 0.0 || gps.value.lon != 0.0) then gps else None
  }

  // ---- one step -----------------------------------------------------------------

  function Completed(l: Lap, now: real, newCount: nat): Lap {
    l.(count := newCount, energy := 0.0, budget := 0.0, start := now,
       card := Some(Card(newCount % TWO_TO_32, Elapsed(now, l.start), l.energy)))
  }

  /** The energy a frame adds to the current lap. */
  function Gained(l: Lap, e: Event): real {
    if e.Frame? && l.lastUpdate.Some? && e.power.Some?
    then WattHours(e.power.value, StepTime(e.now, l.lastUpdate.value)) else 0.0
  }

  function Budgeted(l: Lap, e: Event): real {
    if e.Frame? && l.lastUpdate.Some? && e.power.Some? && l.targetPower.Some?
    then WattHours(l.targetPower.value, StepTime(e.now, l.lastUpdate.value)) else 0.0
  }

  function Integrated(l: Lap, e: Event): Lap
    requires e.Frame?
  {
    l.(energy := l.energy + Gained(l, e), budget := l.budget + Budgeted(l, e), lastUpdate := Some(e.now))
  }

  /** The path from the last fix to this one crosses the loaded gate. */
  predicate CrossesGate(l: Lap, e: Event) {
    e.Frame? && l.gate.Some? && l.lastFix.Some? && UsableFix(e.gps).Some? &&
    SegmentsCross(l.lastFix.value, UsableFix(e.gps).value, l.gate.value)
  }

  /** Trackside counted exactly one lap more. */
  predicate TriggersLap(l: Lap, e: Event) {
    e.LapTrigger? && ToCount(e.value) == l.count + 1
  }

  function Step(l: Lap, e: Event): Lap {
    match e
    case Frame(now, _, gps) =>
      var m := Integrated(l, e);
      var n := if CrossesGate(l, e) then Completed(m, now, m.count + 1) else m;
      if UsableFix(gps).Some? then n.(lastFix := UsableFix(gps)) else n
    case SfGate(gate) => l.(gate := Some(gate), lastFix := None)
    case TargetPower(power) => l.(targetPower := Some(power))
    case LapTrigger(now, value) =>
      var m := l.(lastTrigger := Some(value));
      if TriggersLap(l, e) then Completed(m, now, ToCount(value))
      else if ToCount(value) > l.count then m.(count := ToCount(value))
      else m
    case LapCount(value) => l.(count := ToCount(value), lastTrigger := Some(value))
    case LapReset(now) =>
      l.(count := 0, energy := 0.0, budget := 0.0, start := now, card := None, lastTrigger := None)
  }

  // ---- the state -------------------------------------------------------------------

  class DashState {
    var lapCount: nat
    var lapEnergy: real
    var lapBudget: real
    var lapStart: real
    var lastEnergyUpdate: Option<real>
    var lastLap: Option<Card>
    var targetPower: Option<real>
    var sfGate: Option<Gate>
    var lastGps: Option<Fix>
    var lastOffcarTrigger: Option<real>

    function Contents(): Lap
      reads this
    {
      Lap(lapCount, lapEnergy, lapBudget, lapStart, lastEnergyUpdate, lastLap, targetPower, sfGate, lastGps,
        lastOffcarTrigger)
    }

    constructor (now: real, gate: Option<Gate>)
      ensures Contents() == Initial(now, gate)
    {
      lapCount, lapEnergy, lapBudget, lapStart := 0, 0.0, 0.0, now;
      lastEnergyUpdate, lastLap, targetPower, sfGate, lastGps, lastOffcarTrigger := None, None, None, gate, None, None;
    }

    method CompleteLap(now: real, setCount: Option<nat>)
      modifies this
      ensures Contents()
        == Completed(old(Contents()), now, if setCount.Some? then setCount.value else old(lapCount) + 1)
    {
      var nextCount := if setCount.Some? then setCount.value else lapCount + 1;
      lastLap := Some(Card(nextCount % TWO_TO_32, Elapsed(now, lapStart), lapEnergy));
      lapCount := nextCount;
      lapEnergy := 0.0;
      lapBudget := 0.0;
      lapStart := now;
    }

    method OnFrame(now: real, power: Option<real>, gps: Option<Fix>)
      modifies this
      ensures Contents() == Step(old(Contents()), Frame(now, power, gps))
    {
      if lastEnergyUpdate.Some? {
        var dt := StepTime(now, lastEnergyUpdate.value);
        if dt > 0.0 && power.Some? {
          lapEnergy := lapEnergy + WattHours(power.value, dt);
          if targetPower.Some? {
            lapBudget := lapBudget + WattHours(targetPower.value, dt);
          }
        }
      }
      lastEnergyUpdate := Some(now);
      var cur := UsableFix(gps);
      if cur.Some? {
        if sfGate.Some? && lastGps.Some? {
          if SegmentsCross(lastGps.value, cur.value, sfGate.value) {
            CompleteLap(now, None);
          }
        }
        lastGps := cur;
      }
    }

    method OnSfGate(gate: Gate)
      modifies this
      ensures Contents() == Step(old(Contents()), SfGate(gate))
    {
      sfGate := Some(gate);
      lastGps := None;
    }

    method OnTargetPower(power: real)
      modifies this
      ensures Contents() == Step(old(Contents()), TargetPower(power))
    {
      targetPower := Some(power);
    }

    method OnLapTrigger(now: real, value: real)
      modifies this
      ensures Contents() == Step(old(Contents()), LapTrigger(now, value))
    {
      var newCount := ToCount(value);
      lastOffcarTrigger := Some(value);
      if newCount > lapCount + 1 {
        lapCount := newCount;
      } else if newCount > lapCount {
        CompleteLap(now, Some(newCount));
      }
    }

    method OnLapCount(value: real)
      modifies this
      ensures Contents() == Step(old(Contents()), LapCount(value))
    {
      lapCount := ToCount(value);
      lastOffcarTrigger := Some(value);
    }

    method OnLapReset(now: real)
      modifies this
      ensures Contents() == Step(old(Contents()), LapReset(now))
    {
      lastOffcarTrigger := None;
      lapCount := 0;
      lapEnergy := 0.0;
      lapBudget := 0.0;
      lapStart := now;
      lastLap := None;
    }
  }

  // ---- runs --------------------------------------------------------------------------

  function Initial(now: real, gate: Option<Gate>): Lap {
    Lap(0, 0.0, 0.0, now, None, None, None, gate, None, None)
  }

  function Run(init: Lap, run: seq<Event>): Lap {
    if run == [] then init else Step(Run(init, run[..|run| - 1]), run[|run| - 1])
  }

  // ---- energy ------------------------------------------------------------------------

  /** Everything integrated during a run. */
  function TotalGained(init: Lap, run: seq<Event>): real {
    if run == [] then 0.0
    else TotalGained(init, run[..|run| - 1]) + Gained(Run(init, run[..|run| - 1]), run[|run| - 1])
  }

  /** The energies on the cards of the laps that were closed. */
  function OnCards(init: Lap, run: seq<Event>): real {
    if run == [] then 0.0
    else
      var l, e := Run(init, run[..|run| - 1]), run[|run| - 1];
      OnCards(init, run[..|run| - 1]) +
      if CrossesGate(l, e) || TriggersLap(l, e) then CardEnergy(Step(l, e)) else 0.0
  }

  function CardEnergy(l: Lap): real {
    if l.card.Some? then l.card.value.energy else 0.0
  }

  /** What resets threw away. */
  function Discarded(init: Lap, run: seq<Event>): real {
    if run == [] then 0.0
    else
      Discarded(init, run[..|run| - 1]) + if run[|run| - 1].LapReset? then Run(init, run[..|run| - 1]).energy else 0.0
  }

  /** Energy is conserved: whatever was integrated is on a closed lap's card, in the
      current lap, or was discarded by a reset. */
  lemma {:induction false} EnergyIsConserved(init: Lap, run: seq<Event>)
    ensures init.energy + TotalGained(init, run) == OnCards(init, run) + Run(init, run).energy + Discarded(init, run)
  {
    if run != [] {
      EnergyIsConserved(init, run[..|run| - 1]);
      StepConserves(Run(init, run[..|run| - 1]), run[|run| - 1]);
    }
  }

  lemma StepConserves(l: Lap, e: Event)
    ensures l.energy + Gained(l, e) ==
      Step(l, e).energy
      + (if CrossesGate(l, e) || TriggersLap(l, e) then CardEnergy(Step(l, e)) else 0.0)
      + (if e.LapReset? then l.energy else 0.0)
  {
  }

  // ---- the count -----------------------------------------------------------------------

  /** No crossing, correction or reset: only triggers may move the count. */
  ghost predicate OnlyTriggers(init: Lap, run: seq<Event>) {
    forall k :: 0 <= k < |run| ==>
      !CrossesGate(Run(init, run[..k]), run[k]) && !run[k].LapCount? && !run[k].LapReset?
  }

  /** The count is the maximum of its start and all trigger values, however the messages
      were reordered or repeated. */
  lemma {:induction false} CountIsMaximum(init: Lap, run: seq<Event>)
    requires OnlyTriggers(init, run)
    ensures IsMaximum(Run(init, run).count, init.count, run)
  {
    if run != [] {
      var prior, e := run[..|run| - 1], run[|run| - 1];
      PriorOnlyTriggers(init, run);
      CountIsMaximum(init, prior);
      StepTakesMaximum(Run(init, prior), e);
      MaximumOfOneMore(Run(init, prior).count, Run(init, run).count, init.count, prior, e);
      assert prior + [e] == run;
    }
  }

  lemma PriorOnlyTriggers(init: Lap, run: seq<Event>)
    requires run != [] && OnlyTriggers(init, run)
    ensures var prior, e := run[..|run| - 1], run[|run| - 1];
      OnlyTriggers(init, prior) && !CrossesGate(Run(init, prior), e) && !e.LapCount? && !e.LapReset?
  {
    var prior := run[..|run| - 1];
    forall k | 0 <= k < |prior|
      ensures !CrossesGate(Run(init, prior[..k]), prior[k]) && !prior[k].LapCount? && !prior[k].LapReset?
    {
      assert prior[k] == run[k] && prior[..k] == run[..k];
    }
  }

  /** `n` is the largest of `start` and the trigger values of the run. */
  ghost predicate IsMaximum(n: nat, start: nat, run: seq<Event>) {
    && start <= n
    && (forall e :: e in run && e.LapTrigger? ==> ToCount(e.value) <= n)
    && (n == start || exists e :: e in run && e.LapTrigger? && ToCount(e.value) == n)
  }

  lemma StepTakesMaximum(l: Lap, e: Event)
    requires !CrossesGate(l, e) && !e.LapCount? && !e.LapReset?
    ensures Step(l, e).count == if e.LapTrigger? && ToCount(e.value) > l.count then ToCount(e.value) else l.count
  {
  }

  lemma MaximumOfOneMore(n: nat, n': nat, start: nat, run: seq<Event>, e: Event)
    requires IsMaximum(n, start, run)
    requires n' == if e.LapTrigger? && ToCount(e.value) > n then ToCount(e.value) else n
    ensures IsMaximum(n', start, run + [e])
  {
    var all := run + [e];
    assert e in all && forall f :: f in run ==> f in all;
    if n' != start && n' == n {
      var f :| f in run && f.LapTrigger? && ToCount(f.value) == n;
      assert f in all;
    }
  }

  // ---- the gate --------------------------------------------------------------------------

  /** Event `i` brought the last usable fix, and no gate was loaded since. */
  ghost predicate LastFixAt(run: seq<Event>, i: nat) {
    && i < |run| && HasFix(run[i])
    && forall j :: i < j < |run| ==> !run[j].SfGate? && !HasFix(run[j])
  }

  predicate HasFix(e: Event) {
    e.Frame? && UsableFix(e.gps).Some?
  }

  /** Event `i` brought the last fix the state holds, under the gate it has loaded. */
  ghost predicate FixUnderGate(init: Lap, run: seq<Event>, i: nat) {
    && LastFixAt(run, i)
    && Run(init, run).lastFix == UsableFix(run[i].gps)
    && Run(init, run).gate == Run(init, run[..i]).gate
  }

  lemma {:induction false} LastFixIsRecent(init: Lap, run: seq<Event>)
    requires init.lastFix.None?
    ensures Run(init, run).lastFix.Some? ==> exists i: nat :: FixUnderGate(init, run, i)
  {
    if run != [] && Run(init, run).lastFix.Some? {
      var n := |run| - 1;
      var prior, e := run[..n], run[n];
      if HasFix(e) {
        assert FixUnderGate(init, run, n);
      } else {
        LastFixIsRecent(init, prior);
        var i: nat :| FixUnderGate(init, prior, i);
        assert prior[..i] == run[..i];
        assert FixUnderGate(init, run, i);
      }
    }
  }

  /** Every lap closed by the gate uses two fixes, the last before it and its own, with
      no other between them, both received under the one gate that the path crosses. */
  lemma GateLapUsesOwnGate(init: Lap, run: seq<Event>, k: nat)
    requires init.lastFix.None? && k < |run| && CrossesGate(Run(init, run[..k]), run[k])
    ensures HasFix(run[k]) && Run(init, run[..k]).gate.Some?
    ensures exists i: nat :: FixUnderGate(init, run[..k], i) && Bridges(run, i, k, Run(init, run[..k]).gate.value)
  {
    LastFixIsRecent(init, run[..k]);
    var i: nat :| FixUnderGate(init, run[..k], i);
    assert Bridges(run, i, k, Run(init, run[..k]).gate.value);
  }

  /** The fixes of events `i` and `k` lie on opposite sides, across the gate. */
  predicate Bridges(run: seq<Event>, i: nat, k: nat, gate: Gate)
  {
    && i < k < |run| && HasFix(run[i]) && HasFix(run[k])
    && SegmentsCross(UsableFix(run[i].gps).value, UsableFix(run[k].gps).value, gate)
  }
}
