/** A straight pass through the gate, as the dash sees it: when it closes a lap, whatever
fixes arrive on the way. */
module GatePass {
  import opened Wrappers
  import opened GateCrossing
  import opened DashLap

  /** The fix a fraction `s` of the way. */
  function FixAlong(before: Fix, after: Fix, s: real): Fix {
    var p := Along(Car(before), Car(after), s);
    Fix(p.y, p.x)
  }

  /** A frame that reports the point `s` of the path, or no position. */
  predicate OnPath(before: Fix, after: Fix, e: Event, s: real) {
    e.Frame? && (e.gps.Some? ==> e.gps.value == FixAlong(before, after, s))
  }

  /** Frames received while driving from one fix to another; `at` says how far each is,
      and a position may be reported many times. */
  ghost predicate Drives(before: Fix, after: Fix, run: seq<Event>, at: seq<real>) {
    && |at| == |run|
    && (forall k :: 0 <= k < |run| ==> OnPath(before, after, run[k], at[k]) && 0.0 <= at[k])
    && (forall i, j :: 0 <= i < j < |run| ==> at[i] <= at[j])
  }

  /** The frame brings a usable fix exactly on the gate's line. */
  predicate OnLine(gate: Gate, e: Event) {
    e.Frame? && UsableFix(e.gps).Some? && Side(gate, Car(UsableFix(e.gps).value)) == 0.0
  }

  ghost predicate HitsLine(gate: Gate, run: seq<Event>) {
    exists k :: 0 <= k < |run| && OnLine(gate, run[k])
  }

  /** The dash has the gate loaded and `before` as its last fix. */
  predicate Approaching(l: Lap, before: Fix, gate: Gate) {
    l.gate == Some(gate) && l.lastFix == Some(before)
  }

  /** How far the dash has got: its last fix is point `s`; the lap has been counted if that
      is beyond the line and no fix was on it. */
  ghost predicate Passing(l: Lap, m: Lap, before: Fix, after: Fix, gate: Gate, s: real, hit: bool) {
    && m.gate == Some(gate) && m.lastFix.Some? && Car(m.lastFix.value) == Along(Car(before), Car(after), s)
    && var start, here := Side(gate, Car(before)), Side(gate, Car(m.lastFix.value));
       && m.count == l.count + (if Opposite(start, here) && !hit then 1 else 0)
       && (here == 0.0 ==> hit)
       && (hit ==> here == 0.0 || Opposite(start, here))
  }

  /** One more frame. */
  lemma StepPasses(l: Lap, m: Lap, before: Fix, after: Fix, gate: Gate, s: real, hit: bool, e: Event, t: real)
    requires SegmentsCross(before, after, gate) && Passing(l, m, before, after, gate, s, hit)
    requires OnPath(before, after, e, t) && s <= t
    ensures Passing(l, Step(m, e), before, after, gate, if UsableFix(e.gps).Some? then t else s, hit || OnLine(gate, e))
  {
    if UsableFix(e.gps).Some? {
      PartCrossesIff(before, after, gate, m.lastFix.value, e.gps.value, s, t);
      SideIsMonotone(before, after, gate, s, t);
    }
  }

  lemma {:induction false} RunPasses(l: Lap, before: Fix, after: Fix, gate: Gate, run: seq<Event>, at: seq<real>)
    returns (s: real)
    requires SegmentsCross(before, after, gate) && Approaching(l, before, gate) && Drives(before, after, run, at)
    ensures Passing(l, Run(l, run), before, after, gate, s, HitsLine(gate, run))
    ensures run == [] ==> s == 0.0
    ensures run != [] ==> s <= at[|run| - 1] && (UsableFix(run[|run| - 1].gps).Some? ==> s == at[|run| - 1])
  {
    if run == [] {
      s := 0.0;
    } else {
      var prior, e, t := run[..|run| - 1], run[|run| - 1], at[|run| - 1];
      s := RunPasses(l, before, after, gate, prior, at[..|run| - 1]);
      HitsExtends(gate, prior, e);
      assert run == prior + [e];
      StepPasses(l, Run(l, prior), before, after, gate, s, HitsLine(gate, prior), e, t);
      s := if UsableFix(e.gps).Some? then t else s;
    }
  }

  lemma HitsExtends(gate: Gate, run: seq<Event>, e: Event)
    ensures HitsLine(gate, run + [e]) <==> HitsLine(gate, run) || OnLine(gate, e)
  {
    var all := run + [e];
    assert all[|run|] == e;
    if k :| 0 <= k < |run| && OnLine(gate, run[k]) {
      assert OnLine(gate, all[k]);
    }
  }

  /** A straight drive through the gate closes exactly one lap if no usable fix is exactly
      on the gate's line, and none otherwise, whatever fixes arrive on the way. */
  lemma StraightPassClosesLapIff(l: Lap, before: Fix, after: Fix, gate: Gate, run: seq<Event>, at: seq<real>)
    requires SegmentsCross(before, after, gate) && Approaching(l, before, gate) && Drives(before, after, run, at)
    requires run != [] && at[|run| - 1] == 1.0 && UsableFix(run[|run| - 1].gps).Some?
    ensures Run(l, run).count == l.count + if HitsLine(gate, run) then 0 else 1
  {
    var s := RunPasses(l, before, after, gate, run, at);
    assert Along(Car(before), Car(after), 1.0) == Car(after);
  }

  // ---- one fix on the way -----------------------------------------------------

  /** Two frames: one on the way, one behind the gate. */
  function Passed(l: Lap, on: Fix, after: Fix, now: real, later: real): Lap {
    Step(Step(l, Frame(now, None, Some(on))), Frame(later, None, Some(after)))
  }

  /** The lap is closed once if the fix on the way is the no-fix value (0, 0) or off the
      gate's line, and not at all otherwise. */
  lemma FixOnTheWayDecides(
    l: Lap, before: Fix, after: Fix, gate: Gate, s: real, now: real, later: real)
    requires SegmentsCross(before, after, gate) && Approaching(l, before, gate) && 0.0 < s < 1.0
    requires UsableFix(Some(after)).Some?
    ensures var on := FixAlong(before, after, s);
      Passed(l, on, after, now, later).count ==
        l.count + if on == Fix(0.0, 0.0) || Side(gate, Car(on)) != 0.0 then 1 else 0
  {
    var on := FixAlong(before, after, s);
    var first, second := Frame(now, None, Some(on)), Frame(later, None, Some(after));
    var run, at := [first, second], [s, 1.0];
    assert FixAlong(before, after, 1.0) == after;
    assert run[..1] == [first] && [first][..0] == [];
    assert Run(l, [first]) == Step(l, first);
    assert Run(l, run) == Passed(l, on, after, now, later);
    StraightPassClosesLapIff(l, before, after, gate, run, at);
    HitsExtends(gate, [first], second);
    HitsExtends(gate, [], first);
    assert [] + [first] == [first] && [first] + [second] == run;
  }

  /** Where the path meets the gate. */
  function MeetingFraction(before: Fix, after: Fix, gate: Gate): real
    requires SegmentsCross(before, after, gate)
  {
    Side(gate, Car(before)) / (Side(gate, Car(before)) - Side(gate, Car(after)))
  }

  lemma OnLineIffMeeting(before: Fix, after: Fix, gate: Gate, s: real)
    requires SegmentsCross(before, after, gate)
    ensures 0.0 < MeetingFraction(before, after, gate) < 1.0
    ensures Side(gate, Along(Car(before), Car(after), s)) == 0.0 <==> s == MeetingFraction(before, after, gate)
  {
    var x, y := Side(gate, Car(before)), Side(gate, Car(after));
    Fraction(x, x - y);
    SideAlong(gate, Car(before), Car(after), s);
    ZeroAt(x, x - y, s);
  }

  lemma ZeroAt(x: real, slope: real, s: real)
    requires slope != 0.0
    ensures x - s * slope == 0.0 <==> s == x / slope
  {
    var f := x / slope;
    assert f * slope == x;
    assert x - s * slope == (f - s) * slope;
  }

  /** Some fix on the way makes the dash miss the crossing exactly if the path does not
      meet the gate at (0, 0), where a fix counts as none. */
  lemma CrossingCanBeMissedIff(l: Lap, before: Fix, after: Fix, gate: Gate, now: real, later: real)
    requires SegmentsCross(before, after, gate) && Approaching(l, before, gate)
    requires UsableFix(Some(after)).Some?
    ensures (exists s: real :: Misses(l, before, after, s, now, later)) <==>
      FixAlong(before, after, MeetingFraction(before, after, gate)) != Fix(0.0, 0.0)
  {
    var f := MeetingFraction(before, after, gate);
    OnLineIffMeeting(before, after, gate, f);
    FixOnTheWayDecides(l, before, after, gate, f, now, later);
    assert FixAlong(before, after, f) != Fix(0.0, 0.0) ==> Misses(l, before, after, f, now, later);
    if s: real :| Misses(l, before, after, s, now, later) {
      FixOnTheWayDecides(l, before, after, gate, s, now, later);
      OnLineIffMeeting(before, after, gate, s);
    }
  }

  predicate Misses(l: Lap, before: Fix, after: Fix, s: real, now: real, later: real) {
    0.0 < s < 1.0 && Passed(l, FixAlong(before, after, s), after, now, later).count == l.count
  }

  /** For instance straight through the middle of a gate; the same pass without the fix in
      the middle, or through a gate at (0, 0), closes the lap. */
  lemma MissedInTheMiddle(l: Lap)
    ensures var gate, m := Gate(10.0, 4.0, 10.0, 6.0), l.(gate := Some(Gate(10.0, 4.0, 10.0, 6.0)));
      var before, on, after := Fix(9.0, 5.0), Fix(10.0, 5.0), Fix(11.0, 5.0);
      && Passed(m.(lastFix := Some(before)), on, after, 2.0, 3.0).count == l.count
      && Step(m.(lastFix := Some(before)), Frame(3.0, None, Some(after))).count == l.count + 1
    ensures var m := l.(gate := Some(Gate(0.0, -1.0, 0.0, 1.0)), lastFix := Some(Fix(-1.0, 0.0)));
      Passed(m, Fix(0.0, 0.0), Fix(1.0, 0.0), 2.0, 3.0).count == l.count + 1
  {
  }
}
