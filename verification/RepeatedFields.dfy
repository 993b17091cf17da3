/** Repeated telemetry fields over whole runs of received frames. */
module RepeatedFields {
  import opened Wrappers
  import opened Bits
  import opened BitWalk
  import opened TelemetryTable
  import opened GatewayConfig
  import opened SensorCache
  import opened PacketLookup

  datatype Received = Received(id: nat, payload: seq<uint8>)

  ghost predicate Loaded(m: PacketMap, order: seq<nat>) {
    Lists(order, m) && forall id :: id in m ==> WellFormed(m[id]) && Unsaturated(m[id])
  }

  const EMPTY := Snapshot(map[], map[], map[])

  /** The snapshot after a run of frames. */
  ghost function After(m: PacketMap, order: seq<nat>, run: seq<Received>): Snapshot
    requires Loaded(m, order)
  {
    if run == [] then EMPTY
    else
      var d := After(m, order, run[..|run| - 1]);
      var frame := run[|run| - 1];
      var r := Resolved(order, m, frame.id);
      FirstCoverMeaning(order, m, frame.id);
      if r.Found? then Processed(d, frame.payload, r.config, r.series) else d
  }

  /** The value most recently received for a signal in frames of one ID. */
  function Latest(run: seq<Received>, id: nat, s: SignalConfig): Option<real>
    requires Decodable(s)
  {
    if run == [] then None
    else
      var frame := run[|run| - 1];
      if frame.id == id && Physical(s, frame.payload).Some? then Physical(s, frame.payload)
      else Latest(run[..|run| - 1], id, s)
  }

  function OrZero(x: Option<real>): real {
    if x.Some? then x.value else 0.0
  }

  // ---- slots ----------------------------------------------------------------

  function SlotOf(series: nat, index: nat, span: nat): nat {
    index + series * span
  }

  /** No two (frame, signal) pairs share a slot. */
  lemma SlotInjective(s: nat, i: nat, t: nat, j: nat, span: nat)
    requires i < span && j < span
    ensures SlotOf(s, i, span) == SlotOf(t, j, span) <==> s == t && i == j
  {
    if s < t {
      SeriesGap(s, t, span);
    } else if t < s {
      SeriesGap(t, s, span);
    }
  }

  lemma {:induction false} SeriesGap(s: nat, t: nat, span: nat)
    requires s < t
    ensures s * span + span <= t * span
    decreases t
  {
    assert t * span == (t - 1) * span + span;
    if s < t - 1 {
      SeriesGap(s, t - 1, span);
    }
  }

  // ---- one frame ------------------------------------------------------------

  ghost predicate BindsNowhere(signals: seq<SignalConfig>, field: string) {
    forall i :: 0 <= i < |signals| ==> IndexOf(signals[i], field).None?
  }

  lemma {:induction false} FlagsLeaveRepeated(d: Snapshot, s: SignalConfig, payload: seq<uint8>, k: nat)
    requires Decodable(s) && k <= |s.flags|
    ensures StoreFlags(d, s, payload, k).repeated == d.repeated
  {
    if k > 0 {
      FlagsLeaveRepeated(d, s, payload, k - 1);
    }
  }

  /** One signal touches at most the one element it is bound to. */
  lemma StoreElement(d: Snapshot, s: SignalConfig, payload: seq<uint8>, offset: nat, field: string, slot: nat)
    requires Decodable(s)
    ensures Element(Store(d, s, payload, offset), field, slot) ==
      if IndexOf(s, field).Some? && IndexOf(s, field).value + offset == slot && Physical(s, payload).Some?
      then Physical(s, payload).value else Element(d, field, slot)
  {
    FlagsLeaveRepeated(d, s, payload, |s.flags|);
  }

  lemma {:induction false} OtherPacketsLeaveField(
    d: Snapshot, signals: seq<SignalConfig>, payload: seq<uint8>, offset: nat, k: nat, field: string, slot: nat)
    requires k <= |signals| && forall i :: 0 <= i < |signals| ==> Decodable(signals[i])
    requires BindsNowhere(signals, field)
    ensures Element(StoreAll(d, signals, payload, offset, k), field, slot) == Element(d, field, slot)
  {
    if k > 0 {
      OtherPacketsLeaveField(d, signals, payload, offset, k - 1, field, slot);
      StoreElement(StoreAll(d, signals, payload, offset, k - 1), signals[k - 1], payload, offset, field, slot);
    }
  }

  ghost predicate DistinctIndexes(signals: seq<SignalConfig>, field: string) {
    forall i, j :: 0 <= i < j < |signals| && IndexOf(signals[i], field).Some? ==>
      IndexOf(signals[i], field) != IndexOf(signals[j], field)
  }

  /** With this offset only signal `j` can be bound to `slot`, and is if `hit`. */
  ghost predicate OnlyHit(signals: seq<SignalConfig>, field: string, offset: nat, slot: nat, j: nat, hit: bool) {
    forall i :: 0 <= i < |signals| && IndexOf(signals[i], field).Some? ==>
      (IndexOf(signals[i], field).value + offset == slot <==> hit && i == j)
  }

  ghost predicate AllDecodable(signals: seq<SignalConfig>) {
    forall i :: 0 <= i < |signals| ==> Decodable(signals[i])
  }

  lemma SignalWritesSlot(
    d: Snapshot, signals: seq<SignalConfig>, payload: seq<uint8>, offset: nat, k: nat, field: string, slot: nat,
    j: nat, hit: bool)
    requires k < |signals| && AllDecodable(signals)
    requires j < |signals| && IndexOf(signals[j], field).Some?
    requires OnlyHit(signals, field, offset, slot, j, hit)
    ensures Element(Store(d, signals[k], payload, offset), field, slot) ==
      if hit && j == k && Physical(signals[j], payload).Some? then Physical(signals[j], payload).value
        else Element(d, field, slot)
  {
    StoreElement(d, signals[k], payload, offset, field, slot);
  }

  /** A frame of the packet itself writes `slot` from signal `j` or not at all. */
  lemma {:induction false} OwnPacketWritesSlot(
    d: Snapshot, signals: seq<SignalConfig>, payload: seq<uint8>, offset: nat, k: nat, field: string, slot: nat,
    j: nat, hit: bool)
    requires k <= |signals| && AllDecodable(signals)
    requires j < |signals| && IndexOf(signals[j], field).Some?
    requires OnlyHit(signals, field, offset, slot, j, hit)
    ensures Element(StoreAll(d, signals, payload, offset, k), field, slot) ==
      if hit && j < k && Physical(signals[j], payload).Some? then Physical(signals[j], payload).value
        else Element(d, field, slot)
  {
    if k > 0 {
      OwnPacketWritesSlot(d, signals, payload, offset, k - 1, field, slot, j, hit);
      var before := StoreAll(d, signals, payload, offset, k - 1);
      SignalWritesSlot(before, signals, payload, offset, k - 1, field, slot, j, hit);
    }
  }

  /** A frame of series `t` reaches a slot of series `s` only when they are the same,
      and then only from the slot's own signal. */
  lemma OnlyOwnSeriesHits(signals: seq<SignalConfig>, t: nat, field: string, s: nat, j: nat, i: nat)
    requires DistinctIndexes(signals, field) && i < |signals| && j < |signals|
    requires IndexOf(signals[i], field).Some? && IndexOf(signals[j], field).Some?
    ensures IndexOf(signals[i], field).value + t * Span(signals)
      == SlotOf(s, IndexOf(signals[j], field).value, Span(signals))
      <==> t == s && i == j
  {
    IndexBelowSpan(signals, i, field);
    IndexBelowSpan(signals, j, field);
    SlotInjective(t, IndexOf(signals[i], field).value, s, IndexOf(signals[j], field).value, Span(signals));
    if IndexOf(signals[i], field) == IndexOf(signals[j], field) {
      IndexesDiffer(signals, i, j, field);
    }
  }

  lemma IndexBelowSpan(signals: seq<SignalConfig>, j: nat, field: string)
    requires j < |signals| && IndexOf(signals[j], field).Some?
    ensures IndexOf(signals[j], field).value < Span(signals)
  {
    assert RepeatedIndex(signals[j]) == IndexOf(signals[j], field);
  }

  lemma IndexesDiffer(signals: seq<SignalConfig>, i: nat, j: nat, field: string)
    requires DistinctIndexes(signals, field) && i < |signals| && j < |signals|
    requires IndexOf(signals[i], field).Some? && IndexOf(signals[i], field) == IndexOf(signals[j], field)
    ensures i == j
  {
  }

  // ---- whole runs -----------------------------------------------------------

  /** Packet `c` owns its IDs and is the only one to bind the field, each of its
      signals at an index of its own. */
  ghost predicate BindsAlone(m: PacketMap, c: PacketConfig, field: string) {
    && c.packetId in m && m[c.packetId] == c
    && (forall a, id :: a in m && Spans(m[a], id) && Spans(c, id) ==> m[a] == c)
    && (forall a :: a in m && m[a] != c ==> BindsNowhere(m[a].signals, field))
    && DistinctIndexes(c.signals, field)
  }

  /** IDs of the packet's series resolve to the packet and the series index. */
  lemma ResolvesToSeries(m: PacketMap, order: seq<nat>, c: PacketConfig, field: string, id: nat)
    requires Loaded(m, order) && BindsAlone(m, c, field)
    ensures var r := Resolved(order, m, id);
      if Spans(c, id) then r == Found(c, id - c.packetId)
      else r.Found? ==> r.config != c && r.config.packetId in m && m[r.config.packetId] == r.config
  {
    FirstCoverMeaning(order, m, id);
    if id in m {
      assert Unsaturated(m[id]) && Spans(m[id], id);
    }
    if Spans(c, id) {
      assert Unsaturated(c) && InSeries(c, id);
      assert c.packetId in order;
    }
  }

  /** After any run every slot of the field holds the latest value received for its
      frame ID and signal, or 0. */
  lemma {:induction false} SlotHoldsLatest(
    m: PacketMap, order: seq<nat>, run: seq<Received>, c: PacketConfig, field: string, s: nat, j: nat)
    requires Loaded(m, order) && BindsAlone(m, c, field)
    requires s < Quantity(c) && j < |c.signals| && IndexOf(c.signals[j], field).Some?
    ensures WellFormed(c)
    ensures Element(After(m, order, run), field, SlotOf(s, IndexOf(c.signals[j], field).value, Span(c.signals)))
      == OrZero(Latest(run, c.packetId + s, c.signals[j]))
    decreases |run|
  {
    assert WellFormed(c);
    if run != [] {
      var prior, frame := run[..|run| - 1], run[|run| - 1];
      SlotHoldsLatest(m, order, prior, c, field, s, j);
      var d := After(m, order, prior);
      OneFrame(m, order, d, frame, c, field, s, j);
    }
  }

  /** One more frame sets the slot if it is the slot's own frame, and leaves it otherwise. */
  lemma OneFrame(
    m: PacketMap, order: seq<nat>, d: Snapshot, frame: Received, c: PacketConfig, field: string, s: nat, j: nat)
    requires Loaded(m, order) && BindsAlone(m, c, field) && WellFormed(c)
    requires s < Quantity(c) && j < |c.signals| && IndexOf(c.signals[j], field).Some?
    ensures var r := Resolved(order, m, frame.id);
      var slot := SlotOf(s, IndexOf(c.signals[j], field).value, Span(c.signals));
      (r.Found? ==> WellFormed(r.config)) &&
      Element(if r.Found? then Processed(d, frame.payload, r.config, r.series) else d, field, slot) ==
      if frame.id == c.packetId + s && Physical(c.signals[j], frame.payload).Some?
      then Physical(c.signals[j], frame.payload).value else Element(d, field, slot)
  {
    var r := Resolved(order, m, frame.id);
    var slot := SlotOf(s, IndexOf(c.signals[j], field).value, Span(c.signals));
    ResolvesToSeries(m, order, c, field, frame.id);
    if Spans(c, frame.id) {
      OwnFrame(d, frame.payload, c, field, frame.id - c.packetId, s, j);
    } else if r.Found? {
      assert WellFormed(r.config) && BindsNowhere(r.config.signals, field);
      OtherFrame(d, frame.payload, r.config, field, r.series, slot);
    }
  }

  lemma OtherFrame(d: Snapshot, payload: seq<uint8>, c: PacketConfig, field: string, t: nat, slot: nat)
    requires WellFormed(c) && BindsNowhere(c.signals, field)
    ensures Element(Processed(d, payload, c, t), field, slot) == Element(d, field, slot)
  {
    OtherPacketsLeaveField(d, c.signals, payload, t * Span(c.signals), |c.signals|, field, slot);
  }

  lemma OwnFrame(d: Snapshot, payload: seq<uint8>, c: PacketConfig, field: string, t: nat, s: nat, j: nat)
    requires WellFormed(c) && DistinctIndexes(c.signals, field)
    requires j < |c.signals| && IndexOf(c.signals[j], field).Some?
    ensures Element(Processed(d, payload, c, t), field,
      SlotOf(s, IndexOf(c.signals[j], field).value, Span(c.signals))) ==
      if t == s && Physical(c.signals[j], payload).Some? then Physical(c.signals[j], payload).value
      else Element(d, field, SlotOf(s, IndexOf(c.signals[j], field).value, Span(c.signals)))
  {
    var slot := SlotOf(s, IndexOf(c.signals[j], field).value, Span(c.signals));
    var offset := t * Span(c.signals);
    forall i | 0 <= i < |c.signals| && IndexOf(c.signals[i], field).Some?
      ensures IndexOf(c.signals[i], field).value + offset == slot <==> t == s && i == j
    {
      OnlyOwnSeriesHits(c.signals, t, field, s, j, i);
    }
    OwnPacketWritesSlot(d, c.signals, payload, offset, |c.signals|, field, slot, j, t == s);
  }

  // ---- scalar fields ----------------------------------------------------------

  predicate BindsScalar(s: SignalConfig, field: string) {
    s.binding.Some? && !s.binding.value.repeated && s.binding.value.field == field
  }

  /** The value the first `k` signals of a frame give a scalar field, if any. */
  function ScalarIn(signals: seq<SignalConfig>, payload: seq<uint8>, field: string, k: nat): Option<real>
    requires k <= |signals| && forall i :: 0 <= i < |signals| ==> Decodable(signals[i])
  {
    if k == 0 then None
    else if BindsScalar(signals[k - 1], field) && Physical(signals[k - 1], payload).Some? then
      Physical(signals[k - 1], payload)
    else ScalarIn(signals, payload, field, k - 1)
  }

  /** The value most recently received for a scalar field from any of its producers. */
  ghost function LatestScalar(m: PacketMap, order: seq<nat>, run: seq<Received>, field: string): Option<real>
    requires Loaded(m, order)
  {
    if run == [] then None
    else
      var frame := run[|run| - 1];
      var r := Resolved(order, m, frame.id);
      FirstCoverMeaning(order, m, frame.id);
      if r.Found? && ScalarIn(r.config.signals, frame.payload, field, |r.config.signals|).Some?
      then ScalarIn(r.config.signals, frame.payload, field, |r.config.signals|)
      else LatestScalar(m, order, run[..|run| - 1], field)
  }

  function ScalarOf(d: Snapshot, field: string): Option<real> {
    if field in d.scalars then Some(d.scalars[field]) else None
  }

  lemma {:induction false} FlagsLeaveScalars(d: Snapshot, s: SignalConfig, payload: seq<uint8>, k: nat)
    requires Decodable(s) && k <= |s.flags|
    ensures StoreFlags(d, s, payload, k).scalars == d.scalars
  {
    if k > 0 {
      FlagsLeaveScalars(d, s, payload, k - 1);
    }
  }

  lemma {:induction false} FrameSetsScalar(
    d: Snapshot, signals: seq<SignalConfig>, payload: seq<uint8>, offset: nat, k: nat, field: string)
    requires k <= |signals| && forall i :: 0 <= i < |signals| ==> Decodable(signals[i])
    ensures ScalarOf(StoreAll(d, signals, payload, offset, k), field) ==
      if ScalarIn(signals, payload, field, k).Some? then ScalarIn(signals, payload, field, k) else ScalarOf(d, field)
  {
    if k > 0 {
      FrameSetsScalar(d, signals, payload, offset, k - 1, field);
      FlagsLeaveScalars(StoreAll(d, signals, payload, offset, k - 1), signals[k - 1], payload, |signals[k - 1].flags|);
    }
  }

  /** After any run a scalar field holds the latest value from any of the messages that
      share it, without preference or timeout. */
  lemma {:induction false} ScalarHoldsLatest(m: PacketMap, order: seq<nat>, run: seq<Received>, field: string)
    requires Loaded(m, order)
    ensures ScalarOf(After(m, order, run), field) == LatestScalar(m, order, run, field)
    decreases |run|
  {
    if run != [] {
      var prior, frame := run[..|run| - 1], run[|run| - 1];
      ScalarHoldsLatest(m, order, prior, field);
      FirstCoverMeaning(order, m, frame.id);
      var r := Resolved(order, m, frame.id);
      if r.Found? {
        PacketSetsScalar(After(m, order, prior), frame.payload, r.config, r.series, field);
      }
    }
  }

  lemma PacketSetsScalar(d: Snapshot, payload: seq<uint8>, c: PacketConfig, series: nat, field: string)
    requires WellFormed(c)
    ensures ScalarOf(Processed(d, payload, c, series), field) ==
      var x := ScalarIn(c.signals, payload, field, |c.signals|); if x.Some? then x else ScalarOf(d, field)
  {
    FrameSetsScalar(d, c.signals, payload, series * Span(c.signals), |c.signals|, field);
  }

  // ---- flags --------------------------------------------------------------------

  /** The payload is long enough for the signal. */
  predicate Readable(s: SignalConfig, payload: seq<uint8>) {
    s.entry.Entry? && s.entry.length > 0 && s.entry.startByte + s.entry.length <= |payload|
  }

  /** What the last of the first `k` mappings of a bitfield gives a flag field, if any maps
      it: a bit of the signal's first byte. */
  function FlagIn(s: SignalConfig, payload: seq<uint8>, field: string, k: nat): Option<bool>
    requires Readable(s, payload) && k <= |s.flags|
  {
    if k == 0 then None
    else if s.flags[k - 1].field == field then Some(Bit(payload[s.entry.startByte], s.flags[k - 1].bitIndex % 8))
    else FlagIn(s, payload, field, k - 1)
  }

  /** What the first `k` signals of a frame give it. */
  function FlagsIn(signals: seq<SignalConfig>, payload: seq<uint8>, field: string, k: nat): Option<bool>
    requires k <= |signals| && forall i :: 0 <= i < |signals| ==> Decodable(signals[i])
  {
    if k == 0 then None
    else
      var s := signals[k - 1];
      if Readable(s, payload) && s.entry.conv.BitfieldConv? && FlagIn(s, payload, field, |s.flags|).Some?
      then FlagIn(s, payload, field, |s.flags|)
      else FlagsIn(signals, payload, field, k - 1)
  }

  /** The value most recently received for a flag field. */
  ghost function LatestFlag(m: PacketMap, order: seq<nat>, run: seq<Received>, field: string): Option<bool>
    requires Loaded(m, order)
  {
    if run == [] then None
    else
      var frame := run[|run| - 1];
      var r := Resolved(order, m, frame.id);
      FirstCoverMeaning(order, m, frame.id);
      if r.Found? && FlagsIn(r.config.signals, frame.payload, field, |r.config.signals|).Some?
      then FlagsIn(r.config.signals, frame.payload, field, |r.config.signals|)
      else LatestFlag(m, order, run[..|run| - 1], field)
  }

  function FlagOf(d: Snapshot, field: string): Option<bool> {
    if field in d.flags then Some(d.flags[field]) else None
  }

  lemma {:induction false} StoredFlags(d: Snapshot, s: SignalConfig, payload: seq<uint8>, k: nat, field: string)
    requires Decodable(s) && Readable(s, payload) && k <= |s.flags|
    ensures FlagOf(StoreFlags(d, s, payload, k), field) ==
      if FlagIn(s, payload, field, k).Some? then FlagIn(s, payload, field, k) else FlagOf(d, field)
  {
    if k > 0 {
      StoredFlags(d, s, payload, k - 1, field);
    }
  }

  lemma {:induction false} NothingToStore(d: Snapshot, s: SignalConfig, payload: seq<uint8>, k: nat)
    requires Decodable(s) && !Readable(s, payload) && k <= |s.flags|
    ensures StoreFlags(d, s, payload, k) == d
  {
    if k > 0 {
      NothingToStore(d, s, payload, k - 1);
    }
  }

  lemma {:induction false} FrameSetsFlag(
    d: Snapshot, signals: seq<SignalConfig>, payload: seq<uint8>, offset: nat, k: nat, field: string)
    requires k <= |signals| && forall i :: 0 <= i < |signals| ==> Decodable(signals[i])
    ensures FlagOf(StoreAll(d, signals, payload, offset, k), field) ==
      if FlagsIn(signals, payload, field, k).Some? then FlagsIn(signals, payload, field, k) else FlagOf(d, field)
  {
    if k > 0 {
      FrameSetsFlag(d, signals, payload, offset, k - 1, field);
      SignalSetsFlag(StoreAll(d, signals, payload, offset, k - 1), signals[k - 1], payload, offset, field);
    }
  }

  lemma SignalSetsFlag(d: Snapshot, s: SignalConfig, payload: seq<uint8>, offset: nat, field: string)
    requires Decodable(s)
    ensures FlagOf(Store(d, s, payload, offset), field) ==
      if Readable(s, payload) && s.entry.conv.BitfieldConv? && FlagIn(s, payload, field, |s.flags|).Some?
      then FlagIn(s, payload, field, |s.flags|) else FlagOf(d, field)
  {
    if s.entry.conv.BitfieldConv? {
      if Readable(s, payload) {
        StoredFlags(d, s, payload, |s.flags|, field);
      } else {
        NothingToStore(d, s, payload, |s.flags|);
      }
    }
  }

  /** After any run a flag field holds the bit that the latest frame with a mapping for it
      carried, and is absent before the first. */
  lemma {:induction false} FlagHoldsLatest(m: PacketMap, order: seq<nat>, run: seq<Received>, field: string)
    requires Loaded(m, order)
    ensures FlagOf(After(m, order, run), field) == LatestFlag(m, order, run, field)
    decreases |run|
  {
    if run != [] {
      var prior, frame := run[..|run| - 1], run[|run| - 1];
      FlagHoldsLatest(m, order, prior, field);
      FirstCoverMeaning(order, m, frame.id);
      var r := Resolved(order, m, frame.id);
      if r.Found? {
        PacketSetsFlag(After(m, order, prior), frame.payload, r.config, r.series, field);
      }
    }
  }

  lemma PacketSetsFlag(d: Snapshot, payload: seq<uint8>, c: PacketConfig, series: nat, field: string)
    requires WellFormed(c)
    ensures FlagOf(Processed(d, payload, c, series), field) ==
      var b := FlagsIn(c.signals, payload, field, |c.signals|); if b.Some? then b else FlagOf(d, field)
  {
    FrameSetsFlag(d, c.signals, payload, series * Span(c.signals), |c.signals|, field);
  }
}
