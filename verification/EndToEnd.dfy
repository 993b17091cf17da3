/** From a packed struct to its place in the gateway's snapshot. */
module EndToEnd {
  import opened Wrappers
  import opened Bits
  import opened CanSpec
  import opened BitWalk
  import opened CanCodec
  import opened CanRoundTrip
  import opened TelemetryTable
  import opened GatewayConfig
  import opened SensorCache
  import opened PacketLookup
  import opened RepeatedFields

  /** Frame `p` is the last of the run with that ID. */
  ghost predicate LastWithId(run: seq<Received>, id: nat, p: nat) {
    p < |run| && run[p].id == id && forall q :: p < q < |run| ==> run[q].id != id
  }

  lemma {:induction false} LatestIs(run: seq<Received>, id: nat, p: nat, s: SignalConfig)
    requires Decodable(s) && LastWithId(run, id, p) && SensorCache.Physical(s, run[p].payload).Some?
    ensures Latest(run, id, s) == SensorCache.Physical(s, run[p].payload)
  {
    if p < |run| - 1 {
      LatestIs(run[..|run| - 1], id, p, s);
    }
  }

  lemma ScaledApart(a: int, b: int, scale: real)
    requires scale != 0.0
    ensures Scaled(a, scale) == Scaled(b, scale) <==> a == b
  {
    if Scaled(a, scale) == Scaled(b, scale) {
      assert (a as real - b as real) * scale == 0.0;
    }
  }

  /** The gateway has a number for every signal of a full frame but the 64-bit ones. */
  lemma EntryIsRead(sig: Signal, s: seq<uint8>)
    requires LegalSignal(sig) && !sig.kind.Bitfield? && RenderSignal(sig).Entry? && sig.enc.bitLength != 64
    requires RenderSignal(sig).startByte + RenderSignal(sig).length <= |s|
    ensures GatewayRaw(RenderSignal(sig), s).Some?
  {
    EntryOf(sig, WireWidth(sig) / 8);
  }

  /** Signal `k` is sent, and the table has an entry for it that yields a number. */
  ghost predicate Carries(m: Message, f: Fields, k: nat) {
    && Legal(m) && GuardReady(m, f) && WellTyped(m, f)
    && k < |m.signals| && Active(m, f, m.signals[k])
    && Whole(m.signals[k].name) in f
    && !m.signals[k].kind.Bitfield? && m.signals[k].enc.bitLength != 64 && RenderSignal(m.signals[k]).Entry?
  }

  /** The physical value that was meant. */
  function Meant(m: Message, f: Fields, k: nat): real
    requires k < |m.signals| && Whole(m.signals[k].name) in f
  {
    PhysicalOf(m.signals[k].enc, f[Whole(m.signals[k].name)])
  }

  ghost predicate SpareBitsOf(m: Message, f: Fields, k: nat)
    requires Carries(m, f, k)
  {
    SpareBitsMatch(m, f, m.signals[k], f[Whole(m.signals[k].name)])
  }

  /** The gateway makes the physical value of a packed member exactly when the rest of its
      byte was sent as the bits of the member. */
  lemma PackedIsPhysical(m: Message, f: Fields, k: nat, payload: seq<uint8>, s: SignalConfig)
    requires Carries(m, f, k) && IsPacked(m, f, payload)
    requires Decodable(s) && s.entry == RenderSignal(m.signals[k])
    ensures SensorCache.Physical(s, payload).Some?
    ensures SensorCache.Physical(s, payload).value == Meant(m, f, k) <==> SpareBitsOf(m, f, k)
  {
    var sig := m.signals[k];
    assert LegalSignal(sig) && InFrame(sig, m.dlc);
    EntryInFrame(sig, m.dlc);
    EntryIsRead(sig, payload);
    PackedReachesGateway(m, f, payload, k);
    PhysicalOfRaw(s, payload, f[Whole(sig.name)]);
    ScaledIsPhysical(sig, f[Whole(sig.name)]);
  }

  /** The table has no offsets because the generator refuses them. */
  lemma ScaledIsPhysical(sig: Signal, v: int)
    requires RenderSignal(sig).Entry?
    ensures Scaled(v, RenderSignal(sig).precision) == PhysicalOf(sig.enc, v)
  {
  }

  lemma PhysicalOfRaw(s: SignalConfig, payload: seq<uint8>, v: int)
    requires Decodable(s) && GatewayRaw(s.entry, payload).Some? && s.entry.precision != 0.0
    ensures SensorCache.Physical(s, payload).Some?
    ensures SensorCache.Physical(s, payload).value == Scaled(v, s.entry.precision) <==>
      GatewayRaw(s.entry, payload) == Some(v)
  {
    var raw := GatewayRaw(s.entry, payload).value;
    assert SensorCache.Physical(s, payload) == Some(Scaled(raw, s.entry.precision));
    ScaledApart(raw, v, s.entry.precision);
  }

  /** Signal `j` of the packet is the field's element at one of the packet's frames. */
  ghost predicate Bound(table: PacketMap, order: seq<nat>, c: PacketConfig, field: string, s: nat, j: nat) {
    && Loaded(table, order) && BindsAlone(table, c, field) && s < Quantity(c)
    && j < |c.signals| && IndexOf(c.signals[j], field).Some?
  }

  function SlotFor(c: PacketConfig, field: string, s: nat, j: nat): nat
    requires j < |c.signals| && IndexOf(c.signals[j], field).Some?
  {
    SlotOf(s, IndexOf(c.signals[j], field).value, Span(c.signals))
  }

  lemma SlotHoldsLast(
    table: PacketMap, order: seq<nat>, run: seq<Received>, p: nat, c: PacketConfig, field: string, s: nat, j: nat)
    requires Bound(table, order, c, field, s, j) && LastWithId(run, c.packetId + s, p)
    ensures WellFormed(c)
    ensures var x := SensorCache.Physical(c.signals[j], run[p].payload);
      x.Some? ==> Element(After(table, order, run), field, SlotFor(c, field, s, j)) == x.value
  {
    SlotHoldsLatest(table, order, run, c, field, s, j);
    if SensorCache.Physical(c.signals[j], run[p].payload).Some? {
      LatestIs(run, c.packetId + s, p, c.signals[j]);
    }
  }

  /** After any run whose last frame with an ID of the packet carries a packed struct, the
      member's slot holds its physical value exactly when the rest of its byte was sent as
      the bits of that value. */
  lemma PackedReachesSlot(
    m: Message, f: Fields, k: nat, table: PacketMap, order: seq<nat>, run: seq<Received>, p: nat,
    c: PacketConfig, field: string, s: nat, j: nat)
    requires Carries(m, f, k) && Bound(table, order, c, field, s, j)
    requires c.signals[j].entry == RenderSignal(m.signals[k])
    requires LastWithId(run, c.packetId + s, p) && IsPacked(m, f, run[p].payload)
    ensures Element(After(table, order, run), field, SlotFor(c, field, s, j)) == Meant(m, f, k) <==>
      SpareBitsOf(m, f, k)
  {
    SlotHoldsLast(table, order, run, p, c, field, s, j);
    PackedIsPhysical(m, f, k, run[p].payload, c.signals[j]);
  }

  // ---- flags --------------------------------------------------------------------

  /** In frame `p` packet `c` maps the field last from bit `i` of signal `j`, and no later
      frame of the run maps it. */
  ghost predicate MapsLast(
    table: PacketMap, order: seq<nat>, run: seq<Received>, p: nat, c: PacketConfig, field: string, j: nat, i: nat)
    requires Loaded(table, order)
  {
    && p < |run| && FoundAt(table, order, run[p].id, c)
    && j < |c.signals| && Readable(c.signals[j], run[p].payload) && c.signals[j].entry.conv.BitfieldConv?
    && LastMapping(c.signals[j], field, i)
    && (forall k :: j < k < |c.signals| ==> !MapsFlag(c.signals[k], field))
    && (forall q :: p < q < |run| ==> NoFlagIn(table, order, run[q], field))
  }

  ghost predicate FoundAt(table: PacketMap, order: seq<nat>, id: nat, c: PacketConfig)
    requires Loaded(table, order)
  {
    Resolved(order, table, id).Found? && Resolved(order, table, id).config == c && WellFormed(c)
  }

  predicate MapsFlag(s: SignalConfig, field: string) {
    exists n :: 0 <= n < |s.flags| && s.flags[n].field == field
  }

  /** The last mapping of the field has bit `i`. */
  predicate LastMapping(s: SignalConfig, field: string, i: nat) {
    exists n :: 0 <= n < |s.flags| && s.flags[n] == FlagBinding(field, i) &&
      forall k :: n < k < |s.flags| ==> s.flags[k].field != field
  }

  ghost predicate NoFlagIn(table: PacketMap, order: seq<nat>, frame: Received, field: string)
    requires Loaded(table, order)
  {
    Resolved(order, table, frame.id).Found? ==>
      forall k :: 0 <= k < |Resolved(order, table, frame.id).config.signals| ==>
        !MapsFlag(Resolved(order, table, frame.id).config.signals[k], field)
  }

  lemma {:induction false} UnmappedFlag(s: SignalConfig, payload: seq<uint8>, field: string, k: nat)
    requires Readable(s, payload) && k <= |s.flags| && !MapsFlag(s, field)
    ensures FlagIn(s, payload, field, k).None?
  {
    if k > 0 {
      UnmappedFlag(s, payload, field, k - 1);
    }
  }

  lemma {:induction false} MappedFlag(s: SignalConfig, payload: seq<uint8>, field: string, n: nat, k: nat)
    requires Readable(s, payload) && n < k <= |s.flags| && s.flags[n].field == field
    requires forall i :: n < i < |s.flags| ==> s.flags[i].field != field
    ensures FlagIn(s, payload, field, k) == Some(Bit(payload[s.entry.startByte], s.flags[n].bitIndex % 8))
  {
    if k > n + 1 {
      MappedFlag(s, payload, field, n, k - 1);
    }
  }

  lemma {:induction false} UnmappedFrame(signals: seq<SignalConfig>, payload: seq<uint8>, field: string, k: nat)
    requires k <= |signals| && forall i :: 0 <= i < |signals| ==> Decodable(signals[i]) && !MapsFlag(signals[i], field)
    ensures FlagsIn(signals, payload, field, k).None?
  {
    if k > 0 {
      UnmappedFrame(signals, payload, field, k - 1);
      if Readable(signals[k - 1], payload) {
        UnmappedFlag(signals[k - 1], payload, field, |signals[k - 1].flags|);
      }
    }
  }

  lemma {:induction false} MappedFrame(
    signals: seq<SignalConfig>, payload: seq<uint8>, field: string, j: nat, i: nat, k: nat)
    requires j < k <= |signals| && forall n :: 0 <= n < |signals| ==> Decodable(signals[n])
    requires Readable(signals[j], payload) && signals[j].entry.conv.BitfieldConv? && LastMapping(signals[j], field, i)
    requires forall n :: j < n < |signals| ==> !MapsFlag(signals[n], field)
    ensures FlagsIn(signals, payload, field, k) == Some(Bit(payload[signals[j].entry.startByte], i % 8))
  {
    if k > j + 1 {
      MappedFrame(signals, payload, field, j, i, k - 1);
      if Readable(signals[k - 1], payload) {
        UnmappedFlag(signals[k - 1], payload, field, |signals[k - 1].flags|);
      }
    } else {
      var s := signals[j];
      var n :| 0 <= n < |s.flags| && s.flags[n] == FlagBinding(field, i) &&
        forall k :: n < k < |s.flags| ==> s.flags[k].field != field;
      MappedFlag(s, payload, field, n, |s.flags|);
    }
  }

  lemma {:induction false} LatestFlagIs(
    table: PacketMap, order: seq<nat>, run: seq<Received>, p: nat, c: PacketConfig, field: string, j: nat, i: nat)
    requires Loaded(table, order) && MapsLast(table, order, run, p, c, field, j, i)
    ensures LatestFlag(table, order, run, field) ==
      Some(Bit(run[p].payload[c.signals[j].entry.startByte], i % 8))
    decreases |run|
  {
    var n := |run| - 1;
    FirstCoverMeaning(order, table, run[n].id);
    if p == n {
      MappedFrame(c.signals, run[p].payload, field, j, i, |c.signals|);
    } else {
      var r := Resolved(order, table, run[n].id);
      assert NoFlagIn(table, order, run[n], field);
      if r.Found? {
        UnmappedFrame(r.config.signals, run[n].payload, field, |r.config.signals|);
      }
      LatestFlagIs(table, order, run[..n], p, c, field, j, i);
    }
  }

  /** Bit `i` of bitfield `k` is sent, and the table has an entry for it. */
  ghost predicate SendsFlag(m: Message, f: Fields, k: nat, i: nat) {
    && Legal(m) && GuardReady(m, f) && WellTyped(m, f)
    && k < |m.signals| && Active(m, f, m.signals[k]) && RenderSignal(m.signals[k]).Entry?
    && m.signals[k].kind.Bitfield? && i < |m.signals[k].kind.flags|
    && Flag(m.signals[k].name, m.signals[k].kind.flags[i]) in f
  }

  ghost predicate FlagSet(m: Message, f: Fields, k: nat, i: nat)
    requires SendsFlag(m, f, k, i)
  {
    f[Flag(m.signals[k].name, m.signals[k].kind.flags[i])] == 1
  }

  /** Bit `j` counted from the signal's first is sent as a one. */
  ghost predicate BitSent(m: Message, f: Fields, k: nat, i: nat, j: nat)
    requires SendsFlag(m, f, k, i)
  {
    Sent(m, f, m.signals[k].enc.startBit + j)
  }

  /** After any run in which a packed struct was the last frame to map a flag field, the
      field is the member's value exactly if the bit with its index modulo 8 was sent as it;
      for the first eight flags that is always so. */
  lemma PackedFlagReachesSnapshot(
    m: Message, f: Fields, k: nat, i: nat, table: PacketMap, order: seq<nat>, run: seq<Received>, p: nat,
    c: PacketConfig, field: string, j: nat)
    requires SendsFlag(m, f, k, i)
    requires Loaded(table, order) && MapsLast(table, order, run, p, c, field, j, i)
    requires c.signals[j].entry == RenderSignal(m.signals[k]) && IsPacked(m, f, run[p].payload)
    ensures var got := FlagOf(After(table, order, run), field);
      && (got == Some(FlagSet(m, f, k, i)) <==> BitSent(m, f, k, i, i % 8) == FlagSet(m, f, k, i))
      && (i < 8 ==> got == Some(FlagSet(m, f, k, i)))
  {
    SnapshotFlagIs(table, order, run, p, c, field, j, i, RenderSignal(m.signals[k]));
    ByteBitIsSent(m, f, k, i, run[p].payload, i % 8);
    if i < 8 {
      OwnBitIsSent(m, f, k, i, i % 8);
    }
  }

  lemma SnapshotFlagIs(
    table: PacketMap, order: seq<nat>, run: seq<Received>, p: nat, c: PacketConfig, field: string, j: nat, i: nat,
    entry: Rendered)
    requires Loaded(table, order) && MapsLast(table, order, run, p, c, field, j, i) && c.signals[j].entry == entry
    ensures entry.Entry? && entry.startByte < |run[p].payload|
    ensures FlagOf(After(table, order, run), field) == Some(Bit(run[p].payload[entry.startByte], i % 8))
  {
    FlagHoldsLatest(table, order, run, field);
    LatestFlagIs(table, order, run, p, c, field, j, i);
  }

  lemma ByteBitIsSent(m: Message, f: Fields, k: nat, i: nat, s: seq<uint8>, r: nat)
    requires SendsFlag(m, f, k, i) && IsPacked(m, f, s) && r < 8
    ensures RenderSignal(m.signals[k]).startByte < |s|
    ensures Bit(s[RenderSignal(m.signals[k]).startByte], r) == BitSent(m, f, k, i, r)
  {
    var sig := m.signals[k];
    assert LegalSignal(sig) && InFrame(sig, m.dlc);
    EntryInFrame(sig, m.dlc);
    BitInByte(s, sig.enc.startBit, r);
    assert (sig.enc.startBit + r) / 8 < m.dlc;
  }

  lemma OwnBitIsSent(m: Message, f: Fields, k: nat, i: nat, r: nat)
    requires SendsFlag(m, f, k, i) && i < 8 && r == i % 8
    ensures BitSent(m, f, k, i, r) == FlagSet(m, f, k, i)
  {
    assert r == i;
    FlagSlot(m, f, k, i);
    OnlyOwnerWrites(m, f, k, i, 0);
  }

  lemma FlagSlot(m: Message, f: Fields, k: nat, i: nat)
    requires SendsFlag(m, f, k, i)
    ensures var slot := Slots(m.signals[k])[i];
      && slot.length == 1 && Pos(slot.start, 0, slot.big) == m.signals[k].enc.startBit + i
      && slot.key in f && Bit(f[slot.key], 0) == FlagSet(m, f, k, i)
  {
    assert Storable(m.signals[k], f[Slots(m.signals[k])[i].key]);
  }
}
