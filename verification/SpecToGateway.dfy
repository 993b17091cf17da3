/** What the validator's acceptance of a spec means for the gateway that loads its table. */
module SpecToGateway {
  import opened Wrappers
  import opened CanSpec
  import opened CanCodec
  import opened FrameCheck
  import opened BusMerge
  import opened TelemetryTable
  import opened GatewayConfig
  import opened SensorCache
  import opened PacketLookup
  import opened RepeatedFields
  import opened EndToEnd
  import Ledger

  type Claim = Ledger.Claim

  /** A message of the spec with the telemetry of its signals, and the flags of its
      bitfields. */
  datatype Described = Described(
    message: Message, claims: seq<Option<Claim>>, flags: seq<seq<FlagBinding>>, board: Option<string>)

  /** Every signal has its entry in the table. */
  ghost predicate Complete(d: Described) {
    && |d.claims| == |d.flags| == |d.message.signals|
    && forall k :: 0 <= k < |d.message.signals| ==> RenderSignal(d.message.signals[k]).Entry?
  }

  function BindingOf(c: Claim): Binding {
    Binding(c.field, c.repeated, if c.repeated then Some(c.arrayIndex) else None)
  }

  /** The packet the gateway loads for a message. */
  function LoadedPacket(d: Described): (c: PacketConfig)
    requires Complete(d)
    ensures |c.signals| == |d.message.signals|
    ensures forall k :: 0 <= k < |c.signals| ==>
      && c.signals[k].entry == RenderSignal(d.message.signals[k])
      && c.signals[k].binding == if d.claims[k].Some? then Some(BindingOf(d.claims[k].value)) else None
  {
    PacketConfig(d.message.canId, EffectiveQuantity(d.message), d.board,
      seq(|d.message.signals|, k requires 0 <= k < |d.message.signals| =>
        SignalConfig(
          RenderSignal(d.message.signals[k]), d.flags[k],
          if d.claims[k].Some? then Some(BindingOf(d.claims[k].value)) else None)))
  }

  function Messages(ds: seq<Described>): (r: seq<Message>)
    ensures |r| == |ds| && forall n :: 0 <= n < |r| ==> r[n] == ds[n].message
  {
    seq(|ds|, n requires 0 <= n < |ds| => ds[n].message)
  }

  ghost function Packets(ds: seq<Described>): (r: seq<PacketConfig>)
    requires forall n :: 0 <= n < |ds| ==> Complete(ds[n])
    ensures |r| == |ds| && forall n :: 0 <= n < |r| ==> r[n] == LoadedPacket(ds[n])
  {
    seq(|ds|, n requires 0 <= n < |ds| => LoadedPacket(ds[n]))
  }

  /** The claims of one message, and of all, in the order of the ledger. */
  function Present(claims: seq<Option<Claim>>): seq<Claim> {
    if claims == [] then []
    else
      var last := claims[|claims| - 1];
      Present(claims[..|claims| - 1]) + if last.Some? then [last.value] else []
  }

  function SpecClaims(ds: seq<Described>): seq<Claim> {
    if ds == [] then [] else SpecClaims(ds[..|ds| - 1]) + Present(ds[|ds| - 1].claims)
  }

  /** The validator accepts the claims, with those of bits and external fields behind them,
      and the CAN IDs; the table generator accepts every signal; and different buses use
      different IDs. */
  ghost predicate AcceptedSpec(ds: seq<Described>, rest: seq<Claim>, groups: set<string>) {
    && Ledger.ClaimsOk(SpecClaims(ds) + rest, groups)
    && IdsAccepted(Messages(ds)) && BusesApart(Messages(ds))
    && forall n :: 0 <= n < |ds| ==> Complete(ds[n])
  }

  // ---- the claims of one message ----------------------------------------------

  lemma ClaimsOkOfPart(a: seq<Claim>, b: seq<Claim>, groups: set<string>)
    requires Ledger.ClaimsOk(a + b, groups)
    ensures Ledger.ClaimsOk(a, groups) && Ledger.ClaimsOk(b, groups)
  {
    var all := a + b;
    assert forall i :: 0 <= i < |a| ==> a[i] == all[i];
    assert forall i :: 0 <= i < |b| ==> b[i] == all[|a| + i];
  }

  lemma {:induction false} ClaimsOkOfMessage(ds: seq<Described>, rest: seq<Claim>, groups: set<string>, n: nat)
    requires Ledger.ClaimsOk(SpecClaims(ds) + rest, groups) && n < |ds|
    ensures Ledger.ClaimsOk(Present(ds[n].claims), groups)
  {
    var prior, last := SpecClaims(ds[..|ds| - 1]), Present(ds[|ds| - 1].claims);
    ClaimsOkOfPart(SpecClaims(ds), rest, groups);
    ClaimsOkOfPart(prior, last, groups);
    if n < |ds| - 1 {
      assert prior + [] == prior;
      ClaimsOkOfMessage(ds[..|ds| - 1], [], groups, n);
    }
  }

  lemma {:induction false} PresentHas(claims: seq<Option<Claim>>, k: nat)
    requires k < |claims| && claims[k].Some?
    ensures claims[k].value in Present(claims)
  {
    if k < |claims| - 1 {
      PresentHas(claims[..|claims| - 1], k);
    }
  }

  lemma {:induction false} PresentPairOk(claims: seq<Option<Claim>>, groups: set<string>, i: nat, j: nat)
    requires Ledger.ClaimsOk(Present(claims), groups)
    requires i < j < |claims| && claims[i].Some? && claims[j].Some?
    ensures Ledger.PairOk(claims[i].value, claims[j].value) && Ledger.SingleOk(claims[i].value, groups)
  {
    var prior, last := claims[..|claims| - 1], claims[|claims| - 1];
    ClaimsOkOfPart(Present(prior), if last.Some? then [last.value] else [], groups);
    if j < |claims| - 1 {
      PresentPairOk(prior, groups, i, j);
    } else {
      PresentHas(prior, i);
      var p :| 0 <= p < |Present(prior)| && Present(prior)[p] == claims[i].value;
      assert Ledger.PairOk(Present(claims)[p], Present(claims)[|Present(prior)|]);
      assert Ledger.SingleOk(Present(claims)[p], groups);
    }
  }

  /** Signals of one message bind different elements of an array. */
  lemma IndexesAreDistinct(d: Described, groups: set<string>, field: string)
    requires Complete(d) && Ledger.ClaimsOk(Present(d.claims), groups)
    ensures DistinctIndexes(LoadedPacket(d).signals, field)
  {
    var signals := LoadedPacket(d).signals;
    forall i, j | 0 <= i < j < |signals| && IndexOf(signals[i], field).Some?
      ensures IndexOf(signals[i], field) != IndexOf(signals[j], field)
    {
      if IndexOf(signals[j], field).Some? {
        PresentPairOk(d.claims, groups, i, j);
      }
    }
  }

  // ---- the packets ------------------------------------------------------------

  lemma PacketsAreDisjoint(ds: seq<Described>, rest: seq<Claim>, groups: set<string>)
    requires AcceptedSpec(ds, rest, groups)
    ensures SeriesDisjoint(Packets(ds))
    ensures forall n :: 0 <= n < |ds| ==> Unsaturated(Packets(ds)[n]) && WellFormed(Packets(ds)[n])
  {
    var messages, packets := Messages(ds), Packets(ds);
    forall i, j | 0 <= i < j < |ds| ensures Apart(packets[i], packets[j]) {
      assert IdsDisjoint(messages[i], messages[j]);
    }
    forall n | 0 <= n < |ds| ensures Unsaturated(packets[n]) && WellFormed(packets[n]) {
      assert IdsFit(messages[n]);
      forall k | 0 <= k < |packets[n].signals| ensures Decodable(packets[n].signals[k]) {
        EntryIsDecodable(ds[n].message.signals[k]);
      }
    }
  }

  lemma EntryIsDecodable(sig: Signal)
    requires RenderSignal(sig).Entry?
    ensures RenderSignal(sig).conv.BitfieldConv? || RenderSignal(sig).conv.width <= 8 * RenderSignal(sig).length
  {
  }

  /** Only message `n` binds elements of the array. */
  ghost predicate OnlyMessage(ds: seq<Described>, n: nat, field: string) {
    n < |ds| && forall m, k :: 0 <= m < |ds| && m != n && 0 <= k < |ds[m].claims| && ds[m].claims[k].Some? ==>
      !(ds[m].claims[k].value.repeated && ds[m].claims[k].value.field == field)
  }

  lemma OthersBindNowhere(ds: seq<Described>, n: nat, m: nat, field: string)
    requires (forall k :: 0 <= k < |ds| ==> Complete(ds[k])) && OnlyMessage(ds, n, field) && m < |ds| && m != n
    ensures BindsNowhere(Packets(ds)[m].signals, field)
  {
  }

  /** Acceptance gives what the gateway's run theorems assume. */
  lemma AcceptedBindsAlone(
    ds: seq<Described>, rest: seq<Claim>, groups: set<string>, n: nat, field: string, order: seq<nat>)
    requires AcceptedSpec(ds, rest, groups) && OnlyMessage(ds, n, field)
    requires Lists(order, MapOf(Packets(ds)))
    ensures Loaded(MapOf(Packets(ds)), order) && BindsAlone(MapOf(Packets(ds)), Packets(ds)[n], field)
  {
    var packets := Packets(ds);
    var table, c := MapOf(packets), packets[n];
    PacketsAreDisjoint(ds, rest, groups);
    ClaimsOkOfMessage(ds, rest, groups, n);
    IndexesAreDistinct(ds[n], groups, field);
    OwnEntry(packets, n);
    forall a | a in table
      ensures WellFormed(table[a]) && Unsaturated(table[a])
      ensures table[a] != c ==> BindsNowhere(table[a].signals, field)
      ensures forall id :: Spans(table[a], id) && Spans(c, id) ==> table[a] == c
    {
      TableEntry(ds, n, field, a);
    }
  }

  lemma TableEntry(ds: seq<Described>, n: nat, field: string, a: nat)
    requires (forall k :: 0 <= k < |ds| ==> Complete(ds[k])) && SeriesDisjoint(Packets(ds))
    requires forall k :: 0 <= k < |ds| ==> Unsaturated(Packets(ds)[k]) && WellFormed(Packets(ds)[k])
    requires OnlyMessage(ds, n, field) && a in MapOf(Packets(ds))
    ensures var p := MapOf(Packets(ds))[a]; var c := Packets(ds)[n];
      && WellFormed(p) && Unsaturated(p)
      && (p != c ==> BindsNowhere(p.signals, field))
      && forall id :: Spans(p, id) && Spans(c, id) ==> p == c
  {
    var packets := Packets(ds);
    MapOfEntry(packets, a);
    var m: nat :| m < |packets| && packets[m] == MapOf(packets)[a];
    if m != n {
      OthersBindNowhere(ds, n, m, field);
    }
    forall id | Spans(packets[m], id) && Spans(packets[n], id) ensures packets[m] == packets[n] {
      SameOwner(packets, m, n, id);
    }
  }

  // ---- end to end -------------------------------------------------------------

  /** Signal `j` of message `n` is an element of the array, in frame `s` of the message's
      series, and no other message binds the array. */
  ghost predicate BindsElement(ds: seq<Described>, n: nat, field: string, s: nat, j: nat) {
    && OnlyMessage(ds, n, field) && s < EffectiveQuantity(ds[n].message)
    && j < |ds[n].claims| && ds[n].claims[j].Some?
    && ds[n].claims[j].value.repeated && ds[n].claims[j].value.field == field
  }

  lemma ElementIsBound(
    ds: seq<Described>, rest: seq<Claim>, groups: set<string>, n: nat, field: string, order: seq<nat>, s: nat, j: nat)
    requires AcceptedSpec(ds, rest, groups) && BindsElement(ds, n, field, s, j)
    requires Lists(order, MapOf(Packets(ds)))
    ensures Bound(MapOf(Packets(ds)), order, Packets(ds)[n], field, s, j)
    ensures SlotFor(Packets(ds)[n], field, s, j) ==
      SlotOf(s, ds[n].claims[j].value.arrayIndex, Span(Packets(ds)[n].signals))
  {
    AcceptedBindsAlone(ds, rest, groups, n, field, order);
  }

  /** For every accepted spec: after any run, each slot of an array that one message binds
      holds the latest value of its signal in its frame, or 0. */
  lemma AcceptedSlotHoldsLatest(
    ds: seq<Described>, rest: seq<Claim>, groups: set<string>, n: nat, field: string, order: seq<nat>,
    run: seq<Received>, s: nat, j: nat)
    requires AcceptedSpec(ds, rest, groups) && BindsElement(ds, n, field, s, j)
    requires Lists(order, MapOf(Packets(ds)))
    ensures var table, c := MapOf(Packets(ds)), Packets(ds)[n];
      Bound(table, order, c, field, s, j) && HoldsLatest(table, order, run, c, field, s, j)
  {
    ElementIsBound(ds, rest, groups, n, field, order, s, j);
    BoundHoldsLatest(MapOf(Packets(ds)), order, run, Packets(ds)[n], field, s, j);
  }

  ghost predicate HoldsLatest(
    table: PacketMap, order: seq<nat>, run: seq<Received>, c: PacketConfig, field: string, s: nat, j: nat)
    requires Bound(table, order, c, field, s, j)
  {
    && WellFormed(c)
    && Element(After(table, order, run), field, SlotFor(c, field, s, j)) ==
         OrZero(Latest(run, c.packetId + s, c.signals[j]))
  }

  lemma BoundHoldsLatest(
    table: PacketMap, order: seq<nat>, run: seq<Received>, c: PacketConfig, field: string, s: nat, j: nat)
    requires Bound(table, order, c, field, s, j)
    ensures HoldsLatest(table, order, run, c, field, s, j)
  {
    SlotHoldsLatest(table, order, run, c, field, s, j);
  }

  /** The validator and the generator accept the frame, with mux values listed together. */
  ghost predicate AcceptedFrame(m: Message) {
    && MuxAccepted(m.signals) && SignalsAccepted(m.signals, m.dlc) && Grouped(Keys(m.signals))
    && forall k :: 0 <= k < |m.signals| ==> GeneratorAccepts(m.signals[k])
  }

  /** A well-typed struct in which signal `j` is sent as a number of up to 32 bits. */
  ghost predicate Sends(m: Message, f: Fields, j: nat) {
    && Packable(m) && GuardReady(m, f) && WellTyped(m, f) && j < |m.signals| && Active(m, f, m.signals[j])
    && !m.signals[j].kind.Bitfield? && m.signals[j].enc.bitLength != 64
  }

  lemma SentIsCarried(m: Message, f: Fields, j: nat)
    requires Legal(m) && Sends(m, f, j) && RenderSignal(m.signals[j]).Entry?
    ensures Carries(m, f, j)
  {
    OneSlot(m.signals[j]);
    assert HasMembers(m.signals[j], f);
    assert Slots(m.signals[j])[0].key in f;
  }

  /** For every accepted spec and frame: a struct packed into the last frame of its ID is
      found in the array exactly if the rest of its byte was sent as its bits. */
  lemma AcceptedSpecDelivers(
    ds: seq<Described>, rest: seq<Claim>, groups: set<string>, n: nat, field: string, order: seq<nat>,
    run: seq<Received>, p: nat, f: Fields, s: nat, j: nat)
    requires AcceptedSpec(ds, rest, groups) && BindsElement(ds, n, field, s, j)
    requires Lists(order, MapOf(Packets(ds)))
    requires AcceptedFrame(ds[n].message) && Sends(ds[n].message, f, j)
    requires LastWithId(run, ds[n].message.canId + s, p) && IsPacked(ds[n].message, f, run[p].payload)
    ensures var table, c := MapOf(Packets(ds)), Packets(ds)[n];
      && Carries(ds[n].message, f, j) && Bound(table, order, c, field, s, j)
      && (Element(After(table, order, run), field, SlotFor(c, field, s, j)) == Meant(ds[n].message, f, j)
          <==> SpareBitsOf(ds[n].message, f, j))
  {
    ElementIsBound(ds, rest, groups, n, field, order, s, j);
    AcceptedIsLegal(ds[n].message);
    SentIsCarried(ds[n].message, f, j);
    PackedReachesSlot(ds[n].message, f, j, MapOf(Packets(ds)), order, run, p, Packets(ds)[n], field, s, j);
  }
}
