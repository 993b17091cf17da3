/** How long the gateway, the logger and the wire contract take an array to be. */
module ArrayLayout {
  import opened Wrappers
  import opened Numbers
  import opened CanSpec
  import opened WireTypes
  import opened GatewayConfig
  import opened TelemetryTable
  import opened SensorCache
  import opened RepeatedFields
  import Ledger
  import WireContract

  // ---- the slots the gateway writes -------------------------------------------

  /** The gateway writes no slot of the field beyond the first `length`. */
  ghost predicate SlotsBelow(c: PacketConfig, field: string, length: nat) {
    forall s: nat, j: nat :: s < Quantity(c) && j < |c.signals| && IndexOf(c.signals[j], field).Some? ==>
      Below(SlotOf(s, IndexOf(c.signals[j], field).value, Span(c.signals)), length)
  }

  predicate Below(slot: nat, length: nat) { slot < length }

  /** `cells_per_frame`: the logger's span, taken per field. */
  function FieldSpan(signals: seq<SignalConfig>, field: string): (r: nat)
    ensures forall k :: 0 <= k < |signals| && IndexOf(signals[k], field).Some? ==> IndexOf(signals[k], field).value < r
    ensures r > 0 ==> exists k :: 0 <= k < |signals| && IndexOf(signals[k], field) == Some(r - 1)
    ensures r <= Span(signals)
  {
    if signals == [] then 0
    else
      var r := FieldSpan(signals[1..], field);
      assert forall k :: 0 < k < |signals| ==> signals[k] == signals[1..][k - 1];
      match IndexOf(signals[0], field)
      case Some(i) => if i + 1 >= r then i + 1 else r
      case None => r
  }

  function LastSlot(c: PacketConfig, field: string): nat
    requires FieldSpan(c.signals, field) > 0
  {
    SlotOf(Quantity(c) - 1, FieldSpan(c.signals, field) - 1, Span(c.signals))
  }

  /** The last signal's slot in the last frame decides. */
  lemma LargestSlotDecides(c: PacketConfig, field: string, length: nat)
    requires FieldSpan(c.signals, field) > 0
    ensures SlotsBelow(c, field, length) <==> LastSlot(c, field) < length
  {
    if SlotsBelow(c, field, length) {
      var j :| 0 <= j < |c.signals| && IndexOf(c.signals[j], field) == Some(FieldSpan(c.signals, field) - 1);
      assert Below(SlotOf(Quantity(c) - 1, IndexOf(c.signals[j], field).value, Span(c.signals)), length);
    }
    if LastSlot(c, field) < length {
      forall s: nat, j: nat | s < Quantity(c) && j < |c.signals| && IndexOf(c.signals[j], field).Some?
        ensures Below(SlotOf(s, IndexOf(c.signals[j], field).value, Span(c.signals)), length)
      {
        SlotBelowLast(c, field, length, s, IndexOf(c.signals[j], field).value);
      }
    }
  }

  lemma SlotBelowLast(c: PacketConfig, field: string, length: nat, s: nat, i: nat)
    requires FieldSpan(c.signals, field) > 0 && LastSlot(c, field) < length
    requires s < Quantity(c) && i < FieldSpan(c.signals, field)
    ensures Below(SlotOf(s, i, Span(c.signals)), length)
  {
    EarlierSlot(s, i, Quantity(c) - 1, FieldSpan(c.signals, field) - 1, Span(c.signals), length);
  }

  lemma EarlierSlot(s: nat, i: nat, t: nat, j: nat, span: nat, length: nat)
    requires s <= t && i <= j && SlotOf(t, j, span) < length
    ensures Below(SlotOf(s, i, span), length)
  {
    SlotGrows(s, t, span);
  }

  lemma SlotGrows(s: nat, t: nat, span: nat)
    requires s <= t
    ensures s * span <= t * span
  {
    if s < t {
      SeriesGap(s, t, span);
    }
  }

  // ---- the logger's columns ---------------------------------------------------

  /** `repeated_field_lengths`: the largest length any packet gives the field. */
  function LoggerLength(packets: seq<PacketConfig>, field: string): nat {
    if packets == [] then 0
    else
      var c := packets[|packets| - 1];
      Max(LoggerLength(packets[..|packets| - 1], field), LengthIn(c, field))
  }

  function LengthIn(c: PacketConfig, field: string): nat {
    Times(Quantity(c), FieldSpan(c.signals, field))
  }

  function Times(a: nat, b: nat): nat { a * b }

  /** Packet `n` is the only one to bind the field. */
  ghost predicate OnlyBinder(packets: seq<PacketConfig>, n: nat, field: string) {
    n < |packets| && forall k :: 0 <= k < |packets| && k != n ==> LengthIn(packets[k], field) == 0
  }

  lemma {:induction false} LengthOfOnlyBinder(packets: seq<PacketConfig>, n: nat, field: string)
    requires OnlyBinder(packets, n, field)
    ensures LoggerLength(packets, field) == LengthIn(packets[n], field)
  {
    var rest := packets[..|packets| - 1];
    if n == |packets| - 1 {
      NobodyBinds(rest, field);
    } else {
      LengthOfOnlyBinder(rest, n, field);
    }
  }

  lemma {:induction false} NobodyBinds(packets: seq<PacketConfig>, field: string)
    requires forall k :: 0 <= k < |packets| ==> LengthIn(packets[k], field) == 0
    ensures LoggerLength(packets, field) == 0
  {
    if packets != [] {
      NobodyBinds(packets[..|packets| - 1], field);
    }
  }

  /** The logger has a column for every slot of a field that one packet binds exactly when
      the packet is a single frame or the field has the span of the whole packet. */
  lemma ColumnsCoverIffOneSpan(packets: seq<PacketConfig>, n: nat, field: string)
    requires OnlyBinder(packets, n, field) && FieldSpan(packets[n].signals, field) > 0
    ensures SlotsBelow(packets[n], field, LoggerLength(packets, field)) <==>
      Quantity(packets[n]) == 1 || FieldSpan(packets[n].signals, field) == Span(packets[n].signals)
  {
    var q, own, span := Quantity(packets[n]), FieldSpan(packets[n].signals, field), Span(packets[n].signals);
    LengthOfOnlyBinder(packets, n, field);
    LargestSlotDecides(packets[n], field, q * own);
    LastSlotFits(q, own, own, span);
  }

  /** Whether the last slot of `q` frames fits `q * n` elements. */
  lemma LastSlotFits(q: nat, n: nat, own: nat, span: nat)
    requires q > 0 && 0 < n <= own <= span
    ensures SlotOf(q - 1, own - 1, span) < q * n <==> own == n && (q == 1 || span == n)
  {
    var extra := span - n;
    assert (q - 1) * span == (q - 1) * n + (q - 1) * extra;
    assert q * n == (q - 1) * n + n;
    if q > 1 && extra > 0 {
      SlotGrows(1, q - 1, extra);
    }
  }

  // ---- the documented stride --------------------------------------------------

  /** The stride the schema documents: the number of the field's bindings in the message. */
  function Bindings(signals: seq<SignalConfig>, field: string): nat {
    if signals == [] then 0
    else (if IndexOf(signals[0], field).Some? then 1 else 0) + Bindings(signals[1..], field)
  }

  ghost function Indexes(signals: seq<SignalConfig>, field: string): set<nat> {
    set s | s in signals && IndexOf(s, field).Some? :: IndexOf(s, field).value
  }

  function FirstNumbers(n: nat): (r: set<nat>)
    ensures |r| == n && forall k :: k in r <==> 0 <= k < n
  {
    if n == 0 then {} else FirstNumbers(n - 1) + {n - 1}
  }

  lemma {:induction false} BindingsAreIndexes(signals: seq<SignalConfig>, field: string)
    requires DistinctIndexes(signals, field)
    ensures |Indexes(signals, field)| == Bindings(signals, field)
  {
    if signals != [] {
      var first, rest := signals[0], signals[1..];
      assert signals == [first] + rest;
      DistinctInRest(first, rest, field);
      BindingsAreIndexes(rest, field);
      if IndexOf(first, field).Some? {
        assert Indexes(signals, field) == Indexes(rest, field) + {IndexOf(first, field).value};
      } else {
        assert Indexes(signals, field) == Indexes(rest, field);
      }
    }
  }

  lemma DistinctInRest(first: SignalConfig, rest: seq<SignalConfig>, field: string)
    requires DistinctIndexes([first] + rest, field)
    ensures DistinctIndexes(rest, field)
    ensures IndexOf(first, field).Some? ==> IndexOf(first, field).value !in Indexes(rest, field)
  {
    var signals := [first] + rest;
    assert forall j :: 0 <= j < |rest| ==> rest[j] == signals[j + 1];
    forall s | s in rest && IndexOf(s, field).Some? ensures IndexOf(s, field) != IndexOf(signals[0], field) {
      var j :| 0 <= j < |rest| && rest[j] == s;
      assert signals[j + 1] == s;
    }
  }

  /** The gateway's stride is the documented one exactly when the field has the packet's
      span and its indexes leave no gap. */
  lemma StrideIsDocumentedIffDense(signals: seq<SignalConfig>, field: string)
    requires DistinctIndexes(signals, field)
    ensures Span(signals) == Bindings(signals, field) <==> Indexes(signals, field) == FirstNumbers(Span(signals))
  {
    BindingsAreIndexes(signals, field);
    assert Indexes(signals, field) <= FirstNumbers(Span(signals)) by {
      forall s | s in signals && IndexOf(s, field).Some? ensures IndexOf(s, field).value < Span(signals) {
        var j :| 0 <= j < |signals| && signals[j] == s;
        IndexBelowSpan(signals, j, field);
      }
    }
    SubsetOfSameSize(Indexes(signals, field), FirstNumbers(Span(signals)));
  }

  /** Every slot of the field is the element the schema documents for it. */
  ghost predicate ElementsDocumented(c: PacketConfig, field: string) {
    forall s: nat, j: nat :: s < Quantity(c) && j < |c.signals| && IndexOf(c.signals[j], field).Some? ==>
      SameSlot(s, IndexOf(c.signals[j], field).value, Span(c.signals), Bindings(c.signals, field))
  }

  predicate SameSlot(s: nat, index: nat, stride: nat, documented: nat) {
    SlotOf(s, index, stride) == SlotOf(s, index, documented)
  }

  /** The gateway puts a field's values at the documented elements exactly when the packet
      is a single frame, or the indexes fill the packet's span without a gap. */
  lemma ElementsDocumentedIff(c: PacketConfig, field: string)
    requires DistinctIndexes(c.signals, field) && FieldSpan(c.signals, field) > 0
    ensures ElementsDocumented(c, field) <==>
      Quantity(c) == 1 || Indexes(c.signals, field) == FirstNumbers(Span(c.signals))
  {
    StrideIsDocumentedIffDense(c.signals, field);
    var span, documented := Span(c.signals), Bindings(c.signals, field);
    if ElementsDocumented(c, field) && Quantity(c) > 1 {
      var j :| 0 <= j < |c.signals| && IndexOf(c.signals[j], field).Some?;
      SameSlotIff(1, IndexOf(c.signals[j], field).value, span, documented);
    }
    if Quantity(c) == 1 || span == documented {
      forall s: nat, j: nat | s < Quantity(c) && j < |c.signals| && IndexOf(c.signals[j], field).Some?
        ensures SameSlot(s, IndexOf(c.signals[j], field).value, span, documented)
      {
        SameSlotIff(s, IndexOf(c.signals[j], field).value, span, documented);
      }
    }
  }

  lemma SameSlotIff(s: nat, index: nat, stride: nat, documented: nat)
    ensures SameSlot(s, index, stride, documented) <==> s == 0 || stride == documented
  {
    assert s * stride - s * documented == s * (stride - documented);
  }

  lemma SubsetOfSameSize(a: set<nat>, b: set<nat>)
    requires a <= b
    ensures |a| == |b| <==> a == b
  {
    assert |b - a| == |b| - |a|;
    if |a| == |b| {
      assert b - a == {};
    }
  }

  // ---- the wire contract's elements -------------------------------------------

  /** The bindings of an array. */
  function ArrayBindings(bs: seq<WireContract.Binding>, key: Ledger.Key): nat {
    if bs == [] then 0
    else
      var c := bs[|bs| - 1].claim;
      ArrayBindings(bs[..|bs| - 1], key) + if Ledger.KeyOf(c) == key && c.repeated then 1 else 0
  }

  /** If one message has them all, the contract gives the array one element for each of
      them and each of its frames. */
  lemma {:induction false} CountOfOneMessage(bs: seq<WireContract.Binding>, key: Ledger.Key, q: nat)
    requires forall b :: b in bs && Ledger.KeyOf(b.claim) == key ==> b.frames == q
    ensures WireContract.Slots(bs, key) == q * ArrayBindings(bs, key)
  {
    if bs != [] {
      assert bs[|bs| - 1] in bs;
      CountOfOneMessage(bs[..|bs| - 1], key, q);
      assert q * (ArrayBindings(bs[..|bs| - 1], key) + 1) == q * ArrayBindings(bs[..|bs| - 1], key) + q;
    }
  }

  /** The gateway keeps to the elements of the wire contract exactly when the indexes
      leave no gap and, with several frames, fill the packet's span. */
  lemma SlotsFitContractIff(c: PacketConfig, field: string, bs: seq<WireContract.Binding>, key: Ledger.Key)
    requires DistinctIndexes(c.signals, field) && FieldSpan(c.signals, field) > 0
    requires ArrayBindings(bs, key) == Bindings(c.signals, field)
    requires forall b :: b in bs && Ledger.KeyOf(b.claim) == key ==> b.frames == Quantity(c)
    ensures SlotsBelow(c, field, WireContract.Slots(bs, key)) <==>
      && FieldSpan(c.signals, field) == Bindings(c.signals, field)
      && (Quantity(c) == 1 || Span(c.signals) == Bindings(c.signals, field))
  {
    CountOfOneMessage(bs, key, Quantity(c));
    BindingsWithinSpan(c.signals, field);
    LargestSlotDecides(c, field, WireContract.Slots(bs, key));
    LastSlotFits(Quantity(c), Bindings(c.signals, field), FieldSpan(c.signals, field), Span(c.signals));
  }

  lemma BindingsWithinSpan(signals: seq<SignalConfig>, field: string)
    requires DistinctIndexes(signals, field) && FieldSpan(signals, field) > 0
    ensures 0 < Bindings(signals, field) <= FieldSpan(signals, field)
  {
    BindingsAreIndexes(signals, field);
    var indexes, all := Indexes(signals, field), FirstNumbers(FieldSpan(signals, field));
    assert indexes <= all by {
      forall s | s in signals && IndexOf(s, field).Some? ensures IndexOf(s, field).value < FieldSpan(signals, field) {
        var j :| 0 <= j < |signals| && signals[j] == s;
      }
    }
    assert |all - indexes| == |all| - |indexes|;
    var j :| 0 <= j < |signals| && IndexOf(signals[j], field).Some?;
    assert IndexOf(signals[j], field).value in indexes;
  }

  // ---- where they differ ------------------------------------------------------

  /** A packet of two frames with an element of each of two arrays. */
  const SHARED_PACKET: PacketConfig := PacketConfig(256, 2, None, [ElementSignal("a", 0), ElementSignal("b", 1)])

  function ElementSignal(field: string, index: nat): SignalConfig {
    SignalConfig(Entry(index, 1, UintConv(8), 1.0), [], Some(GatewayConfig.Binding(field, true, Some(index))))
  }

  const ELEMENT: WireContract.Encoded := Contract(8, Unsigned, 1.0, 0.0, PhysicalUnit("C"), false, None)

  const BINDINGS: seq<WireContract.Binding> := [
    WireContract.Binding(Ledger.Claim("g", "a", 1, true, 0, false, false, None, Some("M"), true), ELEMENT, 2),
    WireContract.Binding(Ledger.Claim("g", "b", 2, true, 1, false, false, None, Some("M"), true), ELEMENT, 2)]

  /** The ledger accepts the packet's bindings. */
  lemma SharedPacketIsAccepted()
    ensures Ledger.LedgerOk(WireContract.ClaimsOf(BINDINGS, []), [Ledger.Group("g", 3, [], [])])
  {
    var claims := WireContract.ClaimsOf(BINDINGS, []);
    var g := Ledger.Group("g", 3, [], []);
    assert claims == [BINDINGS[0].claim, BINDINGS[1].claim];
    assert [g][0] == g && "g" in Ledger.GroupNames([g]);
    assert LowerSnake("a") && LowerSnake("b") && "a"[0] != "b"[0];
    assert Ledger.Range(3) == {1, 2};
    assert Ledger.LiveIds(claims, "g") == {1, 2} by {
      assert claims[0] in claims && claims[1] in claims;
    }
    assert Ledger.SetOf<nat>([]) == {} && Ledger.SetOf<string>([]) == {};
  }

  /** Each array has one binding and two elements by schema and contract, but the gateway
      strides by two: the second frame's values go to slots 2 and 3, beyond the contract's
      length and, for the first array, beyond the log's two columns. */
  lemma SharedPacketOverflows()
    ensures var c := SHARED_PACKET;
      && WireContract.Slots(BINDINGS, ("g", "a")) == WireContract.Slots(BINDINGS, ("g", "b")) == 2
      && SlotOf(1, 0, Span(c.signals)) == 2 && SlotOf(1, 1, Span(c.signals)) == 3
      && !ElementsDocumented(c, "a") && !ElementsDocumented(c, "b")
      && !SlotsBelow(c, "a", 2) && !SlotsBelow(c, "b", 2)
      && LoggerLength([c], "a") == 2 && LoggerLength([c], "b") == 4
  {
    var c := SHARED_PACKET;
    SharedIndexes();
    LengthOfOnlyBinder([c], 0, "a");
    LengthOfOnlyBinder([c], 0, "b");
    LargestSlotDecides(c, "a", 2);
    LargestSlotDecides(c, "b", 2);
    assert SameSlot(1, 0, 2, 1) == SameSlot(1, 1, 2, 1) == false;
    assert BINDINGS[..1] == [BINDINGS[0]] && BINDINGS[..1][..0] == [];
    var before := BINDINGS[..1];
    assert WireContract.Slots(before, ("g", "a")) == 2 && WireContract.Slots(before, ("g", "b")) == 0;
  }

  lemma SharedIndexes()
    ensures var signals := SHARED_PACKET.signals;
      && IndexOf(signals[0], "a") == Some(0) && IndexOf(signals[1], "a") == None
      && IndexOf(signals[0], "b") == None && IndexOf(signals[1], "b") == Some(1)
      && Span(signals) == 2 && FieldSpan(signals, "a") == 1 && FieldSpan(signals, "b") == 2
      && Bindings(signals, "a") == Bindings(signals, "b") == 1
  {
    var signals := SHARED_PACKET.signals;
    assert signals == [signals[0], signals[1]];
    assert signals[1..] == [signals[1]] && [signals[1]][1..] == [];
    assert "a"[0] != "b"[0];
    assert IndexOf(signals[0], "a") == Some(0) && IndexOf(signals[1], "b") == Some(1);
    assert Bindings([signals[1]], "a") == 0 && Bindings([signals[1]], "b") == 1;
  }
}
