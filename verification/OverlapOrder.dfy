/** Which orders of a message's signals let overlaps past the validator, and what an overlap
does to the values. */
module OverlapOrder {
  import opened Wrappers
  import opened Numbers
  import opened Bits
  import opened CanSpec
  import opened BitWalk
  import opened CanCodec
  import opened CanRoundTrip
  import opened FrameCheck

  /** No frame with this order of mux values is accepted with an overlap. */
  ghost predicate AlwaysSound(keys: seq<Option<uint32>>) {
    forall signals: seq<Signal>, dlc: nat ::
      Keys(signals) == keys && MuxAccepted(signals) && SignalsAccepted(signals, dlc) ==> CoactiveDisjoint(signals)
  }

  /** In no accepted message with this order does a signal disturb another. */
  ghost predicate ValuesSurvive(keys: seq<Option<uint32>>) {
    forall m: Message, f: Fields :: Accepted(m, keys) && SendableStruct(m, f) ==> AllUndisturbed(m, f)
  }

  ghost predicate Accepted(m: Message, keys: seq<Option<uint32>>) {
    Keys(m.signals) == keys && MuxAccepted(m.signals) && SignalsAccepted(m.signals, m.dlc) && Packable(m)
  }

  /** A struct of the message whose values all fit their types and encodings. */
  ghost predicate SendableStruct(m: Message, f: Fields)
    requires Packable(m)
  {
    GuardReady(m, f) && WellTyped(m, f) && AllSendable(m, f)
  }

  predicate HasPlain(keys: seq<Option<uint32>>) {
    exists q :: 0 <= q < |keys| && keys[q].None?
  }

  /** An order of mux values lets no overlap through exactly if it lists them together;
      an order without a plain signal has no accepted frame at all. */
  lemma SoundIffGrouped(keys: seq<Option<uint32>>)
    ensures AlwaysSound(keys) <==> Grouped(keys) || !HasPlain(keys)
  {
    if Grouped(keys) || !HasPlain(keys) {
      forall signals: seq<Signal>, dlc: nat
        | Keys(signals) == keys && MuxAccepted(signals) && SignalsAccepted(signals, dlc)
        ensures CoactiveDisjoint(signals)
      {
        AcceptedKeepsApart(signals, dlc);
      }
    } else {
      var q, i, j, k := FindStraddled(keys);
      HiddenOverlap(keys, q, i, j, k, |keys| + 4);
    }
  }

  /** And under the same condition all values survive the wire. */
  lemma ValuesSurviveIffGrouped(keys: seq<Option<uint32>>)
    ensures ValuesSurvive(keys) <==> Grouped(keys) || !HasPlain(keys)
  {
    if Grouped(keys) || !HasPlain(keys) {
      forall m: Message, f: Fields | Accepted(m, keys) && SendableStruct(m, f) ensures AllUndisturbed(m, f) {
        AcceptedKeepsApart(m.signals, m.dlc);
        LegalIsUndisturbed(m, f);
      }
    } else {
      var q, i, j, k := FindStraddled(keys);
      OverlapDisturbs(keys, q, i, j, k, |keys| + 4);
    }
  }

  lemma AcceptedKeepsApart(signals: seq<Signal>, dlc: nat)
    requires MuxAccepted(signals) && SignalsAccepted(signals, dlc)
    requires Grouped(Keys(signals)) || !HasPlain(Keys(signals))
    ensures CoactiveDisjoint(signals)
  {
    if Grouped(Keys(signals)) {
      GroupedScanIsExact(signals);
    } else {
      SelectorIsPlain(signals, dlc);
    }
  }

  lemma FindStraddled(keys: seq<Option<uint32>>) returns (q: nat, i: nat, j: nat, k: nat)
    requires !Grouped(keys) && HasPlain(keys)
    ensures Straddled(keys, i, j, k) && q < |keys| && keys[q].None?
  {
    q :| q < |keys| && keys[q].None?;
    i, j, k :|
      0 <= i < j < k < |keys| && keys[i].Some? && keys[i] == keys[k] && keys[j].Some? && keys[j] != keys[i];
  }

  lemma SelectorIsPlain(signals: seq<Signal>, dlc: nat)
    requires MuxAccepted(signals) && SignalsAccepted(signals, dlc) && signals != []
    ensures HasPlain(Keys(signals))
  {
    if signals[0].enc.muxed {
      var n :| 0 <= n < |signals| && signals[n].muxSelector;
      assert EncodingOk(signals[n]);
      assert Keys(signals)[n].None?;
    } else {
      assert Keys(signals)[0].None?;
    }
  }

  /** Signals `i` and `k` have one mux value, `j` between them another. */
  predicate Straddled(keys: seq<Option<uint32>>, i: nat, j: nat, k: nat) {
    && i < j < k < |keys|
    && keys[i].Some? && keys[i] == keys[k] && keys[j].Some? && keys[j] != keys[i]
  }

  function NameOf(n: nat): (name: string)
    ensures |name| == n + 1
  {
    seq(n + 1, _ => 'a')
  }

  /** One-bit signals, `i`, `j` and `k` on the same bit and every other on a bit of its own;
      behind them the selector `q`, as wide as a mux value. */
  function HidingSignal(keys: seq<Option<uint32>>, q: nat, i: nat, j: nat, k: nat, n: nat): Signal
    requires n < |keys|
  {
    if n == q then Signal(NameOf(n), Bare(|keys|, 32, None), Physical, true, false)
    else Signal(NameOf(n), Bare(if n == j || n == k then i else n, 1, keys[n]), Boolean, false, false)
  }

  function Bare(start: nat, length: nat, key: Option<uint32>): Encoding {
    Encoding(
      start, length, LittleEndian, Unsigned, 1.0, 0.0, key.Some?, if key.Some? then key.value else 0, 0.0, 0.0)
  }

  function HidingLayout(keys: seq<Option<uint32>>, q: nat, i: nat, j: nat, k: nat): (signals: seq<Signal>)
    ensures |signals| == |keys|
    ensures forall n :: 0 <= n < |keys| ==> signals[n] == HidingSignal(keys, q, i, j, k, n)
  {
    seq(|keys|, n requires 0 <= n < |keys| => HidingSignal(keys, q, i, j, k, n))
  }

  /** A value, another value and the first again on one bit: accepted in every frame with
      room for the signals, yet the first and the last can be active together. */
  lemma HiddenOverlap(keys: seq<Option<uint32>>, q: nat, i: nat, j: nat, k: nat, dlc: nat)
    requires Straddled(keys, i, j, k) && q < |keys| && keys[q].None? && |keys| + 32 <= 8 * dlc
    ensures var signals := HidingLayout(keys, q, i, j, k);
      && Keys(signals) == keys
      && MuxAccepted(signals) && SignalsAccepted(signals, dlc)
      && !CoactiveDisjoint(signals)
  {
    var signals := HidingLayout(keys, q, i, j, k);
    assert signals[q].muxSelector && signals[i].enc.muxed;
    forall n | 0 <= n < |signals|
      ensures EncodingOk(signals[n]) && InFrame(signals[n], dlc) && LowerSnake(signals[n].name)
    {
      HidingSignalOk(keys, q, i, j, k, n, dlc);
    }
    forall a, b | 0 <= a < b < |signals| ensures signals[a].name != signals[b].name {
      assert |signals[a].name| == a + 1 && |signals[b].name| == b + 1;
    }
    forall a: nat, b: nat, p: nat | a < b < |signals| && Neighbours(signals, a, b, p)
      ensures !MayCoexist(signals[a], signals[b])
    {
      HidingCovers(keys, q, i, j, k, a, p);
      HidingCovers(keys, q, i, j, k, b, p);
      HidingCovers(keys, q, i, j, k, j, p);
    }
    HidingCovers(keys, q, i, j, k, i, i);
    HidingCovers(keys, q, i, j, k, k, i);
    assert Covers(signals[i], i) && Covers(signals[k], i) && MayCoexist(signals[i], signals[k]);
  }

  lemma HidingSignalOk(keys: seq<Option<uint32>>, q: nat, i: nat, j: nat, k: nat, n: nat, dlc: nat)
    requires Straddled(keys, i, j, k) && q < |keys| && keys[q].None? && |keys| + 32 <= 8 * dlc && n < |keys|
    ensures var sig := HidingSignal(keys, q, i, j, k, n);
      EncodingOk(sig) && GeneratorAccepts(sig) && InFrame(sig, dlc) && LowerSnake(sig.name)
  {
    var sig := HidingSignal(keys, q, i, j, k, n);
    forall b: nat | b < sig.enc.bitLength ensures Pos(sig.enc.startBit, b, Big(sig)) / 8 < dlc {
      PosIsConsecutive(sig.enc.startBit, b, false);
    }
  }

  lemma HidingCovers(keys: seq<Option<uint32>>, q: nat, i: nat, j: nat, k: nat, n: nat, p: nat)
    requires Straddled(keys, i, j, k) && q < |keys| && keys[q].None? && n < |keys|
    ensures Covers(HidingSignal(keys, q, i, j, k, n), p) <==>
      if n == q then |keys| <= p < |keys| + 32 else p == if n == j || n == k then i else n
  {
    LittleEndianCovers(HidingSignal(keys, q, i, j, k, n), p);
  }

  // ---- what the overlap does ----------------------------------------------

  function HidingMessage(keys: seq<Option<uint32>>, q: nat, i: nat, j: nat, k: nat, dlc: nat): Message {
    Message("M", 256, 1, "Critical", dlc, HidingLayout(keys, q, i, j, k))
  }

  /** The selector has the mux value of `i` and `k`; of the flags only `i` is set. */
  function HidingStruct(keys: seq<Option<uint32>>, q: nat, i: nat): Fields
    requires i < |keys| && keys[i].Some?
  {
    FirstMembers(|keys|, q, i, keys[i].value)
  }

  function FirstMembers(count: nat, q: nat, i: nat, selected: nat): (f: Fields)
    ensures forall n: nat :: n < count ==>
      Whole(NameOf(n)) in f && f[Whole(NameOf(n))] == if n == q then selected else if n == i then 1 else 0
  {
    if count == 0 then map[]
    else
      var n := count - 1;
      FirstMembers(n, q, i, selected)[Whole(NameOf(n)) := if n == q then selected else if n == i then 1 else 0]
  }

  lemma HidingMember(keys: seq<Option<uint32>>, q: nat, i: nat, j: nat, k: nat, n: nat)
    requires i < |keys| && keys[i].Some? && n < |keys|
    ensures var sig, f := HidingSignal(keys, q, i, j, k, n), HidingStruct(keys, q, i);
      && Slots(sig) == [Slot(sig.enc.startBit, sig.enc.bitLength, false, Whole(NameOf(n)))]
      && Whole(NameOf(n)) in f
      && f[Whole(NameOf(n))] == (if n == q then keys[i].value else if n == i then 1 else 0)
      && Storable(sig, f[Whole(NameOf(n))]) && Sendable(sig, f[Whole(NameOf(n))])
  {
    if n == q {
      SelectorHolds(HidingSignal(keys, q, i, j, k, n), keys[i].value);
    }
  }

  lemma SelectorHolds(sig: Signal, v: uint32)
    requires sig.kind.Physical? && sig.enc.sign.Unsigned? && sig.enc.bitLength == 32
    ensures Storable(sig, v) && Sendable(sig, v)
  {
    WordPowers(16, sig.enc.bitLength, 64);
    assert StorageWidth(sig) == 32;
  }

  lemma HidingSelector(keys: seq<Option<uint32>>, q: nat, i: nat, j: nat, k: nat, dlc: nat)
    requires q < |keys|
    ensures Selector(HidingMessage(keys, q, i, j, k, dlc)) == Some(HidingSignal(keys, q, i, j, k, q))
  {
    var m := HidingMessage(keys, q, i, j, k, dlc);
    assert m.signals[q].muxSelector;
    assert forall n :: 0 <= n < |m.signals| && m.signals[n].muxSelector ==> n == q;
  }

  /** Two signals with one mux value on one bit, both active in a struct whose values fit:
      the one that is set disturbs the one that is not. */
  lemma OverlapDisturbs(keys: seq<Option<uint32>>, q: nat, i: nat, j: nat, k: nat, dlc: nat)
    requires Straddled(keys, i, j, k) && q < |keys| && keys[q].None? && |keys| + 32 <= 8 * dlc
    ensures var m, f := HidingMessage(keys, q, i, j, k, dlc), HidingStruct(keys, q, i);
      && Accepted(m, keys) && SendableStruct(m, f)
      && Active(m, f, m.signals[i]) && Active(m, f, m.signals[k])
      && !AllUndisturbed(m, f)
  {
    var m, f := HidingMessage(keys, q, i, j, k, dlc), HidingStruct(keys, q, i);
    HidingIsAccepted(keys, q, i, j, k, dlc);
    HidingIsSendable(keys, q, i, j, k, dlc);
    HidingSelector(keys, q, i, j, k, dlc);
    HidingMember(keys, q, i, j, k, q);
    HidingMember(keys, q, i, j, k, i);
    HidingMember(keys, q, i, j, k, k);
    assert Active(m, f, m.signals[i]) && Active(m, f, m.signals[k]);
    FlagDisturbs(m, f, i, k, i);
  }

  /** A one-bit member with value `v`, sent on bit `p`. */
  ghost predicate SentAlone(m: Message, f: Fields, n: nat, p: nat, v: int)
    requires Packable(m) && GuardReady(m, f)
  {
    && n < |m.signals| && Active(m, f, m.signals[n]) && |Slots(m.signals[n])| == 1
    && var slot := Slots(m.signals[n])[0]; slot.start == p && slot.length == 1 && f[slot.key] == v
  }

  lemma FlagDisturbs(m: Message, f: Fields, n: nat, other: nat, p: nat)
    requires Packable(m) && GuardReady(m, f) && SentAlone(m, f, n, p, 1) && SentAlone(m, f, other, p, 0)
    ensures !AllUndisturbed(m, f)
  {
    FlagReachesBit(m, f, n, p);
    var slot := Slots(m.signals[other])[0];
    assert Pos(slot.start, 0, slot.big) == p && !Bit(f[slot.key], ValueBit(slot.length, 0, slot.big));
    assert WithinType(m.signals[other], 0, 0) && !BitArrives(m, f, other, 0, 0);
    assert !Undisturbed(m, f, other, 0);
  }

  /** A set one-bit member is sent on its bit. */
  lemma FlagReachesBit(m: Message, f: Fields, n: nat, p: nat)
    requires Packable(m) && GuardReady(m, f) && SentAlone(m, f, n, p, 1)
    ensures Sent(m, f, p)
  {
    var slot := Slots(m.signals[n])[0];
    assert Pos(slot.start, 0, slot.big) == p && Bit(f[slot.key], ValueBit(slot.length, 0, slot.big));
    assert SlotWrites(slot, f[slot.key], p);
    assert SignalWrites(m.signals[n], f, p);
  }

  lemma HidingIsAccepted(keys: seq<Option<uint32>>, q: nat, i: nat, j: nat, k: nat, dlc: nat)
    requires Straddled(keys, i, j, k) && q < |keys| && keys[q].None? && |keys| + 32 <= 8 * dlc
    ensures Accepted(HidingMessage(keys, q, i, j, k, dlc), keys)
  {
    var m := HidingMessage(keys, q, i, j, k, dlc);
    HiddenOverlap(keys, q, i, j, k, dlc);
    forall n | 0 <= n < |m.signals| ensures GeneratorAccepts(m.signals[n]) {
      HidingSignalOk(keys, q, i, j, k, n, dlc);
    }
    AcceptedIsPackable(m);
  }

  lemma HidingIsSendable(keys: seq<Option<uint32>>, q: nat, i: nat, j: nat, k: nat, dlc: nat)
    requires Straddled(keys, i, j, k) && q < |keys|
    requires Packable(HidingMessage(keys, q, i, j, k, dlc))
    ensures SendableStruct(HidingMessage(keys, q, i, j, k, dlc), HidingStruct(keys, q, i))
  {
    var m, f := HidingMessage(keys, q, i, j, k, dlc), HidingStruct(keys, q, i);
    forall n | 0 <= n < |m.signals|
      ensures HasMembers(m.signals[n], f)
      ensures forall b :: 0 <= b < |Slots(m.signals[n])| ==>
        Storable(m.signals[n], f[Slots(m.signals[n])[b].key]) && Sendable(m.signals[n], f[Slots(m.signals[n])[b].key])
    {
      HidingMember(keys, q, i, j, k, n);
    }
    HidingSelector(keys, q, i, j, k, dlc);
    HidingMember(keys, q, i, j, k, q);
  }

  /** So no receiver restores that struct. */
  lemma OverlapLosesValue(
    keys: seq<Option<uint32>>, q: nat, i: nat, j: nat, k: nat, m: Message, f: Fields,
    s: seq<uint8>, g: Fields, prior: Fields)
    requires Straddled(keys, i, j, k) && q < |keys| && keys[q].None? && |keys| + 32 <= 8 * m.dlc
    requires m == HidingMessage(keys, q, i, j, k, m.dlc) && f == HidingStruct(keys, q, i)
    requires Packable(m) && GuardReady(m, f) && IsPacked(m, f, s)
    requires IsStruct(m, g) && IsStruct(m, prior) && IsUnpacked(m, s, g, prior)
    ensures Accepted(m, keys) && SendableStruct(m, f) && !Restored(m, f, g)
  {
    OverlapDisturbs(keys, q, i, j, k, m.dlc);
    RoundTripIffUndisturbed(m, f, s, g, prior);
  }
}
