/** The frame checks of the spec validator: encodings, fit, mux, overlap and CAN IDs. */
module FrameCheck {
  import opened Wrappers
  import opened Numbers
  import opened Bits
  import opened CanSpec
  import opened CanCodec

  // ---- one signal -----------------------------------------------------------

  predicate KindOk(sig: Signal) {
    var enc := sig.enc;
    match sig.kind
    case Physical => true
    case Enumeration(numbers) => enc.sign.Unsigned? && MaxOf(numbers) < Pow2(enc.bitLength)
    case Boolean => enc.bitLength == 1
    case Bitfield(flags) => |flags| <= enc.bitLength && !sig.telemetry
    case Unresolved => false
  }

  predicate SelectorOk(sig: Signal) {
    sig.muxSelector ==>
      && (sig.kind.Physical? || sig.kind.Enumeration?)
      && sig.enc.sign.Unsigned? && EffectiveScale(sig.enc) == 1.0 && sig.enc.offset == 0.0
      && !sig.enc.muxed
  }

  const TOLERANCE: real := 0.000000001

  /** The physical value lies between those of the extreme raw numbers. */
  predicate Representable(enc: Encoding, x: real)
    requires enc.bitLength > 0
  {
    && var a := PhysicalOf(enc, RawMin(enc.bitLength, enc.sign));
       var b := PhysicalOf(enc, RawMax(enc.bitLength, enc.sign));
       && (a - TOLERANCE <= x || b - TOLERANCE <= x)
       && (x <= a + TOLERANCE || x <= b + TOLERANCE)
  }

  /** The declared range is absent, or a range of representable values. */
  predicate RangeOk(enc: Encoding)
    requires enc.bitLength > 0
  {
    && enc.min <= enc.max
    && ((enc.min == 0.0 && enc.max == 0.0) || (Representable(enc, enc.min) && Representable(enc, enc.max)))
  }

  /** No rule for a single signal is broken. */
  predicate EncodingOk(sig: Signal) {
    && 1 <= sig.enc.bitLength <= 64
    && (sig.enc.sign.Signed? ==> sig.enc.bitLength >= 2)
    && KindOk(sig)
    && SelectorOk(sig)
    && RangeOk(sig.enc)
  }

  /** Counts the broken rules; `usable` is false when no overlap analysis is possible. */
  method CheckSignalEncoding(sig: Signal) returns (usable: bool, errors: nat)
    ensures usable <==> 1 <= sig.enc.bitLength <= 64
    ensures errors == 0 <==> EncodingOk(sig)
  {
    var enc := sig.enc;
    errors := 0;
    if enc.bitLength < 1 || enc.bitLength > 64 {
      return false, 1;
    }
    if enc.sign.Signed? && enc.bitLength < 2 {
      errors := errors + 1;
    }
    match sig.kind {
      case Physical =>
      case Enumeration(numbers) =>
        if enc.sign != Unsigned {
          errors := errors + 1;
        }
        if MaxOf(numbers) > Pow2(enc.bitLength) - 1 {
          errors := errors + 1;
        }
      case Boolean =>
        if enc.bitLength != 1 {
          errors := errors + 1;
        }
      case Bitfield(flags) =>
        if |flags| > enc.bitLength {
          errors := errors + 1;
        }
        if sig.telemetry {
          errors := errors + 1;
        }
      case Unresolved => errors := errors + 1;
    }
    if sig.muxSelector {
      if !(sig.kind.Physical? || sig.kind.Enumeration?) {
        errors := errors + 1;
      }
      if enc.sign != Unsigned || EffectiveScale(enc) != 1.0 || enc.offset != 0.0 {
        errors := errors + 1;
      }
      if enc.muxed {
        errors := errors + 1;
      }
    }
    var outside := CheckRange(enc);
    if outside {
      errors := errors + 1;
    }
    usable := true;
  }

  method CheckRange(enc: Encoding) returns (outside: bool)
    requires enc.bitLength > 0
    ensures outside <==> !RangeOk(enc)
  {
    if enc.min > enc.max {
      return true;
    }
    if enc.min == 0.0 && enc.max == 0.0 {
      return false;
    }
    var a := PhysicalOf(enc, RawMin(enc.bitLength, enc.sign));
    var b := PhysicalOf(enc, RawMax(enc.bitLength, enc.sign));
    var lo, hi := if a <= b then a else b, if a <= b then b else a;
    outside := enc.min < lo - TOLERANCE || enc.max > hi + TOLERANCE;
  }

  /** A range that is declared is accepted exactly when some raw number reaches down to its
      lower end and some raw number up to its upper end. */
  lemma RangeOkIffReached(enc: Encoding)
    requires enc.bitLength > 0 && !(enc.min == 0.0 && enc.max == 0.0)
    ensures RangeOk(enc) <==>
      && enc.min <= enc.max
      && (exists raw :: InRawRange(enc, raw) && PhysicalOf(enc, raw) <= enc.min + TOLERANCE)
      && (exists raw :: InRawRange(enc, raw) && PhysicalOf(enc, raw) >= enc.max - TOLERANCE)
  {
    var lo, hi := RawMin(enc.bitLength, enc.sign), RawMax(enc.bitLength, enc.sign);
    assert InRawRange(enc, lo) && InRawRange(enc, hi);
    forall raw | InRawRange(enc, raw)
      ensures PhysicalOf(enc, raw) >= PhysicalOf(enc, lo) || PhysicalOf(enc, raw) >= PhysicalOf(enc, hi)
      ensures PhysicalOf(enc, raw) <= PhysicalOf(enc, lo) || PhysicalOf(enc, raw) <= PhysicalOf(enc, hi)
    {
      ScaleIsMonotone(EffectiveScale(enc), lo, raw, hi);
    }
  }

  lemma ScaleIsMonotone(scale: real, a: int, b: int, c: int)
    requires a <= b <= c
    ensures b as real * scale >= a as real * scale || b as real * scale >= c as real * scale
    ensures b as real * scale <= a as real * scale || b as real * scale <= c as real * scale
  {
    assert (b - a) as real * scale == b as real * scale - a as real * scale;
    assert (c - b) as real * scale == c as real * scale - b as real * scale;
  }

  /** The physical value of an accepted mux selector is its raw number. */
  lemma SelectorIsRaw(sig: Signal, raw: int)
    requires EncodingOk(sig) && sig.muxSelector
    ensures PhysicalOf(sig.enc, raw) == raw as real && !sig.enc.muxed
    ensures InRawRange(sig.enc, raw) ==> raw >= 0
  {
  }

  /** An accepted enum fits all its numbers, an accepted boolean has the two raw numbers 0
      and 1, and a bitfield has room for all its bits and no telemetry of its own. */
  lemma AcceptedKind(sig: Signal)
    requires EncodingOk(sig)
    ensures !sig.kind.Unresolved?
    ensures sig.kind.Enumeration? ==> forall n :: n in sig.kind.numbers ==> InRawRange(sig.enc, n)
    ensures sig.kind.Boolean? ==> forall raw :: InRawRange(sig.enc, raw) <==> raw == 0 || raw == 1
    ensures sig.kind.Bitfield? ==>
      !sig.telemetry && forall i: nat :: i < |sig.kind.flags| ==> Covers(sig, Pos(sig.enc.startBit, i, Big(sig)))
  {
    if sig.kind.Enumeration? {
      forall n | n in sig.kind.numbers ensures n <= MaxOf(sig.kind.numbers) {
      }
    }
  }

  // ---- overlap --------------------------------------------------------------

  /** The last signal that claimed a bit. */
  datatype Occupant = Occupant(signal: nat, muxKey: Option<uint32>)

  function MuxKey(sig: Signal): Option<uint32> {
    if sig.enc.muxed then Some(sig.enc.muxValue) else None
  }

  predicate KeysClash(a: Option<uint32>, b: Option<uint32>) {
    a.None? || b.None? || a == b
  }

  /** Signals `i` and `k` share bit `p` and no signal between them in the list does. */
  ghost predicate Neighbours(signals: seq<Signal>, i: nat, k: nat, p: nat)
    requires i < k < |signals|
  {
    Covers(signals[i], p) && Covers(signals[k], p) && forall j :: i < j < k ==> !Covers(signals[j], p)
  }

  /** What the incremental scan looks at: neighbours on a bit must exclude each other. */
  ghost predicate NeighboursExclusive(signals: seq<Signal>) {
    forall i: nat, k: nat, p: nat :: i < k < |signals| && Neighbours(signals, i, k, p) ==>
      !MayCoexist(signals[i], signals[k])
  }

  /** The whole list of signals is free of errors. */
  ghost predicate SignalsAccepted(signals: seq<Signal>, dlc: nat) {
    && (forall k :: 0 <= k < |signals| ==> EncodingOk(signals[k]) && InFrame(signals[k], dlc))
    && (forall k :: 0 <= k < |signals| ==> LowerSnake(signals[k].name))
    && DistinctNames(signals)
    && NeighboursExclusive(signals)
  }

  ghost predicate MuxAccepted(signals: seq<Signal>) {
    && (forall i, j :: 0 <= i < j < |signals| ==> !(signals[i].muxSelector && signals[j].muxSelector))
    && ((exists i :: 0 <= i < |signals| && signals[i].enc.muxed) <==>
      (exists i :: 0 <= i < |signals| && signals[i].muxSelector))
  }

  /** The table holds, per covered bit, the last signal of the list that covers it. */
  ghost predicate IsLastOccupant(occupied: map<nat, Occupant>, signals: seq<Signal>) {
    && (forall i, p: nat :: 0 <= i < |signals| && Covers(signals[i], p) ==> p in occupied && i <= occupied[p].signal)
    && (forall p :: p in occupied ==>
          && occupied[p].signal < |signals|
          && Covers(signals[occupied[p].signal], p)
          && occupied[p].muxKey == MuxKey(signals[occupied[p].signal]))
  }

  ghost predicate BitClashes(occupied: map<nat, Occupant>, bit: nat, key: Option<uint32>) {
    bit in occupied && KeysClash(key, occupied[bit].muxKey)
  }

  /** `claimed` is `occupied` with `me` entered for every bit in `bits`. */
  ghost predicate ClaimedBy(claimed: map<nat, Occupant>, occupied: map<nat, Occupant>, bits: seq<nat>, me: Occupant) {
    forall b :: (b in claimed <==> b in occupied || b in bits) &&
      (b in claimed ==> claimed[b] == if b in bits then me else occupied[b])
  }

  /** Claims the bits in order and stops at the first clash: `n` bits are claimed. */
  method ClaimBits(occupied: map<nat, Occupant>, bits: seq<nat>, me: Occupant)
    returns (claimed: map<nat, Occupant>, n: nat)
    requires forall i, j :: 0 <= i < j < |bits| ==> bits[i] != bits[j]
    ensures n <= |bits| && ClaimedBy(claimed, occupied, bits[..n], me)
    ensures forall i :: 0 <= i < n ==> !BitClashes(occupied, bits[i], me.muxKey)
    ensures n < |bits| ==> BitClashes(occupied, bits[n], me.muxKey)
  {
    claimed := occupied;
    n := 0;
    while n < |bits|
      invariant n <= |bits| && ClaimedBy(claimed, occupied, bits[..n], me)
      invariant forall i :: 0 <= i < n ==> !BitClashes(occupied, bits[i], me.muxKey)
    {
      assert bits[n] !in bits[..n];
      if bits[n] in claimed {
        var other := claimed[bits[n]];
        if KeysClash(me.muxKey, other.muxKey) {
          break;
        }
      }
      claimed := claimed[bits[n] := me];
      assert bits[..n + 1] == bits[..n] + [bits[n]];
      n := n + 1;
    }
  }

  /** The loop over the signals of one message. */
  method CheckSignals(m: Message) returns (errors: nat)
    ensures errors == 0 <==> SignalsAccepted(m.signals, m.dlc)
  {
    errors := 0;
    var seen: set<string> := {};
    var occupied: map<nat, Occupant> := map[];
    for k := 0 to |m.signals|
      invariant errors == 0 <==> SignalsAccepted(m.signals[..k], m.dlc)
      invariant forall name :: name in seen <==> exists i :: 0 <= i < k && m.signals[i].name == name
      invariant errors == 0 ==> IsLastOccupant(occupied, m.signals[..k])
    {
      var sig := m.signals[k];
      ghost var before := m.signals[..k];
      assert m.signals[..k + 1] == before + [sig];
      Extend(before, sig, m.dlc);
      if !LowerSnake(sig.name) {
        errors := errors + 1;
      }
      if sig.name in seen {
        errors := errors + 1;
      }
      assert sig.name in seen <==> !forall i :: 0 <= i < |before| ==> before[i].name != sig.name;
      seen := seen + {sig.name};
      var found: nat;
      occupied, found := CheckSignal(sig, k, m.dlc, occupied, before);
      errors := errors + found;
    }
    assert m.signals[..|m.signals|] == m.signals;
  }

  /** One turn of that loop: encoding, fit and overlap of the signal at index `k`. */
  method CheckSignal(sig: Signal, k: nat, dlc: nat, occupied: map<nat, Occupant>, ghost before: seq<Signal>)
    returns (claimed: map<nat, Occupant>, errors: nat)
    requires |before| == k
    ensures errors == 0 ==> EncodingOk(sig) && InFrame(sig, dlc)
    ensures IsLastOccupant(occupied, before) ==>
      (errors == 0 <==> EncodingOk(sig) && InFrame(sig, dlc) && NewExclusive(before, sig))
    ensures IsLastOccupant(occupied, before) && errors == 0 ==> IsLastOccupant(claimed, before + [sig])
  {
    claimed := occupied;
    var usable: bool;
    usable, errors := CheckSignalEncoding(sig);
    if !usable {
      return;
    }
    var bits := OccupiedBits(sig.enc);
    BitsCover(sig, bits);
    FitsIffMaxFits(sig, bits, dlc);
    if MaxOf(bits) >= dlc * 8 {
      errors := errors + 1;
      return;
    }
    var n: nat;
    claimed, n := ClaimBits(occupied, bits, Occupant(k, MuxKey(sig)));
    if IsLastOccupant(occupied, before) {
      ClashIffNotExclusive(occupied, before, sig, bits);
      assert bits[..|bits|] == bits;
      if n == |bits| {
        ClaimKeepsLast(occupied, before, sig, bits, claimed);
      }
    }
    if n < |bits| {
      errors := errors + 1;
    }
  }

  lemma BitsCover(sig: Signal, bits: seq<nat>)
    requires bits == Occupied(sig.enc)
    ensures forall p: nat :: p in bits <==> Covers(sig, p)
  {
    forall p: nat | p in bits ensures Covers(sig, p) {
      var i: nat :| i < |bits| && bits[i] == p;
      assert Pos(sig.enc.startBit, i, Big(sig)) == p;
    }
    forall p: nat | Covers(sig, p) ensures p in bits {
      var i: nat :| i < sig.enc.bitLength && Pos(sig.enc.startBit, i, Big(sig)) == p;
      assert bits[i] == p;
    }
  }

  lemma FitsIffMaxFits(sig: Signal, bits: seq<nat>, dlc: nat)
    requires bits == Occupied(sig.enc) && bits != []
    ensures InFrame(sig, dlc) <==> MaxOf(bits) < dlc * 8
  {
    if InFrame(sig, dlc) {
      var i :| 0 <= i < |bits| && bits[i] == MaxOf(bits);
      assert Pos(sig.enc.startBit, i, Big(sig)) / 8 < dlc;
    } else {
      var i: nat :| i < sig.enc.bitLength && Pos(sig.enc.startBit, i, Big(sig)) / 8 >= dlc;
      assert bits[i] / 8 >= dlc;
    }
  }

  /** Acceptance of one more signal. */
  lemma Extend(before: seq<Signal>, sig: Signal, dlc: nat)
    ensures SignalsAccepted(before + [sig], dlc) <==>
      && SignalsAccepted(before, dlc)
      && EncodingOk(sig) && InFrame(sig, dlc) && LowerSnake(sig.name)
      && (forall i :: 0 <= i < |before| ==> before[i].name != sig.name)
      && NewExclusive(before, sig)
  {
    var all := before + [sig];
    var n := |before|;
    assert forall k :: 0 <= k < |all| ==> all[k] == if k < n then before[k] else sig;
    assert SignalsAccepted(all, dlc) ==> EncodingOk(all[n]) && InFrame(all[n], dlc) && LowerSnake(all[n].name);
    assert (forall i :: 0 <= i < n ==> before[i].name != sig.name) <==>
      (forall i :: 0 <= i < n ==> all[i].name != all[n].name);
    forall i: nat, k: nat, p: nat | i < k < n ensures Neighbours(all, i, k, p) == Neighbours(before, i, k, p) {
      if Neighbours(all, i, k, p) {
        forall j | i < j < k ensures !Covers(before[j], p) { assert !Covers(all[j], p); }
      }
      if Neighbours(before, i, k, p) {
        forall j | i < j < k ensures !Covers(all[j], p) { assert !Covers(before[j], p); }
      }
    }
    forall i: nat, p: nat | i < n ensures Neighbours(all, i, n, p) == LastBefore(before, sig, i, p) {
      if Neighbours(all, i, n, p) {
        forall j | i < j < n ensures !Covers(before[j], p) { assert !Covers(all[j], p); }
      }
      if LastBefore(before, sig, i, p) {
        forall j | i < j < n ensures !Covers(all[j], p) { assert !Covers(before[j], p); }
      }
    }
    if SignalsAccepted(all, dlc) {
      forall i: nat, k: nat, p: nat | i < k < n && Neighbours(before, i, k, p)
        ensures !MayCoexist(before[i], before[k])
      {
        assert Neighbours(all, i, k, p);
      }
      forall i: nat, p: nat | i < n && LastBefore(before, sig, i, p) ensures !MayCoexist(before[i], sig) {
        assert Neighbours(all, i, n, p);
      }
      forall k | 0 <= k < n ensures EncodingOk(before[k]) && InFrame(before[k], dlc) && LowerSnake(before[k].name) {
        assert EncodingOk(all[k]) && InFrame(all[k], dlc) && LowerSnake(all[k].name);
      }
    }
  }

  /** Signal `i` is the last in the list to share bit `p` with the new signal. */
  ghost predicate LastBefore(before: seq<Signal>, sig: Signal, i: nat, p: nat)
    requires i < |before|
  {
    Covers(before[i], p) && Covers(sig, p) && forall j :: i < j < |before| ==> !Covers(before[j], p)
  }

  ghost predicate NewExclusive(before: seq<Signal>, sig: Signal) {
    forall i: nat, p: nat :: i < |before| && LastBefore(before, sig, i, p) ==> !MayCoexist(before[i], sig)
  }

  lemma ClashIffNotExclusive(occupied: map<nat, Occupant>, before: seq<Signal>, sig: Signal, bits: seq<nat>)
    requires IsLastOccupant(occupied, before)
    requires forall p: nat :: p in bits <==> Covers(sig, p)
    ensures (exists i :: 0 <= i < |bits| && BitClashes(occupied, bits[i], MuxKey(sig))) <==> !NewExclusive(before, sig)
  {
    if i :| 0 <= i < |bits| && BitClashes(occupied, bits[i], MuxKey(sig)) {
      var p := bits[i];
      assert p in bits;
      var last := occupied[p].signal;
      assert LastBefore(before, sig, last, p) && MayCoexist(before[last], sig);
    }
    if !NewExclusive(before, sig) {
      var i: nat, p: nat :| i < |before| && LastBefore(before, sig, i, p) && MayCoexist(before[i], sig);
      assert p in bits;
      assert occupied[p].signal == i;
      var n :| 0 <= n < |bits| && bits[n] == p;
      assert BitClashes(occupied, bits[n], MuxKey(sig));
    }
  }

  lemma ClaimKeepsLast(
    occupied: map<nat, Occupant>, before: seq<Signal>, sig: Signal, bits: seq<nat>, claimed: map<nat, Occupant>)
    requires IsLastOccupant(occupied, before)
    requires forall p: nat :: p in bits <==> Covers(sig, p)
    requires ClaimedBy(claimed, occupied, bits, Occupant(|before|, MuxKey(sig)))
    ensures IsLastOccupant(claimed, before + [sig])
  {
    var all := before + [sig];
    forall i, p: nat | 0 <= i < |all| && Covers(all[i], p) ensures p in claimed && i <= claimed[p].signal {
      if i < |before| {
        assert Covers(before[i], p);
      }
    }
    forall p | p in claimed
      ensures claimed[p].signal < |all| && Covers(all[claimed[p].signal], p) &&
        claimed[p].muxKey == MuxKey(all[claimed[p].signal])
    {
      if p !in bits {
        assert p in occupied;
      }
    }
  }

  /** Frame sizes beyond 8 bytes that CAN FD knows. */
  const FD_DLCS: set<nat> := {12, 16, 20, 24, 32, 48, 64}

  /** Every fourth size up to 24 bytes, then every sixteenth up to 64. */
  lemma FdSizes(dlc: nat)
    ensures dlc in FD_DLCS <==> 8 < dlc <= 64 && if dlc <= 24 then dlc % 4 == 0 else dlc % 16 == 0
  {
  }

  /** `buses` tells of each bus whether it is an FD bus. */
  predicate BusAccepted(m: Message, buses: map<string, bool>) {
    m.bus in buses && (m.dlc <= 8 || (buses[m.bus] && m.dlc in FD_DLCS))
  }

  ghost predicate FrameAccepted(m: Message, buses: map<string, bool>) {
    BusAccepted(m, buses) && MuxAccepted(m.signals) && SignalsAccepted(m.signals, m.dlc)
  }

  /** The bus, size, mux and per-signal rules of one message. */
  method CheckFrame(m: Message, buses: map<string, bool>) returns (errors: nat)
    ensures errors == 0 <==> FrameAccepted(m, buses)
  {
    errors := 0;
    if m.bus !in buses {
      errors := errors + 1;
    }
    var fd := m.bus in buses && buses[m.bus];
    if m.dlc > 8 && (!fd || m.dlc !in FD_DLCS) {
      errors := errors + 1;
    }
    var mux := CheckMux(m.signals);
    var found := CheckSignals(m);
    errors := errors + mux + found;
  }

  method CheckMux(signals: seq<Signal>) returns (errors: nat)
    ensures errors == 0 <==> MuxAccepted(signals)
  {
    errors := 0;
    var selectors := Selectors(signals);
    var muxed := Muxed(signals);
    SelectorCount(signals);
    assert muxed != [] <==> exists i :: 0 <= i < |signals| && signals[i].enc.muxed by {
      if muxed != [] { assert muxed[0] in signals; }
      if i :| 0 <= i < |signals| && signals[i].enc.muxed { assert signals[i] in muxed; }
    }
    if |selectors| > 1 {
      errors := errors + 1;
    }
    if muxed != [] && selectors == [] {
      errors := errors + 1;
    }
    if selectors != [] && muxed == [] {
      errors := errors + 1;
    }
  }

  function Selectors(signals: seq<Signal>): seq<Signal> {
    if signals == [] then [] else (if signals[0].muxSelector then [signals[0]] else []) + Selectors(signals[1..])
  }

  lemma {:induction false} SelectorCount(signals: seq<Signal>)
    ensures Selectors(signals) == [] <==> !exists i :: 0 <= i < |signals| && signals[i].muxSelector
    ensures |Selectors(signals)| <= 1 <==>
      forall i, j :: 0 <= i < j < |signals| ==> !(signals[i].muxSelector && signals[j].muxSelector)
  {
    if signals != [] {
      var tail := signals[1..];
      SelectorCount(tail);
      assert forall i :: 0 <= i < |signals| ==> signals[i] == if i == 0 then signals[0] else tail[i - 1];
      if i :| 0 <= i < |tail| && tail[i].muxSelector {
        assert signals[i + 1].muxSelector;
      }
      if i, j :| 0 <= i < j < |tail| && tail[i].muxSelector && tail[j].muxSelector {
        assert signals[i + 1].muxSelector && signals[j + 1].muxSelector;
      }
    }
  }

  // ---- what acceptance means ------------------------------------------------

  /** The scan raises no false alarm. */
  lemma DisjointIsAccepted(signals: seq<Signal>)
    requires CoactiveDisjoint(signals)
    ensures NeighboursExclusive(signals)
  {
    forall i: nat, k: nat, p: nat | i < k < |signals| && Neighbours(signals, i, k, p)
      ensures !MayCoexist(signals[i], signals[k])
    {
      assert !(Covers(signals[i], p) && Covers(signals[k], p)) || !MayCoexist(signals[i], signals[k]);
    }
  }

  /** The next signal after `i` that covers `p`, given that `k` does. */
  lemma NextCover(signals: seq<Signal>, i: nat, k: nat, p: nat) returns (n: nat)
    requires i < k < |signals| && Covers(signals[i], p) && Covers(signals[k], p)
    ensures i < n <= k && Neighbours(signals, i, n, p)
  {
    n := i + 1;
    while !Covers(signals[n], p)
      invariant i < n <= k
      invariant forall j :: i < j < n ==> !Covers(signals[j], p)
      decreases k - n
    {
      n := n + 1;
    }
  }

  lemma PreviousCover(signals: seq<Signal>, i: nat, k: nat, p: nat) returns (n: nat)
    requires i < k < |signals| && Covers(signals[i], p) && Covers(signals[k], p)
    ensures i <= n < k && Neighbours(signals, n, k, p)
  {
    n := k - 1;
    while !Covers(signals[n], p)
      invariant i <= n < k
      invariant forall j :: n < j < k ==> !Covers(signals[j], p)
      decreases n
    {
      n := n - 1;
    }
  }

  /** In every order an accepted frame keeps plain signals apart from all others. */
  lemma PlainIsDisjoint(signals: seq<Signal>, i: nat, k: nat)
    requires NeighboursExclusive(signals)
    requires i < k < |signals| && (!signals[i].enc.muxed || !signals[k].enc.muxed)
    ensures Disjoint(signals[i], signals[k])
  {
    forall p: nat ensures !(Covers(signals[i], p) && Covers(signals[k], p)) {
      if Covers(signals[i], p) && Covers(signals[k], p) {
        if !signals[i].enc.muxed {
          var n := NextCover(signals, i, k, p);
        } else {
          var n := PreviousCover(signals, i, k, p);
        }
      }
    }
  }

  function Keys(signals: seq<Signal>): (keys: seq<Option<uint32>>)
    ensures |keys| == |signals| && forall i :: 0 <= i < |keys| ==> keys[i] == MuxKey(signals[i])
  {
    seq(|signals|, i requires 0 <= i < |signals| => MuxKey(signals[i]))
  }

  /** Between two signals of one mux value only that value and plain signals occur. */
  ghost predicate Grouped(keys: seq<Option<uint32>>) {
    forall i, j, k :: 0 <= i < j < k < |keys| && keys[i].Some? && keys[i] == keys[k] && keys[j].Some? ==>
      keys[j] == keys[i]
  }

  /** In a grouped list an overlap of two signals of one mux value shows up between
      the first of them and its next neighbour on the bit. */
  lemma GroupedNeighbour(signals: seq<Signal>, i: nat, k: nat, p: nat)
    requires Grouped(Keys(signals)) && i < k < |signals|
    requires signals[i].enc.muxed && signals[k].enc.muxed && signals[i].enc.muxValue == signals[k].enc.muxValue
    ensures Covers(signals[i], p) && Covers(signals[k], p) ==>
      exists n: nat :: i < n < |signals| && Neighbours(signals, i, n, p) && MayCoexist(signals[i], signals[n])
  {
    if Covers(signals[i], p) && Covers(signals[k], p) {
      var n := NextCover(signals, i, k, p);
      var keys := Keys(signals);
      assert keys[i] == keys[k];
      assert n < k && keys[n].Some? ==> keys[n] == keys[i];
    }
  }

  /** With grouped mux values the scan is exact. */
  lemma GroupedScanIsExact(signals: seq<Signal>)
    requires Grouped(Keys(signals))
    ensures NeighboursExclusive(signals) <==> CoactiveDisjoint(signals)
  {
    if NeighboursExclusive(signals) {
      forall i: nat, k: nat | i < k < |signals| && MayCoexist(signals[i], signals[k])
        ensures Disjoint(signals[i], signals[k])
      {
        if !signals[i].enc.muxed || !signals[k].enc.muxed {
          PlainIsDisjoint(signals, i, k);
        } else {
          forall p: nat ensures !(Covers(signals[i], p) && Covers(signals[k], p)) {
            GroupedNeighbour(signals, i, k, p);
          }
        }
      }
    }
    if CoactiveDisjoint(signals) {
      DisjointIsAccepted(signals);
    }
  }

  /** What the generator and the registry refuse: big-endian bitfields, repeated bit names,
      and enum numbers beyond 32 bits. */
  ghost predicate GeneratorAccepts(sig: Signal) {
    match sig.kind
    case Bitfield(flags) =>
      sig.enc.byteOrder.LittleEndian? && forall i, j :: 0 <= i < j < |flags| ==> flags[i] != flags[j]
    case Enumeration(numbers) => MaxOf(numbers) < Pow2(32)
    case _ => true
  }

  /** An accepted message can be packed and unpacked. */
  lemma AcceptedIsPackable(m: Message)
    requires MuxAccepted(m.signals) && SignalsAccepted(m.signals, m.dlc)
    requires forall k :: 0 <= k < |m.signals| ==> GeneratorAccepts(m.signals[k])
    ensures Packable(m)
  {
    forall i | 0 <= i < |m.signals|
      ensures LegalSignal(m.signals[i]) && InFrame(m.signals[i], m.dlc) && SelectorLegal(m.signals[i])
    {
      assert EncodingOk(m.signals[i]);
    }
  }

  /** With grouped mux values it meets all that the round trip needs. */
  lemma AcceptedIsLegal(m: Message)
    requires MuxAccepted(m.signals) && SignalsAccepted(m.signals, m.dlc) && Grouped(Keys(m.signals))
    requires forall k :: 0 <= k < |m.signals| ==> GeneratorAccepts(m.signals[k])
    ensures Legal(m)
  {
    AcceptedIsPackable(m);
    GroupedScanIsExact(m.signals);
  }

  // ---- CAN IDs --------------------------------------------------------------

  predicate IdsDisjoint(a: Message, b: Message) {
    a.canId + EffectiveQuantity(a) <= b.canId || b.canId + EffectiveQuantity(b) <= a.canId
  }

  ghost predicate IdsAccepted(messages: seq<Message>) {
    && (forall i :: 0 <= i < |messages| ==> IdsFit(messages[i]))
    && (forall i, j :: 0 <= i < j < |messages| && messages[i].bus == messages[j].bus ==>
      IdsDisjoint(messages[i], messages[j]))
  }

  ghost predicate Claimed(claims: map<(string, nat), nat>, messages: seq<Message>) {
    forall bus, id: nat :: (bus, id) in claims <==>
      exists i :: 0 <= i < |messages| && Owns(messages[i], bus, id)
  }

  predicate Owns(m: Message, bus: string, id: nat) {
    m.bus == bus && m.canId <= id < m.canId + EffectiveQuantity(m)
  }

  /** CAN IDs, expanded by quantity, are unique per bus and fit 11 bits. */
  method CheckIds(messages: seq<Message>) returns (errors: nat)
    ensures errors == 0 <==> IdsAccepted(messages)
  {
    errors := 0;
    var claims: map<(string, nat), nat> := map[];
    for k := 0 to |messages|
      invariant errors == 0 <==> IdsAccepted(messages[..k])
      invariant Claimed(claims, messages[..k])
    {
      var m := messages[k];
      ghost var before := messages[..k];
      assert messages[..k + 1] == before + [m];
      var stop := m.canId + EffectiveQuantity(m);
      ghost var errorsBefore, claimsBefore := errors, claims;
      if stop - 1 > 0x7FF {
        errors := errors + 1;
      }
      for id := m.canId to stop
        invariant forall bus, x: nat :: (bus, x) in claims <==>
          (bus, x) in claimsBefore || (bus == m.bus && m.canId <= x < id)
        invariant errors == 0 <==>
          errorsBefore == 0 && stop - 1 <= 0x7FF && forall x: nat :: m.canId <= x < id ==> (m.bus, x) !in claimsBefore
      {
        if (m.bus, id) in claims {
          errors := errors + 1;
        }
        claims := claims[(m.bus, id) := k];
      }
      IdsExtend(before, m, claimsBefore);
      ClaimsExtend(before, m, claimsBefore, claims);
    }
    assert messages[..|messages|] == messages;
  }

  lemma ClaimsExtend(before: seq<Message>, m: Message, was: map<(string, nat), nat>, claims: map<(string, nat), nat>)
    requires Claimed(was, before)
    requires forall bus, x: nat :: (bus, x) in claims <==> (bus, x) in was || Owns(m, bus, x)
    ensures Claimed(claims, before + [m])
  {
    var all := before + [m];
    forall bus, id: nat ensures (bus, id) in claims <==> exists i :: 0 <= i < |all| && Owns(all[i], bus, id) {
      if (bus, id) in was {
        var i :| 0 <= i < |before| && Owns(before[i], bus, id);
        assert Owns(all[i], bus, id);
      } else if Owns(m, bus, id) {
        assert Owns(all[|before|], bus, id);
      } else {
        forall i | 0 <= i < |all| ensures !Owns(all[i], bus, id) {
          assert all[i] == if i < |before| then before[i] else m;
        }
      }
    }
  }

  lemma IdsExtend(before: seq<Message>, m: Message, claims: map<(string, nat), nat>)
    requires Claimed(claims, before)
    ensures IdsAccepted(before + [m]) <==>
      && IdsAccepted(before)
      && IdsFit(m)
      && forall x: nat :: m.canId <= x < m.canId + EffectiveQuantity(m) ==> (m.bus, x) !in claims
  {
    var all := before + [m];
    var n := |before|;
    if IdsAccepted(all) {
      assert all[n] == m;
      forall i | 0 <= i < n ensures IdsFit(before[i]) { assert all[i] == before[i]; }
      forall i, j | 0 <= i < j < n && before[i].bus == before[j].bus ensures IdsDisjoint(before[i], before[j]) {
        assert all[i] == before[i] && all[j] == before[j];
      }
      forall x: nat | m.canId <= x < m.canId + EffectiveQuantity(m) ensures (m.bus, x) !in claims {
        forall i | 0 <= i < n ensures !Owns(before[i], m.bus, x) {
          assert all[i] == before[i];
        }
      }
    }
    if IdsAccepted(before) && IdsFit(m) &&
       forall x: nat :: m.canId <= x < m.canId + EffectiveQuantity(m) ==> (m.bus, x) !in claims
    {
      forall i, j | 0 <= i < j < |all| && all[i].bus == all[j].bus ensures IdsDisjoint(all[i], all[j]) {
        if j == n {
          var x := if m.canId < before[i].canId then before[i].canId else m.canId;
          if x < m.canId + EffectiveQuantity(m) {
            assert (m.bus, x) !in claims;
            assert !Owns(before[i], m.bus, x);
          }
        }
      }
    }
  }

  predicate IdsFit(m: Message) {
    m.canId + EffectiveQuantity(m) - 1 <= 0x7FF
  }

  /** That is: every ID of the message has 11 bits; a quantity of 0 means one frame. */
  lemma IdsFitIffElevenBits(m: Message)
    ensures IdsFit(m) <==>
      forall id: nat :: m.canId <= id < m.canId + (if m.quantity == 0 then 1 else m.quantity) ==> ElevenBits(id)
  {
    BytePowers();
    assert Pow2(11) == 8 * Pow2(8);
    if !IdsFit(m) {
      assert !ElevenBits(m.canId + EffectiveQuantity(m) - 1);
    }
  }

  predicate ElevenBits(id: nat) { id < Pow2(11) }
}
