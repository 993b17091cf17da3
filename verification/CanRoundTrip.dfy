/** Packing and unpacking undo each other, in both directions. */
module CanRoundTrip {
  import opened Numbers
  import opened Bits
  import opened CanSpec
  import opened BitWalk
  import opened FrameBytes
  import opened CanCodec

  // ---- what one slot of a packed frame holds ------------------------------

  /** Two signals active for the same selector value may share a frame. */
  lemma ActiveTogether(m: Message, f: Fields, a: nat, b: nat)
    requires Legal(m) && GuardReady(m, f) && a < |m.signals| && b < |m.signals| && a != b
    requires Active(m, f, m.signals[a]) && Active(m, f, m.signals[b])
    ensures Disjoint(m.signals[a], m.signals[b])
  {
    var lo, hi := if a < b then a else b, if a < b then b else a;
    assert MayCoexist(m.signals[lo], m.signals[hi]);
    assert Disjoint(m.signals[lo], m.signals[hi]);
  }

  /** Position `j` of slot `i` of an active signal is written by that slot alone. */
  lemma OnlyOwnerWrites(m: Message, f: Fields, k: nat, i: nat, j: nat)
    requires Legal(m) && GuardReady(m, f) && k < |m.signals| && Active(m, f, m.signals[k])
    requires i < |Slots(m.signals[k])| && j < Slots(m.signals[k])[i].length
    ensures var slot := Slots(m.signals[k])[i];
      Sent(m, f, Pos(slot.start, j, slot.big)) == Bit(f[slot.key], ValueBit(slot.length, j, slot.big))
  {
    var sig := m.signals[k];
    var slot := Slots(sig)[i];
    var p := Pos(slot.start, j, slot.big);
    SlotCovered(sig, i);
    assert Covers(sig, p);
    if Sent(m, f, p) {
      var k' :| 0 <= k' < |m.signals| && Active(m, f, m.signals[k']) && SignalWrites(m.signals[k'], f, p);
      WriterCovers(m.signals[k'], f, p);
      if k' != k {
        ActiveTogether(m, f, k, k');
      }
      var i' :| 0 <= i' < |Slots(sig)| && SlotWrites(Slots(sig)[i'], f[Slots(sig)[i'].key], p);
      SlotWriter(Slots(sig)[i'], f[Slots(sig)[i'].key], p, slot, j, sig, i', i);
    }
    if Bit(f[slot.key], ValueBit(slot.length, j, slot.big)) {
      assert SlotWrites(slot, f[slot.key], p);
      assert SignalWrites(sig, f, p);
    }
  }

  lemma WriterCovers(sig: Signal, f: Fields, p: nat)
    requires LegalSignal(sig) && HasMembers(sig, f) && SignalWrites(sig, f, p)
    ensures Covers(sig, p)
  {
    var i :| 0 <= i < |Slots(sig)| && SlotWrites(Slots(sig)[i], f[Slots(sig)[i].key], p);
    SlotCovered(sig, i);
  }

  lemma SlotWriter(writer: Slot, v: int, p: nat, slot: Slot, j: nat, sig: Signal, i': nat, i: nat)
    requires LegalSignal(sig) && i' < |Slots(sig)| && i < |Slots(sig)|
    requires writer == Slots(sig)[i'] && slot == Slots(sig)[i]
    requires j < slot.length && p == Pos(slot.start, j, slot.big)
    requires SlotWrites(writer, v, p)
    ensures i' == i && Bit(v, ValueBit(slot.length, j, slot.big))
  {
    var j': nat :| j' < writer.length && Pos(writer.start, j', writer.big) == p &&
      Bit(v, ValueBit(writer.length, j', writer.big));
    if sig.kind.Bitfield? {
      assert j == 0 && j' == 0;
    } else {
      PosInjective(slot.start, j, j', slot.big);
    }
  }

  /** A slot of an active signal carries the low bits of its member. */
  lemma SlotCarries(m: Message, f: Fields, s: seq<uint8>, k: nat, i: nat)
    requires Legal(m) && GuardReady(m, f) && IsPacked(m, f, s)
    requires k < |m.signals| && Active(m, f, m.signals[k]) && i < |Slots(m.signals[k])|
    ensures var slot := Slots(m.signals[k])[i];
      Field(s, slot.start, slot.length, slot.big) == LowBits(f[slot.key], slot.length)
  {
    var sig := m.signals[k];
    var slot := Slots(sig)[i];
    var got := Field(s, slot.start, slot.length, slot.big);
    var want := LowBits(f[slot.key], slot.length);
    SlotCovered(sig, i);
    assert InFrame(sig, m.dlc);
    forall j: nat | j < slot.length ensures Bit(got, j) == Bit(want, j) {
      var step := ValueBit(slot.length, j, slot.big);
      assert ValueBit(slot.length, step, slot.big) == j;
      OnlyOwnerWrites(m, f, k, i, step);
    }
    SameBitsSameWord(got, want, slot.length);
  }

  /** In a packed frame a signal of whole bytes stands in them as its byte order says. */
  lemma PackedBytes(m: Message, f: Fields, s: seq<uint8>, k: nat, b: nat, n: nat)
    requires Legal(m) && GuardReady(m, f) && IsPacked(m, f, s) && k < |m.signals| && Active(m, f, m.signals[k])
    requires m.signals[k].kind.Physical? || m.signals[k].kind.Enumeration?
    requires m.signals[k].enc.bitLength == 8 * n && b + n <= |s|
    requires m.signals[k].enc.startBit == if Big(m.signals[k]) then 8 * b + 7 else 8 * b
    ensures Whole(m.signals[k].name) in f
    ensures var stored := LowBits(f[Whole(m.signals[k].name)], 8 * n);
      stored == if Big(m.signals[k]) then BigEndianValue(s[b..b + n]) else LittleEndianValue(s[b..b + n])
  {
    assert HasMembers(m.signals[k], f);
    assert Slots(m.signals[k])[0].key in f;
    SlotCarries(m, f, s, k, 0);
    BigBytesAreField(s, b, n);
    BytesAreField(s, b, n);
  }

  // ---- Unpack after Pack --------------------------------------------------

  /** The value a member has after a trip over the wire. */
  function Narrowed(sig: Signal, v: int): int
    requires 1 <= sig.enc.bitLength
  {
    match sig.kind
    case Bitfield(_) => v
    case Boolean => v
    case _ => if sig.enc.sign.Signed? then SignedCast(v, sig.enc.bitLength) else LowBits(v, sig.enc.bitLength)
  }

  /** The trip keeps exactly the values the encoding can represent. */
  lemma NarrowedKeeps(sig: Signal, v: int)
    requires LegalSignal(sig) && Storable(sig, v)
    ensures Narrowed(sig, v) == v <==> Sendable(sig, v)
  {
    SignedCastKeeps(v, sig.enc.bitLength);
    LowBitsKeeps(v, sig.enc.bitLength);
  }

  /** The casts to the member's C++ type lose nothing that the wire kept. */
  lemma CastsAreExact(sig: Signal, v: int)
    requires LegalSignal(sig) && Storable(sig, v) && !sig.kind.Bitfield? && !sig.kind.Boolean?
    ensures var raw := LowBits(v, sig.enc.bitLength); var w := StorageWidth(sig);
      if sig.enc.sign.Signed?
      then SignedCast(SignedOf(raw, sig.enc.bitLength), w) == SignedCast(v, sig.enc.bitLength)
      else LowBits(raw, w) == raw
  {
    var n, w := sig.enc.bitLength, StorageWidth(sig);
    if sig.enc.sign.Signed? {
      SignedCastFits(LowBits(v, n), n, w);
    } else if n <= w {
      LowBitsFits(LowBits(v, n), n, w);
    } else {
      LowBitsFits(v, w, n);
      LowBitsKeeps(v, w);
    }
  }

  lemma SignedCastFits(raw: nat, n: nat, w: nat)
    requires 0 < n <= w && raw < Pow2(n)
    ensures SignedCast(SignedOf(raw, n), w) == SignedOf(raw, n)
  {
    Pow2Monotone(n - 1, w - 1);
    SignedCastKeeps(SignedOf(raw, n), w);
  }

  lemma LowBitsFits(raw: nat, n: nat, w: nat)
    requires n <= w && raw < Pow2(n)
    ensures LowBits(raw, w) == raw
  {
    Pow2Monotone(n, w);
    LowBitsKeeps(raw, w);
  }

  lemma DecodedOfPacked(m: Message, f: Fields, s: seq<uint8>, k: nat, i: nat)
    requires Legal(m) && GuardReady(m, f) && WellTyped(m, f) && IsPacked(m, f, s)
    requires k < |m.signals| && Active(m, f, m.signals[k]) && i < |Slots(m.signals[k])|
    ensures Decoded(m.signals[k], i, s) == Narrowed(m.signals[k], f[Slots(m.signals[k])[i].key])
  {
    var sig := m.signals[k];
    var v := f[Slots(sig)[i].key];
    assert sig in m.signals && LegalSignal(sig) && Storable(sig, v);
    SlotCarries(m, f, s, k, i);
    DecodedOfSlot(sig, i, s, v);
  }

  lemma DecodedOfSlot(sig: Signal, i: nat, s: seq<uint8>, v: int)
    requires LegalSignal(sig) && i < |Slots(sig)| && Storable(sig, v)
    requires var slot := Slots(sig)[i]; Field(s, slot.start, slot.length, slot.big) == LowBits(v, slot.length)
    ensures Decoded(sig, i, s) == Narrowed(sig, v)
  {
    if sig.kind.Bitfield? || sig.kind.Boolean? {
      LowBitsKeeps(v, 1);
      if sig.kind.Boolean? {
        FieldOfOneBit(s, sig.enc.startBit, Big(sig));
      }
    } else {
      CastsAreExact(sig, v);
    }
  }

  lemma FieldOfOneBit(s: seq<uint8>, start: nat, big: bool)
    ensures Field(s, start, 1, big) == Field(s, start, 1, false)
  {
    SameBitsSameWord(Field(s, start, 1, big), Field(s, start, 1, false), 1);
  }

  /** The selector, if there is one, holds a value its encoding can represent. */
  ghost predicate SelectorInRange(m: Message, f: Fields)
    requires Packable(m) && GuardReady(m, f)
  {
    Selector(m).Some? ==>
      LegalSignal(Selector(m).value) && Sendable(Selector(m).value, f[Whole(Selector(m).value.name)])
  }

  lemma SelectorSurvives(m: Message, f: Fields, s: seq<uint8>, k: nat)
    requires Legal(m) && GuardReady(m, f) && WellTyped(m, f) && IsPacked(m, f, s) && SelectorInRange(m, f)
    requires k < |m.signals|
    ensures Selected(m, s, m.signals[k]) == Active(m, f, m.signals[k])
  {
    if m.signals[k].enc.muxed {
      SelectorIsMember(m, f);
      var sel := Selector(m).value;
      var n :| 0 <= n < |m.signals| && m.signals[n] == sel;
      assert SelectorLegal(sel);
      DecodedOfPacked(m, f, s, n, 0);
      assert Storable(sel, f[Slots(sel)[0].key]);
      NarrowedKeeps(sel, f[Slots(sel)[0].key]);
    }
  }

  /** Unpacking a packed frame: each member of a plain or selected signal gets its
      narrowed value, each member of an unselected signal keeps its own. */
  lemma UnpackAfterPack(m: Message, f: Fields, s: seq<uint8>, g: Fields, prior: Fields, k: nat, i: nat)
    requires Legal(m) && GuardReady(m, f) && WellTyped(m, f) && SelectorInRange(m, f)
    requires IsPacked(m, f, s)
    requires IsStruct(m, g) && IsStruct(m, prior) && IsUnpacked(m, s, g, prior)
    requires k < |m.signals| && i < |Slots(m.signals[k])|
    ensures var sig := m.signals[k]; var key := Slots(sig)[i].key;
      && g[key] == (if Active(m, f, sig) then Narrowed(sig, f[key]) else prior[key])
      && (Active(m, f, sig) ==> (g[key] == f[key] <==> Sendable(sig, f[key])))
  {
    var sig := m.signals[k];
    SelectorSurvives(m, f, s, k);
    assert Settled(m, s, sig, g, prior);
    if Active(m, f, sig) {
      DecodedOfPacked(m, f, s, k, i);
      assert sig in m.signals && Storable(sig, f[Slots(sig)[i].key]);
      NarrowedKeeps(sig, f[Slots(sig)[i].key]);
    }
  }

  /** Every plain or selected member of `g` equals that of `f`. */
  ghost predicate Restored(m: Message, f: Fields, g: Fields)
    requires Packable(m) && GuardReady(m, f) && IsStruct(m, g)
  {
    forall k, i :: 0 <= k < |m.signals| && 0 <= i < |Slots(m.signals[k])| && Active(m, f, m.signals[k]) ==>
      g[Slots(m.signals[k])[i].key] == f[Slots(m.signals[k])[i].key]
  }

  /** Every plain or selected member of `f` fits its encoding. */
  ghost predicate AllSendable(m: Message, f: Fields)
    requires Packable(m) && GuardReady(m, f)
  {
    forall k, i :: 0 <= k < |m.signals| && 0 <= i < |Slots(m.signals[k])| && Active(m, f, m.signals[k]) ==>
      Sendable(m.signals[k], f[Slots(m.signals[k])[i].key])
  }

  // ---- the round trip, overlaps included ----------------------------------

  /** No other signal sent along puts a one where slot `i` of signal `k` has a zero, as far
      as the member's C++ type has room for it. */
  ghost predicate Undisturbed(m: Message, f: Fields, k: nat, i: nat)
    requires Packable(m) && GuardReady(m, f) && k < |m.signals| && i < |Slots(m.signals[k])|
  {
    forall j: nat :: j < Slots(m.signals[k])[i].length && WithinType(m.signals[k], i, j) ==> BitArrives(m, f, k, i, j)
  }

  ghost predicate BitArrives(m: Message, f: Fields, k: nat, i: nat, j: nat)
    requires Packable(m) && GuardReady(m, f) && k < |m.signals| && i < |Slots(m.signals[k])|
    requires j < Slots(m.signals[k])[i].length
  {
    var slot := Slots(m.signals[k])[i];
    Sent(m, f, Pos(slot.start, j, slot.big)) == Bit(f[slot.key], ValueBit(slot.length, j, slot.big))
  }

  /** The decoded member has the bits that were sent. */
  lemma DecodedBitIsSent(m: Message, f: Fields, s: seq<uint8>, k: nat, i: nat, j: nat)
    requires Packable(m) && GuardReady(m, f) && IsPacked(m, f, s)
    requires k < |m.signals| && i < |Slots(m.signals[k])| && j < Slots(m.signals[k])[i].length
    ensures m.signals[k] in m.signals
    ensures var slot := Slots(m.signals[k])[i]; var b := ValueBit(slot.length, j, slot.big);
      WithinType(m.signals[k], i, j) ==> Bit(Decoded(m.signals[k], i, s), b) == Sent(m, f, Pos(slot.start, j, slot.big))
  {
    var sig := m.signals[k];
    SlotCovered(sig, i);
    assert InFrame(sig, m.dlc);
    DecodedBits(sig, i, j, s);
  }

  /** The values a decoded member can have. */
  lemma DecodedInRange(sig: Signal, i: nat, s: seq<uint8>)
    requires LegalSignal(sig) && i < |Slots(sig)|
    ensures Sendable(sig, Decoded(sig, i, s))
  {
    var raw := Field(s, sig.enc.startBit, sig.enc.bitLength, Big(sig));
    if sig.kind.Physical? && sig.enc.sign.Signed? {
      SignedCastFits(raw, sig.enc.bitLength, StorageWidth(sig));
      SignedRange(raw, sig.enc.bitLength);
    } else if !sig.kind.Bitfield? && !sig.kind.Boolean? {
      LowBitsShrinks(raw, StorageWidth(sig));
    }
  }

  lemma DecodedStorable(sig: Signal, i: nat, s: seq<uint8>)
    requires LegalSignal(sig) && i < |Slots(sig)|
    ensures Storable(sig, Decoded(sig, i, s))
  {
    Pow2Doubles(StorageWidth(sig));
  }

  lemma Pow2Doubles(n: nat)
    requires n > 0
    ensures Pow2(n) == 2 * Pow2(n - 1)
  {
  }

  lemma SignedRange(u: nat, n: nat)
    requires n > 0 && u < Pow2(n)
    ensures -Pow2(n - 1) <= SignedOf(u, n) < Pow2(n - 1)
  {
  }

  lemma {:induction false} LowBitsShrinks(v: nat, n: nat)
    ensures LowBits(v, n) <= v
    decreases n
  {
    if n > 0 {
      LowBitsShrinks(v / 2, n - 1);
    }
  }

  /** A member of a signal that is sent arrives exactly when its value fits the encoding
      and no other signal disturbs it. */
  lemma DecodedIffUndisturbed(m: Message, f: Fields, s: seq<uint8>, k: nat, i: nat)
    requires Packable(m) && GuardReady(m, f) && WellTyped(m, f) && IsPacked(m, f, s)
    requires k < |m.signals| && i < |Slots(m.signals[k])|
    ensures m.signals[k] in m.signals
    ensures var sig := m.signals[k]; var v := f[Slots(sig)[i].key];
      Decoded(sig, i, s) == v <==> Sendable(sig, v) && Undisturbed(m, f, k, i)
  {
    var sig := m.signals[k];
    var v := f[Slots(sig)[i].key];
    assert LegalSignal(sig) && Storable(sig, v);
    DecodedInRange(sig, i, s);
    DecodedStorable(sig, i, s);
    if Decoded(sig, i, s) == v {
      forall j: nat | j < Slots(sig)[i].length && WithinType(sig, i, j) ensures BitArrives(m, f, k, i, j) {
        DecodedBitIsSent(m, f, s, k, i, j);
      }
    }
    if Sendable(sig, v) && Undisturbed(m, f, k, i) {
      forall j: nat | j < Slots(sig)[i].length && WithinType(sig, i, j)
        ensures SlotBitSame(sig, i, j, Decoded(sig, i, s), v)
      {
        assert BitArrives(m, f, k, i, j);
        DecodedBitIsSent(m, f, s, k, i, j);
      }
      SlotBitsDecide(sig, i, Decoded(sig, i, s), v);
    }
  }

  predicate SlotBitSame(sig: Signal, i: nat, j: nat, v: int, w: int)
    requires i < |Slots(sig)| && j < Slots(sig)[i].length
  {
    var b := ValueBit(Slots(sig)[i].length, j, Slots(sig)[i].big);
    Bit(v, b) == Bit(w, b)
  }

  ghost predicate SlotBitsSame(sig: Signal, i: nat, v: int, w: int)
    requires i < |Slots(sig)|
  {
    forall j: nat :: j < Slots(sig)[i].length && WithinType(sig, i, j) ==> SlotBitSame(sig, i, j, v, w)
  }

  /** Two values that fit the encoding and the type and have the same bits are the same. */
  lemma SlotBitsDecide(sig: Signal, i: nat, v: int, w: int)
    requires LegalSignal(sig) && i < |Slots(sig)|
    requires Storable(sig, v) && Sendable(sig, v) && Storable(sig, w) && Sendable(sig, w)
    requires SlotBitsSame(sig, i, v, w)
    ensures v == w
  {
    if sig.kind.Bitfield? || sig.kind.Boolean? {
      assert SlotBitSame(sig, i, 0, v, w);
    } else {
      var slot := Slots(sig)[i];
      var n := Min(slot.length, StorageWidth(sig));
      forall b: nat | b < n ensures Bit(LowBits(v, n), b) == Bit(LowBits(w, n), b) {
        var j := ValueBit(slot.length, b, slot.big);
        assert ValueBit(slot.length, j, slot.big) == b;
        assert SlotBitSame(sig, i, j, v, w);
      }
      SameBitsSameWord(LowBits(v, n), LowBits(w, n), n);
      LowBitsDecide(sig, v, w, n);
    }
  }

  lemma LowBitsDecide(sig: Signal, v: int, w: int, n: nat)
    requires LegalSignal(sig) && !sig.kind.Bitfield? && !sig.kind.Boolean?
    requires n == Min(sig.enc.bitLength, StorageWidth(sig)) && LowBits(v, n) == LowBits(w, n)
    requires Storable(sig, v) && Sendable(sig, v) && Storable(sig, w) && Sendable(sig, w)
    ensures v == w
  {
    if sig.enc.sign.Signed? {
      SignedCastKeeps(v, n);
      SignedCastKeeps(w, n);
    } else {
      LowBitsKeeps(v, n);
      LowBitsKeeps(w, n);
    }
  }

  /** Every member of a signal that is sent arrives undisturbed. */
  ghost predicate AllUndisturbed(m: Message, f: Fields)
    requires Packable(m) && GuardReady(m, f)
  {
    forall k, i :: 0 <= k < |m.signals| && 0 <= i < |Slots(m.signals[k])| && Active(m, f, m.signals[k]) ==>
      Undisturbed(m, f, k, i)
  }

  /** The selector arrives, if there is one. */
  ghost predicate SelectorArrives(m: Message, f: Fields, s: seq<uint8>)
    requires Packable(m) && GuardReady(m, f)
  {
    Selector(m).Some? ==>
      LegalSignal(Selector(m).value) && Decoded(Selector(m).value, 0, s) == f[Whole(Selector(m).value.name)]
  }

  /** For every message that can be packed, overlaps or not: the round trip restores a
      struct exactly when its values fit their encodings and none is disturbed. */
  lemma RoundTripIffUndisturbed(m: Message, f: Fields, s: seq<uint8>, g: Fields, prior: Fields)
    requires Packable(m) && GuardReady(m, f) && WellTyped(m, f)
    requires IsPacked(m, f, s)
    requires IsStruct(m, g) && IsStruct(m, prior) && IsUnpacked(m, s, g, prior)
    ensures Restored(m, f, g) <==> AllSendable(m, f) && AllUndisturbed(m, f)
  {
    if SelectorArrives(m, f, s) {
      forall k, i | 0 <= k < |m.signals| && 0 <= i < |Slots(m.signals[k])| && Active(m, f, m.signals[k])
        ensures var key := Slots(m.signals[k])[i].key;
          g[key] == f[key] <==> Sendable(m.signals[k], f[key]) && Undisturbed(m, f, k, i)
      {
        MemberRestoredIff(m, f, s, g, prior, k, i);
      }
    } else {
      SelectorLost(m, f, s, g, prior);
    }
  }

  lemma MemberRestoredIff(m: Message, f: Fields, s: seq<uint8>, g: Fields, prior: Fields, k: nat, i: nat)
    requires Packable(m) && GuardReady(m, f) && WellTyped(m, f) && IsPacked(m, f, s) && SelectorArrives(m, f, s)
    requires IsStruct(m, g) && IsStruct(m, prior) && IsUnpacked(m, s, g, prior)
    requires k < |m.signals| && i < |Slots(m.signals[k])| && Active(m, f, m.signals[k])
    ensures var key := Slots(m.signals[k])[i].key;
      g[key] == f[key] <==> Sendable(m.signals[k], f[key]) && Undisturbed(m, f, k, i)
  {
    var sig := m.signals[k];
    assert Settled(m, s, sig, g, prior);
    assert Selected(m, s, sig);
    DecodedIffUndisturbed(m, f, s, k, i);
  }

  lemma SelectorLost(m: Message, f: Fields, s: seq<uint8>, g: Fields, prior: Fields)
    requires Packable(m) && GuardReady(m, f) && WellTyped(m, f) && IsPacked(m, f, s) && !SelectorArrives(m, f, s)
    requires IsStruct(m, g) && IsStruct(m, prior) && IsUnpacked(m, s, g, prior)
    ensures !Restored(m, f, g) && !(AllSendable(m, f) && AllUndisturbed(m, f))
  {
    SelectorIsMember(m, f);
    var sel := Selector(m).value;
    var n :| 0 <= n < |m.signals| && m.signals[n] == sel;
    assert LegalSignal(m.signals[n]) && SelectorLegal(m.signals[n]);
    assert Active(m, f, m.signals[n]);
    assert Settled(m, s, m.signals[n], g, prior);
    DecodedIffUndisturbed(m, f, s, n, 0);
  }

  lemma LegalIsUndisturbed(m: Message, f: Fields)
    requires Legal(m) && GuardReady(m, f)
    ensures AllUndisturbed(m, f)
  {
    forall k, i, j: nat
      | 0 <= k < |m.signals| && 0 <= i < |Slots(m.signals[k])| && Active(m, f, m.signals[k]) &&
        j < Slots(m.signals[k])[i].length
      ensures BitArrives(m, f, k, i, j)
    {
      OnlyOwnerWrites(m, f, k, i, j);
    }
  }

  /** Hence a legal message restores a struct exactly when its values fit. */
  lemma RoundTrip(m: Message, f: Fields, s: seq<uint8>, g: Fields, prior: Fields)
    requires Legal(m) && GuardReady(m, f) && WellTyped(m, f)
    requires IsPacked(m, f, s)
    requires IsStruct(m, g) && IsStruct(m, prior) && IsUnpacked(m, s, g, prior)
    ensures Restored(m, f, g) <==> AllSendable(m, f)
  {
    RoundTripIffUndisturbed(m, f, s, g, prior);
    LegalIsUndisturbed(m, f);
  }

  // ---- Pack after Unpack --------------------------------------------------

  /** Frame bit `p` lies in a plain or selected signal, at a value bit that the
      member's C++ type has room for. */
  ghost predicate Carried(m: Message, s: seq<uint8>, p: nat)
    requires Packable(m)
  {
    exists k, i, j: nat :: CarriedBy(m, s, p, k, i, j)
  }

  ghost predicate CarriedBy(m: Message, s: seq<uint8>, p: nat, k: int, i: int, j: nat)
    requires Packable(m)
  {
    && 0 <= k < |m.signals| && 0 <= i < |Slots(m.signals[k])|
    && m.signals[k] in m.signals && Selected(m, s, m.signals[k])
    && var slot := Slots(m.signals[k])[i];
       && j < slot.length
       && Pos(slot.start, j, slot.big) == p
       && ValueBit(slot.length, j, slot.big) < StorageWidth(m.signals[k])
  }

  lemma GuardsAgree(m: Message, s: seq<uint8>, g: Fields, prior: Fields, k: nat)
    requires Packable(m) && GuardReady(m, g) && IsStruct(m, prior) && IsUnpacked(m, s, g, prior)
    requires k < |m.signals|
    ensures Active(m, g, m.signals[k]) == Selected(m, s, m.signals[k])
  {
    if m.signals[k].enc.muxed {
      SelectorIsMember(m, g);
      var sel := Selector(m).value;
      assert SelectorLegal(sel) && sel in m.signals;
      assert Settled(m, s, sel, g, prior);
      assert g[Slots(sel)[0].key] == Decoded(sel, 0, s);
    }
  }

  /** A decoded member has the bits of the frame, up to the width of its type. */
  lemma DecodedBits(sig: Signal, i: nat, j: nat, s: seq<uint8>)
    requires LegalSignal(sig) && i < |Slots(sig)| && j < Slots(sig)[i].length
    ensures var slot := Slots(sig)[i]; var b := ValueBit(slot.length, j, slot.big);
      Bit(Decoded(sig, i, s), b) == (b < StorageWidth(sig) && FrameBit(s, Pos(slot.start, j, slot.big)))
  {
    var slot := Slots(sig)[i];
    if sig.kind.Bitfield? || sig.kind.Boolean? {
      FieldOfOneBit(s, slot.start, Big(sig));
      OneBitField(s, slot.start);
    } else {
      var b := ValueBit(slot.length, j, slot.big);
      assert ValueBit(slot.length, b, slot.big) == j;
      if sig.kind.Physical? && sig.enc.sign.Signed? {
        var raw := Field(s, slot.start, slot.length, slot.big);
        SignedCastFits(raw, slot.length, StorageWidth(sig));
        SignedOfBits(raw, slot.length, b);
      }
    }
  }

  lemma OneBitField(s: seq<uint8>, start: nat)
    ensures Field(s, start, 1, false) == if FrameBit(s, start) then 1 else 0
  {
    var raw := Field(s, start, 1, false);
    assert raw < 2;
    assert Bit(raw, 0) == FrameBit(s, Pos(start, 0, false));
  }

  /** Repacking an unpacked frame reproduces it on the carried bits and gives zero
      everywhere else. */
  lemma PackAfterUnpack(m: Message, s: seq<uint8>, g: Fields, prior: Fields, t: seq<uint8>, p: nat)
    requires Packable(m) && GuardReady(m, g) && IsStruct(m, prior)
    requires IsUnpacked(m, s, g, prior) && IsPacked(m, g, t)
    requires p / 8 < m.dlc
    ensures FrameBit(t, p) == (Carried(m, s, p) && FrameBit(s, p))
  {
    if Sent(m, g, p) {
      RepackedBitIsCarried(m, s, g, prior, p);
    }
    if Carried(m, s, p) && FrameBit(s, p) {
      CarriedBitIsRepacked(m, s, g, prior, p);
    }
  }

  lemma RepackedBitIsCarried(m: Message, s: seq<uint8>, g: Fields, prior: Fields, p: nat)
    requires Packable(m) && GuardReady(m, g) && IsStruct(m, prior) && IsUnpacked(m, s, g, prior)
    requires Sent(m, g, p)
    ensures Carried(m, s, p) && FrameBit(s, p)
  {
    var k :| 0 <= k < |m.signals| && Active(m, g, m.signals[k]) && SignalWrites(m.signals[k], g, p);
    var sig := m.signals[k];
    var i :| 0 <= i < |Slots(sig)| && SlotWrites(Slots(sig)[i], g[Slots(sig)[i].key], p);
    var slot := Slots(sig)[i];
    var j: nat :| j < slot.length && Pos(slot.start, j, slot.big) == p &&
      Bit(g[slot.key], ValueBit(slot.length, j, slot.big));
    GuardsAgree(m, s, g, prior, k);
    assert Settled(m, s, sig, g, prior);
    DecodedBits(sig, i, j, s);
    assert CarriedBy(m, s, p, k, i, j);
  }

  lemma CarriedBitIsRepacked(m: Message, s: seq<uint8>, g: Fields, prior: Fields, p: nat)
    requires Packable(m) && GuardReady(m, g) && IsStruct(m, prior) && IsUnpacked(m, s, g, prior)
    requires Carried(m, s, p) && FrameBit(s, p)
    ensures Sent(m, g, p)
  {
    var k, i, j: nat :| CarriedBy(m, s, p, k, i, j);
    var sig := m.signals[k];
    var slot := Slots(sig)[i];
    GuardsAgree(m, s, g, prior, k);
    assert Settled(m, s, sig, g, prior);
    DecodedBits(sig, i, j, s);
    assert SlotWrites(slot, g[slot.key], p);
    assert SignalWrites(sig, g, p);
  }

  /** Frame bit `p` lies in a slot of a plain or selected signal. */
  ghost predicate Owned(m: Message, s: seq<uint8>, p: nat)
    requires Packable(m)
  {
    exists k, i, j: nat :: OwnedBy(m, s, p, k, i, j)
  }

  ghost predicate OwnedBy(m: Message, s: seq<uint8>, p: nat, k: int, i: int, j: nat)
    requires Packable(m)
  {
    && 0 <= k < |m.signals| && 0 <= i < |Slots(m.signals[k])|
    && m.signals[k] in m.signals && Selected(m, s, m.signals[k])
    && j < Slots(m.signals[k])[i].length
    && Pos(Slots(m.signals[k])[i].start, j, Slots(m.signals[k])[i].big) == p
  }

  /** Every frame bit has one owner at most. */
  lemma OwnerIsUnique(m: Message, s: seq<uint8>, p: nat, k: int, i: int, j: nat, k': int, i': int, j': nat)
    requires Legal(m) && OwnedBy(m, s, p, k, i, j) && OwnedBy(m, s, p, k', i', j')
    ensures k == k' && i == i' && j == j'
  {
    SlotCovered(m.signals[k], i);
    SlotCovered(m.signals[k'], i');
    assert MayCoexist(m.signals[k], m.signals[k']) && MayCoexist(m.signals[k'], m.signals[k]);
    var sig := m.signals[k];
    var slot := Slots(sig)[i];
    if !sig.kind.Bitfield? {
      PosInjective(slot.start, j, j', slot.big);
    }
  }

  /** No frame bit is set beyond the C++ type of the member it belongs to: only an enum
      declared wider than its largest number needs can break this. */
  ghost predicate NothingBeyondType(m: Message, s: seq<uint8>)
    requires Packable(m)
  {
    forall p: nat, k, i, j: nat :: OwnedBy(m, s, p, k, i, j) && FrameBit(s, p) ==> WithinType(m.signals[k], i, j)
  }

  predicate WithinType(sig: Signal, i: int, j: nat)
    requires 0 <= i < |Slots(sig)| && j < Slots(sig)[i].length
  {
    ValueBit(Slots(sig)[i].length, j, Slots(sig)[i].big) < StorageWidth(sig)
  }

  ghost predicate Reproduces(m: Message, s: seq<uint8>, t: seq<uint8>)
    requires Packable(m)
  {
    forall p: nat :: p / 8 < m.dlc ==> FrameBit(t, p) == (Owned(m, s, p) && FrameBit(s, p))
  }

  /** Repacking reproduces a frame on exactly the bits its signals own if and only if
      the frame sets no bit beyond the members' types. */
  lemma RepackIsExactIff(m: Message, s: seq<uint8>, g: Fields, prior: Fields, t: seq<uint8>)
    requires Legal(m) && GuardReady(m, g) && IsStruct(m, prior)
    requires IsUnpacked(m, s, g, prior) && IsPacked(m, g, t)
    ensures Reproduces(m, s, t) <==> NothingBeyondType(m, s)
  {
    if NothingBeyondType(m, s) {
      forall p: nat | p / 8 < m.dlc ensures FrameBit(t, p) == (Owned(m, s, p) && FrameBit(s, p)) {
        PackAfterUnpack(m, s, g, prior, t, p);
        CarriedIsOwned(m, s, p);
      }
    }
    if Reproduces(m, s, t) {
      forall p: nat, k, i, j: nat | OwnedBy(m, s, p, k, i, j) && FrameBit(s, p) ensures WithinType(m.signals[k], i, j) {
        SlotCovered(m.signals[k], i);
        assert InFrame(m.signals[k], m.dlc);
        PackAfterUnpack(m, s, g, prior, t, p);
        assert Owned(m, s, p);
        var k', i', j': nat :| CarriedBy(m, s, p, k', i', j');
        assert OwnedBy(m, s, p, k', i', j');
        OwnerIsUnique(m, s, p, k, i, j, k', i', j');
      }
    }
  }

  lemma CarriedIsOwned(m: Message, s: seq<uint8>, p: nat)
    requires Packable(m)
    ensures Carried(m, s, p) ==> Owned(m, s, p)
    ensures NothingBeyondType(m, s) && FrameBit(s, p) && Owned(m, s, p) ==> Carried(m, s, p)
  {
    if Carried(m, s, p) {
      var k, i, j: nat :| CarriedBy(m, s, p, k, i, j);
      assert OwnedBy(m, s, p, k, i, j);
    }
    if NothingBeyondType(m, s) && FrameBit(s, p) && Owned(m, s, p) {
      var k, i, j: nat :| OwnedBy(m, s, p, k, i, j);
      assert WithinType(m.signals[k], i, j);
      assert CarriedBy(m, s, p, k, i, j);
    }
  }

  /** Only an enum signal can have bits beyond its C++ type. */
  lemma OnlyWideEnums(sig: Signal, i: nat, j: nat)
    requires LegalSignal(sig) && i < |Slots(sig)| && j < Slots(sig)[i].length
    ensures !WithinType(sig, i, j) ==> sig.kind.Enumeration? && sig.enc.bitLength > StorageWidth(sig)
  {
  }
}
