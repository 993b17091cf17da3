/** The generated message structs: `Pack` and `Unpack`, and what a frame carries. */
module CanCodec {
  import opened Wrappers
  import opened Bits
  import opened CanSpec
  import opened BitWalk

  /** A member of a message struct: one per signal, or one per bit of a bitfield. */
  datatype FieldKey = Whole(signal: string) | Flag(signal: string, bit: string)

  /** Raw integers; a `bool` member is 0 or 1, an enum member its number. */
  type Fields = map<FieldKey, int>

  /** One `Insert` call: a run of frame bits and the member it comes from. */
  datatype Slot = Slot(start: nat, length: nat, big: bool, key: FieldKey)

  function Big(sig: Signal): bool { sig.enc.byteOrder.BigEndian? }

  function Slots(sig: Signal): seq<Slot> {
    match sig.kind
    case Bitfield(flags) =>
      seq(|flags|, i requires 0 <= i < |flags| => Slot(sig.enc.startBit + i, 1, false, Flag(sig.name, flags[i])))
    case Boolean => [Slot(sig.enc.startBit, 1, false, Whole(sig.name))]
    case _ => [Slot(sig.enc.startBit, sig.enc.bitLength, Big(sig), Whole(sig.name))]
  }

  // ---- member types -----------------------------------------------------

  function MaxOf(ns: seq<nat>): (r: nat)
    ensures forall i :: 0 <= i < |ns| ==> ns[i] <= r
    ensures if ns == [] then r == 0 else exists i :: 0 <= i < |ns| && ns[i] == r
  {
    if ns == [] then 0
    else
      var r := MaxOf(ns[1..]);
      assert forall i :: 0 < i < |ns| ==> ns[i] == ns[1..][i - 1];
      if ns[0] >= r then ns[0] else assert exists i :: 0 <= i < |ns[1..]| && ns[1..][i] == r; r
  }

  /** Width of the C++ type of a member: 8, 16, 32 or 64 bits for an integer, 8, 16
      or 32 bits (by its largest number) for an enum. */
  function StorageWidth(sig: Signal): (w: nat)
    ensures w > 0
  {
    match sig.kind
    case Enumeration(numbers) =>
      var m := MaxOf(numbers);
      if m < Pow2(8) then 8 else if m < Pow2(16) then 16 else 32
    case _ =>
      var n := sig.enc.bitLength;
      if n <= 8 then 8 else if n <= 16 then 16 else if n <= 32 then 32 else 64
  }

  /** An enum's type is the least of 8, 16 and 32 bits that holds every declared number. */
  lemma EnumTypeIsLeast(sig: Signal)
    requires LegalSignal(sig) && sig.kind.Enumeration?
    ensures StorageWidth(sig) == 8 || StorageWidth(sig) == 16 || StorageWidth(sig) == 32
    ensures forall n :: n in sig.kind.numbers ==> Storable(sig, n) && n < Pow2(StorageWidth(sig))
    ensures StorageWidth(sig) > 8 ==> exists n :: n in sig.kind.numbers && n >= 0x100
    ensures StorageWidth(sig) > 16 ==> exists n :: n in sig.kind.numbers && n >= 0x1_0000
  {
    var numbers := sig.kind.numbers;
    var m := MaxOf(numbers);
    WordPowers(16, 32, 64);
    BytePowers();
    forall n | n in numbers ensures n <= m {
    }
    if StorageWidth(sig) > 8 {
      var i :| 0 <= i < |numbers| && numbers[i] == m;
      assert m in numbers;
    }
  }

  /** Any other member's type is the least of 8, 16, 32 and 64 bits as wide as the signal. */
  lemma IntegerTypeIsLeast(sig: Signal)
    requires LegalSignal(sig) && !sig.kind.Enumeration?
    ensures StorageWidth(sig) in {8, 16, 32, 64} && sig.enc.bitLength <= StorageWidth(sig)
    ensures StorageWidth(sig) > 8 ==> sig.enc.bitLength > 8
    ensures StorageWidth(sig) > 16 ==> sig.enc.bitLength > 16
    ensures StorageWidth(sig) > 32 ==> sig.enc.bitLength > 32
  {
  }

  /** The values the C++ type of a member can hold. */
  predicate Storable(sig: Signal, v: int) {
    match sig.kind
    case Bitfield(_) => 0 <= v <= 1
    case Unresolved => false
    case Boolean => 0 <= v <= 1
    case Enumeration(_) => 0 <= v < Pow2(StorageWidth(sig))
    case Physical =>
      if sig.enc.sign.Signed?
      then -Pow2(StorageWidth(sig) - 1) <= v < Pow2(StorageWidth(sig) - 1)
      else 0 <= v < Pow2(StorageWidth(sig))
  }

  /** The encoding can represent the value. */
  predicate InRawRange(enc: Encoding, v: int)
    requires enc.bitLength > 0
  {
    RawMin(enc.bitLength, enc.sign) <= v <= RawMax(enc.bitLength, enc.sign)
  }

  /** The values a member keeps on the wire. */
  predicate Sendable(sig: Signal, v: int)
    requires sig.enc.bitLength > 0
  {
    sig.kind.Bitfield? || sig.kind.Boolean? || InRawRange(sig.enc, v)
  }

  // ---- legal messages ---------------------------------------------------

  ghost predicate LegalSignal(sig: Signal) {
    var enc := sig.enc;
    && 1 <= enc.bitLength <= 64
    && (enc.sign.Signed? ==> enc.bitLength >= 2)
    && match sig.kind
       case Physical => true
       case Enumeration(numbers) =>
         enc.sign.Unsigned? && MaxOf(numbers) < Pow2(enc.bitLength) && MaxOf(numbers) < Pow2(32)
       case Boolean => enc.bitLength == 1
       case Unresolved => false
       case Bitfield(flags) =>
         && |flags| <= enc.bitLength
         && enc.byteOrder.LittleEndian?
         && forall i, j :: 0 <= i < j < |flags| ==> flags[i] != flags[j]
  }

  ghost predicate InFrame(sig: Signal, dlc: nat) {
    Fits(sig.enc.startBit, sig.enc.bitLength, Big(sig), dlc)
  }

  /** Frame position `p` belongs to the signal. */
  ghost predicate Covers(sig: Signal, p: nat) {
    exists i: nat :: i < sig.enc.bitLength && Pos(sig.enc.startBit, i, Big(sig)) == p
  }

  lemma LittleEndianCovers(sig: Signal, p: nat)
    requires sig.enc.byteOrder.LittleEndian?
    ensures Covers(sig, p) <==> sig.enc.startBit <= p < sig.enc.startBit + sig.enc.bitLength
  {
    if Covers(sig, p) {
      var i: nat :| i < sig.enc.bitLength && Pos(sig.enc.startBit, i, false) == p;
      PosIsConsecutive(sig.enc.startBit, i, false);
    }
    if sig.enc.startBit <= p < sig.enc.startBit + sig.enc.bitLength {
      var i := p - sig.enc.startBit;
      PosIsConsecutive(sig.enc.startBit, i, false);
      assert Pos(sig.enc.startBit, i, Big(sig)) == p;
    }
  }

  /** Two signals can be present in the same frame. */
  predicate MayCoexist(a: Signal, b: Signal) {
    !a.enc.muxed || !b.enc.muxed || a.enc.muxValue == b.enc.muxValue
  }

  ghost predicate Disjoint(a: Signal, b: Signal) {
    forall p: nat :: !(Covers(a, p) && Covers(b, p))
  }

  ghost predicate CoactiveDisjoint(signals: seq<Signal>) {
    forall i, j :: 0 <= i < j < |signals| && MayCoexist(signals[i], signals[j]) ==> Disjoint(signals[i], signals[j])
  }

  predicate SelectorLegal(sig: Signal) {
    sig.muxSelector ==>
      (sig.kind.Physical? || sig.kind.Enumeration?) && sig.enc.sign.Unsigned? && !sig.enc.muxed
  }

  /** What the code generator needs to emit `Pack` and `Unpack`. */
  ghost predicate Packable(m: Message) {
    && (forall i :: 0 <= i < |m.signals| ==>
          LegalSignal(m.signals[i]) && InFrame(m.signals[i], m.dlc) && SelectorLegal(m.signals[i]))
    && (forall i, j :: 0 <= i < j < |m.signals| ==> m.signals[i].name != m.signals[j].name)
    && ((exists i :: 0 <= i < |m.signals| && m.signals[i].enc.muxed) ==> Selector(m).Some?)
  }

  /** What the spec checks are for: signals that can be in one frame keep apart. */
  ghost predicate Legal(m: Message) {
    Packable(m) && CoactiveDisjoint(m.signals)
  }

  /** The first signal marked as mux selector. */
  function Selector(m: Message): (r: Option<Signal>)
    ensures r.Some? ==> r.value in m.signals && r.value.muxSelector
    ensures r.None? ==> forall i :: 0 <= i < |m.signals| ==> !m.signals[i].muxSelector
  {
    FirstSelector(m.signals)
  }

  function FirstSelector(signals: seq<Signal>): (r: Option<Signal>)
    ensures r.Some? ==> r.value in signals && r.value.muxSelector
    ensures r.None? ==> forall i :: 0 <= i < |signals| ==> !signals[i].muxSelector
  {
    if signals == [] then None
    else if signals[0].muxSelector then Some(signals[0])
    else FirstSelector(signals[1..])
  }

  // ---- struct contents --------------------------------------------------

  ghost predicate HasMembers(sig: Signal, f: Fields) {
    forall i :: 0 <= i < |Slots(sig)| ==> Slots(sig)[i].key in f
  }

  ghost predicate IsStruct(m: Message, f: Fields) {
    forall k :: 0 <= k < |m.signals| ==> HasMembers(m.signals[k], f)
  }

  /** Every member holds a value of its C++ type. */
  ghost predicate WellTyped(m: Message, f: Fields)
    requires IsStruct(m, f)
  {
    forall k, i :: 0 <= k < |m.signals| && 0 <= i < |Slots(m.signals[k])| ==>
      Storable(m.signals[k], f[Slots(m.signals[k])[i].key])
  }

  /** The mux guard: a muxed signal counts when the selector member has its value. */
  predicate Active(m: Message, f: Fields, sig: Signal)
    requires sig.enc.muxed ==> Selector(m).Some? && Whole(Selector(m).value.name) in f
  {
    !sig.enc.muxed || f[Whole(Selector(m).value.name)] == sig.enc.muxValue
  }

  lemma SelectorIsMember(m: Message, f: Fields)
    requires Packable(m) && IsStruct(m, f) && Selector(m).Some?
    ensures Whole(Selector(m).value.name) in f
    ensures Slots(Selector(m).value) ==
      [Slot(Selector(m).value.enc.startBit, Selector(m).value.enc.bitLength, Big(Selector(m).value),
        Whole(Selector(m).value.name))]
  {
    var sel := Selector(m).value;
    assert SelectorLegal(sel);
    assert HasMembers(sel, f);
    assert Slots(sel)[0].key in f;
  }

  ghost predicate GuardReady(m: Message, f: Fields) {
    IsStruct(m, f) && (Selector(m).Some? ==> Whole(Selector(m).value.name) in f)
  }

  /** Some `Insert` of the signal puts a one at frame position `p`. */
  ghost predicate SignalWrites(sig: Signal, f: Fields, p: nat)
    requires HasMembers(sig, f)
  {
    exists i :: 0 <= i < |Slots(sig)| && SlotWrites(Slots(sig)[i], f[Slots(sig)[i].key], p)
  }

  ghost predicate SlotWrites(slot: Slot, v: int, p: nat) {
    Writes(slot.start, slot.length, v, slot.big, p)
  }

  /** Bit `p` of the frame that the struct packs to. */
  ghost predicate Sent(m: Message, f: Fields, p: nat)
    requires Packable(m) && GuardReady(m, f)
  {
    exists k :: 0 <= k < |m.signals| && Active(m, f, m.signals[k]) && SignalWrites(m.signals[k], f, p)
  }

  ghost predicate IsPacked(m: Message, f: Fields, s: seq<uint8>)
    requires Packable(m) && GuardReady(m, f)
  {
    m.dlc <= |s| && forall p: nat :: p / 8 < m.dlc ==> FrameBit(s, p) == Sent(m, f, p)
  }

  // ---- received values --------------------------------------------------

  /** The value `Unpack` assigns to the `i`-th member of a signal. */
  function Decoded(sig: Signal, i: nat, s: seq<uint8>): int
    requires 1 <= sig.enc.bitLength <= 64
  {
    var raw := Field(s, sig.enc.startBit, sig.enc.bitLength, Big(sig));
    match sig.kind
    case Bitfield(_) => DecodedFlag(sig.enc.startBit + i, s)
    case Unresolved => raw
    case Boolean => if raw != 0 then 1 else 0
    case Enumeration(_) => LowBits(raw, StorageWidth(sig))
    case Physical =>
      if sig.enc.sign.Signed?
      then SignedCast(SignedOf(raw, sig.enc.bitLength), StorageWidth(sig))
      else LowBits(raw, StorageWidth(sig))
  }

  function DecodedFlag(start: nat, s: seq<uint8>): int {
    if Field(s, start, 1, false) != 0 then 1 else 0
  }

  /** The mux guard as the receiver sees it, from the frame alone. */
  ghost predicate Selected(m: Message, s: seq<uint8>, sig: Signal)
    requires Packable(m) && sig in m.signals
  {
    !sig.enc.muxed || Decoded(Selector(m).value, 0, s) == sig.enc.muxValue
  }

  /** The members of the signal after `Unpack`. */
  ghost predicate Settled(m: Message, s: seq<uint8>, sig: Signal, f: Fields, prior: Fields)
    requires Packable(m) && sig in m.signals && HasMembers(sig, prior) && HasMembers(sig, f)
  {
    forall i :: 0 <= i < |Slots(sig)| ==>
      f[Slots(sig)[i].key] == if Selected(m, s, sig) then Decoded(sig, i, s) else prior[Slots(sig)[i].key]
  }

  ghost predicate IsUnpacked(m: Message, s: seq<uint8>, f: Fields, prior: Fields)
    requires Packable(m) && IsStruct(m, f) && IsStruct(m, prior)
  {
    forall k :: 0 <= k < |m.signals| ==> Settled(m, s, m.signals[k], f, prior)
  }

  // ---- the struct ---------------------------------------------------------

  class MessageStruct {
    const message: Message
    var fields: Fields

    ghost predicate Valid()
      reads this
    {
      Packable(message) && GuardReady(message, fields)
    }

    constructor (message: Message, fields: Fields)
      requires Packable(message) && IsStruct(message, fields)
      ensures Valid() && this.message == message && this.fields == fields
    {
      this.message := message;
      this.fields := fields;
      new;
      if Selector(message).Some? {
        SelectorIsMember(message, fields);
      }
    }

    /** Writes the first dlc bytes of `dst` and nothing else. */
    method Pack(dst: array<uint8>)
      requires Valid() && message.dlc <= dst.Length
      modifies dst
      ensures IsPacked(message, fields, dst[..])
      ensures dst[message.dlc..] == old(dst[message.dlc..])
    {
      ghost var was := dst[..];
      for b := 0 to message.dlc
        invariant forall i :: 0 <= i < dst.Length ==> dst[i] == if i < b then 0 else was[i]
      {
        dst[b] := 0;
      }
      forall p: nat ensures FrameBit(dst[..], p) == (message.dlc <= p / 8 && FrameBit(was, p)) {
        ZeroHasNoBits(p % 8);
      }
      for k := 0 to |message.signals|
        invariant forall p: nat ::
          FrameBit(dst[..], p) ==
          if p / 8 < message.dlc
          then exists j ::
            0 <= j < k && Active(message, fields, message.signals[j]) && SignalWrites(message.signals[j], fields, p)
          else FrameBit(was, p)
      {
        if Active(message, fields, message.signals[k]) {
          PackSignal(message.signals[k], dst);
        }
      }
      SameBitsAfter(dst[..], was, message.dlc);
    }

    method PackSignal(sig: Signal, dst: array<uint8>)
      requires Valid() && sig in message.signals && message.dlc <= dst.Length
      modifies dst
      ensures forall p: nat :: FrameBit(dst[..], p) == (FrameBit(old(dst[..]), p) || SignalWrites(sig, fields, p))
      ensures forall p: nat :: message.dlc <= p / 8 ==> FrameBit(dst[..], p) == FrameBit(old(dst[..]), p)
    {
      var slots := Slots(sig);
      ghost var was := dst[..];
      for i := 0 to |slots|
        invariant forall p: nat ::
          FrameBit(dst[..], p) ==
          (FrameBit(was, p) || exists j :: 0 <= j < i && SlotWrites(slots[j], fields[slots[j].key], p))
        invariant forall p: nat :: message.dlc <= p / 8 ==> FrameBit(dst[..], p) == FrameBit(was, p)
      {
        SlotCovered(sig, i);
        var slot := slots[i];
        Insert(dst, slot.start, slot.length, fields[slot.key], slot.big);
      }
    }

    /** Updates the members in place: plain signals, the selector among them, before
        muxed ones. */
    method Unpack(src: array<uint8>)
      requires Valid() && message.dlc <= src.Length
      modifies this
      ensures Valid() && fields.Keys == old(fields.Keys)
      ensures IsUnpacked(message, src[..], fields, old(fields))
    {
      var ordered := Plain(message.signals) + Muxed(message.signals);
      ghost var was := fields;
      PlainThenMuxed(message.signals);
      assert forall j :: 0 <= j < |ordered| ==> ordered[j] in message.signals;
      for k := 0 to |ordered|
        invariant fields.Keys == was.Keys
        invariant Progress(message, src[..], ordered, k, fields, was)
      {
        var sig := ordered[k];
        ghost var before := fields;
        SelectorSettled(message, src[..], ordered, k, fields, was);
        if Active(message, fields, sig) {
          UnpackSignal(sig, src);
        }
        ProgressStep(message, src[..], ordered, k, before, fields, was);
      }
      AllSettled(message, src[..], ordered, fields, was);
    }

    method UnpackSignal(sig: Signal, src: array<uint8>)
      requires LegalSignal(sig) && InFrame(sig, src.Length) && HasMembers(sig, fields)
      modifies this
      ensures fields.Keys == old(fields.Keys)
      ensures Written(sig, src[..], fields, old(fields))
    {
      if sig.kind.Bitfield? {
        UnpackFlags(sig, src);
      } else {
        var enc := sig.enc;
        assert Slots(sig)[0].key in fields;
        var raw := Extract(src, enc.startBit, enc.bitLength, Big(sig));
        var value: int;
        if sig.kind.Boolean? {
          value := if raw != 0 then 1 else 0;
        } else if sig.kind.Enumeration? || enc.sign.Unsigned? {
          value := LowBits(raw, StorageWidth(sig));
        } else {
          var extended := SignExtend(raw, enc.bitLength);
          value := SignedCast(extended, StorageWidth(sig));
        }
        fields := fields[Whole(sig.name) := value];
      }
    }

    method UnpackFlags(sig: Signal, src: array<uint8>)
      requires LegalSignal(sig) && InFrame(sig, src.Length) && HasMembers(sig, fields)
      requires sig.kind.Bitfield?
      modifies this
      ensures fields.Keys == old(fields.Keys)
      ensures Written(sig, src[..], fields, old(fields))
    {
      ghost var was, bytes := fields, src[..];
      for i := 0 to |sig.kind.flags|
        invariant src[..] == bytes && FlagsRead(sig, i, bytes, fields, was)
      {
        FlagFits(sig, i, src.Length);
        var bit := Extract(src, sig.enc.startBit + i, 1, false);
        assert HasMembers(sig, fields) by { assert fields.Keys == was.Keys; }
        FlagStep(sig, i, bytes, fields, was);
        var value := if bit != 0 then 1 else 0;
        assert value == DecodedFlag(sig.enc.startBit + i, bytes);
        fields := fields[Flag(sig.name, sig.kind.flags[i]) := value];
      }
      assert forall i :: 0 <= i < |Slots(sig)| ==> Slots(sig)[i].key == Flag(sig.name, sig.kind.flags[i]);
    }
  }

  /** The first `i` flags of a bitfield have been read. */
  ghost predicate FlagsRead(sig: Signal, i: nat, s: seq<uint8>, f: Fields, prior: Fields)
    requires sig.kind.Bitfield? && i <= |sig.kind.flags|
  {
    && f.Keys == prior.Keys
    && (forall j :: 0 <= j < i ==>
          Flag(sig.name, sig.kind.flags[j]) in f &&
            f[Flag(sig.name, sig.kind.flags[j])] == DecodedFlag(sig.enc.startBit + j, s))
    && (forall key :: key in prior && key.signal != sig.name ==> f[key] == prior[key])
  }

  lemma FlagStep(sig: Signal, i: nat, s: seq<uint8>, f: Fields, prior: Fields)
    requires LegalSignal(sig) && sig.kind.Bitfield? && i < |sig.kind.flags|
    requires FlagsRead(sig, i, s, f, prior) && HasMembers(sig, f)
    ensures var g := f[Flag(sig.name, sig.kind.flags[i]) := DecodedFlag(sig.enc.startBit + i, s)];
      FlagsRead(sig, i + 1, s, g, prior)
  {
    var flags := sig.kind.flags;
    var g := f[Flag(sig.name, flags[i]) := DecodedFlag(sig.enc.startBit + i, s)];
    assert Slots(sig)[i].key in f;
    forall j | 0 <= j < i ensures g[Flag(sig.name, flags[j])] == f[Flag(sig.name, flags[j])] {
      assert flags[j] != flags[i];
    }
  }

  lemma FlagFits(sig: Signal, i: nat, bytes: nat)
    requires LegalSignal(sig) && sig.kind.Bitfield? && i < |sig.kind.flags| && InFrame(sig, bytes)
    ensures Fits(sig.enc.startBit + i, 1, false, bytes)
  {
    SlotCovered(sig, i);
  }

  /** The signal's members hold what the frame says; all others are as they were. */
  ghost predicate Written(sig: Signal, s: seq<uint8>, f: Fields, prior: Fields)
    requires 1 <= sig.enc.bitLength <= 64 && HasMembers(sig, f) && f.Keys == prior.Keys
  {
    && (forall i :: 0 <= i < |Slots(sig)| ==> f[Slots(sig)[i].key] == Decoded(sig, i, s))
    && (forall key :: key in prior && key.signal != sig.name ==> f[key] == prior[key])
  }

  /** The first `k` signals of the unpacking order are settled, the others untouched. */
  ghost predicate Progress(m: Message, s: seq<uint8>, ordered: seq<Signal>, k: nat, f: Fields, prior: Fields)
    requires Packable(m) && IsStruct(m, f) && IsStruct(m, prior) && k <= |ordered|
    requires forall j :: 0 <= j < |ordered| ==> ordered[j] in m.signals
  {
    && (forall j :: 0 <= j < k ==> Settled(m, s, ordered[j], f, prior))
    && (forall j :: k <= j < |ordered| ==> Untouched(ordered[j], f, prior))
  }

  lemma AllSettled(m: Message, s: seq<uint8>, ordered: seq<Signal>, f: Fields, prior: Fields)
    requires Packable(m) && IsStruct(m, f) && IsStruct(m, prior)
    requires ordered == Plain(m.signals) + Muxed(m.signals)
    requires (forall j :: 0 <= j < |ordered| ==> ordered[j] in m.signals) &&
      Progress(m, s, ordered, |ordered|, f, prior)
    ensures IsUnpacked(m, s, f, prior)
  {
    forall k | 0 <= k < |m.signals| ensures Settled(m, s, m.signals[k], f, prior) {
      assert m.signals[k] in ordered;
    }
  }

  /** When a signal's turn comes its guard reads the selector value in the frame. */
  lemma SelectorSettled(m: Message, s: seq<uint8>, ordered: seq<Signal>, k: nat, f: Fields, prior: Fields)
    requires Packable(m) && GuardReady(m, f) && IsStruct(m, prior) && k < |ordered|
    requires ordered == Plain(m.signals) + Muxed(m.signals)
    requires Progress(m, s, ordered, k, f, prior)
    ensures ordered[k].enc.muxed ==> Selector(m).Some?
    ensures Active(m, f, ordered[k]) == Selected(m, s, ordered[k])
  {
    if ordered[k].enc.muxed {
      SelectorIsMember(m, f);
      SelectorComesFirst(m, ordered, k);
      var sel := Selector(m).value;
      var j :| 0 <= j < k && ordered[j] == sel;
      assert Settled(m, s, sel, f, prior);
      assert SelectorLegal(sel);
      assert f[Slots(sel)[0].key] == Decoded(sel, 0, s);
    }
  }

  lemma ProgressStep(
    m: Message, s: seq<uint8>, ordered: seq<Signal>, k: nat, before: Fields, after: Fields, prior: Fields)
    requires Packable(m) && IsStruct(m, before) && before.Keys == after.Keys == prior.Keys && k < |ordered|
    requires DistinctNames(ordered) && forall j :: 0 <= j < |ordered| ==> ordered[j] in m.signals
    requires Progress(m, s, ordered, k, before, prior)
    requires if Selected(m, s, ordered[k]) then Written(ordered[k], s, after, before) else after == before
    ensures Progress(m, s, ordered, k + 1, after, prior)
  {
    forall j | 0 <= j < |ordered| && j != k ensures Untouched(ordered[j], after, before) {
      assert ordered[j].name != ordered[k].name;
      assert HasMembers(ordered[j], before);
    }
    forall j | 0 <= j < k ensures Settled(m, s, ordered[j], after, prior) {
      assert Settled(m, s, ordered[j], before, prior) && Untouched(ordered[j], after, before);
    }
    forall j | k < j < |ordered| ensures Untouched(ordered[j], after, prior) {
      assert Untouched(ordered[j], before, prior) && Untouched(ordered[j], after, before);
    }
    assert Untouched(ordered[k], before, prior);
  }

  ghost predicate Untouched(sig: Signal, f: Fields, prior: Fields)
    requires HasMembers(sig, prior) && HasMembers(sig, f)
  {
    forall i :: 0 <= i < |Slots(sig)| ==> f[Slots(sig)[i].key] == prior[Slots(sig)[i].key]
  }

  lemma SameBitsAfter(s: seq<uint8>, t: seq<uint8>, from: nat)
    requires from <= |s| == |t| && forall p: nat :: from <= p / 8 ==> FrameBit(s, p) == FrameBit(t, p)
    ensures s[from..] == t[from..]
  {
    forall p: nat | p / 8 < |s| - from ensures FrameBit(s[from..], p) == FrameBit(t[from..], p) {
      assert FrameBit(s, p + 8 * from) == FrameBit(t, p + 8 * from);
    }
    SameBitsSameFrame(s[from..], t[from..]);
  }

  /** Every `Insert` stays within the bits of its signal. */
  lemma SlotCovered(sig: Signal, i: nat)
    requires LegalSignal(sig) && i < |Slots(sig)|
    ensures forall j: nat :: j < Slots(sig)[i].length ==> Covers(sig, Pos(Slots(sig)[i].start, j, Slots(sig)[i].big))
    ensures forall dlc: nat :: InFrame(sig, dlc) ==>
      Fits(Slots(sig)[i].start, Slots(sig)[i].length, Slots(sig)[i].big, dlc)
  {
    var slot := Slots(sig)[i];
    if sig.kind.Bitfield? {
      PosIsConsecutive(sig.enc.startBit, i, false);
      assert Pos(sig.enc.startBit, i, Big(sig)) == slot.start == Pos(slot.start, 0, slot.big);
    } else if sig.kind.Boolean? {
      assert Pos(sig.enc.startBit, 0, Big(sig)) == slot.start == Pos(slot.start, 0, slot.big);
    }
  }

  // ---- unpacking order ----------------------------------------------------

  function Plain(signals: seq<Signal>): (r: seq<Signal>)
    ensures forall s :: s in r <==> s in signals && !s.enc.muxed
  {
    if signals == [] then [] else (if signals[0].enc.muxed then [] else [signals[0]]) + Plain(signals[1..])
  }

  function Muxed(signals: seq<Signal>): (r: seq<Signal>)
    ensures forall s :: s in r <==> s in signals && s.enc.muxed
  {
    if signals == [] then [] else (if signals[0].enc.muxed then [signals[0]] else []) + Muxed(signals[1..])
  }

  ghost predicate DistinctNames(signals: seq<Signal>) {
    forall i, j :: 0 <= i < j < |signals| ==> signals[i].name != signals[j].name
  }

  lemma {:induction false} PlainThenMuxed(signals: seq<Signal>)
    requires DistinctNames(signals)
    ensures DistinctNames(Plain(signals) + Muxed(signals))
  {
    if signals != [] {
      var rest := Plain(signals[1..]) + Muxed(signals[1..]);
      PlainThenMuxed(signals[1..]);
      FirstNameIsNew(signals, rest);
      var at := FirstTakesItsPlace(signals);
      InsertDistinct(rest, signals[0], at);
    }
  }

  lemma FirstTakesItsPlace(signals: seq<Signal>) returns (at: nat)
    requires signals != []
    ensures var rest := Plain(signals[1..]) + Muxed(signals[1..]);
      at <= |rest| && Plain(signals) + Muxed(signals) == rest[..at] + [signals[0]] + rest[at..]
  {
    at := if signals[0].enc.muxed then |Plain(signals[1..])| else 0;
  }

  lemma FirstNameIsNew(signals: seq<Signal>, rest: seq<Signal>)
    requires signals != [] && DistinctNames(signals)
    requires forall s :: s in rest ==> s in signals[1..]
    ensures forall i :: 0 <= i < |rest| ==> rest[i].name != signals[0].name
  {
    forall i | 0 <= i < |rest| ensures rest[i].name != signals[0].name {
      assert rest[i] in rest;
      var j :| 0 <= j < |signals[1..]| && signals[1..][j] == rest[i];
      assert signals[j + 1] == rest[i];
    }
  }

  lemma InsertDistinct(rest: seq<Signal>, x: Signal, at: nat)
    requires DistinctNames(rest) && at <= |rest|
    requires forall i :: 0 <= i < |rest| ==> rest[i].name != x.name
    ensures DistinctNames(rest[..at] + [x] + rest[at..])
  {
    var r := rest[..at] + [x] + rest[at..];
    forall i, j | 0 <= i < j < |r| ensures r[i].name != r[j].name {
      assert r[i] == if i < at then rest[i] else if i == at then x else rest[i - 1];
      assert r[j] == if j < at then rest[j] else if j == at then x else rest[j - 1];
    }
  }

  /** When a muxed signal's turn comes the selector has been read. */
  lemma SelectorComesFirst(m: Message, ordered: seq<Signal>, k: nat)
    requires Packable(m) && ordered == Plain(m.signals) + Muxed(m.signals) && Selector(m).Some?
    requires k < |ordered| && ordered[k].enc.muxed
    ensures exists j :: 0 <= j < k && ordered[j] == Selector(m).value
  {
    var sel := Selector(m).value;
    assert SelectorLegal(sel);
    assert sel in Plain(m.signals);
    var j :| 0 <= j < |Plain(m.signals)| && Plain(m.signals)[j] == sel;
    assert forall i :: 0 <= i < |Plain(m.signals)| ==>
      Plain(m.signals)[i] in Plain(m.signals) && ordered[i] == Plain(m.signals)[i];
  }
}
