/** The byte table generated for the gateway and the gateway's own frame decoder. */
module TelemetryTable {
  import opened Wrappers
  import opened Bits
  import opened CanSpec
  import opened BitWalk
  import opened FrameBytes
  import opened CanCodec
  import opened CanRoundTrip

  datatype ConvType = BitfieldConv | UintConv(width: nat) | IntConv(width: nat)

  datatype Refusal = BigEndianSignal | Unaligned | HasOffset | OddWidth

  datatype Rendered =
    | Entry(startByte: nat, length: nat, conv: ConvType, precision: real)
    | Refused(why: Refusal)

  /** The table entry of one signal, or why the generator refuses the spec. */
  function RenderSignal(sig: Signal): Rendered {
    var enc := sig.enc;
    if enc.byteOrder.BigEndian? then Refused(BigEndianSignal)
    else if enc.startBit % 8 != 0 then Refused(Unaligned)
    else if enc.offset != 0.0 then Refused(HasOffset)
    else
      var length := if (enc.bitLength + 7) / 8 > 1 then (enc.bitLength + 7) / 8 else 1;
      if sig.kind.Bitfield? then Entry(enc.startBit / 8, length, BitfieldConv, EffectiveScale(enc))
      else
        var width := if enc.bitLength > 8 then enc.bitLength else 8;
        if width != 8 && width != 16 && width != 32 && width != 64 then Refused(OddWidth)
        else
          var conv := if enc.sign.Signed? then IntConv(width) else UintConv(width);
          Entry(enc.startBit / 8, length, conv, EffectiveScale(enc))
  }

  /** An entry starts at the signal's first byte and is the least number of bytes, at least
      one, that holds the signal. */
  lemma EntrySpansSignal(sig: Signal)
    requires RenderSignal(sig).Entry?
    ensures var e := RenderSignal(sig);
      && 8 * e.startByte == sig.enc.startBit
      && sig.enc.bitLength <= 8 * e.length
      && (e.length > 1 ==> 8 * (e.length - 1) < sig.enc.bitLength) && e.length >= 1
  {
  }

  /** What the generator accepts, and the first reason for which it refuses the rest. */
  lemma RefusedIff(sig: Signal)
    ensures RenderSignal(sig).Entry? <==>
      && sig.enc.byteOrder.LittleEndian? && sig.enc.startBit % 8 == 0 && sig.enc.offset == 0.0
      && (sig.kind.Bitfield? || sig.enc.bitLength <= 8 || sig.enc.bitLength in {16, 32, 64})
    ensures RenderSignal(sig) == Refused(BigEndianSignal) <==> sig.enc.byteOrder.BigEndian?
    ensures RenderSignal(sig) == Refused(Unaligned) <==>
      sig.enc.byteOrder.LittleEndian? && sig.enc.startBit % 8 != 0
    ensures RenderSignal(sig) == Refused(HasOffset) <==>
      sig.enc.byteOrder.LittleEndian? && sig.enc.startBit % 8 == 0 && sig.enc.offset != 0.0
  {
  }

  /** The entries of a message, up to the first refusal. */
  method RenderSignals(signals: seq<Signal>) returns (entries: seq<Rendered>, refusal: Option<Refusal>)
    ensures refusal.None? <==> forall k :: 0 <= k < |signals| ==> RenderSignal(signals[k]).Entry?
    ensures |entries| <= |signals| && forall k :: 0 <= k < |entries| ==>
      entries[k] == RenderSignal(signals[k]) && entries[k].Entry?
    ensures refusal.None? ==> |entries| == |signals|
    ensures refusal.Some? ==> |entries| < |signals| && RenderSignal(signals[|entries|]) == Refused(refusal.value)
  {
    entries := [];
    for k := 0 to |signals|
      invariant |entries| == k && forall i :: 0 <= i < k ==> entries[i] == RenderSignal(signals[i]) && entries[i].Entry?
    {
      var entry := RenderSignal(signals[k]);
      if entry.Refused? {
        return entries, Some(entry.why);
      }
      entries := entries + [entry];
    }
    refusal := None;
  }

  // ---- the gateway's decoder ------------------------------------------------

  /** The raw number the gateway reads for a table entry. A payload too short for the
      signal is skipped, and so is every conversion without an arm of its own. */
  function GatewayRaw(entry: Rendered, payload: seq<uint8>): Option<int>
    requires entry.Entry?
    requires entry.conv.BitfieldConv? || entry.conv.width <= 8 * entry.length
  {
    if entry.startByte + entry.length > |payload| then None
    else
      match entry.conv
      case BitfieldConv => None
      case UintConv(width) =>
        if width == 8 || width == 16 || width == 32
        then Some(LittleEndianValue(payload[entry.startByte..entry.startByte + width / 8]))
        else None
      case IntConv(width) =>
        if width == 8 || width == 16 || width == 32
        then Some(SignedOf(LittleEndianValue(payload[entry.startByte..entry.startByte + width / 8]), width))
        else None
  }

  /** The flag the gateway reads from the first byte of a bitfield: the byte's shift
      takes the amount modulo 8. */
  function GatewayFlag(entry: Rendered, bitIndex: nat, payload: seq<uint8>): Option<bool>
    requires entry.Entry?
  {
    if entry.startByte + entry.length > |payload| || entry.length == 0 then None
    else Some(Bit(payload[entry.startByte], bitIndex % 8))
  }

  // ---- agreement ------------------------------------------------------------

  /** The raw number the firmware's own decoder reads. */
  function FirmwareRaw(sig: Signal, s: seq<uint8>): int
    requires 1 <= sig.enc.bitLength <= 64
  {
    var raw := Field(s, sig.enc.startBit, sig.enc.bitLength, Big(sig));
    if sig.enc.sign.Signed? then SignedOf(raw, sig.enc.bitLength) else raw
  }

  /** Every bit above a narrow signal, in the byte the gateway reads whole, repeats its
      sign bit, or is zero when it is unsigned. */
  ghost predicate PaddingHarmless(sig: Signal, s: seq<uint8>)
    requires 1 <= sig.enc.bitLength
  {
    forall j: nat :: sig.enc.bitLength <= j < 8 ==> PaddingBitHarmless(sig, s, j)
  }

  predicate PaddingBitHarmless(sig: Signal, s: seq<uint8>, j: nat)
    requires 1 <= sig.enc.bitLength
  {
    FrameBit(s, sig.enc.startBit + j) == ExtendedBit(sig, s, j)
  }

  /** Bit `j` of the value: in the signal its own bit, above it the sign. */
  predicate ExtendedBit(sig: Signal, s: seq<uint8>, j: nat)
    requires 1 <= sig.enc.bitLength
  {
    if j < sig.enc.bitLength then FrameBit(s, sig.enc.startBit + j)
    else sig.enc.sign.Signed? && FrameBit(s, sig.enc.startBit + (sig.enc.bitLength - 1))
  }

  lemma SignedFieldBits(s: seq<uint8>, start: nat, n: nat, j: nat)
    requires n > 0
    ensures Bit(SignedOf(Field(s, start, n, false), n), j) ==
      if j < n then FrameBit(s, start + j) else FrameBit(s, start + (n - 1))
  {
    FieldBits(s, start, n, if j < n then j else n - 1);
    SignedOfBits(Field(s, start, n, false), n, j);
  }

  lemma FirmwareBits(sig: Signal, s: seq<uint8>, j: nat)
    requires 1 <= sig.enc.bitLength <= 64 && sig.enc.byteOrder.LittleEndian?
    ensures Bit(FirmwareRaw(sig, s), j) == ExtendedBit(sig, s, j)
  {
    var start, n := sig.enc.startBit, sig.enc.bitLength;
    if sig.enc.sign.Signed? {
      assert FirmwareRaw(sig, s) == SignedOf(Field(s, start, n, false), n);
      SignedFieldBits(s, start, n, j);
    } else {
      FieldBits(s, start, n, j);
    }
  }

  // ---- what the gateway reads -----------------------------------------------

  /** How many bits the gateway reads for a signal. */
  function WireWidth(sig: Signal): nat {
    if sig.enc.bitLength > 8 then sig.enc.bitLength else 8
  }

  /** Bit `j` counted from the signal's first. */
  predicate WireBit(sig: Signal, s: seq<uint8>, j: nat) {
    FrameBit(s, sig.enc.startBit + j)
  }

  /** The bits the gateway reads are the bits of `v`. */
  ghost predicate ReadsAs(sig: Signal, s: seq<uint8>, v: int) {
    forall j: nat :: j < WireWidth(sig) ==> WireBit(sig, s, j) == Bit(v, j)
  }

  /** The gateway's type for the signal holds `v`. */
  predicate GatewayHolds(sig: Signal, v: int) {
    RawMin(WireWidth(sig), sig.enc.sign) <= v <= RawMax(WireWidth(sig), sig.enc.sign)
  }

  lemma StorableIsHeld(sig: Signal, v: int)
    requires LegalSignal(sig) && !sig.kind.Bitfield? && RenderSignal(sig).Entry? && Storable(sig, v)
    ensures GatewayHolds(sig, v)
  {
    if sig.kind.Enumeration? {
      EnumFitsWire(sig);
      Pow2Monotone(StorageWidth(sig), WireWidth(sig));
    } else if sig.kind.Boolean? {
      BytePowers();
    } else {
      StorageIsWire(sig);
    }
  }

  lemma StorageIsWire(sig: Signal)
    requires sig.kind.Physical? && RenderSignal(sig).Entry? && sig.enc.bitLength <= 64
    ensures StorageWidth(sig) == WireWidth(sig)
  {
  }

  /** The enum's type is at most as wide as the gateway's. */
  lemma EnumFitsWire(sig: Signal)
    requires LegalSignal(sig) && sig.kind.Enumeration? && RenderSignal(sig).Entry?
    ensures StorageWidth(sig) <= WireWidth(sig)
  {
    if sig.enc.bitLength <= 8 {
      Pow2Monotone(sig.enc.bitLength, 8);
    } else if sig.enc.bitLength <= 16 {
      Pow2Monotone(sig.enc.bitLength, 16);
    }
  }

  /** The gateway decodes exactly the number whose bits it reads; 64-bit signals are
      dropped. */
  lemma GatewayReads(sig: Signal, s: seq<uint8>, v: int)
    requires LegalSignal(sig) && !sig.kind.Bitfield? && RenderSignal(sig).Entry? && GatewayHolds(sig, v)
    requires RenderSignal(sig).startByte + RenderSignal(sig).length <= |s|
    ensures GatewayRaw(RenderSignal(sig), s) == Some(v) <==> sig.enc.bitLength != 64 && ReadsAs(sig, s, v)
  {
    if sig.enc.bitLength != 64 {
      var b, n := sig.enc.startBit / 8, WireWidth(sig) / 8;
      EntryOf(sig, n);
      var word := LittleEndianValue(s[b..b + n]);
      GatewayWord(sig, s, b, n);
      WordBits(sig, s, b, n, v);
      WordReads(word, 8 * n, sig.enc.sign, v);
    }
  }

  /** The gateway decodes `n` whole bytes. */
  lemma GatewayWord(sig: Signal, s: seq<uint8>, b: nat, n: nat)
    requires b + n <= |s| && (n == 1 || n == 2 || n == 4)
    requires RenderSignal(sig) == Entry(b, n,
      if sig.enc.sign.Signed? then IntConv(8 * n) else UintConv(8 * n), EffectiveScale(sig.enc))
    ensures var word := LittleEndianValue(s[b..b + n]);
      && word < Pow2(8 * n)
      && GatewayRaw(RenderSignal(sig), s) == Some(if sig.enc.sign.Signed? then SignedOf(word, 8 * n) else word)
  {
    LittleEndianBits(s[b..b + n], 0);
  }

  lemma EntryOf(sig: Signal, n: nat)
    requires LegalSignal(sig) && !sig.kind.Bitfield? && RenderSignal(sig).Entry?
    requires sig.enc.bitLength != 64 && n == WireWidth(sig) / 8
    ensures (n == 1 || n == 2 || n == 4) && WireWidth(sig) == 8 * n && sig.enc.startBit == 8 * (sig.enc.startBit / 8)
    ensures RenderSignal(sig) == Entry(sig.enc.startBit / 8, n,
      if sig.enc.sign.Signed? then IntConv(8 * n) else UintConv(8 * n), EffectiveScale(sig.enc))
  {
  }

  lemma WordBits(sig: Signal, s: seq<uint8>, b: nat, n: nat, v: int)
    requires b + n <= |s| && sig.enc.startBit == 8 * b && WireWidth(sig) == 8 * n
    ensures ReadsAs(sig, s, v) <==> SameBits(LittleEndianValue(s[b..b + n]), v, 8 * n)
  {
    var word := LittleEndianValue(s[b..b + n]);
    forall j: nat | j < 8 * n ensures Bit(word, j) == WireBit(sig, s, j) {
      LittleEndianBits(s[b..b + n], j);
      BitOfSlice(s, b, n, j);
    }
  }

  /** A word read as a number of its width is `v` exactly when it has the bits of `v`. */
  lemma WordReads(word: nat, n: nat, sign: Sign, v: int)
    requires n > 0 && word < Pow2(n) && RawMin(n, sign) <= v <= RawMax(n, sign)
    ensures (if sign.Signed? then SignedOf(word, n) else word) == v <==> SameBits(word, v, n)
  {
    if sign.Signed? {
      SignedWordIsValue(word, n, v);
    } else if SameBits(word, v, n) {
      SameBitsSameWord(word, v, n);
    }
  }

  // ---- against the firmware's bit extraction --------------------------------

  /** A signal as wide as its type: the two decoders agree on every frame. */
  lemma WideSignalsAgree(sig: Signal, s: seq<uint8>, n: nat)
    requires LegalSignal(sig) && !sig.kind.Bitfield? && RenderSignal(sig).Entry?
    requires n == 1 || n == 2 || n == 4
    requires sig.enc.bitLength == 8 * n && sig.enc.startBit / 8 + n <= |s|
    ensures GatewayRaw(RenderSignal(sig), s) == Some(FirmwareRaw(sig, s))
  {
    DecodersAgree(sig, s);
  }

  /** For every signal the table accepts: the decoders agree on a frame exactly when the
      signal is not 64 bits wide and the rest of its byte does no harm. */
  lemma DecodersAgree(sig: Signal, s: seq<uint8>)
    requires LegalSignal(sig) && !sig.kind.Bitfield? && RenderSignal(sig).Entry?
    requires RenderSignal(sig).startByte + RenderSignal(sig).length <= |s|
    ensures GatewayRaw(RenderSignal(sig), s) == Some(FirmwareRaw(sig, s)) <==>
      sig.enc.bitLength != 64 && PaddingHarmless(sig, s)
  {
    FirmwareHeld(sig, s);
    GatewayReads(sig, s, FirmwareRaw(sig, s));
    FirmwareReadsIffPadding(sig, s);
  }

  lemma FirmwareHeld(sig: Signal, s: seq<uint8>)
    requires LegalSignal(sig) && RenderSignal(sig).Entry?
    ensures GatewayHolds(sig, FirmwareRaw(sig, s))
  {
    Pow2Monotone(sig.enc.bitLength, WireWidth(sig));
    Pow2Monotone(sig.enc.bitLength - 1, WireWidth(sig) - 1);
  }

  lemma FirmwareReadsIffPadding(sig: Signal, s: seq<uint8>)
    requires LegalSignal(sig) && sig.enc.byteOrder.LittleEndian?
    ensures ReadsAs(sig, s, FirmwareRaw(sig, s)) <==> PaddingHarmless(sig, s)
  {
    forall j: nat ensures Bit(FirmwareRaw(sig, s), j) == ExtendedBit(sig, s, j) {
      FirmwareBits(sig, s, j);
    }
    if ReadsAs(sig, s, FirmwareRaw(sig, s)) {
      forall j: nat | sig.enc.bitLength <= j < 8 ensures PaddingBitHarmless(sig, s, j) {
        assert j < WireWidth(sig);
      }
    }
    if PaddingHarmless(sig, s) {
      forall j: nat | j < WireWidth(sig) ensures WireBit(sig, s, j) == Bit(FirmwareRaw(sig, s), j) {
        if j >= sig.enc.bitLength {
          assert PaddingBitHarmless(sig, s, j);
        }
      }
    }
  }

  // ---- against the firmware's Unpack ----------------------------------------

  /** The frame sets no bit of the signal above the member's C++ type. */
  ghost predicate FitsType(sig: Signal, s: seq<uint8>) {
    forall j: nat :: StorageWidth(sig) <= j < sig.enc.bitLength ==> !WireBit(sig, s, j)
  }

  /** The gateway has no mux guard and no enum type: it decodes the value of the struct
      after `Unpack` exactly when the signal is not 64 bits wide and
      - if it is selected, the rest of its byte does no harm and no bit is set beyond the
        member's C++ type,
      - if it is not, the receiver's old value happens to be what is on the wire. */
  lemma GatewayMatchesUnpack(m: Message, s: seq<uint8>, g: Fields, prior: Fields, k: nat)
    requires Packable(m) && IsStruct(m, g) && IsStruct(m, prior) && WellTyped(m, prior)
    requires IsUnpacked(m, s, g, prior)
    requires k < |m.signals| && m.dlc <= |s|
    requires !m.signals[k].kind.Bitfield? && RenderSignal(m.signals[k]).Entry?
    ensures var sig := m.signals[k]; var key := Whole(sig.name);
      && key in g && key in prior && sig in m.signals && LegalSignal(sig)
      && (sig.enc.bitLength != 64 ==> GatewayRaw(RenderSignal(sig), s).Some?)
      && (GatewayRaw(RenderSignal(sig), s) == Some(g[key]) <==>
            && sig.enc.bitLength != 64
            && if Selected(m, s, sig) then PaddingHarmless(sig, s) && FitsType(sig, s)
               else ReadsAs(sig, s, prior[key]))
  {
    var sig := m.signals[k];
    var key := Slots(sig)[0].key;
    assert sig in m.signals && LegalSignal(sig) && HasMembers(sig, g) && HasMembers(sig, prior);
    assert key in g && key in prior;
    assert Settled(m, s, sig, g, prior);
    EntryInFrame(sig, m.dlc);
    assert InFrame(sig, m.dlc);
    assert Storable(sig, prior[key]);
    if Selected(m, s, sig) {
      GatewayMatchesDecoded(sig, s);
    } else {
      GatewayMatchesKept(sig, s, prior[key]);
    }
  }

  lemma GatewayMatchesKept(sig: Signal, s: seq<uint8>, v: int)
    requires LegalSignal(sig) && !sig.kind.Bitfield? && RenderSignal(sig).Entry? && Storable(sig, v)
    requires RenderSignal(sig).startByte + RenderSignal(sig).length <= |s|
    ensures sig.enc.bitLength != 64 ==> GatewayRaw(RenderSignal(sig), s).Some?
    ensures GatewayRaw(RenderSignal(sig), s) == Some(v) <==> sig.enc.bitLength != 64 && ReadsAs(sig, s, v)
  {
    StorableIsHeld(sig, v);
    GatewayReads(sig, s, v);
  }

  lemma GatewayMatchesDecoded(sig: Signal, s: seq<uint8>)
    requires LegalSignal(sig) && !sig.kind.Bitfield? && RenderSignal(sig).Entry?
    requires RenderSignal(sig).startByte + RenderSignal(sig).length <= |s|
    ensures sig.enc.bitLength != 64 ==> GatewayRaw(RenderSignal(sig), s).Some?
    ensures GatewayRaw(RenderSignal(sig), s) == Some(Decoded(sig, 0, s)) <==>
      sig.enc.bitLength != 64 && PaddingHarmless(sig, s) && FitsType(sig, s)
  {
    DecodedStorable(sig, 0, s);
    StorableIsHeld(sig, Decoded(sig, 0, s));
    GatewayReads(sig, s, Decoded(sig, 0, s));
    DecodedReadsIff(sig, s);
  }

  lemma EntryInFrame(sig: Signal, dlc: nat)
    requires LegalSignal(sig) && RenderSignal(sig).Entry?
    ensures InFrame(sig, dlc) ==> RenderSignal(sig).startByte + RenderSignal(sig).length <= dlc
  {
    var n := sig.enc.bitLength;
    PosIsConsecutive(sig.enc.startBit, n - 1, false);
    assert InFrame(sig, dlc) ==> Pos(sig.enc.startBit, n - 1, Big(sig)) / 8 < dlc;
  }

  /** Below the width of the member's type `Unpack` keeps what was extracted. */
  lemma DecodedIsFirmware(sig: Signal, s: seq<uint8>)
    requires LegalSignal(sig) && !sig.kind.Bitfield? && sig.enc.bitLength <= StorageWidth(sig)
    ensures Decoded(sig, 0, s) == FirmwareRaw(sig, s)
  {
    var n, w := sig.enc.bitLength, StorageWidth(sig);
    var raw := Field(s, sig.enc.startBit, n, Big(sig));
    if sig.kind.Physical? && sig.enc.sign.Signed? {
      SignedCastFits(raw, n, w);
    } else if !sig.kind.Boolean? {
      LowBitsFits(raw, n, w);
    }
  }

  lemma DecodedReadsIff(sig: Signal, s: seq<uint8>)
    requires LegalSignal(sig) && !sig.kind.Bitfield? && sig.enc.byteOrder.LittleEndian?
    ensures ReadsAs(sig, s, Decoded(sig, 0, s)) <==> PaddingHarmless(sig, s) && FitsType(sig, s)
  {
    if sig.enc.bitLength <= StorageWidth(sig) {
      DecodedIsFirmware(sig, s);
      FirmwareReadsIffPadding(sig, s);
    } else {
      var v := Decoded(sig, 0, s);
      forall j: nat | j < sig.enc.bitLength ensures Bit(v, j) == (j < StorageWidth(sig) && WireBit(sig, s, j)) {
        WideEnumBits(sig, s, j);
      }
      assert StorageWidth(sig) >= 8;
      assert FitsType(sig, s) <==> ReadsAs(sig, s, v);
    }
  }

  lemma WideEnumBits(sig: Signal, s: seq<uint8>, j: nat)
    requires LegalSignal(sig) && !sig.kind.Bitfield? && sig.enc.byteOrder.LittleEndian?
    requires StorageWidth(sig) < sig.enc.bitLength && j < sig.enc.bitLength
    ensures Bit(Decoded(sig, 0, s), j) == (j < StorageWidth(sig) && WireBit(sig, s, j))
  {
    DecodedBits(sig, 0, j, s);
    PosIsConsecutive(sig.enc.startBit, j, false);
  }

  function Bytes(name: string, at: nat, n: nat, kind: Kind, selector: bool, muxed: bool): Signal {
    Signal(name, Encoding(8 * at, 8 * n, LittleEndian, Unsigned, 1.0, 0.0, muxed, 1, 0.0, 0.0), kind, selector, false)
  }

  lemma BytesFit(sig: Signal, at: nat, n: nat, dlc: nat)
    requires sig == Bytes(sig.name, at, n, sig.kind, sig.muxSelector, sig.enc.muxed) && at + n <= dlc
    ensures InFrame(sig, dlc)
    ensures forall p: nat :: Covers(sig, p) <==> 8 * at <= p < 8 * (at + n)
  {
    forall i: nat | i < 8 * n ensures Pos(8 * at, i, false) / 8 < dlc {
      PosIsConsecutive(8 * at, i, false);
    }
    forall p: nat ensures Covers(sig, p) <==> 8 * at <= p < 8 * (at + n) {
      LittleEndianCovers(sig, p);
    }
  }

  /** What both decoders make of whole bytes. */
  lemma BytesRead(sig: Signal, at: nat, n: nat, s: seq<uint8>)
    requires sig == Bytes(sig.name, at, n, sig.kind, sig.muxSelector, sig.enc.muxed) && at + n <= |s|
    requires (n == 1 || n == 2) && (sig.kind.Physical? || sig.kind.Enumeration?)
    ensures GatewayRaw(RenderSignal(sig), s) == Some(LittleEndianValue(s[at..at + n]))
    ensures Decoded(sig, 0, s) == LowBits(LittleEndianValue(s[at..at + n]), StorageWidth(sig))
  {
    BytesAreField(s, at, n);
    assert 8 * at / 8 == at && 8 * at % 8 == 0;
  }

  lemma ValueOfBytes(s: seq<uint8>)
    requires 1 <= |s| <= 2
    ensures LittleEndianValue(s) == if |s| == 1 then s[0] as int else s[0] as int + 256 * (s[1] as int)
  {
    assert LittleEndianValue([]) == 0;
    if |s| == 1 {
      assert s[1..] == [];
    } else {
      assert s[1..] == [s[1]] && [s[1]][1..] == [];
      assert LittleEndianValue([s[1]]) == s[1];
    }
  }

  const SELECTOR: Signal := Bytes("sel", 0, 1, Physical, true, false)
  const MUXED: Signal := Bytes("x", 1, 1, Physical, false, true)
  const MUXED_MESSAGE: Message := Message("M", 256, 1, "Critical", 2, [SELECTOR, MUXED])

  lemma MuxedMessageIsLegal()
    ensures Legal(MUXED_MESSAGE) && Selector(MUXED_MESSAGE) == Some(SELECTOR)
  {
    BytesFit(SELECTOR, 0, 1, 2);
    BytesFit(MUXED, 1, 1, 2);
    var signals := MUXED_MESSAGE.signals;
    assert signals[0] == SELECTOR && signals[1] == MUXED;
    assert Disjoint(SELECTOR, MUXED);
    assert SELECTOR.name != MUXED.name by {
      assert |SELECTOR.name| == 3 && |MUXED.name| == 1;
    }
  }

  /** An unselected signal keeps its member, but the gateway reads whatever is there: with
      selector 0 a signal for selector 1 stays 0 in the struct and reads 5 at the gateway. */
  lemma UnselectedIsStillRead()
    ensures Legal(MUXED_MESSAGE)
    ensures var f := map[Whole("sel") := 0, Whole("x") := 0];
      && IsStruct(MUXED_MESSAGE, f) && IsUnpacked(MUXED_MESSAGE, [0, 5], f, f)
      && GatewayRaw(RenderSignal(MUXED), [0, 5]) == Some(5)
  {
    MuxedMessageIsLegal();
    ZeroAndFive();
    var f := map[Whole("sel") := 0, Whole("x") := 0];
    assert MUXED_MESSAGE.signals[0] == SELECTOR && MUXED_MESSAGE.signals[1] == MUXED;
    assert HasMembers(SELECTOR, f) && HasMembers(MUXED, f);
  }

  lemma ZeroAndFive()
    ensures Decoded(SELECTOR, 0, [0, 5]) == 0
    ensures GatewayRaw(RenderSignal(MUXED), [0, 5]) == Some(5)
  {
    var s: seq<uint8> := [0, 5];
    BytesRead(SELECTOR, 0, 1, s);
    BytesRead(MUXED, 1, 1, s);
    ValueOfBytes(s[0..1]);
    ValueOfBytes(s[1..2]);
    LowBitsKeeps(0, 8);
  }

  const WIDE_ENUM: Signal := Bytes("e", 0, 2, Enumeration([1]), false, false)
  const ENUM_MESSAGE: Message := Message("E", 256, 1, "Critical", 2, [WIDE_ENUM])

  lemma WideEnumIsLegal()
    ensures Legal(ENUM_MESSAGE) && StorageWidth(WIDE_ENUM) == 8
  {
    BytesFit(WIDE_ENUM, 0, 2, 2);
    assert ENUM_MESSAGE.signals[0] == WIDE_ENUM;
    assert MaxOf([1]) == 1;
    Pow2Monotone(1, 8);
    Pow2Monotone(1, 16);
    Pow2Monotone(1, 32);
    assert Pow2(1) == 2;
  }

  /** An enum of 16 bits whose numbers fit a byte: `Unpack` drops the upper byte, the
      gateway does not. */
  lemma WideEnumIsReadWhole()
    ensures Legal(ENUM_MESSAGE)
    ensures var f := map[Whole("e") := 0];
      && IsStruct(ENUM_MESSAGE, f) && IsUnpacked(ENUM_MESSAGE, [0, 1], f, f)
      && GatewayRaw(RenderSignal(WIDE_ENUM), [0, 1]) == Some(256)
  {
    WideEnumIsLegal();
    var s: seq<uint8> := [0, 1];
    BytesRead(WIDE_ENUM, 0, 2, s);
    assert s[0..2] == s;
    ValueOfBytes(s);
    BytePowers();
    LowBitsIsModulo(256, 8);
    assert Decoded(WIDE_ENUM, 0, s) == 0;
  }

  // ---- bitfields ------------------------------------------------------------

  /** A flag is read alike exactly when the bit the gateway reads, which is one of the
      first byte, is as the flag's own. */
  lemma FlagsAgree(sig: Signal, i: nat, s: seq<uint8>)
    requires LegalSignal(sig) && sig.kind.Bitfield? && i < |sig.kind.flags| && RenderSignal(sig).Entry?
    requires RenderSignal(sig).startByte + RenderSignal(sig).length <= |s|
    ensures GatewayFlag(RenderSignal(sig), i, s) == Some(Decoded(sig, i, s) == 1) <==>
      WireBit(sig, s, i % 8) == WireBit(sig, s, i)
  {
    OneBitField(s, sig.enc.startBit + i);
    BitInByte(s, sig.enc.startBit, i % 8);
  }

  /** Against `Unpack`: a flag of an unselected bitfield is read all the same. */
  lemma FlagsMatchUnpack(m: Message, s: seq<uint8>, g: Fields, prior: Fields, k: nat, i: nat)
    requires Packable(m) && IsStruct(m, g) && IsStruct(m, prior) && IsUnpacked(m, s, g, prior)
    requires k < |m.signals| && m.dlc <= |s|
    requires m.signals[k].kind.Bitfield? && i < |m.signals[k].kind.flags| && RenderSignal(m.signals[k]).Entry?
    ensures var sig := m.signals[k]; var key := Flag(sig.name, sig.kind.flags[i]);
      && key in g && key in prior && sig in m.signals
      && (GatewayFlag(RenderSignal(sig), i, s) == Some(g[key] == 1) <==>
            WireBit(sig, s, i % 8) == if Selected(m, s, sig) then WireBit(sig, s, i) else prior[key] == 1)
  {
    var sig := m.signals[k];
    assert sig in m.signals && LegalSignal(sig) && InFrame(sig, m.dlc);
    assert HasMembers(sig, g) && HasMembers(sig, prior) && Settled(m, s, sig, g, prior);
    assert Slots(sig)[i].key == Flag(sig.name, sig.kind.flags[i]);
    EntryInFrame(sig, m.dlc);
    FlagsAgree(sig, i, s);
    BitInByte(s, sig.enc.startBit, i % 8);
  }

  lemma BitInByte(s: seq<uint8>, start: nat, j: nat)
    requires start % 8 == 0 && start / 8 < |s| && j < 8
    ensures FrameBit(s, start + j) == Bit(s[start / 8], j)
  {
    assert (start + j) / 8 == start / 8 && (start + j) % 8 == j;
  }

  /** Hence in every frame exactly for the first eight. */
  lemma FlagsAlwaysAgreeIff(sig: Signal, i: nat, bytes: nat)
    requires LegalSignal(sig) && sig.kind.Bitfield? && i < |sig.kind.flags| && RenderSignal(sig).Entry?
    requires RenderSignal(sig).startByte + RenderSignal(sig).length <= bytes
    ensures (forall s: seq<uint8> :: |s| == bytes ==> FlagReadAlike(sig, i, s)) <==> i < 8
  {
    if i < 8 {
      forall s: seq<uint8> | |s| == bytes ensures FlagReadAlike(sig, i, s) {
        FlagsAgree(sig, i, s);
      }
    } else {
      var b := (sig.enc.startBit + i) / 8;
      var s: seq<uint8> := seq(bytes, n => if n == b then 255 else 0);
      FlagsAgree(sig, i, s);
      ZeroHasNoBits(i % 8);
      OnesHaveBits(8, (sig.enc.startBit + i) % 8);
      assert !FlagReadAlike(sig, i, s);
    }
  }

  predicate FlagReadAlike(sig: Signal, i: nat, s: seq<uint8>)
    requires 1 <= sig.enc.bitLength <= 64 && RenderSignal(sig).Entry?
  {
    GatewayFlag(RenderSignal(sig), i, s) == Some(Decoded(sig, i, s) == 1)
  }

  lemma {:induction false} OnesHaveBits(n: nat, j: nat)
    requires j < n
    ensures Bit(Pow2(n) - 1, j)
  {
    if j > 0 {
      OnesHaveBits(n - 1, j - 1);
    }
  }

  // ---- end to end -----------------------------------------------------------

  /** The rest of a narrow signal's byte is sent as the bits of `v`. */
  ghost predicate SpareBitsMatch(m: Message, f: Fields, sig: Signal, v: int)
    requires Legal(m) && GuardReady(m, f)
  {
    forall j: nat :: sig.enc.bitLength <= j < 8 ==> SentAt(m, f, sig, j) == Bit(v, j)
  }

  ghost predicate SentAt(m: Message, f: Fields, sig: Signal, j: nat)
    requires Legal(m) && GuardReady(m, f)
  {
    Sent(m, f, sig.enc.startBit + j)
  }

  /** What the firmware packs is what the gateway decodes exactly when the signal is not
      64 bits wide and the rest of its byte is sent as the bits of its value. */
  lemma PackedReachesGateway(m: Message, f: Fields, s: seq<uint8>, k: nat)
    requires Legal(m) && GuardReady(m, f) && WellTyped(m, f) && IsPacked(m, f, s)
    requires k < |m.signals| && Active(m, f, m.signals[k])
    requires !m.signals[k].kind.Bitfield? && RenderSignal(m.signals[k]).Entry?
    ensures var sig := m.signals[k]; var key := Whole(sig.name);
      && key in f
      && (GatewayRaw(RenderSignal(sig), s) == Some(f[key]) <==>
            sig.enc.bitLength != 64 && SpareBitsMatch(m, f, sig, f[key]))
  {
    var sig := m.signals[k];
    var v := f[Slots(sig)[0].key];
    assert LegalSignal(sig) && InFrame(sig, m.dlc) && Storable(sig, v);
    OneSlot(sig);
    EntryInFrame(sig, m.dlc);
    StorableIsHeld(sig, v);
    GatewayReads(sig, s, v);
    SlotCarries(m, f, s, k, 0);
    CarriedReadsIff(sig, s, v);
    RestIsSent(m, f, s, sig, v);
  }

  /** The rest of a narrow signal's byte reads as the bits of `v`. */
  ghost predicate RestReadsAs(sig: Signal, s: seq<uint8>, v: int) {
    forall j: nat :: sig.enc.bitLength <= j < 8 ==> WireBit(sig, s, j) == Bit(v, j)
  }

  lemma CarriedReadsIff(sig: Signal, s: seq<uint8>, v: int)
    requires Field(s, sig.enc.startBit, sig.enc.bitLength, false) == LowBits(v, sig.enc.bitLength)
    ensures ReadsAs(sig, s, v) <==> RestReadsAs(sig, s, v)
  {
    forall j: nat | j < sig.enc.bitLength ensures WireBit(sig, s, j) == Bit(v, j) {
      FieldBits(s, sig.enc.startBit, sig.enc.bitLength, j);
    }
  }

  lemma RestIsSent(m: Message, f: Fields, s: seq<uint8>, sig: Signal, v: int)
    requires Legal(m) && GuardReady(m, f) && IsPacked(m, f, s)
    requires sig.enc.startBit % 8 == 0 && sig.enc.startBit / 8 < m.dlc
    ensures RestReadsAs(sig, s, v) <==> SpareBitsMatch(m, f, sig, v)
  {
    forall j: nat | j < 8 ensures WireBit(sig, s, j) == SentAt(m, f, sig, j) {
      assert (sig.enc.startBit + j) / 8 == sig.enc.startBit / 8;
    }
  }

  lemma OneSlot(sig: Signal)
    requires !sig.kind.Bitfield? && sig.enc.byteOrder.LittleEndian? && (sig.kind.Boolean? ==> sig.enc.bitLength == 1)
    ensures Slots(sig) == [Slot(sig.enc.startBit, sig.enc.bitLength, false, Whole(sig.name))]
  {
  }

  /** No other signal sent with `k` has a bit in the rest of its byte. */
  ghost predicate AloneInByte(m: Message, f: Fields, k: nat)
    requires Legal(m) && GuardReady(m, f) && k < |m.signals|
  {
    forall n :: 0 <= n < |m.signals| && Active(m, f, m.signals[n]) ==> LeavesRest(m.signals[n], m.signals[k])
  }

  /** `other` has no bit in the rest of the byte of `sig`. */
  ghost predicate LeavesRest(other: Signal, sig: Signal) {
    forall p: nat :: sig.enc.startBit + sig.enc.bitLength <= p < sig.enc.startBit + 8 ==> !Covers(other, p)
  }

  /** A signal alone in its byte is misread exactly when it is 64 bits wide, or narrower
      than a byte and negative, or beyond its encoding. */
  lemma AloneInByteIsMisreadIff(m: Message, f: Fields, s: seq<uint8>, k: nat)
    requires Legal(m) && GuardReady(m, f) && WellTyped(m, f) && IsPacked(m, f, s)
    requires k < |m.signals| && Active(m, f, m.signals[k]) && AloneInByte(m, f, k)
    requires !m.signals[k].kind.Bitfield? && RenderSignal(m.signals[k]).Entry?
    ensures var sig := m.signals[k]; var key := Whole(sig.name);
      && key in f
      && (GatewayRaw(RenderSignal(sig), s) != Some(f[key]) <==>
            || sig.enc.bitLength == 64
            || (sig.enc.bitLength < 8 && !(0 <= f[key] < Pow2(sig.enc.bitLength))))
  {
    var sig := m.signals[k];
    var v := f[Slots(sig)[0].key];
    assert LegalSignal(sig) && Storable(sig, v);
    PackedReachesGateway(m, f, s, k);
    if sig.enc.bitLength < 8 {
      forall j: nat | sig.enc.bitLength <= j < 8 ensures !SentAt(m, f, sig, j) {
        NothingSent(m, f, k, sig.enc.startBit + j);
      }
      StorableIsHeld(sig, v);
      HighBitsOfByte(v, sig.enc.bitLength, sig.enc.sign);
      assert SpareBitsMatch(m, f, sig, v) <==> NoHighBits(v, sig.enc.bitLength);
    }
  }

  lemma NothingSent(m: Message, f: Fields, k: nat, p: nat)
    requires Legal(m) && GuardReady(m, f) && k < |m.signals| && AloneInByte(m, f, k)
    requires m.signals[k].enc.startBit + m.signals[k].enc.bitLength <= p < m.signals[k].enc.startBit + 8
    ensures !Sent(m, f, p)
  {
    if Sent(m, f, p) {
      var n :| 0 <= n < |m.signals| && Active(m, f, m.signals[n]) && SignalWrites(m.signals[n], f, p);
      assert LeavesRest(m.signals[n], m.signals[k]);
      WriterCovers(m.signals[n], f, p);
    }
  }

  ghost predicate NoHighBits(v: int, n: nat) {
    forall j: nat :: n <= j < 8 ==> !Bit(v, j)
  }

  lemma HighBitsOfByte(v: int, n: nat, sign: Sign)
    requires 0 < n < 8 && RawMin(8, sign) <= v <= RawMax(8, sign)
    ensures NoHighBits(v, n) <==> 0 <= v < Pow2(n)
  {
    var low := LowBits(v, n);
    LowBitsKeeps(v, n);
    Pow2Monotone(n, 7);
    BytePowers();
    forall j: nat | j < 8 ensures Bit(low, j) == (j < n && Bit(v, j)) {
    }
    WordReads(low, 8, sign, v);
    assert SameBits(low, v, 8) <==> NoHighBits(v, n);
  }
}
