/** The CAN specification: messages, signals and where their bits sit in a frame. */
module CanSpec {
  import opened Numbers
  import opened Bits

  datatype ByteOrder = LittleEndian | BigEndian

  datatype Sign = Unsigned | Signed

  /** What a signal means. References to enum and bitfield types are resolved, if they can
      be: an enum carries its value numbers, a bitfield the names of its bits. */
  datatype Kind =
    | Physical
    | Enumeration(numbers: seq<nat>)
    | Boolean
    | Bitfield(flags: seq<string>)
    | Unresolved

  datatype Encoding = Encoding(
    startBit: nat, bitLength: nat, byteOrder: ByteOrder, sign: Sign,
    scale: real, offset: real, muxed: bool, muxValue: uint32, min: real, max: real)

  /** `telemetry`: the signal as a whole is bound to a telemetry field. */
  datatype Signal = Signal(name: string, enc: Encoding, kind: Kind, muxSelector: bool, telemetry: bool)

  datatype Message = Message(name: string, canId: nat, quantity: nat, bus: string, dlc: nat, signals: seq<Signal>)

  predicate LowerSnake(s: string) {
    && s != [] && 'a' <= s[0] <= 'z'
    && forall i :: 0 < i < |s| ==> 'a' <= s[i] <= 'z' || '0' <= s[i] <= '9' || s[i] == '_'
  }

  /** A scale of 0 means "unset". */
  function EffectiveScale(enc: Encoding): real {
    if enc.scale != 0.0 then enc.scale else 1.0
  }

  /** physical = raw * scale + offset. */
  function PhysicalOf(enc: Encoding, raw: int): real {
    raw as real * EffectiveScale(enc) + enc.offset
  }

  /** A scale of 0 stands for 1, and a quantity of 0 for one frame. */
  lemma ZeroMeansUnset(enc: Encoding, raw: int, m: Message)
    ensures PhysicalOf(enc, raw) == enc.offset + if enc.scale == 0.0 then raw as real else enc.scale * raw as real
    ensures EffectiveQuantity(m) > 0 && (m.quantity > 0 ==> EffectiveQuantity(m) == m.quantity)
    ensures m.quantity == 0 ==> EffectiveQuantity(m) == 1
  {
  }

  /** `raw_range`: the raw integers the encoding can represent. */
  function RawMin(n: nat, sign: Sign): int
    requires n > 0
  {
    if sign.Signed? then -Pow2(n - 1) else 0
  }

  function RawMax(n: nat, sign: Sign): int
    requires n > 0
  {
    if sign.Signed? then Pow2(n - 1) - 1 else Pow2(n) - 1
  }

  function EffectiveQuantity(m: Message): nat {
    if m.quantity != 0 then m.quantity else 1
  }

  // ---- bit positions ----------------------------------------------------

  /** Linear position (byte * 8 + bit) after `p`: ascending for little-endian; for
      big-endian descending in the byte, then bit 7 of the next byte. */
  function NextPos(p: nat, big: bool): nat {
    if !big then p + 1 else if p % 8 == 0 then p + 15 else p - 1
  }

  /** Linear position of the `i`-th bit of a signal in walking order. */
  function Pos(start: nat, i: nat, big: bool): nat {
    if i == 0 then start else NextPos(Pos(start, i - 1, big), big)
  }

  /** DBC order: counts bits from the MSB of byte 0 downwards. */
  function DbcIndex(p: nat): int {
    p / 8 * 8 + (7 - p % 8)
  }

  /** The same step on a (byte, bit) pair. */
  lemma NextPosByByteAndBit(p: nat, big: bool)
    ensures var q := NextPos(p, big); var byte, bit := p / 8, p % 8;
      if big
      then q / 8 == (if bit == 0 then byte + 1 else byte) && q % 8 == (if bit == 0 then 7 else bit - 1)
      else q / 8 == (if bit == 7 then byte + 1 else byte) && q % 8 == (if bit == 7 then 0 else bit + 1)
  {
  }

  /** In walking order the positions are consecutive: the linear positions of a
      little-endian signal, the DBC indices of a big-endian one. */
  lemma {:induction false} PosIsConsecutive(start: nat, i: nat, big: bool)
    ensures !big ==> Pos(start, i, big) == start + i
    ensures big ==> DbcIndex(Pos(start, i, big)) == DbcIndex(start) + i
  {
    if i > 0 {
      PosIsConsecutive(start, i - 1, big);
      NextPosByByteAndBit(Pos(start, i - 1, big), big);
    }
  }

  /** A signal visits each of its bits once. */
  lemma PosInjective(start: nat, i: nat, j: nat, big: bool)
    requires Pos(start, i, big) == Pos(start, j, big)
    ensures i == j
  {
    PosIsConsecutive(start, i, big);
    PosIsConsecutive(start, j, big);
  }

  /** Every linear bit position a signal covers, in walking order. */
  function Occupied(enc: Encoding): (bits: seq<nat>)
    ensures |bits| == enc.bitLength
  {
    seq(enc.bitLength, i requires 0 <= i => Pos(enc.startBit, i, enc.byteOrder.BigEndian?))
  }

  /** `occupied_bits`: a range for little-endian, a walk over (byte, bit) pairs for
      big-endian. */
  method OccupiedBits(enc: Encoding) returns (bits: seq<nat>)
    ensures bits == Occupied(enc)
    ensures forall i, j :: 0 <= i < j < |bits| ==> bits[i] != bits[j]
  {
    if enc.byteOrder.LittleEndian? {
      bits := seq(enc.bitLength, i requires 0 <= i => enc.startBit + i);
      forall i | 0 <= i < enc.bitLength ensures bits[i] == Occupied(enc)[i] {
        PosIsConsecutive(enc.startBit, i, false);
      }
    } else {
      bits := [];
      var byte, bit := enc.startBit / 8, enc.startBit % 8;
      for i := 0 to enc.bitLength
        invariant byte == Pos(enc.startBit, i, true) / 8 && bit == Pos(enc.startBit, i, true) % 8
        invariant bits == Occupied(enc)[..i]
      {
        bits := bits + [byte * 8 + bit];
        NextPosByByteAndBit(Pos(enc.startBit, i, true), true);
        byte, bit := if bit == 0 then byte + 1 else byte, if bit == 0 then 7 else bit - 1;
      }
    }
    forall i, j | 0 <= i < j < |bits| ensures bits[i] != bits[j] {
      if bits[i] == bits[j] {
        PosInjective(enc.startBit, i, j, enc.byteOrder.BigEndian?);
      }
    }
  }
}
