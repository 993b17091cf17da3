/** The protobuf type a telemetry field has off the vehicle. */
module WireTypes {
  import opened Wrappers
  import opened Numbers
  import opened Bits
  import opened CanSpec

  datatype ProtoType =
    | Float | Double | Int32 | Uint32 | Int64 | Uint64 | Bool | String | Bytes
    | EnumType(name: string)

  /** The meaning layer of a signal that is not a bitfield. */
  datatype Logical = PhysicalUnit(unit: string) | EnumRef(name: string) | Flag

  /** What producers sharing a field must have in common. */
  datatype Contract = Contract(
    bitLength: nat, sign: Sign, scale: real, offset: real,
    logical: Logical, muxSelector: bool, wireType: Option<ProtoType>)

  /** The least and the greatest physical value of an unscaled signal. */
  function Lowest(c: Contract): int
    requires c.bitLength > 0
  {
    RawMin(c.bitLength, c.sign) + c.offset.Floor
  }

  function Highest(c: Contract): int
    requires c.bitLength > 0
  {
    RawMax(c.bitLength, c.sign) + c.offset.Floor
  }

  predicate Unscaled(c: Contract) {
    c.scale == 1.0 && c.offset == c.offset.Floor as real
  }

  function IntegerType(lo: int, hi: int): ProtoType {
    if lo >= 0 then if hi <= U32_MAX then Uint32 else Uint64
    else if lo >= -TWO_TO_31 && hi <= TWO_TO_31 - 1 then Int32
    else Int64
  }

  /** `proto_type`: derived from the encoding and the logical kind. */
  function DerivedType(c: Contract): ProtoType
    requires c.bitLength > 0
  {
    match c.logical
    case Flag => Bool
    case EnumRef(name) => EnumType(name)
    case PhysicalUnit(_) =>
      if Unscaled(c) then IntegerType(Lowest(c), Highest(c))
      else if c.bitLength <= 24 then Float else Double
  }

  /** A deployed field's override wins. */
  function ElementType(c: Contract, isBit: bool): ProtoType
    requires c.bitLength > 0
  {
    if c.wireType.Some? then c.wireType.value else if isBit then Bool else DerivedType(c)
  }

  /** An override decides; else bits and flags are bool, and nothing but an enum has the
      enum's type. */
  lemma ElementTypeMeaning(c: Contract, isBit: bool)
    requires c.bitLength > 0
    ensures c.wireType.Some? ==> Some(ElementType(c, isBit)) == c.wireType
    ensures c.wireType.None? ==> var t := ElementType(c, isBit);
      && (t == Bool <==> isBit || c.logical == Flag)
      && (forall name :: t == EnumType(name) <==> !isBit && c.logical == EnumRef(name))
      && t != String && t != Bytes
  {
  }

  predicate Holds(t: ProtoType, lo: int, hi: int) {
    match t
    case Uint32 => 0 <= lo && hi < TWO_TO_32
    case Int32 => -TWO_TO_31 <= lo && hi < TWO_TO_31
    case Uint64 => 0 <= lo && hi < TWO_TO_64
    case Int64 => -TWO_TO_63 <= lo && hi < TWO_TO_63
    case _ => false
  }

  /** The derived integer type holds the range of an unscaled signal exactly when it fits
      64 unsigned or 64 signed bits, which is when some protobuf integer type holds it; and
      it is a 32-bit one whenever that is enough. */
  lemma IntegerTypeIsSmallest(lo: int, hi: int)
    requires lo <= hi
    ensures Holds(IntegerType(lo, hi), lo, hi) <==>
      (0 <= lo && hi < TWO_TO_64) || (-TWO_TO_63 <= lo && hi < TWO_TO_63)
    ensures Holds(IntegerType(lo, hi), lo, hi) <==> exists t: ProtoType :: Holds(t, lo, hi)
    ensures Holds(Uint32, lo, hi) || Holds(Int32, lo, hi) ==>
      IntegerType(lo, hi) == Uint32 || IntegerType(lo, hi) == Int32
  {
    if t: ProtoType :| Holds(t, lo, hi) {
      assert (lo >= 0 && hi < TWO_TO_64) || (-TWO_TO_63 <= lo && hi < TWO_TO_63);
    }
  }

  /** It is unsigned exactly for a range without negative numbers. */
  lemma IntegerTypeSign(lo: int, hi: int)
    ensures IntegerType(lo, hi) == Uint32 || IntegerType(lo, hi) == Uint64 <==> 0 <= lo
  {
  }

  /** A scaled signal is a float exactly when it has no more raw numbers than a float has
      consecutive integers. */
  lemma FloatIffMantissaHolds(c: Contract)
    requires c.bitLength > 0 && c.logical.PhysicalUnit? && !Unscaled(c)
    ensures DerivedType(c) == Float || DerivedType(c) == Double
    ensures DerivedType(c) == Float <==> RawMax(c.bitLength, c.sign) - RawMin(c.bitLength, c.sign) < 0x100_0000
  {
    BytePowers();
    Pow2Bytes(8);
    Pow2Bytes(16);
    if c.bitLength <= 24 {
      Pow2Monotone(c.bitLength, 24);
    } else {
      Pow2Monotone(25, c.bitLength);
    }
  }

  /** Not every unscaled signal has such a type: 64 unsigned bits and an offset of -1. */
  lemma OffsetCanOverflowType()
    ensures var c := Contract(64, Unsigned, 1.0, -1.0, PhysicalUnit(""), false, None);
      DerivedType(c) == Int64 && !Holds(Int64, Lowest(c), Highest(c))
  {
    WideRange(Contract(64, Unsigned, 1.0, -1.0, PhysicalUnit(""), false, None));
    assert (-1.0).Floor == -1;
  }

  lemma WideRange(c: Contract)
    requires c.bitLength == 64 && c.sign.Unsigned?
    ensures RawMin(c.bitLength, c.sign) == 0 && RawMax(c.bitLength, c.sign) == TWO_TO_64 - 1
  {
    WordPowers(16, 32, c.bitLength);
  }
}
