/** The bit insertion and extraction helpers of the generated firmware library. */
module BitWalk {
  import opened Numbers
  import opened Bits
  import opened CanSpec

  type uint8 = b: nat | b < 256

  /** The bit at a linear position of a frame; false past its end. */
  predicate FrameBit(s: seq<uint8>, p: nat) {
    p / 8 < |s| && Bit(s[p / 8], p % 8)
  }

  /** A frame is determined by its bits. */
  lemma SameBitsSameFrame(s: seq<uint8>, t: seq<uint8>)
    requires |s| == |t| && forall p: nat :: p / 8 < |s| ==> FrameBit(s, p) == FrameBit(t, p)
    ensures s == t
  {
    forall b | 0 <= b < |s| ensures s[b] == t[b] {
      forall j: nat | j < 8 ensures Bit(s[b], j) == Bit(t[b], j) {
        assert FrameBit(s, 8 * b + j) == FrameBit(t, 8 * b + j);
      }
      SameBitsSameWord(s[b], t[b], 8);
    }
  }

  /** All bits walked lie inside a frame of `bytes` bytes. */
  ghost predicate Fits(start: nat, length: nat, big: bool, bytes: nat) {
    forall i: nat :: i < length ==> Pos(start, i, big) / 8 < bytes
  }

  /** Which bit of the value the `i`-th step of the walk handles: from the MSB for
      big-endian, from the LSB for little-endian. */
  function ValueBit(length: nat, i: nat, big: bool): nat
    requires i < length
  {
    if big then length - 1 - i else i
  }

  /** Writing `value` puts a one at frame position `p`. */
  ghost predicate Writes(start: nat, length: nat, value: int, big: bool, p: nat) {
    exists i: nat :: i < length && Pos(start, i, big) == p && Bit(value, ValueBit(length, i, big))
  }

  method Insert(dst: array<uint8>, start: nat, length: nat, value: int, big: bool)
    requires Fits(start, length, big, dst.Length)
    modifies dst
    ensures forall p: nat :: FrameBit(dst[..], p) == (FrameBit(old(dst[..]), p) || Writes(start, length, value, big, p))
  {
    var byte, bit := start / 8, start % 8;
    ghost var was := dst[..];
    for i := 0 to length
      invariant byte == Pos(start, i, big) / 8 && bit == Pos(start, i, big) % 8
      invariant forall p: nat ::
        FrameBit(dst[..], p) ==
        (FrameBit(was, p) || exists j: nat :: j < i && Pos(start, j, big) == p && Bit(value, ValueBit(length, j, big)))
    {
      var valueBit := if big then length - 1 - i else i;
      NextPosByByteAndBit(Pos(start, i, big), big);
      ghost var before := dst[..];
      if Bit(value, valueBit) {
        dst[byte] := SetBit(dst[byte], bit);
      }
      forall p: nat
        ensures FrameBit(dst[..], p) == (FrameBit(before, p) || (p == Pos(start, i, big) && Bit(value, valueBit)))
      {
      }
      if big {
        if bit == 0 { byte, bit := byte + 1, 7; } else { bit := bit - 1; }
      } else {
        if bit == 7 { byte, bit := byte + 1, 0; } else { bit := bit + 1; }
      }
    }
  }

  /** `b | (1 << k)` on a byte. */
  function SetBit(b: uint8, k: nat): (r: uint8)
    requires k < 8
    ensures forall j: nat :: Bit(r, j) == (j == k || Bit(b, j))
  {
    var r := WithBit(b, k);
    WithBitStaysSmall(b, k, 8);
    r
  }

  lemma {:induction false} WithBitStaysSmall(v: nat, k: nat, n: nat)
    requires v < Pow2(n) && k < n
    ensures WithBit(v, k) < Pow2(n)
  {
    if k > 0 {
      WithBitStaysSmall(v / 2, k - 1, n - 1);
    }
  }

  /** The raw number a signal's bits hold, least significant bit first. */
  function Field(s: seq<uint8>, start: nat, length: nat, big: bool): (r: nat)
    ensures r < Pow2(length)
    ensures forall j: nat :: Bit(r, j) == (j < length && FrameBit(s, Pos(start, ValueBit(length, j, big), big)))
  {
    FromBits(seq(length, j requires 0 <= j < length => FrameBit(s, Pos(start, ValueBit(length, j, big), big))))
  }

  /** `value` has the bits of the first `i` steps of the walk, and no others. */
  ghost predicate Gathered(value: nat, s: seq<uint8>, start: nat, length: nat, big: bool, i: nat) {
    && value < Pow2(length)
    && forall j: nat ::
      Bit(value, j) ==
      (j < length && ValueBit(length, j, big) < i && FrameBit(s, Pos(start, ValueBit(length, j, big), big)))
  }

  function Gather(value: nat, on: bool, k: nat): nat {
    if on then WithBit(value, k) else value
  }

  lemma GatherNext(value: nat, s: seq<uint8>, start: nat, length: nat, big: bool, i: nat)
    requires i < length && Gathered(value, s, start, length, big, i)
    ensures Gathered(
      Gather(value, FrameBit(s, Pos(start, i, big)), ValueBit(length, i, big)),
      s, start, length, big, i + 1)
  {
    WithBitStaysSmall(value, ValueBit(length, i, big), length);
    assert forall j: nat :: j < length ==> (ValueBit(length, j, big) == i <==> j == ValueBit(length, i, big));
  }

  lemma GatherNone(s: seq<uint8>, start: nat, length: nat, big: bool)
    ensures Gathered(0, s, start, length, big, 0)
  {
    forall j: nat ensures !Bit(0, j) { ZeroHasNoBits(j); }
  }

  lemma GatherAll(value: nat, s: seq<uint8>, start: nat, length: nat, big: bool)
    requires Gathered(value, s, start, length, big, length)
    ensures value == Field(s, start, length, big)
  {
    SameBitsSameWord(value, Field(s, start, length, big), length);
  }

  method Extract(src: array<uint8>, start: nat, length: nat, big: bool) returns (value: nat)
    requires Fits(start, length, big, src.Length)
    ensures value == Field(src[..], start, length, big)
  {
    value := 0;
    GatherNone(src[..], start, length, big);
    var byte, bit := start / 8, start % 8;
    for i := 0 to length
      invariant byte == Pos(start, i, big) / 8 && bit == Pos(start, i, big) % 8
      invariant Gathered(value, src[..], start, length, big, i)
    {
      NextPosByByteAndBit(Pos(start, i, big), big);
      GatherNext(value, src[..], start, length, big, i);
      value := Gather(value, Bit(src[byte], bit), if big then length - 1 - i else i);
      if big {
        if bit == 0 { byte, bit := byte + 1, 7; } else { bit := bit - 1; }
      } else {
        if bit == 7 { byte, bit := byte + 1, 0; } else { bit := bit + 1; }
      }
    }
    GatherAll(value, src[..], start, length, big);
  }

  /** Flips and subtracts the sign bit in unsigned 64-bit arithmetic, then casts: the
      number that the low bits stand for in two's complement. */
  method SignExtend(value: nat, length: nat) returns (r: int)
    requires 1 <= length <= 64 && value < Pow2(length)
    ensures r == SignedOf(value, length)
  {
    var signBit := Pow2(length - 1);
    FlipTopBit(value, length - 1);
    SignBitFits(length);
    var wrapped := (FlipBit(value, length - 1) - signBit) % TWO_TO_64;
    CastBack(FlipBit(value, length - 1) - signBit);
    r := if wrapped >= TWO_TO_63 then wrapped - TWO_TO_64 else wrapped;
  }

  /** A number of 64 signed bits survives the detour through unsigned ones. */
  lemma CastBack(n: int)
    requires -TWO_TO_63 <= n < TWO_TO_63
    ensures var wrapped := n % TWO_TO_64; n == if wrapped >= TWO_TO_63 then wrapped - TWO_TO_64 else wrapped
  {
  }

  lemma SignBitFits(length: nat)
    requires 1 <= length <= 64
    ensures Pow2(length - 1) <= TWO_TO_63
  {
    WordPowers(16, 32, 64);
    Pow2Monotone(length - 1, 63);
  }
}
