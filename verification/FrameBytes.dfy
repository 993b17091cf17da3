/** What a field's bits mean in bytes: which end of a number comes first. */
module FrameBytes {
  import opened Numbers
  import opened Bits
  import opened CanSpec
  import opened BitWalk

  // ---- numbers in bytes -----------------------------------------------------

  /** `from_le_bytes`. */
  function LittleEndianValue(bytes: seq<uint8>): nat {
    if bytes == [] then 0 else bytes[0] + 256 * LittleEndianValue(bytes[1..])
  }

  /** `from_be_bytes`. */
  function BigEndianValue(bytes: seq<uint8>): nat {
    if bytes == [] then 0 else 256 * BigEndianValue(bytes[..|bytes| - 1]) + bytes[|bytes| - 1]
  }

  lemma {:induction false} LowPart(x: nat, y: nat, k: nat, j: nat)
    requires x < Pow2(k)
    ensures Bit(x + Pow2(k) * y, j) == if j < k then Bit(x, j) else Bit(y, j - k)
    decreases k
  {
    if k > 0 {
      var p := Pow2(k - 1);
      assert Pow2(k) * y == 2 * (p * y);
      assert (x + 2 * (p * y)) / 2 == x / 2 + p * y;
      if j > 0 {
        LowPart(x / 2, y, k - 1, j - 1);
      }
    }
  }

  lemma {:induction false} LittleEndianBits(bytes: seq<uint8>, j: nat)
    ensures Bit(LittleEndianValue(bytes), j) == FrameBit(bytes, j)
    ensures LittleEndianValue(bytes) < Pow2(8 * |bytes|)
    decreases |bytes|
  {
    if bytes == [] {
      ZeroHasNoBits(j);
    } else {
      var rest := bytes[1..];
      assert Pow2(8) == 256;
      LowPart(bytes[0], LittleEndianValue(rest), 8, j);
      LittleEndianBits(rest, if j >= 8 then j - 8 else 0);
      Pow2Bytes(8 * |rest|);
      if j >= 8 {
        assert j / 8 < |bytes| ==> rest[(j - 8) / 8] == bytes[j / 8];
      }
    }
  }

  /** The bits of a little-endian field. */
  lemma FieldBits(s: seq<uint8>, start: nat, n: nat, j: nat)
    ensures Bit(Field(s, start, n, false), j) == (j < n && FrameBit(s, start + j))
  {
    if j < n {
      PosIsConsecutive(start, j, false);
      assert Bit(Field(s, start, n, false), j) == FrameBit(s, Pos(start, ValueBit(n, j, false), false));
    }
  }

  /** Whole bytes read in little-endian order are the field of their bits. */
  lemma BytesAreField(s: seq<uint8>, b: nat, n: nat)
    requires b + n <= |s|
    ensures LittleEndianValue(s[b..b + n]) == Field(s, 8 * b, 8 * n, false)
  {
    var got := LittleEndianValue(s[b..b + n]);
    var want := Field(s, 8 * b, 8 * n, false);
    forall j: nat | j < 8 * n ensures Bit(got, j) == Bit(want, j) {
      LittleEndianBits(s[b..b + n], j);
      FieldBits(s, 8 * b, 8 * n, j);
      BitOfSlice(s, b, n, j);
    }
    LittleEndianBits(s[b..b + n], 0);
    SameBitsSameWord(got, want, 8 * n);
  }

  lemma BitOfSlice(s: seq<uint8>, b: nat, n: nat, j: nat)
    requires b + n <= |s| && j < 8 * n
    ensures FrameBit(s[b..b + n], j) == FrameBit(s, 8 * b + j)
  {
    assert (8 * b + j) / 8 == b + j / 8 && (8 * b + j) % 8 == j % 8;
  }

  lemma {:induction false} BigEndianBits(bytes: seq<uint8>, j: nat)
    ensures BigEndianValue(bytes) < Pow2(8 * |bytes|)
    ensures Bit(BigEndianValue(bytes), j) == (j / 8 < |bytes| && Bit(bytes[|bytes| - 1 - j / 8], j % 8))
  {
    if bytes == [] {
      ZeroHasNoBits(j);
    } else {
      var n := |bytes|;
      var rest := bytes[..n - 1];
      BytePowers();
      LowPart(bytes[n - 1], BigEndianValue(rest), 8, j);
      BigEndianBits(rest, if j >= 8 then j - 8 else 0);
      Pow2Bytes(8 * |rest|);
      if j >= 8 {
        assert (j - 8) / 8 == j / 8 - 1 && (j - 8) % 8 == j % 8;
      }
    }
  }

  // ---- the bits of a field --------------------------------------------------

  /** The position with a given DBC index. */
  function FromDbc(index: nat): nat {
    index / 8 * 8 + (7 - index % 8)
  }

  lemma DbcIsInvertible(p: nat)
    ensures DbcIndex(p) >= 0 && FromDbc(DbcIndex(p)) == p
  {
    var byte, bit := p / 8, p % 8;
    assert p == 8 * byte + bit && DbcIndex(p) == 8 * byte + (7 - bit);
  }

  lemma PosFromDbc(start: nat, i: nat)
    ensures DbcIndex(start) >= 0 && Pos(start, i, true) == FromDbc(DbcIndex(start) + i)
  {
    PosIsConsecutive(start, i, true);
    DbcIsInvertible(start);
    DbcIsInvertible(Pos(start, i, true));
  }

  /** Bit `j` of a big-endian field lies `j` places before the last one in DBC order: the
      start bit is the most significant. */
  lemma BigFieldBits(s: seq<uint8>, start: nat, n: nat, j: nat)
    requires j < n
    ensures DbcIndex(start) >= 0
    ensures Bit(Field(s, start, n, true), j) == FrameBit(s, FromDbc(DbcIndex(start) + (n - 1 - j)))
  {
    PosFromDbc(start, n - 1 - j);
    assert Bit(Field(s, start, n, true), j) == FrameBit(s, Pos(start, ValueBit(n, j, true), true));
  }

  /** Whole bytes read from the top bit of the first one are their big-endian number. */
  lemma BigBytesAreField(s: seq<uint8>, b: nat, n: nat)
    requires b + n <= |s|
    ensures Field(s, 8 * b + 7, 8 * n, true) == BigEndianValue(s[b..b + n])
  {
    var got, want := Field(s, 8 * b + 7, 8 * n, true), BigEndianValue(s[b..b + n]);
    BigEndianBits(s[b..b + n], 0);
    forall j: nat | j < 8 * n ensures Bit(got, j) == Bit(want, j) {
      BigEndianBits(s[b..b + n], j);
      BigFieldBits(s, 8 * b + 7, 8 * n, j);
      BigFieldByte(s, b, n, j / 8, j % 8);
      assert 8 * (j / 8) + j % 8 == j;
    }
    SameBitsSameWord(got, want, 8 * n);
  }

  lemma BigFieldByte(s: seq<uint8>, b: nat, n: nat, q: nat, r: nat)
    requires b + n <= |s| && q < n && r < 8
    ensures DbcIndex(8 * b + 7) == 8 * b
    ensures FrameBit(s, FromDbc(8 * b + (8 * n - 1 - (8 * q + r)))) == Bit(s[b..b + n][n - 1 - q], r)
  {
    var byte := b + (n - 1 - q);
    assert 8 * b + (8 * n - 1 - (8 * q + r)) == 8 * byte + (7 - r);
    DbcOfByte(byte, 7 - r);
    BitOfByte(s, byte, r);
    assert s[b..b + n][n - 1 - q] == s[byte];
  }

  lemma BitOfByte(s: seq<uint8>, byte: nat, r: nat)
    requires byte < |s| && r < 8
    ensures FrameBit(s, 8 * byte + r) == Bit(s[byte], r)
  {
  }

  lemma DbcOfByte(byte: nat, k: nat)
    requires k < 8
    ensures DbcIndex(8 * byte + 7) == 8 * byte
    ensures FromDbc(8 * byte + k) == 8 * byte + (7 - k)
  {
  }

  // ---- what Insert leaves ---------------------------------------------------

  /** The frame is what `Insert` makes of a cleared one. */
  ghost predicate InsertedAlone(s: seq<uint8>, start: nat, length: nat, value: int, big: bool) {
    Fits(start, length, big, |s|) && forall p: nat :: FrameBit(s, p) == Writes(start, length, value, big, p)
  }

  /** Reading back gives the low bits of the value. */
  lemma InsertedIsField(s: seq<uint8>, start: nat, length: nat, value: int, big: bool)
    requires InsertedAlone(s, start, length, value, big)
    ensures Field(s, start, length, big) == LowBits(value, length)
  {
    var got, want := Field(s, start, length, big), LowBits(value, length);
    forall j: nat | j < length ensures Bit(got, j) == Bit(want, j) {
      var step := ValueBit(length, j, big);
      assert ValueBit(length, step, big) == j;
      WritesAtOwn(start, length, value, big, step);
    }
    SameBitsSameWord(got, want, length);
  }

  lemma WritesAtOwn(start: nat, length: nat, value: int, big: bool, step: nat)
    requires step < length
    ensures Writes(start, length, value, big, Pos(start, step, big)) == Bit(value, ValueBit(length, step, big))
  {
    if i: nat :| i < length && Pos(start, i, big) == Pos(start, step, big) && Bit(value, ValueBit(length, i, big)) {
      PosInjective(start, i, step, big);
    }
  }

  /** Inserted into whole cleared bytes a number is stored most significant byte first in
      big-endian order and least significant byte first in little-endian order. */
  lemma InsertedBytes(s: seq<uint8>, b: nat, n: nat, value: nat)
    requires value < Pow2(8 * n) && b + n <= |s|
    ensures InsertedAlone(s, 8 * b + 7, 8 * n, value, true) ==> BigEndianValue(s[b..b + n]) == value
    ensures InsertedAlone(s, 8 * b, 8 * n, value, false) ==> LittleEndianValue(s[b..b + n]) == value
  {
    LowBitsKeeps(value, 8 * n);
    BigBytesAreField(s, b, n);
    BytesAreField(s, b, n);
    if InsertedAlone(s, 8 * b + 7, 8 * n, value, true) {
      InsertedIsField(s, 8 * b + 7, 8 * n, value, true);
    }
    if InsertedAlone(s, 8 * b, 8 * n, value, false) {
      InsertedIsField(s, 8 * b, 8 * n, value, false);
    }
  }
}
