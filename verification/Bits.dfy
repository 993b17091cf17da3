/** Bits of mathematical integers.

A machine word is modelled by the integer it stands for. Bit `i` of an integer is
read by halving, so a negative number has the bits of its (infinite) two's
complement form: that is what a C++ cast of a signed field to `uint64_t` keeps. */
module Bits {
  import opened Numbers

  function Pow2(n: nat): (r: int)
    ensures r >= 1
  {
    if n == 0 then 1 else 2 * Pow2(n - 1)
  }

  /** `((v >> i) & 1) != 0`. */
  predicate Bit(v: int, i: nat)
    decreases i
  {
    if i == 0 then v % 2 == 1 else Bit(v / 2, i - 1)
  }

  /** `v | (1 << i)`. */
  function WithBit(v: int, i: nat): (r: int)
    ensures forall j: nat :: Bit(r, j) == (j == i || Bit(v, j))
    ensures 0 <= v ==> 0 <= r
    decreases i
  {
    if i == 0 then
      if v % 2 == 1 then v else v + 1
    else
      2 * WithBit(v / 2, i - 1) + v % 2
  }

  /** `v ^ (1 << i)`. */
  function FlipBit(v: int, i: nat): (r: int)
    ensures forall j: nat :: Bit(r, j) == (if j == i then !Bit(v, j) else Bit(v, j))
    decreases i
  {
    if i == 0 then
      if v % 2 == 1 then v - 1 else v + 1
    else
      2 * FlipBit(v / 2, i - 1) + v % 2
  }

  /** The number whose bit `j` is `b[j]`. */
  function FromBits(b: seq<bool>): (r: nat)
    ensures r < Pow2(|b|)
    ensures forall j: nat :: Bit(r, j) == (j < |b| && b[j])
  {
    if b == [] then
      assert forall j: nat :: !Bit(0, j) by { forall j: nat { ZeroHasNoBits(j); } }
      0
    else
      var t := FromBits(b[1..]);
      (if b[0] then 1 else 0) + 2 * t
  }

  lemma {:induction false} ZeroHasNoBits(j: nat)
    ensures !Bit(0, j)
  {
    if j > 0 {
      ZeroHasNoBits(j - 1);
    }
  }

  /** The recursive reading of a bit is the shift-and-mask reading. */
  lemma {:induction false} BitIsShiftAndMask(v: int, i: nat)
    ensures Bit(v, i) == (v / Pow2(i) % 2 == 1)
    decreases i
  {
    if i > 0 {
      BitIsShiftAndMask(v / 2, i - 1);
      DivDiv(v, Pow2(i - 1));
    }
  }

  lemma DivDiv(v: int, d: int)
    requires d > 0
    ensures v / 2 / d == v / (2 * d)
  {
    var q := v / 2 / d;
    var r := v / 2 % d;
    assert v / 2 == q * d + r;
    assert v == 2 * (q * d + r) + v % 2;
    assert v == q * (2 * d) + (2 * r + v % 2);
    DivUnique(v, 2 * d, q, 2 * r + v % 2);
  }

  lemma DivUnique(v: int, d: int, q: int, r: int)
    requires d > 0 && 0 <= r < d && v == q * d + r
    ensures v / d == q && v % d == r
  {
    var q', r' := v / d, v % d;
    assert v == q' * d + r';
    if q > q' {
      MulAtLeast(q - q', d);
    } else if q < q' {
      MulAtLeast(q' - q, d);
    }
  }

  lemma MulAtLeast(k: int, d: int)
    requires k >= 1 && d > 0
    ensures k * d >= d
  {
  }

  /** A word is determined by its bits. */
  lemma {:induction false} SameBitsSameWord(v: nat, w: nat, n: nat)
    requires v < Pow2(n) && w < Pow2(n)
    requires forall j: nat :: j < n ==> Bit(v, j) == Bit(w, j)
    ensures v == w
  {
    if n > 0 {
      forall j: nat | j < n - 1
        ensures Bit(v / 2, j) == Bit(w / 2, j)
      {
        assert Bit(v, j + 1) == Bit(w, j + 1);
      }
      SameBitsSameWord(v / 2, w / 2, n - 1);
      assert Bit(v, 0) == Bit(w, 0);
    }
  }

  /** Bits at and above position `n` of a number below `2^n` are clear. */
  lemma {:induction false} HighBitsClear(v: nat, n: nat, j: nat)
    requires v < Pow2(n) && n <= j
    ensures !Bit(v, j)
    decreases j
  {
    if n == 0 {
      ZeroHasNoBits(j);
    } else {
      HighBitsClear(v / 2, n - 1, j - 1);
    }
  }

  // ---- casts ------------------------------------------------------------

  /** A cast to an unsigned type of `n` bits. */
  function LowBits(v: int, n: nat): (r: nat)
    ensures r < Pow2(n)
    ensures forall j: nat :: Bit(r, j) == (j < n && Bit(v, j))
    decreases n
  {
    if n == 0 then
      assert forall j: nat :: !Bit(0, j) by { forall j: nat { ZeroHasNoBits(j); } }
      0
    else
      v % 2 + 2 * LowBits(v / 2, n - 1)
  }

  /** The signed number that `n` bits in two's complement stand for. */
  function SignedOf(u: nat, n: nat): int
    requires n > 0
  {
    if u >= Pow2(n - 1) then u - Pow2(n) else u
  }

  /** A cast to a signed type of `n` bits. */
  function SignedCast(v: int, n: nat): int
    requires n > 0
  {
    SignedOf(LowBits(v, n), n)
  }

  /** An unsigned cast is the residue modulo 2^n. */
  lemma {:induction false} LowBitsIsModulo(v: int, n: nat)
    ensures LowBits(v, n) == v % Pow2(n)
    decreases n
  {
    if n == 0 {
      assert v % 1 == 0;
    } else {
      LowBitsIsModulo(v / 2, n - 1);
      var m := Pow2(n - 1);
      assert v / 2 == (v / 2 / m) * m + v / 2 % m;
      assert v == 2 * (v / 2) + v % 2;
      assert 2 * ((v / 2 / m) * m) == (v / 2 / m) * (2 * m);
      DivUnique(v, 2 * m, v / 2 / m, 2 * (v / 2 % m) + v % 2);
    }
  }

  /** An unsigned cast keeps exactly the values below 2^n. */
  lemma {:induction false} LowBitsKeeps(v: int, n: nat)
    ensures LowBits(v, n) == v <==> 0 <= v < Pow2(n)
    decreases n
  {
    if n > 0 {
      LowBitsKeeps(v / 2, n - 1);
    }
  }

  /** An unsigned cast adds 2^n to a negative number that small. */
  lemma {:induction false} LowBitsOfSmallNegative(v: int, n: nat)
    requires -Pow2(n) <= v < 0
    ensures LowBits(v, n) == v + Pow2(n)
    decreases n
  {
    if n > 0 {
      LowBitsOfSmallNegative(v / 2, n - 1);
    }
  }

  /** A signed cast keeps exactly the two's complement range. */
  lemma SignedCastKeeps(v: int, n: nat)
    requires n > 0
    ensures SignedCast(v, n) == v <==> -Pow2(n - 1) <= v < Pow2(n - 1)
  {
    LowBitsKeeps(v, n);
    if -Pow2(n) <= v < 0 {
      LowBitsOfSmallNegative(v, n);
    }
  }

  lemma {:induction false} Pow2Monotone(m: nat, n: nat)
    requires m <= n
    ensures Pow2(m) <= Pow2(n)
  {
    if m < n {
      Pow2Monotone(m, n - 1);
    }
  }

  /** Flipping the top bit of an `n+1`-bit word adds or removes its weight. */
  lemma {:induction false} FlipTopBit(v: nat, n: nat)
    requires v < Pow2(n + 1)
    ensures Bit(v, n) <==> v >= Pow2(n)
    ensures FlipBit(v, n) == if v >= Pow2(n) then v - Pow2(n) else v + Pow2(n)
  {
    if n > 0 {
      FlipTopBit(v / 2, n - 1);
    }
  }

  /** Two's complement repeats the sign bit upwards. */
  lemma {:induction false} SignedOfBits(u: nat, n: nat, j: nat)
    requires 0 < n && u < Pow2(n)
    ensures Bit(SignedOf(u, n), j) == Bit(u, if j < n then j else n - 1)
    decreases j
  {
    if j > 0 {
      if n > 1 {
        SignedOfBits(u / 2, n - 1, j - 1);
      } else {
        SignedOfBits(u, n, j - 1);
      }
    }
  }

  ghost predicate SameBits(v: int, w: int, n: nat) {
    forall j: nat :: j < n ==> Bit(v, j) == Bit(w, j)
  }

  /** A signed word reads as `v` exactly when it has the bits of `v`. */
  lemma SignedWordIsValue(w: nat, n: nat, v: int)
    requires 0 < n && w < Pow2(n) && -Pow2(n - 1) <= v < Pow2(n - 1)
    ensures SignedOf(w, n) == v <==> SameBits(w, v, n)
  {
    SignedCastKeeps(v, n);
    if SameBits(w, v, n) {
      SameBitsSameWord(w, LowBits(v, n), n);
    }
    if SignedOf(w, n) == v {
      forall j: nat | j < n ensures Bit(w, j) == Bit(v, j) {
        SignedOfBits(w, n, j);
      }
    }
  }

  lemma {:induction false} Pow2Doubled(n: nat)
    ensures Pow2(n + n) == Pow2(n) * Pow2(n)
  {
    if n > 0 {
      Pow2Doubled(n - 1);
      var p := Pow2(n - 1);
      assert Pow2(n + n) == 2 * Pow2(n + n - 1) == 4 * Pow2((n - 1) + (n - 1)) == 4 * (p * p);
      assert (2 * p) * (2 * p) == 4 * (p * p);
    }
  }

  lemma Pow2Bytes(n: nat)
    ensures Pow2(n + 8) == 256 * Pow2(n)
  {
    assert Pow2(n + 8) == 2 * Pow2(n + 7) == 4 * Pow2(n + 6) == 8 * Pow2(n + 5) == 16 * Pow2(n + 4);
    assert Pow2(n + 4) == 2 * Pow2(n + 3) == 4 * Pow2(n + 2) == 8 * Pow2(n + 1) == 16 * Pow2(n);
  }

  lemma BytePowers()
    ensures Pow2(7) == 128 && Pow2(8) == 256
  {
    assert Pow2(4) == 16;
    assert Pow2(7) == 8 * Pow2(4);
  }

  /** The ranges of the machine's words. */
  lemma WordPowers(half: nat, word: nat, double: nat)
    requires half == 16 && word == 2 * half && double == 2 * word
    ensures Pow2(half) == 0x1_0000 && Pow2(word) == TWO_TO_32 && Pow2(double) == TWO_TO_64
    ensures Pow2(double - 1) == TWO_TO_63
  {
    BytePowers();
    Pow2Doubled(8);
    Pow2Doubled(half);
    Pow2Doubled(word);
  }
}
