// The second set of conversion helpers (scripts/binary.js): a loop-based
// minimum width and two zero-padding encoders. Each loop of the source is a
// `while` loop here, proved against the specification functions of Radix.

module BinaryDraft {
  import opened Radix
  import Binary

  /** `Number.prototype.toString(2)` on an integer: a minus sign before the
      digits of the magnitude when negative. */
  function JsBinaryString(n: int): (r: string)
    ensures n >= 0 ==> r == ToBinary(n)
    ensures n < 0 ==> r == "-" + ToBinary(-n)
    ensures n >= 0 ==> AllBits(r) && Value(r) == n
    ensures n < 0 ==> r[0] == '-' && AllBits(r[1..]) && Value(r[1..]) == -n
  {
    if n < 0 then "-" + ToBinary(-n) else ToBinary(n)
  }

  // ---------------------------------------------------------------------------
  // Minimum width

  /** `w` is the least width, at least 2, whose two's-complement range
      [-2^(w-1), 2^(w-1)) holds `n`. */
  ghost predicate IsMinimalSignedWidth(n: int, w: nat) {
    && w >= 2
    && -Pow2(w - 1) <= n < Pow2(w - 1)
    && (w > 2 ==> n < -Pow2(w - 2))
  }

  /** `getMinimumBitCount`: the digit count (at least 1) of a non-negative
      number, which is the unsigned width `calculateBitCount` picks; for a
      negative number, the width found by counting up from 2 until -2^(w-1)
      reaches it, then (a second loop) until the whole signed range does. */
  method GetMinimumBitCount(number: int) returns (r: nat)
    ensures number >= 0 ==> r == Binary.CalculateBitCount(number, false)
    ensures number >= 0 ==> number < Pow2(r) && (r > 1 ==> Pow2(r - 1) <= number)
    ensures number < 0 ==> IsMinimalSignedWidth(number, r)
  {
    if number >= 0 {
      r := Max(1, |ToBinary(number)|);
      if number > 0 {
        BitLengthBounds(number);
      }
    } else {
      var n: nat := 2;
      while number < -Pow2(n - 1)
        invariant n >= 2
        invariant n == 2 || number < -Pow2(n - 2)
        decreases -number - n
      {
        Pow2ExceedsExponent(n - 1);
        n := n + 1;
      }
      while number < -Pow2(n - 1) || number >= Pow2(n - 1)
        invariant n >= 2
        invariant n == 2 || number < -Pow2(n - 2)
        decreases -number - n
      {
        Pow2ExceedsExponent(n - 1);
        n := n + 1;
      }
      r := n;
    }
  }

  /** `a` is a power of two. */
  ghost predicate IsPowerOfTwo(a: nat) {
    a >= 1 && a == Pow2(BitLength(a) - 1)
  }

  /** For a negative number the two widths agree, except when its magnitude
      is a power of two of at least 2 (-2, -4, -128, ...): `calculateBitCount`
      then spends one bit more than the minimum. */
  lemma MinimumVersusCalculated(n: int, r: nat)
    requires n < 0 && IsMinimalSignedWidth(n, r)
    ensures var a := -n;
      r == Binary.CalculateBitCount(n, true) - (if IsPowerOfTwo(a) && a >= 2 then 1 else 0)
  {
    var a := -n;
    BitLengthBounds(a);
    var b := BitLength(a);
    assert Binary.CalculateBitCount(n, true) == b + 1;
    if a == 1 {
      assert b == 1 && IsPowerOfTwo(a);
    } else if a == Pow2(b - 1) {
      assert b >= 2;
      if r < b {
        Pow2Monotone(r - 1, b - 1);
      } else if r > b {
        Pow2Monotone(b - 1, r - 2);
      }
    } else {
      assert !IsPowerOfTwo(a);
      if r < b + 1 {
        Pow2Monotone(r - 1, b - 1);
      } else if r > b + 1 {
        Pow2Monotone(b, r - 2);
      }
    }
  }

  // ---------------------------------------------------------------------------
  // Zero-padded encoders

  /** The loop both encoders share: prepend "0" while shorter than `bitCount`. */
  method PrependZeros(digits: string, bitCount: int) returns (bin: string)
    ensures bin == PadStart(digits, bitCount)
  {
    bin := digits;
    while |bin| < bitCount
      invariant |bin| >= |digits| && |bin| <= Max(bitCount, |digits|)
      invariant bin == Repeat('0', |bin| - |digits|) + digits
      decreases bitCount - |bin|
    {
      assert "0" + Repeat('0', |bin| - |digits|) == Repeat('0', |bin| + 1 - |digits|);
      bin := "0" + bin;
    }
  }

  /** `toBinaryString`: the digits of `number`, zero-padded on the left to
      `bitCount`; for a non-negative number a bit string of the same value. */
  method ToBinaryString(number: int, bitCount: int) returns (r: string)
    ensures r == PadStart(JsBinaryString(number), bitCount)
    ensures number >= 0 ==>
      && AllBits(r)
      && Value(r) == number
      && |r| == Max(bitCount, |ToBinary(number)|)
    ensures 0 <= number < Pow2(Max(bitCount, 0)) && bitCount >= 1 ==> |r| == bitCount
  {
    var bin := JsBinaryString(number);
    r := PrependZeros(bin, bitCount);
    if number >= 0 {
      ValuePadStart(bin, bitCount);
      if number > 0 && bitCount >= 1 && number < Pow2(bitCount) {
        BitLengthAtMost(number, bitCount);
      }
    }
  }

  /** `toTwosComplement`: the digits of 2^bitCount + number, zero-padded to
      `bitCount`. For -2^(w-1) <= number < 0 that is exactly the w-bit two's
      complement: w digits, leading '1', decoding back to `number`. */
  method ToTwosComplement(number: int, bitCount: nat) returns (r: string)
    ensures r == PadStart(JsBinaryString(Pow2(bitCount) + number), bitCount)
    ensures -Pow2(bitCount) <= number ==>
      && AllBits(r)
      && Value(r) == Pow2(bitCount) + number
      && |r| == Max(bitCount, |ToBinary(Pow2(bitCount) + number)|)
    ensures bitCount >= 1 && -Pow2(bitCount) <= number < 0 ==> |r| == bitCount
    ensures bitCount >= 1 && -Pow2(bitCount - 1) <= number < 0 ==>
      r[0] == '1' && Binary.BinaryToDecimal(r, true) == number
  {
    var max := Pow2(bitCount);
    var val := max + number;
    var bin := JsBinaryString(val);
    r := PrependZeros(bin, bitCount);
    if val >= 0 {
      ValuePadStart(bin, bitCount);
      if bitCount >= 1 && number < 0 {
        if val > 0 {
          BitLengthAtMost(val, bitCount);
        }
        if -Pow2(bitCount - 1) <= number {
          if r[0] != '1' {
            ValueLeadingZero(r);
          }
        }
      }
    }
  }

  /** The helpers used together: the minimum width, then the unsigned or
      two's-complement digits at that width, give a string `binaryToDecimal`
      reads back as the number and `checkAnswer` accepts for it. */
  method EncodeAtMinimumWidth(number: int) returns (bin: string)
    ensures AllBits(bin)
    ensures Binary.BinaryToDecimal(bin, number < 0) == number
    ensures Binary.CheckAnswer(bin, number)
    ensures number >= 0 ==> |bin| == Binary.CalculateBitCount(number, false)
  {
    var w := GetMinimumBitCount(number);
    if number >= 0 {
      bin := ToBinaryString(number, w);
    } else {
      bin := ToTwosComplement(number, w);
      assert -Pow2(w) <= number by { Pow2Monotone(w - 1, w); }
    }
  }
}
