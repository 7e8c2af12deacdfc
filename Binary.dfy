/**
 * The conversion library of the quiz (scripts/binary.ts): decimal to binary,
 * binary to decimal (unsigned or two's complement), bit widths, validation,
 * answer checking, grouped formatting, the learning sequence and its hints.
 */
module Binary {
  import opened Options
  import opened Radix

  /** What `decimalToBinary` returns. */
  datatype BinaryConversion = BinaryConversion(decimal: int, binary: string, bitCount: nat, isSigned: bool)

  function Abs(n: int): nat {
    if n < 0 then -n else n
  }

  // ---------------------------------------------------------------------------
  // Bit widths

  /** `calculateBitCount`: the bit length of |decimal| (one bit for zero),
      plus a sign bit when `isSigned` and the value is not zero. */
  function CalculateBitCount(decimal: int, isSigned: bool): (r: nat)
    ensures r >= 1
    ensures decimal == 0 ==> r == 1
    ensures decimal != 0 ==>
      var magnitudeBits := if isSigned then r - 1 else r;
      magnitudeBits >= 1 && Pow2(magnitudeBits - 1) <= Abs(decimal) < Pow2(magnitudeBits)
  {
    var absDecimal := Abs(decimal);
    if absDecimal == 0 then 1
    else
      BitLengthBounds(absDecimal);
      var bitCount := BitLength(absDecimal);
      if isSigned then bitCount + 1 else bitCount
  }

  /** The width `decimalToBinary(n)` picks by default always holds `n`: unsigned
      for a non-negative value, in two's-complement range for a negative one. */
  lemma DefaultWidthFits(n: int)
    ensures var w := CalculateBitCount(n, n < 0);
      (n >= 0 ==> n < Pow2(w)) && (n < 0 ==> w >= 2 && -Pow2(w - 1) < n)
  {
    if n > 0 {
      BitLengthBounds(n);
    }
  }

  // ---------------------------------------------------------------------------
  // Validation and decoding

  /** The regular expression /^[01]+$/, one character at a time. */
  function MatchesBinaryDigits(s: string): (r: bool)
    ensures r <==> |s| >= 1 && AllBits(s)
  {
    |s| >= 1 && IsBit(s[0]) && (|s| == 1 || MatchesBinaryDigits(s[1..]))
  }

  /** `isValidBinary`: non-empty, and nothing but '0' and '1'. */
  function IsValidBinary(binary: string): (r: bool)
    ensures r <==> |binary| > 0 && AllBits(binary)
  {
    if |binary| == 0 then false else MatchesBinaryDigits(binary)
  }

  /** `binaryToDecimal`, on the strings where `parseInt(_, 2)` reads every
      character: 0 for "", the base-2 value when unsigned or when the first
      digit is '0', and minus (inverted value + 1) when signed with a leading '1'. */
  function BinaryToDecimal(binary: string, isSigned: bool): (r: int)
    requires AllBits(binary)
    ensures binary == [] ==> r == 0
    ensures !isSigned ==> r == Value(binary) && 0 <= r < Pow2(|binary|)
    ensures isSigned && binary != [] && binary[0] == '0' ==> r == Value(binary)
    ensures isSigned && binary != [] && binary[0] == '1' ==> r == Value(binary) - Pow2(|binary|)
    ensures isSigned && binary != [] ==> -Pow2(|binary| - 1) <= r < Pow2(|binary| - 1)
  {
    ValueBound(binary);
    if |binary| == 0 then
      0
    else if isSigned then
      if binary[0] == '1' then
        ValueInvert(binary);
        ValueLeadingOne(binary);
        var inverted := Invert(binary);
        var invertedDecimal := Value(inverted);
        -(invertedDecimal + 1)
      else
        ValueLeadingZero(binary);
        Value(binary)
    else
      Value(binary)
  }

  // ---------------------------------------------------------------------------
  // Encoding

  /** The negative branch of `decimalToBinary` (other than -1): the magnitude
      padded to `padWidth` digits, inverted, read back, incremented, and padded
      to `bitCount` digits. */
  function InvertPlusOne(magnitude: nat, padWidth: int, bitCount: int): (r: string)
    ensures AllBits(r) && |r| >= bitCount
  {
    var positiveBinary := PadStart(ToBinary(magnitude), padWidth);
    var inverted := Invert(positiveBinary);
    var invertedDecimal := Value(inverted);
    PadStart(ToBinary(invertedDecimal + 1), bitCount)
  }

  /** Inverting `L` digits and adding one computes 2^L - magnitude, where `L`
      is the padded length of the magnitude. */
  lemma InvertPlusOneValue(magnitude: nat, padWidth: int, bitCount: int)
    requires magnitude >= 1
    ensures var L := Max(padWidth, BitLength(magnitude));
      var r := InvertPlusOne(magnitude, padWidth, bitCount);
      && Pow2(L) > magnitude
      && AllBits(r)
      && Value(r) == Pow2(L) - magnitude
      && |r| == Max(bitCount, BitLength(Pow2(L) - magnitude))
  {
    var L := Max(padWidth, BitLength(magnitude));
    InvertedMagnitude(magnitude, padWidth);
    var v := Pow2(L) - magnitude;
    assert InvertPlusOne(magnitude, padWidth, bitCount) == PadStart(ToBinary(v), bitCount);
    PaddedDigits(v, bitCount);
  }

  lemma InvertedMagnitude(magnitude: nat, padWidth: int)
    requires magnitude >= 1
    ensures var L := Max(padWidth, BitLength(magnitude));
      && Pow2(L) > magnitude
      && Value(Invert(PadStart(ToBinary(magnitude), padWidth))) == Pow2(L) - 1 - magnitude
  {
    ValuePadStart(ToBinary(magnitude), padWidth);
    ValueInvert(PadStart(ToBinary(magnitude), padWidth));
    Pow2Monotone(BitLength(magnitude), Max(padWidth, BitLength(magnitude)));
  }

  lemma PaddedDigits(v: nat, bitCount: int)
    requires v >= 1
    ensures var r := PadStart(ToBinary(v), bitCount);
      AllBits(r) && Value(r) == v && |r| == Max(bitCount, BitLength(v))
  {
    ValuePadStart(ToBinary(v), bitCount);
  }

  /** `decimalToBinary`, as written. An omitted (or zero) `bitCount` defaults to
      `CalculateBitCount(decimal, decimal < 0)`. A negative value other than -1
      inverts only `bitCount - 1` digits, so inside the signed range (always at
      the default width) its string is not the two's complement of `decimal`;
      only -2^(bitCount-1) comes out right (see AsWrittenNegativeAtWidth and
      NegativeTenAsWritten). */
  method DecimalToBinary(decimal: int, bitCount: Option<nat>) returns (r: BinaryConversion)
    ensures r.decimal == decimal && r.isSigned == (decimal < 0)
    ensures r.bitCount == DefaultedBitCount(decimal, bitCount)
    ensures AsWrittenShape(decimal, bitCount.None? || bitCount.value == 0, r.bitCount, r.binary)
  {
    var isSigned := decimal < 0;
    var absDecimal := Abs(decimal);

    var width: nat := if bitCount.None? then 0 else bitCount.value;
    if width == 0 {
      if absDecimal == 0 {
        width := 1;
      } else {
        width := BitLength(absDecimal);
        if isSigned {
          width := width + 1;
        }
      }
    }
    assert width == DefaultedBitCount(decimal, bitCount);
    ghost var defaulted := bitCount.None? || bitCount.value == 0;

    var binary: string;
    if isSigned {
      if decimal == -1 {
        binary := Repeat('1', width);
        MinusOneBranch(width, defaulted);
      } else {
        binary := InvertPlusOne(absDecimal, width - 1, width);
        NegativeBranch(decimal, width, defaulted);
      }
    } else {
      binary := PadStart(ToBinary(absDecimal), width);
      UnsignedBranch(decimal, width, defaulted);
    }
    r := BinaryConversion(decimal, binary, width, isSigned);
  }

  /** The width `decimalToBinary` uses: the one given, unless it is omitted or 0. */
  function DefaultedBitCount(decimal: int, bitCount: Option<nat>): (w: nat)
    ensures w >= 1
  {
    if bitCount.None? || bitCount.value == 0 then CalculateBitCount(decimal, decimal < 0) else bitCount.value
  }

  /** What the as-written conversion produces at width `bitCount`: unsigned
      digits, zero-padded and never truncated, for a non-negative value; all ones
      for -1; otherwise the value 2^L + decimal, `L` being the magnitude's
      length padded to `bitCount - 1`, and with the default width a string of
      exactly that width with a leading '0'. */
  ghost predicate AsWrittenShape(decimal: int, defaulted: bool, bitCount: nat, binary: string) {
    && AllBits(binary)
    && (decimal >= 0 ==>
      && |binary| == Max(bitCount, |ToBinary(decimal)|)
      && binary == Repeat('0', |binary| - |ToBinary(decimal)|) + ToBinary(decimal)
      && BinaryToDecimal(binary, false) == decimal)
    && (decimal == -1 ==> binary == Repeat('1', bitCount) && BinaryToDecimal(binary, true) == -1)
    && (decimal < -1 ==>
      var L := Max(bitCount - 1, BitLength(Abs(decimal)));
      && Value(binary) == Pow2(L) + decimal
      && |binary| == Max(bitCount, BitLength(Pow2(L) + decimal)))
    && (decimal < -1 && defaulted ==>
      && |binary| == bitCount
      && binary != []
      && binary[0] == '0'
      && Value(binary) == Pow2(bitCount - 1) + decimal)
  }

  lemma UnsignedBranch(decimal: nat, width: nat, defaulted: bool)
    ensures AsWrittenShape(decimal, defaulted, width, PadStart(ToBinary(decimal), width))
  {
    ValuePadStart(ToBinary(decimal), width);
  }

  lemma MinusOneBranch(width: nat, defaulted: bool)
    requires width >= 1
    ensures AsWrittenShape(-1, defaulted, width, Repeat('1', width))
  {
    AllOnesIsMinusOne(width);
  }

  lemma NegativeBranch(decimal: int, width: nat, defaulted: bool)
    requires decimal < -1 && width >= 1
    requires defaulted ==> width == CalculateBitCount(decimal, true)
    ensures AsWrittenShape(decimal, defaulted, width, InvertPlusOne(Abs(decimal), width - 1, width))
  {
    var binary := InvertPlusOne(Abs(decimal), width - 1, width);
    InvertPlusOneValue(Abs(decimal), width - 1, width);
    NegativeShape(decimal, width, defaulted, binary);
  }

  lemma NegativeShape(decimal: int, width: nat, defaulted: bool, binary: string)
    requires decimal < -1 && width >= 1
    requires defaulted ==> width == CalculateBitCount(decimal, true)
    requires var L := Max(width - 1, BitLength(Abs(decimal)));
      && AllBits(binary)
      && Value(binary) == Pow2(L) - Abs(decimal)
      && |binary| == Max(width, BitLength(Pow2(L) - Abs(decimal)))
    ensures AsWrittenShape(decimal, defaulted, width, binary)
  {
    if defaulted {
      DefaultNegativeShape(Abs(decimal), width, binary);
    }
  }

  lemma AllOnesIsMinusOne(w: nat)
    requires w >= 1
    ensures AllBits(Repeat('1', w)) && BinaryToDecimal(Repeat('1', w), true) == -1
  {
    ValueOnes(w);
  }

  /** With the default width, the as-written negative branch yields a string of
      exactly that width whose first digit is '0'. */
  lemma DefaultNegativeShape(magnitude: nat, width: nat, binary: string)
    requires magnitude >= 2 && width == BitLength(magnitude) + 1
    requires AllBits(binary) && Value(binary) == Pow2(width - 1) - magnitude
    requires |binary| == Max(width, BitLength(Pow2(width - 1) - magnitude))
    ensures |binary| == width && binary[0] == '0'
  {
    BitLengthAtMost(Pow2(width - 1) - magnitude, width - 1);
    ValueLeadingOneBound(binary);
  }

  lemma ValueLeadingOneBound(s: string)
    requires s != [] && Value(s) < Pow2(|s| - 1)
    ensures s[0] != '1'
  {
    if s[0] == '1' {
      ValueLeadingOne(s);
    }
  }

  /** The as-written negative branch at any width `w`: a value strictly inside
      the signed range (the default width always gives one) comes out with `w`
      digits and a leading '0', so `checkAnswer` rejects it; the bottom of the
      range, -2^(w-1), comes out as its correct two's complement. */
  lemma AsWrittenNegativeAtWidth(decimal: int, defaulted: bool, w: nat, binary: string)
    requires decimal < -1 && w >= 1 && AsWrittenShape(decimal, defaulted, w, binary)
    ensures -Pow2(w - 1) < decimal ==>
      |binary| == w && binary[0] == '0' && !CheckAnswer(binary, decimal)
    ensures decimal == -Pow2(w - 1) ==>
      |binary| == w && binary[0] == '1' && CheckAnswer(binary, decimal)
  {
    var m := Abs(decimal);
    if m < Pow2(w - 1) {
      BitLengthAtMost(m, w - 1);
      BitLengthAtMost(Pow2(w - 1) - m, w - 1);
      ValueLeadingOneBound(binary);
    } else if m == Pow2(w - 1) {
      BitLengthUnique(m, w);
      assert Value(binary) == m;
      if binary[0] != '1' {
        ValueLeadingZero(binary);
      }
    }
  }

  /** The evidently intended `decimalToBinary`: the same code with the magnitude
      padded to `bitCount` digits before it is inverted. On every negative value
      that fits the width it gives the two's-complement string. */
  method DecimalToBinaryCorrected(decimal: int, bitCount: Option<nat>) returns (r: BinaryConversion)
    ensures r.decimal == decimal && r.isSigned == (decimal < 0)
    ensures r.bitCount == DefaultedBitCount(decimal, bitCount)
    ensures TwosComplementShape(decimal, bitCount.None? || bitCount.value == 0, r.bitCount, r.binary)
  {
    r := DecimalToBinary(decimal, bitCount);
    ghost var defaulted := bitCount.None? || bitCount.value == 0;
    if decimal < -1 {
      r := r.(binary := InvertPlusOne(Abs(decimal), r.bitCount, r.bitCount));
      CorrectedNegativeBranch(decimal, r.bitCount, defaulted);
    } else {
      AsWrittenAgreesAboveMinusTwo(decimal, defaulted, r.bitCount, r.binary);
    }
  }

  /** What the corrected conversion produces at width `bitCount`: unsigned digits
      for a non-negative value, and for a negative value that fits the width in
      two's complement (always the case with the default width) exactly
      `bitCount` digits, a leading '1', and the signed value `decimal`. */
  ghost predicate TwosComplementShape(decimal: int, defaulted: bool, bitCount: nat, binary: string) {
    && bitCount >= 1
    && AllBits(binary)
    && (decimal >= 0 ==>
      |binary| == Max(bitCount, |ToBinary(decimal)|) && BinaryToDecimal(binary, false) == decimal)
    && (decimal < 0 && defaulted ==> -Pow2(bitCount - 1) <= decimal)
    && (-Pow2(bitCount - 1) <= decimal < 0 ==>
      && |binary| == bitCount
      && binary[0] == '1'
      && Value(binary) == Pow2(bitCount) + decimal
      && BinaryToDecimal(binary, true) == decimal)
  }

  lemma AsWrittenAgreesAboveMinusTwo(decimal: int, defaulted: bool, bitCount: nat, binary: string)
    requires decimal >= -1 && bitCount >= 1
    requires defaulted ==> bitCount == CalculateBitCount(decimal, decimal < 0)
    requires AsWrittenShape(decimal, defaulted, bitCount, binary)
    ensures TwosComplementShape(decimal, defaulted, bitCount, binary)
  {
    if decimal == -1 {
      ValueOnes(bitCount);
      DefaultWidthFits(decimal);
    }
  }

  lemma CorrectedNegativeBranch(decimal: int, width: nat, defaulted: bool)
    requires decimal < -1 && width >= 1
    requires defaulted ==> width == CalculateBitCount(decimal, true)
    ensures TwosComplementShape(decimal, defaulted, width, InvertPlusOne(Abs(decimal), width, width))
  {
    var binary := InvertPlusOne(Abs(decimal), width, width);
    InvertPlusOneValue(Abs(decimal), width, width);
    CorrectedNegativeShape(decimal, width, defaulted, binary);
  }

  lemma CorrectedNegativeShape(decimal: int, width: nat, defaulted: bool, binary: string)
    requires decimal < -1 && width >= 1
    requires defaulted ==> width == CalculateBitCount(decimal, true)
    requires var L := Max(width, BitLength(Abs(decimal)));
      && AllBits(binary)
      && Value(binary) == Pow2(L) - Abs(decimal)
      && |binary| == Max(width, BitLength(Pow2(L) - Abs(decimal)))
    ensures TwosComplementShape(decimal, defaulted, width, binary)
  {
    assert defaulted ==> -Pow2(width - 1) <= decimal by {
      if defaulted {
        DefaultWidthFits(decimal);
      }
    }
    var magnitude := Abs(decimal);
    assert magnitude <= Pow2(width - 1) ==>
      |binary| == width && binary[0] == '1' && Value(binary) == Pow2(width) + decimal
    by {
      if magnitude <= Pow2(width - 1) {
        FittingNegative(magnitude, width, binary);
      }
    }
  }

  lemma FittingNegative(magnitude: nat, width: nat, binary: string)
    requires width >= 1 && 1 <= magnitude <= Pow2(width - 1)
    requires var L := Max(width, BitLength(magnitude));
      && AllBits(binary)
      && Value(binary) == Pow2(L) - magnitude
      && |binary| == Max(width, BitLength(Pow2(L) - magnitude))
    ensures |binary| == width && binary[0] == '1' && Value(binary) == Pow2(width) - magnitude
  {
    assert BitLength(magnitude) <= width by {
      Pow2Monotone(width - 1, width);
      BitLengthAtMost(magnitude, width);
    }
    var v := Pow2(width) - magnitude;
    assert Value(binary) == v;
    assert BitLength(v) == width by {
      BitLengthUnique(v, width);
    }
    assert |binary| == width;
    if binary[0] != '1' {
      ValueLeadingZero(binary);
    }
  }

  /** The discrepancy, on the quiz's own target -10: by default the as-written
      code gives "00110" (signed value 6, rejected as an answer for -10), and at
      width 8 it gives "01110110", where getHint states "11110110". */
  method NegativeTenAsWritten() returns (asWritten: BinaryConversion, asWritten8: BinaryConversion)
    ensures asWritten.bitCount == 5 && asWritten.binary == "00110"
    ensures BinaryToDecimal(asWritten.binary, true) == 6 && !CheckAnswer(asWritten.binary, -10)
    ensures asWritten8.binary == "01110110" && !CheckAnswer(asWritten8.binary, -10)
  {
    assert BitLength(10) == 4 by { BitLengthUnique(10, 4); }
    asWritten := DecimalToBinary(-10, None);
    assert Pow2(4) == 16;
    Spells00110(asWritten.binary);
    asWritten8 := DecimalToBinary(-10, Some(8));
    assert Pow2(7) == 128;
    assert BitLength(118) == 7 by { BitLengthUnique(118, 7); }
    assert asWritten8.binary[0] == '0' by {
      ValueBound(asWritten8.binary[1..]);
      if asWritten8.binary[0] == '1' { ValueLeadingOne(asWritten8.binary); }
    }
    Spells01110110(asWritten8.binary);
  }

  /** The corrected code on the same target: "10110" by default and
      "11110110" at width 8, both accepted as answers for -10. */
  method NegativeTenCorrected() returns (corrected: BinaryConversion, corrected8: BinaryConversion)
    ensures corrected.bitCount == 5 && corrected.binary == "10110" && CheckAnswer(corrected.binary, -10)
    ensures corrected8.binary == "11110110" && CheckAnswer(corrected8.binary, -10)
  {
    assert BitLength(10) == 4 by { BitLengthUnique(10, 4); }
    corrected := DecimalToBinaryCorrected(-10, None);
    assert Pow2(4) == 16 && Pow2(5) == 32;
    Spells10110(corrected.binary);
    corrected8 := DecimalToBinaryCorrected(-10, Some(8));
    assert Pow2(7) == 128 && Pow2(8) == 256;
    Spells11110110(corrected8.binary);
  }

  // The four strings above, each recognised by its length and value alone.

  lemma Spells00110(b: string)
    requires AllBits(b) && |b| == 5 && Value(b) == 6
    ensures b == "00110"
  {
    var lit := "00110";
    assert Value(lit[4..]) == 0 && Value(lit[3..]) == 2 && Value(lit[2..]) == 6;
    assert Value(lit[1..]) == 6 && Value(lit) == 6;
    ValueInjective(b, lit);
  }

  lemma Spells10110(b: string)
    requires AllBits(b) && |b| == 5 && Value(b) == 22
    ensures b == "10110"
  {
    var lit := "10110";
    assert Pow2(4) == 16;
    assert Value(lit[4..]) == 0 && Value(lit[3..]) == 2 && Value(lit[2..]) == 6;
    assert Value(lit[1..]) == 6 && Value(lit) == 22;
    ValueInjective(b, lit);
  }

  lemma Spells01110110(b: string)
    requires AllBits(b) && |b| == 8 && Value(b) == 118
    ensures b == "01110110"
  {
    var lit := "01110110";
    assert Pow2(4) == 16 && Pow2(5) == 32 && Pow2(6) == 64;
    assert Value(lit[7..]) == 0 && Value(lit[6..]) == 2 && Value(lit[5..]) == 6;
    assert Value(lit[4..]) == 6 && Value(lit[3..]) == 22 && Value(lit[2..]) == 54;
    assert Value(lit[1..]) == 118 && Value(lit) == 118;
    ValueInjective(b, lit);
  }

  lemma Spells11110110(b: string)
    requires AllBits(b) && |b| == 8 && Value(b) == 246
    ensures b == "11110110"
  {
    var lit := "11110110";
    assert Pow2(4) == 16 && Pow2(5) == 32 && Pow2(6) == 64 && Pow2(7) == 128;
    assert Value(lit[7..]) == 0 && Value(lit[6..]) == 2 && Value(lit[5..]) == 6;
    assert Value(lit[4..]) == 6 && Value(lit[3..]) == 22 && Value(lit[2..]) == 54;
    assert Value(lit[1..]) == 118 && Value(lit) == 246;
    ValueInjective(b, lit);
  }

  /** A correct answer of the default width exists for every target: its
      unsigned digits when non-negative, its two's complement when negative. */
  function ExpectedAnswer(target: int): (r: string)
    ensures |r| == CalculateBitCount(target, target < 0)
    ensures CheckAnswer(r, target)
  {
    var w := CalculateBitCount(target, target < 0);
    DefaultWidthFits(target);
    if target >= 0 then
      var r := PadStart(ToBinary(target), w);
      ValuePadStart(ToBinary(target), w);
      r
    else
      var u: nat := Pow2(w) + target;
      BitLengthUnique(u, w);
      var r := PadStart(ToBinary(u), w);
      ValuePadStart(ToBinary(u), w);
      r
  }

  // ---------------------------------------------------------------------------
  // Learning sequence

  /** `getLearningSequence` */
  function LearningSequence(): (r: seq<int>)
    ensures |r| == 11
    ensures forall i, j :: 0 <= i < j < |r| ==> r[i] != r[j]
  {
    [0, 1, 2, 4, 10, 100, 128, 256, -1, -10, -128]
  }

  datatype StepInfo = StepInfo(currentNumber: int, totalSteps: nat, stepNumber: nat)

  datatype StepError = InvalidStepIndex(index: int)

  /** `getStepInfo`: the target at a 0-based index, the number of steps and the
      1-based step number; an index outside the sequence throws. */
  function GetStepInfo(currentIndex: int): (r: Result<StepInfo, StepError>)
    ensures r.Success? <==> 0 <= currentIndex < |LearningSequence()|
    ensures r.Success? ==>
      && r.value.currentNumber == LearningSequence()[currentIndex]
      && r.value.totalSteps == 11
      && r.value.stepNumber == currentIndex + 1
    ensures r.Failure? ==> r.error == InvalidStepIndex(currentIndex)
  {
    var sequence := LearningSequence();
    var totalSteps := |sequence|;
    if currentIndex < 0 || currentIndex >= totalSteps then
      Failure(InvalidStepIndex(currentIndex))
    else
      Success(StepInfo(sequence[currentIndex], totalSteps, currentIndex + 1))
  }

  // ---------------------------------------------------------------------------
  // Answer checking

  /** `checkAnswer`: invalid input is wrong; otherwise the input is read as two's
      complement exactly when the target is negative, so a leading '1' is read
      unsigned for a non-negative target. */
  function CheckAnswer(userBinary: string, targetDecimal: int): (r: bool)
    ensures !IsValidBinary(userBinary) ==> !r
    ensures IsValidBinary(userBinary) && targetDecimal >= 0 ==>
      (r <==> Value(userBinary) == targetDecimal)
    ensures IsValidBinary(userBinary) && targetDecimal < 0 ==>
      (r <==> userBinary[0] == '1' && Value(userBinary) == Pow2(|userBinary|) + targetDecimal)
  {
    if !IsValidBinary(userBinary) then
      false
    else
      var isSigned := targetDecimal < 0;
      var calculatedDecimal := BinaryToDecimal(userBinary, isSigned);
      calculatedDecimal == targetDecimal
  }

  // ---------------------------------------------------------------------------
  // Formatting

  /** The groups `formatBinary` cuts: `size` characters each, left to right,
      the last one possibly shorter. */
  function Chunks(s: string, size: nat): (r: seq<string>)
    requires size > 0
    ensures r == [] <==> s == []
    ensures forall k :: 0 <= k < |r| ==> 1 <= |r[k]| <= size
    decreases |s|
  {
    if s == [] then []
    else if |s| <= size then [s]
    else [s[..size]] + Chunks(s[size..], size)
  }

  /** `groups.join(" ")` */
  function JoinWithSpaces(groups: seq<string>): string {
    if groups == [] then []
    else if |groups| == 1 then groups[0]
    else groups[0] + " " + JoinWithSpaces(groups[1..])
  }

  function Concat(groups: seq<string>): string {
    if groups == [] then [] else groups[0] + Concat(groups[1..])
  }

  function RemoveSpaces(s: string): (r: string)
    ensures ' ' !in r
  {
    if s == [] then [] else (if s[0] == ' ' then [] else [s[0]]) + RemoveSpaces(s[1..])
  }

  /** `formatBinary`: slices of `groupSize` characters pushed one by one, then
      joined with single spaces. A non-positive group size only terminates on
      the empty string. */
  method FormatBinary(binary: string, groupSize: int) returns (r: string)
    requires groupSize > 0 || binary == []
    ensures binary == [] ==> r == []
    ensures groupSize > 0 ==> r == JoinWithSpaces(Chunks(binary, groupSize))
  {
    var groups: seq<string> := [];
    var i := 0;
    while i < |binary|
      invariant 0 <= i
      invariant i < |binary| ==> groupSize > 0
      invariant groupSize > 0 ==> groups + Chunks(binary[Min(i, |binary|)..], groupSize) == Chunks(binary, groupSize)
      invariant binary == [] ==> groups == []
      decreases |binary| - i
    {
      var rest := binary[i..];
      var end := Min(i + groupSize, |binary|);
      if |rest| > groupSize {
        assert rest[groupSize..] == binary[end..];
        assert rest[..groupSize] == binary[i..end];
      } else {
        assert rest == binary[i..end];
      }
      groups := groups + [binary[i..end]];
      i := i + groupSize;
      assert Min(i, |binary|) == end;
    }
    assert binary[Min(i, |binary|)..] == [];
    assert groupSize > 0 ==> Chunks([], groupSize) == [] && groups + [] == groups;
    r := JoinWithSpaces(groups);
  }

  function Min(a: int, b: int): int {
    if a <= b then a else b
  }

  /** Concatenating the groups gives back the string. */
  lemma {:induction false} ChunksConcat(s: string, size: nat)
    requires size > 0
    ensures Concat(Chunks(s, size)) == s
    decreases |s|
  {
    if s != [] && |s| > size {
      ChunksConcat(s[size..], size);
      assert s == s[..size] + s[size..];
    } else if s != [] {
      assert Concat([s]) == s + Concat([]);
    }
  }

  /** Every group holds exactly `size` characters, but the last, which holds
      between 1 and `size`. */
  lemma {:induction false} ChunksSizes(s: string, size: nat)
    requires size > 0
    ensures var c := Chunks(s, size);
      && (s == [] <==> c == [])
      && (forall j :: 0 <= j < |c| - 1 ==> |c[j]| == size)
      && (c != [] ==> 1 <= |c[|c| - 1]| <= size)
    decreases |s|
  {
    if s != [] && |s| > size {
      ChunksSizes(s[size..], size);
      var c := Chunks(s, size);
      var tail := Chunks(s[size..], size);
      assert c == [s[..size]] + tail;
      forall j | 0 <= j < |c| - 1 ensures |c[j]| == size {
        if j > 0 {
          assert c[j] == tail[j - 1];
        }
      }
    }
  }

  lemma {:induction false} RemoveSpacesAppend(a: string, b: string)
    ensures RemoveSpaces(a + b) == RemoveSpaces(a) + RemoveSpaces(b)
  {
    if a != [] {
      assert (a + b)[1..] == a[1..] + b;
      RemoveSpacesAppend(a[1..], b);
    } else {
      assert a + b == b;
    }
  }

  lemma {:induction false} RemoveSpacesNone(s: string)
    requires ' ' !in s
    ensures RemoveSpaces(s) == s
  {
    if s != [] {
      RemoveSpacesNone(s[1..]);
      assert s == [s[0]] + s[1..];
    }
  }

  lemma {:induction false} RemoveSpacesJoin(groups: seq<string>)
    requires forall j :: 0 <= j < |groups| ==> ' ' !in groups[j]
    ensures RemoveSpaces(JoinWithSpaces(groups)) == Concat(groups)
  {
    if |groups| == 1 {
      RemoveSpacesNone(groups[0]);
      assert Concat(groups) == groups[0] + Concat([]);
    } else if |groups| > 1 {
      RemoveSpacesJoin(groups[1..]);
      RemoveSpacesAppend(groups[0] + " ", JoinWithSpaces(groups[1..]));
      RemoveSpacesAppend(groups[0], " ");
      RemoveSpacesNone(groups[0]);
      assert RemoveSpaces(" ") == [];
    }
  }

  lemma {:induction false} ChunksAreSlices(s: string, size: nat)
    requires size > 0
    ensures forall j, c :: 0 <= j < |Chunks(s, size)| && 0 <= c < |Chunks(s, size)[j]| ==>
      Chunks(s, size)[j][c] in s
    decreases |s|
  {
    if s != [] && |s| > size {
      ChunksAreSlices(s[size..], size);
      var ch := Chunks(s, size);
      var tail := Chunks(s[size..], size);
      forall j, c | 0 <= j < |ch| && 0 <= c < |ch[j]| ensures ch[j][c] in s {
        if j == 0 {
          assert ch[j][c] == s[c];
        } else {
          assert ch[j] == tail[j - 1];
          assert ch[j][c] in s[size..];
        }
      }
    }
  }

  /** Removing the spaces from `formatBinary`'s output gives back its input,
      whenever that input holds no space itself (a binary string, say). */
  lemma FormatThenRemoveSpaces(s: string, size: nat)
    requires size > 0 && ' ' !in s
    ensures RemoveSpaces(JoinWithSpaces(Chunks(s, size))) == s
  {
    var c := Chunks(s, size);
    ChunksAreSlices(s, size);
    assert forall j :: 0 <= j < |c| ==> ' ' !in c[j];
    RemoveSpacesJoin(c);
    ChunksConcat(s, size);
  }

  // ---------------------------------------------------------------------------
  // Hints

  const FallbackHint: string := "Try converting the number step by step using powers of 2!"

  /** `getHint`: a canned explanation per known target, generic advice otherwise. */
  function GetHint(decimal: int): string {
    if decimal == 0 then "Zero in binary is just 0!"
    else if decimal == 1 then "One in binary is just 1!"
    else if decimal == 2 then "Two in binary is 10 (1×2¹ + 0×2⁰)"
    else if decimal == 4 then "Four in binary is 100 (1×2² + 0×2¹ + 0×2⁰)"
    else if decimal == 10 then "Ten in binary is 1010 (1×2³ + 0×2² + 1×2¹ + 0×2⁰)"
    else if decimal == 100 then "100 in binary is 1100100 (1×2⁶ + 1×2⁵ + 0×2⁴ + 0×2³ + 1×2² + 0×2¹ + 0×2⁰)"
    else if decimal == 128 then "128 in binary is 10000000 (1×2⁷ + 0×2⁶ + 0×2⁵ + 0×2⁴ + 0×2³ + 0×2² + 0×2¹ + 0×2⁰)"
    else if decimal == 256 then "256 in binary is 100000000 (1×2⁸ + 0×2⁷ + 0×2⁶ + 0×2⁵ + 0×2⁴ + 0×2³ + 0×2² + 0×2¹ + 0×2⁰)"
    else if decimal == -1 then "Negative one in 8-bit two's complement is 11111111"
    else if decimal == -10 then "Negative ten in 8-bit two's complement is 11110110"
    else if decimal == -128 then "Negative 128 in 8-bit two's complement is 10000000"
    else FallbackHint
  }

  lemma HintForStep(i: int)
    requires 0 <= i < |LearningSequence()|
    ensures GetHint(LearningSequence()[i]) != FallbackHint
  {
  }

  /** Every target of the learning sequence has its own hint, and exactly the
      numbers outside the sequence get the generic advice. */
  lemma HintFallbackExactlyOffSequence(n: int)
    ensures GetHint(n) == FallbackHint <==> n !in LearningSequence()
  {
    var s := LearningSequence();
    if n in s {
      var i :| 0 <= i < |s| && s[i] == n;
      HintForStep(i);
    }
  }
}
