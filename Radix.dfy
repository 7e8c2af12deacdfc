/**
 * The JavaScript built-ins that the conversion code leans on, over strings of
 * characters: `n.toString(2)`, `parseInt(s, 2)` on a string of binary digits,
 * `s.padStart(w, "0")`, `c.repeat(n)`, and the per-character bit inversion
 * `s.split("").map(b => b === "0" ? "1" : "0").join("")`.
 * `Math.floor(Math.log2(n)) + 1` is modelled by the integer bit length.
 */
module Radix {

  function Pow2(k: nat): (r: int)
    ensures r >= 1
  {
    if k == 0 then 1 else 2 * Pow2(k - 1)
  }

  /** 2^k exceeds k. */
  lemma {:induction false} Pow2ExceedsExponent(k: nat)
    ensures Pow2(k) > k
  {
    if k > 0 {
      Pow2ExceedsExponent(k - 1);
    }
  }

  lemma {:induction false} Pow2Monotone(a: nat, b: nat)
    requires a <= b
    ensures Pow2(a) <= Pow2(b)
    ensures a < b ==> 2 * Pow2(a) <= Pow2(b)
    decreases b - a
  {
    if a < b {
      Pow2Monotone(a, b - 1);
    }
  }

  function Max(a: int, b: int): int {
    if a >= b then a else b
  }

  predicate IsBit(c: char) {
    c == '0' || c == '1'
  }

  /** Every character is a binary digit (the empty string included). */
  predicate AllBits(s: string) {
    forall i :: 0 <= i < |s| ==> IsBit(s[i])
  }

  /** `c.repeat(n)` */
  function Repeat(c: char, n: nat): (r: string)
    ensures |r| == n
    ensures forall i :: 0 <= i < n ==> r[i] == c
  {
    seq(n, _ => c)
  }

  /** `s.padStart(w, "0")`: left-pads with zeros up to length `w`, never truncates. */
  function PadStart(s: string, w: int): (r: string)
    ensures |r| == Max(w, |s|)
    ensures r == Repeat('0', |r| - |s|) + s
    ensures AllBits(s) ==> AllBits(r)
  {
    if |s| >= w then s else Repeat('0', w - |s|) + s
  }

  /** Flips every digit: '0' becomes '1', anything else becomes '0'. */
  function Invert(s: string): (r: string)
    ensures |r| == |s|
    ensures forall i :: 0 <= i < |s| ==> r[i] == (if s[i] == '0' then '1' else '0')
  {
    seq(|s|, i requires 0 <= i < |s| => if s[i] == '0' then '1' else '0')
  }

  function Digit(c: char): nat {
    if c == '1' then 1 else 0
  }

  /** The base-2 value of a digit string, most significant digit first; on a
      string of binary digits this is `parseInt(s, 2)` (and 0 for ""). */
  function Value(s: string): nat {
    if s == [] then 0 else (if s[0] == '1' then Pow2(|s| - 1) else 0) + Value(s[1..])
  }

  /** A string of `n` digits has a value below 2^n. */
  lemma {:induction false} ValueBound(s: string)
    ensures Value(s) < Pow2(|s|)
  {
    if s != [] {
      ValueBound(s[1..]);
    }
  }

  lemma ValueLeadingOne(s: string)
    requires s != [] && s[0] == '1'
    ensures Value(s) >= Pow2(|s| - 1)
  {
  }

  lemma ValueLeadingZero(s: string)
    requires s != [] && s[0] != '1'
    ensures Value(s) < Pow2(|s| - 1)
  {
    assert Value(s) == Value(s[1..]);
    ValueBound(s[1..]);
  }

  /** Appending one digit doubles the value and adds the digit. */
  lemma {:induction false} ValueAppend(s: string, c: char)
    ensures Value(s + [c]) == 2 * Value(s) + Digit(c)
  {
    if s != [] {
      assert (s + [c])[1..] == s[1..] + [c];
      ValueAppend(s[1..], c);
    }
  }

  /** Leading zeros do not change the value. */
  lemma {:induction false} ValueLeadingZeros(k: nat, s: string)
    ensures Value(Repeat('0', k) + s) == Value(s)
  {
    if k > 0 {
      var z := Repeat('0', k) + s;
      assert z[0] == '0' && z[1..] == Repeat('0', k - 1) + s;
      ValueLeadingZeros(k - 1, s);
    } else {
      assert Repeat('0', k) + s == s;
    }
  }

  /** Padding keeps the value, and keeps a digit string a digit string. */
  lemma ValuePadStart(s: string, w: int)
    ensures Value(PadStart(s, w)) == Value(s)
    ensures AllBits(s) ==> AllBits(PadStart(s, w))
  {
    var r := PadStart(s, w);
    ValueLeadingZeros(|r| - |s|, s);
    if AllBits(s) {
      forall i | 0 <= i < |r| ensures IsBit(r[i]) {
        if i >= |r| - |s| {
          assert r[i] == s[i - (|r| - |s|)];
        }
      }
    }
  }

  /** Two digit strings of one length with one value are the same string. */
  lemma {:induction false} ValueInjective(s: string, t: string)
    requires AllBits(s) && AllBits(t) && |s| == |t|
    requires Value(s) == Value(t)
    ensures s == t
  {
    if s != [] {
      if s[0] != t[0] {
        if s[0] == '1' {
          ValueLeadingOne(s);
          ValueLeadingZero(t);
        } else {
          ValueLeadingZero(s);
          ValueLeadingOne(t);
        }
      }
      ValueInjective(s[1..], t[1..]);
      assert s == [s[0]] + s[1..];
      assert t == [t[0]] + t[1..];
    }
  }

  /** On binary digits, inversion is subtraction from all-ones. */
  lemma {:induction false} ValueInvert(s: string)
    requires AllBits(s)
    ensures Value(Invert(s)) == Pow2(|s|) - 1 - Value(s)
  {
    if s != [] {
      assert Invert(s)[1..] == Invert(s[1..]);
      ValueInvert(s[1..]);
    }
  }

  lemma {:induction false} ValueOnes(k: nat)
    ensures Value(Repeat('1', k)) == Pow2(k) - 1
  {
    if k > 0 {
      assert Repeat('1', k)[1..] == Repeat('1', k - 1);
      ValueOnes(k - 1);
    }
  }

  /** The number of binary digits of n (0 for n == 0). For n > 0 it is the
      exact value of `Math.floor(Math.log2(n)) + 1`; the double-precision
      computation agrees with it only while `Math.log2` rounds correctly
      downwards, which fails just below large powers of two. */
  function BitLength(n: nat): (r: nat)
    ensures (n == 0) == (r == 0)
  {
    if n == 0 then 0 else 1 + BitLength(n / 2)
  }

  /** A positive number lies between 2^(b-1) and 2^b, b its bit length. */
  lemma {:induction false} BitLengthBounds(n: nat)
    requires n > 0
    ensures Pow2(BitLength(n) - 1) <= n < Pow2(BitLength(n))
  {
    if n >= 2 {
      BitLengthBounds(n / 2);
    }
  }

  /** The bit length is the unique k with 2^(k-1) <= n < 2^k. */
  lemma BitLengthUnique(n: nat, k: nat)
    requires k >= 1 && Pow2(k - 1) <= n < Pow2(k)
    ensures BitLength(n) == k
  {
    BitLengthBounds(n);
    var b := BitLength(n);
    if b < k {
      Pow2Monotone(b, k - 1);
    } else if b > k {
      Pow2Monotone(k, b - 1);
    }
  }

  lemma BitLengthAtMost(n: nat, k: nat)
    requires n < Pow2(k)
    ensures BitLength(n) <= k
  {
    if n > 0 && BitLength(n) > k {
      BitLengthBounds(n);
      Pow2Monotone(k, BitLength(n) - 1);
    }
  }

  /** `n.toString(2)`: "0" for zero, otherwise the digits without leading zeros. */
  function ToBinary(n: nat): (r: string)
    ensures AllBits(r)
    ensures |r| == Max(1, BitLength(n))
    ensures Value(r) == n
    ensures n > 0 ==> r[0] == '1'
  {
    if n < 2 then
      [if n == 1 then '1' else '0']
    else
      var d := if n % 2 == 1 then '1' else '0';
      ValueAppend(ToBinary(n / 2), d);
      ToBinary(n / 2) + [d]
  }
}
