/** The hexadecimal rendering of an assembled word: Python's `int(word, 2)`
    followed by `'%08X' % n`. */
module Hex {
  import opened Results
  import opened BitString

  /** The upper-case hexadecimal digit of d. */
  function HexDigit(d: nat): char
    requires d < 16
  {
    if d < 10 then ('0' as int + d) as char else ('A' as int + d - 10) as char
  }

  predicate IsHexDigit(c: char) {
    '0' <= c <= '9' || 'A' <= c <= 'F'
  }

  /** The shortest upper-case hexadecimal numeral of n. */
  function HexNumeral(n: nat): (r: string)
    ensures 1 <= |r|
  {
    if n < 16 then [HexDigit(n)] else HexNumeral(n / 16) + [HexDigit(n % 16)]
  }

  /** Python's `'%08X' % n`: zero fill to eight characters, the sign counted in
      the width. */
  function PercentHex08(n: int): string {
    if n >= 0 then PadZeros(HexNumeral(n), 8) else "-" + PadZeros(HexNumeral(-n), 7)
  }

  /** Python's `int(s, 2)` on the strings the generator can produce: bits,
      possibly after a '-'. Anything else raises ValueError. */
  function IntBase2(s: string): Option<int> {
    if |s| >= 1 && IsBits(s) then Some(Value(s))
    else if |s| >= 2 && s[0] == '-' && IsBits(s[1..]) then Some(0 - Value(s[1..]))
    else None
  }

  /** The hexadecimal line written for an assembled word, or None where
      `int(word, 2)` raises. */
  function HexWord(word: string): Option<string> {
    match IntBase2(word)
    case Some(n) => Some(PercentHex08(n))
    case None => None
  }

  /** On the generator's strings, which is all `IntBase2` models, a word of two
      or more characters is read exactly when it is bits with at most a '-' in
      front. */
  lemma HexWordDefined(word: string)
    requires |word| >= 2
    ensures HexWord(word).Some? <==> SignedBits(word)
  {
  }

  // ---------------------------------------------------------------------
  // Reference: one hexadecimal digit per group of four bits

  function Pow16(k: nat): (r: int)
    ensures r >= 1
  {
    if k == 0 then 1 else 16 * Pow16(k - 1)
  }

  /** The k low-order hexadecimal digits of n. */
  function FixedHex(n: nat, k: nat): (r: string)
    ensures |r| == k
  {
    if k == 0 then "" else FixedHex(n / 16, k - 1) + [HexDigit(n % 16)]
  }

  /** Each group of four bits, read as one hexadecimal digit. */
  function Nibbles(w: string): (r: string)
    requires |w| % 4 == 0
    ensures |r| == |w| / 4
  {
    if |w| == 0 then "" else Nibbles(w[..|w| - 4]) + [HexDigit(Value(w[|w| - 4..]) % 16)]
  }

  lemma HexDigitIsHex(d: nat)
    requires d < 16
    ensures IsHexDigit(HexDigit(d))
  {
  }

  lemma Pow16Pow2(k: nat)
    ensures Pow16(k) == Pow2(4 * k)
  {
    if k > 0 {
      Pow16Pow2(k - 1);
      Pow2Add(4, 4 * (k - 1));
    }
  }

  lemma {:induction false} FixedHexZero(k: nat)
    ensures FixedHex(0, k) == Zeros(k)
  {
    if k > 0 {
      FixedHexZero(k - 1);
    }
  }

  /** The zero-filled numeral of n is its k-digit rendering when n has at most k digits. */
  lemma {:induction false} PadHexNumeral(n: nat, k: nat)
    requires k >= 1 && n < Pow16(k)
    ensures PadZeros(HexNumeral(n), k) == FixedHex(n, k)
  {
    if n < 16 {
      FixedHexZero(k - 1);
      assert FixedHex(n / 16, k - 1) == Zeros(k - 1);
    } else {
      PadSnoc(HexNumeral(n / 16), HexDigit(n % 16), k);
      PadHexNumeral(n / 16, k - 1);
    }
  }

  /** Rendering the value of a bit string in |w|/4 hexadecimal digits is reading
      its nibbles one by one. */
  lemma {:induction false} FixedHexNibbles(w: string)
    requires |w| % 4 == 0 && IsBits(w)
    ensures FixedHex(Value(w), |w| / 4) == Nibbles(w)
  {
    if |w| > 0 {
      var k := |w| / 4;
      assert |w| == 4 * k && (|w| - 4) / 4 == k - 1;
      FixedHexNibbles(w[..|w| - 4]);
      FixedHexStep(w, k);
    }
  }

  /** The last nibble is the last digit, the rest is the value shifted right by four. */
  lemma FixedHexStep(w: string, k: nat)
    requires |w| == 4 * k && k >= 1 && IsBits(w)
    requires FixedHex(Value(w[..|w| - 4]), k - 1) == Nibbles(w[..|w| - 4])
    ensures FixedHex(Value(w), k) == Nibbles(w)
  {
    var a, b := w[..|w| - 4], w[|w| - 4..];
    var x, y := Value(a), Value(b);
    assert Value(w) == x * 16 + y && y < 16 by {
      assert w == a + b;
      ValueConcat(a, b);
      ValueBound(b);
      assert Pow2(4) == 16;
    }
    ModUnique(Value(w), 16, x, y);
    ModUnique(y, 16, 0, y);
    assert FixedHex(Value(w), k) == FixedHex(x, k - 1) + [HexDigit(y)];
    assert Nibbles(w) == Nibbles(a) + [HexDigit(y % 16)];
  }

  /** A 32-character bit string is written as eight upper-case hexadecimal digits,
      the i-th of which is the i-th group of four bits. */
  lemma HexWordNibbles(w: string)
    requires |w| == 32 && IsBits(w)
    ensures HexWord(w) == Some(Nibbles(w))
    ensures |Nibbles(w)| == 8 && forall i :: 0 <= i < 8 ==> IsHexDigit(Nibbles(w)[i])
  {
    ValueBound(w);
    Pow16Pow2(8);
    PadHexNumeral(Value(w), 8);
    FixedHexNibbles(w);
    NibblesHex(w);
  }

  lemma {:induction false} NibblesHex(w: string)
    requires |w| % 4 == 0
    ensures forall i :: 0 <= i < |Nibbles(w)| ==> IsHexDigit(Nibbles(w)[i])
  {
    if |w| > 0 {
      NibblesHex(w[..|w| - 4]);
      HexDigitIsHex(Value(w[|w| - 4..]) % 16);
    }
  }

  /** A word whose first character is '-' and whose rest is 31 bits is read as
      minus their value. A zero magnitude is written as eight zeros. Otherwise
      the line is the sign followed by the magnitude's digits: seven when it is
      below 16^7, and eight (a nine-character line) from there on. The eight
      digits are the nibbles of the magnitude widened to 32 bits. */
  lemma HexWordNegative(w: string)
    requires |w| == 32 && w[0] == '-' && IsBits(w[1..])
    ensures var n := Value(w[1..]);
      HexWord(w) == Some(
        if n == 0 then Zeros(8)
        else if n < Pow16(7) then "-" + FixedHex(n, 7)
        else "-" + Nibbles("0" + w[1..]))
    ensures var n := Value(w[1..]);
      |HexWord(w).value| == if n == 0 || n < Pow16(7) then 8 else 9
  {
    var b := w[1..];
    var n := Value(b);
    assert !IsBit(w[0]);
    assert HexWord(w) == Some(PercentHex08(0 - n));
    if n == 0 {
      PadHexNumeral(0, 8);
      FixedHexZero(8);
    } else if n < Pow16(7) {
      PadHexNumeral(n, 7);
    } else {
      NegativeEightDigits(b);
    }
  }

  /** A magnitude of 16^7 or more keeps all eight of its digits. */
  lemma NegativeEightDigits(b: string)
    requires |b| == 31 && IsBits(b) && Value(b) >= Pow16(7)
    ensures PercentHex08(0 - Value(b)) == "-" + Nibbles("0" + b)
  {
    var n := Value(b);
    EightDigitsBound(b);
    EightDigits(n);
    WidenedNibbles(b);
  }

  lemma EightDigitsBound(b: string)
    requires |b| == 31 && IsBits(b)
    ensures Value(b) < Pow16(8)
  {
    ValueBound(b);
    Pow16Pow2(8);
    assert Pow2(32) == 2 * Pow2(31);
  }

  lemma EightDigits(n: nat)
    requires Pow16(7) <= n < Pow16(8)
    ensures PercentHex08(0 - n) == "-" + FixedHex(n, 8)
  {
    HexNumeralLength(n, 7);
    PadHexNumeral(n, 8);
  }

  /** Widening the magnitude with a leading zero keeps its value. */
  lemma WidenedNibbles(b: string)
    requires |b| == 31 && IsBits(b)
    ensures FixedHex(Value(b), 8) == Nibbles("0" + b)
  {
    var z := "0" + b;
    assert z[1..] == b;
    ValueConcat("0", b);
    assert Value(z) == Value(b);
    FixedHexNibbles(z);
  }

  /** From 16^k up the numeral has more than k digits. */
  lemma {:induction false} HexNumeralLength(n: nat, k: nat)
    requires n >= Pow16(k)
    ensures |HexNumeral(n)| >= k + 1
  {
    if k > 0 {
      HexNumeralLength(n / 16, k - 1);
    }
  }
}
