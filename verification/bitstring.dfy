/** Bit strings as the assembler handles them: Python strings of '0' and '1',
    most significant bit first, produced by `format(n, '0<w>b')` and sliced.
    `Fixed` is the two's-complement reference; `FormatBin` is Python's
    formatting as written, including the '-' it emits for negative numbers. */
module BitString {

  function Pow2(n: nat): (r: int)
    ensures r >= 1
  {
    if n == 0 then 1 else 2 * Pow2(n - 1)
  }

  predicate IsBit(c: char) {
    c == '0' || c == '1'
  }

  predicate IsBits(s: string) {
    forall i :: 0 <= i < |s| ==> IsBit(s[i])
  }

  /** The character of the low-order bit of n. */
  function LowBit(n: int): char {
    if n % 2 == 0 then '0' else '1'
  }

  /** Unsigned value of a bit string (Python's int(s, 2) on a bit string). */
  function Value(s: string): nat {
    if |s| == 0 then 0 else 2 * Value(s[..|s| - 1]) + (if s[|s| - 1] == '1' then 1 else 0)
  }

  /** Two's-complement value of a bit string: the leading bit weighs -2^(|s|-1). */
  function SignedValue(s: string): int {
    if |s| > 0 && s[0] == '1' then Value(s) - Pow2(|s|) else Value(s)
  }

  /** The w low-order bits of n, most significant first: n in w-bit two's
      complement, truncated. Euclidean division makes it correct for n < 0. */
  function Fixed(n: int, w: nat): (r: string)
    ensures |r| == w && IsBits(r)
    decreases w
  {
    if w == 0 then "" else Fixed(n / 2, w - 1) + [LowBit(n)]
  }

  function Zeros(k: nat): (r: string)
    ensures |r| == k && forall i :: 0 <= i < k ==> r[i] == '0'
  {
    seq(k, _ => '0')
  }

  /** Python's bin(n) without its prefix: the shortest numeral of n >= 0. */
  function Numeral(n: nat): (r: string)
    ensures 1 <= |r| && IsBits(r)
  {
    if n < 2 then [LowBit(n)] else Numeral(n / 2) + [LowBit(n)]
  }

  /** Zero fill on the left up to width w; a longer string is left as it is. */
  function PadZeros(s: string, w: nat): (r: string) {
    if |s| >= w then s else Zeros(w - |s|) + s
  }

  /** Python's format(n, '0<w>b'): a '-' first for negative n, zero fill after
      the sign, total width at least w. */
  function FormatBin(n: int, w: nat): string {
    if n >= 0 then PadZeros(Numeral(n), w)
    else "-" + PadZeros(Numeral(-n), if w > 0 then w - 1 else 0)
  }

  /** format(v if v >= 0 else (1 << w) + v, '0<w>b'): the first step of every
      immediate encoder. */
  function FormatTwos(v: int, w: nat): string {
    FormatBin(if v >= 0 then v else Pow2(w) + v, w)
  }

  /** Python's s[-k:] for k > 0. */
  function Suffix(s: string, k: nat): string {
    if |s| >= k then s[|s| - k..] else s
  }

  /** Python's s[0:k]. */
  function Prefix(s: string, k: nat): string {
    if |s| >= k then s[..k] else s
  }

  // ---------------------------------------------------------------------
  // Arithmetic helpers

  lemma ModUnique(n: int, d: int, q: int, m: int)
    requires d > 0 && 0 <= m < d && n == q * d + m
    ensures n / d == q && n % d == m
  {
    var q' := n / d;
    assert (q - q') * d == n % d - m;
    if q > q' {
      MulAtLeast(q - q', d);
      assert false;
    } else if q < q' {
      MulAtLeast(q' - q, d);
      assert false;
    }
  }

  lemma MulAtLeast(k: int, d: int)
    requires k >= 1 && d > 0
    ensures k * d >= d
  {
    assert k * d == (k - 1) * d + d;
  }

  lemma DivDiv(n: int, a: nat, b: nat)
    requires a > 0 && b > 0
    ensures n / a / b == n / (a * b)
  {
    var q1, r1 := n / a, n % a;
    var q2, r2 := q1 / b, q1 % b;
    MulDistrib(q2, b, r2, a);
    MulMono(a, r2, b - 1);
    MulDistrib(1, a, b - 1, 0);
    assert n == q2 * (a * b) + (a * r2 + r1);
    ModUnique(n, a * b, q2, a * r2 + r1);
  }

  lemma MulDistrib(q: int, b: int, r: int, a: int)
    ensures (q * b + r) * a == q * (a * b) + a * r
  {
  }

  lemma MulMono(a: nat, x: int, y: int)
    requires x <= y
    ensures a * x <= a * y
  {
  }

  lemma ModDouble(n: int, p: int)
    requires p > 0
    ensures n % (2 * p) == 2 * ((n / 2) % p) + n % 2
  {
    var q := n / 2;
    var a, m := q / p, q % p;
    assert q == a * p + m;
    assert n == 2 * q + n % 2;
    assert n == a * (2 * p) + (2 * m + n % 2);
    ModUnique(n, 2 * p, a, 2 * m + n % 2);
  }

  lemma MulTwice(x: int, p: int)
    ensures 2 * (x * p) == x * (2 * p)
  {
  }

  lemma Pow2Add(a: nat, b: nat)
    ensures Pow2(a + b) == Pow2(a) * Pow2(b)
  {
    if a > 0 {
      Pow2Add(a - 1, b);
    }
  }

  // ---------------------------------------------------------------------
  // Value and Fixed are inverse

  lemma {:induction false} ValueBound(s: string)
    ensures Value(s) < Pow2(|s|)
  {
    if |s| > 0 {
      ValueBound(s[..|s| - 1]);
    }
  }

  lemma {:induction false} ValueSnoc(s: string, c: char)
    ensures Value(s + [c]) == 2 * Value(s) + (if c == '1' then 1 else 0)
  {
    assert (s + [c])[..|s|] == s;
  }

  /** Value of a concatenation: the left part is shifted by the right part's width. */
  lemma {:induction false} ValueConcat(a: string, b: string)
    ensures Value(a + b) == Value(a) * Pow2(|b|) + Value(b)
  {
    if |b| > 0 {
      var b' := b[..|b| - 1];
      var c := b[|b| - 1];
      assert a + b == (a + b') + [c];
      assert b == b' + [c];
      ValueSnoc(a + b', c);
      ValueSnoc(b', c);
      ValueConcat(a, b');
      MulTwice(Value(a), Pow2(|b'|));
    } else {
      assert a + b == a;
    }
  }

  /** The value of the w-bit rendering of n is n reduced modulo 2^w. */
  lemma {:induction false} ValueFixed(n: int, w: nat)
    ensures Value(Fixed(n, w)) == n % Pow2(w)
    decreases w
  {
    if w > 0 {
      var f := Fixed(n / 2, w - 1);
      ValueSnoc(f, LowBit(n));
      ValueFixed(n / 2, w - 1);
      ModDouble(n, Pow2(w - 1));
    }
  }

  /** Reading a bit string and rendering it at its own width gives it back. */
  lemma {:induction false} FixedValue(s: string)
    requires IsBits(s)
    ensures Fixed(Value(s), |s|) == s
  {
    if |s| > 0 {
      var p := s[..|s| - 1];
      var c := s[|s| - 1];
      assert s == p + [c];
      ValueSnoc(p, c);
      var b := if c == '1' then 1 else 0;
      ModUnique(Value(s), 2, Value(p), b);
      FixedValue(p);
    }
  }

  /** Only the residue modulo 2^w matters to the w-bit rendering. */
  lemma FixedMod(n: int, w: nat)
    ensures Fixed(n, w) == Fixed(n % Pow2(w), w)
  {
    ValueFixed(n, w);
    FixedValue(Fixed(n, w));
  }

  lemma FixedShift(n: int, w: nat)
    ensures Fixed(Pow2(w) + n, w) == Fixed(n, w)
  {
    var p := Pow2(w);
    ModUnique(p + n, p, n / p + 1, n % p);
    FixedMod(p + n, w);
    FixedMod(n, w);
  }

  lemma {:induction false} FixedZero(w: nat)
    ensures Fixed(0, w) == Zeros(w)
  {
    if w > 0 {
      FixedZero(w - 1);
    }
  }

  /** Both halves of a bit string are bit strings. */
  lemma SplitBits(s: string, k: nat)
    requires IsBits(s) && k <= |s|
    ensures IsBits(s[..k]) && IsBits(s[k..])
  {
    forall i | 0 <= i < |s| - k ensures IsBit(s[k..][i]) { assert s[k..][i] == s[k + i]; }
  }

  /** The leading bit of a bit string is set iff its value reaches half the range. */
  lemma LeadingBit(s: string)
    requires IsBits(s) && |s| >= 1
    ensures s[0] == '1' <==> Value(s) >= Pow2(|s| - 1)
  {
    assert s == [s[0]] + s[1..];
    ValueConcat([s[0]], s[1..]);
    assert Value([s[0]]) == (if s[0] == '1' then 1 else 0) by {
      assert [s[0]] == [] + [s[0]];
      ValueSnoc([], s[0]);
    }
    ValueBound(s[1..]);
  }

  /** Two's-complement round trip: in the signed range of w bits, reading back
      the w-bit rendering of v gives v. */
  lemma SignedFixed(v: int, w: nat)
    requires w >= 1 && -Pow2(w - 1) <= v < Pow2(w - 1)
    ensures SignedValue(Fixed(v, w)) == v
  {
    var s := Fixed(v, w);
    var p := Pow2(w);
    ValueFixed(v, w);
    LeadingBit(s);
    if v >= 0 {
      ModUnique(v, p, 0, v);
    } else {
      ModUnique(v, p, -1, v + p);
    }
  }

  /** The low k bits of the w-bit rendering are the k-bit rendering. */
  lemma {:induction false} FixedSuffix(n: int, w: nat, k: nat)
    requires k <= w
    ensures Fixed(n, w)[w - k..] == Fixed(n, k)
    decreases w
  {
    if k == w {
    } else if k == 0 {
    } else {
      FixedSuffix(n / 2, w - 1, k - 1);
      assert Fixed(n, w)[w - k..] == Fixed(n / 2, w - 1)[w - k..] + [LowBit(n)];
    }
  }

  /** The high w - k bits of the w-bit rendering are the rendering of n shifted right by k. */
  lemma {:induction false} FixedPrefix(n: int, w: nat, k: nat)
    requires k <= w
    ensures Fixed(n, w)[..w - k] == Fixed(n / Pow2(k), w - k)
    decreases k
  {
    if k > 0 {
      FixedPrefix(n / 2, w - 1, k - 1);
      assert Fixed(n, w)[..w - k] == Fixed(n / 2, w - 1)[..w - k];
      DivDiv(n, 2, Pow2(k - 1));
    }
  }

  // ---------------------------------------------------------------------
  // Python's format against the reference

  lemma {:induction false} NumeralLength(n: nat, w: nat)
    requires w >= 1
    ensures |Numeral(n)| <= w <==> n < Pow2(w)
  {
    if n >= 2 {
      if w == 1 {
        NumeralLength(n / 2, 1);
      } else {
        NumeralLength(n / 2, w - 1);
      }
    }
  }

  lemma PadSnoc(x: string, d: char, w: nat)
    requires w >= 1
    ensures PadZeros(x + [d], w) == PadZeros(x, w - 1) + [d]
  {
    if |x| + 1 < w {
      assert Zeros(w - |x| - 1) + (x + [d]) == (Zeros(w - 1 - |x|) + x) + [d];
    }
  }

  lemma SuffixSnoc(s: string, d: char, k: nat)
    requires k >= 1 && |s| >= k - 1
    ensures Suffix(s + [d], k) == Suffix(s, k - 1) + [d]
  {
    assert (s + [d])[|s| + 1 - k..] == s[|s| - (k - 1)..] + [d];
  }

  lemma PadDigit(n: nat, w: nat)
    requires n < 2 && w >= 1
    ensures PadZeros(Numeral(n), w) == Fixed(n, w)
  {
    FixedZero(w - 1);
    assert Fixed(n, w) == Zeros(w - 1) + [LowBit(n)];
  }

  /** The last w characters of the zero-filled numeral of n are the w-bit rendering of n. */
  lemma {:induction false} PadNumeralSuffix(n: nat, w: nat)
    ensures |PadZeros(Numeral(n), w)| >= w
    ensures Suffix(PadZeros(Numeral(n), w), w) == Fixed(n, w)
  {
    if w == 0 {
    } else if n < 2 {
      PadDigit(n, w);
    } else {
      PadNumeralSuffix(n / 2, w - 1);
      PadNumeralStep(n, w);
    }
  }

  /** One bit more: the claim for n / 2 in w - 1 places gives it for n in w. */
  lemma PadNumeralStep(n: nat, w: nat)
    requires n >= 2 && w >= 1
    requires |PadZeros(Numeral(n / 2), w - 1)| >= w - 1
    requires Suffix(PadZeros(Numeral(n / 2), w - 1), w - 1) == Fixed(n / 2, w - 1)
    ensures |PadZeros(Numeral(n), w)| >= w
    ensures Suffix(PadZeros(Numeral(n), w), w) == Fixed(n, w)
  {
    var s', d := PadZeros(Numeral(n / 2), w - 1), LowBit(n);
    assert Numeral(n) == Numeral(n / 2) + [d];
    PadSnoc(Numeral(n / 2), d, w);
    SuffixSnoc(s', d, w);
  }

  /** format(n, '0<w>b') is the w-bit rendering when n fits in w bits. */
  lemma FormatBinFixed(n: int, w: nat)
    requires w >= 1 && 0 <= n < Pow2(w)
    ensures FormatBin(n, w) == Fixed(n, w)
  {
    NumeralLength(n, w);
    PadNumeralSuffix(n, w);
  }

  /** The encoders' formatting yields at least w characters, whatever v is. */
  lemma FormatTwosLength(v: int, w: nat)
    requires w >= 1
    ensures |FormatTwos(v, w)| >= w
  {
  }

  /** In the range [-2^w, 2^w) the encoders' formatting is exactly the w-bit
      two's complement of v. */
  lemma FormatTwosInRange(v: int, w: nat)
    requires w >= 1 && -Pow2(w) <= v < Pow2(w)
    ensures FormatTwos(v, w) == Fixed(v, w)
  {
    if v >= 0 {
      FormatBinFixed(v, w);
    } else {
      FormatBinFixed(Pow2(w) + v, w);
      FixedShift(v, w);
    }
  }

  /** From -2^w upwards the last w characters of the formatting are the w-bit
      two's complement of v: keeping them truncates v to w bits. */
  lemma FormatTwosSuffix(v: int, w: nat)
    requires w >= 1 && v >= -Pow2(w)
    ensures Suffix(FormatTwos(v, w), w) == Fixed(v, w)
  {
    if v >= 0 {
      PadNumeralSuffix(v, w);
    } else {
      FormatTwosInRange(v, w);
    }
  }

  /** At 2^w and above the formatting is the bare numeral, longer than w. */
  lemma FormatTwosAbove(v: int, w: nat)
    requires w >= 1 && v >= Pow2(w)
    ensures FormatTwos(v, w) == Numeral(v) && |FormatTwos(v, w)| > w
  {
    NumeralLength(v, w);
  }

  /** Below -2^w the formatting starts with a '-' and is longer than w exactly
      when the magnitude of (2^w + v) needs w bits. */
  lemma FormatTwosBelow(v: int, w: nat)
    requires w >= 1 && v < -Pow2(w)
    ensures FormatTwos(v, w)[0] == '-'
    ensures |FormatTwos(v, w)| == w <==> -(Pow2(w) + v) < Pow2(w - 1)
  {
    var m := -(Pow2(w) + v);
    if w > 1 {
      NumeralLength(m, w - 1);
    }
  }

  // ---------------------------------------------------------------------
  // Strings `int(s, 2)` reads

  /** Bits, possibly after one leading '-': every string the encoders build. */
  predicate SignedBits(s: string) {
    IsBits(s) || (|s| >= 1 && s[0] == '-' && IsBits(s[1..]))
  }

  /** Python's formatting yields bits, with a '-' in front for a negative number. */
  lemma FormatBinSigned(n: int, w: nat)
    ensures SignedBits(FormatBin(n, w))
  {
    if n < 0 {
      var s := FormatBin(n, w);
      assert s[1..] == PadZeros(Numeral(-n), if w > 0 then w - 1 else 0);
    }
  }

  /** A slice keeps the sign only when it starts at the front; after it, only
      bits remain. */
  lemma SignedSlice(s: string, i: nat, j: nat)
    requires SignedBits(s) && i <= j <= |s|
    ensures SignedBits(s[i..j])
    ensures i >= 1 ==> IsBits(s[i..j])
  {
    if !IsBits(s) && i == 0 && j >= 1 {
      assert s[i..j][1..] == s[1..][..j - 1];
    } else if !IsBits(s) && i >= 1 {
      assert forall k :: 0 <= k < j - i ==> s[i..j][k] == s[1..][i - 1 + k];
    }
  }

  /** Bits appended to a signed string leave the sign in front. */
  lemma SignedAppend(a: string, b: string)
    requires SignedBits(a) && IsBits(b)
    ensures SignedBits(a + b)
  {
    if !IsBits(a) {
      assert (a + b)[1..] == a[1..] + b;
    }
  }
}
