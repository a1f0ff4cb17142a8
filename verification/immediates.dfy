/** The immediate encoders of the parser, one per instruction format. Each
    formats the decimal value in two's complement at the width of its field
    (Python's `format`, so a value out of range gives a longer string or one
    with a '-'), cuts it to the bits the instruction holds and, for jumps and
    branches, permutes them into the order the word stores them. Each also
    reports the warnings it prints. */
module Immediates {
  import opened Results
  import opened BitString

  /** An encoded immediate with the warnings printed while encoding it. */
  datatype Encoded<T> = Encoded(bits: T, overflow: bool, misaligned: bool)

  /** The two parts of a store or branch immediate: `hi` goes to the top of the
      word, `lo` next to the opcode. */
  datatype Halves = Halves(hi: string, lo: string)

  /** The jump encoder's `assert(len(imm2) == 20)` failing. */
  datatype EncodeError = LengthAssertion

  // The ranges outside which "Immediate is too big, will overflow." is printed.
  const IMin: int := -2048
  const IMax: int := 2047
  const UMin: int := -524288
  const UMax: int := 524287
  const JMin: int := -1048576
  const JMax: int := 1048574
  const BMin: int := -4096
  const BMax: int := 4094

  predicate OutOfRange(v: int, lo: int, hi: int) {
    v > hi || v < lo
  }

  /** `imm2[-w:]` of the w-bit formatting: the field of the I and U encoders. */
  function Field(v: int, w: nat): (r: string)
    requires w >= 1
    ensures |r| == w
  {
    FormatTwosLength(v, w);
    Suffix(FormatTwos(v, w), w)
  }

  /** get_imm_I: a 12-bit field. */
  function EncodeI(v: int): Encoded<string> {
    Encoded(Field(v, 12), OutOfRange(v, IMin, IMax), false)
  }

  /** get_imm_U: a 20-bit field. */
  function EncodeU(v: int): Encoded<string> {
    Encoded(Field(v, 20), OutOfRange(v, UMin, UMax), false)
  }

  /** imm[20] imm[10:1] imm[11] imm[19:12], from the 20 bits imm[20:1]. */
  function JumpOrder(t: string): (r: string)
    requires |t| == 20
    ensures |r| == 20
  {
    [t[0]] + t[10..20] + [t[9]] + t[1..9]
  }

  /** The order of a jump immediate as the word stores it, put back to imm[20:1]. */
  function JumpUnorder(r: string): (t: string)
    requires |r| == 20
    ensures |t| == 20
  {
    [r[0]] + r[12..20] + [r[11]] + r[1..11]
  }

  /** get_imm_UJ: formatted in 21 bits, the last character dropped (with a
      warning unless it is '0'), the remaining 20 permuted. A value whose
      formatting is not 21 characters long fails the length assertion. */
  function EncodeUJ(v: int): Result<Encoded<string>, EncodeError> {
    var s := FormatTwos(v, 21);
    FormatTwosLength(v, 21);
    var misaligned := Suffix(s, 1) != "0";
    var t := s[..|s| - 1];
    if |t| != 20 then Err(LengthAssertion)
    else Ok(Encoded(JumpOrder(t), OutOfRange(v, JMin, JMax), misaligned))
  }

  /** get_imm_S: the first 12 characters of the 12-bit formatting, split 7 + 5.
      The alignment test compares a character with the number 0, which is
      never equal, so the warning is printed for every value. */
  function EncodeS(v: int): (r: Encoded<Halves>)
    ensures |r.bits.hi| == 7 && |r.bits.lo| == 5
  {
    var s := FormatTwos(v, 12);
    FormatTwosLength(v, 12);
    var t := Prefix(s, 12);
    Encoded(Halves(t[..7], t[7..]), OutOfRange(v, IMin, IMax), true)
  }

  /** The store immediate joined again: imm[11:5] then imm[4:0]. */
  function StoreJoin(h: Halves): string {
    h.hi + h.lo
  }

  /** get_imm_SB: the first 12 characters of the 13-bit formatting (imm[12:1]),
      cut into imm[12|10:5] and imm[4:1|11]. */
  function EncodeSB(v: int): (r: Encoded<Halves>)
    ensures |r.bits.hi| == 7 && |r.bits.lo| == 5
  {
    var s := FormatTwos(v, 13);
    FormatTwosLength(v, 13);
    var t := Prefix(s, 12);
    Encoded(Halves([t[0]] + t[2..8], t[8..12] + [t[1]]), OutOfRange(v, BMin, BMax), false)
  }

  /** A branch immediate put back to imm[12:1]. */
  function BranchJoin(h: Halves): (t: string)
    requires |h.hi| == 7 && |h.lo| == 5
    ensures |t| == 12
  {
    [h.hi[0]] + [h.lo[4]] + h.hi[1..7] + h.lo[0..4]
  }

  /** Cutting imm[12:1] into the two branch halves loses nothing. */
  lemma BranchSplitJoin(t: string)
    requires |t| == 12
    ensures BranchJoin(Halves([t[0]] + t[2..8], t[8..12] + [t[1]])) == t
  {
    var h := Halves([t[0]] + t[2..8], t[8..12] + [t[1]]);
    assert h.hi[1..7] == t[2..8] && h.lo[0..4] == t[8..12];
    assert [t[0]] + [t[1]] + t[2..8] + t[8..12] == t;
  }

  /** ... and joining the halves and cutting again gives them back. */
  lemma BranchJoinSplit(h: Halves)
    requires |h.hi| == 7 && |h.lo| == 5
    ensures var t := BranchJoin(h);
      [t[0]] + t[2..8] == h.hi && t[8..12] + [t[1]] == h.lo
  {
    var t := BranchJoin(h);
    assert t[2..8] == h.hi[1..7] && t[8..12] == h.lo[0..4];
    assert h.hi == [h.hi[0]] + h.hi[1..7];
    assert h.lo == h.lo[0..4] + [h.lo[4]];
  }

  /** The byte offset a jump or branch immediate stands for: imm[0] is zero. */
  function Offset(t: string): int {
    2 * SignedValue(t)
  }

  // ---------------------------------------------------------------------
  // The field of the I and U encoders

  /** The w-character field of every value: the w-bit two's complement from
      -2^w upwards; below that a '-' and the magnitude of 2^w + v in w - 1 bits
      while that fits, and then the low w bits of that magnitude. */
  lemma FieldCases(v: int, w: nat)
    requires w >= 2
    ensures v >= -Pow2(w) ==> Field(v, w) == Fixed(v, w)
    ensures -Pow2(w) - Pow2(w - 1) < v < -Pow2(w) ==> Field(v, w) == "-" + Fixed(-(Pow2(w) + v), w - 1)
    ensures v <= -Pow2(w) - Pow2(w - 1) ==> Field(v, w) == Fixed(-(Pow2(w) + v), w)
  {
    if v >= -Pow2(w) {
      FormatTwosSuffix(v, w);
    } else if v > -Pow2(w) - Pow2(w - 1) {
      FieldSigned(v, w);
    } else {
      FieldMagnitude(v, w);
    }
  }

  /** The field opens with a '-' exactly for the values just below -2^w. */
  lemma FieldNegative(v: int, w: nat)
    requires w >= 2
    ensures Field(v, w)[0] == '-' <==> -Pow2(w) - Pow2(w - 1) < v < -Pow2(w)
  {
    var lo, hi := -Pow2(w) - Pow2(w - 1), -Pow2(w);
    FieldCases(v, w);
    if v >= hi {
      var x := Fixed(v, w);
      assert Field(v, w) == x && IsBit(x[0]);
    } else if v <= lo {
      var x := Fixed(-(Pow2(w) + v), w);
      assert Field(v, w) == x && IsBit(x[0]);
    } else {
      assert Field(v, w) == "-" + Fixed(-(Pow2(w) + v), w - 1);
    }
  }

  /** For get_imm_I that is -6143..-4097. */
  lemma FieldNegativeI(v: int)
    ensures EncodeI(v).bits[0] == '-' <==> -6144 < v < -4096
  {
    FieldNegative(v, 12);
    Widths();
  }

  lemma FieldSigned(v: int, w: nat)
    requires w >= 2 && -Pow2(w) - Pow2(w - 1) < v < -Pow2(w)
    ensures Field(v, w) == "-" + Fixed(-(Pow2(w) + v), w - 1)
  {
    var m := -(Pow2(w) + v);
    FormatBinFixed(m, w - 1);
    var s := "-" + Fixed(m, w - 1);
    assert FormatTwos(v, w) == s;
    assert |s| == w;
  }

  lemma FieldMagnitude(v: int, w: nat)
    requires w >= 2 && v <= -Pow2(w) - Pow2(w - 1)
    ensures Field(v, w) == Fixed(-(Pow2(w) + v), w)
  {
    var m := -(Pow2(w) + v);
    NumeralLength(m, w - 1);
    PadNumeralSuffix(m, w);
    var n := Numeral(m);
    assert FormatTwos(v, w) == "-" + n;
    assert PadZeros(n, w) == n;
    assert ("-" + n)[|n| + 1 - w..] == n[|n| - w..];
  }

  /** In the signed range of w bits the field reads back as v. */
  lemma FieldRoundTrip(v: int, w: nat)
    requires w >= 2 && -Pow2(w - 1) <= v < Pow2(w - 1)
    ensures IsBits(Field(v, w)) && SignedValue(Field(v, w)) == v
  {
    FieldCases(v, w);
    SignedFixed(v, w);
  }

  lemma Widths()
    ensures Pow2(11) == 2048 && Pow2(12) == 4096 && Pow2(13) == 8192
    ensures Pow2(19) == 524288 && Pow2(20) == 1048576 && Pow2(21) == 2097152
  {
  }

  /** Each encoder warns about overflow exactly outside the range of its field
      (for branches and jumps: of even offsets), and encodes the value all the
      same. */
  lemma OverflowWarnings(v: int)
    ensures EncodeI(v).overflow <==> !(-Pow2(11) <= v < Pow2(11))
    ensures EncodeS(v).overflow <==> !(-Pow2(11) <= v < Pow2(11))
    ensures EncodeU(v).overflow <==> !(-Pow2(19) <= v < Pow2(19))
    ensures EncodeSB(v).overflow <==> !(-Pow2(12) <= v < Pow2(12) - 1)
    ensures EncodeUJ(v).Ok? ==> (EncodeUJ(v).value.overflow <==> !(-Pow2(20) <= v < Pow2(20) - 1))
    ensures |EncodeI(v).bits| == 12 && |EncodeU(v).bits| == 20
  {
    Widths();
    assert Pow2(20) == 2 * Pow2(19);
  }

  /** No warning in the 12-bit signed range, and then the field reads back as v. */
  lemma EncodeIRoundTrip(v: int)
    requires IMin <= v <= IMax
    ensures !EncodeI(v).overflow && IsBits(EncodeI(v).bits) && SignedValue(EncodeI(v).bits) == v
  {
    Widths();
    FieldRoundTrip(v, 12);
  }

  /** No warning in the 20-bit signed range, and then the field reads back as v. */
  lemma EncodeURoundTrip(v: int)
    requires UMin <= v <= UMax
    ensures !EncodeU(v).overflow && IsBits(EncodeU(v).bits) && SignedValue(EncodeU(v).bits) == v
  {
    Widths();
    FieldRoundTrip(v, 20);
  }

  // ---------------------------------------------------------------------
  // Jumps

  lemma JumpOrderInverse(t: string)
    requires |t| == 20
    ensures JumpUnorder(JumpOrder(t)) == t
  {
    var r := JumpOrder(t);
    assert r[12..20] == t[1..9] && r[1..11] == t[10..20];
    assert [t[0]] + t[1..9] + [t[9]] + t[10..20] == t;
  }

  lemma JumpUnorderInverse(r: string)
    requires |r| == 20
    ensures JumpOrder(JumpUnorder(r)) == r
  {
    var t := JumpUnorder(r);
    assert t[10..20] == r[1..11] && t[1..9] == r[12..20];
    assert [r[0]] + r[1..11] + [r[11]] + r[12..20] == r;
  }

  /** The length assertion holds exactly for -3 * 2^20 < v < 2^21. */
  lemma EncodeUJDefined(v: int)
    ensures EncodeUJ(v).Ok? <==> -3 * 1048576 < v < 2097152
  {
    Widths();
    var s := FormatTwos(v, 21);
    if v >= Pow2(21) {
      FormatTwosAbove(v, 21);
    } else if v >= -Pow2(21) {
      FormatTwosInRange(v, 21);
    } else {
      FormatTwosBelow(v, 21);
    }
  }

  /** The last character of the formatting of n is its low bit, whatever the sign. */
  lemma FormatBinLast(n: int, w: nat)
    ensures |FormatBin(n, w)| >= 1
    ensures FormatBin(n, w)[|FormatBin(n, w)| - 1] == LowBit(n)
  {
    var m := if n >= 0 then n else -n;
    assert Numeral(m)[|Numeral(m)| - 1] == LowBit(m);
    assert LowBit(m) == LowBit(n);
  }

  /** The jump encoder warns about alignment exactly for odd values. */
  lemma EncodeUJMisaligned(v: int)
    requires EncodeUJ(v).Ok?
    ensures EncodeUJ(v).value.misaligned <==> v % 2 == 1
  {
    var n := if v >= 0 then v else Pow2(21) + v;
    FormatBinLast(n, 21);
    assert Pow2(21) == 2 * Pow2(20);
    assert LowBit(n) == LowBit(v);
  }

  /** From -2^21 up to 2^21 the stored bits are v halved, in 20 bits: the low bit
      is dropped and the rest truncated. */
  lemma EncodeUJTruncates(v: int)
    requires -2097152 <= v < 2097152
    ensures EncodeUJ(v).Ok? && JumpUnorder(EncodeUJ(v).value.bits) == Fixed(v / 2, 20)
  {
    Widths();
    FormatTwosInRange(v, 21);
    var t := Fixed(v, 21)[..20];
    FixedPrefix(v, 21, 1);
    JumpOrderInverse(t);
  }

  /** In range the jump is to v rounded down to even, with no overflow warning
      and an alignment warning only when the low bit is lost. */
  lemma EncodeUJRoundTrip(v: int)
    requires JMin <= v <= JMax
    ensures EncodeUJ(v).Ok? && !EncodeUJ(v).value.overflow
    ensures Offset(JumpUnorder(EncodeUJ(v).value.bits)) == v - v % 2
    ensures EncodeUJ(v).value.misaligned <==> v % 2 == 1
  {
    EncodeUJTruncates(v);
    EncodeUJMisaligned(v);
    Widths();
    SignedFixed(v / 2, 20);
  }

  // ---------------------------------------------------------------------
  // Stores

  /** From -2^12 up to 2^12 the halves are the 12-bit two's complement of v,
      split 7 + 5. */
  lemma EncodeSFits(v: int)
    requires -4096 <= v < 4096
    ensures var h := EncodeS(v).bits;
      |h.hi| == 7 && |h.lo| == 5 && StoreJoin(h) == Fixed(v, 12)
  {
    Widths();
    FormatTwosInRange(v, 12);
    var t := Fixed(v, 12);
    assert t[..7] + t[7..] == t;
  }

  /** From 2^12 upwards the halves are the leading 12 bits of v, not the low ones. */
  lemma EncodeSLeading(v: int)
    requires v >= 4096
    ensures StoreJoin(EncodeS(v).bits) == Prefix(Numeral(v), 12)
  {
    Widths();
    FormatTwosAbove(v, 12);
    var t := Numeral(v)[..12];
    assert t[..7] + t[7..] == t;
  }

  /** In range the store offset reads back as v, with no overflow warning. */
  lemma EncodeSRoundTrip(v: int)
    requires IMin <= v <= IMax
    ensures !EncodeS(v).overflow && SignedValue(StoreJoin(EncodeS(v).bits)) == v
  {
    EncodeSFits(v);
    Widths();
    SignedFixed(v, 12);
  }

  // ---------------------------------------------------------------------
  // Branches

  /** From -2^12 up to 2^12 the halves hold v halved, in 12 bits, in the order
      imm[12|10:5] and imm[4:1|11]. */
  lemma EncodeSBTruncates(v: int)
    requires -4096 <= v < 4096
    ensures var h := EncodeSB(v).bits;
      |h.hi| == 7 && |h.lo| == 5 && BranchJoin(h) == Fixed(v / 2, 12)
  {
    Widths();
    FormatTwosInRange(v, 13);
    FixedPrefix(v, 13, 1);
    BranchSplitJoin(Fixed(v, 13)[..12]);
  }

  /** In range the branch offset is v rounded down to even, with no overflow
      warning. */
  lemma EncodeSBRoundTrip(v: int)
    requires BMin <= v <= BMax
    ensures !EncodeSB(v).overflow && Offset(BranchJoin(EncodeSB(v).bits)) == v - v % 2
  {
    EncodeSBTruncates(v);
    Widths();
    SignedFixed(v / 2, 12);
  }

  // ---------------------------------------------------------------------
  // What int(word, 2) will read

  /** Every field the encoders build is bits, with at most a '-' at its front;
      the second half of a split immediate is bits only. */
  lemma EncodersSigned(v: int)
    ensures SignedBits(EncodeI(v).bits) && SignedBits(EncodeU(v).bits)
    ensures SignedBits(EncodeS(v).bits.hi) && IsBits(EncodeS(v).bits.lo)
    ensures SignedBits(EncodeSB(v).bits.hi) && IsBits(EncodeSB(v).bits.lo)
    ensures EncodeUJ(v).Ok? ==> SignedBits(EncodeUJ(v).value.bits)
  {
    FieldSuffixSigned(v, 12);
    FieldSuffixSigned(v, 20);
    FormatTwosSigned(v, 12);
    FormatTwosSigned(v, 13);
    SplitSigned(FormatTwos(v, 12));
    SplitSigned(FormatTwos(v, 13));
    if EncodeUJ(v).Ok? {
      FormatTwosSigned(v, 21);
      var s := FormatTwos(v, 21);
      SignedSlice(s, 0, |s| - 1);
      JumpOrderSigned(s[..|s| - 1]);
    }
  }

  lemma FormatTwosSigned(v: int, w: nat)
    requires w >= 1
    ensures SignedBits(FormatTwos(v, w)) && |FormatTwos(v, w)| >= w
  {
    FormatBinSigned(if v >= 0 then v else Pow2(w) + v, w);
    FormatTwosLength(v, w);
  }

  lemma FieldSuffixSigned(v: int, w: nat)
    requires w >= 1
    ensures SignedBits(Field(v, w))
  {
    FormatTwosSigned(v, w);
    var s := FormatTwos(v, w);
    SignedSlice(s, |s| - w, |s|);
  }

  lemma JumpOrderSigned(t: string)
    requires |t| == 20 && SignedBits(t)
    ensures SignedBits(JumpOrder(t))
  {
    SignedSlice(t, 0, 1);
    SignedSlice(t, 10, 20);
    SignedSlice(t, 9, 10);
    SignedSlice(t, 1, 9);
    assert t[0..1] == [t[0]] && t[9..10] == [t[9]];
    SignedAppend([t[0]], t[10..20]);
    SignedAppend([t[0]] + t[10..20], [t[9]]);
    SignedAppend([t[0]] + t[10..20] + [t[9]], t[1..9]);
  }

  /** The halves cut from the first 12 characters of a formatting. */
  lemma SplitSigned(s: string)
    requires |s| >= 12 && SignedBits(s)
    ensures var t := Prefix(s, 12);
      SignedBits(t[..7]) && IsBits(t[7..])
      && SignedBits([t[0]] + t[2..8]) && IsBits(t[8..12] + [t[1]])
  {
    var t := s[..12];
    SignedSlice(s, 0, 12);
    SignedSlice(t, 0, 7);
    SignedSlice(t, 7, 12);
    SignedSlice(t, 0, 1);
    SignedSlice(t, 2, 8);
    SignedSlice(t, 8, 12);
    SignedSlice(t, 1, 2);
    assert t[0..1] == [t[0]] && t[1..2] == [t[1]];
    SignedAppend([t[0]], t[2..8]);
    assert IsBits(t[8..12] + [t[1]]);
  }
}
