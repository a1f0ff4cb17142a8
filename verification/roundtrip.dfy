/** From a line of tokens to a machine word and back: every instruction line the
    parser accepts is generated as a word that the reference decoder reads as
    the same instruction, with the same registers and, within the range of the
    format, the same immediate (branch and jump offsets rounded down to even).
    The generator's warnings are stated in terms of the written immediate. */
module RoundTrip {
  import opened Results
  import opened BitString
  import opened MachineCodeConst
  import opened Tokenizer
  import opened PyInt
  import opened Parser
  import opened MachineCodeGen
  import opened Decoder
  import Immediates

  /** The word and the generator's warnings for one line of tokens; None when
      the parser rejects the line, when it is not an instruction, or when the
      generator fails. */
  function LineOutput(toks: seq<Token>): Option<Generated> {
    match ParseLine(toks)
    case Err(_) => None
    case Ok(p) =>
      if p.program.Statement? && p.program.fields.Some? then
        match ConvertToBinary(p.program.fields.value)
        case Ok(g) => Some(g)
        case Err(_) => None
      else None
  }

  /** v rounded down to even: the byte offset a branch or jump written with v
      reaches, bit 0 being dropped. */
  function Even(v: int): int {
    v - v % 2
  }

  /** The number a register lexeme names (0 when it names none). */
  function RegOf(text: string): nat {
    if RegisterIndex(text).Some? && RegisterIndex(text).value >= 0 then RegisterIndex(text).value else 0
  }

  // ---------------------------------------------------------------------
  // Bits of the twelve-bit field

  /** The two low bits of a twelve-bit rendering are zero exactly for a
      multiple of four. */
  lemma LowTwoBits(n: int)
    ensures Fixed(n, 12)[10..] == "00" <==> n % 4 == 0
  {
    FixedSuffix(n, 12, 2);
    assert Fixed(n, 2) == [LowBit(n / 2), LowBit(n)];
    assert (n / 2) % 2 == 0 && n % 2 == 0 <==> n % 4 == 0;
  }

  /** The selector of a shift is the seven-bit rendering of 0, or of 32 for srai. */
  lemma ShiftUpperFixed(m: Mnemonic)
    ensures ShiftUpper(m) == Fixed(if m == SRAI then 32 else 0, 7)
  {
    assert Fixed(32, 7) == "0100000";
    assert Fixed(0, 7) == "0000000";
  }

  /** In the signed range of w bits, distinct numbers render differently. */
  lemma FixedInjective(x: int, c: int, w: nat)
    requires w >= 1 && -Pow2(w - 1) <= x < Pow2(w - 1) && -Pow2(w - 1) <= c < Pow2(w - 1)
    ensures Fixed(x, w) == Fixed(c, w) <==> x == c
  {
    SignedFixed(x, w);
    SignedFixed(c, w);
  }

  lemma DivThirtyTwo(v: int)
    requires -2048 <= v < 2048
    ensures -64 <= v / 32 < 64
    ensures v / 32 == 0 <==> 0 <= v < 32
    ensures v / 32 == 32 <==> 1024 <= v < 1056
  {
    assert v == 32 * (v / 32) + v % 32 && 0 <= v % 32 < 32;
  }

  lemma UpperOfTwelve(v: int)
    ensures Fixed(v, 12)[..7] == Fixed(v / 32, 7)
  {
    FixedPrefix(v, 12, 5);
    assert Pow2(5) == 32;
  }

  /** A seven-bit rendering in the signed range is a shift's selector exactly
      when it renders 32 for srai, 0 otherwise. */
  lemma SelectorIs(x: int, m: Mnemonic)
    requires -64 <= x < 64
    ensures Fixed(x, 7) == ShiftUpper(m) <==> x == (if m == SRAI then 32 else 0)
  {
    ShiftUpperFixed(m);
    assert Pow2(6) == 64;
    FixedInjective(x, if m == SRAI then 32 else 0, 7);
  }

  /** The upper seven bits of a twelve-bit rendering of v in the signed range
      are zero exactly for 0 <= v < 32, and are 0100000 exactly for
      1024 <= v < 1056. */
  lemma UpperSevenBits(v: int, m: Mnemonic)
    requires Immediates.IMin <= v <= Immediates.IMax
    ensures Fixed(v, 12)[..7] == ShiftUpper(m) <==>
      if m == SRAI then 1024 <= v < 1056 else 0 <= v < 32
  {
    UpperOfTwelve(v);
    DivThirtyTwo(v);
    SelectorIs(v / 32, m);
  }

  // ---------------------------------------------------------------------
  // One lemma per format, on the record

  /** The shift amounts the decoder accepts for a shift: 0 to 31, written as
      1024 plus the amount for srai. */
  predicate ShiftAmountOk(m: Mnemonic, v: int) {
    if m == SRAI then 1024 <= v < 1056 else 0 <= v < 32
  }

  /** An I-format record with the twelve-bit field of v in range: its word
      reads back with v; a shift reads back as itself exactly when its amount
      is one the decoder accepts. */
  lemma RecordI(f: Fields, v: int)
    requires WellFormed(f) && IsaFormat(MnemonicOf(f)) == FmtI
    requires Immediates.IMin <= v <= Immediates.IMax && f.imm.value.bits == Immediates.EncodeI(v).bits
    ensures var m, w := MnemonicOf(f), ExpectedWord(f);
      && (m !in {SLLI, SRLI, SRAI} ==> Decode(w) == Some(Decoded(m, Some(RegNumber(f.rd)), Some(RegNumber(f.rs1)), None, Some(v))))
      && (m in {SLLI, SRLI, SRAI} ==>
            (Decode(w).Some? && Decode(w).value.m == m <==> ShiftAmountOk(m, v)) &&
            (ShiftAmountOk(m, v) ==> Decode(w) == Some(Decoded(m, Some(RegNumber(f.rd)), Some(RegNumber(f.rs1)), None, Some(v)))))
  {
    var m, bits := MnemonicOf(f), f.imm.value.bits;
    TwelveBits(v);
    BinFieldFixed(f.rd);
    BinFieldFixed(f.rs1);
    if m in {SLLI, SRLI, SRAI} {
      UpperSevenBits(v, m);
      DecodeShift(m, RegNumber(f.rd), RegNumber(f.rs1), bits);
      if ShiftAmountOk(m, v) {
        DecodeEncodeI(m, RegNumber(f.rd), RegNumber(f.rs1), bits);
      }
    } else {
      DecodeEncodeI(m, RegNumber(f.rd), RegNumber(f.rs1), bits);
    }
  }

  /** In range the parser's twelve-bit field is the rendering of v, and reads
      back as v. */
  lemma TwelveBits(v: int)
    requires Immediates.IMin <= v <= Immediates.IMax
    ensures Immediates.EncodeI(v).bits == Fixed(v, 12)
    ensures IsBitField(Fixed(v, 12), 12) && SignedValue(Fixed(v, 12)) == v
  {
    Immediates.Widths();
    Immediates.FieldCases(v, 12);
    Immediates.EncodeIRoundTrip(v);
  }

  /** The I-format warnings: a shift whose amount the decoder does not accept,
      a load or jalr whose offset is not a multiple of four. */
  lemma RecordIWarnings(f: Fields, v: int)
    requires WellFormed(f) && IsaFormat(MnemonicOf(f)) == FmtI
    requires Immediates.IMin <= v <= Immediates.IMax && f.imm.value.bits == Immediates.EncodeI(v).bits
    ensures ExpectedWarnings(f) ==
      if MnemonicOf(f) in {SLLI, SRLI, SRAI} then (if ShiftAmountOk(MnemonicOf(f), v) then [] else [ShiftBits(f.lineno)])
      else if MnemonicOf(f) !in InstrBopArithi && v % 4 != 0 then [Misaligned(f.lineno)] else []
  {
    TwelveBits(v);
    LowTwoBits(v);
    UpperSevenBits(v, MnemonicOf(f));
  }

  /** The store immediate joined again is the twelve-bit rendering of v, and
      its low half ends in 00 exactly for a multiple of four. */
  lemma StoreBitsOf(v: int)
    requires Immediates.IMin <= v <= Immediates.IMax
    ensures var h := Immediates.EncodeS(v).bits; var t := Immediates.StoreJoin(h);
      IsBitField(t, 12) && SignedValue(t) == v && (h.lo[3..] == "00" <==> v % 4 == 0)
  {
    var h := Immediates.EncodeS(v).bits;
    var t := Immediates.StoreJoin(h);
    Immediates.EncodeSFits(v);
    Immediates.EncodeSRoundTrip(v);
    assert h.lo[3..] == t[10..];
    LowTwoBits(v);
  }

  /** A store record with the halves of v in range: its word reads back with
      v, and it is warned about exactly when v is not a multiple of four. */
  lemma RecordS(f: Fields, v: int)
    requires WellFormed(f) && IsaFormat(MnemonicOf(f)) == FmtS
    requires Immediates.IMin <= v <= Immediates.IMax
    requires f.imm.value == Split(Immediates.EncodeS(v).bits.hi, Immediates.EncodeS(v).bits.lo)
    ensures Decode(ExpectedWord(f)) == Some(Decoded(MnemonicOf(f), None, Some(RegNumber(f.rs1)), Some(RegNumber(f.rs2)), Some(v)))
    ensures ExpectedWarnings(f) == if v % 4 != 0 then [Misaligned(f.lineno)] else []
  {
    var h := Immediates.EncodeS(v).bits;
    assert Immediates.Halves(f.imm.value.hi, f.imm.value.lo) == h;
    var t := Immediates.StoreJoin(h);
    assert ExpectedWord(f) == EncodeS(MnemonicOf(f), RegNumber(f.rs1), RegNumber(f.rs2), t);
    StoreBitsOf(v);
    BinFieldFixed(f.rs1);
    BinFieldFixed(f.rs2);
    DecodeEncodeS(MnemonicOf(f), RegNumber(f.rs1), RegNumber(f.rs2), t);
  }

  /** The branch immediate put back in order is the rendering of v halved. */
  lemma BranchBitsOf(v: int)
    requires Immediates.BMin <= v <= Immediates.BMax
    ensures var t := Immediates.BranchJoin(Immediates.EncodeSB(v).bits);
      IsBitField(t, 12) && 2 * SignedValue(t) == Even(v) && t[11] == LowBit(v / 2)
  {
    Immediates.EncodeSBTruncates(v);
    Immediates.EncodeSBRoundTrip(v);
  }

  /** Reordering bits gives bits. */
  lemma JoinBits(hi: string, lo: string)
    requires |hi| == 7 && |lo| == 5 && IsBits(hi) && IsBits(lo)
    ensures IsBits(Immediates.BranchJoin(Immediates.Halves(hi, lo)))
  {
    var t := Immediates.BranchJoin(Immediates.Halves(hi, lo));
    forall i | 0 <= i < 12 ensures IsBit(t[i]) {
      assert t[i] in hi || t[i] in lo;
    }
  }

  lemma UnorderBits(r: string)
    requires |r| == 20 && IsBits(r)
    ensures IsBits(Immediates.JumpUnorder(r))
  {
    var t := Immediates.JumpUnorder(r);
    forall i | 0 <= i < 20 ensures IsBit(t[i]) {
      assert t[i] in r;
    }
  }

  /** The halves of a branch immediate are bits when the immediate put back in
      order is. */
  lemma HalvesBits(h: Immediates.Halves)
    requires |h.hi| == 7 && |h.lo| == 5 && IsBits(Immediates.BranchJoin(h))
    ensures IsBits(h.hi) && IsBits(h.lo)
  {
    var t := Immediates.BranchJoin(h);
    forall j | 0 <= j < 7 ensures IsBit(h.hi[j]) {
      if j == 0 { assert h.hi[j] == t[0]; } else { assert h.hi[j] == t[j + 1]; }
    }
    forall j | 0 <= j < 5 ensures IsBit(h.lo[j]) {
      if j == 4 { assert h.lo[j] == t[1]; } else { assert h.lo[j] == t[j + 8]; }
    }
  }

  /** A jump field is bits when the field put back in order is. */
  lemma OrderedBits(r: string)
    requires |r| == 20 && IsBits(Immediates.JumpUnorder(r))
    ensures IsBits(r)
  {
    var t := Immediates.JumpUnorder(r);
    forall j | 0 <= j < 20 ensures IsBit(r[j]) {
      if j == 0 { assert r[j] == t[0]; }
      else if j < 11 { assert r[j] == t[j + 9]; }
      else if j == 11 { assert r[j] == t[9]; }
      else { assert r[j] == t[j - 11]; }
    }
  }

  /** A branch record reads back as its instruction and registers, with the
      byte offset its halves stand for. */
  lemma RecordSB(f: Fields)
    requires WellFormed(f) && IsaFormat(MnemonicOf(f)) == FmtSB
    requires IsBits(f.imm.value.hi) && IsBits(f.imm.value.lo)
    ensures Decode(ExpectedWord(f)) == Some(Decoded(MnemonicOf(f), None, Some(RegNumber(f.rs1)), Some(RegNumber(f.rs2)),
      Some(Immediates.Offset(Immediates.BranchJoin(Immediates.Halves(f.imm.value.hi, f.imm.value.lo))))))
  {
    var t := Immediates.BranchJoin(Immediates.Halves(f.imm.value.hi, f.imm.value.lo));
    JoinBits(f.imm.value.hi, f.imm.value.lo);
    BinFieldFixed(f.rs1);
    BinFieldFixed(f.rs2);
    DecodeEncodeB(MnemonicOf(f), RegNumber(f.rs1), RegNumber(f.rs2), t);
  }

  /** A branch with the halves of v in range is warned about exactly when bit 1
      of v is set; the lost bit 0 is not warned about. */
  lemma RecordSBWarnings(f: Fields, v: int)
    requires WellFormed(f) && IsaFormat(MnemonicOf(f)) == FmtSB
    requires Immediates.BMin <= v <= Immediates.BMax
    requires f.imm.value == Split(Immediates.EncodeSB(v).bits.hi, Immediates.EncodeSB(v).bits.lo)
    ensures ExpectedWarnings(f) == if (v / 2) % 2 != 0 then [Misaligned(f.lineno)] else []
  {
    assert Immediates.Halves(f.imm.value.hi, f.imm.value.lo) == Immediates.EncodeSB(v).bits;
    BranchBitsOf(v);
  }

  /** A lui or auipc record with the field of v in range: its word reads back
      with v as the upper twenty bits, without warnings. */
  lemma RecordU(f: Fields, v: int)
    requires WellFormed(f) && IsaFormat(MnemonicOf(f)) == FmtU
    requires Immediates.UMin <= v <= Immediates.UMax && f.imm.value.bits == Immediates.EncodeU(v).bits
    ensures Decode(ExpectedWord(f)) == Some(Decoded(MnemonicOf(f), Some(RegNumber(f.rd)), None, None, Some(v)))
    ensures ExpectedWarnings(f) == []
  {
    Immediates.EncodeURoundTrip(v);
    BinFieldFixed(f.rd);
    DecodeEncodeU(MnemonicOf(f), RegNumber(f.rd), f.imm.value.bits);
  }

  /** The jump immediate put back in order is the rendering of v halved. */
  lemma JumpBitsOf(v: int)
    requires Immediates.JMin <= v <= Immediates.JMax
    ensures Immediates.EncodeUJ(v).Ok?
    ensures var t := Immediates.JumpUnorder(Immediates.EncodeUJ(v).value.bits);
      IsBitField(t, 20) && 2 * SignedValue(t) == Even(v)
  {
    Immediates.EncodeUJTruncates(v);
    Immediates.EncodeUJRoundTrip(v);
  }

  /** A jal record reads back as jal and its register, with the byte offset
      its field stands for, and the generator does not warn about it. */
  lemma RecordUJ(f: Fields)
    requires WellFormed(f) && IsaFormat(MnemonicOf(f)) == FmtUJ && IsBits(f.imm.value.bits)
    ensures Decode(ExpectedWord(f)) ==
      Some(Decoded(MnemonicOf(f), Some(RegNumber(f.rd)), None, None, Some(Immediates.Offset(Immediates.JumpUnorder(f.imm.value.bits)))))
    ensures ExpectedWarnings(f) == []
  {
    var t := Immediates.JumpUnorder(f.imm.value.bits);
    UnorderBits(f.imm.value.bits);
    BinFieldFixed(f.rd);
    DecodeEncodeJ(MnemonicOf(f), RegNumber(f.rd), t);
  }

  // ---------------------------------------------------------------------
  // From the tokens

  /** An instruction line the parser accepts is generated as the reference
      word of its record, with the reference warnings. */
  lemma LineRecord(toks: seq<Token>)
    requires ParseLine(toks).Ok? && ParseLine(toks).value.program.Statement?
    requires ParseLine(toks).value.program.fields.Some?
    ensures var f := ParseLine(toks).value.program.fields.value;
      WellFormed(f) && LineOutput(toks) == Some(Generated(ExpectedWord(f), ExpectedWarnings(f)))
  {
    ParsedWellFormed(toks);
    ConvertWellFormed(ParseLine(toks).value.program.fields.value);
  }

  /** The number of an accepted register lexeme. */
  lemma RegOfField(text: string)
    requires RegisterField(Some(text))
    ensures RegNumber(Some(text)) == RegOf(text)
  {
  }

  /** Three registers: an accepted line is an R-format instruction, generated
      without warnings, and its word reads back as that instruction on those
      registers. */
  lemma LineR(toks: seq<Token>)
    requires Kinds(toks) == ShapeR && ParseLine(toks).Ok?
    ensures IsOpcodeIn(toks[0].text, TypeR)
    ensures LineOutput(toks).Some? && LineOutput(toks).value.warnings == []
    ensures Decode(LineOutput(toks).value.word) ==
      Some(Decoded(Lookup(toks[0].text).value, Some(RegOf(toks[1].text)), Some(RegOf(toks[3].text)), Some(RegOf(toks[5].text)), None))
  {
    ParseR(toks);
    LineRecord(toks);
    var f := ParseLine(toks).value.program.fields.value;
    var m := MnemonicOf(f);
    FormatClassesRegister(m);
    RegOfField(toks[1].text);
    RegOfField(toks[3].text);
    RegOfField(toks[5].text);
    BinFieldFixed(f.rd);
    BinFieldFixed(f.rs1);
    BinFieldFixed(f.rs2);
    DecodeEncodeR(m, RegNumber(f.rd), RegNumber(f.rs1), RegNumber(f.rs2));
  }

  /** Two registers and an I-format opcode: the line is generated, and with
      the immediate v in range its word reads back with v; a shift reads back
      as itself exactly when its amount is one the decoder accepts. */
  lemma LineI(toks: seq<Token>, v: int)
    requires Kinds(toks) == ShapeRRI && IntOf(toks[5].text) == Some(v) && ParseLine(toks).Ok?
    requires IsOpcodeIn(toks[0].text, TypeI) && Immediates.IMin <= v <= Immediates.IMax
    ensures LineOutput(toks).Some?
    ensures var m, w := Lookup(toks[0].text).value, LineOutput(toks).value.word;
      var d := Decoded(m, Some(RegOf(toks[1].text)), Some(RegOf(toks[3].text)), None, Some(v));
      && (m !in {SLLI, SRLI, SRAI} ==> Decode(w) == Some(d))
      && (m in {SLLI, SRLI, SRAI} ==>
            (Decode(w).Some? && Decode(w).value.m == m <==> ShiftAmountOk(m, v)) &&
            (ShiftAmountOk(m, v) ==> Decode(w) == Some(d)))
  {
    ParseRRI(toks);
    LineRecord(toks);
    var f := ParseLine(toks).value.program.fields.value;
    FormatClassesImmediate(MnemonicOf(f));
    RegOfField(toks[1].text);
    RegOfField(toks[3].text);
    RecordI(f, v);
  }

  /** The warnings of an I-format line with the immediate v in range: a shift
      with an amount the decoder does not accept, a load or jalr whose offset
      is not a multiple of four. */
  lemma LineIWarnings(toks: seq<Token>, v: int)
    requires Kinds(toks) == ShapeRRI && IntOf(toks[5].text) == Some(v) && ParseLine(toks).Ok?
    requires IsOpcodeIn(toks[0].text, TypeI) && Immediates.IMin <= v <= Immediates.IMax
    ensures LineOutput(toks).Some?
    ensures var m := Lookup(toks[0].text).value;
      LineOutput(toks).value.warnings ==
        if m in {SLLI, SRLI, SRAI} then (if ShiftAmountOk(m, v) then [] else [ShiftBits(toks[0].lineno)])
        else if m !in InstrBopArithi && v % 4 != 0 then [Misaligned(toks[0].lineno)] else []
  {
    ParseRRI(toks);
    LineRecord(toks);
    var f := ParseLine(toks).value.program.fields.value;
    FormatClassesImmediate(MnemonicOf(f));
    RecordIWarnings(f, v);
  }

  /** Two registers and a store opcode: with the immediate v in range the word
      reads back as the store with v, and it is warned about exactly when v is
      not a multiple of four. */
  lemma LineS(toks: seq<Token>, v: int)
    requires Kinds(toks) == ShapeRRI && IntOf(toks[5].text) == Some(v) && ParseLine(toks).Ok?
    requires IsOpcodeIn(toks[0].text, TypeS) && Immediates.IMin <= v <= Immediates.IMax
    ensures LineOutput(toks).Some?
    ensures Decode(LineOutput(toks).value.word) ==
      Some(Decoded(Lookup(toks[0].text).value, None, Some(RegOf(toks[1].text)), Some(RegOf(toks[3].text)), Some(v)))
    ensures LineOutput(toks).value.warnings == if v % 4 != 0 then [Misaligned(toks[0].lineno)] else []
  {
    ParseRRI(toks);
    var m := Lookup(toks[0].text).value;
    FormatClassesImmediate(m);
    FormatClassesRegister(m);
    LineRecord(toks);
    var f := ParseLine(toks).value.program.fields.value;
    RegOfField(toks[1].text);
    RegOfField(toks[3].text);
    RecordS(f, v);
  }

  /** Two registers and a branch opcode: with the immediate v in range the
      word reads back as the branch with v rounded down to even, and it is
      warned about exactly when bit 1 of v is set. */
  lemma LineSB(toks: seq<Token>, v: int)
    requires Kinds(toks) == ShapeRRI && IntOf(toks[5].text) == Some(v) && ParseLine(toks).Ok?
    requires IsOpcodeIn(toks[0].text, TypeSB) && Immediates.BMin <= v <= Immediates.BMax
    ensures LineOutput(toks).Some?
    ensures Decode(LineOutput(toks).value.word) ==
      Some(Decoded(Lookup(toks[0].text).value, None, Some(RegOf(toks[1].text)), Some(RegOf(toks[3].text)), Some(Even(v))))
    ensures LineOutput(toks).value.warnings == if (v / 2) % 2 != 0 then [Misaligned(toks[0].lineno)] else []
  {
    ParseRRI(toks);
    var m := Lookup(toks[0].text).value;
    FormatClassesImmediate(m);
    FormatClassesRegister(m);
    LineRecord(toks);
    var f := ParseLine(toks).value.program.fields.value;
    RegOfField(toks[1].text);
    RegOfField(toks[3].text);
    var h := Immediates.EncodeSB(v).bits;
    assert Immediates.Halves(f.imm.value.hi, f.imm.value.lo) == h;
    BranchBitsOf(v);
    HalvesBits(h);
    RecordSB(f);
    RecordSBWarnings(f, v);
  }

  /** One register and a lui or auipc opcode: with the immediate v in range
      the word reads back with v as its upper twenty bits, without warnings. */
  lemma LineU(toks: seq<Token>, v: int)
    requires Kinds(toks) == ShapeRI && IntOf(toks[3].text) == Some(v) && ParseLine(toks).Ok?
    requires IsOpcodeIn(toks[0].text, TypeU) && Immediates.UMin <= v <= Immediates.UMax
    ensures LineOutput(toks).Some? && LineOutput(toks).value.warnings == []
    ensures Decode(LineOutput(toks).value.word) ==
      Some(Decoded(Lookup(toks[0].text).value, Some(RegOf(toks[1].text)), None, None, Some(v)))
  {
    ParseRI(toks);
    FormatClassesImmediate(Lookup(toks[0].text).value);
    LineRecord(toks);
    var f := ParseLine(toks).value.program.fields.value;
    RegOfField(toks[1].text);
    RecordU(f, v);
  }

  /** One register and jal: with the immediate v in range the word reads back
      as jal with v rounded down to even, without warnings from the
      generator. */
  lemma LineUJ(toks: seq<Token>, v: int)
    requires Kinds(toks) == ShapeRI && IntOf(toks[3].text) == Some(v) && ParseLine(toks).Ok?
    requires IsOpcodeIn(toks[0].text, TypeUJ) && Immediates.JMin <= v <= Immediates.JMax
    ensures LineOutput(toks).Some? && LineOutput(toks).value.warnings == []
    ensures Decode(LineOutput(toks).value.word) ==
      Some(Decoded(JAL, Some(RegOf(toks[1].text)), None, None, Some(Even(v))))
  {
    ParseRI(toks);
    FormatClassesImmediate(Lookup(toks[0].text).value);
    LineRecord(toks);
    var f := ParseLine(toks).value.program.fields.value;
    RegOfField(toks[1].text);
    JumpBitsOf(v);
    OrderedBits(f.imm.value.bits);
    RecordUJ(f);
  }
}
