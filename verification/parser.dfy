/** The grammar of one line. A line is a label declaration `name :`, an empty
    statement, or an instruction in one of three operand shapes: three
    registers, two registers and an immediate, or one register and an
    immediate. Registers are checked to be $0..$31 as soon as they are read;
    once the whole line has matched, the opcode must belong to a format that
    takes that shape, and the immediate is encoded for that format. The result
    is the record the generator consumes, keyed like the source's dictionary. */
module Parser {
  import opened Results
  import opened BitString
  import opened MachineCodeConst
  import opened Tokenizer
  import opened PyInt
  import opened Immediates

  /** The `imm` entry: one bit string, or the (hi, lo) pair of stores and branches. */
  datatype Imm = Whole(bits: string) | Split(hi: string, lo: string)

  /** The dictionary of one instruction; a key the source leaves out is None. */
  datatype Fields = Fields(
    opcode: Option<string>,
    rd: Option<string>,
    rs1: Option<string>,
    rs2: Option<string>,
    imm: Option<Imm>,
    lineno: int)

  /** `{'TYPE': 'LABEL', ...}` or `{'TYPE': 'NON_LABEL', 'TOKENS': ...}`, where
      the tokens of an empty statement are None. */
  datatype Program = LabelDecl(name: string, lineno: int) | Statement(fields: Option<Fields>)

  /** Warnings printed while parsing (only shown when warnings are on). */
  datatype ParseWarning = Overflow(lineno: int) | Unaligned(lineno: int)

  datatype Parsed = Parsed(program: Program, warnings: seq<ParseWarning>)

  datatype ParseError =
    | UnexpectedToken(lineno: int, text: string)  // p_error on a token
    | UnexpectedEnd                               // p_error at the end of the input
    | BadRegister(lineno: int)                    // p_register: outside $0..$31
    | UnreadableRegister(lineno: int)             // int() of the register raises
    | BadOpcode(lineno: int)                      // "Incorrect opcode or arguments"
    | UnreadableImmediate(lineno: int)            // int() of the immediate raises
    | EncoderAssertion(lineno: int)               // the jump encoder's length assertion

  // The right-hand sides of the productions, as token kinds.
  const ShapeEmpty: seq<Kind> := [Newline]
  const ShapeLabel: seq<Kind> := [Label, Column, Newline]
  const ShapeR: seq<Kind> := [Opcode, Register, Comma, Register, Comma, Register, Newline]
  const ShapeRRI: seq<Kind> := [Opcode, Register, Comma, Register, Comma, Immediate, Newline]
  const ShapeRI: seq<Kind> := [Opcode, Register, Comma, Immediate, Newline]

  predicate IsShape(ks: seq<Kind>) {
    ks == ShapeEmpty || ks == ShapeLabel || ks == ShapeR || ks == ShapeRRI || ks == ShapeRI
  }

  predicate IsPrefix(a: seq<Kind>, b: seq<Kind>) {
    |a| <= |b| && b[..|a|] == a
  }

  /** The kinds read so far can still be completed to a line. */
  predicate Viable(ks: seq<Kind>) {
    IsPrefix(ks, ShapeEmpty) || IsPrefix(ks, ShapeLabel) || IsPrefix(ks, ShapeR)
    || IsPrefix(ks, ShapeRRI) || IsPrefix(ks, ShapeRI)
  }

  function Kinds(toks: seq<Token>): (ks: seq<Kind>)
    ensures |ks| == |toks| && forall i :: 0 <= i < |toks| ==> ks[i] == toks[i].kind
  {
    seq(|toks|, i requires 0 <= i < |toks| => toks[i].kind)
  }

  /** The register check of p_register. */
  predicate RegisterOk(r: string) {
    RegisterIndex(r).Some? && 0 <= RegisterIndex(r).value <= 31
  }

  /** The first error met reading the tokens from i on, in the order the parser
      meets them: a token that cannot continue the line, or a register out of
      range (checked as soon as it is read). */
  function TokenError(toks: seq<Token>, i: nat): Option<ParseError>
    requires i <= |toks|
    decreases |toks| - i
  {
    if i == |toks| then None
    else if !Viable(Kinds(toks[..i + 1])) then Some(UnexpectedToken(toks[i].lineno, toks[i].text))
    else if toks[i].kind == Register && RegisterIndex(toks[i].text).None? then Some(UnreadableRegister(toks[i].lineno))
    else if toks[i].kind == Register && !RegisterOk(toks[i].text) then Some(BadRegister(toks[i].lineno))
    else TokenError(toks, i + 1)
  }

  /** The opcode text names a mnemonic of the class. */
  predicate IsOpcodeIn(s: string, cls: set<Mnemonic>) {
    Lookup(s).Some? && Lookup(s).value in cls
  }

  function Warnings(overflow: bool, misaligned: bool, lineno: int): seq<ParseWarning> {
    (if overflow then [Overflow(lineno)] else []) + (if misaligned then [Unaligned(lineno)] else [])
  }

  /** The parse of one line's tokens. */
  function ParseLine(toks: seq<Token>): Result<Parsed, ParseError> {
    var ks := Kinds(toks);
    match TokenError(toks, 0)
    case Some(e) => Err(e)
    case None =>
      if ks == ShapeEmpty then Ok(Parsed(Statement(None), []))
      else if ks == ShapeLabel then Ok(Parsed(LabelDecl(toks[0].text, toks[0].lineno), []))
      else if ks == ShapeR then StatementR(toks)
      else if ks == ShapeRRI then StatementRRI(toks)
      else if ks == ShapeRI then StatementRI(toks)
      else Err(UnexpectedEnd)
  }

  /** p_statement_R. */
  function StatementR(toks: seq<Token>): Result<Parsed, ParseError>
    requires |toks| == 7
  {
    var op, ln := toks[0].text, toks[0].lineno;
    if !IsOpcodeIn(op, TypeR) then Err(BadOpcode(ln))
    else
      var f := Fields(Some(op), Some(toks[1].text), Some(toks[3].text), Some(toks[5].text), None, ln);
      Ok(Parsed(Statement(Some(f)), []))
  }

  /** p_statement_I_S_SB: I-format opcodes take (rd, rs1), store and branch
      opcodes (rs1, rs2). */
  function StatementRRI(toks: seq<Token>): Result<Parsed, ParseError>
    requires |toks| == 7
  {
    var op, ln := toks[0].text, toks[0].lineno;
    var r1, r2 := toks[1].text, toks[3].text;
    if !(IsOpcodeIn(op, TypeI) || IsOpcodeIn(op, TypeS) || IsOpcodeIn(op, TypeSB)) then Err(BadOpcode(ln))
    else match IntOf(toks[5].text)
      case None => Err(UnreadableImmediate(ln))
      case Some(v) =>
        if IsOpcodeIn(op, TypeI) then
          var e := EncodeI(v);
          var f := Fields(Some(op), Some(r1), Some(r2), None, Some(Whole(e.bits)), ln);
          Ok(Parsed(Statement(Some(f)), Warnings(e.overflow, e.misaligned, ln)))
        else
          var e := if IsOpcodeIn(op, TypeS) then EncodeS(v) else EncodeSB(v);
          var f := Fields(Some(op), None, Some(r1), Some(r2), Some(Split(e.bits.hi, e.bits.lo)), ln);
          Ok(Parsed(Statement(Some(f)), Warnings(e.overflow, e.misaligned, ln)))
  }

  /** p_statement_U_UJ. */
  function StatementRI(toks: seq<Token>): Result<Parsed, ParseError>
    requires |toks| == 5
  {
    var op, ln := toks[0].text, toks[0].lineno;
    if !(IsOpcodeIn(op, TypeU) || IsOpcodeIn(op, TypeUJ)) then Err(BadOpcode(ln))
    else match IntOf(toks[3].text)
      case None => Err(UnreadableImmediate(ln))
      case Some(v) =>
        if IsOpcodeIn(op, TypeU) then
          var e := EncodeU(v);
          var f := Fields(Some(op), Some(toks[1].text), None, None, Some(Whole(e.bits)), ln);
          Ok(Parsed(Statement(Some(f)), Warnings(e.overflow, e.misaligned, ln)))
        else match EncodeUJ(v)
          case Err(_) => Err(EncoderAssertion(ln))
          case Ok(e) =>
            var f := Fields(Some(op), Some(toks[1].text), None, None, Some(Whole(e.bits)), ln);
            Ok(Parsed(Statement(Some(f)), Warnings(e.overflow, e.misaligned, ln)))
  }

  // ---------------------------------------------------------------------
  // The records the parser produces

  /** A register entry that passed p_register. */
  predicate RegisterField(r: Option<string>) {
    r.Some? && RegisterOk(r.value)
  }

  predicate WholeOf(imm: Option<Imm>, width: nat) {
    imm.Some? && imm.value.Whole? && |imm.value.bits| == width
  }

  predicate SplitOf(imm: Option<Imm>) {
    imm.Some? && imm.value.Split? && |imm.value.hi| == 7 && |imm.value.lo| == 5
  }

  /** The keys a record of each format carries, and their widths. */
  predicate WellFormed(f: Fields) {
    f.opcode.Some? && Lookup(f.opcode.value).Some? &&
    match IsaFormat(Lookup(f.opcode.value).value)
    case FmtR =>
      RegisterField(f.rd) && RegisterField(f.rs1) && RegisterField(f.rs2) && f.imm.None?
    case FmtI =>
      RegisterField(f.rd) && RegisterField(f.rs1) && f.rs2.None? && WholeOf(f.imm, 12)
    case FmtS =>
      f.rd.None? && RegisterField(f.rs1) && RegisterField(f.rs2) && SplitOf(f.imm)
    case FmtSB =>
      f.rd.None? && RegisterField(f.rs1) && RegisterField(f.rs2) && SplitOf(f.imm)
    case FmtU =>
      RegisterField(f.rd) && f.rs1.None? && f.rs2.None? && WholeOf(f.imm, 20)
    case FmtUJ =>
      RegisterField(f.rd) && f.rs1.None? && f.rs2.None? && WholeOf(f.imm, 20)
  }

  // ---------------------------------------------------------------------
  // Properties

  /** Only the five productions are accepted: every other sequence of token
      kinds is an error. */
  lemma ParseOnlyShapes(toks: seq<Token>)
    ensures ParseLine(toks).Ok? ==> IsShape(Kinds(toks))
  {
  }

  lemma PrefixOfShape(toks: seq<Token>, i: nat)
    requires IsShape(Kinds(toks)) && i < |toks|
    ensures Viable(Kinds(toks[..i + 1]))
  {
    assert Kinds(toks[..i + 1]) == Kinds(toks)[..i + 1];
  }

  /** On a line of one of the shapes the only token errors are the register checks. */
  lemma {:induction false} TokenErrorRegisters(toks: seq<Token>, i: nat)
    requires IsShape(Kinds(toks)) && i <= |toks|
    ensures TokenError(toks, i).None? <==>
      forall j :: i <= j < |toks| && toks[j].kind == Register ==> RegisterOk(toks[j].text)
    decreases |toks| - i
  {
    if i < |toks| {
      PrefixOfShape(toks, i);
      TokenErrorRegisters(toks, i + 1);
    }
  }

  /** The three-register shape is accepted exactly for R-format opcodes with
      registers in range, giving (rd, rs1, rs2) in the order written. */
  lemma ParseR(toks: seq<Token>)
    requires Kinds(toks) == ShapeR
    ensures ParseLine(toks).Ok? <==>
      RegisterOk(toks[1].text) && RegisterOk(toks[3].text) && RegisterOk(toks[5].text)
      && IsOpcodeIn(toks[0].text, TypeR)
    ensures ParseLine(toks).Ok? ==> ParseLine(toks).value == Parsed(Statement(Some(
      Fields(Some(toks[0].text), Some(toks[1].text), Some(toks[3].text), Some(toks[5].text), None, toks[0].lineno))), [])
  {
    TokenErrorRegisters(toks, 0);
    var ks := Kinds(toks);
    assert ks[1] == Register && ks[3] == Register && ks[5] == Register;
    assert forall j :: 0 <= j < 7 && j != 1 && j != 3 && j != 5 ==> ks[j] != Register;
  }

  /** The shape with two registers and an immediate is accepted exactly for I,
      S and SB opcodes with registers in range; I opcodes take (rd, rs1) and the
      12-bit field, stores and branches (rs1, rs2) and the halves. */
  lemma ParseRRI(toks: seq<Token>)
    requires Kinds(toks) == ShapeRRI && IntOf(toks[5].text).Some?
    ensures ParseLine(toks).Ok? <==>
      RegisterOk(toks[1].text) && RegisterOk(toks[3].text)
      && (IsOpcodeIn(toks[0].text, TypeI) || IsOpcodeIn(toks[0].text, TypeS) || IsOpcodeIn(toks[0].text, TypeSB))
    ensures ParseLine(toks).Ok? ==>
      var op, r1, r2, ln, v := toks[0].text, toks[1].text, toks[3].text, toks[0].lineno, IntOf(toks[5].text).value;
      ParseLine(toks).value.program == Statement(Some(
        if IsOpcodeIn(op, TypeI) then Fields(Some(op), Some(r1), Some(r2), None, Some(Whole(EncodeI(v).bits)), ln)
        else if IsOpcodeIn(op, TypeS) then Fields(Some(op), None, Some(r1), Some(r2), Some(Split(EncodeS(v).bits.hi, EncodeS(v).bits.lo)), ln)
        else Fields(Some(op), None, Some(r1), Some(r2), Some(Split(EncodeSB(v).bits.hi, EncodeSB(v).bits.lo)), ln)))
  {
    TokenErrorRegisters(toks, 0);
    var ks := Kinds(toks);
    assert ks[1] == Register && ks[3] == Register;
    assert forall j :: 0 <= j < 7 && j != 1 && j != 3 ==> ks[j] != Register;
  }

  /** The shape with one register and an immediate is accepted exactly for U and
      UJ opcodes with the register in range, unless the jump encoder's assertion
      fails; the record holds rd and the 20-bit field. */
  lemma ParseRI(toks: seq<Token>)
    requires Kinds(toks) == ShapeRI && IntOf(toks[3].text).Some?
    ensures var op, v := toks[0].text, IntOf(toks[3].text).value;
      ParseLine(toks).Ok? <==>
      RegisterOk(toks[1].text)
      && (IsOpcodeIn(op, TypeU) || (IsOpcodeIn(op, TypeUJ) && EncodeUJ(v).Ok?))
    ensures ParseLine(toks).Ok? ==>
      var op, v := toks[0].text, IntOf(toks[3].text).value;
      ParseLine(toks).value.program == Statement(Some(Fields(Some(op), Some(toks[1].text), None, None,
        Some(Whole(if IsOpcodeIn(op, TypeU) then EncodeU(v).bits else EncodeUJ(v).value.bits)), toks[0].lineno)))
  {
    TokenErrorRegisters(toks, 0);
    var ks := Kinds(toks);
    assert ks[1] == Register;
    assert forall j :: 0 <= j < 5 && j != 1 ==> ks[j] != Register;
  }

  /** A label declaration is accepted as written, whatever the name. */
  lemma ParseLabel(toks: seq<Token>)
    requires Kinds(toks) == ShapeLabel
    ensures ParseLine(toks) == Ok(Parsed(LabelDecl(toks[0].text, toks[0].lineno), []))
  {
    TokenErrorRegisters(toks, 0);
    assert forall j :: 0 <= j < 3 ==> Kinds(toks)[j] != Register;
  }

  /** Every instruction record the parser produces has the keys and widths of its
      opcode's format, with registers in range. */
  lemma ParsedWellFormed(toks: seq<Token>)
    requires ParseLine(toks).Ok? && ParseLine(toks).value.program.Statement?
    requires ParseLine(toks).value.program.fields.Some?
    ensures WellFormed(ParseLine(toks).value.program.fields.value)
  {
    var ks := Kinds(toks);
    if ks == ShapeR {
      WellFormedR(toks);
    } else if ks == ShapeRRI {
      WellFormedRRI(toks);
    } else {
      assert ks == ShapeRI;
      WellFormedRI(toks);
    }
  }

  lemma WellFormedR(toks: seq<Token>)
    requires Kinds(toks) == ShapeR && ParseLine(toks).Ok?
    ensures WellFormed(ParseLine(toks).value.program.fields.value)
  {
    ParseR(toks);
    FormatClassesRegister(Lookup(toks[0].text).value);
  }

  lemma WellFormedRRI(toks: seq<Token>)
    requires Kinds(toks) == ShapeRRI && ParseLine(toks).Ok?
    ensures WellFormed(ParseLine(toks).value.program.fields.value)
  {
    ParseRRI(toks);
    var m := Lookup(toks[0].text).value;
    FormatClassesImmediate(m);
    FormatClassesRegister(m);
    if m in TypeI {
      assert IsaFormat(m) == FmtI;
    } else if m in TypeS {
      assert IsaFormat(m) == FmtS;
    } else {
      assert IsaFormat(m) == FmtSB;
    }
  }

  lemma WellFormedRI(toks: seq<Token>)
    requires Kinds(toks) == ShapeRI && ParseLine(toks).Ok?
    ensures WellFormed(ParseLine(toks).value.program.fields.value)
  {
    ParseRI(toks);
    FormatClassesImmediate(Lookup(toks[0].text).value);
  }

  /** The immediate of a record holds bits, with at most a '-' in front of the
      field or of the first half. */
  predicate SignedImm(f: Fields) {
    match f.imm
    case None => true
    case Some(Whole(b)) => SignedBits(b)
    case Some(Split(hi, lo)) => SignedBits(hi) && IsBits(lo)
  }

  /** Every immediate the parser stores is one `int(..., 2)` can read once the
      word is assembled around it. */
  lemma ParsedSigned(toks: seq<Token>)
    requires ParseLine(toks).Ok? && ParseLine(toks).value.program.Statement?
    requires ParseLine(toks).value.program.fields.Some?
    ensures SignedImm(ParseLine(toks).value.program.fields.value)
  {
    var ks := Kinds(toks);
    if ks == ShapeRRI {
      EncodersSigned(IntOf(toks[5].text).value);
    } else if ks == ShapeRI {
      EncodersSigned(IntOf(toks[3].text).value);
    }
  }
}
