/** The machine-code generator: the record of one instruction is dispatched on
    the binary-opcode group of its opcode, the registers are rendered in five
    bits, and the fields are concatenated in the order of the instruction's
    format. Advisory checks warn about misaligned offsets and about shift
    immediates whose upper seven bits are not those of the shift. */
module MachineCodeGen {
  import opened Results
  import opened BitString
  import opened MachineCodeConst
  import opened PyInt
  import opened Parser
  import opened Decoder
  import Immediates

  datatype GenWarning =
    | Misaligned(lineno: int)  // "32_Warning: Missaligned address.", a 32-bit core warning
    | ShiftBits(lineno: int)   // "Upper 7 bits of immediate should be ..."

  datatype GenError =
    | MissingOpcode                       // no 'opcode' key: None is returned
    | NotImplemented(lineno: int)         // the opcode is in no group: None is returned
    | InternalError(g: Group, lineno: int)  // the guarded lookups failed: exit()
    | ConcatTypeError(lineno: int)        // a (hi, lo) pair where a string is concatenated
    | IndexError(lineno: int)             // imm_4_1_11[-2] on fewer than two characters
    | LengthAssertion(lineno: int)        // assert(len(bin_str) == 32)

  datatype Generated = Generated(word: string, warnings: seq<GenWarning>)

  /** An exit or an exception raised on the record's line, as opposed to
      convert_to_binary returning None. */
  predicate Raises(r: Result<Generated, GenError>, lineno: int) {
    r.Err? ==> !r.error.MissingOpcode? && !r.error.NotImplemented? && r.error.lineno == lineno
  }

  /** get_bin_register: `int(r[1:])` in five bits; None where the source's
      assertions (0 <= n < 32) or the conversion fail. */
  function GetBinRegister(r: string): Option<string> {
    match RegisterIndex(r)
    case None => None
    case Some(n) => if n >= 0 && n < 32 then Some(FormatBin(n, 5)) else None
  }

  /** The group whose mnemonic set holds the opcode, tried in the source's order;
      a string that names no instruction is in none of the sets. */
  function GroupOf(opcode: string): Option<Group> {
    match Lookup(opcode)
    case None => None
    case Some(m) => GroupIn(m)
  }

  function GroupIn(m: Mnemonic): Option<Group> {
    if m in InstrBopLui then Some(GLui)
    else if m in InstrBopAuipc then Some(GAuipc)
    else if m in InstrBopJal then Some(GJal)
    else if m in InstrBopJalr then Some(GJalr)
    else if m in InstrBopBranch then Some(GBranch)
    else if m in InstrBopLoad then Some(GLoad)
    else if m in InstrBopStore then Some(GStore)
    else if m in InstrBopArithi then Some(GArithi)
    else if m in InstrBopArith then Some(GArith)
    else None
  }

  /** A table lookup `TABLE[opcode]`. */
  function Lookup3(table: map<Mnemonic, string>, opcode: string): Option<string> {
    if Lookup(opcode).Some? && Lookup(opcode).value in table then Some(table[Lookup(opcode).value])
    else None
  }

  /** The funct3 table each op_ function consults. */
  function Funct3Table(g: Group): map<Mnemonic, string> {
    match g
    case GJalr => Funct3Jalr
    case GLoad => Funct3Load
    case GArithi => Funct3Arithi
    case GStore => Funct3Store
    case GBranch => Funct3Branch
    case _ => Funct3Arith
  }

  /** A present register key rendered in binary. */
  function BinField(r: Option<string>): Option<string> {
    if r.Some? then GetBinRegister(r.value) else None
  }

  /** Python's `a, b = imm`: a pair unpacks, and so does a string of exactly two
      characters; anything else raises. */
  function Unpack(imm: Option<Imm>): Option<(string, string)> {
    match imm
    case None => None
    case Some(Split(hi, lo)) => Some((hi, lo))
    case Some(Whole(bits)) => if |bits| == 2 then Some(([bits[0]], [bits[1]])) else None
  }

  /** `imm + rest`, where a pair raises TypeError. */
  function Prepend(imm: Imm, rest: string, lineno: int): (r: Result<string, GenError>)
    ensures r.Err? ==> r.error == ConcatTypeError(lineno)
  {
    match imm
    case Whole(bits) => Ok(bits + rest)
    case Split(_, _) => Err(ConcatTypeError(lineno))
  }

  function Checked(word: string, warnings: seq<GenWarning>, lineno: int): (r: Result<Generated, GenError>)
    ensures Raises(r, lineno)
  {
    if |word| == 32 then Ok(Generated(word, warnings)) else Err(LengthAssertion(lineno))
  }

  /** op_lui, op_auipc, op_jal: imm + rd + opcode. */
  function OpUpper(g: Group, f: Fields): (r: Result<Generated, GenError>)
    requires g == GLui || g == GAuipc || g == GJal
    ensures Raises(r, f.lineno)
  {
    var rd := BinField(f.rd);
    if rd.None? || f.imm.None? then Err(InternalError(g, f.lineno))
    else UpperInstr(g, f.imm.value, rd.value, f.lineno)
  }

  /** The word of op_lui, op_auipc and op_jal from its rendered fields. */
  function UpperInstr(g: Group, imm: Imm, rd: string, lineno: int): (r: Result<Generated, GenError>)
    ensures Raises(r, lineno)
  {
    var word :- Prepend(imm, rd + Bop(g), lineno);
    Checked(word, [], lineno)
  }

  /** op_jalr, op_load, op_arithi: imm + rs1 + funct3 + rd + opcode. */
  function OpImmediate(g: Group, f: Fields): (r: Result<Generated, GenError>)
    requires g == GJalr || g == GLoad || g == GArithi
    requires f.opcode.Some?
    ensures Raises(r, f.lineno)
  {
    var funct3 := Lookup3(Funct3Table(g), f.opcode.value);
    var rs1, rd := BinField(f.rs1), BinField(f.rd);
    if funct3.None? || rs1.None? || rd.None? || f.imm.None? then Err(InternalError(g, f.lineno))
    else ImmediateInstr(g, f.opcode.value, f.imm.value, rs1.value, funct3.value, rd.value, f.lineno)
  }

  /** The word and warnings of op_jalr, op_load and op_arithi from the rendered
      fields: jalr and load warn when the offset's last two bits are not zero,
      arithi runs the shift checks. */
  function ImmediateInstr(g: Group, op: string, imm: Imm, rs1: string, funct3: string, rd: string, lineno: int)
    : (r: Result<Generated, GenError>)
    ensures Raises(r, lineno)
  {
    var word :- Prepend(imm, rs1 + funct3 + rd + Bop(g), lineno);
    var warnings :=
      if g == GArithi then ShiftWarnings(op, imm.bits, lineno)
      else if Suffix(imm.bits, 2) != "00" then [Misaligned(lineno)]
      else [];
    Checked(word, warnings, lineno)
  }

  /** Python's `needle in hay` on strings: a substring test. */
  predicate Contains(hay: string, needle: string)
    decreases |hay|
  {
    (|needle| <= |hay| && hay[..|needle|] == needle) || (|hay| >= 1 && Contains(hay[1..], needle))
  }

  /** The shift checks of op_arithi: slli and srli want upper bits 0000000; the
      srai test is `opcode in 'srai'`, a substring test. */
  function ShiftWarnings(op: string, imm: string, lineno: int): seq<GenWarning> {
    (if (op == "slli" || op == "srli") && Prefix(imm, 7) != "0000000" then [ShiftBits(lineno)] else [])
    + (if Contains("srai", op) && Prefix(imm, 7) != "0100000" then [ShiftBits(lineno)] else [])
  }

  /** op_store and op_branch: imm_hi + rs2 + rs1 + funct3 + imm_lo + opcode. The
      branch tests imm_4_1_11[-2] before the length assertion; the store tests
      imm_4_0[-2:] after it. */
  function OpSplit(g: Group, f: Fields): (r: Result<Generated, GenError>)
    requires g == GStore || g == GBranch
    requires f.opcode.Some?
    ensures Raises(r, f.lineno)
  {
    var funct3 := Lookup3(Funct3Table(g), f.opcode.value);
    var rs1, rs2 := BinField(f.rs1), BinField(f.rs2);
    var halves := Unpack(f.imm);
    if funct3.None? || rs1.None? || rs2.None? || halves.None? then Err(InternalError(g, f.lineno))
    else SplitInstr(g, halves.value.0, rs2.value, rs1.value, funct3.value, halves.value.1, f.lineno)
  }

  /** The word and warning of op_store and op_branch from the rendered fields. */
  function SplitInstr(g: Group, hi: string, rs2: string, rs1: string, funct3: string, lo: string, lineno: int)
    : (r: Result<Generated, GenError>)
    ensures Raises(r, lineno)
  {
    var word := hi + rs2 + rs1 + funct3 + lo + Bop(g);
    if g == GStore then
      Checked(word, if Suffix(lo, 2) != "00" then [Misaligned(lineno)] else [], lineno)
    else if |lo| < 2 then Err(IndexError(lineno))
    else Checked(word, if lo[|lo| - 2] != '0' then [Misaligned(lineno)] else [], lineno)
  }

  /** op_arith: funct7 + rs2 + rs1 + funct3 + rd + opcode. */
  function OpArith(f: Fields): (r: Result<Generated, GenError>)
    requires f.opcode.Some?
    ensures Raises(r, f.lineno)
  {
    var funct3, funct7 := Lookup3(Funct3Arith, f.opcode.value), Lookup3(Funct7Arith, f.opcode.value);
    var rs1, rs2, rd := BinField(f.rs1), BinField(f.rs2), BinField(f.rd);
    if funct3.None? || funct7.None? || rs1.None? || rs2.None? || rd.None? then Err(InternalError(GArith, f.lineno))
    else Checked(funct7.value + rs2.value + rs1.value + funct3.value + rd.value + BopArith, [], f.lineno)
  }

  /** convert_to_binary. */
  function ConvertToBinary(f: Fields): Result<Generated, GenError> {
    if f.opcode.None? then Err(MissingOpcode)
    else match GroupOf(f.opcode.value)
      case None => Err(NotImplemented(f.lineno))
      case Some(g) => Generate(g, f)
  }

  /** The op_ function of each group. */
  function Generate(g: Group, f: Fields): (r: Result<Generated, GenError>)
    requires f.opcode.Some?
    ensures Raises(r, f.lineno)
  {
    match g
    case GLui => OpUpper(g, f)
    case GAuipc => OpUpper(g, f)
    case GJal => OpUpper(g, f)
    case GJalr => OpImmediate(g, f)
    case GLoad => OpImmediate(g, f)
    case GArithi => OpImmediate(g, f)
    case GStore => OpSplit(g, f)
    case GBranch => OpSplit(g, f)
    case GArith => OpArith(f)
  }

  // ---------------------------------------------------------------------
  // Registers and dispatch

  /** A register renders exactly when its number is 0 to 31, and then as that
      number in five bits. */
  lemma GetBinRegisterFixed(r: string)
    ensures GetBinRegister(r).Some? <==> RegisterOk(r)
    ensures RegisterOk(r) ==> GetBinRegister(r) == Some(Fixed(RegisterIndex(r).value, 5))
    ensures RegisterOk(r) ==> Value(Fixed(RegisterIndex(r).value, 5)) == RegisterIndex(r).value
  {
    if RegisterOk(r) {
      FiveBits(RegisterIndex(r).value);
    }
  }

  /** A register number renders as itself in five bits. */
  lemma FiveBits(n: int)
    requires 0 <= n < 32
    ensures FormatBin(n, 5) == Fixed(n, 5) && Value(Fixed(n, 5)) == n
  {
    assert Pow2(5) == 32;
    FormatBinFixed(n, 5);
    ValueFixed(n, 5);
  }

  /** The number of a register operand. */
  function RegNumber(r: Option<string>): nat
    requires RegisterField(r)
  {
    RegisterIndex(r.value).value
  }

  /** A register operand renders as its number in five bits. */
  lemma BinFieldFixed(r: Option<string>)
    requires RegisterField(r)
    ensures IsReg(RegNumber(r)) && BinField(r) == Some(Fixed(RegNumber(r), 5))
  {
    GetBinRegisterFixed(r.value);
  }

  /** An instruction is dispatched to the one group that holds it. */
  lemma GroupInMembers(m: Mnemonic, g: Group)
    requires m in Members(g)
    ensures GroupIn(m) == Some(g)
  {
    OpcodeGroupExclusive(m);
  }

  /** Every instruction is in some group. */
  lemma GroupInTotal(m: Mnemonic)
    ensures GroupIn(m).Some?
  {
    match m
    case LUI | AUIPC | JAL | JALR =>
    case BEQ | BNE | BLT | BGE | BLTU | BGEU =>
    case LB | LH | LW | LBU | LHU =>
    case SB | SH | SW =>
    case ADDI | SLTI | SLTIU | XORI | ORI | ANDI | SLLI | SRLI | SRAI =>
    case ADD | SUB | SLL | SLT | SLTU | XOR | SRL | SRA | OR | AND =>
  }

  // ---------------------------------------------------------------------
  // The srai test is a substring test

  lemma {:induction false} ContainsLonger(hay: string, needle: string)
    requires |needle| > |hay|
    ensures !Contains(hay, needle)
    decreases |hay|
  {
    if |hay| >= 1 {
      ContainsLonger(hay[1..], needle);
    }
  }

  /** A needle as long as the haystack is in it only when it is the haystack. */
  lemma ContainsSame(hay: string, needle: string)
    requires |needle| == |hay|
    ensures Contains(hay, needle) <==> hay == needle
  {
    if |hay| >= 1 {
      ContainsLonger(hay[1..], needle);
    }
  }

  /** Among the register-immediate mnemonics the spellings op_arithi compares against
      pick out the shifts: only srai is a substring of "srai". */
  lemma ShiftNames(m: Mnemonic)
    requires m in InstrBopArithi
    ensures Name(m) == "slli" <==> m == SLLI
    ensures Name(m) == "srli" <==> m == SRLI
    ensures Contains("srai", Name(m)) <==> m == SRAI
  {
    match m
    case ADDI => ContainsSame("srai", "addi");
    case SLTI => ContainsSame("srai", "slti");
    case SLTIU => ContainsLonger("srai", "sltiu");
    case XORI => ContainsSame("srai", "xori");
    case ORI =>
      assert !Contains("srai", "ori") by {
        ContainsSame("rai", "ori");
        assert "srai"[1..] == "rai";
      }
    case ANDI => ContainsSame("srai", "andi");
    case SLLI => ContainsSame("srai", "slli");
    case SRLI => ContainsSame("srai", "srli");
    case SRAI => ContainsSame("srai", "srai");
  }

  /** The reference shift check: a shift warns when imm[11:5] is not the
      selector of that shift. */
  function ShiftCheck(m: Mnemonic, imm: string, lineno: int): seq<GenWarning>
    requires |imm| == 12
  {
    if m in {SLLI, SRLI, SRAI} && imm[..7] != ShiftUpper(m) then [ShiftBits(lineno)] else []
  }

  /** The generator's shift checks are the reference one: the substring test
      singles out srai, and at most one warning is printed. */
  lemma ShiftWarningsCheck(m: Mnemonic, imm: string, lineno: int)
    requires m in InstrBopArithi && |imm| == 12
    ensures ShiftWarnings(Name(m), imm, lineno) == ShiftCheck(m, imm, lineno)
  {
    ShiftNames(m);
    ShiftTests(Name(m), m, imm, lineno);
  }

  /** The shift checks on a spelling op of m, given what the tests make of op. */
  lemma ShiftTests(op: string, m: Mnemonic, imm: string, lineno: int)
    requires |imm| == 12
    requires op == "slli" <==> m == SLLI
    requires op == "srli" <==> m == SRLI
    requires Contains("srai", op) <==> m == SRAI
    ensures ShiftWarnings(op, imm, lineno) == ShiftCheck(m, imm, lineno)
  {
    var w := if imm[..7] != ShiftUpper(m) then [ShiftBits(lineno)] else [];
    assert Prefix(imm, 7) == imm[..7];
    if m == SLLI || m == SRLI {
      assert ShiftWarnings(op, imm, lineno) == w + [];
    } else if m == SRAI {
      assert ShiftWarnings(op, imm, lineno) == [] + w;
    } else {
      assert ShiftWarnings(op, imm, lineno) == [] + [];
    }
  }

  // ---------------------------------------------------------------------
  // Every well-formed record assembles to the reference word

  function MnemonicOf(f: Fields): Mnemonic
    requires WellFormed(f)
  {
    Lookup(f.opcode.value).value
  }

  /** The warnings the reference expects: an I-format load or jalr whose offset
      is not a multiple of four, a shift with the wrong imm[11:5], a store whose
      offset is not a multiple of four, a branch whose offset is not. */
  function ExpectedWarnings(f: Fields): seq<GenWarning>
    requires WellFormed(f)
  {
    var m := MnemonicOf(f);
    match IsaFormat(m)
    case FmtI =>
      var imm := f.imm.value.bits;
      if m in InstrBopArithi then ShiftCheck(m, imm, f.lineno)
      else if imm[10..] != "00" then [Misaligned(f.lineno)] else []
    case FmtS => if f.imm.value.lo[3..] != "00" then [Misaligned(f.lineno)] else []
    case FmtSB =>
      var t := Immediates.BranchJoin(Immediates.Halves(f.imm.value.hi, f.imm.value.lo));
      if t[11] != '0' then [Misaligned(f.lineno)] else []
    case _ => []
  }

  /** The reference word of a well-formed record: its fields in the format of
      its instruction, with the parser's immediate put back in ISA order. */
  function ExpectedWord(f: Fields): string
    requires WellFormed(f)
  {
    var m := MnemonicOf(f);
    match IsaFormat(m)
    case FmtR => EncodeR(m, RegNumber(f.rd), RegNumber(f.rs1), RegNumber(f.rs2))
    case FmtI => EncodeI(m, RegNumber(f.rd), RegNumber(f.rs1), f.imm.value.bits)
    case FmtS => EncodeS(m, RegNumber(f.rs1), RegNumber(f.rs2), Immediates.StoreJoin(Immediates.Halves(f.imm.value.hi, f.imm.value.lo)))
    case FmtSB => EncodeB(m, RegNumber(f.rs1), RegNumber(f.rs2), Immediates.BranchJoin(Immediates.Halves(f.imm.value.hi, f.imm.value.lo)))
    case FmtU => EncodeU(m, RegNumber(f.rd), f.imm.value.bits)
    case FmtUJ => EncodeJ(m, RegNumber(f.rd), Immediates.JumpUnorder(f.imm.value.bits))
  }

  /** A record whose opcode names an instruction of group g is generated by
      that group's op_ function. */
  lemma Dispatched(f: Fields, m: Mnemonic, g: Group)
    requires f.opcode == Some(Name(m)) && m in Members(g)
    ensures ConvertToBinary(f) == Generate(g, f)
  {
    LookupName(Name(m), m);
    GroupInMembers(m, g);
  }

  /** After dispatch the group's table has the instruction's funct3. */
  lemma TableLookup(table: map<Mnemonic, string>, m: Mnemonic)
    requires m in table
    ensures Lookup3(table, Name(m)) == Some(table[m])
  {
    LookupName(Name(m), m);
  }

  lemma Funct3Of(g: Group, m: Mnemonic)
    requires m in Members(g) && g != GLui && g != GAuipc && g != GJal
    ensures Lookup3(Funct3Table(g), Name(m)) == IsaFunct3(m) && IsaFunct3(m).Some?
  {
    match g
    case GJalr => Funct3JalrIsa(m); TableLookup(Funct3Jalr, m);
    case GLoad => Funct3LoadIsa(m); TableLookup(Funct3Load, m);
    case GArithi => Funct3ArithiIsa(m); TableLookup(Funct3Arithi, m);
    case GStore => Funct3StoreIsa(m); TableLookup(Funct3Store, m);
    case GBranch => Funct3BranchIsa(m); TableLookup(Funct3Branch, m);
    case GArith => FunctArithIsa(m); TableLookup(Funct3Arith, m);
  }

  /** Each group's opcode is the listing's opcode of its instructions. */
  lemma BopOf(g: Group, m: Mnemonic)
    requires m in Members(g)
    ensures IsaOpcode(m) == Bop(g)
  {
    match g
    case GLui => OpcodeGroupsJump(m);
    case GAuipc => OpcodeGroupsJump(m);
    case GJal => OpcodeGroupsJump(m);
    case GJalr => OpcodeGroupsJump(m);
    case GLoad => OpcodeGroupLoad(m);
    case GArithi => OpcodeGroupArithi(m);
    case GStore => OpcodeGroupStore(m);
    case GBranch => OpcodeGroupBranch(m);
    case GArith => OpcodeGroupArith(m);
  }

  /** op_arith on registers that render. */
  lemma ArithWord(f: Fields, m: Mnemonic, rd: nat, rs1: nat, rs2: nat)
    requires f.opcode == Some(Name(m)) && m in InstrBopArith && IsaFormat(m) == FmtR
    requires IsReg(rd) && IsReg(rs1) && IsReg(rs2)
    requires BinField(f.rd) == Some(Fixed(rd, 5)) && BinField(f.rs1) == Some(Fixed(rs1, 5))
    requires BinField(f.rs2) == Some(Fixed(rs2, 5))
    ensures OpArith(f) == Ok(Generated(EncodeR(m, rd, rs1, rs2), []))
  {
    FunctArithIsa(m);
    TableLookup(Funct3Arith, m);
    TableLookup(Funct7Arith, m);
    OpcodeGroupArith(m);
    FieldWidths(m);
  }

  /** op_jalr, op_load and op_arithi pass their rendered fields on. */
  lemma ImmediateFields(g: Group, f: Fields, m: Mnemonic, rd: nat, rs1: nat)
    requires g == GJalr || g == GLoad || g == GArithi
    requires f.opcode.Some? && Lookup3(Funct3Table(g), f.opcode.value) == IsaFunct3(m) && IsaFunct3(m).Some?
    requires f.imm.Some? && BinField(f.rd) == Some(Fixed(rd, 5)) && BinField(f.rs1) == Some(Fixed(rs1, 5))
    ensures OpImmediate(g, f)
      == ImmediateInstr(g, f.opcode.value, f.imm.value, Fixed(rs1, 5), IsaFunct3(m).value, Fixed(rd, 5), f.lineno)
  {
  }

  /** The rendered fields of an I instruction make its reference word. */
  lemma ImmediateWord(g: Group, op: string, m: Mnemonic, rd: nat, rs1: nat, imm: string, lineno: int)
    requires IsaFormat(m) == FmtI && IsaOpcode(m) == Bop(g) && |imm| == 12
    ensures IsaFunct3(m).Some?
    ensures ImmediateInstr(g, op, Whole(imm), Fixed(rs1, 5), IsaFunct3(m).value, Fixed(rd, 5), lineno)
      == Ok(Generated(EncodeI(m, rd, rs1, imm),
           if g == GArithi then ShiftWarnings(op, imm, lineno)
           else if imm[10..] != "00" then [Misaligned(lineno)] else []))
  {
    FieldWidths(m);
    var f3 := IsaFunct3(m).value;
    ImmediateLayout(g, op, imm, Fixed(rs1, 5), f3, Fixed(rd, 5), lineno);
  }

  /** The layout of op_jalr, op_load and op_arithi on fields of the right widths. */
  lemma ImmediateLayout(g: Group, op: string, imm: string, rs1: string, funct3: string, rd: string, lineno: int)
    requires |imm| == 12 && |rs1| == 5 && |funct3| == 3 && |rd| == 5
    ensures ImmediateInstr(g, op, Whole(imm), rs1, funct3, rd, lineno)
      == Ok(Generated(imm + rs1 + funct3 + rd + Bop(g),
           if g == GArithi then ShiftWarnings(op, imm, lineno)
           else if imm[10..] != "00" then [Misaligned(lineno)] else []))
  {
    assert |Bop(g)| == 7;
    assert imm + (rs1 + funct3 + rd + Bop(g)) == imm + rs1 + funct3 + rd + Bop(g);
    assert Suffix(imm, 2) == imm[10..];
  }

  /** op_store and op_branch pass their rendered fields on. */
  lemma SplitFields(g: Group, f: Fields, m: Mnemonic, rs1: nat, rs2: nat, hi: string, lo: string)
    requires g == GStore || g == GBranch
    requires f.opcode.Some? && Lookup3(Funct3Table(g), f.opcode.value) == IsaFunct3(m) && IsaFunct3(m).Some?
    requires f.imm == Some(Split(hi, lo))
    requires BinField(f.rs1) == Some(Fixed(rs1, 5)) && BinField(f.rs2) == Some(Fixed(rs2, 5))
    ensures OpSplit(g, f) == SplitInstr(g, hi, Fixed(rs2, 5), Fixed(rs1, 5), IsaFunct3(m).value, lo, f.lineno)
  {
  }

  /** The rendered fields of a store or branch laid out: the word, and the
      warning on bit 1 of the offset (bits 1 and 0 for a store). */
  lemma SplitWord(g: Group, m: Mnemonic, rs1: nat, rs2: nat, hi: string, lo: string, lineno: int)
    requires g == GStore || g == GBranch
    requires IsaFunct3(m).Some? && IsaOpcode(m) == Bop(g) && |hi| == 7 && |lo| == 5
    ensures SplitInstr(g, hi, Fixed(rs2, 5), Fixed(rs1, 5), IsaFunct3(m).value, lo, lineno)
      == Ok(Generated(hi + Fixed(rs2, 5) + Fixed(rs1, 5) + IsaFunct3(m).value + lo + IsaOpcode(m),
           if g == GStore then (if lo[3..] != "00" then [Misaligned(lineno)] else [])
           else if lo[3] != '0' then [Misaligned(lineno)] else []))
  {
    FieldWidths(m);
    assert Suffix(lo, 2) == lo[3..];
  }

  /** op_lui, op_auipc and op_jal on a register that renders and a string
      immediate. */
  lemma UpperWord(g: Group, f: Fields, m: Mnemonic, rd: nat, imm: string)
    requires g == GLui || g == GAuipc || g == GJal
    requires IsaOpcode(m) == Bop(g) && f.imm == Some(Whole(imm)) && |imm| == 20
    requires BinField(f.rd) == Some(Fixed(rd, 5))
    ensures OpUpper(g, f) == Ok(Generated(imm + Fixed(rd, 5) + IsaOpcode(m), []))
  {
    FieldWidths(m);
    assert imm + (Fixed(rd, 5) + Bop(g)) == imm + Fixed(rd, 5) + IsaOpcode(m);
  }

  // Each format, first for a record whose fields are given, then for any
  // well-formed record.

  lemma RegisterConverts(f: Fields, m: Mnemonic, rd: nat, rs1: nat, rs2: nat)
    requires f.opcode == Some(Name(m)) && IsaFormat(m) == FmtR
    requires IsReg(rd) && IsReg(rs1) && IsReg(rs2)
    requires BinField(f.rd) == Some(Fixed(rd, 5)) && BinField(f.rs1) == Some(Fixed(rs1, 5))
    requires BinField(f.rs2) == Some(Fixed(rs2, 5))
    ensures ConvertToBinary(f) == Ok(Generated(EncodeR(m, rd, rs1, rs2), []))
  {
    assert m in InstrBopArith by { FormatClassesRegister(m); ClassificationsAgree(); }
    Dispatched(f, m, GArith);
    ArithWord(f, m, rd, rs1, rs2);
  }

  lemma ImmediateConverts(f: Fields, m: Mnemonic, rd: nat, rs1: nat, imm: string)
    requires f.opcode == Some(Name(m)) && IsaFormat(m) == FmtI
    requires IsReg(rd) && IsReg(rs1) && f.imm == Some(Whole(imm)) && |imm| == 12
    requires BinField(f.rd) == Some(Fixed(rd, 5)) && BinField(f.rs1) == Some(Fixed(rs1, 5))
    ensures ConvertToBinary(f) == Ok(Generated(EncodeI(m, rd, rs1, imm),
      if m in InstrBopArithi then ShiftCheck(m, imm, f.lineno)
      else if imm[10..] != "00" then [Misaligned(f.lineno)] else []))
  {
    var g := ImmediateGroup(m);
    ImmediateGroupConverts(g, f, m, rd, rs1, imm);
    if g == GArithi {
      ShiftWarningsCheck(m, imm, f.lineno);
    }
  }

  /** An I-format instruction is jalr, a load or a register-immediate operation. */
  lemma ImmediateGroup(m: Mnemonic) returns (g: Group)
    requires IsaFormat(m) == FmtI
    ensures (g == GJalr || g == GLoad || g == GArithi) && m in Members(g)
    ensures g == GArithi <==> m in InstrBopArithi
  {
    match m
    case JALR => g := GJalr;
    case LB | LH | LW | LBU | LHU => g := GLoad;
    case _ => g := GArithi;
  }

  lemma ImmediateGroupConverts(g: Group, f: Fields, m: Mnemonic, rd: nat, rs1: nat, imm: string)
    requires g == GJalr || g == GLoad || g == GArithi
    requires f.opcode == Some(Name(m)) && IsaFormat(m) == FmtI && m in Members(g)
    requires IsReg(rd) && IsReg(rs1) && f.imm == Some(Whole(imm)) && |imm| == 12
    requires BinField(f.rd) == Some(Fixed(rd, 5)) && BinField(f.rs1) == Some(Fixed(rs1, 5))
    ensures ConvertToBinary(f) == Ok(Generated(EncodeI(m, rd, rs1, imm),
      if g == GArithi then ShiftWarnings(Name(m), imm, f.lineno)
      else if imm[10..] != "00" then [Misaligned(f.lineno)] else []))
  {
    Dispatched(f, m, g);
    Funct3Of(g, m);
    ImmediateFields(g, f, m, rd, rs1);
    BopOf(g, m);
    ImmediateWord(g, Name(m), m, rd, rs1, imm, f.lineno);
  }

  lemma StoreConverts(f: Fields, m: Mnemonic, rs1: nat, rs2: nat, hi: string, lo: string)
    requires f.opcode == Some(Name(m)) && IsaFormat(m) == FmtS
    requires IsReg(rs1) && IsReg(rs2) && f.imm == Some(Split(hi, lo)) && |hi| == 7 && |lo| == 5
    requires BinField(f.rs1) == Some(Fixed(rs1, 5)) && BinField(f.rs2) == Some(Fixed(rs2, 5))
    ensures ConvertToBinary(f)
      == Ok(Generated(EncodeS(m, rs1, rs2, hi + lo), if lo[3..] != "00" then [Misaligned(f.lineno)] else []))
  {
    assert m in InstrBopStore by { FormatClassesRegister(m); ClassificationsAgree(); }
    Dispatched(f, m, GStore);
    Funct3Of(GStore, m);
    BopOf(GStore, m);
    FieldWidths(m);
    SplitFields(GStore, f, m, rs1, rs2, hi, lo);
    SplitWord(GStore, m, rs1, rs2, hi, lo, f.lineno);
    assert (hi + lo)[..7] == hi && (hi + lo)[7..] == lo;
  }

  lemma BranchConverts(f: Fields, m: Mnemonic, rs1: nat, rs2: nat, hi: string, lo: string)
    requires f.opcode == Some(Name(m)) && IsaFormat(m) == FmtSB
    requires IsReg(rs1) && IsReg(rs2) && f.imm == Some(Split(hi, lo)) && |hi| == 7 && |lo| == 5
    requires BinField(f.rs1) == Some(Fixed(rs1, 5)) && BinField(f.rs2) == Some(Fixed(rs2, 5))
    ensures var t := Immediates.BranchJoin(Immediates.Halves(hi, lo));
      ConvertToBinary(f) == Ok(Generated(EncodeB(m, rs1, rs2, t), if t[11] != '0' then [Misaligned(f.lineno)] else []))
  {
    assert m in InstrBopBranch by { FormatClassesRegister(m); ClassificationsAgree(); }
    Dispatched(f, m, GBranch);
    Funct3Of(GBranch, m);
    BopOf(GBranch, m);
    FieldWidths(m);
    SplitFields(GBranch, f, m, rs1, rs2, hi, lo);
    SplitWord(GBranch, m, rs1, rs2, hi, lo, f.lineno);
    Immediates.BranchJoinSplit(Immediates.Halves(hi, lo));
  }

  lemma UpperConverts(f: Fields, m: Mnemonic, rd: nat, imm: string)
    requires f.opcode == Some(Name(m)) && IsaFormat(m) == FmtU
    requires IsReg(rd) && f.imm == Some(Whole(imm)) && |imm| == 20 && BinField(f.rd) == Some(Fixed(rd, 5))
    ensures ConvertToBinary(f) == Ok(Generated(EncodeU(m, rd, imm), []))
  {
    var g := if m in InstrBopLui then GLui else GAuipc;
    assert m in Members(g) by { FormatClassesImmediate(m); ClassificationsAgree(); }
    Dispatched(f, m, g);
    BopOf(g, m);
    UpperWord(g, f, m, rd, imm);
  }

  lemma JumpConverts(f: Fields, m: Mnemonic, rd: nat, bits: string)
    requires f.opcode == Some(Name(m)) && IsaFormat(m) == FmtUJ
    requires IsReg(rd) && f.imm == Some(Whole(bits)) && |bits| == 20 && BinField(f.rd) == Some(Fixed(rd, 5))
    ensures ConvertToBinary(f) == Ok(Generated(EncodeJ(m, rd, Immediates.JumpUnorder(bits)), []))
  {
    assert m in InstrBopJal by { FormatClassesImmediate(m); ClassificationsAgree(); }
    Dispatched(f, m, GJal);
    BopOf(GJal, m);
    UpperWord(GJal, f, m, rd, bits);
    var t := Immediates.JumpUnorder(bits);
    Immediates.JumpUnorderInverse(bits);
    assert [t[0]] + t[10..20] + [t[9]] + t[1..9] == Immediates.JumpOrder(t);
  }

  /** Every well-formed record assembles to the reference word of its fields,
      with the reference warnings. */
  lemma ConvertWellFormed(f: Fields)
    requires WellFormed(f)
    ensures ConvertToBinary(f) == Ok(Generated(ExpectedWord(f), ExpectedWarnings(f)))
  {
    var m := MnemonicOf(f);
    assert f.opcode == Some(Name(m)) by { LookupName(f.opcode.value, m); }
    match IsaFormat(m)
    case FmtR =>
      BinFieldFixed(f.rd);
      BinFieldFixed(f.rs1);
      BinFieldFixed(f.rs2);
      RegisterConverts(f, m, RegNumber(f.rd), RegNumber(f.rs1), RegNumber(f.rs2));
    case FmtI =>
      BinFieldFixed(f.rd);
      BinFieldFixed(f.rs1);
      ImmediateConverts(f, m, RegNumber(f.rd), RegNumber(f.rs1), f.imm.value.bits);
    case FmtS =>
      BinFieldFixed(f.rs1);
      BinFieldFixed(f.rs2);
      StoreConverts(f, m, RegNumber(f.rs1), RegNumber(f.rs2), f.imm.value.hi, f.imm.value.lo);
    case FmtSB =>
      BinFieldFixed(f.rs1);
      BinFieldFixed(f.rs2);
      BranchConverts(f, m, RegNumber(f.rs1), RegNumber(f.rs2), f.imm.value.hi, f.imm.value.lo);
    case FmtU =>
      BinFieldFixed(f.rd);
      UpperConverts(f, m, RegNumber(f.rd), f.imm.value.bits);
    case FmtUJ =>
      BinFieldFixed(f.rd);
      JumpConverts(f, m, RegNumber(f.rd), f.imm.value.bits);
  }

  /** convert_to_binary returns None exactly for a record without an opcode and
      for an opcode that names no instruction; every instruction is in a group. */
  lemma ConvertNone(f: Fields)
    ensures ConvertToBinary(f) == Err(MissingOpcode) <==> f.opcode.None?
    ensures ConvertToBinary(f) == Err(NotImplemented(f.lineno)) <==> f.opcode.Some? && Lookup(f.opcode.value).None?
  {
    if f.opcode.Some? && Lookup(f.opcode.value).Some? {
      GroupInTotal(Lookup(f.opcode.value).value);
      assert ConvertToBinary(f) == Generate(GroupOf(f.opcode.value).value, f);
    }
  }

  // ---------------------------------------------------------------------
  // What int(word, 2) will read

  /** The reference word of a record whose immediate is bits, with at most a
      '-' in front, is 32 characters of bits with at most a '-' in front: the
      immediate always opens the word. */
  lemma ExpectedWordSigned(f: Fields)
    requires WellFormed(f) && SignedImm(f)
    ensures SignedBits(ExpectedWord(f)) && |ExpectedWord(f)| == 32
  {
    var m := MnemonicOf(f);
    match IsaFormat(m)
    case FmtR => SignedR(m, RegNumber(f.rd), RegNumber(f.rs1), RegNumber(f.rs2));
    case FmtI => SignedI(m, RegNumber(f.rd), RegNumber(f.rs1), f.imm.value.bits);
    case FmtS => SignedS(m, RegNumber(f.rs1), RegNumber(f.rs2), f.imm.value.hi, f.imm.value.lo);
    case FmtSB => SignedB(m, RegNumber(f.rs1), RegNumber(f.rs2), f.imm.value.hi, f.imm.value.lo);
    case FmtU => SignedU(m, RegNumber(f.rd), f.imm.value.bits);
    case FmtUJ => SignedJ(m, RegNumber(f.rd), f.imm.value.bits);
  }

  lemma SignedR(m: Mnemonic, rd: nat, rs1: nat, rs2: nat)
    requires IsaFormat(m) == FmtR
    ensures SignedBits(EncodeR(m, rd, rs1, rs2)) && |EncodeR(m, rd, rs1, rs2)| == 32
  {
    FieldWidths(m);
    FormatFields(m);
    SignedWord(IsaFunct7(m).value, Fixed(rs2, 5), Fixed(rs1, 5), IsaFunct3(m).value, Fixed(rd, 5), IsaOpcode(m));
  }

  lemma SignedI(m: Mnemonic, rd: nat, rs1: nat, imm: string)
    requires IsaFormat(m) == FmtI && SignedBits(imm) && |imm| == 12
    ensures SignedBits(EncodeI(m, rd, rs1, imm)) && |EncodeI(m, rd, rs1, imm)| == 32
  {
    FieldWidths(m);
    FormatFields(m);
    SignedWord(imm, Fixed(rs1, 5), IsaFunct3(m).value, Fixed(rd, 5), "", IsaOpcode(m));
    assert imm + Fixed(rs1, 5) + IsaFunct3(m).value + Fixed(rd, 5) + "" + IsaOpcode(m) == EncodeI(m, rd, rs1, imm);
  }

  lemma SignedS(m: Mnemonic, rs1: nat, rs2: nat, hi: string, lo: string)
    requires IsaFormat(m) == FmtS && SignedBits(hi) && IsBits(lo) && |hi| == 7 && |lo| == 5
    ensures var w := EncodeS(m, rs1, rs2, Immediates.StoreJoin(Immediates.Halves(hi, lo)));
      SignedBits(w) && |w| == 32
  {
    FieldWidths(m);
    FormatFields(m);
    var imm := Immediates.StoreJoin(Immediates.Halves(hi, lo));
    assert imm[..7] == hi && imm[7..] == lo;
    SignedWord(hi, Fixed(rs2, 5), Fixed(rs1, 5), IsaFunct3(m).value, lo, IsaOpcode(m));
  }

  lemma SignedB(m: Mnemonic, rs1: nat, rs2: nat, hi: string, lo: string)
    requires IsaFormat(m) == FmtSB && SignedBits(hi) && IsBits(lo) && |hi| == 7 && |lo| == 5
    ensures var w := EncodeB(m, rs1, rs2, Immediates.BranchJoin(Immediates.Halves(hi, lo)));
      SignedBits(w) && |w| == 32
  {
    FieldWidths(m);
    FormatFields(m);
    Immediates.BranchJoinSplit(Immediates.Halves(hi, lo));
    SignedWord(hi, Fixed(rs2, 5), Fixed(rs1, 5), IsaFunct3(m).value, lo, IsaOpcode(m));
  }

  lemma SignedU(m: Mnemonic, rd: nat, imm: string)
    requires SignedBits(imm) && |imm| == 20
    ensures SignedBits(EncodeU(m, rd, imm)) && |EncodeU(m, rd, imm)| == 32
  {
    FieldWidths(m);
    SignedWord(imm, Fixed(rd, 5), "", "", "", IsaOpcode(m));
    assert imm + Fixed(rd, 5) + "" + "" + "" + IsaOpcode(m) == EncodeU(m, rd, imm);
  }

  lemma SignedJ(m: Mnemonic, rd: nat, bits: string)
    requires SignedBits(bits) && |bits| == 20
    ensures var w := EncodeJ(m, rd, Immediates.JumpUnorder(bits));
      SignedBits(w) && |w| == 32
  {
    FieldWidths(m);
    var imm := Immediates.JumpUnorder(bits);
    Immediates.JumpUnorderInverse(bits);
    assert [imm[0]] + imm[10..20] + [imm[9]] + imm[1..9] == bits;
    SignedWord(bits, Fixed(rd, 5), "", "", "", IsaOpcode(m));
    assert bits + Fixed(rd, 5) + "" + "" + "" + IsaOpcode(m) == EncodeJ(m, rd, imm);
  }

  lemma SignedWord(a: string, b: string, c: string, d: string, e: string, g: string)
    requires SignedBits(a) && IsBits(b) && IsBits(c) && IsBits(d) && IsBits(e) && IsBits(g)
    ensures SignedBits(a + b + c + d + e + g)
  {
    SignedAppend(a, b);
    SignedAppend(a + b, c);
    SignedAppend(a + b + c, d);
    SignedAppend(a + b + c + d, e);
    SignedAppend(a + b + c + d + e, g);
  }
}
