/** A reference reading of 32-bit RV32I words, written from the base-format
    figures of the ISA manual (section 2.2, and section 2.3 for the immediates)
    and its opcode listing (chapter 24), independently of the assembler's
    tables. The assembler's output is judged against it. */
module Decoder {
  import opened Results
  import opened BitString
  import opened MachineCodeConst

  /** An instruction read back from a word: the fields its format has are Some. */
  datatype Decoded = Decoded(m: Mnemonic, rd: Option<nat>, rs1: Option<nat>, rs2: Option<nat>, imm: Option<int>)

  /** The mnemonic with the given opcode, funct3 and funct7 field values; funct7
      is imm[11:5] for the immediate shifts. None for an encoding RV32I does not
      have. */
  function DecodeMnemonic(opcode: nat, f3: nat, f7: nat): Option<Mnemonic> {
    if opcode == 0x37 then Some(LUI)
    else if opcode == 0x17 then Some(AUIPC)
    else if opcode == 0x6F then Some(JAL)
    else if opcode == 0x67 then (if f3 == 0 then Some(JALR) else None)
    else if opcode == 0x63 then DecodeBranch(f3)
    else if opcode == 0x03 then DecodeLoad(f3)
    else if opcode == 0x23 then DecodeStore(f3)
    else if opcode == 0x13 then DecodeOpImm(f3, f7)
    else if opcode == 0x33 then DecodeOp(f3, f7)
    else None
  }

  function DecodeBranch(f3: nat): Option<Mnemonic> {
    match f3
    case 0 => Some(BEQ)
    case 1 => Some(BNE)
    case 4 => Some(BLT)
    case 5 => Some(BGE)
    case 6 => Some(BLTU)
    case 7 => Some(BGEU)
    case _ => None
  }

  function DecodeLoad(f3: nat): Option<Mnemonic> {
    match f3
    case 0 => Some(LB)
    case 1 => Some(LH)
    case 2 => Some(LW)
    case 4 => Some(LBU)
    case 5 => Some(LHU)
    case _ => None
  }

  function DecodeStore(f3: nat): Option<Mnemonic> {
    match f3
    case 0 => Some(SB)
    case 1 => Some(SH)
    case 2 => Some(SW)
    case _ => None
  }

  function DecodeOpImm(f3: nat, f7: nat): Option<Mnemonic> {
    match f3
    case 0 => Some(ADDI)
    case 2 => Some(SLTI)
    case 3 => Some(SLTIU)
    case 4 => Some(XORI)
    case 6 => Some(ORI)
    case 7 => Some(ANDI)
    case 1 => if f7 == 0 then Some(SLLI) else None
    case 5 => if f7 == 0 then Some(SRLI) else if f7 == 0x20 then Some(SRAI) else None
    case _ => None
  }

  function DecodeOp(f3: nat, f7: nat): Option<Mnemonic> {
    if f7 == 0 then
      match f3
      case 0 => Some(ADD)
      case 1 => Some(SLL)
      case 2 => Some(SLT)
      case 3 => Some(SLTU)
      case 4 => Some(XOR)
      case 5 => Some(SRL)
      case 6 => Some(OR)
      case 7 => Some(AND)
      case _ => None
    else if f7 == 0x20 then
      match f3
      case 0 => Some(SUB)
      case 5 => Some(SRA)
      case _ => None
    else None
  }

  /** The immediate of the B format, imm[12:1], gathered from its four places. */
  function BranchBits(w: string): string
    requires |w| == 32
  {
    [w[0]] + [w[24]] + w[1..7] + w[20..24]
  }

  /** The immediate of the J format, imm[20:1], gathered from its four places. */
  function JumpBits(w: string): string
    requires |w| == 32
  {
    [w[0]] + w[12..20] + [w[11]] + w[1..11]
  }

  /** Reads a word: opcode w[25..32], rd w[20..25], funct3 w[17..20], rs1 w[12..17],
      rs2 w[7..12], funct7 w[0..7], most significant bit first. */
  function Decode(w: string): Option<Decoded> {
    if |w| != 32 || !IsBits(w) then None
    else match DecodeMnemonic(Value(w[25..]), Value(w[17..20]), Value(w[..7]))
      case None => None
      case Some(m) => Some(Operands(m, w))
  }

  /** The operands of m in a word. The U immediate is the upper twenty bits as a
      signed number; the B and J immediates are byte offsets. */
  function Operands(m: Mnemonic, w: string): Decoded
    requires |w| == 32
  {
    var rd, rs1, rs2 := Value(w[20..25]), Value(w[12..17]), Value(w[7..12]);
    match IsaFormat(m)
    case FmtR => Decoded(m, Some(rd), Some(rs1), Some(rs2), None)
    case FmtI => Decoded(m, Some(rd), Some(rs1), None, Some(SignedValue(w[..12])))
    case FmtS => Decoded(m, None, Some(rs1), Some(rs2), Some(SignedValue(w[..7] + w[20..25])))
    case FmtSB => Decoded(m, None, Some(rs1), Some(rs2), Some(2 * SignedValue(BranchBits(w))))
    case FmtU => Decoded(m, Some(rd), None, None, Some(SignedValue(w[..20])))
    case FmtUJ => Decoded(m, Some(rd), None, None, Some(2 * SignedValue(JumpBits(w))))
  }

  /** Every mnemonic's listed fields decode to it; the bits a format does not
      use are free. */
  lemma DecodeListing(m: Mnemonic, f3: nat, f7: nat)
    requires IsaFunct3(m).Some? ==> f3 == Value(IsaFunct3(m).value)
    requires IsaFunct7(m).Some? ==> f7 == Value(IsaFunct7(m).value)
    requires m in {SLLI, SRLI, SRAI} ==> f7 == Value(ShiftUpper(m))
    ensures DecodeMnemonic(Value(IsaOpcode(m)), f3, f7) == Some(m)
  {
    match m
    case LUI | AUIPC | JAL =>
      OpcodeDispatch(f3, f7);
    case JALR =>
      OpcodeDispatch(f3, f7);
      Funct3Values();
    case BEQ | BNE | BLT | BGE | BLTU | BGEU =>
      BranchDecodes(m, f3, f7);
    case LB | LH | LW | LBU | LHU =>
      LoadDecodes(m, f3, f7);
    case SB | SH | SW =>
      StoreDecodes(m, f3, f7);
    case SLLI | SRLI | SRAI =>
      ShiftDecodes(m, f3, f7);
    case ADDI | SLTI | SLTIU | XORI | ORI | ANDI =>
      OpImmDecodes(m, f3, f7);
    case ADD | SUB | SLL | SLT | SLTU | XOR | SRL | SRA | OR | AND =>
      OpDecodes(m, f3, f7);
  }

  /** DecodeListing, group by group. */
  lemma BranchDecodes(m: Mnemonic, f3: nat, f7: nat)
    requires m in InstrBopBranch
    requires IsaFunct3(m).Some? ==> f3 == Value(IsaFunct3(m).value)
    ensures DecodeMnemonic(Value(IsaOpcode(m)), f3, f7) == Some(m)
  {
    OpcodeDispatch(f3, f7);
    OpcodeGroupBranch(m);
    DecodeBranchListing(m);
  }

  lemma LoadDecodes(m: Mnemonic, f3: nat, f7: nat)
    requires m in InstrBopLoad
    requires IsaFunct3(m).Some? ==> f3 == Value(IsaFunct3(m).value)
    ensures DecodeMnemonic(Value(IsaOpcode(m)), f3, f7) == Some(m)
  {
    OpcodeDispatch(f3, f7);
    OpcodeGroupLoad(m);
    DecodeLoadListing(m);
  }

  lemma StoreDecodes(m: Mnemonic, f3: nat, f7: nat)
    requires m in InstrBopStore
    requires IsaFunct3(m).Some? ==> f3 == Value(IsaFunct3(m).value)
    ensures DecodeMnemonic(Value(IsaOpcode(m)), f3, f7) == Some(m)
  {
    OpcodeDispatch(f3, f7);
    OpcodeGroupStore(m);
    DecodeStoreListing(m);
  }

  lemma ShiftDecodes(m: Mnemonic, f3: nat, f7: nat)
    requires m in {SLLI, SRLI, SRAI}
    requires f7 == Value(ShiftUpper(m))
    requires IsaFunct3(m).Some? ==> f3 == Value(IsaFunct3(m).value)
    ensures DecodeMnemonic(Value(IsaOpcode(m)), f3, f7) == Some(m)
  {
    OpcodeDispatch(f3, f7);
    OpcodeGroupArithi(m);
    ShiftSelector(m, f7);
  }

  lemma OpImmDecodes(m: Mnemonic, f3: nat, f7: nat)
    requires m in InstrBopArithi && m !in {SLLI, SRLI, SRAI}
    requires IsaFunct3(m).Some? ==> f3 == Value(IsaFunct3(m).value)
    ensures DecodeMnemonic(Value(IsaOpcode(m)), f3, f7) == Some(m)
  {
    OpcodeDispatch(f3, f7);
    OpcodeGroupArithi(m);
    DecodeOpImmListing(m, f7);
  }

  lemma OpDecodes(m: Mnemonic, f3: nat, f7: nat)
    requires m in InstrBopArith
    requires IsaFunct7(m).Some? ==> f7 == Value(IsaFunct7(m).value)
    requires IsaFunct3(m).Some? ==> f3 == Value(IsaFunct3(m).value)
    ensures DecodeMnemonic(Value(IsaOpcode(m)), f3, f7) == Some(m)
  {
    OpcodeDispatch(f3, f7);
    OpcodeGroupArith(m);
    DecodeOpListing(m);
  }

  /** The listed fields tell the instructions apart: two mnemonics with the same
      opcode, funct3 and funct7 (for the shifts, the same imm[11:5] selector)
      are one. So the (funct3, funct7) pairs of the R format are distinct, and
      so are the funct3 values of the branches, the loads, the stores and of
      the register-immediate operations, where only srli and srai share one. */
  lemma FieldsDistinct(m1: Mnemonic, m2: Mnemonic)
    requires IsaOpcode(m1) == IsaOpcode(m2) && IsaFunct3(m1) == IsaFunct3(m2) && IsaFunct7(m1) == IsaFunct7(m2)
    requires m1 in {SLLI, SRLI, SRAI} || m2 in {SLLI, SRLI, SRAI} ==> ShiftUpper(m1) == ShiftUpper(m2)
    ensures m1 == m2
  {
    var f3 := if IsaFunct3(m1).Some? then Value(IsaFunct3(m1).value) else 0;
    var f7 := if IsaFunct7(m1).Some? then Value(IsaFunct7(m1).value) else Value(ShiftUpper(m1));
    SameSelection(m1, m2, f3, f7);
  }

  /** Two mnemonics whose fields both read as (f3, f7) decode alike. */
  lemma SameSelection(m1: Mnemonic, m2: Mnemonic, f3: nat, f7: nat)
    requires IsaOpcode(m1) == IsaOpcode(m2)
    requires IsaFunct3(m1).Some? ==> f3 == Value(IsaFunct3(m1).value)
    requires IsaFunct7(m1).Some? ==> f7 == Value(IsaFunct7(m1).value)
    requires m1 in {SLLI, SRLI, SRAI} ==> f7 == Value(ShiftUpper(m1))
    requires IsaFunct3(m2).Some? ==> f3 == Value(IsaFunct3(m2).value)
    requires IsaFunct7(m2).Some? ==> f7 == Value(IsaFunct7(m2).value)
    requires m2 in {SLLI, SRLI, SRAI} ==> f7 == Value(ShiftUpper(m2))
    ensures m1 == m2
  {
    DecodeListing(m1, f3, f7);
    DecodeListing(m2, f3, f7);
  }

  // ---------------------------------------------------------------------
  // The reference encoding: the base formats of the ISA manual

  /** Register numbers are five bits. */
  predicate IsReg(r: nat) {
    r < 32
  }

  /** R: funct7 rs2 rs1 funct3 rd opcode. */
  function EncodeR(m: Mnemonic, rd: nat, rs1: nat, rs2: nat): string
    requires IsaFormat(m) == FmtR
  {
    FormatFields(m);
    IsaFunct7(m).value + Fixed(rs2, 5) + Fixed(rs1, 5) + IsaFunct3(m).value + Fixed(rd, 5) + IsaOpcode(m)
  }

  /** I: imm[11:0] rs1 funct3 rd opcode. */
  function EncodeI(m: Mnemonic, rd: nat, rs1: nat, imm: string): string
    requires IsaFormat(m) == FmtI
  {
    FormatFields(m);
    imm + Fixed(rs1, 5) + IsaFunct3(m).value + Fixed(rd, 5) + IsaOpcode(m)
  }

  /** S: imm[11:5] rs2 rs1 funct3 imm[4:0] opcode, for a 12-bit imm[11:0]. */
  function EncodeS(m: Mnemonic, rs1: nat, rs2: nat, imm: string): string
    requires IsaFormat(m) == FmtS && |imm| == 12
  {
    FormatFields(m);
    imm[..7] + Fixed(rs2, 5) + Fixed(rs1, 5) + IsaFunct3(m).value + imm[7..] + IsaOpcode(m)
  }

  /** B: imm[12|10:5] rs2 rs1 funct3 imm[4:1|11] opcode, for imm[12:1]. */
  function EncodeB(m: Mnemonic, rs1: nat, rs2: nat, imm: string): string
    requires IsaFormat(m) == FmtSB && |imm| == 12
  {
    FormatFields(m);
    ([imm[0]] + imm[2..8]) + Fixed(rs2, 5) + Fixed(rs1, 5) + IsaFunct3(m).value + (imm[8..12] + [imm[1]]) + IsaOpcode(m)
  }

  /** U: imm[31:12] rd opcode. */
  function EncodeU(m: Mnemonic, rd: nat, imm: string): string {
    imm + Fixed(rd, 5) + IsaOpcode(m)
  }

  /** J: imm[20|10:1|11|19:12] rd opcode, for imm[20:1]. */
  function EncodeJ(m: Mnemonic, rd: nat, imm: string): string
    requires |imm| == 20
  {
    [imm[0]] + imm[10..20] + [imm[9]] + imm[1..9] + Fixed(rd, 5) + IsaOpcode(m)
  }

  /** The formats that have a funct3 have one; R has a funct7. */
  lemma FormatFields(m: Mnemonic)
    ensures IsaFormat(m) in {FmtR, FmtI, FmtS, FmtSB} ==> IsaFunct3(m).Some?
    ensures IsaFormat(m) == FmtR ==> IsaFunct7(m).Some?
  {
  }

  /** Six fields of widths 7, 5, 5, 3, 5 and 7 laid out in a word: where each one
      ends up. */
  lemma Layout(a: string, b: string, c: string, d: string, e: string, g: string)
    requires |a| == 7 && |b| == 5 && |c| == 5 && |d| == 3 && |e| == 5 && |g| == 7
    ensures var w := a + b + c + d + e + g;
      |w| == 32 && w[..7] == a && w[..12] == a + b && w[..20] == a + b + c + d && w[7..12] == b && w[12..17] == c && w[17..20] == d
      && w[20..25] == e && w[25..] == g
      && (IsBits(w) <==> IsBits(a) && IsBits(b) && IsBits(c) && IsBits(d) && IsBits(e) && IsBits(g))
  {
    var w := a + b + c + d + e + g;
    assert w[..7] == a;
    assert w[..12] == a + b;
    assert w[..20] == a + b + c + d;
    assert w[7..12] == b;
    assert w[12..17] == c;
    assert w[17..20] == d;
    assert w[20..25] == e;
    assert w[25..] == g;
    if IsBits(a) && IsBits(b) && IsBits(c) && IsBits(d) && IsBits(e) && IsBits(g) {
      forall i | 0 <= i < 32 ensures IsBit(w[i]) {
        if i < 7 { assert w[i] == a[i]; }
        else if i < 12 { assert w[i] == b[i - 7]; }
        else if i < 17 { assert w[i] == c[i - 12]; }
        else if i < 20 { assert w[i] == d[i - 17]; }
        else if i < 25 { assert w[i] == e[i - 20]; }
        else { assert w[i] == g[i - 25]; }
      }
    }
    if IsBits(w) {
      assert IsBits(a) by { forall i | 0 <= i < 7 ensures IsBit(a[i]) { assert a[i] == w[i]; } }
      assert IsBits(b) by { forall i | 0 <= i < 5 ensures IsBit(b[i]) { assert b[i] == w[7 + i]; } }
      assert IsBits(c) by { forall i | 0 <= i < 5 ensures IsBit(c[i]) { assert c[i] == w[12 + i]; } }
      assert IsBits(d) by { forall i | 0 <= i < 3 ensures IsBit(d[i]) { assert d[i] == w[17 + i]; } }
      assert IsBits(e) by { forall i | 0 <= i < 5 ensures IsBit(e[i]) { assert e[i] == w[20 + i]; } }
      assert IsBits(g) by { forall i | 0 <= i < 7 ensures IsBit(g[i]) { assert g[i] == w[25 + i]; } }
    }
  }

  // ---------------------------------------------------------------------
  // The assembler's tables decode to their mnemonics

  function Bit(c: char): nat {
    if c == '1' then 1 else 0
  }

  /** The value of a three- or seven-bit field, position by position. */
  lemma Value3(s: string)
    requires |s| == 3
    ensures Value(s) == 4 * Bit(s[0]) + 2 * Bit(s[1]) + Bit(s[2])
  {
    assert Value(s[..1]) == Bit(s[0]) by { assert s[..1][..0] == []; }
    assert Value(s[..2]) == 2 * Value(s[..1]) + Bit(s[1]) by { assert s[..2][..1] == s[..1]; }
    assert Value(s[..3]) == 2 * Value(s[..2]) + Bit(s[2]) by { assert s[..3][..2] == s[..2]; }
    assert s[..3] == s;
  }

  lemma Value7(s: string)
    requires |s| == 7
    ensures Value(s) == 64 * Bit(s[0]) + 32 * Bit(s[1]) + 16 * Bit(s[2]) + 8 * Bit(s[3])
                        + 4 * Bit(s[4]) + 2 * Bit(s[5]) + Bit(s[6])
  {
    assert Value(s[..1]) == Bit(s[0]) by { assert s[..1][..0] == []; }
    assert Value(s[..2]) == 2 * Value(s[..1]) + Bit(s[1]) by { assert s[..2][..1] == s[..1]; }
    assert Value(s[..3]) == 2 * Value(s[..2]) + Bit(s[2]) by { assert s[..3][..2] == s[..2]; }
    assert Value(s[..4]) == 2 * Value(s[..3]) + Bit(s[3]) by { assert s[..4][..3] == s[..3]; }
    assert Value(s[..5]) == 2 * Value(s[..4]) + Bit(s[4]) by { assert s[..5][..4] == s[..4]; }
    assert Value(s[..6]) == 2 * Value(s[..5]) + Bit(s[5]) by { assert s[..6][..5] == s[..5]; }
    assert Value(s[..7]) == 2 * Value(s[..6]) + Bit(s[6]) by { assert s[..7][..6] == s[..6]; }
    assert s[..7] == s;
  }

  /** The assembler's binary opcodes are the listing's major opcodes. */
  lemma OpcodeValues()
    ensures Value(BopLui) == 0x37 && Value(BopAuipc) == 0x17 && Value(BopJal) == 0x6F
    ensures Value(BopJalr) == 0x67 && Value(BopBranch) == 0x63 && Value(BopLoad) == 0x03
    ensures Value(BopStore) == 0x23 && Value(BopArithi) == 0x13 && Value(BopArith) == 0x33
  {
    Value7(BopLui);
    Value7(BopAuipc);
    Value7(BopJal);
    Value7(BopJalr);
    Value7(BopBranch);
    Value7(BopLoad);
    Value7(BopStore);
    Value7(BopArithi);
    Value7(BopArith);
  }

  /** The eight funct3 strings ... */
  lemma Funct3Values()
    ensures Value("000") == 0 && Value("001") == 1 && Value("010") == 2 && Value("011") == 3
    ensures Value("100") == 4 && Value("101") == 5 && Value("110") == 6 && Value("111") == 7
  {
    Value3("000");
    Value3("001");
    Value3("010");
    Value3("011");
    Value3("100");
    Value3("101");
    Value3("110");
    Value3("111");
  }

  /** ... and the two funct7 strings the tables use. */
  lemma Funct7Values()
    ensures Value("0000000") == 0 && Value("0100000") == 0x20
  {
    Value7("0000000");
    Value7("0100000");
  }

  /** The listing's funct3 read as a number (0 where there is none)... */
  function Funct3Number(m: Mnemonic): nat {
    match m
    case LUI | AUIPC | JAL => 0
    case JALR | BEQ | LB | SB | ADDI | ADD | SUB => 0
    case BNE | LH | SH | SLLI | SLL => 1
    case LW | SW | SLTI | SLT => 2
    case SLTIU | SLTU => 3
    case BLT | LBU | XORI | XOR => 4
    case BGE | LHU | SRLI | SRAI | SRL | SRA => 5
    case BLTU | ORI | OR => 6
    case BGEU | ANDI | AND => 7
  }

  /** ... and its funct7. */
  function Funct7Number(m: Mnemonic): nat {
    if m == SUB || m == SRA then 0x20 else 0
  }

  lemma Funct3Read(m: Mnemonic)
    ensures IsaFunct3(m).Some? ==> Value(IsaFunct3(m).value) == Funct3Number(m)
  {
    Funct3Values();
    match m
    case LUI | AUIPC | JAL =>
    case JALR | BEQ | LB | SB | ADDI | ADD | SUB =>
    case BNE | LH | SH | SLLI | SLL =>
    case LW | SW | SLTI | SLT =>
    case SLTIU | SLTU =>
    case BLT | LBU | XORI | XOR =>
    case BGE | LHU | SRLI | SRAI | SRL | SRA =>
    case BLTU | ORI | OR =>
    case BGEU | ANDI | AND =>
  }

  lemma Funct7Read(m: Mnemonic)
    ensures IsaFunct7(m).Some? ==> Value(IsaFunct7(m).value) == Funct7Number(m)
  {
    Funct7Values();
    match m
    case SUB | SRA =>
    case ADD | SLL | SLT | SLTU | XOR | SRL | OR | AND =>
    case _ =>
  }

  /** The decoder dispatches each of the assembler's binary opcodes to the
      group of instructions that has it. */
  lemma OpcodeDispatch(f3: nat, f7: nat)
    ensures DecodeMnemonic(Value(BopLui), f3, f7) == Some(LUI)
    ensures DecodeMnemonic(Value(BopAuipc), f3, f7) == Some(AUIPC)
    ensures DecodeMnemonic(Value(BopJal), f3, f7) == Some(JAL)
    ensures DecodeMnemonic(Value(BopJalr), f3, f7) == (if f3 == 0 then Some(JALR) else None)
    ensures DecodeMnemonic(Value(BopBranch), f3, f7) == DecodeBranch(f3)
    ensures DecodeMnemonic(Value(BopLoad), f3, f7) == DecodeLoad(f3)
    ensures DecodeMnemonic(Value(BopStore), f3, f7) == DecodeStore(f3)
    ensures DecodeMnemonic(Value(BopArithi), f3, f7) == DecodeOpImm(f3, f7)
    ensures DecodeMnemonic(Value(BopArith), f3, f7) == DecodeOp(f3, f7)
  {
    OpcodeValues();
  }

  /** Within each group, the listing's funct3 (and funct7) of a mnemonic decode
      to that mnemonic, whatever the bits the format does not use. */
  lemma DecodeBranchListing(m: Mnemonic)
    requires m in InstrBopBranch
    ensures IsaFunct3(m).Some? && DecodeBranch(Value(IsaFunct3(m).value)) == Some(m)
  {
    Funct3Read(m);
    match m
    case BEQ =>
    case BNE =>
    case BLT =>
    case BGE =>
    case BLTU =>
    case BGEU =>
  }

  lemma DecodeLoadListing(m: Mnemonic)
    requires m in InstrBopLoad
    ensures IsaFunct3(m).Some? && DecodeLoad(Value(IsaFunct3(m).value)) == Some(m)
  {
    Funct3Read(m);
    match m
    case LB =>
    case LH =>
    case LW =>
    case LBU =>
    case LHU =>
  }

  lemma DecodeStoreListing(m: Mnemonic)
    requires m in InstrBopStore
    ensures IsaFunct3(m).Some? && DecodeStore(Value(IsaFunct3(m).value)) == Some(m)
  {
    Funct3Read(m);
    match m
    case SB =>
    case SH =>
    case SW =>
  }

  /** The register-immediate instructions other than the shifts ignore imm[11:5]. */
  lemma DecodeOpImmListing(m: Mnemonic, f7: nat)
    requires m in InstrBopArithi && m !in {SLLI, SRLI, SRAI}
    ensures IsaFunct3(m).Some? && DecodeOpImm(Value(IsaFunct3(m).value), f7) == Some(m)
  {
    Funct3Read(m);
    match m
    case ADDI =>
    case SLTI =>
    case SLTIU =>
    case XORI =>
    case ORI =>
    case ANDI =>
  }

  /** The seven bits above the shift amount that select a shift. */
  function ShiftUpper(m: Mnemonic): string {
    if m == SRAI then "0100000" else "0000000"
  }

  /** Bit strings of one width are equal exactly when their values are. */
  lemma ValueInjective(a: string, b: string)
    requires IsBits(a) && IsBits(b) && |a| == |b|
    ensures Value(a) == Value(b) <==> a == b
  {
    FixedValue(a);
    FixedValue(b);
  }

  /** A shift decodes as itself exactly when imm[11:5] is its selector. */
  lemma DecodeShiftListing(m: Mnemonic, top: string)
    requires m in {SLLI, SRLI, SRAI} && IsBitField(top, 7)
    ensures IsaFunct3(m).Some?
    ensures DecodeOpImm(Value(IsaFunct3(m).value), Value(top)) == Some(m) <==> top == ShiftUpper(m)
  {
    ValueInjective(top, ShiftUpper(m));
    ShiftSelector(m, Value(top));
  }

  lemma ShiftSelector(m: Mnemonic, f7: nat)
    requires m in {SLLI, SRLI, SRAI}
    ensures IsaFunct3(m).Some?
    ensures DecodeOpImm(Value(IsaFunct3(m).value), f7) == Some(m) <==> f7 == Value(ShiftUpper(m))
  {
    Funct3Read(m);
    Funct7Values();
    match m
    case SLLI =>
    case SRLI =>
    case SRAI =>
  }

  lemma DecodeOpListing(m: Mnemonic)
    requires m in InstrBopArith
    ensures IsaFunct3(m).Some? && IsaFunct7(m).Some?
    ensures DecodeOp(Value(IsaFunct3(m).value), Value(IsaFunct7(m).value)) == Some(m)
  {
    FunctArithIsa(m);
    Funct3Read(m);
    Funct7Read(m);
    match m
    case ADD =>
    case SUB =>
    case SLL =>
    case SLT =>
    case SLTU =>
    case XOR =>
    case SRL =>
    case SRA =>
    case OR =>
    case AND => Value3("111"); Value7("0000000");
  }

  // ---------------------------------------------------------------------
  // Decoding inverts the reference encoding

  lemma RegField(r: nat)
    requires IsReg(r)
    ensures Value(Fixed(r, 5)) == r
  {
    assert Pow2(5) == 32;
    ValueFixed(r, 5);
  }

  /** An R word reads back as its instruction and registers. */
  lemma DecodeEncodeR(m: Mnemonic, rd: nat, rs1: nat, rs2: nat)
    requires IsaFormat(m) == FmtR && IsReg(rd) && IsReg(rs1) && IsReg(rs2)
    ensures Decode(EncodeR(m, rd, rs1, rs2)) == Some(Decoded(m, Some(rd), Some(rs1), Some(rs2), None))
  {
    var w := EncodeR(m, rd, rs1, rs2);
    FieldWidths(m);
    var f3, f7 := IsaFunct3(m).value, IsaFunct7(m).value;
    Layout(f7, Fixed(rs2, 5), Fixed(rs1, 5), f3, Fixed(rd, 5), IsaOpcode(m));
    assert DecodeMnemonic(Value(w[25..]), Value(w[17..20]), Value(w[..7])) == Some(m) by {
      assert m in InstrBopArith by { FormatClassesRegister(m); ClassificationsAgree(); }
      OpcodeGroupArith(m);
      OpcodeDispatch(Value(f3), Value(f7));
      DecodeOpListing(m);
    }
    RegField(rd);
    RegField(rs1);
    RegField(rs2);
  }

  /** A word of bits whose fields are those the listing gives m decodes as m,
      with the operands in their places. */
  lemma DecodesAs(m: Mnemonic, w: string)
    requires |w| == 32 && IsBits(w) && w[25..] == IsaOpcode(m)
    requires IsaFunct3(m).Some? ==> w[17..20] == IsaFunct3(m).value
    requires IsaFunct7(m).Some? ==> w[..7] == IsaFunct7(m).value
    requires m in {SLLI, SRLI, SRAI} ==> w[..7] == ShiftUpper(m)
    ensures Decode(w) == Some(Operands(m, w))
  {
    DecodeListing(m, Value(w[17..20]), Value(w[..7]));
  }

  /** The mnemonic a word decodes as is the one its opcode and funct fields select. */
  lemma DecodedMnemonic(w: string)
    requires |w| == 32 && IsBits(w)
    ensures Decode(w).Some? <==> DecodeMnemonic(Value(w[25..]), Value(w[17..20]), Value(w[..7])).Some?
    ensures Decode(w).Some? ==> Decode(w).value.m == DecodeMnemonic(Value(w[25..]), Value(w[17..20]), Value(w[..7])).value
  {
    var sel := DecodeMnemonic(Value(w[25..]), Value(w[17..20]), Value(w[..7]));
    if sel.Some? {
      assert Decode(w) == Some(Operands(sel.value, w));
    } else {
      assert Decode(w) == None;
    }
  }

  /** An I word reads back as its instruction, registers and signed immediate; a
      shift needs its selector in imm[11:5]. */
  lemma DecodeEncodeI(m: Mnemonic, rd: nat, rs1: nat, imm: string)
    requires IsaFormat(m) == FmtI && IsReg(rd) && IsReg(rs1) && IsBitField(imm, 12)
    requires m in {SLLI, SRLI, SRAI} ==> imm[..7] == ShiftUpper(m)
    ensures Decode(EncodeI(m, rd, rs1, imm)) == Some(Decoded(m, Some(rd), Some(rs1), None, Some(SignedValue(imm))))
  {
    var w := EncodeI(m, rd, rs1, imm);
    FieldWidths(m);
    assert imm == imm[..7] + imm[7..];
    SplitBits(imm, 7);
    Layout(imm[..7], imm[7..], Fixed(rs1, 5), IsaFunct3(m).value, Fixed(rd, 5), IsaOpcode(m));
    DecodesAs(m, w);
    RegField(rd);
    RegField(rs1);
  }

  /** A shift's word reads back as that shift exactly when imm[11:5] is its
      selector. */
  lemma DecodeShift(m: Mnemonic, rd: nat, rs1: nat, imm: string)
    requires m in {SLLI, SRLI, SRAI} && IsReg(rd) && IsReg(rs1) && IsBitField(imm, 12)
    ensures var d := Decode(EncodeI(m, rd, rs1, imm));
      (d.Some? && d.value.m == m) <==> imm[..7] == ShiftUpper(m)
  {
    FieldWidths(m);
    assert IsaOpcode(m) == BopArithi by { OpcodeGroupArithi(m); }
    DecodeShiftListing(m, imm[..7]);
    assert imm == imm[..7] + imm[7..];
    SplitBits(imm, 7);
    DecodeShiftWord(m, rd, rs1, imm[..7], imm[7..], IsaFunct3(m).value, IsaOpcode(m));
  }

  /** The shift case laid out on a funct3 of the right width. */
  lemma DecodeShiftWord(m: Mnemonic, rd: nat, rs1: nat, top: string, low: string, f3: string, op: string)
    requires IsReg(rd) && IsReg(rs1) && IsBitField(top, 7) && IsBitField(low, 5) && IsBitField(f3, 3)
    requires IsBitField(op, 7) && op == BopArithi
    requires DecodeOpImm(Value(f3), Value(top)) == Some(m) <==> top == ShiftUpper(m)
    ensures var d := Decode(top + low + Fixed(rs1, 5) + f3 + Fixed(rd, 5) + op);
      (d.Some? && d.value.m == m) <==> top == ShiftUpper(m)
  {
    var w := top + low + Fixed(rs1, 5) + f3 + Fixed(rd, 5) + op;
    assert |w| == 32 && IsBits(w) && w[25..] == op && w[17..20] == f3 && w[..7] == top by {
      Layout(top, low, Fixed(rs1, 5), f3, Fixed(rd, 5), op);
    }
    assert DecodeMnemonic(Value(w[25..]), Value(w[17..20]), Value(w[..7])) == DecodeOpImm(Value(f3), Value(top)) by {
      OpcodeDispatch(Value(f3), Value(top));
    }
    DecodedMnemonic(w);
  }

  /** An S word reads back as its instruction, registers and signed offset. */
  lemma DecodeEncodeS(m: Mnemonic, rs1: nat, rs2: nat, imm: string)
    requires IsaFormat(m) == FmtS && IsReg(rs1) && IsReg(rs2) && IsBitField(imm, 12)
    ensures Decode(EncodeS(m, rs1, rs2, imm)) == Some(Decoded(m, None, Some(rs1), Some(rs2), Some(SignedValue(imm))))
  {
    var w := EncodeS(m, rs1, rs2, imm);
    FieldWidths(m);
    SplitBits(imm, 7);
    Layout(imm[..7], Fixed(rs2, 5), Fixed(rs1, 5), IsaFunct3(m).value, imm[7..], IsaOpcode(m));
    assert w[..7] + w[20..25] == imm;
    DecodesAs(m, w);
    RegField(rs1);
    RegField(rs2);
  }

  /** imm[12:1] is gathered back from the four places the B format scatters it to. */
  lemma BranchGather(imm: string, b: string, c: string, e: string, g: string)
    requires |imm| == 12 && |b| == 5 && |c| == 5 && |e| == 3 && |g| == 7
    ensures var w := ([imm[0]] + imm[2..8]) + b + c + e + (imm[8..12] + [imm[1]]) + g;
      |w| == 32 && BranchBits(w) == imm
  {
    var w := ([imm[0]] + imm[2..8]) + b + c + e + (imm[8..12] + [imm[1]]) + g;
    assert w[1..7] == imm[2..8];
    assert w[20..24] == imm[8..12];
    assert w[24] == imm[1];
    assert BranchBits(w) == [imm[0]] + [imm[1]] + imm[2..8] + imm[8..12];
    assert imm == [imm[0]] + [imm[1]] + imm[2..8] + imm[8..12];
  }

  /** A B word reads back as its instruction, registers and the even offset
      2 * imm[12:1]. */
  lemma DecodeEncodeB(m: Mnemonic, rs1: nat, rs2: nat, imm: string)
    requires IsaFormat(m) == FmtSB && IsReg(rs1) && IsReg(rs2) && IsBitField(imm, 12)
    ensures Decode(EncodeB(m, rs1, rs2, imm)) == Some(Decoded(m, None, Some(rs1), Some(rs2), Some(2 * SignedValue(imm))))
  {
    var w := EncodeB(m, rs1, rs2, imm);
    FieldWidths(m);
    BranchShape(rs1, rs2, imm, IsaFunct3(m).value, IsaOpcode(m));
    DecodesAs(m, w);
    RegField(rs1);
    RegField(rs2);
  }

  /** Where the fields of a B word lie. */
  lemma BranchShape(rs1: nat, rs2: nat, imm: string, f3: string, op: string)
    requires IsBitField(imm, 12) && IsBitField(f3, 3) && IsBitField(op, 7)
    ensures var w := ([imm[0]] + imm[2..8]) + Fixed(rs2, 5) + Fixed(rs1, 5) + f3 + (imm[8..12] + [imm[1]]) + op;
      |w| == 32 && IsBits(w) && BranchBits(w) == imm && w[25..] == op && w[17..20] == f3
      && w[7..12] == Fixed(rs2, 5) && w[12..17] == Fixed(rs1, 5)
  {
    var hi, lo := [imm[0]] + imm[2..8], imm[8..12] + [imm[1]];
    assert IsBits(hi) && IsBits(lo) by {
      forall i | 1 <= i < 7 ensures IsBit(hi[i]) { assert hi[i] == imm[i + 1]; }
      forall i | 0 <= i < 4 ensures IsBit(lo[i]) { assert lo[i] == imm[8 + i]; }
    }
    BranchGather(imm, Fixed(rs2, 5), Fixed(rs1, 5), f3, op);
    Layout(hi, Fixed(rs2, 5), Fixed(rs1, 5), f3, lo, op);
  }

  /** A 20-bit field and two more fields laid out in a word. */
  lemma UpperLayout(p: string, e: string, g: string)
    requires |p| == 20 && |e| == 5 && |g| == 7
    ensures var w := p + e + g;
      |w| == 32 && w[..20] == p && w[20..25] == e && w[25..] == g
      && (IsBits(w) <==> IsBits(p) && IsBits(e) && IsBits(g))
  {
    assert p == p[..7] + p[7..12] + p[12..17] + p[17..];
    Layout(p[..7], p[7..12], p[12..17], p[17..], e, g);
    if IsBits(p) {
      assert IsBits(p[..7]) && IsBits(p[7..12]) && IsBits(p[12..17]) && IsBits(p[17..]);
    }
    if IsBits(p + e + g) {
      assert IsBits(p) by {
        forall i | 0 <= i < 20 ensures IsBit(p[i]) { assert p[i] == (p + e + g)[i]; }
      }
    }
  }

  /** A U word reads back as its instruction, register and upper immediate. */
  lemma DecodeEncodeU(m: Mnemonic, rd: nat, imm: string)
    requires IsaFormat(m) == FmtU && IsReg(rd) && IsBitField(imm, 20)
    ensures Decode(EncodeU(m, rd, imm)) == Some(Decoded(m, Some(rd), None, None, Some(SignedValue(imm))))
  {
    var w := EncodeU(m, rd, imm);
    FieldWidths(m);
    UpperLayout(imm, Fixed(rd, 5), IsaOpcode(m));
    DecodesAs(m, w);
    RegField(rd);
  }

  /** imm[20:1] is gathered back from the four places the J format scatters it to. */
  lemma JumpGather(imm: string, y: string)
    requires |imm| == 20 && |y| == 12
    ensures var w := [imm[0]] + imm[10..20] + [imm[9]] + imm[1..9] + y;
      |w| == 32 && JumpBits(w) == imm
  {
    var w := [imm[0]] + imm[10..20] + [imm[9]] + imm[1..9] + y;
    assert w[1..11] == imm[10..20];
    assert w[11] == imm[9];
    assert w[12..20] == imm[1..9];
    assert imm == [imm[0]] + imm[1..9] + [imm[9]] + imm[10..20];
  }

  /** A J word reads back as its instruction, register and the even offset
      2 * imm[20:1]. */
  lemma DecodeEncodeJ(m: Mnemonic, rd: nat, imm: string)
    requires IsaFormat(m) == FmtUJ && IsReg(rd) && IsBitField(imm, 20)
    ensures Decode(EncodeJ(m, rd, imm)) == Some(Decoded(m, Some(rd), None, None, Some(2 * SignedValue(imm))))
  {
    var w := EncodeJ(m, rd, imm);
    FieldWidths(m);
    var p := [imm[0]] + imm[10..20] + [imm[9]] + imm[1..9];
    assert w == p + (Fixed(rd, 5) + IsaOpcode(m));
    JumpGather(imm, Fixed(rd, 5) + IsaOpcode(m));
    UpperLayout(p, Fixed(rd, 5), IsaOpcode(m));
    assert IsBits(p) by {
      forall i | 0 <= i < 20 ensures IsBit(p[i]) {
        if i == 0 { } else if i < 11 { assert p[i] == imm[i + 9]; }
        else if i == 11 { } else { assert p[i] == imm[i - 11]; }
      }
    }
    DecodesAs(m, w);
    RegField(rd);
  }
}
