/** The static tables of the assembler: the 37 RV32I mnemonics it knows, their
    classification by instruction format and by major opcode, and the binary
    opcode, funct3 and funct7 strings (section 2.2 and chapter 24 of the
    RISC-V Unprivileged ISA, version 20191213). */
module MachineCodeConst {
  import opened Results
  import opened BitString

  datatype Mnemonic =
    | LUI | AUIPC | JAL | JALR
    | BEQ | BNE | BLT | BGE | BLTU | BGEU
    | LB | LH | LW | LBU | LHU
    | SB | SH | SW
    | ADDI | SLTI | SLTIU | XORI | ORI | ANDI | SLLI | SRLI | SRAI
    | ADD | SUB | SLL | SLT | SLTU | XOR | SRL | SRA | OR | AND

  /** The spelling of each mnemonic in assembly source. */
  function Name(m: Mnemonic): string {
    match m
    case LUI => "lui"
    case AUIPC => "auipc"
    case JAL => "jal"
    case JALR => "jalr"
    case BEQ => "beq"
    case BNE => "bne"
    case BLT => "blt"
    case BGE => "bge"
    case BLTU => "bltu"
    case BGEU => "bgeu"
    case LB => "lb"
    case LH => "lh"
    case LW => "lw"
    case LBU => "lbu"
    case LHU => "lhu"
    case SB => "sb"
    case SH => "sh"
    case SW => "sw"
    case ADDI => "addi"
    case SLTI => "slti"
    case SLTIU => "sltiu"
    case XORI => "xori"
    case ORI => "ori"
    case ANDI => "andi"
    case SLLI => "slli"
    case SRLI => "srli"
    case SRAI => "srai"
    case ADD => "add"
    case SUB => "sub"
    case SLL => "sll"
    case SLT => "slt"
    case SLTU => "sltu"
    case XOR => "xor"
    case SRL => "srl"
    case SRA => "sra"
    case OR => "or"
    case AND => "and"
  }

  /** The mnemonic a spelling names, read back; Name's left inverse. */
  function Spelled(s: string): Option<Mnemonic> {
    match s
    case "lui" => Some(LUI)
    case "auipc" => Some(AUIPC)
    case "jal" => Some(JAL)
    case "jalr" => Some(JALR)
    case "beq" => Some(BEQ)
    case "bne" => Some(BNE)
    case "blt" => Some(BLT)
    case "bge" => Some(BGE)
    case "bltu" => Some(BLTU)
    case "bgeu" => Some(BGEU)
    case "lb" => Some(LB)
    case "lh" => Some(LH)
    case "lw" => Some(LW)
    case "lbu" => Some(LBU)
    case "lhu" => Some(LHU)
    case "sb" => Some(SB)
    case "sh" => Some(SH)
    case "sw" => Some(SW)
    case "addi" => Some(ADDI)
    case "slti" => Some(SLTI)
    case "sltiu" => Some(SLTIU)
    case "xori" => Some(XORI)
    case "ori" => Some(ORI)
    case "andi" => Some(ANDI)
    case "slli" => Some(SLLI)
    case "srli" => Some(SRLI)
    case "srai" => Some(SRAI)
    case "add" => Some(ADD)
    case "sub" => Some(SUB)
    case "sll" => Some(SLL)
    case "slt" => Some(SLT)
    case "sltu" => Some(SLTU)
    case "xor" => Some(XOR)
    case "srl" => Some(SRL)
    case "sra" => Some(SRA)
    case "or" => Some(OR)
    case "and" => Some(AND)
    case _ => None
  }

  /** All reserved opcodes, in the order the source lists them. */
  const AllInstr: seq<Mnemonic> :=
    [LUI, AUIPC, JAL, JALR, BEQ, BNE, BLT, BGE, BLTU, BGEU, LB, LH, LW, LBU, LHU,
     SB, SH, SW, ADDI, SLTI, SLTIU, XORI, ORI, ANDI, SLLI, SRLI, SRAI,
     ADD, SUB, SLL, SLT, SLTU, XOR, SRL, SRA, OR, AND]

  /** The mnemonic spelled s, if any: the first entry of AllInstr with that name. */
  function Lookup(s: string): Option<Mnemonic> {
    LookupIn(s, AllInstr)
  }

  function LookupIn(s: string, ms: seq<Mnemonic>): (r: Option<Mnemonic>)
    ensures r.Some? ==> r.value in ms && Name(r.value) == s
    ensures r.None? ==> forall m :: m in ms ==> Name(m) != s
  {
    if |ms| == 0 then None
    else if Name(ms[0]) == s then Some(ms[0])
    else LookupIn(s, ms[1..])
  }

  // Instruction formats
  const TypeU: set<Mnemonic> := {LUI, AUIPC}
  const TypeUJ: set<Mnemonic> := {JAL}
  const TypeS: set<Mnemonic> := {SW, SB, SH}
  const TypeSB: set<Mnemonic> := {BEQ, BNE, BLT, BLTU, BGE, BGEU}
  const TypeI: set<Mnemonic> :=
    {ADDI, SLTI, SLTIU, ORI, XORI, ANDI, SLLI, SRLI, SRAI, JALR, LW, LB, LH, LBU, LHU}
  const TypeR: set<Mnemonic> := {ADD, SUB, SLL, SLT, SLTU, XOR, SRL, SRA, OR, AND}

  // Binary opcodes
  const BopLui := "0110111"
  const BopAuipc := "0010111"
  const BopJal := "1101111"
  const BopJalr := "1100111"
  const BopBranch := "1100011"
  const BopLoad := "0000011"
  const BopStore := "0100011"
  const BopArithi := "0010011"
  const BopArith := "0110011"

  // The mnemonics of each binary opcode
  const InstrBopLui: set<Mnemonic> := {LUI}
  const InstrBopAuipc: set<Mnemonic> := {AUIPC}
  const InstrBopJal: set<Mnemonic> := {JAL}
  const InstrBopJalr: set<Mnemonic> := {JALR}
  const InstrBopBranch: set<Mnemonic> := {BEQ, BNE, BLT, BLTU, BGE, BGEU}
  const InstrBopLoad: set<Mnemonic> := {LW, LB, LH, LBU, LHU}
  const InstrBopStore: set<Mnemonic> := {SW, SB, SH}
  const InstrBopArithi: set<Mnemonic> := {ADDI, SLTI, SLTIU, ORI, XORI, ANDI, SLLI, SRLI, SRAI}
  const InstrBopArith: set<Mnemonic> := {ADD, SUB, SLL, SLT, SLTU, XOR, SRL, SRA, OR, AND}

  // funct3 and funct7 of each group
  const Funct3Arithi: map<Mnemonic, string> :=
    map[ADDI := "000", SLTI := "010", SLTIU := "011", ORI := "110", XORI := "100",
        ANDI := "111", SLLI := "001", SRLI := "101", SRAI := "101"]
  const Funct3Jalr: map<Mnemonic, string> := map[JALR := "000"]
  const Funct3Load: map<Mnemonic, string> :=
    map[LB := "000", LH := "001", LW := "010", LBU := "100", LHU := "101"]
  const Funct3Arith: map<Mnemonic, string> :=
    map[ADD := "000", SUB := "000", SLL := "001", SLT := "010", SLTU := "011",
        XOR := "100", SRL := "101", SRA := "101", OR := "110", AND := "111"]
  const Funct7Arith: map<Mnemonic, string> :=
    map[ADD := "0000000", SUB := "0100000", SLL := "0000000", SLT := "0000000",
        SLTU := "0000000", XOR := "0000000", SRL := "0000000", SRA := "0100000",
        OR := "0000000", AND := "0000000"]
  const Funct3Store: map<Mnemonic, string> := map[SB := "000", SH := "001", SW := "010"]
  const Funct3Branch: map<Mnemonic, string> :=
    map[BEQ := "000", BNE := "001", BLT := "100", BGE := "101", BLTU := "110", BGEU := "111"]

  /** The nine binary-opcode groups, in the order the generator tests them. */
  datatype Group = GLui | GAuipc | GJal | GJalr | GBranch | GLoad | GStore | GArithi | GArith

  function Members(g: Group): set<Mnemonic> {
    match g
    case GLui => InstrBopLui
    case GAuipc => InstrBopAuipc
    case GJal => InstrBopJal
    case GJalr => InstrBopJalr
    case GBranch => InstrBopBranch
    case GLoad => InstrBopLoad
    case GStore => InstrBopStore
    case GArithi => InstrBopArithi
    case GArith => InstrBopArith
  }

  function Bop(g: Group): string {
    match g
    case GLui => BopLui
    case GAuipc => BopAuipc
    case GJal => BopJal
    case GJalr => BopJalr
    case GBranch => BopBranch
    case GLoad => BopLoad
    case GStore => BopStore
    case GArithi => BopArithi
    case GArith => BopArith
  }

  const InstrSet: set<Mnemonic> := set m | m in AllInstr

  // ---------------------------------------------------------------------
  // Reference: the RV32I listing of the ISA manual, one mnemonic at a time

  datatype Format = FmtU | FmtUJ | FmtS | FmtSB | FmtI | FmtR

  /** The base format each instruction is encoded in (section 2.3 of the ISA manual
      calls UJ and SB the J and B variants). */
  function IsaFormat(m: Mnemonic): Format {
    match m
    case LUI | AUIPC => FmtU
    case JAL => FmtUJ
    case SB | SH | SW => FmtS
    case BEQ | BNE | BLT | BGE | BLTU | BGEU => FmtSB
    case ADD | SUB | SLL | SLT | SLTU | XOR | SRL | SRA | OR | AND => FmtR
    case JALR | LB | LH | LW | LBU | LHU => FmtI
    case ADDI | SLTI | SLTIU | XORI | ORI | ANDI | SLLI | SRLI | SRAI => FmtI
  }

  /** The major opcode of each instruction. */
  function IsaOpcode(m: Mnemonic): string {
    match m
    case LUI => "0110111"
    case AUIPC => "0010111"
    case JAL => "1101111"
    case JALR => "1100111"
    case BEQ | BNE | BLT | BGE | BLTU | BGEU => "1100011"
    case LB | LH | LW | LBU | LHU => "0000011"
    case SB | SH | SW => "0100011"
    case ADDI | SLTI | SLTIU | XORI | ORI | ANDI | SLLI | SRLI | SRAI => "0010011"
    case ADD | SUB | SLL | SLT | SLTU | XOR | SRL | SRA | OR | AND => "0110011"
  }

  /** The funct3 field of each instruction; the U and UJ formats have none. */
  function IsaFunct3(m: Mnemonic): Option<string> {
    match m
    case LUI | AUIPC | JAL => None
    case JALR | BEQ | LB | SB | ADDI | ADD | SUB => Some("000")
    case BNE | LH | SH | SLLI | SLL => Some("001")
    case LW | SW | SLTI | SLT => Some("010")
    case SLTIU | SLTU => Some("011")
    case BLT | LBU | XORI | XOR => Some("100")
    case BGE | LHU | SRLI | SRAI | SRL | SRA => Some("101")
    case BLTU | ORI | OR => Some("110")
    case BGEU | ANDI | AND => Some("111")
  }

  /** The funct7 field of the register-register instructions. */
  function IsaFunct7(m: Mnemonic): Option<string> {
    match m
    case SUB | SRA => Some("0100000")
    case ADD | SLL | SLT | SLTU | XOR | SRL | OR | AND => Some("0000000")
    case _ => None
  }

  /** How many of the six format classes contain m. */
  function FormatCount(m: Mnemonic): nat {
    Indicator(m in TypeU) + Indicator(m in TypeUJ) + Indicator(m in TypeS)
    + Indicator(m in TypeSB) + Indicator(m in TypeI) + Indicator(m in TypeR)
  }

  /** How many of the nine binary-opcode groups contain m. */
  function OpcodeGroupCount(m: Mnemonic): nat {
    Indicator(m in InstrBopLui) + Indicator(m in InstrBopAuipc) + Indicator(m in InstrBopJal)
    + Indicator(m in InstrBopJalr) + Indicator(m in InstrBopBranch) + Indicator(m in InstrBopLoad)
    + Indicator(m in InstrBopStore) + Indicator(m in InstrBopArithi) + Indicator(m in InstrBopArith)
  }

  function Indicator(b: bool): nat {
    if b then 1 else 0
  }

  predicate IsBitField(s: string, width: nat) {
    |s| == width && IsBits(s)
  }

  // ---------------------------------------------------------------------
  // Properties of the tables

  /** Every mnemonic is reserved. */
  lemma AllInstrComplete(m: Mnemonic)
    ensures m in AllInstr
  {
  }

  /** No two mnemonics share a spelling. */
  lemma NameInjective(m1: Mnemonic, m2: Mnemonic)
    requires Name(m1) == Name(m2)
    ensures m1 == m2
  {
    SpelledName(m1);
    SpelledName(m2);
  }

  /** Reading a spelling back gives the mnemonic spelled. */
  lemma SpelledName(m: Mnemonic)
    ensures Spelled(Name(m)) == Some(m)
  {
    match m
    case LUI =>
    case AUIPC =>
    case JAL =>
    case JALR =>
    case BEQ =>
    case BNE =>
    case BLT =>
    case BGE =>
    case BLTU =>
    case BGEU =>
    case LB =>
    case LH =>
    case LW =>
    case LBU =>
    case LHU =>
    case SB =>
    case SH =>
    case SW =>
    case ADDI =>
    case SLTI =>
    case SLTIU =>
    case XORI =>
    case ORI =>
    case ANDI =>
    case SLLI =>
    case SRLI =>
    case SRAI =>
    case ADD =>
    case SUB =>
    case SLL =>
    case SLT =>
    case SLTU =>
    case XOR =>
    case SRL =>
    case SRA =>
    case OR =>
    case AND =>
  }

  /** A string is classified as a reserved opcode exactly when it spells a mnemonic, and
      then as that mnemonic. */
  lemma LookupName(s: string, m: Mnemonic)
    ensures Lookup(s) == Some(m) <==> Name(m) == s
  {
    AllInstrComplete(m);
    var r := Lookup(s);
    if r.Some? && Name(m) == s {
      NameInjective(r.value, m);
    }
  }

  /** Each format class holds exactly the instructions of that format. */
  lemma FormatClassesImmediate(m: Mnemonic)
    ensures m in TypeU <==> IsaFormat(m) == FmtU
    ensures m in TypeUJ <==> IsaFormat(m) == FmtUJ
    ensures m in TypeI <==> IsaFormat(m) == FmtI
  {
  }

  lemma FormatClassesRegister(m: Mnemonic)
    ensures m in TypeS <==> IsaFormat(m) == FmtS
    ensures m in TypeSB <==> IsaFormat(m) == FmtSB
    ensures m in TypeR <==> IsaFormat(m) == FmtR
  {
  }

  /** The six format classes are pairwise disjoint: each mnemonic is in exactly one ... */
  lemma FormatExclusive(m: Mnemonic)
    ensures FormatCount(m) == 1
  {
    FormatClassesImmediate(m);
    FormatClassesRegister(m);
  }

  /** Every mnemonic is reserved, is in one format class and in one
      binary-opcode group. */
  lemma Classified(m: Mnemonic)
    ensures m in InstrSet
    ensures m in TypeU + TypeUJ + TypeS + TypeSB + TypeI + TypeR
    ensures m in InstrBopLui + InstrBopAuipc + InstrBopJal + InstrBopJalr + InstrBopBranch
            + InstrBopLoad + InstrBopStore + InstrBopArithi + InstrBopArith
  {
    AllInstrComplete(m);
    match m
    case LUI | AUIPC | JAL | JALR =>
    case BEQ | BNE | BLT | BGE | BLTU | BGEU =>
    case LB | LH | LW | LBU | LHU =>
    case SB | SH | SW =>
    case ADDI | SLTI | SLTIU | XORI | ORI | ANDI | SLLI | SRLI | SRAI =>
    case ADD | SUB | SLL | SLT | SLTU | XOR | SRL | SRA | OR | AND =>
  }

  /** Each binary-opcode group holds exactly the instructions with that opcode. */
  lemma OpcodeGroupsJump(m: Mnemonic)
    ensures m in InstrBopLui <==> IsaOpcode(m) == BopLui
    ensures m in InstrBopAuipc <==> IsaOpcode(m) == BopAuipc
    ensures m in InstrBopJal <==> IsaOpcode(m) == BopJal
    ensures m in InstrBopJalr <==> IsaOpcode(m) == BopJalr
  {
  }

  lemma OpcodeGroupBranch(m: Mnemonic)
    ensures m in InstrBopBranch <==> IsaOpcode(m) == BopBranch
  {
  }

  lemma OpcodeGroupLoad(m: Mnemonic)
    ensures m in InstrBopLoad <==> IsaOpcode(m) == BopLoad
  {
  }

  lemma OpcodeGroupStore(m: Mnemonic)
    ensures m in InstrBopStore <==> IsaOpcode(m) == BopStore
  {
  }

  lemma OpcodeGroupArithi(m: Mnemonic)
    ensures m in InstrBopArithi <==> IsaOpcode(m) == BopArithi
  {
  }

  lemma OpcodeGroupArith(m: Mnemonic)
    ensures m in InstrBopArith <==> IsaOpcode(m) == BopArith
  {
  }

  /** The nine binary-opcode groups are pairwise disjoint: each mnemonic is in exactly one ... */
  lemma OpcodeGroupExclusive(m: Mnemonic)
    ensures OpcodeGroupCount(m) == 1
  {
    OpcodeGroupsJump(m);
    OpcodeGroupBranch(m);
    OpcodeGroupLoad(m);
    OpcodeGroupStore(m);
    OpcodeGroupArithi(m);
    OpcodeGroupArith(m);
  }

  /** The format classification and the opcode grouping agree. */
  lemma ClassificationsAgree()
    ensures TypeI == InstrBopArithi + InstrBopLoad + InstrBopJalr
    ensures TypeS == InstrBopStore && TypeSB == InstrBopBranch && TypeR == InstrBopArith
    ensures TypeU == InstrBopLui + InstrBopAuipc && TypeUJ == InstrBopJal
  {
  }

  /** Each funct table is keyed by exactly the mnemonics of its group, so a lookup
      after dispatch on the group never misses. */
  lemma Funct3KeysImmediate()
    ensures Funct3Arithi.Keys == InstrBopArithi
    ensures Funct3Jalr.Keys == InstrBopJalr
    ensures Funct3Load.Keys == InstrBopLoad
  {
  }

  lemma FunctKeysRegister()
    ensures Funct3Arith.Keys == InstrBopArith
    ensures Funct7Arith.Keys == InstrBopArith
  {
  }

  lemma Funct3KeysStoreBranch()
    ensures Funct3Store.Keys == InstrBopStore
    ensures Funct3Branch.Keys == InstrBopBranch
  {
  }

  /** After dispatch on its group, looking an instruction up in the group's funct
      tables succeeds and gives the instruction's fields. */
  lemma Funct3ArithiIsa(m: Mnemonic)
    requires m in InstrBopArithi
    ensures m in Funct3Arithi && IsaFunct3(m) == Some(Funct3Arithi[m])
  {
  }

  lemma Funct3JalrIsa(m: Mnemonic)
    requires m in InstrBopJalr
    ensures m in Funct3Jalr && IsaFunct3(m) == Some(Funct3Jalr[m])
  {
  }

  lemma Funct3LoadIsa(m: Mnemonic)
    requires m in InstrBopLoad
    ensures m in Funct3Load && IsaFunct3(m) == Some(Funct3Load[m])
  {
  }

  lemma Funct3StoreIsa(m: Mnemonic)
    requires m in InstrBopStore
    ensures m in Funct3Store && IsaFunct3(m) == Some(Funct3Store[m])
  {
  }

  lemma Funct3BranchIsa(m: Mnemonic)
    requires m in InstrBopBranch
    ensures m in Funct3Branch && IsaFunct3(m) == Some(Funct3Branch[m])
  {
  }

  lemma FunctArithIsa(m: Mnemonic)
    requires m in InstrBopArith
    ensures m in Funct3Arith && IsaFunct3(m) == Some(Funct3Arith[m])
    ensures m in Funct7Arith && IsaFunct7(m) == Some(Funct7Arith[m])
  {
    Funct3ArithIsa(m);
    Funct7ArithIsa(m);
  }

  lemma Funct3ArithIsa(m: Mnemonic)
    requires m in InstrBopArith
    ensures m in Funct3Arith && IsaFunct3(m) == Some(Funct3Arith[m])
  {
  }

  lemma Funct7ArithIsa(m: Mnemonic)
    requires m in InstrBopArith
    ensures m in Funct7Arith && IsaFunct7(m) == Some(Funct7Arith[m])
  {
  }

  /** Opcodes are 7-bit strings, funct3 values 3-bit strings and funct7 values 7-bit strings. */
  lemma FieldWidths(m: Mnemonic)
    ensures IsBitField(IsaOpcode(m), 7)
    ensures IsaFunct3(m).Some? ==> IsBitField(IsaFunct3(m).value, 3)
    ensures IsaFunct7(m).Some? ==> IsBitField(IsaFunct7(m).value, 7)
  {
    OpcodeWidth(m);
    Funct3Width(m);
    Funct7Width(m);
  }

  lemma OpcodeWidth(m: Mnemonic)
    ensures IsBitField(IsaOpcode(m), 7)
  {
    match m
    case LUI =>
    case AUIPC =>
    case JAL =>
    case JALR =>
    case BEQ | BNE | BLT | BGE | BLTU | BGEU =>
    case LB | LH | LW | LBU | LHU =>
    case SB | SH | SW =>
    case ADDI | SLTI | SLTIU | XORI | ORI | ANDI | SLLI | SRLI | SRAI =>
    case ADD | SUB | SLL | SLT | SLTU | XOR | SRL | SRA | OR | AND =>
  }

  lemma Funct3Width(m: Mnemonic)
    ensures IsaFunct3(m).Some? ==> IsBitField(IsaFunct3(m).value, 3)
  {
    match m
    case LUI | AUIPC | JAL =>
    case JALR | BEQ | LB | SB | ADDI | ADD | SUB =>
    case BNE | LH | SH | SLLI | SLL =>
    case LW | SW | SLTI | SLT =>
    case SLTIU | SLTU =>
    case BLT | LBU | XORI | XOR =>
    case BGE | LHU | SRLI | SRAI | SRL | SRA =>
    case BLTU | ORI | OR =>
    case BGEU | ANDI | AND =>
  }

  lemma Funct7Width(m: Mnemonic)
    ensures IsaFunct7(m).Some? ==> IsBitField(IsaFunct7(m).value, 7)
  {
    match m
    case SUB | SRA =>
    case ADD | SLL | SLT | SLTU | XOR | SRL | OR | AND =>
    case _ =>
  }
}
