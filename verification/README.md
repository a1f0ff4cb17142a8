# RV32I two-pass assembler, modelled in Dafny

This project models the core of a small two-pass assembler for the RISC-V
RV32I base instruction set. The assembler reads a source file one line at a
time. Each line goes through four stages:

- **Lexer** (`Tokenizer`). It finds opcodes, labels, `$n` registers, signed
  decimal immediates, commas, colons, newlines and comments.
- **Grammar** (`Parser`). It accepts five line shapes: a label declaration,
  an empty statement, three registers, two registers and an immediate, and one
  register and an immediate. It checks that registers are `$0`..`$31` and
  that the opcode's format takes the shape.
- **Immediate encoders** (`Immediates`). There is one encoder per format. Each
  renders the number the way Python's `format(n, '0wb')` does and cuts out
  the bits the format stores. The jump and branch encoders also permute the
  bits into instruction order.
- **Generator** (`MachineCodeGen`). It dispatches on the opcode's group and
  concatenates the fields into a 32-character word. The word is `'0'`/`'1'`
  characters, apart from a possible leading `'-'` (see below).

The two passes are `Assembler.Pass1` and `Assembler.Pass2`:

- Pass 1 builds the label table. Every instruction statement takes four
  bytes. A label declared twice stops the run.
- Pass 2 resets the line counter and reads the file again. It writes one word
  per instruction, in binary or with `-x` in hexadecimal. A word of bits is
  written as eight hexadecimal digits. A word with a leading `'-'` is written as
  `'-'` and the digits of its magnitude.

The instruction tables are in `MachineCodeConst`. The module holds the 37
mnemonics, their format classes, their binary-opcode groups and the funct3
and funct7 tables.

`Decoder` is written independently of those tables. It reads a 32-bit word
back into an instruction from the field layout and opcode listing of the RISC-V
Unprivileged ISA manual (version 20191213): section 2.2 for the base formats,
section 2.3 for the immediate encodings, and chapter 24 for the RV32I opcode
map. `RoundTrip` joins the two halves of the model. For every line the
grammar accepts, it proves that the generated word decodes to the instruction
written, with the same registers. Within the range of the format it also
decodes to the same immediate. Branch and jump offsets are rounded down to
even, because bit 0 is not stored.

Python integers are unbounded, and so are Dafny's. Python's `int()` of a
lexed immediate is `PyInt.IntOf`, which reads a signed decimal numeral.
`format` is `BitString.FormatTwos` and `BitString.FormatBin`. For a
negative value outside the width they produce the same strings Python
does: a `'-'` followed by the magnitude, or a string longer than the width.
The encoders are therefore total, and each out-of-range quirk follows from
its definition:

- A store immediate of 4096 or more keeps its leading bits.
- The jump encoder's length assertion fails for large values.

The checks the source makes with `is` on strings are modelled as equality.

Four behaviours of the code are worth knowing:

- **Label operands.** No production takes a label as an operand, and
  pass 2 never reads the symbol table. Branch and jump targets are therefore
  written as numeric offsets, and no PC-relative resolution happens.
- **Store alignment warning.** `get_imm_S` compares a character with the
  number 0 (`src/lib/parser.py:305`). That comparison is never equal, so the
  warning is printed for every store immediate. `Immediates.EncodeS` sets it
  always.
- **Negative words.** An immediate just below -2^w formats as a `'-'`
  followed by w - 1 bits. For the 12-bit I field that is -6143..-4097
  (`src/lib/parser.py:194-195`), which `Immediates.FieldNegativeI`
  characterises exactly. The U, store, branch and jump encoders have the same
  kind of range. The `'-'` ends up first in the word, because
  `Immediates.EncodersSigned` and `MachineCodeGen.ExpectedWordSigned` show it
  can only open the immediate, and the immediate opens the word. `int(instr, 2)` reads it as a negative number, and
  `'%08X'` writes it as `'-'` and seven or eight digits
  (`src/lib/parser.py:439-440`), which `Hex.HexWordNegative` states. For
  example, `addi $1, $0, -5000` gives the word
  `-0111000100000000000000010010011`, which is written in hexadecimal as the
  nine characters `-38800093`. `Hex.HexWordNibbles` covers every other word
  with eight digits.
- **No-opcode record (unreachable).** An empty statement in pass 2 is
  skipped before the generator is reached. A record with no opcode would make
  `convert_to_binary` return `None`, and unpacking that result raises.
  `GenFailed(MissingOpcode)` stands for that crash. The grammar never builds
  such a record, so the path stays unreachable from a file.

## Model

| member | source | states |
|---|---|---|
| MachineCodeConst.LookupIn | src/lib/machinecodeconst.py:50-61 | a membership test in an instruction list finds a mnemonic of the list spelled as the text, and finds none only when no listed mnemonic is spelled so |
| MachineCodeConst.NameInjective | src/lib/machinecodeconst.py:11-47 | no two mnemonics share a spelling |
| MachineCodeConst.SpelledName | src/lib/machinecodeconst.py:11-47 | reading a mnemonic's spelling gives the mnemonic back |
| MachineCodeConst.LookupName | src/lib/machinecodeconst.py:50-61 | a text is recognised as mnemonic m exactly when it is m's spelling |
| MachineCodeConst.AllInstrComplete | src/lib/machinecodeconst.py:50-61 | the instruction list holds every mnemonic |
| MachineCodeConst.FormatClassesImmediate | src/lib/machinecodeconst.py:63-75 | the U, UJ and I class sets hold exactly the mnemonics the ISA manual gives those formats |
| MachineCodeConst.FormatClassesRegister | src/lib/machinecodeconst.py:63-75 | the S, SB and R class sets hold exactly the mnemonics the ISA manual gives those formats |
| MachineCodeConst.FormatExclusive | src/lib/machinecodeconst.py:63-75 | every mnemonic is in exactly one format class |
| MachineCodeConst.Classified | src/lib/machinecodeconst.py:50-108 | every mnemonic is in the instruction set, in some format class and in some opcode group |
| MachineCodeConst.OpcodeGroupsJump | src/lib/machinecodeconst.py:94-108 | lui, auipc, jal and jalr are in their own groups exactly when their opcode is that group's binary opcode |
| MachineCodeConst.OpcodeGroupBranch | src/lib/machinecodeconst.py:94-108 | the branch group is exactly the mnemonics with the BRANCH opcode |
| MachineCodeConst.OpcodeGroupLoad | src/lib/machinecodeconst.py:94-108 | the load group is exactly the mnemonics with the LOAD opcode |
| MachineCodeConst.OpcodeGroupStore | src/lib/machinecodeconst.py:94-108 | the store group is exactly the mnemonics with the STORE opcode |
| MachineCodeConst.OpcodeGroupArithi | src/lib/machinecodeconst.py:94-108 | the immediate-arithmetic group is exactly the mnemonics with the OP-IMM opcode |
| MachineCodeConst.OpcodeGroupArith | src/lib/machinecodeconst.py:94-108 | the register-arithmetic group is exactly the mnemonics with the OP opcode |
| MachineCodeConst.OpcodeGroupExclusive | src/lib/machinecodeconst.py:94-108 | every mnemonic is in exactly one opcode group |
| MachineCodeConst.ClassificationsAgree | src/lib/machinecodeconst.py:63-108 | the format classes are unions of opcode groups: I is OP-IMM, LOAD and JALR; S is STORE; SB is BRANCH; R is OP; U is LUI and AUIPC; UJ is JAL |
| MachineCodeConst.Funct3KeysImmediate | src/lib/machinecodeconst.py:111-133 | the funct3 tables of the immediate-arithmetic, jalr and load groups cover exactly their groups |
| MachineCodeConst.FunctKeysRegister | src/lib/machinecodeconst.py:135-159 | the funct3 and funct7 tables of the register arithmetic cover exactly its group |
| MachineCodeConst.Funct3KeysStoreBranch | src/lib/machinecodeconst.py:161-174 | the store and branch funct3 tables cover exactly their groups |
| MachineCodeConst.Funct3ArithiIsa | src/lib/machinecodeconst.py:111-121 | the immediate-arithmetic funct3 table agrees with the ISA listing |
| MachineCodeConst.Funct3JalrIsa | src/lib/machinecodeconst.py:123-125 | jalr's funct3 agrees with the ISA listing |
| MachineCodeConst.Funct3LoadIsa | src/lib/machinecodeconst.py:127-133 | the load funct3 table agrees with the ISA listing |
| MachineCodeConst.Funct3StoreIsa | src/lib/machinecodeconst.py:161-165 | the store funct3 table agrees with the ISA listing |
| MachineCodeConst.Funct3BranchIsa | src/lib/machinecodeconst.py:167-174 | the branch funct3 table agrees with the ISA listing |
| MachineCodeConst.FunctArithIsa | src/lib/machinecodeconst.py:135-159 | the register-arithmetic funct3 and funct7 tables agree with the ISA listing |
| MachineCodeConst.FieldWidths | src/lib/machinecodeconst.py:78-174 | every binary opcode is 7 bits, every funct3 3 bits and every funct7 7 bits |
| Decoder.FieldsDistinct | src/lib/machinecodeconst.py:111-174 | opcode, funct3 and funct7 (imm[11:5] for the shifts) together tell every two mnemonics apart |
| Tokenizer.Span | src/lib/tokenizer.py:43-67 | a character-class run stops at the first character outside the class |
| Tokenizer.Next | src/lib/tokenizer.py:30-86 | each lexing step consumes a non-empty prefix that one rule matches, and it is the longest match of the rule tried first |
| Tokenizer.Lex | src/lib/tokenizer.py:30-86 | the lexemes of a text spell the text back exactly, and each is a match of its rule |
| Tokenizer.LexMaximal | src/lib/tokenizer.py:30-86 | every lexeme is the longest match of its rule at its position |
| Tokenizer.IdentifierKind | src/lib/tokenizer.py:43-56 | an identifier is an opcode exactly when some mnemonic is spelled so, and a label otherwise |
| Tokenizer.NumberTokensValid | src/lib/tokenizer.py:30-86 | every token handed to the grammar carries text its kind's pattern matches |
| Tokenizer.ScanTokensValid | src/lib/tokenizer.py:30-86 | the tokens of any text carry text their kind's pattern matches |
| Tokenizer.LexemeNewlines | src/lib/tokenizer.py:66-69 | only a newline token contains newlines, and its length is the number it contains |
| Tokenizer.NumberLineno | src/lib/tokenizer.py:66-69 | the line counter advances by the number of newlines consumed |
| Tokenizer.ScanLineno | src/lib/tokenizer.py:66-69 | after lexing a text the line counter has grown by the number of newlines in it, whatever else the text holds |
| Tokenizer.NextBeforeNewline | src/lib/tokenizer.py:30-86 | a trailing newline does not change the first lexeme of a line that has one before it |
| Tokenizer.LexLine | src/lib/tokenizer.py:30-86 | a line's lexemes are those of its body followed by one newline lexeme |
| Tokenizer.ScanBody | src/lib/tokenizer.py:30-86 | every token of a line body carries the line's number and none is a newline |
| Tokenizer.ScanTerminatedLine | src/lib/tokenizer.py:66-69 | a terminated line gives its body's tokens then one newline token, and the counter advances by one |
| Tokenizer.ScanLine | src/lib/tokenizer.py:66-69 | each line of a file is tokenized on its own number, ends in a newline token exactly when it ends in a newline, and moves the counter by that much |
| PyInt.ImmediateReads | src/lib/parser.py:157-199 | `int()` reads every immediate lexeme, so the conversion-failure branches of the encoders are unreachable |
| PyInt.DecimalTextRoundTrip | src/lib/tokenizer.py:34 | every integer has an immediate lexeme that reads back as it |
| PyInt.DecimalDigits | src/lib/tokenizer.py:34 | a digit string reads back as the number it renders |
| PyInt.RegisterIndexRange | src/lib/parser.py:140-149 | every register lexeme reads as a number from 0 to 99 |
| Parser.ParseOnlyShapes | src/lib/parser.py:32-154 | only the five productions are accepted; every other token sequence is a syntax error |
| Parser.TokenErrorRegisters | src/lib/parser.py:140-149 | on a line of a known shape the only token errors are registers outside $0..$31 |
| Parser.ParseR | src/lib/parser.py:49-61 | three registers are accepted exactly for an R-format opcode with every register in range, giving rd, rs1 and rs2 in the order written |
| Parser.ParseRRI | src/lib/parser.py:64-106 | two registers and an immediate are accepted exactly for I, S and SB opcodes with both registers in range; I takes (rd, rs1) and the 12-bit field, S and SB take (rs1, rs2) and the halves of their encoders |
| Parser.ParseRI | src/lib/parser.py:109-137 | one register and an immediate are accepted exactly for U opcodes, and for jal when the jump encoder's assertion holds, with the register in range; the record holds rd and the 20-bit field |
| Parser.ParseLabel | src/lib/parser.py:40-46 | a label declaration is accepted as written, with its line number |
| Parser.ParsedWellFormed | src/lib/parser.py:49-137 | every instruction record has exactly the keys of its opcode's format, registers in range and immediates of the field's width |
| Parser.WellFormedR | src/lib/parser.py:49-61 | an accepted three-register line yields an R-format record with the keys and widths the generator expects |
| Parser.WellFormedRRI | src/lib/parser.py:64-106 | an accepted two-register line yields an I, S or SB record with the keys and widths the generator expects |
| Parser.WellFormedRI | src/lib/parser.py:109-137 | an accepted one-register line yields a U or UJ record with the keys and widths the generator expects |
| Parser.ParsedSigned | src/lib/parser.py:49-137 | every immediate an accepted line stores is bits with at most a '-' in front of the field or of its first half |
| Immediates.Field | src/lib/parser.py:194-195 | the I and U fields always have exactly the width of the field |
| Immediates.FieldCases | src/lib/parser.py:157-227 | the field is the two's complement from -2^w up; just below that it is '-' and a magnitude; further down it is the low bits of the magnitude |
| Immediates.FieldNegative | src/lib/parser.py:157-227 | the I or U field opens with a '-' exactly for the values just below -2^w |
| Immediates.FieldNegativeI | src/lib/parser.py:194-195 | the 12-bit I field opens with a '-' exactly for -6143..-4097 |
| Immediates.FieldRoundTrip | src/lib/parser.py:157-227 | in the signed range of the width the field reads back as the value |
| Immediates.OverflowWarnings | src/lib/parser.py:157-348 | each encoder warns about overflow exactly outside its field's range, and still produces a field of the full width |
| Immediates.EncodeIRoundTrip | src/lib/parser.py:157-199 | from -2048 to 2047 there is no warning and the 12 bits read back as the value |
| Immediates.EncodeURoundTrip | src/lib/parser.py:202-227 | from -524288 to 524287 there is no warning and the 20 bits read back as the value |
| Immediates.JumpOrderInverse | src/lib/parser.py:270 | putting the stored jump bits back in imm[20:1] order undoes the permutation |
| Immediates.JumpUnorderInverse | src/lib/parser.py:270 | the permutation undoes putting the bits back, so the two are inverse bijections |
| Immediates.EncodeUJDefined | src/lib/parser.py:259-265 | the jump encoder's length assertion holds exactly for -3·2^20 < v < 2^21 |
| Immediates.FormatBinLast | src/lib/parser.py:259-264 | the last character of a binary rendering is the low bit of the number, for either sign |
| Immediates.EncodeUJMisaligned | src/lib/parser.py:260-263 | the jump encoder warns about alignment exactly for odd values |
| Immediates.EncodeUJTruncates | src/lib/parser.py:230-272 | from -2^21 up to 2^21 the stored jump bits are the value halved, in 20 bits |
| Immediates.EncodeUJRoundTrip | src/lib/parser.py:230-272 | from -1048576 to 1048574 the jump goes to the value rounded down to even, with no overflow warning, and warns about alignment exactly when bit 0 is lost |
| Immediates.EncodeS | src/lib/parser.py:275-316 | a store immediate is split into a 7-bit and a 5-bit half, and the alignment warning is raised for every value |
| Immediates.EncodeSFits | src/lib/parser.py:275-316 | from -4096 up to 4096 the halves joined are the 12-bit two's complement of the value |
| Immediates.EncodeSLeading | src/lib/parser.py:309 | from 4096 up the halves are the leading twelve bits of the value, not its low bits |
| Immediates.EncodeSRoundTrip | src/lib/parser.py:275-316 | from -2048 to 2047 there is no overflow warning and the joined halves read back as the value |
| Immediates.EncodeSB | src/lib/parser.py:340-348 | a branch immediate is split into a 7-bit and a 5-bit half |
| Immediates.BranchSplitJoin | src/lib/parser.py:340-348 | splitting imm[12:1] into the branch halves and joining them again loses nothing |
| Immediates.BranchJoinSplit | src/lib/parser.py:340-348 | joining the halves and splitting again gives the halves back |
| Immediates.EncodeSBTruncates | src/lib/parser.py:319-348 | from -4096 up to 4096 the branch halves hold the value halved, in 12 bits, in the order imm[12\|10:5] and imm[4:1\|11] |
| Immediates.EncodeSBRoundTrip | src/lib/parser.py:319-348 | from -4096 to 4094 the branch goes to the value rounded down to even, with no overflow warning |
| Immediates.EncodersSigned | src/lib/parser.py:157-348 | every field the five encoders return is bits with at most a leading '-', and the second half of a split immediate is bits only |
| MachineCodeGen.GetBinRegisterFixed | src/lib/machinecodegen.py:22-37 | a register converts exactly when it is $0..$31, and then to its number in five bits, which reads back as the number |
| MachineCodeGen.FiveBits | src/lib/machinecodegen.py:22-37 | the five-bit rendering of a register number is its fixed-width binary, which reads back as it |
| MachineCodeGen.BinFieldFixed | src/lib/machinecodegen.py:22-37 | every register the grammar accepts converts to its number in five bits |
| MachineCodeGen.GroupInMembers | src/lib/machinecodegen.py:401-438 | a mnemonic is dispatched to the group that holds it |
| MachineCodeGen.GroupInTotal | src/lib/machinecodegen.py:401-438 | every mnemonic is dispatched to some group |
| MachineCodeGen.Prepend | src/lib/machinecodegen.py:259-302 | concatenating an immediate fails only with a type error on the record's line |
| MachineCodeGen.Checked | src/lib/machinecodegen.py:39-399 | the 32-character assertion fails only as an error on the record's line, never as a None return |
| MachineCodeGen.OpUpper | src/lib/machinecodegen.py:39-125 | lui, auipc and jal fail only by exiting or raising on the record's line |
| MachineCodeGen.UpperInstr | src/lib/machinecodegen.py:39-125 | the upper-immediate and jump words fail only by raising on the record's line |
| MachineCodeGen.OpImmediate | src/lib/machinecodegen.py:127-356 | jalr, loads and register-immediate arithmetic fail only by exiting or raising on the record's line |
| MachineCodeGen.ImmediateInstr | src/lib/machinecodegen.py:127-356 | the I-format words fail only by raising on the record's line |
| MachineCodeGen.OpSplit | src/lib/machinecodegen.py:171-302 | stores and branches fail only by exiting or raising on the record's line |
| MachineCodeGen.SplitInstr | src/lib/machinecodegen.py:171-302 | the split-immediate words fail only by raising on the record's line |
| MachineCodeGen.OpArith | src/lib/machinecodegen.py:358-399 | register arithmetic fails only by exiting or raising on the record's line |
| MachineCodeGen.Generate | src/lib/machinecodegen.py:401-438 | every group's conversion fails only by exiting or raising on the record's line, never by returning None |
| MachineCodeGen.ContainsLonger | src/lib/machinecodegen.py:337-347 | a text never contains a longer one |
| MachineCodeGen.ContainsSame | src/lib/machinecodegen.py:337-347 | a text contains one of equal length exactly when they are equal |
| MachineCodeGen.ShiftNames | src/lib/machinecodegen.py:337-347 | within the immediate-arithmetic group the tests single out slli, srli and srai, even though the srai test is a substring test |
| MachineCodeGen.ShiftWarningsCheck | src/lib/machinecodegen.py:337-347 | the shift checks warn exactly when imm[11:5] of a shift is not that shift's selector, and then only once |
| MachineCodeGen.ShiftTests | src/lib/machinecodegen.py:337-347 | the shift warnings depend only on which shift the opcode text is taken for |
| MachineCodeGen.Dispatched | src/lib/machinecodegen.py:401-438 | a record is converted by the group of its opcode |
| MachineCodeGen.TableLookup | src/lib/machinecodegen.py:127-399 | looking a spelling up in a funct table finds the mnemonic's entry |
| MachineCodeGen.Funct3Of | src/lib/machinecodegen.py:127-399 | every group's funct3 lookup of a member gives its ISA funct3 |
| MachineCodeGen.BopOf | src/lib/machinecodegen.py:39-399 | every group's binary opcode is the ISA opcode of its members |
| MachineCodeGen.ArithWord | src/lib/machinecodegen.py:358-399 | register arithmetic produces the R-format word of the ISA manual |
| MachineCodeGen.ImmediateWord | src/lib/machinecodegen.py:127-356 | those fields form the I-format word of the ISA manual |
| MachineCodeGen.ImmediateLayout | src/lib/machinecodegen.py:127-356 | the I-format word is 32 characters with the fields at the manual's bit positions |
| MachineCodeGen.SplitWord | src/lib/machinecodegen.py:171-302 | those fields form a 32-character S or B word |
| MachineCodeGen.UpperWord | src/lib/machinecodegen.py:39-125 | lui, auipc and jal produce the 20-bit field, rd and opcode, without warnings |
| MachineCodeGen.RegisterConverts | src/lib/machinecodegen.py:358-399 | an R-format record converts to the manual's R word, without warnings |
| MachineCodeGen.ImmediateConverts | src/lib/machinecodegen.py:127-356 | an I-format record converts to the manual's I word, with the shift or alignment warning the reference predicts |
| MachineCodeGen.ImmediateGroup | src/lib/machinecodegen.py:401-438 | every I-format mnemonic is in the jalr, load or immediate-arithmetic group, and the latter exactly for the arithmetic ones |
| MachineCodeGen.ImmediateGroupConverts | src/lib/machinecodegen.py:127-356 | within each of those groups an I-format record converts to the manual's I word with the predicted warnings |
| MachineCodeGen.StoreConverts | src/lib/machinecodegen.py:259-302 | a store record converts to the manual's S word, warned about when the low two offset bits are not zero |
| MachineCodeGen.BranchConverts | src/lib/machinecodegen.py:171-213 | a branch record converts to the manual's B word, warned about when bit 1 of the offset is set |
| MachineCodeGen.UpperConverts | src/lib/machinecodegen.py:39-96 | a U-format record converts to the manual's U word |
| MachineCodeGen.JumpConverts | src/lib/machinecodegen.py:97-125 | a jal record converts to the manual's J word of the offset put back in order |
| MachineCodeGen.ExpectedWordSigned | src/lib/machinecodegen.py:39-399 | every word built around such an immediate is 32 characters of bits with at most a leading '-', because the immediate opens every format |
| MachineCodeGen.ConvertWellFormed | src/lib/machinecodegen.py:401-438 | every record the grammar can produce converts to the reference word of its format, with exactly the reference warnings |
| MachineCodeGen.ConvertNone | src/lib/machinecodegen.py:401-438 | the generator returns None exactly for a record without an opcode or with an opcode in no group |
| Decoder.DecodeListing | src/lib/machinecodeconst.py:78-174 | the reference decoder reads every mnemonic's listed fields back as that mnemonic |
| Decoder.ShiftSelector | src/lib/machinecodeconst.py:111-121 | a shift decodes as itself exactly when imm[11:5] is its selector |
| Decoder.DecodeEncodeR | src/lib/machinecodegen.py:358-399 | an R word decodes to its mnemonic and registers |
| Decoder.DecodeEncodeI | src/lib/machinecodegen.py:127-356 | an I word decodes to its mnemonic, registers and signed immediate |
| Decoder.DecodeShift | src/lib/machinecodegen.py:304-356 | a shift word decodes as the shift exactly when its upper seven bits are the selector |
| Decoder.DecodeEncodeS | src/lib/machinecodegen.py:259-302 | an S word decodes to its mnemonic, registers and signed offset |
| Decoder.DecodeEncodeB | src/lib/machinecodegen.py:171-213 | a B word decodes to its mnemonic, registers and twice the signed stored offset |
| Decoder.DecodeEncodeU | src/lib/machinecodegen.py:39-96 | a U word decodes to its mnemonic, rd and signed upper immediate |
| Decoder.DecodeEncodeJ | src/lib/machinecodegen.py:97-125 | a J word decodes to its mnemonic, rd and twice the signed stored offset |
| Hex.HexWordNibbles | src/lib/parser.py:439-440 | the hexadecimal output of a 32-bit word is eight hex digits, one per four bits, most significant first |
| Hex.HexWordNegative | src/lib/parser.py:439-440 | a word of '-' and 31 bits is written as eight zeros for a zero magnitude. Otherwise it is '-' and seven digits below 16^7. Above that it is '-' and the eight nibble digits of the magnitude, a nine-character line |
| Hex.FixedHexNibbles | src/lib/parser.py:439-440 | the fixed-width hex rendering of a bit string's value is its digit-by-nibble reading |
| Hex.PadHexNumeral | src/lib/parser.py:439-440 | zero-padding the hex numeral of a number below 16^k to k digits is its fixed-width hex rendering |
| Hex.HexWordDefined | src/lib/parser.py:439-440 | on the strings the generator can build, `int(instr, 2)` reads a word exactly when it is bits with at most a leading '-' |
| Assembler.UniversalNewlines | src/lib/parser.py:378 | the file is read in universal-newline mode: no carriage return reaches the lexer, and the result is never longer than the file |
| Assembler.UniversalNewlinesPlain | src/lib/parser.py:378 | a file without carriage returns is read unchanged |
| Assembler.UniversalNewlinesIdempotent | src/lib/parser.py:378 | reading an already-read text changes nothing |
| Assembler.UniversalNewlinesEnds | src/lib/parser.py:378 | a "\r\n" pair and a lone "\r" each become one newline, leaving the text before them untouched |
| Assembler.LineLength | src/lib/parser.py:400 | a line of the (newline-translated) file runs to its first newline, or to the end of the file |
| Assembler.LinesConcat | src/lib/parser.py:400 | the lines of a file, joined, are the file |
| Assembler.LinesShape | src/lib/parser.py:400 | every line is non-empty, holds a newline only at its end, and every line but the last ends with one |
| Assembler.LinesNumbered | src/lib/parser.py:419-423 | line k of a file is lexed with line number k + 1 in both passes |
| Assembler.ParseAll | src/lib/parser.py:400-401 | a file that parses has one parse result per line |
| Assembler.Pass1Symbols | src/lib/parser.py:392-418 | pass 1 gets through exactly when every line parses and no label is declared twice; its table is then the reference table and its address four times the number of instructions |
| Assembler.DistinctLabelsPairs | src/lib/parser.py:409-415 | no label declared twice means no two lines declare the same name |
| Assembler.LabelNamesAt | src/lib/parser.py:409-410 | a name is a label of the file exactly when some line declares it |
| Assembler.SymbolTableAddresses | src/lib/parser.py:392-418 | each label maps to the address of the next instruction: four times the number of instructions before its declaration |
| Assembler.ParseAllWellFormed | src/lib/parser.py:423-434 | every instruction record of a parsed file has the shape the generator expects |
| Assembler.ParseAllSigned | src/lib/parser.py:423-434 | every immediate of a parsed file is bits with at most a leading '-' |
| Assembler.Pass2Words | src/lib/parser.py:423-447 | pass 2 gets through exactly when every line parses and every word can be written, and writes the reference word of each instruction, in order |
| Assembler.BinaryAssemblable | src/lib/parser.py:423-447 | in binary output a file can be written exactly when every instruction record has the shape of its format |
| Assembler.HexAssemblable | src/lib/parser.py:423-447 | with -x, a file whose immediates are such bits can be written exactly when every instruction record has the shape of its format |
| Assembler.AssemblableAt | src/lib/parser.py:423-447 | a writable file has every line writable |
| Assembler.WordsCount | src/lib/parser.py:423-447 | the output has one word per instruction statement |
| Assembler.WordsAt | src/lib/parser.py:392-447 | the word of each instruction is at the index its pass-1 address gives, that address divided by four |
| Assembler.GenNotesShown | src/lib/parser.py:374-375 | the generator warnings shown are exactly those the options let through; without -n32 that is every warning, in the generator's order |
| Assembler.AssembleWords | src/lib/parser.py:371-451 | a run over the newline-translated file gets through exactly when every line parses, no label repeats and every word can be written, and then writes every instruction's reference word in order |
| Assembler.AssembleBinary | src/lib/parser.py:371-451 | in binary output only pass 1 can stop a run |
| Assembler.AssembleHex | src/lib/parser.py:371-451 | with -x as well only pass 1 can stop a run: `int(instr, 2)` never raises on a word pass 2 builds |
| Assembler.ParseLineLineno | src/lib/parser.py:32-137 | a record carries the line number of its first token |
| Assembler.LineNumbers | src/lib/parser.py:419-447 | the record of line k of a file carries line number k + 1 |
| RoundTrip.LowTwoBits | src/lib/machinecodegen.py:127-257 | the two low bits of a twelve-bit rendering are zero exactly for a multiple of four |
| RoundTrip.UpperSevenBits | src/lib/machinecodegen.py:337-347 | imm[11:5] of a 12-bit value is a shift's selector exactly for amounts 0..31, or 1024..1055 for srai |
| RoundTrip.RecordI | src/lib/machinecodegen.py:127-356 | an I record with an in-range immediate reads back with that immediate; a shift reads back as itself exactly when its amount is accepted |
| RoundTrip.RecordIWarnings | src/lib/machinecodegen.py:127-356 | for an immediate within -2048..2047, an I record warns for a shift with a rejected amount, and for a load or jalr offset that is not a multiple of four, and for nothing else |
| RoundTrip.RecordS | src/lib/machinecodegen.py:259-302 | a store record with an in-range offset reads back with it, warned about when the offset is not a multiple of four |
| RoundTrip.RecordSB | src/lib/machinecodegen.py:171-213 | a branch record reads back with the offset its halves stand for |
| RoundTrip.RecordSBWarnings | src/lib/machinecodegen.py:171-213 | a branch record warns exactly when bit 1 of its offset is set |
| RoundTrip.RecordU | src/lib/machinecodegen.py:39-96 | a U record with an in-range immediate reads back with it, without warnings |
| RoundTrip.RecordUJ | src/lib/machinecodegen.py:97-125 | a jal record reads back with the offset its bits stand for, without warnings |
| RoundTrip.LineRecord | src/lib/machinecodegen.py:401-438 | every instruction line the grammar accepts is generated as the reference word of its record, with the reference warnings |
| RoundTrip.LineR | src/lib/parser.py:49-61 | an accepted three-register line is generated without warnings and reads back as its instruction on its registers |
| RoundTrip.LineI | src/lib/parser.py:64-106 | an accepted I line with an in-range immediate reads back with it; a shift exactly when its amount is accepted |
| RoundTrip.LineIWarnings | src/lib/parser.py:64-106 | for an immediate within -2048..2047, an accepted I line warns about a rejected shift amount, or about a load or jalr offset not a multiple of four, and about nothing else |
| RoundTrip.LineS | src/lib/parser.py:64-106 | an accepted store line with an in-range offset reads back with it, warned about when it is not a multiple of four |
| RoundTrip.LineSB | src/lib/parser.py:64-106 | an accepted branch line with an in-range offset reads back with it rounded down to even, warned about when bit 1 is set |
| RoundTrip.LineU | src/lib/parser.py:109-137 | an accepted U line with an in-range immediate reads back with it, without warnings |
| RoundTrip.LineUJ | src/lib/parser.py:109-137 | an accepted jal line with an in-range offset reads back with it rounded down to even, without generator warnings |

## Left out

- File I/O: opening the input and output files and their error messages are not modelled. A run takes the file's text and returns the lines it would write. The output file gets a `'\n'` after each word.
- The command line (`rvi.py`, argument parsing), `-e` echo, `-t` dictionary printing and colour output are left out. They change what is printed, not what is assembled. `-x` and `-n32` are `Assembler.Options`.
- `src/lib/cprint.py` and `src/lib/exceptions.py` are not part of this model. Messages are values (`Assembler.Message`) and not printed text.
- Pass 1's own printing: its warnings are suppressed, as in the source, and its "Illegal character" messages are not collected. Pass 2 collects both.
- PLY's table construction and its error recovery. Both are inside the library and are not part of this model. The model stops the run with `ParseFailed` on every line the grammar rejects.
- Assembler.AssembleWords: on a file with a rejected line, its if-and-only-if describes the model, not the program. The program does one of two things, depending on where the error is.
  - It skips the line and carries on, in both passes, when the error is at a token before the line's newline. That covers a register outside `$0`..`$31` (src/lib/parser.py:145-148) and an unexpected token such as a missing comma, which `p_error` only reports (src/lib/parser.py:357-365). The parser drops the tokens up to the newline and reads the line as an empty statement. When an opcode or label follows the offending token, parsing restarts there instead.
  - It stops with a `TypeError` at `result["TOKENS"]` (src/lib/parser.py:402), because `parser.parse` returns None. That happens when an opcode does not belong to the format its operands take (src/lib/parser.py:51-54, 67-69, 111-113), when the error is at the newline itself (a missing operand), or when a rejected last line has no newline.
- Assembler.AssembleWords: the output file is left out. The program creates it with `open(outfile, 'w')` (src/lib/parser.py:387) before pass 1. Every stop the model makes is a stop in pass 1: a redeclared label (`exit(1)`, src/lib/parser.py:415), a rejected line, or the jump encoder's assertion. `AssembleBinary` and `AssembleHex` show that pass 2 gets through every file pass 1 accepts. A stopped run therefore leaves the file empty, which matches the model's `Err` with no words. When the program skips a rejected line instead, the file holds the words of the other lines, which the model does not produce.
- The order of messages within one rejected line is simplified to the first error of that line. A rejected line ends the run in every case.
- `print_fail` after a failed `int()` of an immediate (`src/lib/parser.py:73`, 86, 98, 119, 130). It is dead code: `PyInt.ImmediateReads` proves `int()` reads every immediate the lexer produces.
- The debug `main` of the parser and `lex.runmain` of the lexer are left out.
- Label operands and PC-relative resolution are left out because the code has none. No production takes a label operand and pass 2 never reads the table.
- Parser.ParseRRI: assumes `int()` reads the immediate lexeme. `PyInt.ImmediateReads` proves that for every lexeme the lexer produces.
- Parser.ParseRI: assumes `int()` reads the immediate lexeme. `PyInt.ImmediateReads` proves that for every lexeme the lexer produces.
- RoundTrip.LineI: states the decoded immediate only within -2048..2047. Outside that range the 12 bits are the truncated or sign-mangled rendering `Immediates.FieldCases` describes.
- RoundTrip.LineU: states the decoded immediate only within -524288..524287, for the same reason.
- RoundTrip.LineS: states the decoded immediate only within -2048..2047. From 4096 up the stored bits are the leading ones (`Immediates.EncodeSLeading`).
- RoundTrip.LineSB: states the decoded offset only within -4096..4094.
- RoundTrip.LineUJ: states the decoded offset only within -1048576..1048574. Outside -3·2^20 < v < 2^21 the line is rejected (`Immediates.EncodeUJDefined`).
