/** The two passes over a source file. The file is read line by line; each
    line is lexed with the line counter the lexer carries over from the
    previous line and parsed on its own. Pass 1 gives every label the address
    of the next instruction (four bytes per instruction statement) and stops
    at a label declared twice; its warnings are suppressed. Pass 2 resets the
    line counter, reads the file again and writes one word per instruction
    statement, in binary or in hexadecimal, showing the warnings of the parser
    and of the generator (the 32-bit-core alignment warnings only without
    -n32). */
module Assembler {
  import opened Results
  import opened BitString
  import opened Tokenizer
  import opened Parser
  import opened MachineCodeGen
  import Hex

  /** The command-line switches the passes read: -x (hexadecimal output) and
      -n32 (no 32-bit-core warnings). */
  datatype Options = Options(hex: bool, no32: bool)

  /** What pass 2 prints besides the output file. */
  datatype Message =
    | IllegalChar(c: char)      // the lexer's "Illegal character"
    | ParseNote(pw: ParseWarning)
    | GenNote(gw: GenWarning)

  /** The ways a run ends early. */
  datatype AsmError =
    | ParseFailed(pe: ParseError)              // a line the parser rejects
    | Redeclaration(name: string, lineno: int)  // "Redeclaration of label", exit(1)
    | GenFailed(ge: GenError)                  // the generator exits or raises
    | NotBinary(word: string)                   // int(instr, 2) raises ValueError

  /** The lines of the output file and the messages shown. */
  datatype Assembled = Assembled(words: seq<string>, messages: seq<Message>)

  // ---------------------------------------------------------------------
  // Reading the file

  /** The text as `open(infile, 'r')` hands it over in Python's universal-newline
      mode: a "\r\n" pair and a lone "\r" each arrive as one "\n". */
  function UniversalNewlines(text: string): (r: string)
    ensures forall i :: 0 <= i < |r| ==> r[i] != '\r'
    ensures |r| <= |text|
    decreases |text|
  {
    if |text| == 0 then ""
    else if text[0] == '\r' then
      "\n" + UniversalNewlines(if |text| > 1 && text[1] == '\n' then text[2..] else text[1..])
    else [text[0]] + UniversalNewlines(text[1..])
  }

  /** The length of the first line of a text: up to and including its first
      newline, or all of it. */
  function LineLength(text: string): (n: nat)
    requires |text| > 0
    ensures 1 <= n <= |text|
    ensures forall k :: 0 <= k < n - 1 ==> text[k] != '\n'
    ensures n < |text| ==> text[n - 1] == '\n'
  {
    if text[0] == '\n' || |text| == 1 then 1 else 1 + LineLength(text[1..])
  }

  /** `for line in fin`: the text cut after every newline. */
  function Lines(text: string): seq<string>
    decreases |text|
  {
    if |text| == 0 then []
    else
      var n := LineLength(text);
      [text[..n]] + Lines(text[n..])
  }

  function Concat(ls: seq<string>): string {
    if |ls| == 0 then "" else Concat(ls[..|ls| - 1]) + ls[|ls| - 1]
  }

  /** The value of the lexer's counter when line k is read: one more than the
      number of newlines before that line. */
  function LinenoAt(lines: seq<string>, k: nat): int
    requires k <= |lines|
  {
    FirstLine + NewlineCount(Concat(lines[..k]))
  }

  // ---------------------------------------------------------------------
  // The lines as the parser reads them

  predicate IsInstr(p: Parsed) {
    p.program.Statement? && p.program.fields.Some?
  }

  predicate IsLabel(p: Parsed, name: string) {
    p.program.LabelDecl? && p.program.name == name
  }

  /** The parse of every line, or the first line's error; line k is read with
      the counter at LinenoAt(lines, k). */
  function ParseAll(lines: seq<string>): (r: Result<seq<Parsed>, ParseError>)
    ensures r.Ok? ==> |r.value| == |lines|
  {
    if |lines| == 0 then Ok([])
    else
      var k := |lines| - 1;
      match ParseAll(lines[..k])
      case Err(e) => Err(e)
      case Ok(ps) =>
        match ParseLine(Scan(lines[k], LinenoAt(lines, k)).tokens)
        case Err(e) => Err(e)
        case Ok(p) => Ok(ps + [p])
  }

  /** The number of instruction statements. */
  function InstrCount(ps: seq<Parsed>): nat {
    if |ps| == 0 then 0
    else InstrCount(ps[..|ps| - 1]) + (if IsInstr(ps[|ps| - 1]) then 1 else 0)
  }

  /** The names of the labels declared. */
  function LabelNames(ps: seq<Parsed>): set<string> {
    if |ps| == 0 then {}
    else
      var p := ps[|ps| - 1];
      LabelNames(ps[..|ps| - 1]) + if p.program.LabelDecl? then {p.program.name} else {}
  }

  /** No label is declared twice. */
  predicate DistinctLabels(ps: seq<Parsed>) {
    if |ps| == 0 then true
    else
      var p := ps[|ps| - 1];
      DistinctLabels(ps[..|ps| - 1]) && (p.program.LabelDecl? ==> p.program.name !in LabelNames(ps[..|ps| - 1]))
  }

  /** The table of a file whose labels are distinct: every label at four times
      the number of instruction statements before it. */
  function SymbolTable(ps: seq<Parsed>): map<string, int> {
    if |ps| == 0 then map[]
    else
      var p, pre := ps[|ps| - 1], ps[..|ps| - 1];
      if p.program.LabelDecl? then SymbolTable(pre)[p.program.name := 4 * InstrCount(pre)] else SymbolTable(pre)
  }

  /** A line that is no instruction, or a well-formed one whose reference word
      can be written in the chosen form. */
  predicate Writable(p: Parsed, opts: Options) {
    IsInstr(p) ==> WellFormed(p.program.fields.value) && Render(ExpectedWord(p.program.fields.value), opts).Some?
  }

  /** Every line is writable. */
  predicate Assemblable(ps: seq<Parsed>, opts: Options) {
    |ps| == 0 || (Assemblable(ps[..|ps| - 1], opts) && Writable(ps[|ps| - 1], opts))
  }

  /** The reference output: the reference word of every instruction record, in
      the order of the lines. */
  function Words(ps: seq<Parsed>, opts: Options): seq<string>
    requires Assemblable(ps, opts)
  {
    if |ps| == 0 then []
    else
      var p, pre := ps[|ps| - 1], ps[..|ps| - 1];
      Words(pre, opts) + if IsInstr(p) then [WordOf(p, opts)] else []
  }

  /** The reference word of an instruction record, as written. */
  function WordOf(p: Parsed, opts: Options): string
    requires IsInstr(p) && Writable(p, opts)
  {
    Render(ExpectedWord(p.program.fields.value), opts).value
  }

  // ---------------------------------------------------------------------
  // Pass 1

  /** The address of the next instruction, the symbol table and the line counter. */
  datatype Symbols = Symbols(address: int, table: map<string, int>, lineno: int)

  function Pass1(lines: seq<string>): Result<Symbols, AsmError> {
    if |lines| == 0 then Ok(Symbols(0, map[], FirstLine))
    else
      match Pass1(lines[..|lines| - 1])
      case Err(e) => Err(e)
      case Ok(s) => Pass1Line(s, lines[|lines| - 1])
  }

  /** One line of pass 1. */
  function Pass1Line(s: Symbols, line: string): Result<Symbols, AsmError> {
    var sc := Scan(line, s.lineno);
    match ParseLine(sc.tokens)
    case Err(e) => Err(ParseFailed(e))
    case Ok(p) => Pass1Apply(s, p.program, sc.lineno)
  }

  /** An instruction statement advances the address by four, a new label is
      entered at the current address, a known one is fatal. */
  function Pass1Apply(s: Symbols, prog: Program, next: int): Result<Symbols, AsmError> {
    match prog
    case Statement(None) => Ok(s.(lineno := next))
    case Statement(Some(_)) => Ok(s.(address := s.address + 4, lineno := next))
    case LabelDecl(name, ln) =>
      if name in s.table then Err(Redeclaration(name, ln))
      else Ok(Symbols(s.address, s.table[name := s.address], next))
  }

  // ---------------------------------------------------------------------
  // Pass 2

  /** The words written so far, the messages shown and the line counter. */
  datatype Emitted = Emitted(words: seq<string>, messages: seq<Message>, lineno: int)

  /** The text written for a word: the word, or with -x `'%08X' % int(word, 2)`. */
  function Render(word: string, opts: Options): Option<string> {
    if opts.hex then Hex.HexWord(word) else Some(word)
  }

  /** A generator warning is shown unless it is a 32-bit-core warning and -n32
      is given. */
  predicate Shown(w: GenWarning, opts: Options) {
    w.ShiftBits? || !opts.no32
  }

  function GenNotes(ws: seq<GenWarning>, opts: Options): seq<Message> {
    if |ws| == 0 then []
    else GenNotes(ws[..|ws| - 1], opts) + (if Shown(ws[|ws| - 1], opts) then [GenNote(ws[|ws| - 1])] else [])
  }

  function Illegals(cs: seq<char>): seq<Message> {
    seq(|cs|, i requires 0 <= i < |cs| => IllegalChar(cs[i]))
  }

  function ParseNotes(ws: seq<ParseWarning>): seq<Message> {
    seq(|ws|, i requires 0 <= i < |ws| => ParseNote(ws[i]))
  }

  function Pass2(lines: seq<string>, opts: Options): Result<Emitted, AsmError> {
    if |lines| == 0 then Ok(Emitted([], [], FirstLine))
    else
      match Pass2(lines[..|lines| - 1], opts)
      case Err(e) => Err(e)
      case Ok(s) => Pass2Line(s, lines[|lines| - 1], opts)
  }

  /** One line of pass 2. */
  function Pass2Line(s: Emitted, line: string, opts: Options): Result<Emitted, AsmError> {
    var sc := Scan(line, s.lineno);
    match ParseLine(sc.tokens)
    case Err(e) => Err(ParseFailed(e))
    case Ok(p) => Pass2Apply(s, p, sc.illegal, sc.lineno, opts)
  }

  /** Labels and empty statements write nothing; an instruction is converted
      and its word written. */
  function Pass2Apply(s: Emitted, p: Parsed, illegal: seq<char>, next: int, opts: Options): Result<Emitted, AsmError> {
    var t := Emitted(s.words, s.messages + Illegals(illegal) + ParseNotes(p.warnings), next);
    if !IsInstr(p) then Ok(t)
    else
      match ConvertToBinary(p.program.fields.value)
      case Err(e) => Err(GenFailed(e))
      case Ok(g) =>
        match Render(g.word, opts)
        case None => Err(NotBinary(g.word))
        case Some(w) => Ok(Emitted(t.words + [w], t.messages + GenNotes(g.warnings, opts), next))
  }

  /** parse_input: pass 1, then, if it got through the file, pass 2 over the
      same lines. */
  function Assemble(text: string, opts: Options): Result<Assembled, AsmError> {
    var lines := Lines(UniversalNewlines(text));
    match Pass1(lines)
    case Err(e) => Err(e)
    case Ok(_) =>
      match Pass2(lines, opts)
      case Err(e) => Err(e)
      case Ok(s) => Ok(Assembled(s.words, s.messages))
  }

  // ---------------------------------------------------------------------
  // Properties: reading the file

  lemma {:induction false} ConcatCons(a: string, ls: seq<string>)
    ensures Concat([a] + ls) == a + Concat(ls)
  {
    if |ls| > 0 {
      var n := |ls|;
      assert ([a] + ls)[..n] == [a] + ls[..n - 1];
      ConcatCons(a, ls[..n - 1]);
    }
  }

  /** Cutting a text into lines loses nothing. */
  lemma {:induction false} LinesConcat(text: string)
    ensures Concat(Lines(text)) == text
    decreases |text|
  {
    if |text| > 0 {
      var n := LineLength(text);
      LinesConcat(text[n..]);
      ConcatCons(text[..n], Lines(text[n..]));
      assert text[..n] + text[n..] == text;
    }
  }

  predicate FileLines(ls: seq<string>) {
    forall k :: 0 <= k < |ls| ==> |ls[k]| > 0 && IsLine(ls[k]) && (k < |ls| - 1 ==> ls[k][|ls[k]| - 1] == '\n')
  }

  /** Every line is non-empty, holds a newline only at its end, and every line
      but the last ends with one. */
  lemma {:induction false} LinesShape(text: string)
    ensures FileLines(Lines(text))
    decreases |text|
  {
    if |text| > 0 {
      var n := LineLength(text);
      LinesShape(text[n..]);
      var ls := Lines(text);
      assert ls[0] == text[..n];
      assert forall k :: 1 <= k < |ls| ==> ls[k] == Lines(text[n..])[k - 1];
      if |ls| > 1 {
        assert n < |text|;
      }
    }
  }

  /** A text that holds no carriage return is read as it is. */
  lemma {:induction false} UniversalNewlinesPlain(text: string)
    requires forall i :: 0 <= i < |text| ==> text[i] != '\r'
    ensures UniversalNewlines(text) == text
    decreases |text|
  {
    if |text| > 0 {
      UniversalNewlinesPlain(text[1..]);
      assert [text[0]] + text[1..] == text;
    }
  }

  /** Reading a text twice reads it as once. */
  lemma UniversalNewlinesIdempotent(text: string)
    ensures UniversalNewlines(UniversalNewlines(text)) == UniversalNewlines(text)
  {
    UniversalNewlinesPlain(UniversalNewlines(text));
  }

  /** A "\r\n" pair and a lone "\r" each become one newline, and the text
      before them is untouched. */
  lemma {:induction false} UniversalNewlinesEnds(a: string, b: string)
    requires forall i :: 0 <= i < |a| ==> a[i] != '\r'
    ensures UniversalNewlines(a + "\r\n" + b) == a + "\n" + UniversalNewlines(b)
    ensures |b| == 0 || b[0] != '\n' ==> UniversalNewlines(a + "\r" + b) == a + "\n" + UniversalNewlines(b)
    decreases |a|
  {
    if |a| > 0 {
      UniversalNewlinesEnds(a[1..], b);
      assert (a + "\r\n" + b)[1..] == a[1..] + "\r\n" + b;
      assert (a + "\r" + b)[1..] == a[1..] + "\r" + b;
      assert [a[0]] + (a[1..] + "\n" + UniversalNewlines(b)) == a + "\n" + UniversalNewlines(b);
    } else {
      assert (a + "\r\n" + b)[2..] == b;
      assert (a + "\r" + b)[1..] == b;
    }
  }

  lemma NewlineCountConcat(a: string, b: string)
    ensures NewlineCount(a + b) == NewlineCount(a) + NewlineCount(b)
  {
    assert multiset(a + b) == multiset(a) + multiset(b);
  }

  lemma NewlineCountLine(line: string)
    requires |line| > 0 && IsLine(line)
    ensures NewlineCount(line) == if line[|line| - 1] == '\n' then 1 else 0
  {
    var body := line[..|line| - 1];
    assert line == body + [line[|line| - 1]];
    assert NoNewline(body);
    NewlineCountNoNewline(body);
  }

  /** Line k of a file is read with the counter at k + 1: the number every
      message about that line reports. */
  lemma {:induction false} LinesNumbered(text: string)
    ensures forall k :: 0 <= k < |Lines(text)| ==> LinenoAt(Lines(text), k) == FirstLine + k
  {
    var ls := Lines(text);
    LinesShape(text);
    forall k | 0 <= k < |ls|
      ensures LinenoAt(ls, k) == FirstLine + k
    {
      PrefixNumbered(ls, k);
    }
  }

  lemma {:induction false} PrefixNumbered(ls: seq<string>, k: nat)
    requires k < |ls| && FileLines(ls)
    ensures NewlineCount(Concat(ls[..k])) == k
  {
    if k > 0 {
      PrefixNumbered(ls, k - 1);
      assert ls[..k][..k - 1] == ls[..k - 1];
      NewlineCountLine(ls[k - 1]);
      assert Concat(ls[..k]) == Concat(ls[..k - 1]) + ls[k - 1];
      NewlineCountConcat(Concat(ls[..k - 1]), ls[k - 1]);
    }
  }

  // ---------------------------------------------------------------------
  // Properties: pass 1

  lemma InstrCountSnoc(ps: seq<Parsed>, p: Parsed)
    ensures InstrCount(ps + [p]) == InstrCount(ps) + if IsInstr(p) then 1 else 0
  {
    assert (ps + [p])[..|ps|] == ps;
  }

  lemma ParseAllStep(lines: seq<string>)
    requires |lines| > 0
    ensures var n := |lines| - 1;
      var pre := lines[..n];
      var r := ParseLine(Scan(lines[n], LinenoAt(pre, n)).tokens);
      && LinenoAt(lines, n) == LinenoAt(pre, n)
      && LinenoAt(lines, |lines|) == LinenoAt(pre, n) + NewlineCount(lines[n])
      && ParseAll(lines) == (if ParseAll(pre).Err? then ParseAll(pre)
                             else if r.Err? then Err(r.error) else Ok(ParseAll(pre).value + [r.value]))
  {
    var n := |lines| - 1;
    assert lines[..n][..n] == lines[..n];
    assert lines[..|lines|] == lines;
  }

  lemma Pass1ApplyHolds(s: Symbols, ps: seq<Parsed>, p: Parsed, next: int)
    requires s.address == 4 * InstrCount(ps) && s.table == SymbolTable(ps) && s.table.Keys == LabelNames(ps)
    ensures Pass1Apply(s, p.program, next).Ok? <==> (p.program.LabelDecl? ==> p.program.name !in LabelNames(ps))
    ensures Pass1Apply(s, p.program, next).Ok? ==>
      var t, qs := Pass1Apply(s, p.program, next).value, ps + [p];
      t.address == 4 * InstrCount(qs) && t.table == SymbolTable(qs) && t.table.Keys == LabelNames(qs) && t.lineno == next
  {
    var qs := ps + [p];
    assert qs[..|ps|] == ps && qs[|ps|] == p;
    InstrCountSnoc(ps, p);
  }

  /** What pass 1 has established after the lines it has read. */
  predicate Pass1Facts(lines: seq<string>) {
    && (Pass1(lines).Ok? <==> ParseAll(lines).Ok? && DistinctLabels(ParseAll(lines).value))
    && (Pass1(lines).Ok? ==>
          var s, ps := Pass1(lines).value, ParseAll(lines).value;
          && s.address == 4 * InstrCount(ps)
          && s.table == SymbolTable(ps)
          && s.table.Keys == LabelNames(ps)
          && s.lineno == LinenoAt(lines, |lines|))
  }

  /** Pass 1 gets through the file exactly when every line parses and no label
      is declared twice; its table is then the reference table, its address
      four times the number of instruction statements. */
  lemma {:induction false} Pass1Symbols(lines: seq<string>)
    ensures Pass1Facts(lines)
  {
    if |lines| > 0 {
      var pre := lines[..|lines| - 1];
      Pass1Symbols(pre);
      if Pass1(pre).Ok? {
        Pass1StepOk(lines);
      } else {
        Pass1StepErr(lines);
      }
    }
  }

  lemma Pass1StepErr(lines: seq<string>)
    requires |lines| > 0
    requires Pass1Facts(lines[..|lines| - 1]) && Pass1(lines[..|lines| - 1]).Err?
    ensures Pass1Facts(lines)
  {
    var n := |lines| - 1;
    var pre := lines[..n];
    ParseAllStep(lines);
    if ParseAll(lines).Ok? {
      assert ParseAll(lines).value[..n] == ParseAll(pre).value;
    }
  }

  lemma Pass1StepOk(lines: seq<string>)
    requires |lines| > 0
    requires Pass1Facts(lines[..|lines| - 1]) && Pass1(lines[..|lines| - 1]).Ok?
    ensures Pass1Facts(lines)
  {
    var n := |lines| - 1;
    var pre := lines[..n];
    ParseAllStep(lines);
    var st, ps := Pass1(pre).value, ParseAll(pre).value;
    var sc := Scan(lines[n], LinenoAt(pre, n));
    ScanLineno(lines[n], LinenoAt(pre, n));
    var r := ParseLine(sc.tokens);
    assert Pass1(lines) == Pass1Line(st, lines[n]);
    if r.Ok? {
      Pass1ApplyHolds(st, ps, r.value, sc.lineno);
      var qs := ps + [r.value];
      assert qs[..n] == ps;
      assert ParseAll(lines) == Ok(qs);
      assert Pass1(lines) == Pass1Apply(st, r.value.program, sc.lineno);
    }
  }

  /** The recursive definition of distinct labels says that no two declarations
      share a name. */
  lemma {:induction false} DistinctLabelsPairs(ps: seq<Parsed>)
    ensures DistinctLabels(ps) <==>
      forall i, j :: 0 <= i < j < |ps| && ps[i].program.LabelDecl? ==> !IsLabel(ps[j], ps[i].program.name)
  {
    if |ps| > 0 {
      var n := |ps| - 1;
      var pre := ps[..n];
      DistinctLabelsPairs(pre);
      LabelNamesAt(pre);
      assert forall k :: 0 <= k < n ==> pre[k] == ps[k];
    }
  }

  /** A name is among the label names exactly when some line declares it. */
  lemma {:induction false} LabelNamesAt(ps: seq<Parsed>)
    ensures forall name :: name in LabelNames(ps) <==> exists k :: 0 <= k < |ps| && IsLabel(ps[k], name)
  {
    if |ps| > 0 {
      var n := |ps| - 1;
      var pre := ps[..n];
      LabelNamesAt(pre);
      assert forall k :: 0 <= k < n ==> pre[k] == ps[k];
      forall name | name in LabelNames(ps)
        ensures exists k :: 0 <= k < |ps| && IsLabel(ps[k], name)
      {
        if name !in LabelNames(pre) {
          assert IsLabel(ps[n], name);
        } else {
          var k :| 0 <= k < n && IsLabel(pre[k], name);
          assert IsLabel(ps[k], name);
        }
      }
    }
  }

  /** With distinct labels, the table gives each label four times the number
      of instruction statements before its declaration. */
  lemma {:induction false} SymbolTableAddresses(ps: seq<Parsed>)
    requires DistinctLabels(ps)
    ensures SymbolTable(ps).Keys == LabelNames(ps)
    ensures forall k :: 0 <= k < |ps| && ps[k].program.LabelDecl? ==>
      ps[k].program.name in SymbolTable(ps) && SymbolTable(ps)[ps[k].program.name] == 4 * InstrCount(ps[..k])
  {
    if |ps| > 0 {
      var n := |ps| - 1;
      var pre := ps[..n];
      SymbolTableAddresses(pre);
      LabelNamesAt(pre);
      forall k | 0 <= k < |ps| && ps[k].program.LabelDecl?
        ensures ps[k].program.name in SymbolTable(ps) && SymbolTable(ps)[ps[k].program.name] == 4 * InstrCount(ps[..k])
      {
        if k < n {
          assert pre[k] == ps[k] && pre[..k] == ps[..k];
          assert ps[k].program.name in LabelNames(pre);
        }
      }
    }
  }

  // ---------------------------------------------------------------------
  // Properties: pass 2

  predicate RecordWellFormed(p: Parsed) {
    IsInstr(p) ==> WellFormed(p.program.fields.value)
  }

  predicate AllWellFormed(ps: seq<Parsed>) {
    |ps| == 0 || (AllWellFormed(ps[..|ps| - 1]) && RecordWellFormed(ps[|ps| - 1]))
  }

  /** Every instruction record of a parsed file is well formed. */
  lemma {:induction false} ParseAllWellFormed(lines: seq<string>)
    requires ParseAll(lines).Ok?
    ensures AllWellFormed(ParseAll(lines).value)
  {
    if |lines| > 0 {
      var n := |lines| - 1;
      var pre := lines[..n];
      ParseAllStep(lines);
      ParseAllWellFormed(pre);
      var ps := ParseAll(lines).value;
      assert ps[..n] == ParseAll(pre).value;
      if IsInstr(ps[n]) {
        ParsedWellFormed(Scan(lines[n], LinenoAt(pre, n)).tokens);
      }
    }
  }

  predicate RecordSigned(p: Parsed) {
    IsInstr(p) ==> SignedImm(p.program.fields.value)
  }

  predicate AllSigned(ps: seq<Parsed>) {
    |ps| == 0 || (AllSigned(ps[..|ps| - 1]) && RecordSigned(ps[|ps| - 1]))
  }

  /** Every immediate of a parsed file is bits with at most a '-' in front. */
  lemma {:induction false} ParseAllSigned(lines: seq<string>)
    requires ParseAll(lines).Ok?
    ensures AllSigned(ParseAll(lines).value)
  {
    if |lines| > 0 {
      var n := |lines| - 1;
      var pre := lines[..n];
      ParseAllStep(lines);
      ParseAllSigned(pre);
      var ps := ParseAll(lines).value;
      assert ps[..n] == ParseAll(pre).value;
      if IsInstr(ps[n]) {
        ParsedSigned(Scan(lines[n], LinenoAt(pre, n)).tokens);
      }
    }
  }

  lemma Pass2ApplyHolds(s: Emitted, ps: seq<Parsed>, p: Parsed, illegal: seq<char>, next: int, opts: Options)
    requires Assemblable(ps, opts) && s.words == Words(ps, opts)
    requires IsInstr(p) ==> WellFormed(p.program.fields.value)
    ensures Pass2Apply(s, p, illegal, next, opts).Ok? <==> Assemblable(ps + [p], opts)
    ensures Pass2Apply(s, p, illegal, next, opts).Ok? ==>
      Pass2Apply(s, p, illegal, next, opts).value.words == Words(ps + [p], opts)
      && Pass2Apply(s, p, illegal, next, opts).value.lineno == next
  {
    var qs := ps + [p];
    assert qs[..|ps|] == ps && qs[|ps|] == p;
    if IsInstr(p) {
      ConvertWellFormed(p.program.fields.value);
    }
  }

  /** What pass 2 has established after the lines it has read. */
  predicate Pass2Facts(lines: seq<string>, opts: Options) {
    && (Pass2(lines, opts).Ok? <==> ParseAll(lines).Ok? && Assemblable(ParseAll(lines).value, opts))
    && (Pass2(lines, opts).Ok? ==>
          && Pass2(lines, opts).value.words == Words(ParseAll(lines).value, opts)
          && Pass2(lines, opts).value.lineno == LinenoAt(lines, |lines|))
  }

  /** Pass 2 gets through the file exactly when every line parses and every
      instruction's word can be written, and it then writes the reference
      word of every instruction, in order. */
  lemma {:induction false} Pass2Words(lines: seq<string>, opts: Options)
    ensures Pass2Facts(lines, opts)
  {
    if |lines| > 0 {
      var pre := lines[..|lines| - 1];
      Pass2Words(pre, opts);
      if Pass2(pre, opts).Ok? {
        Pass2StepOk(lines, opts);
      } else {
        Pass2StepErr(lines, opts);
      }
    }
  }

  lemma Pass2StepErr(lines: seq<string>, opts: Options)
    requires |lines| > 0
    requires Pass2Facts(lines[..|lines| - 1], opts) && Pass2(lines[..|lines| - 1], opts).Err?
    ensures Pass2Facts(lines, opts)
  {
    var n := |lines| - 1;
    var pre := lines[..n];
    ParseAllStep(lines);
    if ParseAll(lines).Ok? {
      assert ParseAll(lines).value[..n] == ParseAll(pre).value;
    }
  }

  lemma Pass2StepOk(lines: seq<string>, opts: Options)
    requires |lines| > 0
    requires Pass2Facts(lines[..|lines| - 1], opts) && Pass2(lines[..|lines| - 1], opts).Ok?
    ensures Pass2Facts(lines, opts)
  {
    var n := |lines| - 1;
    var pre := lines[..n];
    ParseAllStep(lines);
    var st, ps := Pass2(pre, opts).value, ParseAll(pre).value;
    var sc := Scan(lines[n], LinenoAt(pre, n));
    ScanLineno(lines[n], LinenoAt(pre, n));
    var r := ParseLine(sc.tokens);
    assert Pass2(lines, opts) == Pass2Line(st, lines[n], opts);
    if r.Ok? {
      if IsInstr(r.value) {
        ParsedWellFormed(sc.tokens);
      }
      Pass2ApplyHolds(st, ps, r.value, sc.illegal, sc.lineno, opts);
      var qs := ps + [r.value];
      assert qs[..n] == ps;
      assert ParseAll(lines) == Ok(qs);
      assert Pass2(lines, opts) == Pass2Apply(st, r.value, sc.illegal, sc.lineno, opts);
    }
  }

  /** A line is writable in binary exactly when it is well formed. */
  lemma {:induction false} BinaryAssemblable(ps: seq<Parsed>, opts: Options)
    requires !opts.hex
    ensures Assemblable(ps, opts) <==> AllWellFormed(ps)
  {
    if |ps| > 0 {
      BinaryAssemblable(ps[..|ps| - 1], opts);
    }
  }

  /** In hexadecimal, too, a file of well-formed records whose immediates are
      signed bits is writable: every reference word reads as a number. */
  lemma {:induction false} HexAssemblable(ps: seq<Parsed>, opts: Options)
    requires opts.hex && AllSigned(ps)
    ensures Assemblable(ps, opts) <==> AllWellFormed(ps)
  {
    if |ps| > 0 {
      var p := ps[|ps| - 1];
      HexAssemblable(ps[..|ps| - 1], opts);
      if IsInstr(p) && WellFormed(p.program.fields.value) {
        var w := ExpectedWord(p.program.fields.value);
        ExpectedWordSigned(p.program.fields.value);
        Hex.HexWordDefined(w);
      }
    }
  }

  /** Every line of an assemblable file is writable. */
  lemma {:induction false} AssemblableAt(ps: seq<Parsed>, opts: Options)
    requires Assemblable(ps, opts)
    ensures forall k :: 0 <= k < |ps| ==> Writable(ps[k], opts)
  {
    if |ps| > 0 {
      var n := |ps| - 1;
      AssemblableAt(ps[..n], opts);
      assert forall k :: 0 <= k < n ==> ps[..n][k] == ps[k];
    }
  }

  /** One word per instruction statement. */
  lemma {:induction false} WordsCount(ps: seq<Parsed>, opts: Options)
    requires Assemblable(ps, opts)
    ensures |Words(ps, opts)| == InstrCount(ps)
  {
    if |ps| > 0 {
      var n := |ps| - 1;
      WordsCount(ps[..n], opts);
      InstrCountSnoc(ps[..n], ps[n]);
      assert ps[..n] + [ps[n]] == ps;
    }
  }

  /** The word of the instruction on line k is the output line whose address
      pass 1 gives it: four times the number of instructions before it. */
  lemma {:induction false} WordsAt(ps: seq<Parsed>, opts: Options)
    requires Assemblable(ps, opts)
    ensures forall k :: 0 <= k < |ps| && IsInstr(ps[k]) ==>
      && Writable(ps[k], opts)
      && InstrCount(ps[..k]) < |Words(ps, opts)|
      && Words(ps, opts)[InstrCount(ps[..k])] == WordOf(ps[k], opts)
  {
    AssemblableAt(ps, opts);
    WordsCount(ps, opts);
    if |ps| > 0 {
      var n := |ps| - 1;
      var pre := ps[..n];
      WordsAt(pre, opts);
      WordsCount(pre, opts);
      assert pre + [ps[n]] == ps;
      forall k | 0 <= k < n && IsInstr(ps[k])
        ensures InstrCount(ps[..k]) < |Words(ps, opts)|
        ensures Words(ps, opts)[InstrCount(ps[..k])] == WordOf(ps[k], opts)
      {
        assert pre[k] == ps[k] && pre[..k] == ps[..k];
      }
    }
  }

  /** The generator warnings shown are those of the generator that are shown
      under the options, in order: -n32 hides exactly the 32-bit-core ones. */
  lemma {:induction false} GenNotesShown(ws: seq<GenWarning>, opts: Options)
    ensures forall m :: m in GenNotes(ws, opts) <==> m.GenNote? && m.gw in ws && Shown(m.gw, opts)
    ensures !opts.no32 ==> GenNotes(ws, opts) == seq(|ws|, i requires 0 <= i < |ws| => GenNote(ws[i]))
  {
    if |ws| > 0 {
      var n := |ws| - 1;
      GenNotesShown(ws[..n], opts);
      assert ws == ws[..n] + [ws[n]];
    }
  }

  /** The whole run: it gets through exactly when every line parses, no label is
      declared twice and every word can be written, and it then writes the
      reference word of every instruction, in order. */
  lemma AssembleWords(text: string, opts: Options)
    ensures var lines := Lines(UniversalNewlines(text));
      Assemble(text, opts).Ok? <==>
        ParseAll(lines).Ok? && DistinctLabels(ParseAll(lines).value) && Assemblable(ParseAll(lines).value, opts)
    ensures var lines := Lines(UniversalNewlines(text));
      Assemble(text, opts).Ok? ==> Assemble(text, opts).value.words == Words(ParseAll(lines).value, opts)
  {
    Pass1Symbols(Lines(UniversalNewlines(text)));
    Pass2Words(Lines(UniversalNewlines(text)), opts);
  }

  /** In binary, only pass 1 can stop a run: pass 2 gets through every file
      pass 1 accepts. */
  lemma AssembleBinary(text: string, opts: Options)
    requires !opts.hex
    ensures var lines := Lines(UniversalNewlines(text));
      Assemble(text, opts).Ok? <==> ParseAll(lines).Ok? && DistinctLabels(ParseAll(lines).value)
  {
    var lines := Lines(UniversalNewlines(text));
    AssembleWords(text, opts);
    if ParseAll(lines).Ok? {
      ParseAllWellFormed(lines);
      BinaryAssemblable(ParseAll(lines).value, opts);
    }
  }

  /** With -x as well, only pass 1 can stop a run: `int(word, 2)` reads every
      word pass 2 builds. */
  lemma AssembleHex(text: string, opts: Options)
    requires opts.hex
    ensures var lines := Lines(UniversalNewlines(text));
      Assemble(text, opts).Ok? <==> ParseAll(lines).Ok? && DistinctLabels(ParseAll(lines).value)
  {
    var lines := Lines(UniversalNewlines(text));
    AssembleWords(text, opts);
    if ParseAll(lines).Ok? {
      ParseAllWellFormed(lines);
      ParseAllSigned(lines);
      HexAssemblable(ParseAll(lines).value, opts);
    }
  }

  // ---------------------------------------------------------------------
  // Properties: line numbers

  /** The line number a label or an instruction record carries. */
  function LinenoOf(p: Parsed): Option<int> {
    match p.program
    case LabelDecl(_, ln) => Some(ln)
    case Statement(Some(f)) => Some(f.lineno)
    case Statement(None) => None
  }

  /** A label or a record carries the line number of its first token. */
  lemma ParseLineLineno(toks: seq<Token>)
    requires ParseLine(toks).Ok? && LinenoOf(ParseLine(toks).value).Some?
    ensures |toks| > 0 && LinenoOf(ParseLine(toks).value) == Some(toks[0].lineno)
  {
    var ks := Kinds(toks);
    if ks == ShapeR {
      ParseR(toks);
    } else if ks == ShapeRRI {
      assert StatementRRI(toks).Ok?;
      ParseRRI(toks);
    } else if ks == ShapeRI {
      assert StatementRI(toks).Ok?;
      ParseRI(toks);
    } else if ks == ShapeLabel {
      ParseLabel(toks);
    }
  }

  lemma ParseAllLast(lines: seq<string>)
    requires ParseAll(lines).Ok? && |lines| > 0
    ensures var n := |lines| - 1;
      && ParseAll(lines[..n]).Ok? && ParseAll(lines[..n]).value == ParseAll(lines).value[..n]
      && ParseLine(Scan(lines[n], LinenoAt(lines, n)).tokens) == Ok(ParseAll(lines).value[n])
  {
    var n := |lines| - 1;
    ParseAllStep(lines);
    assert lines[..n][..n] == lines[..n];
  }

  /** The parse of line k is that of its tokens read with the counter at LinenoAt(lines, k). */
  lemma {:induction false} ParseAllAt(lines: seq<string>, k: nat)
    requires ParseAll(lines).Ok? && k < |lines|
    ensures ParseLine(Scan(lines[k], LinenoAt(lines, k)).tokens) == Ok(ParseAll(lines).value[k])
  {
    var n := |lines| - 1;
    ParseAllLast(lines);
    if k < n {
      var pre, ps := lines[..n], ParseAll(lines).value;
      ParseAllAt(pre, k);
      PrefixLine(lines, n, k);
      assert ParseAll(pre).value[k] == ps[k];
    } else {
      assert k == n;
    }
  }

  lemma PrefixLine(lines: seq<string>, n: nat, k: nat)
    requires k < n <= |lines|
    ensures lines[..n][k] == lines[k] && LinenoAt(lines[..n], k) == LinenoAt(lines, k)
  {
    assert lines[..n][..k] == lines[..k];
  }

  /** Every label and instruction of a file carries the number of its line,
      counting from one. */
  lemma LineNumbers(text: string)
    requires ParseAll(Lines(UniversalNewlines(text))).Ok?
    ensures var ps := ParseAll(Lines(UniversalNewlines(text))).value;
      forall k :: 0 <= k < |ps| && LinenoOf(ps[k]).Some? ==> LinenoOf(ps[k]) == Some(k + 1)
  {
    var ps := ParseAll(Lines(UniversalNewlines(text))).value;
    forall k | 0 <= k < |ps| && LinenoOf(ps[k]).Some?
      ensures LinenoOf(ps[k]) == Some(k + 1)
    {
      LineNumber(UniversalNewlines(text), k);
    }
  }

  lemma LineNumber(text: string, k: nat)
    requires ParseAll(Lines(text)).Ok? && k < |Lines(text)|
    requires LinenoOf(ParseAll(Lines(text)).value[k]).Some?
    ensures LinenoOf(ParseAll(Lines(text)).value[k]) == Some(k + 1)
  {
    var ls := Lines(text);
    LinesShape(text);
    LinesNumbered(text);
    ParseAllAt(ls, k);
    assert LinenoAt(ls, k) == FirstLine + k;
    assert IsLine(ls[k]);
    LineNumberAt(ls[k], k, ParseAll(ls).value[k]);
  }

  lemma LineNumberAt(line: string, k: nat, p: Parsed)
    requires IsLine(line) && ParseLine(Scan(line, FirstLine + k).tokens) == Ok(p) && LinenoOf(p).Some?
    ensures LinenoOf(p) == Some(k + 1)
  {
    var toks := Scan(line, FirstLine + k).tokens;
    ScanLine(line, FirstLine + k);
    ParseLineLineno(toks);
    assert toks[0] in toks;
  }
}
