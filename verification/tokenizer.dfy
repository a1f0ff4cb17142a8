/** The lexer of the assembler. At each position the ignored characters
    (space, tab, carriage return) are skipped and otherwise the first rule that
    matches takes the longest text it can: identifiers (an opcode when the name
    is reserved, else a label), registers `$d` or `$dd`, runs of newlines,
    comments from '#' to the end of the line, decimal immediates with an
    optional sign, ',' and ':'. A character no rule matches is reported and
    skipped. The line counter grows by the length of every newline run. */
module Tokenizer {
  import opened Results
  import opened MachineCodeConst

  datatype Kind = Opcode | Label | Register | Comma | Immediate | Newline | Column

  /** What one step of the lexer makes of the front of the input. */
  datatype Piece = Tok(kind: Kind) | Blank | Comment | Illegal

  datatype Lexeme = Lexeme(piece: Piece, text: string)

  datatype Token = Token(kind: Kind, text: string, lineno: int)

  datatype ScanResult = ScanResult(tokens: seq<Token>, illegal: seq<char>, lineno: int)

  predicate IsLetter(c: char) {
    'a' <= c <= 'z' || 'A' <= c <= 'Z' || c == '_'
  }

  predicate IsDigit(c: char) {
    '0' <= c <= '9'
  }

  predicate IsIgnored(c: char) {
    c == ' ' || c == '\t' || c == '\r'
  }

  datatype CharClass = IdentChars | Digits | Newlines | NotNewline

  predicate InClass(c: char, cls: CharClass) {
    match cls
    case IdentChars => IsLetter(c) || IsDigit(c)
    case Digits => IsDigit(c)
    case Newlines => c == '\n'
    case NotNewline => c != '\n'
  }

  /** The end of the longest run of characters of class cls starting at i. */
  function Span(u: string, i: nat, cls: CharClass): (j: nat)
    requires i <= |u|
    ensures i <= j <= |u|
    ensures forall k :: i <= k < j ==> InClass(u[k], cls)
    ensures j == |u| || !InClass(u[j], cls)
    decreases |u| - i
  {
    if i == |u| || !InClass(u[i], cls) then i else Span(u, i + 1, cls)
  }

  // ---------------------------------------------------------------------
  // The lexical classes, stated on their own

  predicate IsIdent(t: string) {
    |t| >= 1 && IsLetter(t[0]) && forall k :: 1 <= k < |t| ==> InClass(t[k], IdentChars)
  }

  predicate AllDigits(t: string) {
    forall k :: 0 <= k < |t| ==> IsDigit(t[k])
  }

  /** `\$[0-9][0-9]?` */
  predicate IsRegisterText(t: string) {
    (|t| == 2 || |t| == 3) && t[0] == '$' && AllDigits(t[1..])
  }

  /** `[+-]?[0-9]+` */
  predicate IsImmediateText(t: string) {
    (|t| >= 1 && AllDigits(t)) || (|t| >= 2 && (t[0] == '+' || t[0] == '-') && AllDigits(t[1..]))
  }

  /** No rule matches at the front of u. */
  predicate NoRuleMatches(u: string)
    requires |u| >= 1
  {
    var c := u[0];
    var digitNext := |u| >= 2 && IsDigit(u[1]);
    !IsIgnored(c) && !IsLetter(c) && !(c == '$' && digitNext) && c != '\n' && c != '#'
    && !IsDigit(c) && !((c == '+' || c == '-') && digitNext) && c != ',' && c != ':'
  }

  /** The text of a lexeme belongs to the lexical class of its piece. */
  predicate Valid(l: Lexeme) {
    var t := l.text;
    match l.piece
    case Tok(Opcode) => IsIdent(t) && Lookup(t).Some?
    case Tok(Label) => IsIdent(t) && Lookup(t).None?
    case Tok(Register) => IsRegisterText(t)
    case Tok(Newline) => |t| >= 1 && forall k :: 0 <= k < |t| ==> t[k] == '\n'
    case Tok(Immediate) => IsImmediateText(t)
    case Tok(Comma) => t == ","
    case Tok(Column) => t == ":"
    case Comment => |t| >= 1 && t[0] == '#' && forall k :: 0 <= k < |t| ==> t[k] != '\n'
    case Blank => |t| == 1 && IsIgnored(t[0])
    case Illegal =>
      |t| == 1 && !IsIgnored(t[0]) && !IsLetter(t[0]) && t[0] != '\n' && t[0] != '#'
      && !IsDigit(t[0]) && t[0] != ',' && t[0] != ':'
  }

  predicate AllValid(ls: seq<Lexeme>) {
    |ls| == 0 || (Valid(ls[0]) && AllValid(ls[1..]))
  }

  /** The lexeme could not have been longer, given the text that follows it
      (and an illegal character is one where no rule matches). */
  predicate Maximal(l: Lexeme, rest: string) {
    var more := |rest| >= 1;
    match l.piece
    case Tok(Opcode) => !(more && InClass(rest[0], IdentChars))
    case Tok(Label) => !(more && InClass(rest[0], IdentChars))
    case Tok(Register) => |l.text| == 3 || !(more && IsDigit(rest[0]))
    case Tok(Newline) => !(more && rest[0] == '\n')
    case Tok(Immediate) => !(more && IsDigit(rest[0]))
    case Comment => !more || rest[0] == '\n'
    case Illegal => |l.text + rest| >= 1 && NoRuleMatches(l.text + rest)
    case _ => true
  }

  // ---------------------------------------------------------------------
  // The lexer

  /** The lexeme at the front of u. */
  function Next(u: string): (r: Lexeme)
    requires |u| >= 1
    ensures 1 <= |r.text| <= |u| && r.text == u[..|r.text|]
    ensures Valid(r) && Maximal(r, u[|r.text|..])
  {
    var c := u[0];
    if IsIgnored(c) then Lexeme(Blank, [c])
    else if IsLetter(c) then IdentLexeme(u)
    else if c == '$' && |u| >= 2 && IsDigit(u[1]) then RegisterLexeme(u)
    else if c == '\n' then NewlineLexeme(u)
    else if c == '#' then CommentLexeme(u)
    else if IsDigit(c) then ImmediateLexeme(u, 1)
    else if (c == '+' || c == '-') && |u| >= 2 && IsDigit(u[1]) then ImmediateLexeme(u, 2)
    else if c == ',' then Lexeme(Tok(Comma), [c])
    else if c == ':' then Lexeme(Tok(Column), [c])
    else Lexeme(Illegal, [c])
  }

  /** `[a-zA-Z_][a-zA-Z_0-9]*`, an opcode when the name is reserved and a label otherwise. */
  function IdentLexeme(u: string): (r: Lexeme)
    requires |u| >= 1 && IsLetter(u[0])
    ensures 1 <= |r.text| <= |u| && r.text == u[..|r.text|]
    ensures Valid(r) && Maximal(r, u[|r.text|..])
  {
    var t := u[..Span(u, 1, IdentChars)];
    Lexeme(Tok(if Lookup(t).Some? then Opcode else Label), t)
  }

  function RegisterLexeme(u: string): (r: Lexeme)
    requires |u| >= 2 && u[0] == '$' && IsDigit(u[1])
    ensures 1 <= |r.text| <= |u| && r.text == u[..|r.text|]
    ensures Valid(r) && Maximal(r, u[|r.text|..])
  {
    Lexeme(Tok(Register), u[..if |u| >= 3 && IsDigit(u[2]) then 3 else 2])
  }

  function NewlineLexeme(u: string): (r: Lexeme)
    requires |u| >= 1 && u[0] == '\n'
    ensures 1 <= |r.text| <= |u| && r.text == u[..|r.text|]
    ensures Valid(r) && Maximal(r, u[|r.text|..])
  {
    Lexeme(Tok(Newline), u[..Span(u, 1, Newlines)])
  }

  function CommentLexeme(u: string): (r: Lexeme)
    requires |u| >= 1 && u[0] == '#'
    ensures 1 <= |r.text| <= |u| && r.text == u[..|r.text|]
    ensures Valid(r) && Maximal(r, u[|r.text|..])
  {
    Lexeme(Comment, u[..Span(u, 1, NotNewline)])
  }

  /** Digits, after a sign when start is 2. */
  function ImmediateLexeme(u: string, start: nat): (r: Lexeme)
    requires start == 1 || start == 2
    requires |u| >= start && IsDigit(u[start - 1])
    requires start == 2 ==> u[0] == '+' || u[0] == '-'
    ensures 1 <= |r.text| <= |u| && r.text == u[..|r.text|]
    ensures Valid(r) && Maximal(r, u[|r.text|..])
  {
    Lexeme(Tok(Immediate), u[..Span(u, start, Digits)])
  }

  function Concat(ls: seq<Lexeme>): string {
    if |ls| == 0 then "" else ls[0].text + Concat(ls[1..])
  }

  /** The whole input, cut into lexemes: nothing is lost and every lexeme is of
      its class (LexMaximal: and as long as it can be). */
  function Lex(u: string): (r: seq<Lexeme>)
    ensures Concat(r) == u && AllValid(r)
    decreases |u|
  {
    if |u| == 0 then []
    else
      var l := Next(u);
      var rest := Lex(u[|l.text|..]);
      assert ([l] + rest)[1..] == rest;
      [l] + rest
  }

  /** Every lexeme is as long as it can be, given what follows it. */
  lemma {:induction false} LexMaximal(u: string)
    ensures forall k :: 0 <= k < |Lex(u)| ==> Maximal(Lex(u)[k], Concat(Lex(u)[k + 1..]))
    decreases |u|
  {
    if |u| > 0 {
      var l := Next(u);
      var tail := u[|l.text|..];
      var r := Lex(u);
      assert r == [l] + Lex(tail);
      LexMaximal(tail);
      assert Concat(r[1..]) == tail;
      forall k | 1 <= k < |r|
        ensures Maximal(r[k], Concat(r[k + 1..]))
      {
        assert r[k] == Lex(tail)[k - 1];
        assert r[k + 1..] == Lex(tail)[k..];
      }
    }
  }

  /** Tokens with their line numbers, the illegal characters reported, and the
      line counter afterwards. */
  function Number(ls: seq<Lexeme>, lineno: int): ScanResult {
    if |ls| == 0 then ScanResult([], [], lineno)
    else
      var l := ls[0];
      match l.piece
      case Tok(k) =>
        var next := if k == Newline then lineno + |l.text| else lineno;
        var r := Number(ls[1..], next);
        r.(tokens := [Token(k, l.text, lineno)] + r.tokens)
      case Illegal =>
        var r := Number(ls[1..], lineno);
        r.(illegal := l.text + r.illegal)
      case _ => Number(ls[1..], lineno)
  }

  /** Lexing u with the line counter at lineno (the lexer keeps the counter
      from one call to the next). */
  function Scan(u: string, lineno: int): ScanResult {
    Number(Lex(u), lineno)
  }

  /** reset_lineno: the counter pass 2 starts from. */
  const FirstLine: int := 1

  function NewlineCount(s: string): nat {
    multiset(s)['\n']
  }

  // ---------------------------------------------------------------------
  // Properties

  /** An identifier is an opcode exactly when it spells a reserved mnemonic. */
  lemma IdentifierKind(u: string)
    requires |u| >= 1 && IsLetter(u[0])
    ensures Next(u).piece == Tok(Opcode) || Next(u).piece == Tok(Label)
    ensures Next(u).piece == Tok(Opcode) <==> exists m :: Name(m) == Next(u).text
  {
    var t := Next(u).text;
    if Lookup(t).Some? {
      LookupName(t, Lookup(t).value);
    } else if exists m :: Name(m) == t {
      var m :| Name(m) == t;
      LookupName(t, m);
    }
  }

  /** The tokens of a scan are lexemes of their kind's class. */
  lemma {:induction false} NumberTokensValid(ls: seq<Lexeme>, lineno: int)
    requires AllValid(ls)
    ensures forall t :: t in Number(ls, lineno).tokens ==> Valid(Lexeme(Tok(t.kind), t.text))
  {
    if |ls| > 0 {
      NumberTokensValid(ls[1..], if ls[0].piece == Tok(Newline) then lineno + |ls[0].text| else lineno);
    }
  }

  lemma NewlineCountConcat(a: string, b: string)
    ensures NewlineCount(a + b) == NewlineCount(a) + NewlineCount(b)
  {
  }

  lemma {:induction false} NewlineCountAll(t: string)
    requires forall k :: 0 <= k < |t| ==> t[k] == '\n'
    ensures NewlineCount(t) == |t|
  {
    if |t| > 0 {
      assert t == t[..|t| - 1] + [t[|t| - 1]];
      NewlineCountAll(t[..|t| - 1]);
    }
  }

  lemma {:induction false} NewlineCountNone(t: string)
    requires forall k :: 0 <= k < |t| ==> t[k] != '\n'
    ensures NewlineCount(t) == 0
  {
    if |t| > 0 {
      assert t == t[..|t| - 1] + [t[|t| - 1]];
      NewlineCountNone(t[..|t| - 1]);
    }
  }

  /** Only newline runs hold newlines. */
  lemma LexemeNewlines(l: Lexeme)
    requires Valid(l)
    ensures NewlineCount(l.text) == if l.piece == Tok(Newline) then |l.text| else 0
  {
    match l.piece
    case Tok(Newline) =>
      NewlineCountAll(l.text);
    case Tok(Opcode) =>
      IdentNoNewline(l.text);
    case Tok(Label) =>
      IdentNoNewline(l.text);
    case Tok(Register) =>
      AfterFirstNoNewline(l.text);
    case Tok(Immediate) =>
      AfterFirstNoNewline(l.text);
    case _ =>
      NewlineCountNone(l.text);
  }

  lemma IdentNoNewline(t: string)
    requires IsIdent(t)
    ensures NewlineCount(t) == 0
  {
    forall k | 0 <= k < |t|
      ensures t[k] != '\n'
    {
      if k > 0 {
        assert InClass(t[k], IdentChars);
      }
    }
    NewlineCountNone(t);
  }

  lemma AfterFirstNoNewline(t: string)
    requires |t| >= 1 && t[0] != '\n' && AllDigits(t[1..])
    ensures NewlineCount(t) == 0
  {
    forall k | 1 <= k < |t|
      ensures t[k] != '\n'
    {
      assert t[k] == t[1..][k - 1];
    }
    NewlineCountNone(t);
  }

  /** One lexeme's effect on the counter. */
  lemma NumberStep(ls: seq<Lexeme>, lineno: int)
    requires |ls| >= 1
    ensures Number(ls, lineno).lineno
            == Number(ls[1..], if ls[0].piece == Tok(Newline) then lineno + |ls[0].text| else lineno).lineno
  {
  }

  /** The counter moves by the length of each newline run. */
  lemma {:induction false} NumberLineno(ls: seq<Lexeme>, lineno: int)
    requires AllValid(ls)
    ensures Number(ls, lineno).lineno == lineno + NewlineCount(Concat(ls))
  {
    if |ls| > 0 {
      var l, rest := ls[0], ls[1..];
      var next := if l.piece == Tok(Newline) then lineno + |l.text| else lineno;
      assert Concat(ls) == l.text + Concat(rest);
      NewlineCountConcat(l.text, Concat(rest));
      LexemeNewlines(l);
      NumberStep(ls, lineno);
      NumberLineno(rest, next);
    }
  }

  /** After a scan the line counter has grown by the number of newlines read. */
  lemma ScanLineno(u: string, lineno: int)
    ensures Scan(u, lineno).lineno == lineno + NewlineCount(u)
  {
    NumberLineno(Lex(u), lineno);
  }

  /** Every token of a scan is of its kind's lexical class. */
  lemma ScanTokensValid(u: string, lineno: int)
    ensures forall t :: t in Scan(u, lineno).tokens ==> Valid(Lexeme(Tok(t.kind), t.text))
  {
    NumberTokensValid(Lex(u), lineno);
  }

  // ---------------------------------------------------------------------
  // One line at a time

  /** A line as the file iteration yields it: a newline, if any, only at its end. */
  predicate IsLine(line: string) {
    forall k :: 0 <= k < |line| - 1 ==> line[k] != '\n'
  }

  predicate NoNewline(s: string) {
    forall k :: 0 <= k < |s| ==> s[k] != '\n'
  }

  /** A run of characters not including '\n' ends at the same place whether or
      not a newline follows. */
  lemma {:induction false} SpanBeforeNewline(u: string, i: nat, cls: CharClass)
    requires i <= |u| && NoNewline(u) && cls != Newlines
    ensures Span(u + "\n", i, cls) == Span(u, i, cls)
    decreases |u| - i
  {
    var v := u + "\n";
    if i < |u| && InClass(u[i], cls) {
      assert v[i] == u[i];
      SpanBeforeNewline(u, i + 1, cls);
    } else if i < |u| {
      assert v[i] == u[i];
    } else {
      assert v[i] == '\n';
    }
  }

  /** A newline at the end of the input does not change the lexeme in front. */
  lemma NextBeforeNewline(u: string)
    requires |u| >= 1 && NoNewline(u)
    ensures Next(u + "\n") == Next(u)
  {
    var v := u + "\n";
    assert v[0] == u[0];
    assert |u| >= 2 ==> v[1] == u[1];
    var c := u[0];
    if IsIgnored(c) {
    } else if IsLetter(c) {
      IdentBeforeNewline(u);
    } else if c == '$' && |u| >= 2 && IsDigit(u[1]) {
      RegisterBeforeNewline(u);
    } else if c == '#' {
      CommentBeforeNewline(u);
    } else if IsDigit(c) {
      ImmediateBeforeNewline(u, 1);
    } else if (c == '+' || c == '-') && |u| >= 2 && IsDigit(u[1]) {
      ImmediateBeforeNewline(u, 2);
    } else if |u| == 1 {
      assert v[1] == '\n';
    }
  }

  lemma IdentBeforeNewline(u: string)
    requires |u| >= 1 && NoNewline(u) && IsLetter(u[0])
    ensures IdentLexeme(u + "\n") == IdentLexeme(u)
  {
    var v := u + "\n";
    SpanBeforeNewline(u, 1, IdentChars);
    assert v[..Span(v, 1, IdentChars)] == u[..Span(u, 1, IdentChars)];
  }

  lemma RegisterBeforeNewline(u: string)
    requires |u| >= 2 && NoNewline(u) && u[0] == '$' && IsDigit(u[1])
    ensures RegisterLexeme(u + "\n") == RegisterLexeme(u)
  {
    var v := u + "\n";
    if |u| == 2 {
      assert v[2] == '\n';
      assert v[..2] == u[..2];
    } else {
      assert v[2] == u[2];
      assert v[..3] == u[..3];
      assert v[..2] == u[..2];
    }
  }

  lemma CommentBeforeNewline(u: string)
    requires |u| >= 1 && NoNewline(u) && u[0] == '#'
    ensures CommentLexeme(u + "\n") == CommentLexeme(u)
  {
    var v := u + "\n";
    SpanBeforeNewline(u, 1, NotNewline);
    assert v[..Span(v, 1, NotNewline)] == u[..Span(u, 1, NotNewline)];
  }

  lemma ImmediateBeforeNewline(u: string, start: nat)
    requires start == 1 || start == 2
    requires |u| >= start && IsDigit(u[start - 1]) && NoNewline(u)
    requires start == 2 ==> u[0] == '+' || u[0] == '-'
    ensures ImmediateLexeme(u + "\n", start) == ImmediateLexeme(u, start)
  {
    var v := u + "\n";
    assert v[start - 1] == u[start - 1];
    assert v[0] == u[0];
    SpanBeforeNewline(u, start, Digits);
    assert v[..Span(v, start, Digits)] == u[..Span(u, start, Digits)];
  }

  lemma DropAppend(a: string, b: string, n: nat)
    requires n <= |a|
    ensures (a + b)[n..] == a[n..] + b
  {
  }

  lemma LexStep(u: string)
    requires |u| >= 1
    ensures Lex(u) == [Next(u)] + Lex(u[|Next(u).text|..])
  {
  }

  lemma LexNewline()
    ensures Lex("\n") == [Lexeme(Tok(Newline), "\n")]
  {
    var v := "\n";
    LexStep(v);
    assert Span(v, 1, Newlines) == 1;
    assert Next(v) == NewlineLexeme(v);
    assert v[..1] == v;
    assert v[1..] == "";
  }

  /** Lexing a line that ends in a newline is lexing its body, then one newline run. */
  lemma {:induction false} LexLine(body: string)
    requires NoNewline(body)
    ensures Lex(body + "\n") == Lex(body) + [Lexeme(Tok(Newline), "\n")]
    decreases |body|
  {
    var v := body + "\n";
    if |body| == 0 {
      assert v == "\n";
      LexNewline();
    } else {
      var l := Next(body);
      var tail := body[|l.text|..];
      assert NoNewline(tail);
      LexLine(tail);
      LexFirst(body);
      LexStep(body);
      assert [l] + (Lex(tail) + [Lexeme(Tok(Newline), "\n")]) == ([l] + Lex(tail)) + [Lexeme(Tok(Newline), "\n")];
    }
  }

  /** The first lexeme of a line is the first lexeme of its body. */
  lemma LexFirst(body: string)
    requires NoNewline(body) && |body| >= 1
    ensures Lex(body + "\n") == [Next(body)] + Lex(body[|Next(body).text|..] + "\n")
  {
    NextBeforeNewline(body);
    DropAppend(body, "\n", |Next(body).text|);
    LexStep(body + "\n");
  }

  /** Lexemes with no newline in their text contain no newline run. */
  lemma {:induction false} NoNewlineRun(ls: seq<Lexeme>)
    requires AllValid(ls) && NewlineCount(Concat(ls)) == 0
    ensures forall k :: 0 <= k < |ls| ==> ls[k].piece != Tok(Newline)
  {
    if |ls| > 0 {
      assert Concat(ls) == ls[0].text + Concat(ls[1..]);
      NewlineCountConcat(ls[0].text, Concat(ls[1..]));
      LexemeNewlines(ls[0]);
      NoNewlineRun(ls[1..]);
      assert forall k :: 1 <= k < |ls| ==> ls[k] == ls[1..][k - 1];
    }
  }

  /** Without newline runs every token is on the starting line, and the counter stays. */
  lemma {:induction false} NumberOneLine(ls: seq<Lexeme>, lineno: int)
    requires forall k :: 0 <= k < |ls| ==> ls[k].piece != Tok(Newline)
    ensures Number(ls, lineno).lineno == lineno
    ensures forall t :: t in Number(ls, lineno).tokens ==> t.lineno == lineno && t.kind != Newline
  {
    if |ls| > 0 {
      assert forall k :: 1 <= k < |ls| ==> ls[k] == ls[1..][k - 1];
      NumberOneLine(ls[1..], lineno);
    }
  }

  lemma {:induction false} NumberAppend(ls: seq<Lexeme>, l: Lexeme, lineno: int)
    requires forall k :: 0 <= k < |ls| ==> ls[k].piece != Tok(Newline)
    ensures Number(ls + [l], lineno).tokens == Number(ls, lineno).tokens + Number([l], lineno).tokens
    ensures Number(ls + [l], lineno).lineno == Number([l], lineno).lineno
  {
    if |ls| > 0 {
      assert (ls + [l])[1..] == ls[1..] + [l];
      assert forall k :: 1 <= k < |ls| ==> ls[k] == ls[1..][k - 1];
      NumberAppend(ls[1..], l, lineno);
    }
  }

  lemma NewlineCountNoNewline(s: string)
    requires NoNewline(s)
    ensures NewlineCount(s) == 0
  {
    NewlineCountNone(s);
  }

  /** Scanning one line: every token carries the line's number, a newline token
      comes last exactly when the line ends in a newline, and the counter then
      moves to the next line. */
  lemma ScanLine(line: string, lineno: int)
    requires IsLine(line)
    ensures var r := Scan(line, lineno);
      && (forall t :: t in r.tokens ==> t.lineno == lineno)
      && (forall k :: 0 <= k < |r.tokens| - 1 ==> r.tokens[k].kind != Newline)
      && ((|r.tokens| >= 1 && r.tokens[|r.tokens| - 1].kind == Newline) <==> (|line| >= 1 && line[|line| - 1] == '\n'))
      && r.lineno == lineno + (if |line| >= 1 && line[|line| - 1] == '\n' then 1 else 0)
  {
    if |line| >= 1 && line[|line| - 1] == '\n' {
      var body := line[..|line| - 1];
      assert line == body + "\n";
      ScanBody(body, lineno);
      ScanTerminatedLine(body, lineno);
    } else {
      assert NoNewline(line);
      ScanBody(line, lineno);
    }
  }

  /** A line without a newline gives tokens on that line, none of them a newline. */
  lemma ScanBody(body: string, lineno: int)
    requires NoNewline(body)
    ensures Scan(body, lineno).lineno == lineno
    ensures forall t :: t in Scan(body, lineno).tokens ==> t.lineno == lineno && t.kind != Newline
  {
    NewlineCountNoNewline(body);
    NoNewlineRun(Lex(body));
    NumberOneLine(Lex(body), lineno);
  }

  lemma ScanTerminatedLine(body: string, lineno: int)
    requires NoNewline(body)
    ensures Scan(body + "\n", lineno).tokens == Scan(body, lineno).tokens + [Token(Newline, "\n", lineno)]
    ensures Scan(body + "\n", lineno).lineno == lineno + 1
  {
    LexLine(body);
    NewlineCountNoNewline(body);
    NoNewlineRun(Lex(body));
    var nl := Lexeme(Tok(Newline), "\n");
    NumberAppend(Lex(body), nl, lineno);
  }
}
