/** Python's `int(s)` on decimal text and its inverse `str(n)`, as far as the
    assembler uses them: immediates and register numbers are read with `int`. */
module PyInt {
  import opened Results
  import opened Tokenizer

  function DigitValue(c: char): (d: nat)
    requires IsDigit(c)
    ensures d < 10
  {
    c as int - '0' as int
  }

  /** The value of a string of decimal digits, most significant first. */
  function Decimal(d: string): nat
    requires AllDigits(d)
  {
    if |d| == 0 then 0 else 10 * Decimal(d[..|d| - 1]) + DigitValue(d[|d| - 1])
  }

  /** `int(s)` for an optional sign followed by digits; None where Python raises
      ValueError on the spellings the assembler can meet. */
  function IntOf(s: string): Option<int> {
    if |s| >= 1 && AllDigits(s) then Some(Decimal(s))
    else if |s| >= 2 && s[0] == '+' && AllDigits(s[1..]) then Some(Decimal(s[1..]))
    else if |s| >= 2 && s[0] == '-' && AllDigits(s[1..]) then Some(0 - Decimal(s[1..]))
    else None
  }

  function DigitChar(d: nat): (c: char)
    requires d < 10
    ensures IsDigit(c) && DigitValue(c) == d
  {
    ('0' as int + d) as char
  }

  /** The shortest decimal numeral of n. */
  function Digits(n: nat): (r: string)
    ensures |r| >= 1 && AllDigits(r)
  {
    if n < 10 then [DigitChar(n)] else Digits(n / 10) + [DigitChar(n % 10)]
  }

  /** `str(n)`. */
  function DecimalText(n: int): string {
    if n >= 0 then Digits(n) else "-" + Digits(-n)
  }

  lemma {:induction false} DecimalDigits(n: nat)
    ensures Decimal(Digits(n)) == n
  {
    if n >= 10 {
      var d := Digits(n);
      assert d[..|d| - 1] == Digits(n / 10);
      DecimalDigits(n / 10);
    }
  }

  /** Every immediate the lexer produces is read by `int` ... */
  lemma ImmediateReads(t: string)
    requires IsImmediateText(t)
    ensures IntOf(t).Some?
  {
  }

  /** ... and every integer can be written as an immediate that reads back as it. */
  lemma DecimalTextRoundTrip(n: int)
    ensures IsImmediateText(DecimalText(n)) && IntOf(DecimalText(n)) == Some(n)
  {
    var m := if n >= 0 then n else -n;
    DecimalDigits(m);
    if n < 0 {
      assert DecimalText(n)[1..] == Digits(m);
    }
  }

  /** The number of a register lexeme `$d` or `$dd`: `int(r[1:])`. */
  function RegisterIndex(r: string): Option<int> {
    if |r| >= 1 then IntOf(r[1..]) else None
  }

  /** A register lexeme always reads as a number from 0 to 99. */
  lemma RegisterIndexRange(r: string)
    requires IsRegisterText(r)
    ensures RegisterIndex(r).Some? && 0 <= RegisterIndex(r).value <= 99
  {
    var d := r[1..];
    if |d| == 2 {
      assert d[..1] == [d[0]];
      assert Decimal(d[..1]) == DigitValue(d[0]) by {
        assert [d[0]][..0] == [];
      }
    } else {
      assert d[..0] == [];
      assert Decimal(d) == DigitValue(d[0]);
    }
  }
}
