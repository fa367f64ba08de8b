/**
 Decimal numerals: printing, parsing, and that parsing undoes printing.
 */
module Decimal {
  import opened Bytes

  predicate IsDigit(c: char) {
    '0' <= c <= '9'
  }

  function DigitChar(d: nat): (c: char)
    requires d < 10
    ensures IsDigit(c) && DigitValue(c) == d
  {
    '0' + d as char
  }

  function DigitValue(c: char): (d: nat)
    requires IsDigit(c)
    ensures d < 10
  {
    c as int - '0' as int
  }

  /** `str(n)` for a length or a counter. */
  function Print(n: nat): (s: string)
    ensures s != [] && forall i :: 0 <= i < |s| ==> IsDigit(s[i])
  {
    if n < 10 then [DigitChar(n)] else Print(n / 10) + [DigitChar(n % 10)]
  }

  /** The number that a string of ASCII digits stands for. */
  function Parse(s: string): Option<nat> {
    if s == [] || !IsDigit(s[|s| - 1]) then None
    else if |s| == 1 then Some(DigitValue(s[0]))
    else match Parse(s[..|s| - 1])
      case None => None
      case Some(n) => Some(n * 10 + DigitValue(s[|s| - 1]))
  }

  lemma {:induction false} ParsePrint(n: nat)
    ensures Parse(Print(n)) == Some(n)
  {
    if n >= 10 {
      ParsePrint(n / 10);
      assert Print(n)[..|Print(n)| - 1] == Print(n / 10);
    }
  }

  lemma PrintInjective(m: nat, n: nat)
    requires Print(m) == Print(n)
    ensures m == n
  {
    ParsePrint(m);
    ParsePrint(n);
  }

  /** `str(n)` for any integer. */
  function PrintInt(n: int): string {
    if n < 0 then "-" + Print(-n) else Print(n)
  }

  lemma PrintIntInjective(m: int, n: int)
    requires PrintInt(m) == PrintInt(n)
    ensures m == n
  {
    assert PrintInt(m)[0] == '-' <==> m < 0;
    assert PrintInt(n)[0] == '-' <==> n < 0;
    if m < 0 {
      assert PrintInt(m)[1..] == Print(-m) && PrintInt(n)[1..] == Print(-n);
      PrintInjective(-m, -n);
    } else {
      PrintInjective(m, n);
    }
  }

  /** Python's `int` on a string; None is the ValueError. All that is needed of it is that it reads
      printed integers back; what else it accepts (signs, blanks, underscores, other digits) is left open. */
  type IntParser = string -> Option<int>

  ghost predicate ReadsPrinted(toInt: IntParser) {
    forall i :: toInt(PrintInt(i)) == Some(i)
  }

  /** Reads what `PrintInt` prints. */
  function ParseInt(s: string): Option<int> {
    var negative := s != [] && s[0] == '-';
    match Parse(if negative then s[1..] else s)
    case None => None
    case Some(n) => Some(if negative then 0 - n else n)
  }

  lemma ParsePrintInt(i: int)
    ensures ParseInt(PrintInt(i)) == Some(i)
  {
    if i < 0 {
      ParsePrint(-i);
      assert PrintInt(i)[1..] == Print(-i);
    } else {
      ParsePrint(i);
      assert IsDigit(PrintInt(i)[0]);
    }
  }

  /** There is such a parser. */
  lemma ParseIntReadsPrinted()
    ensures ReadsPrinted(ParseInt)
  {
    forall i ensures ParseInt(PrintInt(i)) == Some(i) { ParsePrintInt(i); }
  }
}
