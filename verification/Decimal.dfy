/** Numbers as decimal text, the way the formatter prints them and the parsers read them back. */
module Decimal {
  import opened Wrappers

  predicate IsDigit(c: char) {
    '0' <= c <= '9'
  }

  function DigitOf(d: nat): (c: char)
    requires d < 10
    ensures IsDigit(c)
  {
    ('0' as int + d) as char
  }

  function ValueOf(c: char): nat
    requires IsDigit(c)
  {
    c as int - '0' as int
  }

  function Print(n: nat): (s: string)
    ensures s != [] && forall i :: 0 <= i < |s| ==> IsDigit(s[i])
  {
    if n < 10 then [DigitOf(n)] else Print(n / 10) + [DigitOf(n % 10)]
  }

  predicate AllDigits(s: string) {
    forall i :: 0 <= i < |s| ==> IsDigit(s[i])
  }

  function Value(s: string): nat
    requires AllDigits(s)
  {
    if s == [] then 0 else Value(s[..|s| - 1]) * 10 + ValueOf(s[|s| - 1])
  }

  lemma {:induction false} ValueOfPrint(n: nat)
    ensures Value(Print(n)) == n
    decreases n
  {
    if n < 10 {
      assert Print(n)[..0] == [];
    } else {
      ValueOfPrint(n / 10);
      var s := Print(n);
      assert s[..|s| - 1] == Print(n / 10) && s[|s| - 1] == DigitOf(n % 10);
    }
  }

  /** Nothing is printed that could be left out. */
  lemma {:induction false} PrintIsShortest(n: nat)
    ensures n == 0 ==> Print(n) == "0"
    ensures 0 < n ==> Print(n)[0] != '0'
    decreases n
  {
    if 10 <= n {
      PrintIsShortest(n / 10);
    }
  }

  /** A machine integer below `limit`: an optional plus sign and at least one digit. */
  function ParseUnsigned(s: string, limit: nat): (r: Option<nat>)
    ensures r.Some? ==> r.value < limit
  {
    var digits := if s != [] && s[0] == '+' then s[1..] else s;
    if digits != [] && AllDigits(digits) && Value(digits) < limit then Some(Value(digits)) else None
  }

  /** The text of a machine integer below `limit`. */
  ghost predicate IsUnsigned(s: string, limit: nat) {
    exists digits {:trigger AllDigits(digits)} ::
      (s == digits || s == "+" + digits) && digits != [] && AllDigits(digits) && Value(digits) < limit
  }

  lemma ParseUnsignedExactly(s: string, limit: nat)
    ensures ParseUnsigned(s, limit).Some? <==> IsUnsigned(s, limit)
  {
    var digits := if s != [] && s[0] == '+' then s[1..] else s;
    assert s == digits || s == "+" + digits;
    if IsUnsigned(s, limit) {
      var ds :| (s == ds || s == "+" + ds) && ds != [] && AllDigits(ds) && Value(ds) < limit;
      assert ds == digits;
    } else {
      assert !(AllDigits(digits) && digits != [] && Value(digits) < limit);
    }
  }

  /** A 256-bit integer: digits only, and no digits at all read as zero. */
  function ParseU256(s: string, limit: nat): (r: Option<nat>)
    ensures r.Some? ==> r.value < limit
  {
    if AllDigits(s) && Value(s) < limit then Some(Value(s)) else None
  }

  function PrintInt(n: int): string {
    if n < 0 then ['-'] + Print(-n) else Print(n)
  }

  /** An unbounded integer: an optional sign and at least one digit. */
  function ParseInt(s: string): Option<int> {
    var signed := s != [] && (s[0] == '+' || s[0] == '-');
    var digits := if signed then s[1..] else s;
    if digits == [] || !AllDigits(digits) then None
    else
      var v: int := Value(digits);
      Some(if signed && s[0] == '-' then -v else v)
  }

  lemma ParseUnsignedUndoesPrint(n: nat, limit: nat)
    ensures ParseUnsigned(Print(n), limit) == if n < limit then Some(n) else None
  {
    ValueOfPrint(n);
  }

  /** Printing as an unbounded integer and reading back as a bounded one, or the other way round. */
  lemma ParseUndoesPrint(n: int, limit: nat)
    ensures ParseInt(PrintInt(n)) == Some(n)
    ensures ParseU256(PrintInt(n), limit) == if 0 <= n < limit then Some(n as nat) else None
  {
    if 0 <= n {
      ValueOfPrint(n);
    } else {
      ValueOfPrint(-n);
      assert PrintInt(n)[1..] == Print(-n);
      assert !IsDigit(PrintInt(n)[0]);
    }
  }
}
