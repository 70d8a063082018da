/** Decimal rendering and reading of natural numbers. */
module Decimal {

  predicate IsDigit(c: char) { '0' <= c <= '9' }

  predicate AllDigits(s: string) { forall i | 0 <= i < |s| :: IsDigit(s[i]) }

  /** Length of the run of digits at the front. */
  function DigitRun(s: string): (n: nat)
    ensures n <= |s| && AllDigits(s[..n]) && (n < |s| ==> !IsDigit(s[n]))
  {
    if s == [] || !IsDigit(s[0]) then 0 else 1 + DigitRun(s[1..])
  }

  function DigitChar(d: nat): (c: char)
    requires d < 10
    ensures IsDigit(c) && c as int - '0' as int == d
  {
    '0' + (d as char)
  }

  function DigitValue(c: char): nat
    requires IsDigit(c)
  {
    c as int - '0' as int
  }

  /** Rust's `to_string` and Python's `str` on a natural number. */
  function Render(n: nat): (s: string)
    ensures s != [] && AllDigits(s)
  {
    if n < 10 then [DigitChar(n)] else Render(n / 10) + [DigitChar(n % 10)]
  }

  /** The number a run of digits stands for; leading zeros are allowed. */
  function Value(s: string): nat
    requires AllDigits(s)
  {
    if s == [] then 0 else Value(s[..|s| - 1]) * 10 + DigitValue(s[|s| - 1])
  }

  lemma {:induction false} ValueOfRender(n: nat)
    ensures Value(Render(n)) == n
  {
    if n >= 10 {
      ValueOfRender(n / 10);
      assert Render(n)[..|Render(n)| - 1] == Render(n / 10);
    }
  }

  lemma RenderInjective(m: nat, n: nat)
    requires Render(m) == Render(n)
    ensures m == n
  {
    ValueOfRender(m);
    ValueOfRender(n);
  }

  /* ----- Python's `int` on ASCII text ----- */

  predicate IsSpace(c: char) {
    '\t' <= c <= '\r' || c == ' ' || '\U{1c}' <= c <= '\U{1f}'
  }

  /** The blanks of ASCII text: tab to carriage return, the four separators and the space. */
  lemma SpaceMeans(c: char)
    ensures IsSpace(c) <==> c as int in {0x09, 0x0A, 0x0B, 0x0C, 0x0D, 0x1C, 0x1D, 0x1E, 0x1F, 0x20}
  {
  }

  function StripLeft(s: string): (r: string)
    ensures r == [] || !IsSpace(r[0])
  {
    if s != [] && IsSpace(s[0]) then StripLeft(s[1..]) else s
  }

  function StripRight(s: string): (r: string)
    ensures r == [] || !IsSpace(r[|r| - 1])
    ensures r <= s
  {
    if s != [] && IsSpace(s[|s| - 1]) then StripRight(s[..|s| - 1]) else s
  }

  function Strip(s: string): string { StripRight(StripLeft(s)) }

  /** Digits in groups joined by single underscores. */
  predicate IsGrouped(s: string) {
    s != [] && IsDigit(s[0]) && IsDigit(s[|s| - 1])
    && (forall i | 0 <= i < |s| :: IsDigit(s[i]) || s[i] == '_')
    && (forall i | 0 <= i < |s| - 1 :: s[i] == '_' ==> s[i + 1] != '_')
  }

  function DropUnderscores(s: string): (r: string)
    requires forall i | 0 <= i < |s| :: IsDigit(s[i]) || s[i] == '_'
    ensures AllDigits(r)
  {
    if s == [] then [] else (if s[0] == '_' then [] else [s[0]]) + DropUnderscores(s[1..])
  }

  datatype IntResult = IntOk(value: int) | IntError

  function PyInt(text: string): IntResult {
    var s := Strip(text);
    var negative := s != [] && s[0] == '-';
    var body := if s != [] && (s[0] == '-' || s[0] == '+') then s[1..] else s;
    if !IsGrouped(body) then IntError
    else if negative then IntOk(-(Value(DropUnderscores(body)) as int))
    else IntOk(Value(DropUnderscores(body)))
  }

  lemma {:induction false} DropUnderscoresDigits(s: string)
    requires AllDigits(s)
    ensures DropUnderscores(s) == s
  {
    if s != [] { DropUnderscoresDigits(s[1..]); }
  }

  lemma StripDigits(s: string)
    requires s != [] && AllDigits(s)
    ensures Strip(s) == s
  {
    assert IsDigit(s[0]) && IsDigit(s[|s| - 1]);
    assert StripLeft(s) == s;
  }

  lemma PyIntOfDigits(s: string)
    requires s != [] && AllDigits(s)
    ensures PyInt(s) == IntOk(Value(s))
  {
    StripDigits(s);
    DropUnderscoresDigits(s);
    DigitsAreGrouped(s);
    assert IsDigit(s[0]);
    assert s[0] != '-' && s[0] != '+';
    hide Strip, IsGrouped, Value, DropUnderscores, IsDigit, AllDigits;
  }

  lemma DigitsAreGrouped(s: string)
    requires s != [] && AllDigits(s)
    ensures IsGrouped(s)
  {
    hide Value, Strip;
    assert forall i | 0 <= i < |s| :: IsDigit(s[i]);
  }

  /** `int(str(n)) == n` */
  lemma PyIntOfRender(n: nat)
    ensures PyInt(Render(n)) == IntOk(n)
  {
    PyIntOfDigits(Render(n));
    ValueOfRender(n);
  }
}
