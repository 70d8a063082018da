/** The duration and time readers of the IR-to-SQL compiler. */
module Durations {
  import opened Basics
  import opened Decimal

  const U64_MAX: nat := 0xFFFF_FFFF_FFFF_FFFF

  datatype Result<+T> = Ok(value: T) | InvalidTimeExpression(expr: string) | InvalidResolution(text: string)

  /** Unicode `White_Space`, which `str::trim` strips. */
  predicate IsWhitespace(c: char) {
    '\t' <= c <= '\r' || c == ' ' || c == '\U{85}' || c == '\U{A0}' || c == '\U{1680}' || '\U{2000}' <= c <= '\U{200A}'
    || c == '\U{2028}' || c == '\U{2029}' || c == '\U{202F}' || c == '\U{205F}' || c == '\U{3000}'
  }

  lemma WhitespaceMeans(c: char)
    ensures IsWhitespace(c) <==>
              || c as int in {0x09, 0x0A, 0x0B, 0x0C, 0x0D, 0x20, 0x85, 0xA0, 0x1680, 0x2028, 0x2029, 0x202F, 0x205F,
                              0x3000}
              || 0x2000 <= c as int <= 0x200A
  {
  }

  function TrimStart(s: string): string {
    if s != [] && IsWhitespace(s[0]) then TrimStart(s[1..]) else s
  }

  function TrimEnd(s: string): (r: string)
    ensures r <= s
  {
    if s != [] && IsWhitespace(s[|s| - 1]) then TrimEnd(s[..|s| - 1]) else s
  }

  function Trim(s: string): string { TrimEnd(TrimStart(s)) }

  /** `str::parse::<u64>` on a run of digits. */
  function ParseU64(digits: string): Option<nat>
    requires AllDigits(digits)
  {
    if digits == [] || Value(digits) > U64_MAX then None else Some(Value(digits))
  }

  function ParseDurationStr(text: string): Option<(nat, string)> {
    var s := Trim(text);
    var at := DigitRun(s);
    if at == |s| || at == 0 then None
    else
      match ParseU64(s[..at])
      case None => None
      case Some(n) => Some((n, s[at..]))
  }

  function DurationUnitToCh(unit: string): Option<string> {
    if unit == "s" then Some("SECOND")
    else if unit == "m" then Some("MINUTE")
    else if unit == "h" then Some("HOUR")
    else if unit == "d" then Some("DAY")
    else None
  }

  function ParseInterval(s: string): Result<string> {
    match ParseDurationStr(s)
    case None => InvalidResolution(s)
    case Some((n, unit)) =>
      match DurationUnitToCh(unit)
      case None => InvalidResolution(s)
      case Some(ch) => Ok(Render(n) + " " + ch)
  }

  /** Seconds over exact numbers; the source multiplies in floating point. */
  function IntervalToSecs(s: string): Result<real> {
    match ParseDurationStr(s)
    case None => InvalidResolution(s)
    case Some((n, unit)) =>
      if unit == "s" then Ok(n as real * 1.0)
      else if unit == "m" then Ok(n as real * 60.0)
      else if unit == "h" then Ok(n as real * 3600.0)
      else if unit == "d" then Ok(n as real * 86400.0)
      else InvalidResolution(s)
  }

  function NanosPerUnit(unit: string): Option<nat> {
    if unit == "s" then Some(1_000_000_000)
    else if unit == "m" then Some(60_000_000_000)
    else if unit == "h" then Some(3_600_000_000_000)
    else if unit == "d" then Some(86_400_000_000_000)
    else None
  }

  const NOW: string := "toUnixTimestamp64Nano(now64())"

  function ParseTimeExpr(text: string): Result<string> {
    var expr := Trim(text);
    if expr == "now" then Ok(NOW)
    else if "now-" <= expr then
      match ParseDurationStr(expr[4..])
      case None => InvalidTimeExpression(expr)
      case Some((n, unit)) =>
        match NanosPerUnit(unit)
        case None => InvalidTimeExpression(expr)
        case Some(nanos) =>
          if n * nanos > U64_MAX then InvalidTimeExpression(expr) else Ok(NOW + " - " + Render(n * nanos))
    else if expr != [] && AllDigits(expr) then Ok(expr)
    else InvalidTimeExpression(expr)
  }

  /** `build_window_preceding_clause` */
  function BuildWindowPrecedingClause(window: string): Result<string> {
    match ParseTimeExpr("now-" + window)
    case Ok(from) => Ok("\n  AND mp.time_unix_nano >= " + from)
    case InvalidTimeExpression(e) => InvalidTimeExpression(e)
    case InvalidResolution(t) => InvalidResolution(t)
  }

  /* ----- trimming twice ----- */

  lemma {:induction false} TrimStartAfterEnd(s: string)
    ensures TrimEnd(TrimStart(TrimEnd(s))) == TrimEnd(TrimStart(s))
  {
    if s != [] && IsWhitespace(s[|s| - 1]) {
      TrimStartAfterEnd(s[..|s| - 1]);
      TrimStartDropLast(s);
    }
  }

  /** A blank at the end does not matter to a full trim. */
  lemma {:induction false} TrimStartDropLast(s: string)
    requires s != [] && IsWhitespace(s[|s| - 1])
    ensures TrimEnd(TrimStart(s[..|s| - 1])) == TrimEnd(TrimStart(s))
  {
    var front := s[..|s| - 1];
    if IsWhitespace(s[0]) {
      if front == [] {
        assert s[1..] == [];
      } else {
        assert front[1..] == s[1..][..|s[1..]| - 1];
        TrimStartDropLast(s[1..]);
      }
    } else {
      assert TrimStart(s) == s;
      assert front != [] && TrimStart(front) == front;
    }
  }

  lemma {:induction false} TrimEndAfter(a: string, s: string)
    requires a != [] && !IsWhitespace(a[|a| - 1])
    ensures TrimEnd(a + s) == a + TrimEnd(s)
  {
    if s == [] {
      assert a + s == a;
    } else if IsWhitespace(s[|s| - 1]) {
      TrimEndAfter(a, s[..|s| - 1]);
      assert (a + s)[..|a + s| - 1] == a + s[..|s| - 1];
    }
  }

  /** `now-` followed by `s`, trimmed, keeps `s` up to trimming. */
  lemma NowMinus(s: string)
    ensures Trim("now-" + s) == "now-" + TrimEnd(s)
    ensures ParseDurationStr(TrimEnd(s)) == ParseDurationStr(s)
  {
    assert ("now-" + s)[0] == 'n';
    assert TrimStart("now-" + s) == "now-" + s;
    TrimEndAfter("now-", s);
    TrimStartAfterEnd(s);
  }

  /* ----- what a duration is ----- */

  predicate AllBlank(s: string) { forall i | 0 <= i < |s| :: IsWhitespace(s[i]) }

  function UnitSeconds(unit: string): Option<nat> {
    match unit
    case "s" => Some(1)
    case "m" => Some(60)
    case "h" => Some(3600)
    case "d" => Some(86400)
    case _ => None
  }

  /** Blanks, a 64-bit number in decimal digits, a unit, blanks. */
  ghost predicate Spells(s: string, n: nat, unit: string) {
    exists before, digits, after ::
      && s == before + digits + unit + after && AllBlank(before) && AllBlank(after)
      && digits != "" && AllDigits(digits) && Value(digits) == n && n <= U64_MAX && UnitSeconds(unit).Some?
  }

  lemma {:induction false} TrimStartPart(s: string) returns (before: string)
    ensures s == before + TrimStart(s) && AllBlank(before)
    ensures TrimStart(s) == "" || !IsWhitespace(TrimStart(s)[0])
  {
    if s != [] && IsWhitespace(s[0]) {
      var rest := TrimStartPart(s[1..]);
      before := [s[0]] + rest;
    } else {
      before := "";
    }
  }

  lemma {:induction false} TrimEndPart(s: string) returns (after: string)
    ensures s == TrimEnd(s) + after && AllBlank(after)
  {
    if s != [] && IsWhitespace(s[|s| - 1]) {
      var rest := TrimEndPart(s[..|s| - 1]);
      after := rest + [s[|s| - 1]];
    } else {
      after := "";
    }
  }

  lemma {:induction false} TrimStartBlanks(before: string, s: string)
    requires AllBlank(before) && s != [] && !IsWhitespace(s[0])
    ensures TrimStart(before + s) == s
  {
    if before == [] {
      assert before + s == s;
    } else {
      assert IsWhitespace(before[0]);
      TrimStartBlanks(before[1..], s);
      assert (before + s)[1..] == before[1..] + s;
    }
  }

  lemma {:induction false} TrimEndBlanks(s: string, after: string)
    requires AllBlank(after) && s != [] && !IsWhitespace(s[|s| - 1])
    ensures TrimEnd(s + after) == s
  {
    if after == [] {
      assert s + after == s;
    } else {
      assert IsWhitespace(after[|after| - 1]);
      TrimEndBlanks(s, after[..|after| - 1]);
      assert (s + after)[..|s + after| - 1] == s + after[..|after| - 1];
    }
  }

  lemma TrimBlanks(before: string, s: string, after: string)
    requires AllBlank(before) && AllBlank(after) && s != []
    requires !IsWhitespace(s[0]) && !IsWhitespace(s[|s| - 1])
    ensures Trim(before + s + after) == s
  {
    assert before + s + after == before + (s + after);
    TrimStartBlanks(before, s + after);
    TrimEndBlanks(s, after);
  }

  lemma {:induction false} DigitRunOf(digits: string, rest: string)
    requires AllDigits(digits) && rest != "" && !IsDigit(rest[0])
    ensures DigitRun(digits + rest) == |digits|
  {
    if digits == "" {
      assert digits + rest == rest;
    } else {
      assert IsDigit(digits[0]);
      DigitRunOf(digits[1..], rest);
      assert (digits + rest)[1..] == digits[1..] + rest;
    }
  }

  lemma UnitIsLetter(unit: string)
    requires UnitSeconds(unit).Some?
    ensures |unit| == 1 && !IsDigit(unit[0]) && !IsWhitespace(unit[0])
  {
  }

  lemma ReadTrimmed(s: string, digits: string, unit: string)
    requires Trim(s) == digits + unit && digits != "" && AllDigits(digits) && Value(digits) <= U64_MAX
    requires unit != "" && !IsDigit(unit[0])
    ensures ParseDurationStr(s) == Some((Value(digits), unit))
  {
    hide Trim;
    DigitRunOf(digits, unit);
    assert (digits + unit)[..|digits|] == digits && (digits + unit)[|digits|..] == unit;
  }

  lemma TrimSpelled(before: string, digits: string, unit: string, after: string)
    requires AllBlank(before) && AllBlank(after) && digits != "" && AllDigits(digits) && UnitSeconds(unit).Some?
    ensures Trim(before + digits + unit + after) == digits + unit
  {
    UnitIsLetter(unit);
    assert IsDigit(digits[0]);
    assert (digits + unit)[0] == digits[0] && (digits + unit)[|digits + unit| - 1] == unit[0];
    Regroup(before, digits, unit, after);
    assert before + digits + unit + after == before + (digits + unit) + after;
    assert !IsWhitespace(digits[0]);
    hide *;
    TrimBlanks(before, digits + unit, after);
  }

  lemma SpelledIsRead(s: string, n: nat, unit: string)
    requires Spells(s, n, unit)
    ensures ParseDurationStr(s) == Some((n, unit)) && UnitSeconds(unit).Some?
  {
    var before, digits, after :|
      && s == before + digits + unit + after && AllBlank(before) && AllBlank(after)
      && digits != "" && AllDigits(digits) && Value(digits) == n && n <= U64_MAX && UnitSeconds(unit).Some?;
    UnitIsLetter(unit);
    hide *;
    TrimSpelled(before, digits, unit, after);
    ReadTrimmed(s, digits, unit);
  }

  lemma TrimParts(s: string) returns (before: string, after: string)
    ensures s == before + Trim(s) + after && AllBlank(before) && AllBlank(after)
  {
    before := TrimStartPart(s);
    after := TrimEndPart(TrimStart(s));
    var end := TrimEnd(TrimStart(s));
    assert before + (end + after) == before + end + after;
  }

  lemma ReadIsSpelled(s: string, n: nat, unit: string)
    requires ParseDurationStr(s) == Some((n, unit)) && UnitSeconds(unit).Some?
    ensures Spells(s, n, unit)
  {
    var before, after := TrimParts(s);
    hide Trim;
    var t := Trim(s);
    var digits := t[..DigitRun(t)];
    assert t == digits + unit;
    assert digits != "" && AllDigits(digits) && Value(digits) == n && n <= U64_MAX;
    Regroup(before, digits, unit, after);
    hide *;
    SpelledParts(s, before, digits, unit, after, n);
  }

  lemma SpelledParts(s: string, before: string, digits: string, unit: string, after: string, n: nat)
    requires s == before + (digits + unit) + after && AllBlank(before) && AllBlank(after)
    requires digits != "" && AllDigits(digits) && Value(digits) == n && n <= U64_MAX && UnitSeconds(unit).Some?
    ensures Spells(s, n, unit)
  {
    Regroup(before, digits, unit, after);
    hide AllBlank, AllDigits, Value, UnitSeconds;
  }

  lemma SecondsOfRead(s: string, n: nat, unit: string)
    requires ParseDurationStr(s) == Some((n, unit))
    ensures IntervalToSecs(s).Ok? <==> UnitSeconds(unit).Some?
    ensures UnitSeconds(unit).Some? ==> IntervalToSecs(s) == Ok(n as real * UnitSeconds(unit).value as real)
  {
    hide ParseDurationStr;
    if UnitSeconds(unit).Some? {
      var k := UnitSeconds(unit).value as real;
      SecondsPerUnit(unit);
      assert IntervalToSecs(s) == Ok(n as real * k);
    }
  }

  lemma SecondsPerUnit(unit: string)
    requires UnitSeconds(unit).Some?
    ensures UnitSeconds(unit).value as real
            == if unit == "s" then 1.0 else if unit == "m" then 60.0 else if unit == "h" then 3600.0 else 86400.0
    ensures unit == "s" || unit == "m" || unit == "h" || unit == "d"
  {
  }

  /** A duration is read exactly as it is spelled: the seconds are its number times those of its unit. */
  lemma SecondsIffSpelled(s: string, x: real)
    ensures IntervalToSecs(s) == Ok(x) <==>
              exists n, unit ::
                Spells(s, n, unit) && UnitSeconds(unit).Some? && x == n as real * UnitSeconds(unit).value as real
  {
    hide Spells;
    if IntervalToSecs(s) == Ok(x) {
      var (n, unit) := ParseDurationStr(s).value;
      SecondsOfRead(s, n, unit);
      ReadIsSpelled(s, n, unit);
    }
    hide ParseDurationStr, IntervalToSecs, UnitSeconds;
    if n, unit :| Spells(s, n, unit) && UnitSeconds(unit).Some? && x == n as real * UnitSeconds(unit).value as real {
      SpelledIsRead(s, n, unit);
      SecondsOfRead(s, n, unit);
    }
  }

  /* ----- the three readers agree ----- */

  /** A reader of the intervals of SQL: a number, a blank and the name of a unit; the result is in seconds. */
  function ReadInterval(text: string): Option<nat> {
    var at := DigitRun(text);
    if at == 0 || at == |text| || text[at] != ' ' then None
    else
      match text[at + 1..]
      case "SECOND" => Some(Value(text[..at]))
      case "MINUTE" => Some(Value(text[..at]) * 60)
      case "HOUR" => Some(Value(text[..at]) * 3600)
      case "DAY" => Some(Value(text[..at]) * 86400)
      case _ => None
  }

  lemma ReadPrinted(n: nat, name: string)
    ensures DigitRun(Render(n) + " " + name) == |Render(n)|
    ensures (Render(n) + " " + name)[..|Render(n)|] == Render(n)
    ensures (Render(n) + " " + name)[|Render(n)|] == ' '
    ensures (Render(n) + " " + name)[|Render(n)| + 1..] == name
  {
    var w := Render(n);
    assert w + " " + name == w + (" " + name);
    DigitRunOf(w, " " + name);
  }

  lemma PrintedUnit(unit: string)
    ensures DurationUnitToCh(unit).Some? <==> UnitSeconds(unit).Some?
    ensures forall n: nat | DurationUnitToCh(unit).Some? ::
              ReadInterval(Render(n) + " " + DurationUnitToCh(unit).value) == Some(n * UnitSeconds(unit).value)
  {
    assert "m" != "s" && "h" != "s" && "d" != "s" && "h" != "m" && "d" != "m" && "d" != "h";
    assert "SECOND" != "MINUTE" && "SECOND" != "HOUR" && "SECOND" != "DAY" && "MINUTE" != "HOUR" && "MINUTE" != "DAY"
      && "HOUR" != "DAY";
    forall n: nat | DurationUnitToCh(unit).Some?
      ensures ReadInterval(Render(n) + " " + DurationUnitToCh(unit).value) == Some(n * UnitSeconds(unit).value) {
      ReadPrinted(n, DurationUnitToCh(unit).value);
      ValueOfRender(n);
    }
  }

  /** Resolutions are accepted as an interval exactly when they are accepted as a number of seconds, and the interval
      that is printed is read as just those seconds. */
  lemma IntervalIffSeconds(s: string)
    ensures ParseInterval(s).Ok? <==> IntervalToSecs(s).Ok?
    ensures ParseInterval(s).Ok? ==>
              && ReadInterval(ParseInterval(s).value).Some?
              && ReadInterval(ParseInterval(s).value).value as real == IntervalToSecs(s).value
  {
    if ParseDurationStr(s).Some? {
      var (n, unit) := ParseDurationStr(s).value;
      PrintedUnit(unit);
      hide ReadInterval, Render, ParseDurationStr;
    }
  }

  lemma UnitFactors(n: nat, unit: string)
    ensures NanosPerUnit(unit).Some? <==> DurationUnitToCh(unit).Some?
    ensures unit == "s" ==> (n * 1_000_000_000) as real == 1_000_000_000.0 * (n as real * 1.0)
    ensures unit == "m" ==> (n * 60_000_000_000) as real == 1_000_000_000.0 * (n as real * 60.0)
    ensures unit == "h" ==> (n * 3_600_000_000_000) as real == 1_000_000_000.0 * (n as real * 3600.0)
    ensures unit == "d" ==> (n * 86_400_000_000_000) as real == 1_000_000_000.0 * (n as real * 86400.0)
  {
  }

  /** The offset of `now-s` in nanoseconds, if the duration is readable at all. */
  ghost function Nanoseconds(s: string): Option<nat> {
    match ParseDurationStr(s)
    case None => None
    case Some((n, unit)) =>
      match NanosPerUnit(unit)
      case None => None
      case Some(k) => Some(n * k)
  }

  lemma NanosecondsAreSeconds(s: string)
    ensures Nanoseconds(s).Some? <==> IntervalToSecs(s).Ok?
    ensures Nanoseconds(s).Some? ==> Nanoseconds(s).value as real == 1_000_000_000.0 * IntervalToSecs(s).value
  {
    match ParseDurationStr(s)
    case None =>
    case Some((n, unit)) => UnitFactors(n, unit);
  }

  lemma TimeExprIsNanoseconds(s: string)
    ensures ParseTimeExpr("now-" + s).Ok? <==> Nanoseconds(s).Some? && Nanoseconds(s).value <= U64_MAX
    ensures ParseTimeExpr("now-" + s).Ok?
            ==> ParseTimeExpr("now-" + s) == Ok(NOW + " - " + Render(Nanoseconds(s).value))
  {
    NowMinus(s);
    var expr := "now-" + TrimEnd(s);
    assert expr[4..] == TrimEnd(s) && "now-" <= expr;
    assert expr[3] == '-' && expr != "now";
  }

  /** For every text, `now-` followed by it is accepted exactly when it is a readable number of seconds whose
      nanoseconds fit 64 bits, and then the printed offset is exactly those nanoseconds. */
  lemma TimeExprAgrees(s: string)
    ensures ParseTimeExpr("now-" + s).Ok? <==>
              IntervalToSecs(s).Ok? && 1_000_000_000.0 * IntervalToSecs(s).value <= U64_MAX as real
    ensures ParseTimeExpr("now-" + s).Ok? ==>
              exists offset: nat :: ParseTimeExpr("now-" + s) == Ok(NOW + " - " + Render(offset))
                && offset <= U64_MAX && offset as real == 1_000_000_000.0 * IntervalToSecs(s).value
  {
    NanosecondsAreSeconds(s);
    TimeExprIsNanoseconds(s);
  }

  /** Between blanks, `now` is the clock and a number stands for itself. */
  lemma LiteralTimes(before: string, digits: string, after: string)
    requires AllBlank(before) && AllBlank(after) && digits != "" && AllDigits(digits)
    ensures ParseTimeExpr(before + "now" + after) == Ok(NOW)
    ensures ParseTimeExpr(before + digits + after) == Ok(digits)
  {
    assert IsDigit(digits[0]) && IsDigit(digits[|digits| - 1]);
    TrimBlanks(before, "now", after);
    TrimBlanks(before, digits, after);
    assert !("now-" <= digits) by { assert "now-"[0] == 'n'; }
    assert digits != "now" by { assert "now"[0] == 'n'; }
    hide Trim;
  }

  /** Trimmed of blanks, a time expression is `now`, a number, or `now-` and a duration whose nanoseconds fit 64 bits;
      nothing else is accepted. */
  lemma TimeExprAccepted(before: string, expr: string, after: string)
    requires AllBlank(before) && AllBlank(after) && expr != "" && !IsWhitespace(expr[0])
             && !IsWhitespace(expr[|expr| - 1])
    ensures ParseTimeExpr(before + expr + after).Ok? <==>
              || expr == "now" || AllDigits(expr)
              || ("now-" <= expr
                  && IntervalToSecs(expr[4..]).Ok?
                  && 1_000_000_000.0 * IntervalToSecs(expr[4..]).value <= U64_MAX as real)
    ensures ParseTimeExpr(before + expr + after).Ok?
            || ParseTimeExpr(before + expr + after) == InvalidTimeExpression(expr)
  {
    TrimBlanks(before, expr, after);
    if "now-" <= expr {
      assert expr == "now-" + expr[4..];
      NanosecondsAreSeconds(expr[4..]);
      assert expr[0] == 'n' && !IsDigit(expr[0]);
    }
    hide Trim, ParseDurationStr, IntervalToSecs;
  }

  /** A lookback window is accepted exactly when it is a readable number of seconds that fits, and then keeps the points
      from that many nanoseconds ago on. */
  lemma WindowAccepted(window: string)
    ensures BuildWindowPrecedingClause(window).Ok? <==>
              IntervalToSecs(window).Ok? && 1_000_000_000.0 * IntervalToSecs(window).value <= U64_MAX as real
    ensures BuildWindowPrecedingClause(window).Ok? ==>
              exists offset: nat ::
                && BuildWindowPrecedingClause(window)
                   == Ok("\n  AND mp.time_unix_nano >= " + (NOW + " - " + Render(offset)))
                && offset as real == 1_000_000_000.0 * IntervalToSecs(window).value
  {
    hide ParseTimeExpr, IntervalToSecs, Render, Nanoseconds;
    TimeExprAgrees(window);
    NanosecondsAreSeconds(window);
    TimeExprIsNanoseconds(window);
  }
}
