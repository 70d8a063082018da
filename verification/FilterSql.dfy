/** The filter part of the IR-to-SQL compiler, and a reader of the SQL it prints. */
module FilterSql {
  import opened Basics

  /* ----- the printer ----- */

  /** `s.replace(c, r)` for a single character `c`. */
  function Replace(s: string, c: char, r: string): string {
    if s == [] then [] else (if s[0] == c then r else [s[0]]) + Replace(s[1..], c, r)
  }

  function EscapeStringValue(s: string): string {
    Replace(Replace(s, '\\', "\\\\"), '\'', "\\'")
  }

  datatype Op = Eq | Ne | Re | Nre | Gt | Gte | Lt | Lte

  predicate IsStringOp(op: Op) { op == Eq || op == Ne || op == Re || op == Nre }

  datatype Filter = Filter(field: string, op: Op, value: string)

  datatype Result<+T> = Ok(value: T) | InvalidFilterValue(col: string)

  function MapFilterField(field: string): string {
    if field == "service_name" || field == "service" then "ms.service_name"
    else if field == "environment" || field == "env" then "ms.environment"
    else if field == "metric_name" || field == "metric" then "ms.metric_name"
    else "JSONExtractString(ms.attributes, '" + EscapeStringValue(field) + "')"
  }

  function CharLength(c: char): nat {
    if c as int < 0x80 then 1 else if c as int < 0x800 then 2 else if c as int < 0x10000 then 3 else 4
  }

  /** Length of the UTF-8 encoding, which is what `str::len` counts. */
  function Utf8Length(s: string): nat {
    if s == [] then 0 else CharLength(s[0]) + Utf8Length(s[1..])
  }

  /** The UTF-8 encoding of a character, section 3 of RFC 3629. */
  function Utf8Char(c: char): Bytes {
    var n := c as int;
    if n < 0x80 then [n]
    else if n < 0x800 then [0xC0 + n / 0x40, 0x80 + n % 0x40]
    else if n < 0x10000 then [0xE0 + n / 0x1000, 0x80 + n / 0x40 % 0x40, 0x80 + n % 0x40]
    else [0xF0 + n / 0x40000, 0x80 + n / 0x1000 % 0x40, 0x80 + n / 0x40 % 0x40, 0x80 + n % 0x40]
  }

  function Utf8(s: string): Bytes { if s == [] then [] else Utf8Char(s[0]) + Utf8(s[1..]) }

  lemma {:induction false} LengthOfUtf8(s: string)
    ensures |Utf8(s)| == Utf8Length(s)
  {
    if s != [] { LengthOfUtf8(s[1..]); }
  }

  /** `numeric` reads a value as a floating-point number and renders it back. */
  function BuildFilterExpr(col: string, op: Op, value: string, numeric: string -> Option<string>): Result<string> {
    var escaped := EscapeStringValue(value);
    match op
    case Eq => Ok(col + " = '" + escaped + "'")
    case Ne => Ok(col + " != '" + escaped + "'")
    case Re => if Utf8Length(value) <= 256 then Ok("match(" + col + ", '" + escaped + "')") else InvalidFilterValue(col)
    case Nre => if Utf8Length(value) <= 256 then Ok("NOT match(" + col + ", '" + escaped + "')")
      else InvalidFilterValue(col)
    case _ =>
      match numeric(value)
      case None => InvalidFilterValue(col)
      case Some(n) =>
        Ok(col + (if op == Gt then " > " else if op == Gte then " >= " else if op == Lt then " < " else " <= ") + n)
  }

  function BuildFilterClauses(filters: seq<Filter>, numeric: string -> Option<string>): Result<string> {
    if filters == [] then Ok("")
    else
      var f := filters[0];
      match BuildFilterExpr(MapFilterField(f.field), f.op, f.value, numeric)
      case InvalidFilterValue(c) => InvalidFilterValue(c)
      case Ok(expr) =>
        match BuildFilterClauses(filters[1..], numeric)
        case InvalidFilterValue(c) => InvalidFilterValue(c)
        case Ok(rest) => Ok("\n  AND (" + expr + ")" + rest)
  }

  /* ----- the reader: a lexer and a parser of the printed fragment of SQL ----- */

  datatype Token = Word(text: string) | Str(value: string) | Sym(c: char)

  predicate IsWordChar(c: char) {
    'a' <= c <= 'z' || 'A' <= c <= 'Z' || '0' <= c <= '9' || c == '_' || c == '.'
  }

  predicate IsBlank(c: char) { c == ' ' || c == '\n' || c == '\t' || c == '\r' }

  /** Length of the run of word characters at the front. */
  function WordLength(s: string): (n: nat)
    ensures n <= |s| && (n < |s| ==> !IsWordChar(s[n]))
    ensures forall i | 0 <= i < n :: IsWordChar(s[i])
  {
    if s == [] || !IsWordChar(s[0]) then 0 else 1 + WordLength(s[1..])
  }

  function Unescaped(c: char): char {
    match c
    case 'n' => '\n'
    case 't' => '\t'
    case 'r' => '\r'
    case '0' => '\0'
    case _ => c
  }

  /** The inside of a string literal, up to its closing quote: a backslash escapes the next character and a doubled
      quote stands for one quote. */
  function ReadString(s: string): Option<(string, string)> {
    if s == [] then None
    else if s[0] == '\\' then
      if |s| == 1 then None
      else
        match ReadString(s[2..])
        case Some((v, rest)) => Some(([Unescaped(s[1])] + v, rest))
        case None => None
    else if s[0] == '\'' then
      if |s| > 1 && s[1] == '\'' then
        match ReadString(s[2..])
        case Some((v, rest)) => Some((['\''] + v, rest))
        case None => None
      else Some(([], s[1..]))
    else
      match ReadString(s[1..])
      case Some((v, rest)) => Some(([s[0]] + v, rest))
      case None => None
  }

  lemma {:induction false} ReadStringShrinks(s: string)
    ensures ReadString(s).Some? ==> |ReadString(s).value.1| < |s|
  {
    if s != [] {
      if |s| > 1 { ReadStringShrinks(s[2..]); }
      ReadStringShrinks(s[1..]);
    }
  }

  function Cons(t: Token, rest: Option<seq<Token>>): Option<seq<Token>> {
    match rest
    case Some(ts) => Some([t] + ts)
    case None => None
  }

  function Lex(s: string): Option<seq<Token>>
    decreases |s|
  {
    if s == [] then Some([])
    else if IsBlank(s[0]) then Lex(s[1..])
    else if s[0] == '\'' then
      match ReadString(s[1..])
      case None => None
      case Some((v, rest)) =>
        ReadStringShrinks(s[1..]);
        Cons(Str(v), Lex(rest))
    else if IsWordChar(s[0]) then
      var n := WordLength(s);
      Cons(Word(s[..n]), Lex(s[n..]))
    else Cons(Sym(s[0]), Lex(s[1..]))
  }

  /** What a column means: a direct column, or an attribute of the series looked up by name. */
  datatype Column = Direct(name: string) | Attribute(name: string)

  datatype Predicate = Predicate(col: Column, op: Op, value: string)

  function ParseColumn(ts: seq<Token>): Option<(Column, seq<Token>)> {
    if |ts| >= 6 && ts[0] == Word("JSONExtractString") && ts[1] == Sym('(') && ts[2] == Word("ms.attributes")
       && ts[3] == Sym(',') && ts[4].Str? && ts[5] == Sym(')') then Some((Attribute(ts[4].value), ts[6..]))
    else if |ts| >= 1 && ts[0].Word? then Some((Direct(ts[0].text), ts[1..]))
    else None
  }

  function ParseMatch(ts: seq<Token>, op: Op): Option<(Predicate, seq<Token>)> {
    if |ts| >= 2 && ts[0] == Word("match") && ts[1] == Sym('(') then
      match ParseColumn(ts[2..])
      case None => None
      case Some((col, rest)) =>
        if |rest| >= 3 && rest[0] == Sym(',') && rest[1].Str? && rest[2] == Sym(')')
        then Some((Predicate(col, op, rest[1].value), rest[3..])) else None
    else None
  }

  /** A word, perhaps after a minus sign. */
  function ParseNumeral(ts: seq<Token>): Option<(string, seq<Token>)> {
    if |ts| >= 2 && ts[0] == Sym('-') && ts[1].Word? then Some(("-" + ts[1].text, ts[2..]))
    else if |ts| >= 1 && ts[0].Word? then Some((ts[0].text, ts[1..]))
    else None
  }

  function ParseOrdering(ts: seq<Token>): Option<(Op, seq<Token>)> {
    if |ts| >= 2 && ts[0] == Sym('>') && ts[1] == Sym('=') then Some((Gte, ts[2..]))
    else if |ts| >= 2 && ts[0] == Sym('<') && ts[1] == Sym('=') then Some((Lte, ts[2..]))
    else if |ts| >= 1 && ts[0] == Sym('>') then Some((Gt, ts[1..]))
    else if |ts| >= 1 && ts[0] == Sym('<') then Some((Lt, ts[1..]))
    else None
  }

  function ParseComparison(col: Column, ts: seq<Token>): Option<(Predicate, seq<Token>)> {
    match ParseOrdering(ts)
    case None => None
    case Some((op, rest)) =>
      match ParseNumeral(rest)
      case None => None
      case Some((value, tail)) => Some((Predicate(col, op, value), tail))
  }

  function ParsePredicate(ts: seq<Token>): Option<(Predicate, seq<Token>)> {
    if |ts| >= 1 && ts[0] == Word("NOT") then ParseMatch(ts[1..], Nre)
    else if |ts| >= 1 && ts[0] == Word("match") then ParseMatch(ts, Re)
    else
      match ParseColumn(ts)
      case None => None
      case Some((col, rest)) =>
        if |rest| >= 2 && rest[0] == Sym('=') && rest[1].Str? then Some((Predicate(col, Eq, rest[1].value), rest[2..]))
        else if |rest| >= 3 && rest[0] == Sym('!') && rest[1] == Sym('=') && rest[2].Str? then
          Some((Predicate(col, Ne, rest[2].value), rest[3..]))
        else ParseComparison(col, rest)
  }

  /** A sequence of `AND ( predicate )`, and what follows it. */
  function ParseClauses(ts: seq<Token>): (seq<Predicate>, seq<Token>)
    decreases |ts|
  {
    if |ts| >= 2 && ts[0] == Word("AND") && ts[1] == Sym('(') then
      match ParsePredicate(ts[2..])
      case Some((p, rest)) =>
        if |rest| >= 1 && rest[0] == Sym(')') && |rest| < |ts| then
          var (ps, tail) := ParseClauses(rest[1..]);
          ([p] + ps, tail)
        else ([], ts)
      case None => ([], ts)
    else ([], ts)
  }

  /* ----- the intended meaning ----- */

  function Meaning(f: Filter): Predicate {
    var col :=
      if f.field == "service_name" || f.field == "service" then Direct("ms.service_name")
      else if f.field == "environment" || f.field == "env" then Direct("ms.environment")
      else if f.field == "metric_name" || f.field == "metric" then Direct("ms.metric_name")
      else Attribute(f.field);
    Predicate(col, f.op, f.value)
  }

  /** A filter with the value that is printed: a numeric operator compares with the rendered number. */
  function Rendered(f: Filter, numeric: string -> Option<string>): Filter {
    if IsStringOp(f.op) || numeric(f.value) == None then f else f.(value := numeric(f.value).value)
  }

  function RenderedAll(filters: seq<Filter>, numeric: string -> Option<string>): (fs: seq<Filter>)
    ensures |fs| == |filters| && forall i | 0 <= i < |fs| :: fs[i] == Rendered(filters[i], numeric)
  {
    seq(|filters|, i requires 0 <= i < |filters| => Rendered(filters[i], numeric))
  }

  function Meanings(filters: seq<Filter>): (ps: seq<Predicate>)
    ensures |ps| == |filters| && forall i | 0 <= i < |ps| :: ps[i] == Meaning(filters[i])
  {
    seq(|filters|, i requires 0 <= i < |filters| => Meaning(filters[i]))
  }

  /* ----- the two replaces are one character map ----- */

  function EscapeChar(c: char): string {
    if c == '\\' then "\\\\" else if c == '\'' then "\\'" else [c]
  }

  function EscapeEach(s: string): string {
    if s == [] then [] else EscapeChar(s[0]) + EscapeEach(s[1..])
  }

  lemma {:induction false} ReplaceConcat(a: string, b: string, c: char, r: string)
    ensures Replace(a + b, c, r) == Replace(a, c, r) + Replace(b, c, r)
  {
    if a == [] {
      assert a + b == b;
    } else {
      ReplaceConcat(a[1..], b, c, r);
      assert (a + b)[1..] == a[1..] + b;
      Associate(if a[0] == c then r else [a[0]], Replace(a[1..], c, r), Replace(b, c, r));
    }
  }

  lemma EscapeOneChar(c: char)
    ensures Replace(if c == '\\' then "\\\\" else [c], '\'', "\\'") == EscapeChar(c)
  {
    if c == '\\' {
      assert "\\\\"[1..] == "\\" && "\\"[1..] == "";
      assert Replace("\\", '\'', "\\'") == "\\";
    }
  }

  /** Escaping backslashes first and quotes second is the same as escaping each character once. */
  lemma {:induction false} EscapeIsCharMap(s: string)
    ensures EscapeStringValue(s) == EscapeEach(s)
  {
    if s != [] {
      var first := if s[0] == '\\' then "\\\\" else [s[0]];
      ReplaceConcat(first, Replace(s[1..], '\\', "\\\\"), '\'', "\\'");
      EscapeOneChar(s[0]);
      EscapeIsCharMap(s[1..]);
    }
  }

  lemma ReadEscapedChar(c: char, tail: string, v: string, rest: string)
    requires ReadString(tail) == Some((v, rest))
    ensures ReadString(EscapeChar(c) + tail) == Some(([c] + v, rest))
  {
    assert (EscapeChar(c) + tail)[|EscapeChar(c)|..] == tail;
  }

  lemma {:induction false} ReadEscapedEach(s: string, rest: string)
    requires rest == [] || rest[0] != '\''
    ensures ReadString(EscapeEach(s) + "'" + rest) == Some((s, rest))
  {
    if s == [] {
      assert EscapeEach(s) + "'" + rest == "'" + rest;
      assert ("'" + rest)[1..] == rest;
    } else {
      var tail := EscapeEach(s[1..]) + "'" + rest;
      ReadEscapedEach(s[1..], rest);
      ReadEscapedChar(s[0], tail, s[1..], rest);
      assert EscapeEach(s) + "'" + rest == EscapeChar(s[0]) + tail;
      assert s == [s[0]] + s[1..];
    }
  }

  /** The literal reader inverts the escape on any text and stops at the closing quote. */
  lemma ReadEscaped(s: string, rest: string)
    requires rest == [] || rest[0] != '\''
    ensures ReadString(EscapeStringValue(s) + "'" + rest) == Some((s, rest))
  {
    EscapeIsCharMap(s);
    ReadEscapedEach(s, rest);
  }

  /* ----- lexing what is printed ----- */

  function Prepend(ts: seq<Token>, rest: Option<seq<Token>>): Option<seq<Token>> {
    match rest
    case Some(more) => Some(ts + more)
    case None => None
  }

  /** In front of `rest`, the text is read as `ts` and leaves the reading of `rest` as it is. */
  ghost predicate Lexes(text: string, ts: seq<Token>, rest: string) {
    Lex(text + rest) == Prepend(ts, Lex(rest))
  }

  lemma LexesTwo(a: string, ts: seq<Token>, b: string, us: seq<Token>, rest: string)
    requires Lexes(a, ts, b + rest) && Lexes(b, us, rest)
    ensures Lexes(a + b, ts + us, rest)
  {
    assert (a + b) + rest == a + (b + rest);
    if Lex(rest).Some? { assert (ts + us) + Lex(rest).value == ts + (us + Lex(rest).value); }
  }

  lemma LexNothing(rest: string)
    ensures Lexes("", [], rest)
  {
    assert "" + rest == rest;
    if Lex(rest).Some? { assert [] + Lex(rest).value == Lex(rest).value; }
  }

  lemma LexBlank(c: char, rest: string)
    requires IsBlank(c)
    ensures Lexes([c], [], rest)
  {
    assert ([c] + rest)[1..] == rest;
    if Lex(rest).Some? { assert [] + Lex(rest).value == Lex(rest).value; }
  }

  lemma LexSym(c: char, rest: string)
    requires !IsBlank(c) && c != '\'' && !IsWordChar(c)
    ensures Lexes([c], [Sym(c)], rest)
  {
    assert ([c] + rest)[1..] == rest;
  }

  lemma {:induction false} WordRun(w: string, rest: string)
    requires (forall i | 0 <= i < |w| :: IsWordChar(w[i])) && (rest == [] || !IsWordChar(rest[0]))
    ensures WordLength(w + rest) == |w|
  {
    if w == [] {
      assert w + rest == rest;
    } else {
      WordRun(w[1..], rest);
      assert (w + rest)[1..] == w[1..] + rest;
    }
  }

  ghost predicate IsWord(w: string) { w != [] && forall i | 0 <= i < |w| :: IsWordChar(w[i]) }

  lemma LexWord(w: string, rest: string)
    requires IsWord(w) && (rest == [] || !IsWordChar(rest[0]))
    ensures Lexes(w, [Word(w)], rest)
  {
    WordRun(w, rest);
    assert (w + rest)[..|w|] == w && (w + rest)[|w|..] == rest;
    assert IsWordChar((w + rest)[0]);
  }

  lemma LexString(v: string, rest: string)
    requires rest == [] || rest[0] != '\''
    ensures Lexes("'" + EscapeStringValue(v) + "'", [Str(v)], rest)
  {
    var text := "'" + EscapeStringValue(v) + "'" + rest;
    assert text[1..] == EscapeStringValue(v) + "'" + rest;
    ReadEscaped(v, rest);
  }

  /** A word, then a symbol that is not a word character. */
  lemma LexWordSym(w: string, c: char, rest: string)
    requires IsWord(w) && !IsBlank(c) && c != '\'' && !IsWordChar(c)
    ensures Lexes(w + [c], [Word(w), Sym(c)], rest)
  {
    LexSym(c, rest);
    LexWord(w, [c] + rest);
    LexesTwo(w, [Word(w)], [c], [Sym(c)], rest);
    assert [Word(w)] + [Sym(c)] == [Word(w), Sym(c)];
  }

  /** A symbol, a blank, a quoted value and a closing parenthesis. */
  lemma LexQuoted(c: char, v: string, rest: string)
    requires !IsBlank(c) && c != '\'' && !IsWordChar(c)
    ensures Lexes([c] + " '" + EscapeStringValue(v) + "')", [Sym(c), Str(v), Sym(')')], rest)
  {
    var quoted := "'" + EscapeStringValue(v) + "'";
    LexSym(')', rest);
    LexString(v, ")" + rest);
    LexesTwo(quoted, [Str(v)], ")", [Sym(')')], rest);
    LexBlank(' ', (quoted + ")") + rest);
    LexesTwo(" ", [], quoted + ")", [Str(v)] + [Sym(')')], rest);
    LexSym(c, (" " + (quoted + ")")) + rest);
    LexesTwo([c], [Sym(c)], " " + (quoted + ")"), [] + ([Str(v)] + [Sym(')')]), rest);
    assert [c] + (" " + (quoted + ")")) == [c] + " '" + EscapeStringValue(v) + "')";
    assert [Sym(c)] + ([] + ([Str(v)] + [Sym(')')])) == [Sym(c), Str(v), Sym(')')];
  }

  function ColumnTokens(col: Column): seq<Token> {
    match col
    case Direct(name) => [Word(name)]
    case Attribute(name) =>
      [Word("JSONExtractString"), Sym('('), Word("ms.attributes"), Sym(','), Str(name), Sym(')')]
  }

  lemma AttributeText(name: string)
    ensures ("JSONExtractString" + "(") + ("ms.attributes" + ("," + " '" + EscapeStringValue(name) + "')"))
            == "JSONExtractString(ms.attributes, '" + EscapeStringValue(name) + "')"
  {
    var e := EscapeStringValue(name);
    assert ("JSONExtractString" + "(") + ("ms.attributes" + ("," + " '" + e + "')"))
      == ("JSONExtractString" + "(" + "ms.attributes" + "," + " '") + e + "')";
    assert "JSONExtractString" + "(" + "ms.attributes" + "," + " '" == "JSONExtractString(ms.attributes, '";
  }

  lemma LexAttribute(name: string, rest: string)
    ensures Lexes("JSONExtractString(ms.attributes, '" + EscapeStringValue(name) + "')", ColumnTokens(Attribute(name)),
              rest)
  {
    var quoted, looked := "," + " '" + EscapeStringValue(name) + "')", [Sym(','), Str(name), Sym(')')];
    hide Lexes, EscapeStringValue;
    LexQuoted(',', name, rest);
    LexWord("ms.attributes", quoted + rest);
    LexesTwo("ms.attributes", [Word("ms.attributes")], quoted, looked, rest);
    var inner := "ms.attributes" + quoted;
    LexWordSym("JSONExtractString", '(', inner + rest);
    LexesTwo("JSONExtractString" + "(", [Word("JSONExtractString"), Sym('(')], inner, [Word("ms.attributes")] + looked,
      rest);
    AttributeText(name);
    assert [Word("JSONExtractString"), Sym('(')] + ([Word("ms.attributes")] + looked) == ColumnTokens(Attribute(name));
  }

  lemma LexColumn(f: Filter, rest: string)
    requires rest == [] || !IsWordChar(rest[0])
    ensures Lexes(MapFilterField(f.field), ColumnTokens(Meaning(f).col), rest)
  {
    match Meaning(f).col
    case Direct(name) => LexWord(name, rest);
    case Attribute(name) => LexAttribute(name, rest);
  }

  function PredicateTokens(p: Predicate): seq<Token> {
    match p.op
    case Eq => ColumnTokens(p.col) + [Sym('='), Str(p.value)]
    case Ne => ColumnTokens(p.col) + [Sym('!'), Sym('='), Str(p.value)]
    case Nre => [Word("NOT")] + MatchTokens(p)
    case Re => MatchTokens(p)
    case _ => ColumnTokens(p.col) + (OrderingTokens(p.op) + NumeralTokens(p.value))
  }

  function OrderingTokens(op: Op): seq<Token> {
    match op
    case Gt => [Sym('>')]
    case Gte => [Sym('>'), Sym('=')]
    case Lt => [Sym('<')]
    case _ => [Sym('<'), Sym('=')]
  }

  function NumeralTokens(n: string): seq<Token> {
    if n != [] && n[0] == '-' then [Sym('-'), Word(n[1..])] else [Word(n)]
  }

  /** Word characters, perhaps after a minus sign: the form of a rendered floating-point number. */
  ghost predicate IsNumeral(n: string) { IsWord(n) || (n != [] && n[0] == '-' && IsWord(n[1..])) }

  ghost predicate RendersNumerals(numeric: string -> Option<string>) {
    forall v | numeric(v).Some? :: IsNumeral(numeric(v).value)
  }

  function MatchTokens(p: Predicate): seq<Token> {
    [Word("match"), Sym('(')] + ColumnTokens(p.col) + [Sym(','), Str(p.value), Sym(')')]
  }

  /** A blank, a comparison sign, a blank and a quoted value. */
  lemma LexComparison(sign: string, signs: seq<Token>, v: string, rest: string)
    requires (sign == "=" && signs == [Sym('=')]) || (sign == "!=" && signs == [Sym('!'), Sym('=')])
    requires rest == [] || rest[0] != '\''
    ensures Lexes(" " + sign + " '" + EscapeStringValue(v) + "'", signs + [Str(v)], rest)
  {
    var quoted := "'" + EscapeStringValue(v) + "'";
    LexString(v, rest);
    LexBlank(' ', quoted + rest);
    LexesTwo(" ", [], quoted, [Str(v)], rest);
    LexSign(sign, signs, (" " + quoted) + rest);
    LexesTwo(sign, signs, " " + quoted, [] + [Str(v)], rest);
    LexBlank(' ', (sign + (" " + quoted)) + rest);
    LexesTwo(" ", [], sign + (" " + quoted), signs + ([] + [Str(v)]), rest);
    assert " " + (sign + (" " + quoted)) == " " + sign + " '" + EscapeStringValue(v) + "'";
    assert [] + (signs + ([] + [Str(v)])) == signs + [Str(v)];
  }

  lemma LexSign(sign: string, signs: seq<Token>, rest: string)
    requires (sign == "=" && signs == [Sym('=')]) || (sign == "!=" && signs == [Sym('!'), Sym('=')])
    ensures Lexes(sign, signs, rest)
  {
    LexSym('=', rest);
    if sign == "!=" {
      LexSym('!', "=" + rest);
      LexesTwo("!", [Sym('!')], "=", [Sym('=')], rest);
      assert "!" + "=" == "!=" && [Sym('!')] + [Sym('=')] == [Sym('!'), Sym('=')];
    }
  }

  lemma LexEquality(f: Filter, rest: string, numeric: string -> Option<string>)
    requires (f.op == Eq || f.op == Ne) && (rest == [] || rest[0] != '\'')
    ensures Lexes(BuildFilterExpr(MapFilterField(f.field), f.op, f.value, numeric).value, PredicateTokens(Meaning(f)),
              rest)
  {
    var sign, signs := Sign(f.op), if f.op == Eq then [Sym('=')] else [Sym('!'), Sym('=')];
    var col, tail := MapFilterField(f.field), " " + sign + " '" + EscapeStringValue(f.value) + "'";
    EqualityText(col, f.op, f.value, numeric);
    EqualityTokens(f, signs);
    hide Lexes, ColumnTokens, PredicateTokens, MapFilterField, EscapeStringValue, BuildFilterExpr, Meaning;
    LexComparison(sign, signs, f.value, rest);
    LexColumn(f, tail + rest);
    LexesTwo(col, ColumnTokens(Meaning(f).col), tail, signs + [Str(f.value)], rest);
  }

  function Sign(op: Op): string { if op == Eq then "=" else "!=" }

  lemma EqualityText(col: string, op: Op, v: string, numeric: string -> Option<string>)
    requires op == Eq || op == Ne
    ensures BuildFilterExpr(col, op, v, numeric) == Ok(col + (" " + Sign(op) + " '" + EscapeStringValue(v) + "'"))
  {
    var e := EscapeStringValue(v);
    assert " " + "=" + " '" == " = '" && " " + "!=" + " '" == " != '";
    Rejoin(col, " " + Sign(op) + " '", e, "'");
  }

  lemma EqualityTokens(f: Filter, signs: seq<Token>)
    requires (f.op == Eq && signs == [Sym('=')]) || (f.op == Ne && signs == [Sym('!'), Sym('=')])
    ensures ColumnTokens(Meaning(f).col) + (signs + [Str(f.value)]) == PredicateTokens(Meaning(f))
  {
  }

  lemma MatchText(col: string, e: string)
    ensures ("match" + "(") + (col + ("," + " '" + e + "')")) == "match(" + col + ", '" + e + "')"
  {
    assert "match" + "(" == "match(" && "," + " '" == ", '";
    assert ("match" + "(") + (col + ("," + " '" + e + "')")) == ("match" + "(") + col + ("," + " '") + e + "')";
  }

  lemma NotMatchText(col: string, e: string)
    ensures "NOT" + (" " + ("match(" + col + ", '" + e + "')")) == "NOT match(" + col + ", '" + e + "')"
  {
    assert "NOT" + " " + "match(" == "NOT match(";
    assert "NOT" + (" " + ("match(" + col + ", '" + e + "')")) == ("NOT" + " " + "match(") + col + ", '" + e + "')";
  }

  lemma LexMatch(f: Filter, rest: string)
    ensures Lexes("match(" + MapFilterField(f.field) + ", '" + EscapeStringValue(f.value) + "')",
              MatchTokens(Meaning(f)), rest)
  {
    hide Lexes, EscapeStringValue, MapFilterField;
    var col, quoted := MapFilterField(f.field), "," + " '" + EscapeStringValue(f.value) + "')";
    LexQuoted(',', f.value, rest);
    LexColumn(f, quoted + rest);
    LexesTwo(col, ColumnTokens(Meaning(f).col), quoted, [Sym(','), Str(f.value), Sym(')')], rest);
    LexWordSym("match", '(', (col + quoted) + rest);
    LexesTwo("match" + "(", [Word("match"), Sym('(')], col + quoted,
      ColumnTokens(Meaning(f).col) + [Sym(','), Str(f.value), Sym(')')], rest);
    MatchText(col, EscapeStringValue(f.value));
    assert [Word("match"), Sym('(')] + (ColumnTokens(Meaning(f).col) + [Sym(','), Str(f.value), Sym(')')])
      == MatchTokens(Meaning(f));
  }

  lemma LexNotMatch(f: Filter, rest: string)
    ensures Lexes("NOT match(" + MapFilterField(f.field) + ", '" + EscapeStringValue(f.value) + "')",
              [Word("NOT")] + MatchTokens(Meaning(f)), rest)
  {
    var body := "match(" + MapFilterField(f.field) + ", '" + EscapeStringValue(f.value) + "')";
    LexMatch(f, rest);
    LexBlank(' ', body + rest);
    LexesTwo(" ", [], body, MatchTokens(Meaning(f)), rest);
    LexWord("NOT", (" " + body) + rest);
    LexesTwo("NOT", [Word("NOT")], " " + body, [] + MatchTokens(Meaning(f)), rest);
    NotMatchText(MapFilterField(f.field), EscapeStringValue(f.value));
    assert [] + MatchTokens(Meaning(f)) == MatchTokens(Meaning(f));
  }

  lemma LexNumeral(n: string, rest: string)
    requires IsNumeral(n) && (rest == [] || !IsWordChar(rest[0]))
    ensures Lexes(n, NumeralTokens(n), rest)
  {
    if n[0] == '-' {
      LexWord(n[1..], rest);
      LexSym('-', n[1..] + rest);
      LexesTwo("-", [Sym('-')], n[1..], [Word(n[1..])], rest);
      assert "-" + n[1..] == n && [Sym('-')] + [Word(n[1..])] == NumeralTokens(n);
    } else {
      LexWord(n, rest);
    }
  }

  /** The sign of a numeric operator. */
  function OrderingSign(op: Op): string {
    match op
    case Gt => ">"
    case Gte => ">="
    case Lt => "<"
    case _ => "<="
  }

  lemma LexOrdering(op: Op, rest: string)
    requires !IsStringOp(op)
    ensures Lexes(OrderingSign(op), OrderingTokens(op), rest)
  {
    var c := if op == Gt || op == Gte then '>' else '<';
    if op == Gt || op == Lt {
      LexSym(c, rest);
    } else {
      LexSym('=', rest);
      LexSym(c, "=" + rest);
      LexesTwo([c], [Sym(c)], "=", [Sym('=')], rest);
      assert [c] + "=" == OrderingSign(op) && [Sym(c)] + [Sym('=')] == OrderingTokens(op);
    }
  }

  /** A blank, the sign of a numeric operator, a blank and a number. */
  lemma LexOrdered(op: Op, n: string, rest: string)
    requires !IsStringOp(op) && IsNumeral(n) && (rest == [] || !IsWordChar(rest[0]))
    ensures Lexes(" " + (OrderingSign(op) + (" " + n)), OrderingTokens(op) + NumeralTokens(n), rest)
  {
    hide Lexes, OrderingSign, OrderingTokens, NumeralTokens, IsNumeral;
    var sign, signs, ts := OrderingSign(op), OrderingTokens(op), NumeralTokens(n);
    LexNumeral(n, rest);
    LexBlank(' ', n + rest);
    LexesTwo(" ", [], n, ts, rest);
    LexOrdering(op, (" " + n) + rest);
    LexesTwo(sign, signs, " " + n, [] + ts, rest);
    LexBlank(' ', (sign + (" " + n)) + rest);
    LexesTwo(" ", [], sign + (" " + n), signs + ([] + ts), rest);
    assert [] + (signs + ([] + ts)) == signs + ts;
  }

  lemma OrderedText(col: string, op: Op, v: string, numeric: string -> Option<string>)
    requires !IsStringOp(op) && numeric(v).Some?
    ensures BuildFilterExpr(col, op, v, numeric) == Ok(col + (" " + (OrderingSign(op) + (" " + numeric(v).value))))
  {
    var n := numeric(v).value;
    assert " " + ">" + " " == " > " && " " + ">=" + " " == " >= " && " " + "<" + " " == " < "
      && " " + "<=" + " " == " <= ";
    assert col + (" " + (OrderingSign(op) + (" " + n))) == col + (" " + OrderingSign(op) + " ") + n;
  }

  lemma LexOrderedExpr(f: Filter, rest: string, numeric: string -> Option<string>)
    requires !IsStringOp(f.op) && numeric(f.value).Some? && RendersNumerals(numeric)
    requires rest == [] || !IsWordChar(rest[0])
    ensures Lexes(BuildFilterExpr(MapFilterField(f.field), f.op, f.value, numeric).value,
              PredicateTokens(Meaning(Rendered(f, numeric))), rest)
  {
    var col, n := MapFilterField(f.field), numeric(f.value).value;
    var tail := " " + (OrderingSign(f.op) + (" " + n));
    OrderedText(col, f.op, f.value, numeric);
    assert Meaning(Rendered(f, numeric)) == Meaning(f).(value := n);
    assert PredicateTokens(Meaning(f).(value := n))
      == ColumnTokens(Meaning(f).col) + (OrderingTokens(f.op) + NumeralTokens(n));
    assert IsNumeral(n);
    hide Lexes, ColumnTokens, PredicateTokens, MapFilterField, BuildFilterExpr, Meaning, OrderingSign, OrderingTokens,
      NumeralTokens, IsNumeral;
    LexOrdered(f.op, n, rest);
    LexColumn(f, tail + rest);
    LexesTwo(col, ColumnTokens(Meaning(f).col), tail, OrderingTokens(f.op) + NumeralTokens(n), rest);
  }

  lemma LexStringExpr(f: Filter, rest: string, numeric: string -> Option<string>)
    requires IsStringOp(f.op) && BuildFilterExpr(MapFilterField(f.field), f.op, f.value, numeric).Ok?
    requires rest == [] || rest[0] != '\''
    ensures Lexes(BuildFilterExpr(MapFilterField(f.field), f.op, f.value, numeric).value, PredicateTokens(Meaning(f)),
              rest)
  {
    match f.op
    case Re => LexMatch(f, rest);
    case Nre => LexNotMatch(f, rest);
    case _ => LexEquality(f, rest, numeric);
  }

  lemma LexExpr(f: Filter, rest: string, numeric: string -> Option<string>)
    requires BuildFilterExpr(MapFilterField(f.field), f.op, f.value, numeric).Ok? && RendersNumerals(numeric)
    requires rest == [] || (rest[0] != '\'' && !IsWordChar(rest[0]))
    ensures Lexes(BuildFilterExpr(MapFilterField(f.field), f.op, f.value, numeric).value,
              PredicateTokens(Meaning(Rendered(f, numeric))), rest)
  {
    if IsStringOp(f.op) {
      LexStringExpr(f, rest, numeric);
    } else {
      LexOrderedExpr(f, rest, numeric);
    }
  }

  function ClauseTokens(ps: seq<Predicate>): seq<Token> {
    if ps == [] then [] else [Word("AND"), Sym('(')] + PredicateTokens(ps[0]) + [Sym(')')] + ClauseTokens(ps[1..])
  }

  lemma LexOpening(rest: string)
    ensures Lexes("\n  AND (", [Word("AND"), Sym('(')], rest)
  {
    hide Lexes;
    LexSym('(', rest);
    LexBlank(' ', "(" + rest);
    LexesTwo(" ", [], "(", [Sym('(')], rest);
    LexWord("AND", (" " + "(") + rest);
    LexesTwo("AND", [Word("AND")], " " + "(", [] + [Sym('(')], rest);
    LexBlank(' ', ("AND" + (" " + "(")) + rest);
    LexesTwo(" ", [], "AND" + (" " + "("), [Word("AND")] + ([] + [Sym('(')]), rest);
    LexBlank(' ', (" " + ("AND" + (" " + "("))) + rest);
    LexesTwo(" ", [], " " + ("AND" + (" " + "(")), [] + ([Word("AND")] + ([] + [Sym('(')])), rest);
    LexBlank('\n', (" " + (" " + ("AND" + (" " + "(")))) + rest);
    LexesTwo("\n", [], " " + (" " + ("AND" + (" " + "("))), [] + ([] + ([Word("AND")] + ([] + [Sym('(')]))), rest);
    assert "\n" + (" " + (" " + ("AND" + (" " + "(")))) == "\n  AND (";
    assert [] + ([] + ([] + ([Word("AND")] + ([] + [Sym('(')])))) == [Word("AND"), Sym('(')];
  }

  lemma LexClause(
    f: Filter, expr: string, more: string, ts: seq<Token>, rest: string, numeric: string -> Option<string>)
    requires BuildFilterExpr(MapFilterField(f.field), f.op, f.value, numeric) == Ok(expr) && RendersNumerals(numeric)
    requires Lexes(more, ts, rest)
    ensures Lexes("\n  AND (" + expr + ")" + more,
              [Word("AND"), Sym('(')] + PredicateTokens(Meaning(Rendered(f, numeric))) + [Sym(')')] + ts, rest)
  {
    hide Lexes, BuildFilterExpr, MapFilterField, PredicateTokens, Meaning, Rendered, RendersNumerals;
    LexSym(')', more + rest);
    LexesTwo(")", [Sym(')')], more, ts, rest);
    LexExpr(f, (")" + more) + rest, numeric);
    LexesTwo(expr, PredicateTokens(Meaning(Rendered(f, numeric))), ")" + more, [Sym(')')] + ts, rest);
    LexOpening((expr + (")" + more)) + rest);
    LexesTwo("\n  AND (", [Word("AND"), Sym('(')], expr + (")" + more),
      PredicateTokens(Meaning(Rendered(f, numeric))) + ([Sym(')')] + ts),
      rest);
    assert "\n  AND (" + (expr + (")" + more)) == "\n  AND (" + expr + ")" + more;
    assert [Word("AND"), Sym('(')] + (PredicateTokens(Meaning(Rendered(f, numeric))) + ([Sym(')')] + ts))
      == [Word("AND"), Sym('(')] + PredicateTokens(Meaning(Rendered(f, numeric))) + [Sym(')')] + ts;
  }

  /** Whatever text follows the printed clauses, it is read as if the clauses were not there: no field and no value can
      reach past its own quotes. */
  lemma {:induction false} LexClauses(filters: seq<Filter>, rest: string, numeric: string -> Option<string>)
    requires BuildFilterClauses(filters, numeric).Ok? && RendersNumerals(numeric)
    ensures Lexes(BuildFilterClauses(filters, numeric).value, ClauseTokens(Meanings(RenderedAll(filters, numeric))),
              rest)
  {
    if filters == [] {
      LexNothing(rest);
    } else {
      var f, more := filters[0], filters[1..];
      LexClauses(more, rest, numeric);
      var expr := BuildFilterExpr(MapFilterField(f.field), f.op, f.value, numeric).value;
      LexClause(f, expr, BuildFilterClauses(more, numeric).value, ClauseTokens(Meanings(RenderedAll(more, numeric))),
        rest, numeric);
      assert Meanings(RenderedAll(filters, numeric))[1..] == Meanings(RenderedAll(more, numeric));
    }
  }

  /* ----- parsing what is read ----- */

  lemma ParseColumnTokens(f: Filter, rest: seq<Token>)
    requires rest != [] && rest[0].Sym? && rest[0] != Sym('(')
    ensures ParseColumn(ColumnTokens(Meaning(f).col) + rest) == Some((Meaning(f).col, rest))
  {
    var ts := ColumnTokens(Meaning(f).col) + rest;
    match Meaning(f).col
    case Direct(name) => assert ts[0] == Word(name) && ts[1..] == rest;
    case Attribute(name) => assert ts[..6] == ColumnTokens(Meaning(f).col) && ts[6..] == rest;
  }

  lemma ParseMatchTokens(f: Filter, op: Op, rest: seq<Token>)
    ensures ParseMatch(MatchTokens(Meaning(f)) + rest, op) == Some((Predicate(Meaning(f).col, op, f.value), rest))
  {
    var tail := [Sym(','), Str(f.value), Sym(')')] + rest;
    var ts := MatchTokens(Meaning(f)) + rest;
    ParseColumnTokens(f, tail);
    assert ts[2..] == ColumnTokens(Meaning(f).col) + tail;
    assert ts[0] == Word("match") && ts[1] == Sym('(');
    assert tail[3..] == rest;
  }

  lemma ColumnStart(f: Filter)
    ensures ColumnTokens(Meaning(f).col)[0] != Word("NOT") && ColumnTokens(Meaning(f).col)[0] != Word("match")
  {
  }

  lemma ParseEqualityTokens(f: Filter, rest: seq<Token>)
    requires f.op == Eq || f.op == Ne
    ensures ParsePredicate(PredicateTokens(Meaning(f)) + rest) == Some((Meaning(f), rest))
  {
    var cmp := (if f.op == Eq then [Sym('='), Str(f.value)] else [Sym('!'), Sym('='), Str(f.value)]);
    var tail := cmp + rest;
    var ts := PredicateTokens(Meaning(f)) + rest;
    assert ts == ColumnTokens(Meaning(f).col) + tail;
    ParseColumnTokens(f, tail);
    ColumnStart(f);
    assert ts[0] == ColumnTokens(Meaning(f).col)[0];
    assert tail[|cmp|..] == rest;
  }

  /** A string operator, or a numeric operator with a number. */
  ghost predicate IsPrintable(f: Filter) { IsStringOp(f.op) || IsNumeral(f.value) }

  lemma ParseNumeralTokens(n: string, rest: seq<Token>)
    requires IsNumeral(n)
    ensures ParseNumeral(NumeralTokens(n) + rest) == Some((n, rest))
  {
    var ts := NumeralTokens(n) + rest;
    if n[0] == '-' {
      assert ts[0] == Sym('-') && ts[1] == Word(n[1..]) && ts[2..] == rest && "-" + n[1..] == n;
    } else {
      assert ts[0] == Word(n) && ts[1..] == rest;
    }
  }

  lemma ParseOrderingTokens(op: Op, n: string, rest: seq<Token>)
    requires !IsStringOp(op)
    ensures ParseOrdering(OrderingTokens(op) + NumeralTokens(n) + rest) == Some((op, NumeralTokens(n) + rest))
  {
    var ts, tail := OrderingTokens(op) + NumeralTokens(n) + rest, NumeralTokens(n) + rest;
    assert ts[|OrderingTokens(op)|..] == tail;
    assert tail[0] != Sym('=') && ts[|OrderingTokens(op)|] == tail[0];
  }

  lemma ParseOrderedTokens(f: Filter, rest: seq<Token>)
    requires !IsStringOp(f.op) && IsNumeral(f.value)
    ensures ParsePredicate(PredicateTokens(Meaning(f)) + rest) == Some((Meaning(f), rest))
  {
    var tail := OrderingTokens(f.op) + NumeralTokens(f.value) + rest;
    var ts := PredicateTokens(Meaning(f)) + rest;
    assert ts == ColumnTokens(Meaning(f).col) + tail;
    assert tail[0].Sym? && tail[0] != Sym('(') && tail[0] != Sym('=') && tail[0] != Sym('!');
    ParseColumnTokens(f, tail);
    ColumnStart(f);
    assert ts[0] == ColumnTokens(Meaning(f).col)[0];
    ParseOrderingTokens(f.op, f.value, rest);
    ParseNumeralTokens(f.value, rest);
    hide ParseColumn, ColumnTokens, ParseOrdering, ParseNumeral, OrderingTokens, NumeralTokens, IsNumeral;
  }

  lemma ParsePredicateTokens(f: Filter, rest: seq<Token>)
    requires IsPrintable(f)
    ensures ParsePredicate(PredicateTokens(Meaning(f)) + rest) == Some((Meaning(f), rest))
  {
    var ts := PredicateTokens(Meaning(f)) + rest;
    match f.op
    case Re =>
      ParseMatchTokens(f, Re, rest);
      assert ts[0] == Word("match");
    case Nre =>
      ParseMatchTokens(f, Nre, rest);
      assert ts[0] == Word("NOT") && ts[1..] == MatchTokens(Meaning(f)) + rest;
    case Eq => ParseEqualityTokens(f, rest);
    case Ne => ParseEqualityTokens(f, rest);
    case _ => ParseOrderedTokens(f, rest);
  }

  /** `rest` does not go on with another clause. */
  ghost predicate EndsClauses(rest: seq<Token>) {
    |rest| < 2 || rest[0] != Word("AND") || rest[1] != Sym('(')
  }

  lemma ParseOneClause(f: Filter, more: seq<Token>)
    requires IsPrintable(f)
    ensures ParseClauses([Word("AND"), Sym('(')] + PredicateTokens(Meaning(f)) + [Sym(')')] + more)
            == ([Meaning(f)] + ParseClauses(more).0, ParseClauses(more).1)
  {
    var ts := [Word("AND"), Sym('(')] + PredicateTokens(Meaning(f)) + [Sym(')')] + more;
    ParsePredicateTokens(f, [Sym(')')] + more);
    hide ParsePredicate, PredicateTokens, Meaning, ParseClauses, IsPrintable;
    assert ts[2..] == PredicateTokens(Meaning(f)) + ([Sym(')')] + more);
    assert ([Sym(')')] + more)[1..] == more;
    ClausesStep(ts, Meaning(f), [Sym(')')] + more);
  }

  lemma ClausesStep(ts: seq<Token>, p: Predicate, rest: seq<Token>)
    requires |ts| >= 2 && ts[0] == Word("AND") && ts[1] == Sym('(') && ParsePredicate(ts[2..]) == Some((p, rest))
    requires 0 < |rest| < |ts| && rest[0] == Sym(')')
    ensures ParseClauses(ts) == ([p] + ParseClauses(rest[1..]).0, ParseClauses(rest[1..]).1)
  {
    hide ParsePredicate;
  }

  lemma MeaningsTail(filters: seq<Filter>)
    requires filters != []
    ensures Meanings(filters)[1..] == Meanings(filters[1..])
    ensures Meanings(filters) == [Meaning(filters[0])] + Meanings(filters[1..])
  {
  }

  lemma ClauseTokensUnfold(ps: seq<Predicate>, rest: seq<Token>)
    requires ps != []
    ensures ClauseTokens(ps) + rest
            == [Word("AND"), Sym('(')] + PredicateTokens(ps[0]) + [Sym(')')] + (ClauseTokens(ps[1..]) + rest)
  {
  }

  lemma {:induction false} ParseClauseTokens(filters: seq<Filter>, rest: seq<Token>)
    requires (forall f | f in filters :: IsPrintable(f)) && EndsClauses(rest)
    ensures ParseClauses(ClauseTokens(Meanings(filters)) + rest) == (Meanings(filters), rest)
  {
    if filters == [] {
      assert ClauseTokens([]) + rest == rest;
    } else {
      MeaningsTail(filters);
      ClauseTokensUnfold(Meanings(filters), rest);
      ParseClauseTokens(filters[1..], rest);
      ParseOneClause(filters[0], ClauseTokens(Meanings(filters[1..])) + rest);
    }
  }

  /** Reading the printed clauses in front of any further SQL gives back the intended predicates in order, and the
      further SQL exactly as it reads on its own. */
  lemma FiltersRoundTrip(filters: seq<Filter>, rest: string, numeric: string -> Option<string>)
    requires BuildFilterClauses(filters, numeric).Ok? && RendersNumerals(numeric)
    requires Lex(rest).Some? && EndsClauses(Lex(rest).value)
    ensures var read := Lex(BuildFilterClauses(filters, numeric).value + rest);
      read.Some? && ParseClauses(read.value) == (Meanings(RenderedAll(filters, numeric)), Lex(rest).value)
  {
    LexClauses(filters, rest, numeric);
    forall f | f in RenderedAll(filters, numeric) ensures IsPrintable(f) {
      var i :| 0 <= i < |filters| && f == Rendered(filters[i], numeric);
      PrintedIsPrintable(filters, i, numeric);
    }
    hide IsPrintable, EndsClauses, RendersNumerals, Rendered, Meaning, BuildFilterClauses;
    ParseClauseTokens(RenderedAll(filters, numeric), Lex(rest).value);
  }

  lemma {:induction false} PrintedIsPrintable(filters: seq<Filter>, i: nat, numeric: string -> Option<string>)
    requires i < |filters| && BuildFilterClauses(filters, numeric).Ok? && RendersNumerals(numeric)
    ensures IsPrintable(Rendered(filters[i], numeric))
  {
    if i > 0 { PrintedIsPrintable(filters[1..], i - 1, numeric); }
  }

  /* ----- when printing fails ----- */

  ghost predicate Rejected(f: Filter, numeric: string -> Option<string>) {
    if IsStringOp(f.op) then (f.op == Re || f.op == Nre) && |Utf8(f.value)| > 256 else numeric(f.value) == None
  }

  lemma FirstFails(filters: seq<Filter>, numeric: string -> Option<string>)
    requires filters != []
    ensures Rejected(filters[0], numeric) ==>
              BuildFilterClauses(filters, numeric) == InvalidFilterValue(MapFilterField(filters[0].field))
    ensures !Rejected(filters[0], numeric) ==>
              match BuildFilterClauses(filters[1..], numeric)
              case InvalidFilterValue(c) => BuildFilterClauses(filters, numeric) == InvalidFilterValue(c)
              case Ok(_) => BuildFilterClauses(filters, numeric).Ok?
  {
    LengthOfUtf8(filters[0].value);
    hide EscapeStringValue, MapFilterField, Utf8Length, Utf8;
  }

  ghost predicate IsFirstRejected(filters: seq<Filter>, numeric: string -> Option<string>, i: nat) {
    i < |filters| && Rejected(filters[i], numeric) && forall j | 0 <= j < i :: !Rejected(filters[j], numeric)
  }

  lemma FirstRejectedOfRest(filters: seq<Filter>, numeric: string -> Option<string>, i: nat)
    requires IsFirstRejected(filters, numeric, i) && i > 0
    ensures !Rejected(filters[0], numeric) && IsFirstRejected(filters[1..], numeric, i - 1)
  {
    assert forall j | 0 <= j < |filters| - 1 :: filters[1..][j] == filters[j + 1];
    hide Rejected;
  }

  lemma {:induction false} FailsAt(filters: seq<Filter>, numeric: string -> Option<string>, i: nat)
    requires IsFirstRejected(filters, numeric, i)
    ensures BuildFilterClauses(filters, numeric) == InvalidFilterValue(MapFilterField(filters[i].field))
  {
    hide Rejected, BuildFilterClauses, MapFilterField;
    FirstFails(filters, numeric);
    if i > 0 {
      FirstRejectedOfRest(filters, numeric, i);
      FailsAt(filters[1..], numeric, i - 1);
    }
  }

  lemma {:induction false} PassesWithout(filters: seq<Filter>, numeric: string -> Option<string>)
    requires forall f | f in filters :: !Rejected(f, numeric)
    ensures BuildFilterClauses(filters, numeric).Ok?
  {
    if filters != [] {
      FirstFails(filters, numeric);
      PassesWithout(filters[1..], numeric);
    }
  }

  lemma {:induction false} FirstRejectedExists(filters: seq<Filter>, numeric: string -> Option<string>) returns (i: nat)
    requires exists f :: f in filters && Rejected(f, numeric)
    ensures IsFirstRejected(filters, numeric, i)
  {
    hide Rejected;
    i := 0;
    if !Rejected(filters[0], numeric) {
      var k := FirstRejectedExists(filters[1..], numeric);
      i := k + 1;
      assert forall j | 0 < j <= i :: filters[j] == filters[1..][j - 1];
    }
  }

  /** Printing fails exactly when a filter is rejected, and names the column of the first such filter. */
  lemma FailsAtFirstRejected(filters: seq<Filter>, numeric: string -> Option<string>)
    ensures BuildFilterClauses(filters, numeric).InvalidFilterValue?
            <==> exists f :: f in filters && Rejected(f, numeric)
    ensures forall i: nat | IsFirstRejected(filters, numeric, i) ::
              BuildFilterClauses(filters, numeric) == InvalidFilterValue(MapFilterField(filters[i].field))
  {
    hide Rejected, BuildFilterClauses, MapFilterField;
    forall i: nat | IsFirstRejected(filters, numeric, i)
      ensures BuildFilterClauses(filters, numeric) == InvalidFilterValue(MapFilterField(filters[i].field))
    {
      FailsAt(filters, numeric, i);
    }
    if f :| f in filters && Rejected(f, numeric) {
      var i := FirstRejectedExists(filters, numeric);
      FailsAt(filters, numeric, i);
    } else {
      PassesWithout(filters, numeric);
    }
  }
}
