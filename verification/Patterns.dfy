/** The patterns that the scripts match their texts against, and the predicates of the model that stand for them. */
module Patterns {
  import opened Basics
  import opened Regex
  import Decimal
  import Dockerfile
  import CargoLock
  import ReleasePlan

  const DIGIT: seq<(char, char)> := [('0', '9')]
  const NONZERO: seq<(char, char)> := [('1', '9')]
  const HEX: seq<(char, char)> := [('0', '9'), ('a', 'f')]
  const LETTER: seq<(char, char)> := [('A', 'Z'), ('a', 'z')]
  const ALPHANUMERIC: seq<(char, char)> := [('a', 'z'), ('A', 'Z'), ('0', '9')]

  lemma Two(a: (char, char), b: (char, char), c: char)
    ensures InClass([a, b], c) <==> a.0 <= c <= a.1 || b.0 <= c <= b.1
  {
    var r := [a, b];
    assert r[0] == a && r[1] == b;
  }

  lemma One(a: (char, char), c: char)
    ensures InClass([a], c) <==> a.0 <= c <= a.1
  {
    var r := [a];
    assert r[0] == a;
  }

  lemma OneMore(ranges: seq<(char, char)>, a: (char, char), c: char)
    ensures InClass(ranges + [a], c) <==> InClass(ranges, c) || a.0 <= c <= a.1
  {
    var r := ranges + [a];
    assert r[|ranges|] == a && forall i | 0 <= i < |ranges| :: r[i] == ranges[i];
  }

  lemma HexMeans(s: string)
    ensures AllIn(HEX, s) <==> IsHex(s)
  {
    forall c ensures InClass(HEX, c) <==> '0' <= c <= '9' || 'a' <= c <= 'f' { Two(('0', '9'), ('a', 'f'), c); }
  }

  /** `(?:[0-9a-f]{40}|[0-9a-f]{64})` */
  const REVISION: Regex := Alt(Times(Class(HEX), 40), Times(Class(HEX), 64))

  lemma RevisionMeans(s: string)
    ensures IsRevision(s) <==> Matches(REVISION, s)
  {
    TimesClass(HEX, 40, s);
    TimesClass(HEX, 64, s);
    HexMeans(s);
    hide Times, Matches;
    RevisionAlt(s);
  }

  lemma RevisionAlt(s: string)
    ensures Matches(REVISION, s) <==> Matches(Times(Class(HEX), 40), s) || Matches(Times(Class(HEX), 64), s)
  {
    hide Times;
  }

  /** `sha256:[0-9a-f]{64}` */
  const DIGEST: Regex := Cat(Text("sha256:"), Times(Class(HEX), 64))

  lemma DigestMeans(s: string)
    ensures ReleasePlan.IsDigest(s) <==> Matches(DIGEST, s)
  {
    CatText("sha256:", Times(Class(HEX), 64), s);
    if "sha256:" <= s {
      TimesClass(HEX, 64, s[7..]);
      HexMeans(s[7..]);
    }
    hide Times, Matches;
    assert |s| >= 7 ==> ("sha256:" <= s <==> s[..7] == "sha256:");
  }

  /* ----- names ----- */

  const NAME_CHAR: seq<(char, char)> := ALPHANUMERIC + [('_', '_')] + [('.', '.')] + [('-', '-')]

  lemma AlphanumericMeans(c: char)
    ensures InClass(ALPHANUMERIC, c) <==> 'a' <= c <= 'z' || 'A' <= c <= 'Z' || '0' <= c <= '9'
  {
    OneMore([('a', 'z'), ('A', 'Z')], ('0', '9'), c);
    Two(('a', 'z'), ('A', 'Z'), c);
    assert [('a', 'z'), ('A', 'Z')] + [('0', '9')] == ALPHANUMERIC;
  }

  /** `[A-Za-z][A-Za-z0-9_.-]*` */
  const STAGE_NAME: Regex := Cat(Class(LETTER), Star(Class(NAME_CHAR)))

  lemma NameCharMeans(c: char)
    ensures InClass(NAME_CHAR, c) <==> Dockerfile.IsNameChar(c)
  {
    AlphanumericMeans(c);
    OneMore(ALPHANUMERIC, ('_', '_'), c);
    OneMore(ALPHANUMERIC + [('_', '_')], ('.', '.'), c);
    OneMore(ALPHANUMERIC + [('_', '_')] + [('.', '.')], ('-', '-'), c);
    hide InClass;
  }

  lemma StageNameMeans(s: string)
    ensures Dockerfile.IsStageName(s) <==> Matches(STAGE_NAME, s)
  {
    CatClass(LETTER, Star(Class(NAME_CHAR)), s);
    if s != "" {
      Two(('A', 'Z'), ('a', 'z'), s[0]);
      StarClass(NAME_CHAR, s[1..]);
      forall c ensures InClass(NAME_CHAR, c) <==> Dockerfile.IsNameChar(c) { NameCharMeans(c); }
      hide Matches, InClass;
      assert forall k | 0 < k < |s| :: s[k] == s[1..][k - 1];
    }
  }

  const IMAGE_CHAR: seq<(char, char)> :=
    ALPHANUMERIC + [('.', '.')] + [('_', '_')] + [(':', ':')] + [('/', '/')] + [('-', '-')]

  /** `^[a-zA-Z0-9][a-zA-Z0-9._:/-]*@sha256:[0-9a-f]{64}$` */
  const IMAGE_DIGEST: Regex :=
    Cat(Class(ALPHANUMERIC), Cat(Star(Class(IMAGE_CHAR)), Cat(Text("@sha256:"), Times(Class(HEX), 64))))

  lemma ImageCharMeans(c: char)
    ensures InClass(IMAGE_CHAR, c) <==> Dockerfile.IsImageChar(c)
  {
    AlphanumericMeans(c);
    var a := ALPHANUMERIC;
    OneMore(a, ('.', '.'), c);
    OneMore(a + [('.', '.')], ('_', '_'), c);
    OneMore(a + [('.', '.')] + [('_', '_')], (':', ':'), c);
    OneMore(a + [('.', '.')] + [('_', '_')] + [(':', ':')], ('/', '/'), c);
    OneMore(a + [('.', '.')] + [('_', '_')] + [(':', ':')] + [('/', '/')], ('-', '-'), c);
    hide InClass;
  }

  lemma DigestTail(s: string)
    ensures Matches(Cat(Text("@sha256:"), Times(Class(HEX), 64)), s) <==>
              |s| == 72 && s[..8] == "@sha256:" && IsHex(s[8..])
  {
    CatText("@sha256:", Times(Class(HEX), 64), s);
    if "@sha256:" <= s {
      TimesClass(HEX, 64, s[8..]);
      HexMeans(s[8..]);
    }
    hide Times, Matches;
    assert |s| >= 8 ==> ("@sha256:" <= s <==> s[..8] == "@sha256:");
  }

  lemma ImageDigestMeans(s: string)
    ensures Dockerfile.IsPinned(s) <==> Matches(IMAGE_DIGEST, s)
  {
    var tail := Cat(Text("@sha256:"), Times(Class(HEX), 64));
    CatClass(ALPHANUMERIC, Cat(Star(Class(IMAGE_CHAR)), tail), s);
    if s != "" {
      CatMeans(Star(Class(IMAGE_CHAR)), tail, s[1..]);
      forall u ensures Matches(Star(Class(IMAGE_CHAR)), u) <==> AllIn(IMAGE_CHAR, u) { StarClass(IMAGE_CHAR, u); }
      forall v ensures Matches(tail, v) <==> |v| == 72 && v[..8] == "@sha256:" && IsHex(v[8..]) { DigestTail(v); }
      AlphanumericMeans(s[0]);
      hide Matches, InClass, Times;
      PinnedSplits(s);
    }
  }

  lemma PinnedSplits(s: string)
    requires s != ""
    ensures Dockerfile.IsPinned(s) <==>
              && ('a' <= s[0] <= 'z' || 'A' <= s[0] <= 'Z' || '0' <= s[0] <= '9')
              && exists u, v ::
                   s[1..] == u + v && AllIn(IMAGE_CHAR, u) && |v| == 72 && v[..8] == "@sha256:" && IsHex(v[8..])
  {
    hide InClass, AllIn, IsHex;
    forall u ensures AllIn(IMAGE_CHAR, u) <==> ImageChars(u) { ImageCharsMean(u); }
    if Dockerfile.IsPinned(s) {
      var cut := |s| - 72;
      var u, v := s[1..cut], s[cut..];
      assert s[1..] == u + v;
      assert v[..8] == s[cut..cut + 8] && v[8..] == s[cut + 8..];
    }
    if u, v :| s[1..] == u + v && AllIn(IMAGE_CHAR, u) && |v| == 72 && v[..8] == "@sha256:" && IsHex(v[8..]) {
      assert s == [s[0]] + u + v;
      if 'a' <= s[0] <= 'z' || 'A' <= s[0] <= 'Z' || '0' <= s[0] <= '9' { PartsArePinned(s[0], u, v); }
    }
  }

  ghost predicate ImageChars(u: string) { forall i | 0 <= i < |u| :: Dockerfile.IsImageChar(u[i]) }

  lemma ImageCharsMean(u: string)
    ensures AllIn(IMAGE_CHAR, u) <==> ImageChars(u)
  {
    forall c ensures InClass(IMAGE_CHAR, c) <==> Dockerfile.IsImageChar(c) { ImageCharMeans(c); }
    hide InClass;
  }

  lemma PartsArePinned(c: char, u: string, v: string)
    requires 'a' <= c <= 'z' || 'A' <= c <= 'Z' || '0' <= c <= '9'
    requires ImageChars(u) && |v| == 72 && v[..8] == "@sha256:" && IsHex(v[8..])
    ensures Dockerfile.IsPinned([c] + u + v)
  {
    var s := [c] + u + v;
    var cut := |s| - 72;
    hide IsHex;
    assert s[cut..] == v;
    assert s[cut..cut + 8] == v[..8] && s[cut + 8..] == v[8..];
    assert forall i | 0 < i < cut :: s[i] == u[i - 1];
  }

  /* ----- Cargo ----- */

  const CRATE_CHAR: seq<(char, char)> := [('A', 'Z'), ('a', 'z')] + [('0', '9')] + [('_', '_')] + [('-', '-')]

  /** `[A-Za-z0-9_][A-Za-z0-9_-]*` */
  const CRATE_NAME: Regex :=
    Cat(Class([('A', 'Z'), ('a', 'z')] + [('0', '9')] + [('_', '_')]), Star(Class(CRATE_CHAR)))

  lemma CrateCharMeans(c: char)
    ensures InClass([('A', 'Z'), ('a', 'z')] + [('0', '9')] + [('_', '_')], c)
            <==> CargoLock.IsCrateChar(c) && c != '-'
    ensures InClass(CRATE_CHAR, c) <==> CargoLock.IsCrateChar(c)
  {
    var a := [('A', 'Z'), ('a', 'z')];
    Two(('A', 'Z'), ('a', 'z'), c);
    OneMore(a, ('0', '9'), c);
    OneMore(a + [('0', '9')], ('_', '_'), c);
    OneMore(a + [('0', '9')] + [('_', '_')], ('-', '-'), c);
    hide InClass;
  }

  lemma CrateNameMeans(s: string)
    ensures CargoLock.IsName(s) <==> Matches(CRATE_NAME, s)
  {
    CatClass([('A', 'Z'), ('a', 'z')] + [('0', '9')] + [('_', '_')], Star(Class(CRATE_CHAR)), s);
    if s != "" {
      StarClass(CRATE_CHAR, s[1..]);
      forall c
        ensures InClass([('A', 'Z'), ('a', 'z')] + [('0', '9')] + [('_', '_')], c)
                <==> CargoLock.IsCrateChar(c) && c != '-'
        ensures InClass(CRATE_CHAR, c) <==> CargoLock.IsCrateChar(c)
      {
        CrateCharMeans(c);
      }
      hide Matches, InClass;
      assert forall k | 0 < k < |s| :: s[k] == s[1..][k - 1];
    }
  }

  /** `[0-9a-f]{64}` */
  const CHECKSUM: Regex := Times(Class(HEX), 64)

  lemma ChecksumMeans(s: string)
    ensures CargoLock.IsHexChecksum(s) <==> Matches(CHECKSUM, s)
  {
    TimesClass(HEX, 64, s);
    HexMeans(s);
    hide Times, Matches;
  }

  /* ----- numbers and versions ----- */

  lemma DigitsMean(s: string)
    ensures AllIn(DIGIT, s) <==> Decimal.AllDigits(s)
  {
    forall c ensures InClass(DIGIT, c) <==> Decimal.IsDigit(c) { One(('0', '9'), c); }
    hide InClass;
  }

  lemma {:induction false} RunOf(digits: string, rest: string)
    requires Decimal.AllDigits(digits) && (rest == "" || !Decimal.IsDigit(rest[0]))
    ensures Decimal.DigitRun(digits + rest) == |digits|
  {
    if digits == "" {
      assert digits + rest == rest;
    } else {
      assert Decimal.IsDigit(digits[0]);
      RunOf(digits[1..], rest);
      assert (digits + rest)[1..] == digits[1..] + rest;
    }
  }

  const DIGITS: Regex := Plus(Class(DIGIT))

  lemma DigitsMatch(s: string)
    ensures Matches(DIGITS, s) <==> s != "" && Decimal.AllDigits(s)
  {
    PlusClass(DIGIT, s);
    DigitsMean(s);
  }

  const SIGN: seq<(char, char)> := [('-', '-'), ('+', '+')]
  const SUFFIX_CHAR: seq<(char, char)> :=
    [('A', 'Z'), ('a', 'z')] + [('0', '9')] + [('.', '.')] + [('+', '+')] + [('-', '-')]

  const SUFFIX: Regex := Maybe(Cat(Class(SIGN), Plus(Class(SUFFIX_CHAR))))

  /** `[0-9]+\.[0-9]+\.[0-9]+(?:[-+][A-Za-z0-9.+-]+)?` */
  const CRATE_VERSION: Regex :=
    Cat(DIGITS, Cat(Text("."), Cat(DIGITS, Cat(Text("."), Cat(DIGITS, SUFFIX)))))

  lemma SuffixCharMeans(c: char)
    ensures InClass(SUFFIX_CHAR, c) <==> CargoLock.IsSuffixChar(c)
  {
    var a := [('A', 'Z'), ('a', 'z')];
    Two(('A', 'Z'), ('a', 'z'), c);
    OneMore(a, ('0', '9'), c);
    OneMore(a + [('0', '9')], ('.', '.'), c);
    OneMore(a + [('0', '9')] + [('.', '.')], ('+', '+'), c);
    OneMore(a + [('0', '9')] + [('.', '.')] + [('+', '+')], ('-', '-'), c);
    hide InClass;
  }

  ghost predicate IsSuffix(s: string) {
    s == "" || (|s| >= 2 && (s[0] == '-' || s[0] == '+') && forall i | 0 < i < |s| :: CargoLock.IsSuffixChar(s[i]))
  }

  lemma SuffixMeans(s: string)
    ensures Matches(SUFFIX, s) <==> IsSuffix(s)
  {
    MaybeMeans(Cat(Class(SIGN), Plus(Class(SUFFIX_CHAR))), s);
    CatClass(SIGN, Plus(Class(SUFFIX_CHAR)), s);
    if s != "" {
      Two(('-', '-'), ('+', '+'), s[0]);
      PlusClass(SUFFIX_CHAR, s[1..]);
      forall c ensures InClass(SUFFIX_CHAR, c) <==> CargoLock.IsSuffixChar(c) { SuffixCharMeans(c); }
      hide InClass, Matches, CargoLock.IsSuffixChar;
      assert forall k | 0 < k < |s| :: s[k] == s[1..][k - 1];
    }
  }

  lemma PatchForward(u: string, v: string)
    requires u != "" && Decimal.AllDigits(u) && IsSuffix(v)
    ensures CargoLock.IsPatch(u + v)
  {
    var s := u + v;
    RunOf(u, v);
    hide CargoLock.IsSuffixChar;
    assert v != "" ==> s[|u|] == v[0];
    assert forall i | |u| < i < |s| :: s[i] == v[i - |u|];
  }

  lemma PatchBackward(s: string)
    requires CargoLock.IsPatch(s)
    ensures var n := Decimal.DigitRun(s);
      s[..n] != "" && Decimal.AllDigits(s[..n]) && IsSuffix(s[n..]) && s == s[..n] + s[n..]
  {
    var n := Decimal.DigitRun(s);
    hide CargoLock.IsSuffixChar;
    assert forall i | 0 <= i < |s| - n :: s[n..][i] == s[n + i];
  }

  lemma PatchMeans(s: string)
    ensures Matches(Cat(DIGITS, SUFFIX), s) <==> CargoLock.IsPatch(s)
  {
    CatMeans(DIGITS, SUFFIX, s);
    hide Matches, CargoLock.IsPatch, IsSuffix;
    if Matches(Cat(DIGITS, SUFFIX), s) {
      var u, v :| s == u + v && Matches(DIGITS, u) && Matches(SUFFIX, v);
      DigitsMatch(u);
      SuffixMeans(v);
      PatchForward(u, v);
    }
    if CargoLock.IsPatch(s) {
      PatchBackward(s);
      DigitsMatch(s[..Decimal.DigitRun(s)]);
      SuffixMeans(s[Decimal.DigitRun(s)..]);
    }
  }

  /** Digits, a dot and a match of `b`. */
  ghost predicate StartsWithDigits(b: Regex, s: string) {
    var n := Decimal.DigitRun(s);
    n > 0 && n < |s| && s[n] == '.' && Matches(b, s[n + 1..])
  }

  lemma DotForward(b: Regex, s: string)
    requires Matches(Cat(DIGITS, Cat(Text("."), b)), s)
    ensures StartsWithDigits(b, s)
  {
    hide Matches, StartsWithDigits;
    CatMeans(DIGITS, Cat(Text("."), b), s);
    var u, v :| s == u + v && Matches(DIGITS, u) && Matches(Cat(Text("."), b), v);
    DigitsMatch(u);
    CatText(".", b, v);
    RunOf(u, v);
    SecondOf(u, v);
    assert Decimal.DigitRun(s) == |u|;
    StartsSo(b, s, |u|);
  }

  lemma StartsSo(b: Regex, s: string, n: nat)
    requires Decimal.DigitRun(s) == n > 0 && n < |s| && s[n] == '.' && Matches(b, s[n + 1..])
    ensures StartsWithDigits(b, s)
  {
    hide Matches;
  }

  lemma SecondOf(u: string, v: string)
    requires v != ""
    ensures (u + v)[|u|] == v[0] && (u + v)[|u| + 1..] == v[1..]
  {
  }

  lemma DotBackward(b: Regex, s: string)
    requires StartsWithDigits(b, s)
    ensures Matches(Cat(DIGITS, Cat(Text("."), b)), s)
  {
    hide Matches;
    var n := Decimal.DigitRun(s);
    var u, v := s[..n], s[n..];
    DigitsMatch(u);
    CatText(".", b, v);
    CatMeans(DIGITS, Cat(Text("."), b), s);
    assert s == u + v && v[1..] == s[n + 1..];
  }

  lemma DotStep(b: Regex, s: string)
    ensures Matches(Cat(DIGITS, Cat(Text("."), b)), s) <==> StartsWithDigits(b, s)
  {
    hide Matches, StartsWithDigits;
    if Matches(Cat(DIGITS, Cat(Text("."), b)), s) { DotForward(b, s); }
    if StartsWithDigits(b, s) { DotBackward(b, s); }
  }

  const PATCH: Regex := Cat(DIGITS, SUFFIX)
  const MINOR: Regex := Cat(DIGITS, Cat(Text("."), PATCH))

  lemma CrateVersionMeans(s: string)
    ensures CargoLock.IsVersion(s) <==> Matches(CRATE_VERSION, s)
  {
    hide Matches, CargoLock.IsPatch;
    assert CRATE_VERSION == Cat(DIGITS, Cat(Text("."), MINOR));
    DotStep(MINOR, s);
    var n := Decimal.DigitRun(s);
    if n > 0 && n < |s| && s[n] == '.' {
      var t := s[n + 1..];
      DotStep(PATCH, t);
      var m := Decimal.DigitRun(t);
      if m > 0 && m < |t| && t[m] == '.' { PatchMeans(t[m + 1..]); }
    }
  }

  /* ----- release identities ----- */

  const LOWER: seq<(char, char)> := [('a', 'z')]
  const ALGORITHM_CHAR: seq<(char, char)> := [('a', 'z'), ('0', '9')] + [('-', '-')]
  const PLATFORM_CHAR: seq<(char, char)> := [('a', 'z'), ('0', '9')] + [('_', '_')]

  /** `[1-9][0-9]*` */
  const POSITIVE: Regex := Cat(Class(NONZERO), Star(Class(DIGIT)))

  /** `(?:0|[1-9][0-9]*)` */
  const NUMBER: Regex := Alt(Text("0"), POSITIVE)

  lemma PositiveMeans(s: string)
    ensures Matches(POSITIVE, s) <==> s != "" && s[0] != '0' && Decimal.AllDigits(s)
  {
    CatClass(NONZERO, Star(Class(DIGIT)), s);
    if s != "" {
      One(('1', '9'), s[0]);
      StarClass(DIGIT, s[1..]);
      DigitsMean(s[1..]);
      hide Matches, InClass;
      assert forall k | 0 < k < |s| :: s[k] == s[1..][k - 1];
    }
  }

  lemma NumberMeans(s: string)
    ensures ReleasePlan.IsNumber(s) <==> Matches(NUMBER, s)
  {
    PositiveMeans(s);
  }

  /** `[a-z][a-z0-9-]*-v[1-9][0-9]*` */
  const ALGORITHM: Regex :=
    Cat(Class(LOWER), Cat(Star(Class(ALGORITHM_CHAR)), Cat(Text("-v"), POSITIVE)))

  ghost predicate AlgorithmChars(s: string) {
    forall i | 0 <= i < |s| :: 'a' <= s[i] <= 'z' || '0' <= s[i] <= '9' || s[i] == '-'
  }

  lemma AlgorithmCharsMean(s: string)
    ensures AllIn(ALGORITHM_CHAR, s) <==> AlgorithmChars(s)
  {
    forall c ensures InClass(ALGORITHM_CHAR, c) <==> 'a' <= c <= 'z' || '0' <= c <= '9' || c == '-' {
      Two(('a', 'z'), ('0', '9'), c);
      OneMore([('a', 'z'), ('0', '9')], ('-', '-'), c);
    }
    hide InClass;
  }

  lemma AlgorithmMeans(s: string)
    ensures ReleasePlan.IsAlgorithm(s) <==> Matches(ALGORITHM, s)
  {
    var tail := Cat(Text("-v"), POSITIVE);
    CatClass(LOWER, Cat(Star(Class(ALGORITHM_CHAR)), tail), s);
    if s != "" {
      One(('a', 'z'), s[0]);
      CatMeans(Star(Class(ALGORITHM_CHAR)), tail, s[1..]);
      forall u ensures Matches(Star(Class(ALGORITHM_CHAR)), u) <==> AlgorithmChars(u) {
        StarClass(ALGORITHM_CHAR, u);
        AlgorithmCharsMean(u);
      }
      forall v ensures Matches(tail, v) <==> "-v" <= v && Matches(POSITIVE, v[2..]) { CatText("-v", POSITIVE, v); }
      forall v ensures Matches(POSITIVE, v) <==> v != "" && v[0] != '0' && Decimal.AllDigits(v) { PositiveMeans(v); }
      hide Matches, InClass;
      AlgorithmSplits(s);
    }
  }

  /** `-v`, and a number without a leading zero. */
  ghost predicate IsVersionTail(v: string) {
    "-v" <= v && v[2..] != "" && v[2..][0] != '0' && Decimal.AllDigits(v[2..])
  }

  lemma AlgorithmSplits(s: string)
    requires s != ""
    ensures ReleasePlan.IsAlgorithm(s) <==>
              'a' <= s[0] <= 'z' && exists u, v :: s[1..] == u + v && AlgorithmChars(u) && IsVersionTail(v)
  {
    hide IsVersionTail, AlgorithmChars, ReleasePlan.IsAlgorithm;
    if ReleasePlan.IsAlgorithm(s) {
      var u, v := AlgorithmParts(s);
    }
    if u, v :| s[1..] == u + v && AlgorithmChars(u) && IsVersionTail(v) {
      if 'a' <= s[0] <= 'z' {
        PartsAreAlgorithm(s[0], u, v);
        assert s == [s[0]] + u + v;
      }
    }
  }

  lemma AlgorithmParts(s: string) returns (u: string, v: string)
    requires ReleasePlan.IsAlgorithm(s)
    ensures s != "" && 'a' <= s[0] <= 'z' && s[1..] == u + v && AlgorithmChars(u) && IsVersionTail(v)
  {
    var i :| 1 <= i < |s| - 2 && s[i] == '-' && s[i + 1] == 'v'
      && ReleasePlan.IsLower(s[0])
      && ReleasePlan.Every(s[..i], ReleasePlan.IsAlgorithmChar)
      && s[i + 2] != '0' && ReleasePlan.Every(s[i + 2..], Decimal.IsDigit);
    hide ReleasePlan.IsAlgorithm;
    u, v := s[1..i], s[i..];
    hide ReleasePlan.Every, IsVersionTail, AlgorithmChars;
    TailAt(s, i);
    CharsBefore(s, i);
    CutAfterFirst(s, i);
  }

  lemma CutAfterFirst(s: string, i: nat)
    requires 1 <= i <= |s|
    ensures s[1..] == s[1..i] + s[i..]
  {
  }

  lemma TailAt(s: string, i: nat)
    requires i < |s| - 2 && s[i] == '-' && s[i + 1] == 'v' && s[i + 2] != '0'
    requires ReleasePlan.Every(s[i + 2..], Decimal.IsDigit)
    ensures IsVersionTail(s[i..])
  {
    var v := s[i..];
    assert v[2..] == s[i + 2..] && v[0] == '-' && v[1] == 'v';
  }

  lemma CharsBefore(s: string, i: nat)
    requires 1 <= i <= |s| && ReleasePlan.Every(s[..i], ReleasePlan.IsAlgorithmChar)
    ensures AlgorithmChars(s[1..i])
  {
    var u := s[1..i];
    forall k | 0 <= k < |u| ensures 'a' <= u[k] <= 'z' || '0' <= u[k] <= '9' || u[k] == '-' {
      assert u[k] == s[..i][k + 1];
    }
  }

  lemma PartsAreAlgorithm(c: char, u: string, v: string)
    requires 'a' <= c <= 'z' && AlgorithmChars(u) && IsVersionTail(v)
    ensures ReleasePlan.IsAlgorithm([c] + u + v)
  {
    var s, i := [c] + u + v, 1 + |u|;
    assert s[i] == v[0] && s[i + 1] == v[1] && s[i + 2] == v[2] && s[i + 2..] == v[2..];
    assert s[..i] == [c] + u;
    assert ReleasePlan.Every(s[..i], ReleasePlan.IsAlgorithmChar);
    assert ReleasePlan.Every(s[i + 2..], Decimal.IsDigit);
  }

  /* ----- platforms ----- */

  const VARIANT: Regex := Maybe(Cat(Text("/v"), Plus(Class(DIGIT))))

  /** `linux/[a-z0-9_]+(?:/v[0-9]+)?` */
  const PLATFORM: Regex := Cat(Text("linux/"), Cat(Plus(Class(PLATFORM_CHAR)), VARIANT))

  predicate IsArchitecture(s: string) {
    s != "" && ReleasePlan.Every(s, ReleasePlan.IsPlatformChar)
  }

  lemma ArchitectureMeans(s: string)
    ensures Matches(Plus(Class(PLATFORM_CHAR)), s) <==> IsArchitecture(s)
  {
    PlusClass(PLATFORM_CHAR, s);
    forall c ensures InClass(PLATFORM_CHAR, c) <==> ReleasePlan.IsLower(c) || Decimal.IsDigit(c) || c == '_' {
      Two(('a', 'z'), ('0', '9'), c);
      OneMore([('a', 'z'), ('0', '9')], ('_', '_'), c);
    }
    hide InClass, Matches;
  }

  lemma NoSlash(s: string)
    requires IsArchitecture(s)
    ensures '/' !in s
  {
    assert forall i | 0 <= i < |s| :: ReleasePlan.IsPlatformChar(s[i]);
  }

  lemma VariantMeans(s: string)
    ensures Matches(VARIANT, s) <==> s == "" || (|s| >= 3 && s[..2] == "/v" && Decimal.AllDigits(s[2..]))
  {
    MaybeMeans(Cat(Text("/v"), Plus(Class(DIGIT))), s);
    CatText("/v", Plus(Class(DIGIT)), s);
    if "/v" <= s { DigitsMatch(s[2..]); }
    hide Matches;
    assert |s| >= 2 ==> ("/v" <= s <==> s[..2] == "/v");
  }

  ghost predicate IsVariant(v: string) { v == "" || (|v| >= 3 && v[..2] == "/v" && Decimal.AllDigits(v[2..])) }

  lemma PlatformForward(s: string) returns (u: string, v: string)
    requires Matches(PLATFORM, s)
    ensures s == "linux/" + (u + v) && IsArchitecture(u) && IsVariant(v)
  {
    CatText("linux/", Cat(Plus(Class(PLATFORM_CHAR)), VARIANT), s);
    CatMeans(Plus(Class(PLATFORM_CHAR)), VARIANT, s[6..]);
    u, v :| s[6..] == u + v && Matches(Plus(Class(PLATFORM_CHAR)), u) && Matches(VARIANT, v);
    ArchitectureMeans(u);
    VariantMeans(v);
    hide Matches, IsArchitecture;
    assert s == s[..6] + s[6..];
  }

  lemma PlatformBackward(u: string, v: string)
    requires IsArchitecture(u) && IsVariant(v)
    ensures Matches(PLATFORM, "linux/" + (u + v))
  {
    var s := "linux/" + (u + v);
    ArchitectureMeans(u);
    VariantMeans(v);
    hide IsArchitecture;
    CatText("linux/", Cat(Plus(Class(PLATFORM_CHAR)), VARIANT), s);
    CatMeans(Plus(Class(PLATFORM_CHAR)), VARIANT, u + v);
    hide Matches;
    assert s[6..] == u + v;
  }

  lemma VariantSplits(u: string, v: string)
    requires '/' !in u && IsVariant(v)
    ensures Split(u + v, '/') == if v == "" then [u] else [u, v[1..]]
  {
    hide IsVariant, Split;
    if v == "" {
      assert u + v == u;
      SplitWord(u, '/');
    } else {
      var w := v[1..];
      assert u + v == u + ['/'] + w by { VariantStart(v); }
      SplitFront(u, '/', w);
      VariantNoSlash(v);
      SplitWord(w, '/');
    }
  }

  lemma VariantStart(v: string)
    requires IsVariant(v) && v != ""
    ensures v == ['/'] + v[1..] && v[1..][0] == 'v' && v[1..][1..] == v[2..] && v[2..] != ""
  {
    assert v[0] == v[..2][0] && v[1] == v[..2][1];
  }

  lemma VariantNoSlash(v: string)
    requires IsVariant(v) && v != ""
    ensures '/' !in v[1..]
  {
    VariantStart(v);
    assert forall i | 1 <= i < |v[1..]| :: v[1..][i] == v[2..][i - 1] && Decimal.IsDigit(v[2..][i - 1]);
  }

  lemma PartsArePlatform(u: string, v: string)
    requires IsArchitecture(u) && IsVariant(v)
    ensures ReleasePlan.IsPlatform("linux/" + (u + v))
  {
    NoSlash(u);
    VariantSplits(u, v);
    SplitFront("linux", '/', u + v);
    assert "linux" + ['/'] + (u + v) == "linux/" + (u + v);
    hide Split;
    if v != "" { VariantStart(v); }
    hide IsVariant;
  }

  lemma PlatformParts(s: string) returns (u: string, v: string)
    requires ReleasePlan.IsPlatform(s)
    ensures s == "linux/" + (u + v) && IsArchitecture(u) && IsVariant(v)
  {
    hide Split;
    var rest := SplitHead(s, '/');
    var last := SplitHead(rest, '/');
    var parts := Split(s, '/');
    u := parts[1];
    assert u == Split(rest, '/')[0];
    assert s == "linux/" + rest;
    v := if |parts| == 2 then "" else "/" + last;
    if |parts| == 3 {
      assert Split(last, '/') == Split(rest, '/')[1..] == parts[2..];
      var none := SplitHead(last, '/');
      assert last == parts[2];
      LastIsVariant(last);
    }
    hide ReleasePlan.IsPlatform, IsVariant;
    assert rest == u + v;
  }

  lemma LastIsVariant(last: string)
    requires |last| >= 2 && last[0] == 'v' && ReleasePlan.Every(last[1..], Decimal.IsDigit)
    ensures IsVariant("/" + last)
  {
    var v := "/" + last;
    assert v[..2] == "/v" && v[2..] == last[1..];
  }

  lemma PlatformMeans(s: string)
    ensures ReleasePlan.IsPlatform(s) <==> Matches(PLATFORM, s)
  {
    hide Matches, ReleasePlan.IsPlatform, IsArchitecture, IsVariant;
    if Matches(PLATFORM, s) {
      var u, v := PlatformForward(s);
      PartsArePlatform(u, v);
    }
    if ReleasePlan.IsPlatform(s) {
      var u, v := PlatformParts(s);
      PlatformBackward(u, v);
    }
  }

  /* ----- semantic versions ----- */

  const DASHED: seq<(char, char)> := [('0', '9'), ('A', 'Z')] + [('a', 'z')] + [('-', '-')]
  const NONDIGIT: seq<(char, char)> := [('A', 'Z'), ('a', 'z')] + [('-', '-')]

  const WORD: Regex := Cat(Star(Class(DASHED)), Cat(Class(NONDIGIT), Star(Class(DASHED))))

  /** `(?:NUMBER|[0-9A-Za-z-]*[A-Za-z-][0-9A-Za-z-]*)` */
  const PRERELEASE: Regex := Alt(NUMBER, WORD)

  /** `PRERELEASE(?:\.PRERELEASE)*` */
  const PRERELEASES: Regex := Cat(PRERELEASE, Star(Cat(Text("."), PRERELEASE)))

  const DASH_PRERELEASES: Regex := Maybe(Cat(Text("-"), PRERELEASES))

  /** `NUMBER\.NUMBER\.NUMBER(?:-PRERELEASE(?:\.PRERELEASE)*)?` */
  const VERSION: Regex :=
    Cat(NUMBER, Cat(Text("."), Cat(NUMBER, Cat(Text("."), Cat(NUMBER, DASH_PRERELEASES)))))

  lemma DashedMeans(c: char)
    ensures InClass(DASHED, c) <==> Decimal.IsDigit(c) || ReleasePlan.IsAlpha(c) || c == '-'
    ensures InClass(NONDIGIT, c) <==> ReleasePlan.IsAlpha(c) || c == '-'
  {
    Two(('0', '9'), ('A', 'Z'), c);
    OneMore([('0', '9'), ('A', 'Z')], ('a', 'z'), c);
    OneMore([('0', '9'), ('A', 'Z')] + [('a', 'z')], ('-', '-'), c);
    Two(('A', 'Z'), ('a', 'z'), c);
    OneMore([('A', 'Z'), ('a', 'z')], ('-', '-'), c);
    hide InClass;
  }

  ghost predicate IsDashedWord(s: string) {
    AllIn(DASHED, s) && exists i :: 0 <= i < |s| && InClass(NONDIGIT, s[i])
  }

  lemma WordForward(s: string)
    requires Matches(WORD, s)
    ensures IsDashedWord(s)
  {
    CatMeans(Star(Class(DASHED)), Cat(Class(NONDIGIT), Star(Class(DASHED))), s);
    var u, v :| s == u + v && Matches(Star(Class(DASHED)), u)
      && Matches(Cat(Class(NONDIGIT), Star(Class(DASHED))), v);
    StarClass(DASHED, u);
    CatClass(NONDIGIT, Star(Class(DASHED)), v);
    StarClass(DASHED, v[1..]);
    DashedMeans(v[0]);
    hide Matches, InClass;
    assert s[|u|] == v[0];
    forall i | 0 <= i < |s| ensures InClass(DASHED, s[i]) {
      if i > |u| { assert s[i] == v[1..][i - |u| - 1]; }
    }
  }

  lemma WordBackward(s: string)
    requires IsDashedWord(s)
    ensures Matches(WORD, s)
  {
    var i :| 0 <= i < |s| && InClass(NONDIGIT, s[i]);
    var u, v := s[..i], s[i..];
    assert s == u + v;
    StarClass(DASHED, u);
    CatClass(NONDIGIT, Star(Class(DASHED)), v);
    assert forall k | 0 <= k < |v[1..]| :: v[1..][k] == s[i + 1 + k];
    StarClass(DASHED, v[1..]);
    CatMeans(Star(Class(DASHED)), Cat(Class(NONDIGIT), Star(Class(DASHED))), s);
    hide Matches, InClass;
  }

  lemma PrereleaseMeans(s: string)
    ensures ReleasePlan.IsPrereleasePart(s) <==> Matches(PRERELEASE, s)
  {
    NumberMeans(s);
    forall c
      ensures InClass(DASHED, c) <==> Decimal.IsDigit(c) || ReleasePlan.IsAlpha(c) || c == '-'
      ensures InClass(NONDIGIT, c) <==> ReleasePlan.IsAlpha(c) || c == '-'
    {
      DashedMeans(c);
    }
    assert Matches(PRERELEASE, s) <==> Matches(NUMBER, s) || Matches(WORD, s);
    hide Matches, InClass, ReleasePlan.IsNumber;
    if Matches(WORD, s) { WordForward(s); }
    if IsDashedWord(s) { WordBackward(s); }
  }

  lemma PrereleaseNoDot(s: string)
    requires Matches(PRERELEASE, s)
    ensures '.' !in s
  {
    PrereleaseMeans(s);
    hide Matches;
    if !ReleasePlan.IsNumber(s) {
      assert forall i | 0 <= i < |s| :: ReleasePlan.IsDashed(s[i]);
    } else {
      NumberChars(s);
    }
  }

  lemma NumberChars(s: string)
    requires ReleasePlan.IsNumber(s)
    ensures '.' !in s && '-' !in s
  {
    assert forall i | 0 <= i < |s| :: Decimal.IsDigit(s[i]);
  }

  ghost predicate AllParts(s: string) { forall part :: part in Split(s, '.') ==> Matches(PRERELEASE, part) }

  const DOT_PRERELEASE: Regex := Cat(Text("."), PRERELEASE)

  lemma TailForward(v: string) returns (rest: string)
    requires Matches(Star(DOT_PRERELEASE), v) && v != ""
    ensures v == ['.'] + rest && Matches(PRERELEASES, rest)
  {
    hide Matches;
    StarMeans(DOT_PRERELEASE, v);
    var x, y :| v == x + y && x != "" && Matches(DOT_PRERELEASE, x) && Matches(Star(DOT_PRERELEASE), y);
    CatText(".", PRERELEASE, x);
    rest := x[1..] + y;
    CatMeans(PRERELEASE, Star(DOT_PRERELEASE), rest);
    assert x == ['.'] + x[1..];
  }

  /** What a list of parts starts with. */
  lemma ListForward(s: string) returns (u: string, rest: string)
    requires Matches(PRERELEASES, s)
    ensures Matches(PRERELEASE, u)
    ensures s == u || (s == u + ['.'] + rest && Matches(PRERELEASES, rest))
  {
    CatMeans(PRERELEASE, Star(DOT_PRERELEASE), s);
    hide Matches;
    var v: string;
    u, v :| s == u + v && Matches(PRERELEASE, u) && Matches(Star(DOT_PRERELEASE), v);
    rest := "";
    if v == "" {
      assert s == u;
    } else {
      rest := TailForward(v);
      assert s == u + ['.'] + rest;
    }
  }

  lemma ListOne(u: string)
    requires Matches(PRERELEASE, u)
    ensures Matches(PRERELEASES, u)
  {
    CatMeans(PRERELEASE, Star(Cat(Text("."), PRERELEASE)), u);
    StarMeans(Cat(Text("."), PRERELEASE), "");
    hide Matches;
    assert u == u + "";
  }

  lemma TailMore(rest: string)
    requires Matches(PRERELEASES, rest)
    ensures Matches(Star(DOT_PRERELEASE), ['.'] + rest)
  {
    CatMeans(PRERELEASE, Star(DOT_PRERELEASE), rest);
    hide Matches;
    var x, y :| rest == x + y && Matches(PRERELEASE, x) && Matches(Star(DOT_PRERELEASE), y);
    DotOne(x);
    StarMore(DOT_PRERELEASE, ['.'] + x, y);
    assert ['.'] + rest == (['.'] + x) + y;
  }

  lemma DotOne(x: string)
    requires Matches(PRERELEASE, x)
    ensures Matches(DOT_PRERELEASE, ['.'] + x)
  {
    CatText(".", PRERELEASE, ['.'] + x);
    hide Matches;
    assert (['.'] + x)[1..] == x;
  }

  lemma StarMore(r: Regex, x: string, y: string)
    requires x != "" && Matches(r, x) && Matches(Star(r), y)
    ensures Matches(Star(r), x + y)
  {
    StarMeans(r, x + y);
    hide Matches;
  }

  lemma ListMore(u: string, rest: string)
    requires Matches(PRERELEASE, u) && Matches(PRERELEASES, rest)
    ensures Matches(PRERELEASES, u + ['.'] + rest)
  {
    TailMore(rest);
    CatMeans(PRERELEASE, Star(DOT_PRERELEASE), u + ['.'] + rest);
    hide Matches;
    assert u + ['.'] + rest == u + (['.'] + rest);
  }

  lemma {:induction false} ListMeans(s: string)
    ensures Matches(PRERELEASES, s) <==> AllParts(s)
    decreases |s|
  {
    hide Matches;
    if Matches(PRERELEASES, s) {
      var u, rest := ListForward(s);
      PrereleaseNoDot(u);
      if s == u {
        SplitWord(u, '.');
      } else {
        SplitFront(u, '.', rest);
        ListMeans(rest);
      }
      hide Split;
    } else if AllParts(s) {
      var rest := SplitHead(s, '.');
      var parts := Split(s, '.');
      assert parts[0] in parts;
      if |parts| == 1 {
        ListOne(s);
      } else {
        assert forall part | part in parts[1..] :: part in parts;
        assert AllParts(rest);
        ListMeans(rest);
        ListMore(parts[0], rest);
      }
    }
  }

  /** Three numbers with dots between them, and what follows. */
  ghost predicate IsVersionOf(s: string, a: string, b: string, c: string, tail: string) {
    && s == a + ['.'] + (b + ['.'] + (c + tail))
    && Matches(NUMBER, a) && Matches(NUMBER, b) && Matches(NUMBER, c)
    && (tail == "" || (tail[0] == '-' && Matches(PRERELEASES, tail[1..])))
  }

  lemma TailMeans(tail: string)
    ensures Matches(DASH_PRERELEASES, tail) <==> tail == "" || (tail[0] == '-' && Matches(PRERELEASES, tail[1..]))
  {
    MaybeMeans(Cat(Text("-"), PRERELEASES), tail);
    CatText("-", PRERELEASES, tail);
    hide Matches;
  }

  lemma NumberDotForward(r: Regex, s: string) returns (u: string, v: string)
    requires Matches(Cat(NUMBER, Cat(Text("."), r)), s)
    ensures s == u + ['.'] + v && Matches(NUMBER, u) && Matches(r, v)
  {
    CatMeans(NUMBER, Cat(Text("."), r), s);
    var w: string;
    u, w :| s == u + w && Matches(NUMBER, u) && Matches(Cat(Text("."), r), w);
    CatText(".", r, w);
    hide Matches;
    v := w[1..];
    assert w == ['.'] + v;
  }

  lemma NumberDotBackward(r: Regex, u: string, v: string)
    requires Matches(NUMBER, u) && Matches(r, v)
    ensures Matches(Cat(NUMBER, Cat(Text("."), r)), u + ['.'] + v)
  {
    CatText(".", r, ['.'] + v);
    CatMeans(NUMBER, Cat(Text("."), r), u + ['.'] + v);
    hide Matches;
    assert (['.'] + v)[1..] == v && u + ['.'] + v == u + (['.'] + v);
  }

  const LAST: Regex := Cat(NUMBER, DASH_PRERELEASES)
  const LAST_TWO: Regex := Cat(NUMBER, Cat(Text("."), LAST))

  lemma VersionForward(s: string) returns (a: string, b: string, c: string, tail: string)
    requires Matches(VERSION, s)
    ensures IsVersionOf(s, a, b, c, tail)
  {
    hide Matches;
    var rest, last: string;
    a, rest := NumberDotForward(LAST_TWO, s);
    b, last := NumberDotForward(LAST, rest);
    CatMeans(NUMBER, DASH_PRERELEASES, last);
    c, tail :| last == c + tail && Matches(NUMBER, c) && Matches(DASH_PRERELEASES, tail);
    TailMeans(tail);
  }

  lemma VersionBackward(s: string, a: string, b: string, c: string, tail: string)
    requires IsVersionOf(s, a, b, c, tail)
    ensures Matches(VERSION, s)
  {
    hide Matches;
    TailMeans(tail);
    CatMeans(NUMBER, DASH_PRERELEASES, c + tail);
    NumberDotBackward(LAST, b, c + tail);
    NumberDotBackward(LAST_TWO, a, b + ['.'] + (c + tail));
  }

  lemma {:induction false} CoreOf(core: string, tail: string)
    requires '-' !in core && (tail == "" || tail[0] == '-')
    ensures ReleasePlan.Core(core + tail) == core
  {
    if core == "" {
      assert core + tail == tail;
    } else {
      CoreOf(core[1..], tail);
      assert (core + tail)[1..] == core[1..] + tail;
      assert [core[0]] + core[1..] == core;
    }
  }

  lemma {:induction false} CoreSplits(s: string)
    ensures ReleasePlan.Core(s) <= s && '-' !in ReleasePlan.Core(s)
    ensures |ReleasePlan.Core(s)| < |s| ==> s[|ReleasePlan.Core(s)|] == '-'
  {
    if s != "" && s[0] != '-' { CoreSplits(s[1..]); }
  }

  lemma SplitThree(a: string, b: string, c: string)
    requires '.' !in a && '.' !in b && '.' !in c
    ensures Split(a + ['.'] + (b + ['.'] + c), '.') == [a, b, c]
  {
    SplitFront(a, '.', b + ['.'] + c);
    SplitFront(b, '.', c);
    SplitWord(c, '.');
    hide Split;
  }

  lemma NumberText(s: string)
    requires Matches(NUMBER, s)
    ensures ReleasePlan.IsNumber(s) && '.' !in s && '-' !in s
  {
    NumberMeans(s);
    NumberChars(s);
  }

  lemma PrereleasesMean(tail: string)
    ensures Matches(PRERELEASES, tail) <==>
              forall part :: part in Split(tail, '.') ==> ReleasePlan.IsPrereleasePart(part)
  {
    ListMeans(tail);
    forall part ensures ReleasePlan.IsPrereleasePart(part) <==> Matches(PRERELEASE, part) { PrereleaseMeans(part); }
    hide Matches, Split, ReleasePlan.IsPrereleasePart;
  }

  lemma PartsAreVersion(s: string, a: string, b: string, c: string, tail: string)
    requires IsVersionOf(s, a, b, c, tail)
    ensures ReleasePlan.IsVersion(s)
  {
    hide Matches, Split, ReleasePlan.IsNumber, ReleasePlan.IsPrereleasePart, ReleasePlan.Core;
    NumberText(a);
    NumberText(b);
    NumberText(c);
    var core := a + ['.'] + (b + ['.'] + c);
    assert s == core + tail;
    CoreOf(core, tail);
    SplitThree(a, b, c);
    if tail != "" {
      PrereleasesMean(tail[1..]);
      assert s[|core| + 1..] == tail[1..];
    }
  }

  lemma SplitIntoThree(core: string) returns (a: string, b: string, c: string)
    requires |Split(core, '.')| == 3
    ensures core == a + ['.'] + (b + ['.'] + c) && Split(core, '.') == [a, b, c]
  {
    var rest := SplitHead(core, '.');
    var last := SplitHead(rest, '.');
    var none := SplitHead(last, '.');
    var parts := Split(core, '.');
    a, b, c := parts[0], parts[1], parts[2];
    assert Split(rest, '.') == parts[1..];
    assert Split(last, '.') == parts[1..][1..];
    hide Split;
  }

  lemma VersionParts(s: string) returns (a: string, b: string, c: string, tail: string)
    requires ReleasePlan.IsVersion(s)
    ensures IsVersionOf(s, a, b, c, tail)
  {
    hide Split, ReleasePlan.IsNumber, ReleasePlan.IsPrereleasePart, ReleasePlan.Core, Matches;
    var core := ReleasePlan.Core(s);
    CoreSplits(s);
    tail := s[|core|..];
    a, b, c := SplitIntoThree(core);
    assert a in Split(core, '.') && b in Split(core, '.') && c in Split(core, '.');
    NumberMeans(a);
    NumberMeans(b);
    NumberMeans(c);
    assert s == core + tail;
    if tail != "" {
      assert tail[1..] == s[|core| + 1..];
      PrereleasesMean(tail[1..]);
    }
  }

  lemma VersionMeans(s: string)
    ensures ReleasePlan.IsVersion(s) <==> Matches(VERSION, s)
  {
    hide Matches, ReleasePlan.IsVersion, IsVersionOf;
    if Matches(VERSION, s) {
      var a, b, c, tail := VersionForward(s);
      PartsAreVersion(s, a, b, c, tail);
    }
    if ReleasePlan.IsVersion(s) {
      var a, b, c, tail := VersionParts(s);
      VersionBackward(s, a, b, c, tail);
    }
  }
}
