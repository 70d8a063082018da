/** Python's whitespace splitting on ASCII text. */
module PyText {
  import opened Basics
  import opened Decimal

  predicate IsToken(w: string) { w != [] && forall i | 0 <= i < |w| :: !IsSpace(w[i]) }

  function TokenLength(s: string): (n: nat)
    ensures n <= |s| && (n < |s| ==> IsSpace(s[n]))
    ensures forall i | 0 <= i < n :: !IsSpace(s[i])
  {
    if s == [] || IsSpace(s[0]) then 0 else 1 + TokenLength(s[1..])
  }

  lemma {:induction false} StripLeftShrinks(s: string)
    ensures |StripLeft(s)| <= |s|
  {
    if s != [] && IsSpace(s[0]) { StripLeftShrinks(s[1..]); }
  }

  /** `s.split()` */
  function Tokens(s: string): seq<string>
    decreases |s|
  {
    var t := StripLeft(s);
    StripLeftShrinks(s);
    if t == [] then []
    else
      var n := TokenLength(t);
      [t[..n]] + Tokens(t[n..])
  }

  lemma {:induction false} TokenRun(w: string, rest: string)
    requires IsToken(w) && (rest == [] || IsSpace(rest[0]))
    ensures TokenLength(w + rest) == |w|
  {
    assert (w + rest)[0] == w[0];
    if |w| == 1 {
      assert (w + rest)[1..] == rest;
    } else {
      TokenRun(w[1..], rest);
      assert (w + rest)[1..] == w[1..] + rest;
    }
  }

  /** A token in front is split off. */
  lemma TokensStart(w: string, rest: string)
    requires IsToken(w) && (rest == [] || IsSpace(rest[0]))
    ensures Tokens(w + rest) == [w] + Tokens(rest)
  {
    assert (w + rest)[0] == w[0];
    assert StripLeft(w + rest) == w + rest;
    TokenRun(w, rest);
    assert (w + rest)[..|w|] == w && (w + rest)[|w|..] == rest;
  }

  lemma TokensSpace(c: char, rest: string)
    requires IsSpace(c)
    ensures Tokens([c] + rest) == Tokens(rest)
  {
    assert ([c] + rest)[1..] == rest;
    assert StripLeft([c] + rest) == StripLeft(rest);
  }

  lemma TokenBeforeSpace(w: string, rest: string)
    requires IsToken(w)
    ensures Tokens(w + " " + rest) == [w] + Tokens(rest)
  {
    TokensStart(w, " " + rest);
    TokensSpace(' ', rest);
    hide Tokens, IsToken, IsSpace;
    assert w + " " + rest == w + (" " + rest);
  }

  lemma ThreeTokens(a: string, b: string, c: string)
    requires IsToken(a) && IsToken(b) && IsToken(c)
    ensures Tokens(a + " " + b + " " + c) == [a, b, c]
  {
    TokensStart(c, "");
    assert c + "" == c && Tokens("") == [];
    hide Tokens, IsToken;
    TokenBeforeSpace(b, c);
    TokenBeforeSpace(a, b + " " + c);
    Rejoin(a + " ", b, " ", c);
  }
}
