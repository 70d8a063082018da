/** What the joining of Dockerfile lines into instructions depends on. */
module LogicalLines {
  import opened Basics
  import opened Decimal
  import opened Dockerfile

  predicate IsComment(line: string) { "#" <= Strip(line) }

  predicate Continues(line: string) {
    var s := Strip(line);
    s != "" && s[|s| - 1] == '\\'
  }

  /** The text of a continued line: without its backslash and the blanks in front of it. */
  function Continued(line: string): string
    requires Continues(line)
  {
    StripRight(Strip(line)[..|Strip(line)| - 1])
  }

  /** The instructions that are complete after the lines, and what is joined so far of the next. */
  function Joined(lines: seq<string>, buffer: string): (seq<string>, string) {
    if lines == [] then ([], buffer)
    else
      var line, rest := Strip(lines[0]), lines[1..];
      if "#" <= line || (buffer == "" && line == "") then Joined(rest, buffer)
      else if Continues(lines[0]) then Joined(rest, buffer + Continued(lines[0]) + " ")
      else
        var (out, left) := Joined(rest, "");
        ([buffer + line] + out, left)
  }

  /** Lines are read one after the other. */
  lemma {:induction false} InstructionsAppend(a: seq<string>, b: seq<string>, buffer: string)
    ensures Instructions(a + b, buffer) == Joined(a, buffer).0 + Instructions(b, Joined(a, buffer).1)
    decreases |a|
  {
    if a == [] {
      assert a + b == b;
    } else {
      assert (a + b)[1..] == a[1..] + b;
      var line := Strip(a[0]);
      if "#" <= line || (buffer == "" && line == "") {
        InstructionsAppend(a[1..], b, buffer);
      } else if Continues(a[0]) {
        InstructionsAppend(a[1..], b, buffer + Continued(a[0]) + " ");
      } else {
        InstructionsAppend(a[1..], b, "");
        Associate([buffer + line], Joined(a[1..], "").0, Instructions(b, Joined(a[1..], "").1));
      }
    }
  }

  lemma CommentFirst(comment: string, b: seq<string>, buffer: string)
    requires IsComment(comment)
    ensures Instructions([comment] + b, buffer) == Instructions(b, buffer)
  {
    assert ([comment] + b)[1..] == b;
  }

  /** A comment line can stand anywhere, inside a continuation too, without changing the instructions. */
  lemma CommentsDoNotMatter(a: seq<string>, comment: string, b: seq<string>)
    requires IsComment(comment)
    ensures Instructions(a + ([comment] + b), "") == Instructions(a + b, "")
  {
    hide Instructions, Joined, IsComment;
    InstructionsAppend(a, [comment] + b, "");
    InstructionsAppend(a, b, "");
    CommentFirst(comment, b, Joined(a, "").1);
  }

  /* ----- splitting a line ----- */

  lemma {:induction false} StripRightAppend(a: string, t: string)
    requires StripRight(t) != ""
    ensures StripRight(a + t) == a + StripRight(t)
  {
    if IsSpace(t[|t| - 1]) {
      StripRightAppend(a, t[..|t| - 1]);
      assert (a + t)[..|a + t| - 1] == a + t[..|t| - 1];
    }
  }

  /** Something is left of the line when its backslash is taken off. */
  predicate HasText(line: string) {
    !IsComment(line) && Strip(line) != "" && (Continues(line) ==> Continued(line) != "")
  }

  /** The line in which a continued line and the one after it are one. */
  function OneLine(first: string, second: string): string
    requires Continues(first)
  {
    Continued(first) + " " + Strip(second)
  }

  lemma ContinuedStart(line: string)
    requires Continues(line) && Continued(line) != ""
    ensures Continued(line)[0] == Strip(line)[0] && !IsSpace(Continued(line)[0])
  {
    assert Strip(line) <= StripLeft(line);
  }

  lemma OneLineIsStripped(first: string, second: string)
    requires Continues(first) && HasText(first) && HasText(second)
    ensures Strip(OneLine(first, second)) == OneLine(first, second) && !IsComment(OneLine(first, second))
    ensures Continues(OneLine(first, second)) <==> Continues(second)
  {
    ContinuedStart(first);
    var joined, tail := OneLine(first, second), Strip(second);
    assert joined[|joined| - 1] == tail[|tail| - 1] && joined[0] == Strip(first)[0];
    assert StripLeft(joined) == joined;
  }

  lemma OneLineContinued(first: string, second: string)
    requires Continues(first) && HasText(first) && HasText(second) && Continues(second)
    ensures Continues(OneLine(first, second))
            && Continued(OneLine(first, second)) == Continued(first) + " " + Continued(second)
  {
    OneLineIsStripped(first, second);
    var joined, tail := OneLine(first, second), Strip(second);
    var before := Continued(first) + " ";
    assert joined[..|joined| - 1] == before + tail[..|tail| - 1];
    StripRightAppend(before, tail[..|tail| - 1]);
  }

  lemma Unfold(line: string, b: seq<string>, buffer: string)
    requires !IsComment(line) && (buffer != "" || Strip(line) != "")
    ensures Instructions([line] + b, buffer) ==
              if Continues(line) then Instructions(b, buffer + Continued(line) + " ")
                else [buffer + Strip(line)] + Instructions(b, "")
  {
    assert ([line] + b)[1..] == b;
  }

  lemma JoinTwo(first: string, second: string, b: seq<string>, buffer: string)
    requires Continues(first) && HasText(first) && HasText(second)
    ensures Instructions([first] + ([second] + b), buffer) == Instructions([OneLine(first, second)] + b, buffer)
  {
    var between := buffer + Continued(first) + " ";
    OneLineIsStripped(first, second);
    Unfold(first, [second] + b, buffer);
    Unfold(second, b, between);
    Unfold(OneLine(first, second), b, buffer);
    hide Instructions, Continued, Continues, Strip, IsComment;
    if Continues(second) {
      OneLineContinued(first, second);
      Rejoin(buffer, Continued(first), " ", Continued(second));
    } else {
      Rejoin(buffer, Continued(first), " ", Strip(second));
    }
  }

  /** A line can be split by a backslash into two, anywhere, without changing the instructions. */
  lemma SplittingDoesNotMatter(a: seq<string>, first: string, second: string, b: seq<string>)
    requires Continues(first) && HasText(first) && HasText(second)
    ensures Instructions(a + ([first] + ([second] + b)), "") == Instructions(a + ([OneLine(first, second)] + b), "")
  {
    hide Instructions, Joined, HasText, Continues, OneLine;
    InstructionsAppend(a, [first] + ([second] + b), "");
    InstructionsAppend(a, [OneLine(first, second)] + b, "");
    JoinTwo(first, second, b, Joined(a, "").1);
  }

  /* ----- lines that are instructions already ----- */

  /** A trimmed line that is no comment and is not continued. */
  predicate IsPlain(line: string) { line != "" && Strip(line) == line && line[0] != '#' && line[|line| - 1] != '\\' }

  /** Instructions written one to a line are read back as they are. */
  lemma {:induction false} PlainLinesRoundTrip(lines: seq<string>)
    requires forall line | line in lines :: IsPlain(line)
    ensures Instructions(lines, "") == lines
  {
    if lines != [] {
      PlainIsWhole(lines[0]);
      Unfold(lines[0], lines[1..], "");
      assert forall line | line in lines[1..] :: line in lines;
      hide Instructions, IsPlain, IsComment, Continues, Strip;
      PlainLinesRoundTrip(lines[1..]);
      assert lines == [lines[0]] + lines[1..] && "" + lines[0] == lines[0];
    }
  }

  lemma PlainIsWhole(line: string)
    requires IsPlain(line)
    ensures !IsComment(line) && !Continues(line) && Strip(line) == line
  {
    hide Instructions;
  }

  /** No instruction is empty, and none is left of blank lines and comments alone. */
  lemma {:induction false} InstructionsHaveText(lines: seq<string>, buffer: string)
    ensures forall instruction | instruction in Instructions(lines, buffer) :: instruction != ""
    ensures buffer == "" && (forall line | line in lines :: IsComment(line) || Strip(line) == "")
            ==> Instructions(lines, buffer) == []
  {
    if lines != [] {
      var line, rest := Strip(lines[0]), lines[1..];
      assert forall l | l in rest :: l in lines;
      if "#" <= line || (buffer == "" && line == "") {
        InstructionsHaveText(rest, buffer);
      } else if line != "" && line[|line| - 1] == '\\' {
        InstructionsHaveText(rest, buffer + StripRight(line[..|line| - 1]) + " ");
        assert lines[0] in lines;
      } else {
        InstructionsHaveText(rest, "");
        assert lines[0] in lines;
      }
    }
  }
}
