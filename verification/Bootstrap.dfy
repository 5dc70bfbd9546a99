// src/commands/autopilot.ts: the start line injected into an agent's bootstrap
// file, and its removal.
module Bootstrap {
  import opened Text

  const MARKER := "# gbrain:autopilot v0.11.0"

  function Injected(existing: string, scriptPath: string): string {
    if Contains(existing, MARKER) then existing
    else TrimEnd(existing) + Snippet(scriptPath)
  }

  function Snippet(scriptPath: string): string {
    "\n" + MARKER + "\nbash " + scriptPath + "\n"
  }

  // The lines without the marked ones and the line after each of those.
  function Unmarked(lines: seq<string>): seq<string> {
    if lines == [] then []
    else if Contains(lines[0], MARKER) then (if |lines| == 1 then [] else Unmarked(lines[2..]))
    else [lines[0]] + Unmarked(lines[1..])
  }

  function Joined(lines: seq<string>): string {
    if lines == [] then "" else JoinLines(lines)
  }

  function Uninstalled(content: string): string {
    if Contains(content, MARKER) then Joined(Unmarked(Lines(content))) else content
  }

  class BootstrapFile {
    var text: string

    constructor (text: string)
      ensures this.text == text
    {
      this.text := text;
    }

    method Inject(scriptPath: string) returns (injected: bool)
      modifies this
      ensures injected == !Contains(old(text), MARKER)
      ensures text == Injected(old(text), scriptPath)
    {
      if Contains(text, MARKER) {
        return false;
      }
      text := TrimEnd(text) + Snippet(scriptPath);
      return true;
    }

    method Uninstall() returns (removed: bool)
      modifies this
      ensures removed == Contains(old(text), MARKER)
      ensures text == Uninstalled(old(text))
    {
      if !Contains(text, MARKER) {
        return false;
      }
      var lines := Lines(text);
      var cleaned := [];
      var i := 0;
      while i < |lines|
        invariant 0 <= i
        invariant cleaned + (if i < |lines| then Unmarked(lines[i..]) else []) == Unmarked(lines)
      {
        if Contains(lines[i], MARKER) {
          assert i + 1 < |lines| ==> lines[i..][2..] == lines[i + 2..];
          i := i + 2;
          continue;
        }
        assert lines[i..][1..] == lines[i + 1..];
        cleaned := cleaned + [lines[i]];
        i := i + 1;
      }
      assert cleaned + [] == cleaned;
      text := Joined(cleaned);
      return true;
    }
  }

  // ---- the two are inverse ----

  lemma MarkerIsOneLine()
    ensures OneLine(MARKER) && MARKER != []
  {
  }

  lemma UnmarkedFirst(first: string, rest: seq<string>)
    requires !Contains(first, MARKER)
    ensures Unmarked([first] + rest) == [first] + Unmarked(rest)
  {
    assert ([first] + rest)[1..] == rest;
  }

  lemma {:induction false} UnmarkedKeeps(lines: seq<string>, rest: seq<string>)
    requires forall i :: 0 <= i < |lines| ==> !Contains(lines[i], MARKER)
    ensures Unmarked(lines + rest) == lines + Unmarked(rest)
  {
    if lines == [] {
      assert lines + rest == rest;
    } else {
      var first, later := lines[0], lines[1..];
      assert lines == [first] + later;
      UnmarkedKeeps(later, rest);
      UnmarkedFirst(first, later + rest);
      RegroupLines([first], later, rest);
      RegroupLines([first], later, Unmarked(rest));
    }
  }

  // A text without the marker has no line with it.
  lemma {:induction false} LinesUnmarked(s: string)
    requires !Contains(s, MARKER)
    ensures forall i :: 0 <= i < |Lines(s)| ==> !Contains(Lines(s)[i], MARKER)
    decreases |s|
  {
    var i := IndexOf(s, "\n");
    if i >= 0 {
      SplitAtNewline(s, i);
      var a, b := s[..i], s[i + 1..];
      assert s == "" + a + ("\n" + b) && s == a + "\n" + b + "";
      if Contains(a, MARKER) {
        ContainsWithin("", a, "\n" + b, MARKER);
      }
      if Contains(b, MARKER) {
        ContainsWithin(a + "\n", b, "", MARKER);
      }
      LinesUnmarked(b);
    }
  }

  lemma TrimmedUnmarked(x: string)
    requires !Contains(x, MARKER)
    ensures !Contains(TrimEnd(x), MARKER)
  {
    var t := TrimEnd(x);
    assert x == "" + t + x[|t|..];
    if Contains(t, MARKER) {
      ContainsWithin("", t, x[|t|..], MARKER);
    }
  }

  lemma {:induction false} JoinConcat(a: seq<string>, b: seq<string>)
    requires a != [] && b != []
    ensures JoinLines(a + b) == JoinLines(a) + "\n" + JoinLines(b)
  {
    if |a| == 1 {
      assert (a + b)[1..] == b;
    } else {
      JoinConcat(a[1..], b);
      assert (a + b)[1..] == a[1..] + b;
      var head := a[0] + "\n";
      assert head + (JoinLines(a[1..]) + "\n" + JoinLines(b)) == head + JoinLines(a[1..]) + "\n" + JoinLines(b);
    }
  }

  lemma TwoLinesFirst(a: string, b: string, rest: string)
    requires OneLine(a) && OneLine(b)
    ensures Lines(a + "\n" + (b + "\n" + rest)) == [a, b] + Lines(rest)
  {
    LinesFirst(b, rest);
    LinesFirst(a, b + "\n" + rest);
    assert [a] + ([b] + Lines(rest)) == [a, b] + Lines(rest);
  }

  function Body(marker: string, command: string, rest: string): string {
    marker + "\n" + (command + "\n" + rest)
  }

  lemma SnippetShape(t: string, marker: string, scriptPath: string, rest: string)
    ensures t + ("\n" + marker + "\nbash " + scriptPath + "\n") + rest == t + "\n" + Body(marker, "bash " + scriptPath, rest)
  {
    assert "\nbash " + scriptPath == "\n" + ("bash " + scriptPath);
  }

  lemma SnippetHasMarker(t: string, scriptPath: string, rest: string)
    ensures Contains(t + Snippet(scriptPath) + rest, MARKER)
  {
    ContainsAt(MARKER, MARKER, 0);
    var right := "\nbash " + scriptPath + "\n" + rest;
    ContainsWithin(t + "\n", MARKER, right, MARKER);
    assert t + Snippet(scriptPath) + rest == t + "\n" + MARKER + right;
  }

  lemma {:induction false} UnmarkedSnippet(command: string, rest: seq<string>)
    requires forall i :: 0 <= i < |rest| ==> !Contains(rest[i], MARKER)
    ensures Unmarked([MARKER, command] + rest) == rest
  {
    ContainsAt(MARKER, MARKER, 0);
    assert ([MARKER, command] + rest)[2..] == rest;
    UnmarkedKeeps(rest, []);
    assert rest + [] == rest;
  }

  lemma UnmarkInjected(t: string, command: string, rest: string)
    requires !Contains(t, MARKER) && !Contains(rest, MARKER) && OneLine(command)
    ensures Unmarked(Lines(t + "\n" + Body(MARKER, command, rest))) == Lines(t) + Lines(rest)
  {
    MarkerIsOneLine();
    TwoLinesFirst(MARKER, command, rest);
    LinesConcat(t, Body(MARKER, command, rest));
    LinesUnmarked(t);
    LinesUnmarked(rest);
    UnmarkedKeeps(Lines(t), [MARKER, command] + Lines(rest));
    UnmarkedSnippet(command, Lines(rest));
  }

  lemma JoinTwoTexts(a: string, b: string)
    ensures JoinLines(Lines(a) + Lines(b)) == a + "\n" + b
  {
    JoinConcat(Lines(a), Lines(b));
    LinesAreLines(a);
    LinesAreLines(b);
  }

  lemma UnmarkText(t: string, command: string, later: string, text: string)
    requires !Contains(t, MARKER) && !Contains(later, MARKER) && OneLine(command)
    requires text == t + "\n" + Body(MARKER, command, later) && Contains(text, MARKER)
    ensures Uninstalled(text) == t + "\n" + later
  {
    UnmarkInjected(t, command, later);
    JoinTwoTexts(t, later);
  }

  lemma OneLineCommand(scriptPath: string)
    requires OneLine(scriptPath)
    ensures OneLine("bash " + scriptPath)
  {
  }

  // Whatever was written below the injected lines since: uninstalling leaves the
  // original, ended by one newline, and what was written.
  lemma UninstallAfterAppend(x: string, scriptPath: string, later: string)
    requires !Contains(x, MARKER) && !Contains(later, MARKER) && OneLine(scriptPath)
    ensures Uninstalled(Injected(x, scriptPath) + later) == TrimEnd(x) + "\n" + later
  {
    var t := TrimEnd(x);
    SnippetHasMarker(t, scriptPath, later);
    SnippetShape(t, MARKER, scriptPath, later);
    TrimmedUnmarked(x);
    OneLineCommand(scriptPath);
    UnmarkText(t, "bash " + scriptPath, later, Injected(x, scriptPath) + later);
  }

  lemma EmptyUnmarked()
    ensures !Contains("", MARKER)
  {
    assert !OccursAt("", MARKER, 0);
  }

  // Uninstalling what was injected leaves the original, ended by one newline.
  lemma UninstallUndoesInject(x: string, scriptPath: string)
    requires !Contains(x, MARKER) && OneLine(scriptPath)
    ensures Contains(Injected(x, scriptPath), MARKER)
    ensures Uninstalled(Injected(x, scriptPath)) == TrimEnd(x) + "\n"
  {
    EmptyUnmarked();
    UninstallAfterAppend(x, scriptPath, "");
    SnippetHasMarker(TrimEnd(x), scriptPath, "");
    assert Injected(x, scriptPath) + "" == Injected(x, scriptPath);
    assert TrimEnd(x) + "\n" + "" == TrimEnd(x) + "\n";
  }

  // Injecting again changes nothing, and a second install-uninstall cycle
  // gives the same file as the first.
  lemma InjectTwiceAndCycle(x: string, scriptPath: string)
    requires !Contains(x, MARKER) && OneLine(scriptPath)
    ensures Injected(Injected(x, scriptPath), scriptPath) == Injected(x, scriptPath)
    ensures var once := Uninstalled(Injected(x, scriptPath)); Uninstalled(Injected(once, scriptPath)) == once
  {
    var t := TrimEnd(x);
    UninstallUndoesInject(x, scriptPath);
    UninstallRemovesMarker(Injected(x, scriptPath));
    UninstallUndoesInject(t + "\n", scriptPath);
    assert (t + "\n")[..|t|] == t;
    assert TrimEnd(t + "\n") == TrimEnd(t) == t;
  }

  lemma {:induction false} UnmarkedIsUnmarked(lines: seq<string>)
    ensures forall i :: 0 <= i < |Unmarked(lines)| ==> !Contains(Unmarked(lines)[i], MARKER)
    ensures (forall i :: 0 <= i < |lines| ==> OneLine(lines[i])) ==> forall i :: 0 <= i < |Unmarked(lines)| ==> OneLine(Unmarked(lines)[i])
    decreases |lines|
  {
    if lines != [] {
      if !Contains(lines[0], MARKER) {
        UnmarkedIsUnmarked(lines[1..]);
      } else if |lines| > 1 {
        UnmarkedIsUnmarked(lines[2..]);
      }
    }
  }

  lemma {:induction false} JoinUnmarked(lines: seq<string>)
    requires lines != [] && forall i :: 0 <= i < |lines| ==> !Contains(lines[i], MARKER)
    ensures !Contains(JoinLines(lines), MARKER)
  {
    if |lines| > 1 {
      var rest := JoinLines(lines[1..]);
      var text := lines[0] + "\n" + rest;
      JoinUnmarked(lines[1..]);
      MarkerIsOneLine();
      assert text[..|lines[0]|] == lines[0] && text[|lines[0]| + 1..] == rest;
      if Contains(text, MARKER) {
        BesideNewline(text, MARKER, |lines[0]|);
      }
    }
  }

  // After an uninstall the marker is gone, whatever the file held.
  lemma UninstallRemovesMarker(content: string)
    ensures !Contains(Uninstalled(content), MARKER)
  {
    var lines := Unmarked(Lines(content));
    UnmarkedIsUnmarked(Lines(content));
    if lines != [] {
      JoinUnmarked(lines);
    } else {
      EmptyUnmarked();
    }
  }

  lemma {:induction false} LinesOfJoin(lines: seq<string>)
    requires lines != [] && forall i :: 0 <= i < |lines| ==> OneLine(lines[i])
    ensures Lines(JoinLines(lines)) == lines
  {
    LinesOfLine(lines[0]);
    if |lines| > 1 {
      LinesOfJoin(lines[1..]);
      LinesConcat(lines[0], JoinLines(lines[1..]));
      assert lines == [lines[0]] + lines[1..];
    } else {
      assert lines == [lines[0]];
    }
  }

  // ---- which lines survive ----

  // A line with the marker opens a removal unless the line before it did.
  predicate Opens(lines: seq<string>, i: nat)
    requires i < |lines|
  {
    Contains(lines[i], MARKER) && (i == 0 || !Opens(lines, i - 1))
  }

  predicate Removed(lines: seq<string>, i: nat)
    requires i < |lines|
  {
    Opens(lines, i) || (i > 0 && Opens(lines, i - 1))
  }

  // The lines from the i-th on that are not removed.
  function Surviving(lines: seq<string>, i: nat): seq<string>
    requires i <= |lines|
    decreases |lines| - i
  {
    if i == |lines| then [] else (if Removed(lines, i) then [] else [lines[i]]) + Surviving(lines, i + 1)
  }

  lemma UnmarkedFrom(lines: seq<string>, i: nat)
    requires i < |lines|
    ensures Unmarked(lines[i..]) ==
      if !Contains(lines[i], MARKER) then [lines[i]] + Unmarked(lines[i + 1..])
      else if i + 1 == |lines| then [] else Unmarked(lines[i + 2..])
  {
    var rest := lines[i..];
    assert rest[1..] == lines[i + 1..];
    assert |rest| > 1 ==> rest[2..] == lines[i + 2..];
  }

  // A line with the marker that opens a removal goes with its successor.
  lemma TwoRemoved(lines: seq<string>, i: nat)
    requires i < |lines| && Opens(lines, i)
    ensures Surviving(lines, i) == if i + 1 == |lines| then [] else Surviving(lines, i + 2)
    ensures i + 1 < |lines| ==> !Opens(lines, i + 1)
  {
    assert Removed(lines, i);
    if i + 1 < |lines| {
      assert Removed(lines, i + 1);
      assert Surviving(lines, i + 1) == [] + Surviving(lines, i + 2);
    }
  }

  lemma {:induction false} UnmarkedSurvive(lines: seq<string>, i: nat)
    requires i <= |lines| && (0 < i < |lines| ==> !Opens(lines, i - 1))
    ensures Unmarked(lines[i..]) == Surviving(lines, i)
    decreases |lines| - i
  {
    if i < |lines| {
      UnmarkedFrom(lines, i);
      if !Contains(lines[i], MARKER) {
        UnmarkedSurvive(lines, i + 1);
      } else {
        TwoRemoved(lines, i);
        if i + 1 < |lines| {
          UnmarkedSurvive(lines, i + 2);
        }
      }
    }
  }

  // No other line is touched: the lines left are, in order, those that neither
  // open a removal nor follow one that does.
  lemma UninstallKeepsOtherLines(content: string)
    requires Contains(content, MARKER)
    ensures var left := Surviving(Lines(content), 0);
      if left == [] then Uninstalled(content) == "" else Lines(Uninstalled(content)) == left
  {
    var lines := Lines(content);
    assert lines[0..] == lines;
    UnmarkedSurvive(lines, 0);
    LinesAreLines(content);
    UnmarkedIsUnmarked(lines);
    if Unmarked(lines) != [] {
      LinesOfJoin(Unmarked(lines));
    }
  }

  // ---- what an injection writes ----

  // The marker line and the start command, below the text.
  lemma InjectedLines(x: string, scriptPath: string)
    requires !Contains(x, "# gbrain:autopilot v0.11.0") && OneLine(scriptPath)
    ensures Lines(Injected(x, scriptPath)) == Lines(TrimEnd(x)) + ["# gbrain:autopilot v0.11.0", "bash " + scriptPath, ""]
  {
    var t, command := TrimEnd(x), "bash " + scriptPath;
    OneLineCommand(scriptPath);
    MarkerIsOneLine();
    SnippetShape(t, MARKER, scriptPath, "");
    LinesOfLine("");
    TwoLinesFirst(MARKER, command, "");
    LinesConcat(t, Body(MARKER, command, ""));
    assert Injected(x, scriptPath) + "" == Injected(x, scriptPath);
    assert [MARKER, command] + [""] == [MARKER, command, ""];
  }
}
