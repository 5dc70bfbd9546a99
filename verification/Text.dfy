// String operations of the JavaScript library the program relies on.
module Text {

  predicate OccursAt(s: string, pat: string, i: nat) {
    i + |pat| <= |s| && s[i..i + |pat|] == pat
  }

  lemma OccursShift(s: string, pat: string)
    requires s != []
    ensures forall i :: i > 0 ==> (OccursAt(s, pat, i) <==> OccursAt(s[1..], pat, i - 1))
  {
    forall i | i > 0 ensures OccursAt(s, pat, i) <==> OccursAt(s[1..], pat, i - 1) {
      if i + |pat| <= |s| {
        var tail := s[1..];
        assert tail[i - 1..i - 1 + |pat|] == s[i..i + |pat|];
      }
    }
  }

  // indexOf: the first occurrence, or -1.
  function IndexOf(s: string, pat: string): (r: int)
    ensures -1 <= r <= |s|
    ensures r >= 0 ==> OccursAt(s, pat, r) && forall i :: 0 <= i < r ==> !OccursAt(s, pat, i)
    ensures r < 0 ==> forall i :: 0 <= i ==> !OccursAt(s, pat, i)
  {
    if OccursAt(s, pat, 0) then 0
    else if s == [] then -1
    else
      OccursShift(s, pat);
      var r := IndexOf(s[1..], pat);
      if r < 0 then -1 else r + 1
  }

  // includes
  predicate Contains(s: string, pat: string) {
    IndexOf(s, pat) >= 0
  }

  lemma ContainsAt(s: string, pat: string, i: nat)
    requires OccursAt(s, pat, i)
    ensures Contains(s, pat)
  {
  }

  lemma ContainsWithin(left: string, mid: string, right: string, pat: string)
    requires Contains(mid, pat)
    ensures Contains(left + mid + right, pat)
  {
    var i := IndexOf(mid, pat);
    var s := left + mid + right;
    assert s[|left| + i..|left| + i + |pat|] == mid[i..i + |pat|];
    ContainsAt(s, pat, |left| + i);
  }

  lemma ContainsTransitive(s: string, mid: string, pat: string)
    requires Contains(s, mid) && Contains(mid, pat)
    ensures Contains(s, pat)
  {
    var i := IndexOf(s, mid);
    assert s == s[..i] + mid + s[i + |mid|..];
    ContainsWithin(s[..i], mid, s[i + |mid|..], pat);
  }

  // WhiteSpace and LineTerminator of the ECMAScript grammar, what trimEnd removes.
  predicate IsWhitespace(c: char) {
    || '\t' <= c <= '\r' || c == ' ' || c == '\U{00A0}' || c == '\U{1680}'
    || '\U{2000}' <= c <= '\U{200A}' || c == '\U{2028}' || c == '\U{2029}'
    || c == '\U{202F}' || c == '\U{205F}' || c == '\U{3000}' || c == '\U{FEFF}'
  }

  // The same by code point.
  lemma WhitespaceCodes(c: char)
    ensures IsWhitespace(c) <==>
      var n := c as int;
      9 <= n <= 13 || n == 32 || n == 160 || n == 5760 || 8192 <= n <= 8202 || n == 8232 || n == 8233 || n == 8239 || n == 8287
        || n == 12288 || n == 65279
    ensures IsLineTerminator(c) <==> c as int in {10, 13, 8232, 8233}
  {
  }

  predicate IsLineTerminator(c: char) {
    c == '\n' || c == '\r' || c == '\U{2028}' || c == '\U{2029}'
  }

  function TrimEnd(s: string): (r: string)
    ensures r <= s
    ensures r != [] ==> !IsWhitespace(r[|r| - 1])
    ensures forall i :: |r| <= i < |s| ==> IsWhitespace(s[i])
  {
    if s != [] && IsWhitespace(s[|s| - 1]) then TrimEnd(s[..|s| - 1]) else s
  }

  // ---- lines ----

  // split on newlines
  function Lines(s: string): (ls: seq<string>)
    ensures ls != []
    decreases |s|
  {
    var i := IndexOf(s, "\n");
    if i < 0 then [s] else [s[..i]] + Lines(s[i + 1..])
  }

  // join with newlines
  function JoinLines(ls: seq<string>): string
    requires ls != []
  {
    if |ls| == 1 then ls[0] else ls[0] + "\n" + JoinLines(ls[1..])
  }

  ghost predicate OneLine(s: string) {
    '\n' !in s
  }

  lemma NewlineAt(s: string, i: nat)
    requires i < |s|
    ensures OccursAt(s, "\n", i) <==> s[i] == '\n'
  {
    assert s[i..i + 1] == [s[i]];
  }

  lemma OneLineIff(s: string)
    ensures OneLine(s) <==> IndexOf(s, "\n") < 0
  {
    forall i | 0 <= i < |s| ensures OccursAt(s, "\n", i) <==> s[i] == '\n' {
      NewlineAt(s, i);
    }
  }

  lemma FirstNewline(a: string, b: string)
    requires OneLine(a)
    ensures IndexOf(a + "\n" + b, "\n") == |a|
  {
    var s := a + "\n" + b;
    NewlineAt(s, |a|);
    var r := IndexOf(s, "\n");
    assert OccursAt(s, "\n", |a|);
    NewlineAt(s, r);
    assert forall k :: 0 <= k < |a| ==> s[k] == a[k];
  }

  lemma BeforeFirstNewline(s: string, i: nat)
    requires i <= |s| && forall k :: 0 <= k < i ==> !OccursAt(s, "\n", k)
    ensures OneLine(s[..i])
  {
    forall k | 0 <= k < i ensures s[k] != '\n' {
      NewlineAt(s, k);
    }
  }

  lemma SplitAt(s: string, i: nat)
    requires i < |s|
    ensures s == s[..i] + [s[i]] + s[i + 1..]
  {
  }

  lemma SplitAtNewline(s: string, i: nat)
    requires i == IndexOf(s, "\n")
    ensures i < |s| && s == s[..i] + "\n" + s[i + 1..] && OneLine(s[..i])
  {
    BeforeFirstNewline(s, i);
    NewlineAt(s, i);
    SplitAt(s, i);
    assert [s[i]] == "\n";
  }

  lemma LinesFirst(a: string, rest: string)
    requires OneLine(a)
    ensures Lines(a + "\n" + rest) == [a] + Lines(rest)
  {
    var s := a + "\n" + rest;
    FirstNewline(a, rest);
    assert s[..|a|] == a && s[|a| + 1..] == rest;
  }

  lemma Reassociate(a: string, b: string, c: string, d: string, e: string)
    ensures a + b + c + d + e == a + b + (c + d + e)
  {
  }

  lemma RegroupLines(a: seq<string>, b: seq<string>, c: seq<string>)
    ensures a + b + c == a + (b + c)
  {
  }

  lemma {:induction false} LinesConcat(a: string, b: string)
    ensures Lines(a + "\n" + b) == Lines(a) + Lines(b)
    decreases |a|
  {
    var i := IndexOf(a, "\n");
    if i < 0 {
      OneLineIff(a);
      LinesFirst(a, b);
    } else {
      SplitAtNewline(a, i);
      var head, rest := a[..i], a[i + 1..];
      LinesConcat(rest, b);
      LinesFirst(head, rest + "\n" + b);
      Reassociate(head, "\n", rest, "\n", b);
      RegroupLines([head], Lines(rest), Lines(b));
    }
  }

  lemma LinesOfLine(s: string)
    requires OneLine(s)
    ensures Lines(s) == [s]
  {
    OneLineIff(s);
  }

  lemma JoinFirst(head: string, rest: seq<string>)
    requires rest != []
    ensures JoinLines([head] + rest) == head + "\n" + JoinLines(rest)
  {
    assert ([head] + rest)[1..] == rest;
  }

  lemma {:induction false} LinesAreLines(s: string)
    ensures forall i :: 0 <= i < |Lines(s)| ==> OneLine(Lines(s)[i])
    ensures JoinLines(Lines(s)) == s
    decreases |s|
  {
    OneLineIff(s);
    var i := IndexOf(s, "\n");
    if i >= 0 {
      SplitAtNewline(s, i);
      var head, rest := s[..i], s[i + 1..];
      LinesAreLines(rest);
      LinesFirst(head, rest);
      JoinFirst(head, Lines(rest));
    }
  }

  // A pattern that occurs across a newline holds one.
  lemma HoldsNewline(s: string, pat: string, i: nat, k: nat)
    requires OccursAt(s, pat, i) && i <= k < i + |pat| && s[k] == '\n'
    ensures !OneLine(pat)
  {
    assert s[i..i + |pat|][k - i] == s[k];
  }

  lemma OccursInSlice(s: string, pat: string, i: nat, from: nat, to: nat)
    requires OccursAt(s, pat, i) && from <= i && i + |pat| <= to <= |s|
    ensures Contains(s[from..to], pat)
  {
    assert s[from..to] == s[from..i] + s[i..i + |pat|] + s[i + |pat|..to];
    assert OccursAt(pat, pat, 0);
    ContainsWithin(s[from..i], pat, s[i + |pat|..to], pat);
  }

  // A one-line pattern found in a text lies before or after any given newline of it.
  lemma BesideNewline(s: string, pat: string, k: nat)
    requires k < |s| && s[k] == '\n' && OneLine(pat) && Contains(s, pat)
    ensures Contains(s[..k], pat) || Contains(s[k..], pat)
    ensures pat != [] ==> Contains(s[..k], pat) || Contains(s[k + 1..], pat)
  {
    var i := IndexOf(s, pat);
    if i + |pat| <= k {
      OccursInSlice(s, pat, i, 0, k);
      assert s[0..k] == s[..k];
    } else if i > k {
      OccursInSlice(s, pat, i, k, |s|);
      OccursInSlice(s, pat, i, k + 1, |s|);
      assert s[k..|s|] == s[k..] && s[k + 1..|s|] == s[k + 1..];
    } else {
      HoldsNewline(s, pat, i, k);
    }
  }

  lemma PrefixOccurs(s: string, prefix: string, pat: string, i: nat)
    requires prefix <= s && i + |pat| <= |prefix|
    ensures OccursAt(prefix, pat, i) <==> OccursAt(s, pat, i)
  {
    assert prefix[i..i + |pat|] == s[i..i + |pat|];
  }

  // A prefix that still holds the first occurrence has it at the same place.
  lemma SameFirst(s: string, prefix: string, pat: string)
    requires prefix <= s && 0 <= IndexOf(s, pat) && IndexOf(s, pat) + |pat| <= |prefix|
    ensures IndexOf(prefix, pat) == IndexOf(s, pat)
  {
    PrefixOccurs(s, prefix, pat, IndexOf(s, pat));
    PrefixOccurs(s, prefix, pat, IndexOf(prefix, pat));
  }

  // The parts of a text put together from four.
  lemma ConcatParts(a: string, b: string, c: string, d: string)
    ensures var s := a + b + c + d;
      && |s| == |a| + |b| + |c| + |d|
      && s[..|a|] == a && s[|a|..|a| + |b|] == b && s[|s| - |d|..] == d
      && forall i :: 0 <= i < |a| ==> s[i] == a[i]
  {
  }
}
