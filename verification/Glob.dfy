// scripts/select-e2e.ts, matchGlob: a glob compiled to the text of a regular
// expression, and what that expression accepts.
module Glob {
  import opened Wrappers
  import opened Text

  // ---- the part of ECMAScript regular expressions the compiler emits ----

  datatype Atom = Dot | NotSlash | Exactly(c: char)

  datatype Item = One(atom: Atom) | Star(atom: Atom)

  predicate IsSyntaxChar(c: char) {
    || c == '^' || c == '$' || c == '\\' || c == '.' || c == '*' || c == '+' || c == '?'
    || c == '(' || c == ')' || c == '[' || c == '{' || c == '}' || c == '|'
  }

  datatype AtomParse = AtomParse(atom: Atom, width: nat)

  // One atom at the head of a pattern: the dot, the class [^/], an escaped
  // syntax character, or an ordinary character.
  function ParseAtom(text: string): (r: Option<AtomParse>)
    ensures r.Some? ==> 0 < r.value.width <= |text|
  {
    if text == [] then None
    else if text[0] == '.' then Some(AtomParse(Dot, 1))
    else if text[0] == '[' then
      if |text| >= 4 && text[1] == '^' && text[2] == '/' && text[3] == ']' then Some(AtomParse(NotSlash, 4)) else None
    else if text[0] == '\\' then
      if |text| >= 2 && IsSyntaxChar(text[1]) then Some(AtomParse(Exactly(text[1]), 2)) else None
    else if IsSyntaxChar(text[0]) then None
    else Some(AtomParse(Exactly(text[0]), 1))
  }

  function ParseRegex(text: string): Option<seq<Item>> {
    if text == [] then Some([])
    else
      match ParseAtom(text)
      case None => None
      case Some(a) =>
        var starred := a.width < |text| && text[a.width] == '*';
        match ParseRegex(text[a.width + (if starred then 1 else 0)..])
        case None => None
        case Some(items) => Some([if starred then Star(a.atom) else One(a.atom)] + items)
  }

  predicate Accepts(a: Atom, c: char) {
    match a
    case Dot => !IsLineTerminator(c)
    case NotSlash => c != '/'
    case Exactly(e) => c == e
  }

  // Matching anchored at both ends, by backtracking.
  predicate MatchItems(items: seq<Item>, path: string)
    decreases |items|, |path|
  {
    if items == [] then path == []
    else
      match items[0]
      case One(a) => path != [] && Accepts(a, path[0]) && MatchItems(items[1..], path[1..])
      case Star(a) =>
        || MatchItems(items[1..], path)
        || (path != [] && Accepts(a, path[0]) && MatchItems(items, path[1..]))
  }

  predicate RegexTest(text: string, path: string) {
    match ParseRegex(text)
    case None => false
    case Some(items) => MatchItems(items, path)
  }

  // ---- what a glob means ----

  predicate Supported(glob: string) {
    '?' !in glob && '[' !in glob && '{' !in glob
  }

  ghost predicate NoLineBreak(s: string) {
    forall i :: 0 <= i < |s| ==> !IsLineTerminator(s[i])
  }

  ghost predicate NoSlash(s: string) {
    forall i :: 0 <= i < |s| ==> s[i] != '/'
  }

  // Two stars stand for any string within a line, one for any slash-free
  // string, any other character for itself.
  ghost predicate GlobMatches(glob: string, path: string)
    decreases |glob|
  {
    if glob == [] then path == []
    else if glob[0] == '*' && |glob| > 1 && glob[1] == '*' then
      exists k :: 0 <= k <= |path| && NoLineBreak(path[..k]) && GlobMatches(glob[2..], path[k..])
    else if glob[0] == '*' then
      exists k :: 0 <= k <= |path| && NoSlash(path[..k]) && GlobMatches(glob[1..], path[k..])
    else path != [] && path[0] == glob[0] && GlobMatches(glob[1..], path[1..])
  }

  // ---- the compiler ----

  predicate NeedsEscape(c: char) {
    || c == '.' || c == '+' || c == '^' || c == '$' || c == '{' || c == '}'
    || c == '(' || c == ')' || c == '|' || c == '\\'
  }

  function Emit(glob: string): string {
    if glob == [] then ""
    else if glob[0] == '*' && |glob| > 1 && glob[1] == '*' then ".*" + Emit(glob[2..])
    else if glob[0] == '*' then "[^/]*" + Emit(glob[1..])
    else if NeedsEscape(glob[0]) then ['\\', glob[0]] + Emit(glob[1..])
    else [glob[0]] + Emit(glob[1..])
  }

  datatype GlobError = UnsupportedSyntax(glob: string)

  method MatchGlob(glob: string, path: string) returns (r: Result<bool, GlobError>)
    ensures r.Err? <==> '?' in glob || '[' in glob || '{' in glob
    ensures r.Err? ==> r.error == UnsupportedSyntax(glob)
    ensures r.Ok? ==> (r.value <==> GlobMatches(glob, path))
  {
    if '?' in glob || '[' in glob || '{' in glob {
      return Err(UnsupportedSyntax(glob));
    }
    var regex := Compile(glob);
    CompilationPreservesMeaning(glob, path);
    return Ok(RegexTest(regex, path));
  }

  // The loop that builds the text of the regular expression.
  method Compile(glob: string) returns (regex: string)
    ensures regex == Emit(glob)
  {
    regex := "";
    var i := 0;
    while i < |glob|
      invariant 0 <= i <= |glob|
      invariant Emit(glob) == regex + Emit(glob[i..])
    {
      var c := glob[i];
      EmitFrom(glob, i);
      if c == '*' && i + 1 < |glob| && glob[i + 1] == '*' {
        Regroup(regex, ".*", Emit(glob[i + 2..]));
        regex := regex + ".*";
        i := i + 2;
      } else if c == '*' {
        Regroup(regex, "[^/]*", Emit(glob[i + 1..]));
        regex := regex + "[^/]*";
        i := i + 1;
      } else if NeedsEscape(c) {
        Regroup(regex, ['\\', c], Emit(glob[i + 1..]));
        regex := regex + ['\\', c];
        i := i + 1;
      } else {
        Regroup(regex, [c], Emit(glob[i + 1..]));
        regex := regex + [c];
        i := i + 1;
      }
    }
    assert regex + "" == regex;
  }

  lemma Regroup(a: string, b: string, c: string)
    ensures a + b + c == a + (b + c)
  {
  }

  lemma EmitFrom(glob: string, i: nat)
    requires i < |glob|
    ensures Emit(glob[i..]) ==
      if glob[i] == '*' && i + 1 < |glob| && glob[i + 1] == '*' then ".*" + Emit(glob[i + 2..])
      else if glob[i] == '*' then "[^/]*" + Emit(glob[i + 1..])
      else if NeedsEscape(glob[i]) then ['\\', glob[i]] + Emit(glob[i + 1..])
      else [glob[i]] + Emit(glob[i + 1..])
  {
    var rest := glob[i..];
    assert rest[1..] == glob[i + 1..];
    assert |rest| > 1 ==> rest[2..] == glob[i + 2..];
  }

  // ---- the compilation preserves meaning ----

  function Tokens(glob: string): seq<Item> {
    if glob == [] then []
    else if glob[0] == '*' && |glob| > 1 && glob[1] == '*' then [Star(Dot)] + Tokens(glob[2..])
    else if glob[0] == '*' then [Star(NotSlash)] + Tokens(glob[1..])
    else [One(Exactly(glob[0]))] + Tokens(glob[1..])
  }

  lemma EmitNeverStartsWithStar(glob: string)
    ensures Emit(glob) == [] || Emit(glob)[0] != '*'
  {
  }

  lemma ParseStarred(piece: string, atom: Atom, rest: string)
    requires ParseAtom(piece + "*" + rest) == Some(AtomParse(atom, |piece|))
    ensures ParseRegex(rest).None? ==> ParseRegex(piece + "*" + rest).None?
    ensures ParseRegex(rest).Some? ==> ParseRegex(piece + "*" + rest) == Some([Star(atom)] + ParseRegex(rest).value)
  {
    var text := piece + "*" + rest;
    assert text[|piece|] == '*' && text[|piece| + 1..] == rest;
  }

  lemma ParsePlain(piece: string, atom: Atom, rest: string)
    requires ParseAtom(piece + rest) == Some(AtomParse(atom, |piece|))
    requires rest == [] || rest[0] != '*'
    ensures ParseRegex(rest).Some? ==> ParseRegex(piece + rest) == Some([One(atom)] + ParseRegex(rest).value)
  {
    var text := piece + rest;
    assert text[|piece|..] == rest;
  }

  lemma ParseDoubleStar(rest: string)
    requires ParseRegex(rest).Some?
    ensures ParseRegex(".*" + rest) == Some([Star(Dot)] + ParseRegex(rest).value)
  {
    assert "." + "*" + rest == ".*" + rest;
    ParseStarred(".", Dot, rest);
  }

  lemma ParseSingleStar(rest: string)
    requires ParseRegex(rest).Some?
    ensures ParseRegex("[^/]*" + rest) == Some([Star(NotSlash)] + ParseRegex(rest).value)
  {
    assert "[^/]" + "*" + rest == "[^/]*" + rest;
    ParseStarred("[^/]", NotSlash, rest);
  }

  lemma ParseLiteral(c: char, rest: string)
    requires c != '*' && c != '?' && c != '[' && ParseRegex(rest).Some? && (rest == [] || rest[0] != '*')
    ensures ParseRegex((if NeedsEscape(c) then ['\\', c] else [c]) + rest) == Some([One(Exactly(c))] + ParseRegex(rest).value)
  {
    ParsePlain(if NeedsEscape(c) then ['\\', c] else [c], Exactly(c), rest);
  }

  // The emitted text parses back to the tokens of the glob.
  lemma {:induction false} EmittedTextParses(glob: string)
    requires Supported(glob)
    ensures ParseRegex(Emit(glob)) == Some(Tokens(glob))
    decreases |glob|
  {
    if glob != [] {
      if glob[0] == '*' && |glob| > 1 && glob[1] == '*' {
        EmittedTextParses(glob[2..]);
        ParseDoubleStar(Emit(glob[2..]));
      } else {
        EmittedTextParses(glob[1..]);
        if glob[0] == '*' {
          ParseSingleStar(Emit(glob[1..]));
        } else {
          EmitNeverStartsWithStar(glob[1..]);
          assert glob[0] in glob;
          ParseLiteral(glob[0], Emit(glob[1..]));
        }
      }
    }
  }

  ghost predicate AllAccepted(a: Atom, s: string) {
    forall i :: 0 <= i < |s| ==> Accepts(a, s[i])
  }

  lemma AcceptFirst(a: Atom, path: string, k: nat)
    requires 0 < k <= |path|
    ensures AllAccepted(a, path[..k]) <==> Accepts(a, path[0]) && AllAccepted(a, path[1..][..k - 1])
    ensures path[1..][k - 1..] == path[k..]
  {
    assert path[..k] == [path[0]] + path[1..][..k - 1];
  }

  ghost predicate SplitsAt(a: Atom, items: seq<Item>, path: string, k: int) {
    0 <= k <= |path| && AllAccepted(a, path[..k]) && MatchItems(items, path[k..])
  }

  lemma {:induction false} StarMeaning(a: Atom, items: seq<Item>, path: string)
    requires items != [] && items[0] == Star(a)
    ensures MatchItems(items, path) <==> exists k :: SplitsAt(a, items[1..], path, k)
    decreases |path|
  {
    assert path[0..] == path && AllAccepted(a, path[..0]);
    if MatchItems(items[1..], path) {
      assert SplitsAt(a, items[1..], path, 0);
    } else {
      if path != [] {
        StarMeaning(a, items, path[1..]);
        if Accepts(a, path[0]) && MatchItems(items, path[1..]) {
          var k :| SplitsAt(a, items[1..], path[1..], k);
          AcceptFirst(a, path, k + 1);
          assert SplitsAt(a, items[1..], path, k + 1);
        }
      }
      forall k | SplitsAt(a, items[1..], path, k)
        ensures path != [] && Accepts(a, path[0]) && MatchItems(items, path[1..])
      {
        if k > 0 {
          AcceptFirst(a, path, k);
          assert SplitsAt(a, items[1..], path[1..], k - 1);
        }
      }
    }
  }

  lemma {:induction false} TokensMeaning(glob: string, path: string)
    ensures MatchItems(Tokens(glob), path) <==> GlobMatches(glob, path)
    decreases |glob|
  {
    if glob != [] {
      var items := Tokens(glob);
      if glob[0] == '*' && |glob| > 1 && glob[1] == '*' {
        assert items[1..] == Tokens(glob[2..]);
        StarMeaning(Dot, items, path);
        forall k | 0 <= k <= |path|
          ensures SplitsAt(Dot, items[1..], path, k) <==> NoLineBreak(path[..k]) && GlobMatches(glob[2..], path[k..])
        {
          TokensMeaning(glob[2..], path[k..]);
        }
      } else if glob[0] == '*' {
        assert items[1..] == Tokens(glob[1..]);
        StarMeaning(NotSlash, items, path);
        forall k | 0 <= k <= |path|
          ensures SplitsAt(NotSlash, items[1..], path, k) <==> NoSlash(path[..k]) && GlobMatches(glob[1..], path[k..])
        {
          TokensMeaning(glob[1..], path[k..]);
        }
      } else {
        assert items[1..] == Tokens(glob[1..]);
        if path != [] {
          TokensMeaning(glob[1..], path[1..]);
        }
      }
    }
  }

  // The emitted regular expression accepts exactly the paths the glob means,
  // for every path, line breaks included.
  lemma CompilationPreservesMeaning(glob: string, path: string)
    requires Supported(glob)
    ensures RegexTest(Emit(glob), path) <==> GlobMatches(glob, path)
  {
    EmittedTextParses(glob);
    TokensMeaning(glob, path);
  }

  // ---- runs of stars ----

  function Stars(n: nat): (s: string)
    ensures |s| == n && forall i :: 0 <= i < n ==> s[i] == '*'
  {
    seq(n, _ => '*')
  }

  ghost predicate SuffixMatches(glob: string, path: string) {
    exists k :: 0 <= k <= |path| && GlobMatches(glob, path[k..])
  }

  lemma SuffixOfSuffix(glob: string, path: string, j: nat)
    requires j <= |path| && SuffixMatches(glob, path[j..])
    ensures SuffixMatches(glob, path)
  {
    var k :| 0 <= k <= |path[j..]| && GlobMatches(glob, path[j..][k..]);
    assert path[j..][k..] == path[j + k..];
  }

  // On a path without line breaks, however many stars follow each other, two
  // or more stand for any string.
  lemma {:induction false} StarRun(n: nat, glob: string, path: string)
    requires n >= 2 && NoLineBreak(path) && (glob == [] || glob[0] != '*')
    ensures GlobMatches(Stars(n) + glob, path) <==> SuffixMatches(glob, path)
    decreases n, 1
  {
    var g := Stars(n) + glob;
    assert g[2..] == Stars(n - 2) + glob;
    forall k | 0 <= k <= |path|
      ensures NoLineBreak(path[..k])
      ensures GlobMatches(g[2..], path[k..]) ==> SuffixMatches(glob, path)
      ensures GlobMatches(glob, path[k..]) ==> GlobMatches(g[2..], path[k..])
    {
      RestOfRun(n - 2, glob, path[k..]);
      if SuffixMatches(glob, path[k..]) {
        SuffixOfSuffix(glob, path, k);
      }
    }
  }

  lemma {:induction false} RestOfRun(m: nat, glob: string, path: string)
    requires NoLineBreak(path) && (glob == [] || glob[0] != '*')
    ensures GlobMatches(Stars(m) + glob, path) ==> SuffixMatches(glob, path)
    ensures GlobMatches(glob, path) ==> GlobMatches(Stars(m) + glob, path)
    decreases m, 2
  {
    assert path[0..] == path && NoSlash(path[..0]);
    if m == 0 {
      assert Stars(0) + glob == glob;
    } else if m == 1 {
      assert (Stars(1) + glob)[1..] == glob;
    } else {
      StarRun(m, glob, path);
    }
  }
}
