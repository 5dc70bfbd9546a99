// src/commands/connect.ts: quoting arguments for a shell, against the token
// recognition and quoting rules of POSIX.1-2017, Shell Command Language,
// sections 2.2.1, 2.2.2, 2.3 and 2.6.7.
module Shell {
  import opened Wrappers

  predicate IsSafe(c: char) {
    || 'A' <= c <= 'Z' || 'a' <= c <= 'z' || '0' <= c <= '9'
    || c == '_' || c == '.' || c == ':' || c == '/' || c == '@' || c == '-'
  }

  predicate AllSafe(s: string) {
    s != [] && forall i :: 0 <= i < |s| ==> IsSafe(s[i])
  }

  // Every single quote closes the quotation, stands escaped, and reopens it.
  function EscapeQuotes(s: string): string {
    if s == [] then []
    else (if s[0] == '\'' then "'\\''" else [s[0]]) + EscapeQuotes(s[1..])
  }

  function ShellQuote(arg: string): string {
    if AllSafe(arg) then arg else "'" + EscapeQuotes(arg) + "'"
  }

  function JoinQuoted(argv: seq<string>): string {
    if argv == [] then ""
    else if |argv| == 1 then ShellQuote(argv[0])
    else ShellQuote(argv[0]) + " " + JoinQuoted(argv[1..])
  }

  function CmdString(binary: string, argv: seq<string>): string {
    binary + " " + JoinQuoted(argv)
  }

  // ---- the shell's side ----

  // NUL cannot occur in shell input. An unquoted character with a meaning of
  // its own (an operator, an expansion, a double quote, a pattern, a comment, a
  // tilde, an assignment, a brace or a bang) ends the lexing: a command that
  // lexes has none.
  datatype LexError = NulInInput | Special(c: char) | Unterminated

  predicate IsSpecial(c: char) {
    c in {'|', '&', ';', '<', '>', '(', ')', '$', '`', '"', '\n', '*', '?', '[', '#', '~', '=', '%', '!', '{', '}'}
  }

  function Finish(done: seq<string>, word: Option<string>): seq<string> {
    if word.Some? then done + [word.value] else done
  }

  function WordSoFar(word: Option<string>): string {
    if word.Some? then word.value else ""
  }

  // Outside quotes: blanks delimit, a backslash quotes one character (and
  // vanishes with a newline), a single quote opens a quotation.
  function LexOpen(s: string, word: Option<string>, done: seq<string>): Result<seq<string>, LexError>
    decreases |s|
  {
    if s == [] then Ok(Finish(done, word))
    else if s[0] == '\0' then Err(NulInInput)
    else if s[0] == ' ' || s[0] == '\t' then LexOpen(s[1..], None, Finish(done, word))
    else if s[0] == '\'' then LexQuoted(s[1..], WordSoFar(word), done)
    else if s[0] == '\\' then
      if |s| == 1 then Err(Unterminated)
      else if s[1] == '\0' then Err(NulInInput)
      else if s[1] == '\n' then LexOpen(s[2..], word, done)
      else LexOpen(s[2..], Some(WordSoFar(word) + [s[1]]), done)
    else if IsSpecial(s[0]) then Err(Special(s[0]))
    else LexOpen(s[1..], Some(WordSoFar(word) + [s[0]]), done)
  }

  // Inside single quotes every character but the closing quote is itself.
  function LexQuoted(s: string, word: string, done: seq<string>): Result<seq<string>, LexError>
    decreases |s|
  {
    if s == [] then Err(Unterminated)
    else if s[0] == '\0' then Err(NulInInput)
    else if s[0] == '\'' then LexOpen(s[1..], Some(word), done)
    else LexQuoted(s[1..], word + [s[0]], done)
  }

  function Lex(s: string): Result<seq<string>, LexError> {
    LexOpen(s, None, [])
  }

  // ---- the round trip ----

  lemma SafeStep(c: char, tail: string, word: Option<string>, done: seq<string>)
    requires IsSafe(c)
    ensures LexOpen([c] + tail, word, done) == LexOpen(tail, Some(WordSoFar(word) + [c]), done)
  {
    assert ([c] + tail)[1..] == tail;
  }

  lemma WordGrows(word: string, arg: string)
    requires arg != []
    ensures word + [arg[0]] + arg[1..] == word + arg
  {
  }

  lemma {:induction false} SafeWord(s: string, tail: string, word: string, done: seq<string>)
    requires forall i :: 0 <= i < |s| ==> IsSafe(s[i])
    ensures LexOpen(s + tail, Some(word), done) == LexOpen(tail, Some(word + s), done)
    decreases |s|
  {
    if s == [] {
      assert s + tail == tail && word + s == word;
    } else {
      Uncons(s, tail);
      WordGrows(word, s);
      SafeStep(s[0], s[1..] + tail, Some(word), done);
      SafeWord(s[1..], tail, word + [s[0]], done);
    }
  }

  lemma Uncons(s: string, tail: string)
    requires s != []
    ensures s + tail == [s[0]] + (s[1..] + tail) && [s[0]] + s[1..] == s
  {
  }

  lemma SafeFirst(s: string, tail: string, done: seq<string>)
    requires AllSafe(s)
    ensures LexOpen(s + tail, None, done) == LexOpen(tail, Some(s), done)
  {
    Uncons(s, tail);
    SafeStep(s[0], s[1..] + tail, None, done);
    assert WordSoFar(None) + [s[0]] == [s[0]];
    SafeWord(s[1..], tail, [s[0]], done);
  }

  // Four characters of the command stand for one quote of the argument.
  lemma EscapedQuote(tail: string, word: string, done: seq<string>)
    ensures LexQuoted("'\\''" + tail, word, done) == LexQuoted(tail, word + "'", done)
  {
    var s0 := "'\\''" + tail;
    var s1 := "\\''" + tail;
    var s2 := "'" + tail;
    assert s0[1..] == s1 && s1[2..] == s2 && s2[1..] == tail;
    assert s1[0] == '\\' && s1[1] == '\'';
    assert [s1[1]] == "'";
    assert LexQuoted(s0, word, done) == LexOpen(s1, Some(word), done);
    assert LexOpen(s1, Some(word), done) == LexOpen(s2, Some(word + "'"), done);
  }

  lemma EscapedFirst(arg: string)
    requires arg != []
    ensures EscapeQuotes(arg) == (if arg[0] == '\'' then "'\\''" else [arg[0]]) + EscapeQuotes(arg[1..])
  {
  }

  lemma PlainQuoted(c: char, rest: string, word: string, done: seq<string>)
    requires c != '\'' && c != '\0'
    ensures LexQuoted([c] + rest, word, done) == LexQuoted(rest, word + [c], done)
  {
    assert ([c] + rest)[1..] == rest;
  }

  lemma ClosingQuote(tail: string, word: string, done: seq<string>)
    ensures LexQuoted("'" + tail, word, done) == LexOpen(tail, Some(word), done)
  {
    assert ("'" + tail)[1..] == tail;
  }

  lemma RegroupQuoted(first: string, escaped: string, tail: string)
    ensures first + escaped + "'" + tail == first + (escaped + "'" + tail)
  {
  }

  lemma {:induction false} QuotedBody(arg: string, tail: string, word: string, done: seq<string>)
    requires '\0' !in arg
    ensures LexQuoted(EscapeQuotes(arg) + "'" + tail, word, done) == LexOpen(tail, Some(word + arg), done)
    decreases |arg|
  {
    if arg == [] {
      assert EscapeQuotes(arg) + "'" + tail == "'" + tail;
      ClosingQuote(tail, word, done);
      assert word + arg == word;
    } else {
      var escaped := EscapeQuotes(arg[1..]);
      EscapedFirst(arg);
      WordGrows(word, arg);
      QuotedBody(arg[1..], tail, word + [arg[0]], done);
      if arg[0] == '\'' {
        RegroupQuoted("'\\''", escaped, tail);
        EscapedQuote(escaped + "'" + tail, word, done);
      } else {
        RegroupQuoted([arg[0]], escaped, tail);
        PlainQuoted(arg[0], escaped + "'" + tail, word, done);
      }
    }
  }

  lemma OpenQuote(body: string, done: seq<string>)
    ensures LexOpen("'" + body, None, done) == LexQuoted(body, "", done)
  {
    assert ("'" + body)[1..] == body;
  }

  // A quoted argument at the start of a word is read as exactly that word.
  lemma QuotedArgument(arg: string, tail: string, done: seq<string>)
    requires '\0' !in arg
    ensures LexOpen(ShellQuote(arg) + tail, None, done) == LexOpen(tail, Some(arg), done)
  {
    if AllSafe(arg) {
      SafeFirst(arg, tail, done);
    } else {
      var body := EscapeQuotes(arg) + "'" + tail;
      assert ShellQuote(arg) + tail == "'" + body;
      OpenQuote(body, done);
      QuotedBody(arg, tail, "", done);
      assert "" + arg == arg;
    }
  }

  lemma NextArgument(arg: string, rest: string, done: seq<string>)
    requires '\0' !in arg
    ensures LexOpen(ShellQuote(arg) + " " + rest, None, done) == LexOpen(rest, None, done + [arg])
  {
    var tail := " " + rest;
    assert ShellQuote(arg) + " " + rest == ShellQuote(arg) + tail;
    QuotedArgument(arg, tail, done);
    assert tail[1..] == rest;
  }

  lemma LastArgument(arg: string, done: seq<string>)
    requires '\0' !in arg
    ensures LexOpen(ShellQuote(arg), None, done) == Ok(done + [arg])
  {
    QuotedArgument(arg, "", done);
    assert ShellQuote(arg) + "" == ShellQuote(arg);
  }

  lemma Regrouped(done: seq<string>, argv: seq<string>)
    requires argv != []
    ensures done + [argv[0]] + argv[1..] == done + argv
  {
  }

  lemma {:induction false} QuotedArguments(argv: seq<string>, done: seq<string>)
    requires forall i :: 0 <= i < |argv| ==> '\0' !in argv[i]
    ensures LexOpen(JoinQuoted(argv), None, done) == Ok(done + argv)
    decreases |argv|
  {
    if argv == [] {
      assert done + argv == done;
    } else if |argv| == 1 {
      LastArgument(argv[0], done);
      assert done + [argv[0]] == done + argv;
    } else {
      var rest := argv[1..];
      var text := JoinQuoted(rest);
      QuotedArguments(rest, done + [argv[0]]);
      NextArgument(argv[0], text, done);
      assert JoinQuoted(argv) == ShellQuote(argv[0]) + " " + text;
      Regrouped(done, argv);
    }
  }

  lemma {:induction false} NulNeverLexes(s: string, word: Option<string>, quoted: string, done: seq<string>)
    requires '\0' in s
    ensures LexOpen(s, word, done).Err? && LexQuoted(s, quoted, done).Err?
    decreases |s|
  {
    assert s == [s[0]] + s[1..];
    if s[0] != '\0' {
      NulNeverLexes(s[1..], None, quoted + [s[0]], Finish(done, word));
      NulNeverLexes(s[1..], Some(quoted), WordSoFar(word), done);
      NulNeverLexes(s[1..], Some(WordSoFar(word) + [s[0]]), quoted + [s[0]], done);
      if s[0] == '\\' && s[1] != '\0' {
        assert s[1..] == [s[1]] + s[2..];
        NulNeverLexes(s[2..], word, "", done);
        NulNeverLexes(s[2..], Some(WordSoFar(word) + [s[1]]), "", done);
      }
    }
  }

  lemma {:induction false} NulStays(argv: seq<string>, i: nat)
    requires i < |argv| && '\0' in argv[i]
    ensures '\0' in JoinQuoted(argv)
    decreases |argv|
  {
    if i == 0 {
      EscapeKeeps(argv[0], '\0');
      assert '\0' in ShellQuote(argv[0]);
    } else {
      NulStays(argv[1..], i - 1);
    }
  }

  lemma {:induction false} EscapeKeeps(s: string, c: char)
    requires c in s
    ensures c in EscapeQuotes(s)
  {
    assert s == [s[0]] + s[1..];
    if c != s[0] {
      EscapeKeeps(s[1..], c);
    }
  }

  // Lexing the rendered command gives back the binary and exactly the
  // arguments, empty ones and ones full of quotes included, and meets no
  // special character outside quotes; a command with a NUL is no shell input.
  lemma ShellRoundTrip(binary: string, argv: seq<string>)
    requires AllSafe(binary)
    ensures (forall i :: 0 <= i < |argv| ==> '\0' !in argv[i]) <==> Lex(CmdString(binary, argv)) == Ok([binary] + argv)
    ensures (exists i :: 0 <= i < |argv| && '\0' in argv[i]) ==> Lex(CmdString(binary, argv)).Err?
  {
    var cmd := CmdString(binary, argv);
    var tail := " " + JoinQuoted(argv);
    if i :| 0 <= i < |argv| && '\0' in argv[i] {
      NulStays(argv, i);
      assert '\0' in cmd;
      NulNeverLexes(cmd, None, "", []);
    } else {
      assert cmd == binary + tail;
      SafeFirst(binary, tail, []);
      assert tail[1..] == JoinQuoted(argv);
      assert [] + [binary] == [binary];
      QuotedArguments(argv, [binary]);
    }
  }

  // ---- the argv builders ----

  function BuildClaudeMcpAddArgv(name: string, url: string, headerToken: string): seq<string> {
    ["mcp", "add", name, "-t", "http", url, "-H", "Authorization: Bearer " + headerToken]
  }

  function BuildCodexMcpAddArgv(name: string, url: string, envVar: string): seq<string> {
    ["mcp", "add", name, "--url", url, "--bearer-token-env-var", envVar]
  }

  // Whatever the token holds, it reaches the client as part of one argument.
  lemma TokenStaysInOneArgument(name: string, url: string, token: string)
    requires '\0' !in name && '\0' !in url && '\0' !in token
    ensures Lex(CmdString("claude", BuildClaudeMcpAddArgv(name, url, token))) ==
      Ok(["claude", "mcp", "add", name, "-t", "http", url, "-H", "Authorization: Bearer " + token])
  {
    var argv := BuildClaudeMcpAddArgv(name, url, token);
    forall i | 0 <= i < |argv| ensures '\0' !in argv[i] {
    }
    ShellRoundTrip("claude", argv);
    assert ["claude"] + argv == ["claude", "mcp", "add", name, "-t", "http", url, "-H", "Authorization: Bearer " + token];
  }

  // The same for the other client, which is told the name of a variable instead.
  lemma CodexCommandRoundTrip(name: string, url: string, envVar: string)
    requires '\0' !in name && '\0' !in url && '\0' !in envVar
    ensures Lex(CmdString("codex", BuildCodexMcpAddArgv(name, url, envVar))) ==
      Ok(["codex", "mcp", "add", name, "--url", url, "--bearer-token-env-var", envVar])
  {
    var argv := BuildCodexMcpAddArgv(name, url, envVar);
    forall i | 0 <= i < |argv| ensures '\0' !in argv[i] {
    }
    ShellRoundTrip("codex", argv);
    assert ["codex"] + argv == ["codex", "mcp", "add", name, "--url", url, "--bearer-token-env-var", envVar];
  }

  // An argument is left as it is exactly when it is made of letters, digits and
  // the six characters - . / : @ _, one at least.
  lemma LeftUnquotedIff(arg: string)
    ensures ShellQuote(arg) == arg <==> arg != [] && forall i :: 0 <= i < |arg| ==> PlainCode(arg[i] as int)
  {
    if !AllSafe(arg) {
      EscapeGrows(arg);
    }
  }

  predicate PlainCode(n: int) {
    48 <= n <= 57 || 65 <= n <= 90 || 97 <= n <= 122 || n == 45 || n == 46 || n == 47 || n == 58 || n == 64 || n == 95
  }

  lemma {:induction false} EscapeGrows(s: string)
    ensures |EscapeQuotes(s)| >= |s|
  {
    if s != [] {
      EscapeGrows(s[1..]);
    }
  }

  // One more argument is one blank and its quotation.
  lemma {:induction false} CommandGrows(binary: string, argv: seq<string>, arg: string)
    ensures CmdString(binary, argv + [arg]) == (if argv == [] then binary else CmdString(binary, argv)) + " " + ShellQuote(arg)
  {
    if argv != [] {
      JoinGrows(argv, arg);
    } else {
      assert argv + [arg] == [arg];
    }
  }

  lemma {:induction false} JoinGrows(argv: seq<string>, arg: string)
    requires argv != []
    ensures JoinQuoted(argv + [arg]) == JoinQuoted(argv) + " " + ShellQuote(arg)
    decreases |argv|
  {
    assert (argv + [arg])[1..] == argv[1..] + [arg];
    if |argv| > 1 {
      JoinGrows(argv[1..], arg);
      Associate(ShellQuote(argv[0]) + " ", JoinQuoted(argv[1..]), " ", ShellQuote(arg));
    } else {
      assert argv[1..] + [arg] == [arg];
    }
  }

  lemma Associate(a: string, b: string, c: string, d: string)
    ensures a + (b + c + d) == a + b + c + d
  {
  }

  // A command that lexes has none of these outside quotes: it ends there.
  lemma SpecialStops(c: char, rest: string, word: Option<string>, done: seq<string>)
    requires c in "|&;<>()$`\"*?[#~=%!{}" || c == '\n'
    ensures LexOpen([c] + rest, word, done) == Err(Special(c))
  {
    assert ([c] + rest)[0] == c;
  }
}
