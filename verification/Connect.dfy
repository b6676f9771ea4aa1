/** Printing commands that a POSIX shell reads back unchanged (src/commands/connect.ts). */
module Connect {
  import opened Wrappers

  const NUL := '\0'

  // ----- the printer

  /** The characters of `[A-Za-z0-9_.:/@-]`. */
  predicate Safe(c: char) {
    || 'A' <= c <= 'Z' || 'a' <= c <= 'z' || '0' <= c <= '9'
    || c == '_' || c == '.' || c == ':' || c == '/' || c == '@' || c == '-'
  }

  predicate SafeWord(s: string) {
    s != "" && forall i | 0 <= i < |s| :: Safe(s[i])
  }

  /** Every single quote becomes: close the quotes, an escaped quote, open them again. */
  function EscapeQuotes(s: string): string {
    if s == "" then "" else (if s[0] == '\'' then "'\\''" else [s[0]]) + EscapeQuotes(s[1..])
  }

  function ShellQuote(arg: string): string {
    if SafeWord(arg) then arg else "'" + EscapeQuotes(arg) + "'"
  }

  function JoinQuoted(argv: seq<string>): string {
    if argv == [] then ""
    else if |argv| == 1 then ShellQuote(argv[0])
    else ShellQuote(argv[0]) + " " + JoinQuoted(argv[1..])
  }

  function CmdString(binary: string, argv: seq<string>): string {
    binary + " " + JoinQuoted(argv)
  }

  function BuildClaudeMcpAddArgv(name: string, url: string, headerToken: string): seq<string> {
    ["mcp", "add", name, "-t", "http", url, "-H", "Authorization: Bearer " + headerToken]
  }

  function BuildCodexMcpAddArgv(name: string, url: string, envVar: string): seq<string> {
    ["mcp", "add", name, "--url", url, "--bearer-token-env-var", envVar]
  }

  /** The line that hands Codex its token. */
  function ExportLine(envVar: string, token: string): string {
    "export " + envVar + "=" + ShellQuote(token)
  }

  // ----- the reader: one simple command without expansions
  // (token recognition 2.3, escapes 2.2.1, single quotes 2.2.2 and quote removal 2.6.7 of the
  // POSIX.1-2017 Shell Command Language)

  datatype Mode = Between | Word(w: string) | Quoted(w: string) | Escaped(inWord: Option<string>)

  predicate Blank(c: char) { c == ' ' || c == '\t' }

  /** Unquoted characters that end the command or may expand; `=` only in the command's own word. */
  predicate Special(c: char, first: bool) {
    || c == '|' || c == '&' || c == ';' || c == '<' || c == '>' || c == '(' || c == ')' || c == '$'
    || c == '`' || c == '"' || c == '\n' || c == '*' || c == '?' || c == '[' || c == ']' || c == '#'
    || c == '~' || c == '%' || c == '!' || c == '{' || c == '}' || c == NUL
    || (first && c == '=')
  }

  /** The words read; `None` when the text is not a single command of literal words. */
  function Lex(words: seq<string>, mode: Mode, s: string): Option<seq<string>>
    decreases |s|
  {
    if s == "" then
      match mode
      case Between => Some(words)
      case Word(w) => Some(words + [w])
      case _ => None
    else
      var c, rest := s[0], s[1..];
      match mode
      case Quoted(w) =>
        if c == NUL then None
        else if c == '\'' then Lex(words, Word(w), rest)
        else Lex(words, Quoted(w + [c]), rest)
      case Escaped(inWord) =>
        if c == NUL then None
        else if c == '\n' then Lex(words, if inWord.Some? then Word(inWord.value) else Between, rest)
        else Lex(words, Word((if inWord.Some? then inWord.value else "") + [c]), rest)
      case Between =>
        if Blank(c) then Lex(words, Between, rest)
        else if c == '\'' then Lex(words, Quoted(""), rest)
        else if c == '\\' then Lex(words, Escaped(None), rest)
        else if Special(c, words == []) then None
        else Lex(words, Word([c]), rest)
      case Word(w) =>
        if Blank(c) then Lex(words + [w], Between, rest)
        else if c == '\'' then Lex(words, Quoted(w), rest)
        else if c == '\\' then Lex(words, Escaped(Some(w)), rest)
        else if Special(c, words == []) then None
        else Lex(words, Word(w + [c]), rest)
  }

  function Read(command: string): Option<seq<string>> {
    Lex([], Between, command)
  }

  // ----- one word

  lemma {:induction false} LexSafe(words: seq<string>, w: string, arg: string, rest: string)
    requires forall i | 0 <= i < |arg| :: Safe(arg[i])
    ensures Lex(words, Word(w), arg + rest) == Lex(words, Word(w + arg), rest)
    decreases |arg|
  {
    if arg == "" {
      assert arg + rest == rest && w + arg == w;
    } else {
      assert (arg + rest)[1..] == arg[1..] + rest;
      LexSafe(words, w + [arg[0]], arg[1..], rest);
      assert w + [arg[0]] + arg[1..] == w + arg;
    }
  }

  /** Closing the quotes, an escaped quote, opening them again: one quote in the word. */
  lemma {:induction false} LexEscapedQuote(words: seq<string>, w: string, more: string)
    ensures Lex(words, Quoted(w), "'\\''" + more) == Lex(words, Quoted(w + "'"), more)
  {
    var s3 := "'" + more;
    var s2 := "'" + s3;
    var s1 := "\\" + s2;
    assert "'\\''" + more == "'" + s1;
    assert ("'" + s1)[1..] == s1 && s1[1..] == s2 && s2[1..] == s3 && s3[1..] == more;
    assert Lex(words, Quoted(w), "'" + s1) == Lex(words, Word(w), s1);
    assert Lex(words, Word(w), s1) == Lex(words, Escaped(Some(w)), s2);
    assert Lex(words, Escaped(Some(w)), s2) == Lex(words, Word(w + "'"), s3);
    assert Lex(words, Word(w + "'"), s3) == Lex(words, Quoted(w + "'"), more);
  }

  lemma {:induction false} LexQuoted(words: seq<string>, w: string, arg: string, rest: string)
    ensures Lex(words, Quoted(w), EscapeQuotes(arg) + ("'" + rest))
         == if NUL in arg then None else Lex(words, Word(w + arg), rest)
    decreases |arg|
  {
    if arg == "" {
      assert EscapeQuotes(arg) + ("'" + rest) == "'" + rest && ("'" + rest)[1..] == rest && w + arg == w;
    } else {
      var c, more := arg[0], EscapeQuotes(arg[1..]) + ("'" + rest);
      LexQuoted(words, w + [c], arg[1..], rest);
      assert w + [c] + arg[1..] == w + arg;
      assert arg == [c] + arg[1..];
      var text := EscapeQuotes(arg) + ("'" + rest);
      if c == '\'' {
        assert text == "'\\''" + more;
        LexEscapedQuote(words, w, more);
      } else {
        assert text == [c] + more && text[1..] == more;
      }
    }
  }

  /** A printed argument reads back as one word, whatever follows it. */
  lemma {:induction false} LexArgument(words: seq<string>, arg: string, rest: string)
    ensures Lex(words, Between, ShellQuote(arg) + rest)
         == if NUL in arg then None else Lex(words, Word(arg), rest)
  {
    if SafeWord(arg) {
      assert (arg + rest)[1..] == arg[1..] + rest;
      LexSafe(words, [arg[0]], arg[1..], rest);
      assert [arg[0]] + arg[1..] == arg;
    } else {
      var text := ShellQuote(arg) + rest;
      assert text == "'" + (EscapeQuotes(arg) + ("'" + rest));
      assert text[1..] == EscapeQuotes(arg) + ("'" + rest);
      LexQuoted(words, "", arg, rest);
      assert "" + arg == arg;
    }
  }

  lemma {:induction false} LexSpace(words: seq<string>, w: string, rest: string)
    ensures Lex(words, Word(w), " " + rest) == Lex(words + [w], Between, rest)
  {
    assert (" " + rest)[1..] == rest;
  }

  // ----- whole commands

  predicate NulFree(argv: seq<string>) {
    forall a | a in argv :: NUL !in a
  }

  lemma NulFreeCons(arg: string, argv: seq<string>)
    ensures NulFree([arg] + argv) <==> NUL !in arg && NulFree(argv)
  {
    assert forall a :: a in [arg] + argv <==> a == arg || a in argv;
  }

  lemma {:induction false} LexArguments(words: seq<string>, argv: seq<string>)
    ensures Lex(words, Between, JoinQuoted(argv)) == if NulFree(argv) then Some(words + argv) else None
    decreases |argv|
  {
    if argv == [] {
      assert words + argv == words;
    } else if |argv| == 1 {
      LexArgument(words, argv[0], "");
      assert ShellQuote(argv[0]) + "" == ShellQuote(argv[0]);
      assert argv == [argv[0]];
    } else {
      var arg, more := argv[0], argv[1..];
      var rest := " " + JoinQuoted(more);
      assert argv == [arg] + more;
      LexArgument(words, arg, rest);
      assert JoinQuoted(argv) == ShellQuote(arg) + rest;
      LexSpace(words, arg, JoinQuoted(more));
      LexArguments(words + [arg], more);
      assert words + [arg] + more == words + argv;
      NulFreeCons(arg, more);
    }
  }

  /**
    A printed command reads back as exactly the binary and the arguments, one word each, with
    nothing expanded, executed or split, if and only if no argument holds a NUL.
  */
  lemma ShellRoundTrip(binary: string, argv: seq<string>)
    requires SafeWord(binary)
    ensures Read(CmdString(binary, argv)) == Some([binary] + argv) <==> NulFree(argv)
  {
    LexArgument([], binary, " " + JoinQuoted(argv));
    assert CmdString(binary, argv) == ShellQuote(binary) + (" " + JoinQuoted(argv));
    LexSpace([], binary, JoinQuoted(argv));
    LexArguments([binary], argv);
    assert [] + [binary] == [binary];
  }

  /** Different commands are printed differently. */
  lemma CmdStringInjective(binary: string, argv: seq<string>, binary': string, argv': seq<string>)
    requires SafeWord(binary) && SafeWord(binary') && NulFree(argv) && NulFree(argv')
    requires CmdString(binary, argv) == CmdString(binary', argv')
    ensures binary == binary' && argv == argv'
  {
    ShellRoundTrip(binary, argv);
    ShellRoundTrip(binary', argv');
    var words, words' := [binary] + argv, [binary'] + argv';
    assert words[0] == binary && words'[0] == binary' && words[1..] == argv && words'[1..] == argv';
  }

  /** Pasting the Claude block passes the header, token and all, as the one last argument. */
  lemma ClaudeCommand(name: string, url: string, token: string)
    requires NUL !in name && NUL !in url && NUL !in token
    ensures Read(CmdString("claude", BuildClaudeMcpAddArgv(name, url, token)))
         == Some(["claude", "mcp", "add", name, "-t", "http", url, "-H", "Authorization: Bearer " + token])
  {
    hide Lex;
    var argv := BuildClaudeMcpAddArgv(name, url, token);
    forall a | a in argv ensures NUL !in a {
      assert NUL !in "Authorization: Bearer ";
    }
    assert SafeWord("claude");
    ShellRoundTrip("claude", argv);
    assert ["claude"] + argv == ["claude", "mcp", "add", name, "-t", "http", url, "-H", "Authorization: Bearer " + token];
  }

  /** Pasting the Codex command names the variable, not the token. */
  lemma CodexCommand(name: string, url: string, envVar: string)
    requires NUL !in name && NUL !in url && SafeWord(envVar)
    ensures Read(CmdString("codex", BuildCodexMcpAddArgv(name, url, envVar)))
         == Some(["codex", "mcp", "add", name, "--url", url, "--bearer-token-env-var", envVar])
  {
    hide Lex;
    var argv := BuildCodexMcpAddArgv(name, url, envVar);
    assert NUL !in envVar by {
      assert forall i | 0 <= i < |envVar| :: envVar[i] != NUL;
    }
    assert NulFree(argv);
    assert SafeWord("codex");
    ShellRoundTrip("codex", argv);
    assert ["codex"] + argv == ["codex", "mcp", "add", name, "--url", url, "--bearer-token-env-var", envVar];
  }

  /** The export line before it sets the variable to exactly the token. */
  lemma CodexExport(envVar: string, token: string)
    requires NUL !in token && SafeWord(envVar)
    ensures Read(ExportLine(envVar, token)) == Some(["export", envVar + "=" + token])
  {
    hide Lex;
    var value := "=" + ShellQuote(token);
    assert SafeWord("export");
    assert ExportLine(envVar, token) == ShellQuote("export") + (" " + (envVar + value));
    LexArgument([], "export", " " + (envVar + value));
    LexSpace([], "export", envVar + value);
    assert [] + ["export"] == ["export"];
    assert NUL !in envVar by {
      assert forall i | 0 <= i < |envVar| :: envVar[i] != NUL;
    }
    LexArgument(["export"], envVar, value);
    LexAssignment(["export"], envVar, token);
    assert ShellQuote(envVar) == envVar && ShellQuote("export") == "export";
    assert ["export"] + [envVar + "=" + token] == ["export", envVar + "=" + token];
  }

  lemma {:induction false} LexAssignment(words: seq<string>, name: string, token: string)
    requires words != [] && NUL !in token
    ensures Lex(words, Word(name), "=" + ShellQuote(token)) == Some(words + [name + "=" + token])
  {
    var w := name + "=";
    assert ("=" + ShellQuote(token))[1..] == ShellQuote(token);
    assert Lex(words, Word(name), "=" + ShellQuote(token)) == Lex(words, Word(w), ShellQuote(token));
    if SafeWord(token) {
      LexSafe(words, w, token, "");
      assert token + "" == token;
    } else {
      LexQuoted(words, w, token, "");
      assert ShellQuote(token) == "'" + (EscapeQuotes(token) + ("'" + ""));
      assert ShellQuote(token)[1..] == EscapeQuotes(token) + ("'" + "");
    }
  }
}
