/**
 * Deciding from a launch command whether it starts an interactive agent
 * (src/cli/codex-command-classification.ts).  String lower-casing is a parameter: nothing proved
 * here depends on what it does.
 */
module CodexCommand {
  import opened Options

  type Lowering = string -> string

  const TOKEN_LIMIT := 32

  /** Matched by `\s` and removed by `trim`. */
  predicate IsSpace(c: char) {
    || c in "\t\n\r " || c in ['\U{0B}', '\U{0C}', '\U{A0}', '\U{1680}', '\U{FEFF}']
    || '\U{2000}' <= c <= '\U{200A}'
    || c in ['\U{2028}', '\U{2029}', '\U{202F}', '\U{205F}', '\U{3000}']
  }

  predicate IsQuote(c: char) { c == '"' || c == '\'' }

  // ---- Words ----

  /** The words of `s`, when `current` is already collected and `quote` may be open. */
  function Words(s: string, current: string, quote: Option<char>): seq<string> {
    if s == "" then (if current != "" then [current] else [])
    else if quote.Some? then
      if s[0] == quote.value then Words(s[1..], current, None) else Words(s[1..], current + [s[0]], quote)
    else if IsQuote(s[0]) then Words(s[1..], current, Some(s[0]))
    else if IsSpace(s[0]) then (if current != "" then [current] else []) + Words(s[1..], "", None)
    else Words(s[1..], current + [s[0]], None)
  }

  /** Only those ended by whitespace, not by the end of the command. */
  function EndedWords(s: string, current: string, quote: Option<char>): seq<string> {
    if s == "" then []
    else if quote.Some? then
      if s[0] == quote.value then EndedWords(s[1..], current, None) else EndedWords(s[1..], current + [s[0]], quote)
    else if IsQuote(s[0]) then EndedWords(s[1..], current, Some(s[0]))
    else if IsSpace(s[0]) then (if current != "" then [current] else []) + EndedWords(s[1..], "", None)
    else EndedWords(s[1..], current + [s[0]], None)
  }

  function Take(ws: seq<string>, n: nat): seq<string> { if |ws| <= n then ws else ws[..n] }

  /** What the tokenizer returns.  A zero limit is noticed only after a word has been pushed. */
  function Tokens(command: string, limit: nat): seq<string> {
    if limit > 0 then Take(Words(command, "", None), limit) else Take(EndedWords(command, "", None), 1)
  }

  method TokenizeLeadingShellWords(command: string, limit: nat) returns (tokens: seq<string>)
    ensures tokens == Tokens(command, limit)
  {
    hide IsSpace, IsQuote;
    tokens := [];
    var current: string := "";
    var quote: Option<char> := None;
    assert command[0..] == command;
    for i := 0 to |command|
      invariant tokens + Words(command[i..], current, quote) == Words(command, "", None)
      invariant tokens + EndedWords(command[i..], current, quote) == EndedWords(command, "", None)
      invariant tokens == [] || |tokens| < limit
    {
      var ch := command[i];
      ghost var rest := command[i + 1..];
      assert command[i..][0] == ch && command[i..][1..] == rest;
      if quote.Some? {
        if ch == quote.value { quote := None; } else { current := current + [ch]; }
        continue;
      }
      if IsQuote(ch) {
        quote := Some(ch);
        continue;
      }
      if IsSpace(ch) {
        if current != "" {
          assert tokens + ([current] + Words(rest, "", None)) == tokens + [current] + Words(rest, "", None);
          assert tokens + ([current] + EndedWords(rest, "", None)) == tokens + [current] + EndedWords(rest, "", None);
          tokens := tokens + [current];
          if |tokens| >= limit { return; }
          current := "";
        }
        continue;
      }
      current := current + [ch];
    }
    if current != "" && |tokens| < limit {
      tokens := tokens + [current];
    }
  }

  lemma {:induction false} EndedWordsAreWords(s: string, current: string, quote: Option<char>)
    ensures EndedWords(s, current, quote) <= Words(s, current, quote)
  {
    if s != "" {
      hide IsSpace;
      if quote.Some? {
        if s[0] == quote.value { EndedWordsAreWords(s[1..], current, None); }
        else { EndedWordsAreWords(s[1..], current + [s[0]], quote); }
      } else if IsQuote(s[0]) {
        EndedWordsAreWords(s[1..], current, Some(s[0]));
      } else if IsSpace(s[0]) {
        EndedWordsAreWords(s[1..], "", None);
      } else {
        EndedWordsAreWords(s[1..], current + [s[0]], None);
      }
    }
  }

  /** The limited tokenization is the front of the unlimited one, except for a zero limit with a word before a space. */
  lemma LimitTakesPrefixExactly(command: string, limit: nat)
    ensures Tokens(command, limit) == Take(Words(command, "", None), limit)
            <==> limit > 0 || EndedWords(command, "", None) == []
  {
    EndedWordsAreWords(command, "", None);
  }

  lemma {:induction false} WordsAreNonempty(s: string, current: string, quote: Option<char>)
    ensures forall k :: 0 <= k < |Words(s, current, quote)| ==> Words(s, current, quote)[k] != ""
  {
    if s != "" {
      hide IsSpace;
      if quote.Some? {
        if s[0] == quote.value { WordsAreNonempty(s[1..], current, None); }
        else { WordsAreNonempty(s[1..], current + [s[0]], quote); }
      } else if IsQuote(s[0]) {
        WordsAreNonempty(s[1..], current, Some(s[0]));
      } else if IsSpace(s[0]) {
        WordsAreNonempty(s[1..], "", None);
      } else {
        WordsAreNonempty(s[1..], current + [s[0]], None);
      }
    }
  }

  // ---- Trimming ----

  function TrimStart(s: string): string {
    if s != "" && IsSpace(s[0]) then TrimStart(s[1..]) else s
  }

  function TrimEnd(s: string): string {
    if s != "" && IsSpace(s[|s| - 1]) then TrimEnd(s[..|s| - 1]) else s
  }

  function Trim(s: string): string { TrimStart(TrimEnd(s)) }

  lemma {:induction false} WordsSkipSpace(s: string)
    ensures Words(TrimStart(s), "", None) == Words(s, "", None)
  {
    if s != "" && IsSpace(s[0]) {
      SpaceIsNoQuote(s[0]);
      hide IsSpace, IsQuote;
      WordsSkipSpace(s[1..]);
    }
  }

  lemma SpaceIsNoQuote(c: char)
    requires IsSpace(c)
    ensures !IsQuote(c)
  {
  }

  predicate Blank(s: string) { forall c <- s :: IsSpace(c) }

  lemma {:induction false} TrimEndKeepsFront(front: string, s: string)
    ensures TrimEnd(front + s) == if TrimEnd(s) == "" then TrimEnd(front) else front + TrimEnd(s)
  {
    hide IsSpace;
    if s == "" {
      assert front + s == front;
    } else {
      var all := front + s;
      assert all[|all| - 1] == s[|s| - 1] && all[..|all| - 1] == front + s[..|s| - 1];
      if IsSpace(s[|s| - 1]) { TrimEndKeepsFront(front, s[..|s| - 1]); }
    }
  }

  /** A word without quotes or spaces. */
  predicate PlainWord(w: string) { w != "" && forall c <- w :: !IsSpace(c) && !IsQuote(c) }

  lemma {:induction false} WordsOfPlain(w: string, s: string, current: string)
    requires forall c <- w :: !IsSpace(c) && !IsQuote(c)
    ensures Words(w + s, current, None) == Words(s, current + w, None)
  {
    hide IsSpace, IsQuote;
    if w == "" {
      assert w + s == s && current + w == current;
    } else {
      assert w[0] in w;
      assert (w + s)[0] == w[0] && (w + s)[1..] == w[1..] + s;
      WordsOfPlain(w[1..], s, current + [w[0]]);
      assert current + [w[0]] + w[1..] == current + w;
    }
  }

  lemma {:induction false} WordsOfSpace(sep: string, s: string, current: string)
    requires Blank(sep) && sep != "" && current != ""
    ensures Words(sep + s, current, None) == [current] + Words(s, "", None)
  {
    assert sep[0] in sep;
    SpaceIsNoQuote(sep[0]);
    hide IsSpace, IsQuote;
    assert (sep + s)[1..] == sep[1..] + s;
    WordsOfBlank(sep[1..], s);
  }

  lemma {:induction false} WordsOfBlank(sep: string, s: string)
    requires Blank(sep)
    ensures Words(sep + s, "", None) == Words(s, "", None)
  {
    if sep == "" {
      assert sep + s == s;
    } else {
      assert sep[0] in sep;
      SpaceIsNoQuote(sep[0]);
      hide IsSpace, IsQuote;
      assert (sep + s)[1..] == sep[1..] + s;
      WordsOfBlank(sep[1..], s);
    }
  }

  lemma PlainWordIsTrimmed(w: string, s: string)
    requires PlainWord(w)
    ensures TrimEnd(w) == w && TrimStart(w + s) == w + s && TrimStart(w) == w
  {
    assert w[0] in w && w[|w| - 1] in w;
    assert (w + s)[0] == w[0];
  }

  lemma BlankTrims(sep: string)
    requires Blank(sep)
    ensures TrimEnd(sep) == ""
  {
    if sep != "" {
      assert sep[|sep| - 1] in sep;
      BlankTrims(sep[..|sep| - 1]);
    }
  }

  lemma Regroup(a: string, b: string, c: string)
    ensures a + b + c == a + (b + c)
  {
  }

  lemma TrimAfterPrefix(w: string, sep: string, command: string)
    requires PlainWord(w) && Blank(sep)
    ensures TrimEnd(command) == "" ==> Trim(w + sep + command) == w
    ensures TrimEnd(command) != "" ==> Trim(w + sep + command) == w + (sep + TrimEnd(command))
  {
    var prefix, tail := w + sep, TrimEnd(command);
    PlainWordIsTrimmed(w, sep + tail);
    BlankTrims(sep);
    TrimEndKeepsFront(prefix, command);
    TrimEndKeepsFront(w, sep);
    Regroup(w, sep, tail);
    hide TrimStart, TrimEnd, PlainWord, Blank;
    assert Trim(prefix + command) == TrimStart(TrimEnd(prefix + command));
  }

  /** Putting a plain word in front adds exactly that word. */
  lemma PrefixAddsAWord(w: string, sep: string, command: string)
    requires PlainWord(w) && Blank(sep) && sep != ""
    ensures Words(Trim(w + sep + command), "", None) == [w] + Words(Trim(command), "", None)
  {
    var tail := TrimEnd(command);
    TrimAfterPrefix(w, sep, command);
    WordsSkipSpace(tail);
    WordsOfPlain(w, if tail == "" then "" else sep + tail, "");
    assert "" + w == w && w + "" == w;
    if tail != "" { WordsOfSpace(sep, tail, w); }
  }

  // ---- Recognising the command ----

  function Replaced(s: string): string {
    if s == "" then "" else [if s[0] == '\\' then '/' else s[0]] + Replaced(s[1..])
  }

  /** After the last slash. */
  function LastSegment(s: string): string {
    if s == "" || s[|s| - 1] == '/' then "" else LastSegment(s[..|s| - 1]) + [s[|s| - 1]]
  }

  function CommandBasename(command: string, lower: Lowering): string { lower(LastSegment(Replaced(command))) }

  predicate IsCodexExecutable(name: string) { name in ["codex", "codex.exe", "codex.cmd"] }

  predicate IsClaudeExecutable(name: string) { name in ["claude", "claude.exe", "claude.cmd"] }

  predicate IsNameStart(c: char) { 'A' <= c <= 'Z' || 'a' <= c <= 'z' || c == '_' }

  predicate IsNamePart(c: char) { IsNameStart(c) || '0' <= c <= '9' }

  /** A shell variable name, then '='. */
  predicate IsShellAssignment(token: string) {
    exists n: nat | 0 < n < |token| ::
      token[n] == '=' && IsNameStart(token[0]) && forall k | 0 < k < n :: IsNamePart(token[k])
  }

  function DropAssignments(tokens: seq<string>): seq<string> {
    if tokens != [] && IsShellAssignment(tokens[0]) then DropAssignments(tokens[1..]) else tokens
  }

  predicate StartsWith(token: string, prefix: string) { prefix <= token }

  function DropEnvArguments(tokens: seq<string>): seq<string>
    decreases |tokens|
  {
    if tokens == [] || tokens[0] == "" then tokens
    else if IsShellAssignment(tokens[0]) then DropEnvArguments(tokens[1..])
    else if tokens[0] == "-u" || tokens[0] == "--unset" then DropEnvArguments(if |tokens| > 1 then tokens[2..] else [])
    else if StartsWith(tokens[0], "-") then DropEnvArguments(tokens[1..])
    else tokens
  }

  function StripLaunchPrefix(tokens: seq<string>, lower: Lowering): seq<string> {
    var remaining := DropAssignments(tokens);
    if remaining != [] && remaining[0] != "" && CommandBasename(remaining[0], lower) == "env"
    then DropEnvArguments(remaining[1..]) else remaining
  }

  method StripShellLaunchPrefix(tokens: seq<string>, lower: Lowering) returns (remaining: seq<string>)
    ensures remaining == StripLaunchPrefix(tokens, lower)
  {
    remaining := tokens;
    while |remaining| > 0 && remaining[0] != "" && IsShellAssignment(remaining[0])
      invariant DropAssignments(remaining) == DropAssignments(tokens)
      decreases |remaining|
    {
      remaining := remaining[1..];
    }
    if |remaining| > 0 && remaining[0] != "" && CommandBasename(remaining[0], lower) == "env" {
      remaining := remaining[1..];
      ghost var arguments := remaining;
      while |remaining| > 0 && remaining[0] != ""
        invariant DropEnvArguments(remaining) == DropEnvArguments(arguments)
        decreases |remaining|
      {
        var token := remaining[0];
        if IsShellAssignment(token) {
          remaining := remaining[1..];
          continue;
        }
        if token == "-u" || token == "--unset" {
          remaining := if |remaining| > 1 then remaining[2..] else [];
          continue;
        }
        if StartsWith(token, "--unset=") || StartsWith(token, "-") {
          remaining := remaining[1..];
          continue;
        }
        break;
      }
    }
  }

  // ---- Subcommands ----

  const NON_INTERACTIVE := [
    "exec", "e", "review", "logout", "mcp", "plugin", "mcp-server", "app-server", "remote-control", "app", "completion",
    "update", "doctor", "sandbox", "debug", "execpolicy", "apply", "a", "cloud", "cloud-tasks", "responses-api-proxy",
    "stdio-to-uds", "exec-server", "features", "help", "version"]
  const NON_INTERACTIVE_CLOUD := ["exec", "status", "list", "apply", "diff", "help"]
  const NON_INTERACTIVE_LOGIN := ["status", "help"]
  const GLOBAL_FLAGS_WITH_VALUES := [
    "--config", "-c", "--enable", "--disable", "--remote", "--remote-auth-token-env", "--image", "-i", "--model", "-m",
    "--local-provider", "--profile", "-p", "--sandbox", "-s", "--cd", "-C", "--add-dir", "--ask-for-approval", "-a"]
  const GLOBAL_BOOLEAN_FLAGS := [
    "--oss", "--dangerously-bypass-approvals-and-sandbox", "--search", "--no-alt-screen", "--help", "-h", "--version",
      "-V"]
  const CHILD_FLAGS_WITH_VALUES := ["-c", "--config", "--enable", "--disable"]
  const LOGIN_BOOLEAN_FLAGS := ["--with-api-key", "--with-access-token", "--device-auth", "--help", "-h"]
  const CLOUD_BOOLEAN_FLAGS := ["--help", "-h", "--version", "-V"]

  datatype Subcommand = Subcommand(value: string, index: nat)

  function OptionName(token: string): string {
    if token == "" || token[0] == '=' then "" else [token[0]] + OptionName(token[1..])
  }

  predicate IsHelpFlag(token: string) { token == "--help" || token == "-h" }

  predicate IsVersionFlag(token: string) { token == "--version" || token == "-V" }

  predicate IsClaudePrintFlag(token: string) { OptionName(token) == "-p" || OptionName(token) == "--print" }

  function FindFrom(tokens: seq<string>, i: nat, flagsWithValues: seq<string>,
                    booleanFlags: seq<string>): Option<Subcommand>
    decreases |tokens| - i
  {
    if i >= |tokens| then None
    else
      var token, name := tokens[i], OptionName(tokens[i]);
      if token == "--" then
        (if i + 1 < |tokens| && tokens[i + 1] != "" then Some(Subcommand("<prompt>", i + 1)) else None)
      else if IsHelpFlag(name) || IsVersionFlag(name) then
        Some(Subcommand(if IsVersionFlag(name) then "version" else "help", i))
      else if name in flagsWithValues then
        FindFrom(tokens, if name == token then i + 2 else i + 1, flagsWithValues, booleanFlags)
      else if name in booleanFlags then FindFrom(tokens, i + 1, flagsWithValues, booleanFlags)
      else Some(Subcommand(token, i))
  }

  method FindCodexSubcommand(tokens: seq<string>, startIndex: nat, flagsWithValues: seq<string>,
                             booleanFlags: seq<string>)
    returns (r: Option<Subcommand>)
    ensures r == FindFrom(tokens, startIndex, flagsWithValues, booleanFlags)
  {
    var i := startIndex;
    while i < |tokens|
      invariant FindFrom(tokens, i, flagsWithValues, booleanFlags) ==
                  FindFrom(tokens, startIndex, flagsWithValues, booleanFlags)
      decreases |tokens| - i
    {
      var token := tokens[i];
      if token == "--" {
        return if i + 1 < |tokens| && tokens[i + 1] != "" then Some(Subcommand("<prompt>", i + 1)) else None;
      }
      var name := OptionName(token);
      if IsHelpFlag(name) || IsVersionFlag(name) {
        return Some(Subcommand(if IsVersionFlag(name) then "version" else "help", i));
      }
      if name in flagsWithValues {
        i := if name == token then i + 2 else i + 1;
        continue;
      }
      if name in booleanFlags {
        i := i + 1;
        continue;
      }
      return Some(Subcommand(token, i));
    }
    return None;
  }

  predicate IsNonInteractive(tokens: seq<string>, lower: Lowering) {
    var sub := FindFrom(tokens, 1, GLOBAL_FLAGS_WITH_VALUES, GLOBAL_BOOLEAN_FLAGS);
    if sub.None? then false
    else
      var name, next := lower(sub.value.value), sub.value.index + 1;
      var after := if next <= |tokens| then tokens[next..] else [];
      if name == "login" then
        var child := FindFrom(tokens, next, CHILD_FLAGS_WITH_VALUES, LOGIN_BOOLEAN_FLAGS);
        || "--with-api-key" in after || "--with-access-token" in after
        || (exists t <- after :: IsHelpFlag(t))
        || (child.Some? && lower(child.value.value) in NON_INTERACTIVE_LOGIN)
      else if name == "cloud" then
        var child := FindFrom(tokens, next, CHILD_FLAGS_WITH_VALUES, CLOUD_BOOLEAN_FLAGS);
        || (exists t <- after :: IsHelpFlag(t) || IsVersionFlag(t))
        || (child.Some? && lower(child.value.value) in NON_INTERACTIVE_CLOUD)
      else name in NON_INTERACTIVE
  }

  // ---- The two classifiers ----

  function NonEmpty(tokens: seq<string>): seq<string> {
    if tokens == [] then [] else (if tokens[0] != "" then [tokens[0]] else []) + NonEmpty(tokens[1..])
  }

  /** The tokens both classifiers look at. */
  function LaunchTokens(command: string, lower: Lowering): seq<string> {
    StripLaunchPrefix(NonEmpty(Tokens(Trim(command), TOKEN_LIMIT)), lower)
  }

  function Executable(tokens: seq<string>, lower: Lowering): string {
    if tokens != [] && tokens[0] != "" then CommandBasename(tokens[0], lower) else ""
  }

  predicate StartsCodex(tokens: seq<string>, lower: Lowering) {
    IsCodexExecutable(Executable(tokens, lower)) && !IsNonInteractive(tokens, lower)
  }

  predicate StartsInteractive(tokens: seq<string>, lower: Lowering) {
    var executable := Executable(tokens, lower);
    if IsCodexExecutable(executable) then !IsNonInteractive(tokens, lower)
    else IsClaudeExecutable(executable)
         && forall t <- tokens[1..] :: !IsHelpFlag(t) && !IsVersionFlag(t) && !IsClaudePrintFlag(t)
  }

  predicate UsesCodexTerminal(command: Option<string>, lower: Lowering) {
    command.Some? && command.value != "" && StartsCodex(LaunchTokens(command.value, lower), lower)
  }

  predicate UsesInteractiveTerminal(command: Option<string>, lower: Lowering) {
    command.Some? && command.value != "" && StartsInteractive(LaunchTokens(command.value, lower), lower)
  }

  predicate SameClass(a: Option<string>, b: Option<string>, lower: Lowering) {
    && UsesCodexTerminal(a, lower) == UsesCodexTerminal(b, lower)
    && UsesInteractiveTerminal(a, lower) == UsesInteractiveTerminal(b, lower)
  }

  lemma {:induction false} NonEmptyKeeps(tokens: seq<string>)
    requires forall k :: 0 <= k < |tokens| ==> tokens[k] != ""
    ensures NonEmpty(tokens) == tokens
  {
    if tokens != [] {
      NonEmptyKeeps(tokens[1..]);
      assert tokens == [tokens[0]] + tokens[1..];
    }
  }

  lemma LaunchTokensOfWords(command: string, lower: Lowering)
    ensures LaunchTokens(command, lower) == StripLaunchPrefix(Take(Words(Trim(command), "", None), TOKEN_LIMIT), lower)
  {
    WordsAreNonempty(Trim(command), "", None);
    NonEmptyKeeps(Tokens(Trim(command), TOKEN_LIMIT));
  }

  /** Two commands whose launch tokens agree are classified alike, empty commands included. */
  lemma ClassOfTokens(a: string, b: string, lower: Lowering)
    requires LaunchTokens(a, lower) == LaunchTokens(b, lower)
    requires a == "" || b == "" ==> LaunchTokens(a, lower) == []
    ensures SameClass(Some(a), Some(b), lower)
  {
    hide LaunchTokens, IsNonInteractive, CommandBasename;
  }

  lemma NoWords(lower: Lowering)
    ensures LaunchTokens("", lower) == []
  {
    LaunchTokensOfWords("", lower);
    assert Words("", "", None) == [];
  }

  /** Classification depends only on the first 32 words. */
  lemma OnlyLeadingWordsMatter(a: string, b: string, lower: Lowering)
    requires Take(Words(Trim(a), "", None), TOKEN_LIMIT) == Take(Words(Trim(b), "", None), TOKEN_LIMIT)
    ensures SameClass(Some(a), Some(b), lower)
  {
    LaunchTokensOfWords(a, lower);
    LaunchTokensOfWords(b, lower);
    NoWords(lower);
    hide LaunchTokens;
    ClassOfTokens(a, b, lower);
  }

  /** Behind an environment assignment, a command is classified by its first 31 words. */
  lemma PrefixedCommandIsItsFirst31Words(w: string, sep: string, command: string, lower: Lowering)
    requires PlainWord(w) && IsShellAssignment(w) && Blank(sep) && sep != ""
    ensures var tokens := StripLaunchPrefix(Take(Words(Trim(command), "", None), 31), lower);
      && LaunchTokens(w + sep + command, lower) == tokens
      && UsesCodexTerminal(Some(w + sep + command), lower) == StartsCodex(tokens, lower)
      && UsesInteractiveTerminal(Some(w + sep + command), lower) == StartsInteractive(tokens, lower)
  {
    var words := Words(Trim(command), "", None);
    PrefixAddsAWord(w, sep, command);
    LaunchTokensOfWords(w + sep + command, lower);
    assert Take([w] + words, 32) == [w] + Take(words, 31);
    assert ([w] + Take(words, 31))[1..] == Take(words, 31);
    hide LaunchTokens, Words, Trim, Take, StartsCodex, StartsInteractive, IsShellAssignment;
  }

  /**
   * An environment assignment in front of a command of at most 31 words never changes how it is
   * classified.
   */
  lemma AssignmentPrefixIsNeutral(w: string, sep: string, command: string, lower: Lowering)
    requires PlainWord(w) && IsShellAssignment(w) && Blank(sep) && sep != ""
    requires |Words(Trim(command), "", None)| <= 31
    ensures SameClass(Some(w + sep + command), Some(command), lower)
  {
    PrefixedCommandIsItsFirst31Words(w, sep, command, lower);
    LaunchTokensOfWords(command, lower);
    NoWords(lower);
    hide LaunchTokens, Words, Trim, StripLaunchPrefix;
    ClassOfTokens(w + sep + command, command, lower);
  }

  // ---- With 32 words it can ----

  lemma {:induction false} AssignmentsOfLonger(tokens: seq<string>, x: string)
    requires DropAssignments(tokens) != []
    ensures DropAssignments(tokens + [x]) == DropAssignments(tokens) + [x]
  {
    hide IsShellAssignment;
    if IsShellAssignment(tokens[0]) {
      assert (tokens + [x])[1..] == tokens[1..] + [x];
      AssignmentsOfLonger(tokens[1..], x);
    }
  }

  lemma {:induction false} EnvArgumentsOfLonger(tokens: seq<string>, x: string)
    requires DropEnvArguments(tokens) != []
    ensures DropEnvArguments(tokens + [x]) == DropEnvArguments(tokens) + [x]
    decreases |tokens|
  {
    hide IsShellAssignment, StartsWith;
    if tokens[0] == "" {
    } else if !IsShellAssignment(tokens[0]) && tokens[0] in ["-u", "--unset"] {
      assert (tokens + [x])[2..] == tokens[2..] + [x];
      EnvArgumentsOfLonger(tokens[2..], x);
    } else if IsShellAssignment(tokens[0]) || StartsWith(tokens[0], "-") {
      assert (tokens + [x])[1..] == tokens[1..] + [x];
      EnvArgumentsOfLonger(tokens[1..], x);
    }
  }

  lemma LaunchOfLonger(tokens: seq<string>, x: string, lower: Lowering)
    requires StripLaunchPrefix(tokens, lower) != []
    ensures StripLaunchPrefix(tokens + [x], lower) == StripLaunchPrefix(tokens, lower) + [x]
  {
    hide DropAssignments, DropEnvArguments, CommandBasename;
    var remaining := DropAssignments(tokens);
    NothingDropped(lower);
    AssignmentsOfLonger(tokens, x);
    if remaining[0] != "" && CommandBasename(remaining[0], lower) == "env" {
      assert (remaining + [x])[1..] == remaining[1..] + [x];
      EnvArgumentsOfLonger(remaining[1..], x);
    }
  }

  lemma NothingDropped(lower: Lowering)
    ensures DropAssignments([]) == [] && DropEnvArguments([]) == []
  {
  }

  lemma {:induction false} FoundInLonger(tokens: seq<string>, x: string, i: nat, flagsWithValues: seq<string>,
                                         booleanFlags: seq<string>)
    requires FindFrom(tokens, i, flagsWithValues, booleanFlags).Some?
    ensures FindFrom(tokens, i, flagsWithValues, booleanFlags).value.index < |tokens|
    ensures FindFrom(tokens + [x], i, flagsWithValues, booleanFlags) ==
              FindFrom(tokens, i, flagsWithValues, booleanFlags)
    decreases |tokens| - i
  {
    hide OptionName, IsHelpFlag, IsVersionFlag;
    var token, name := tokens[i], OptionName(tokens[i]);
    assert (tokens + [x])[i] == token;
    if token != "--" && !IsHelpFlag(name) && !IsVersionFlag(name) {
      if name in flagsWithValues {
        FoundInLonger(tokens, x, if name == token then i + 2 else i + 1, flagsWithValues, booleanFlags);
      } else if name in booleanFlags {
        FoundInLonger(tokens, x, i + 1, flagsWithValues, booleanFlags);
      }
    }
  }

  /** A codex command that is not interactive stays so when a word is added. */
  lemma NonInteractiveStays(tokens: seq<string>, x: string, lower: Lowering)
    requires IsNonInteractive(tokens, lower)
    ensures IsNonInteractive(tokens + [x], lower)
  {
    hide FindFrom, IsHelpFlag, IsVersionFlag;
    FoundInLonger(tokens, x, 1, GLOBAL_FLAGS_WITH_VALUES, GLOBAL_BOOLEAN_FLAGS);
    var sub := FindFrom(tokens, 1, GLOBAL_FLAGS_WITH_VALUES, GLOBAL_BOOLEAN_FLAGS);
    var next := sub.value.index + 1;
    assert (tokens + [x])[next..] == tokens[next..] + [x];
    if FindFrom(tokens, next, CHILD_FLAGS_WITH_VALUES, LOGIN_BOOLEAN_FLAGS).Some? {
      FoundInLonger(tokens, x, next, CHILD_FLAGS_WITH_VALUES, LOGIN_BOOLEAN_FLAGS);
    }
    if FindFrom(tokens, next, CHILD_FLAGS_WITH_VALUES, CLOUD_BOOLEAN_FLAGS).Some? {
      FoundInLonger(tokens, x, next, CHILD_FLAGS_WITH_VALUES, CLOUD_BOOLEAN_FLAGS);
    }
    hide NON_INTERACTIVE, NON_INTERACTIVE_CLOUD, NON_INTERACTIVE_LOGIN, GLOBAL_FLAGS_WITH_VALUES, GLOBAL_BOOLEAN_FLAGS,
      CHILD_FLAGS_WITH_VALUES, LOGIN_BOOLEAN_FLAGS, CLOUD_BOOLEAN_FLAGS;
  }

  lemma WordsOnlyTakeAway(tokens: seq<string>, x: string, lower: Lowering)
    requires tokens != [] && StartsInteractive(tokens + [x], lower)
    ensures StartsInteractive(tokens, lower)
  {
    hide IsNonInteractive, CommandBasename, IsCodexExecutable, IsClaudeExecutable, IsHelpFlag, IsVersionFlag,
      IsClaudePrintFlag;
    assert (tokens + [x])[1..] == tokens[1..] + [x];
    if IsNonInteractive(tokens, lower) { NonInteractiveStays(tokens, x, lower); }
  }

  /** Whether a command is interactive depends on its 32nd word. */
  predicate ThirtySecondWordDecides(words: seq<string>, lower: Lowering) {
    && |words| >= 32
    && StartsInteractive(StripLaunchPrefix(words[..31], lower), lower)
       != StartsInteractive(StripLaunchPrefix(words[..32], lower), lower)
  }

  /**
   * An environment assignment in front of a command, of any length, changes how it is classified if and only if
   * the 32nd word decides; and then it turns a command that is not interactive into one that is, unless nothing but
   * assignments and `env` come before that word.
   */
  lemma PrefixMattersExactly(w: string, sep: string, command: string, lower: Lowering)
    requires PlainWord(w) && IsShellAssignment(w) && Blank(sep) && sep != ""
    ensures var words := Words(Trim(command), "", None);
      && (SameClass(Some(w + sep + command), Some(command), lower) <==> !ThirtySecondWordDecides(words, lower))
      && (ThirtySecondWordDecides(words, lower) && StripLaunchPrefix(words[..31], lower) != [] ==>
            UsesInteractiveTerminal(Some(w + sep + command), lower) && !UsesInteractiveTerminal(Some(command), lower))
  {
    var words := Words(Trim(command), "", None);
    hide IsShellAssignment, StripLaunchPrefix, StartsInteractive, StartsCodex, Words, Trim, UsesCodexTerminal,
      UsesInteractiveTerminal;
    if |words| < 32 {
      AssignmentPrefixIsNeutral(w, sep, command, lower);
    } else {
      PrefixedCommandIsItsFirst31Words(w, sep, command, lower);
      ClassOfCommand(command, lower);
      assert Take(words, 31) == words[..31] && Take(words, 32) == words[..32] == words[..31] + [words[31]];
      LongerClass(words[..31], words[31], lower);
    }
  }

  lemma ClassOfCommand(command: string, lower: Lowering)
    ensures var tokens := StripLaunchPrefix(Take(Words(Trim(command), "", None), 32), lower);
      && UsesCodexTerminal(Some(command), lower) == StartsCodex(tokens, lower)
      && UsesInteractiveTerminal(Some(command), lower) == StartsInteractive(tokens, lower)
  {
    LaunchTokensOfWords(command, lower);
    NoWords(lower);
    hide LaunchTokens, Words, Trim, StripLaunchPrefix, IsNonInteractive;
  }

  /** The codex class tells nothing that the interactive class does not. */
  lemma LongerClass(tokens: seq<string>, x: string, lower: Lowering)
    ensures var t, u := StripLaunchPrefix(tokens, lower), StripLaunchPrefix(tokens + [x], lower);
      && (StartsInteractive(t, lower) == StartsInteractive(u, lower) ==> StartsCodex(t, lower) == StartsCodex(u, lower))
      && (t != [] && StartsInteractive(u, lower) ==> StartsInteractive(t, lower))
  {
    var t, u := StripLaunchPrefix(tokens, lower), StripLaunchPrefix(tokens + [x], lower);
    if t != [] {
      LaunchOfLonger(tokens, x, lower);
      if StartsInteractive(u, lower) { WordsOnlyTakeAway(t, x, lower); }
    }
    hide StripLaunchPrefix, IsNonInteractive, CommandBasename;
  }

  function SearchFlags(n: nat): string { if n == 0 then "" else " --search" + SearchFlags(n - 1) }

  function Repeated(n: nat, word: string): (r: seq<string>)
    ensures |r| == n && forall i :: 0 <= i < n ==> r[i] == word
  {
    seq(n, _ => word)
  }

  lemma {:induction false} WordsOfSearch(n: nat, current: string)
    requires current != ""
    ensures Words(SearchFlags(n) + " exec", current, None) == [current] + Repeated(n, "--search") + ["exec"]
  {
    hide Words, IsSpace, IsQuote;
    SpaceOnly();
    if n == 0 {
      assert SearchFlags(0) + " exec" == " " + ("exec" + "");
      WordsOfSpace(" ", "exec" + "", current);
      WordsOfPlain("exec", "", "");
      LastWord("exec");
    } else {
      var rest := SearchFlags(n - 1) + " exec";
      assert SearchFlags(n) + " exec" == " " + ("--search" + rest);
      WordsOfSpace(" ", "--search" + rest, current);
      WordsOfPlain("--search", rest, "");
      assert "" + "--search" == "--search";
      WordsOfSearch(n - 1, "--search");
      assert [current] + (["--search"] + Repeated(n - 1, "--search") + ["exec"]) ==
        [current] + Repeated(n, "--search") + ["exec"];
    }
  }

  lemma SpaceOnly()
    ensures Blank(" ") && (forall c <- "codex" + "--search" + "exec" :: !IsSpace(c) && !IsQuote(c))
  {
  }

  lemma LastWord(w: string)
    requires w != ""
    ensures Words("", "" + w, None) == [w]
  {
    assert "" + w == w;
  }

  lemma {:induction false} OptionNameOfPlain(token: string)
    requires '=' !in token
    ensures OptionName(token) == token
  {
    if token != "" { OptionNameOfPlain(token[1..]); }
  }

  lemma OneIsSkipped(tokens: seq<string>, i: nat, flagsWithValues: seq<string>, booleanFlags: seq<string>)
    requires i < |tokens| && tokens[i] == "--search" && "--search" !in flagsWithValues && "--search" in booleanFlags
    ensures FindFrom(tokens, i, flagsWithValues, booleanFlags) == FindFrom(tokens, i + 1, flagsWithValues, booleanFlags)
  {
    OptionNameOfPlain("--search");
    hide OptionName;
  }

  lemma {:induction false} SearchIsSkipped(tokens: seq<string>, i: nat, n: nat, flagsWithValues: seq<string>,
                                           booleanFlags: seq<string>)
    requires 1 <= i <= n <= |tokens| && forall k :: 1 <= k < n ==> tokens[k] == "--search"
    requires "--search" !in flagsWithValues && "--search" in booleanFlags
    ensures FindFrom(tokens, i, flagsWithValues, booleanFlags) == FindFrom(tokens, n, flagsWithValues, booleanFlags)
    decreases n - i
  {
    hide FindFrom;
    if i < n {
      OneIsSkipped(tokens, i, flagsWithValues, booleanFlags);
      SearchIsSkipped(tokens, i + 1, n, flagsWithValues, booleanFlags);
    }
  }

  lemma SearchIsBoolean()
    ensures "--search" in GLOBAL_BOOLEAN_FLAGS && "--search" !in GLOBAL_FLAGS_WITH_VALUES
  {
    assert GLOBAL_BOOLEAN_FLAGS[2] == "--search";
  }

  /** The words `codex --search ... exec`, with or without the last. */
  lemma SearchWordsClass(tokens: seq<string>, lower: Lowering)
    requires lower("codex") == "codex" && lower("exec") == "exec"
    requires |tokens| in {31, 32} && tokens[0] == "codex" && (forall k :: 1 <= k < 31 ==> tokens[k] == "--search")
    requires |tokens| == 32 ==> tokens[31] == "exec"
    ensures StripLaunchPrefix(tokens, lower) == tokens
    ensures StartsCodex(tokens, lower) <==> |tokens| == 31
  {
    hide FindFrom, OptionName;
    SearchIsBoolean();
    SearchIsSkipped(tokens, 1, 31, GLOBAL_FLAGS_WITH_VALUES, GLOBAL_BOOLEAN_FLAGS);
    CodexIsACommand(tokens, lower);
    ExecIsNonInteractive(tokens);
    hide GLOBAL_FLAGS_WITH_VALUES, GLOBAL_BOOLEAN_FLAGS, StripLaunchPrefix;
  }

  lemma CodexIsACommand(tokens: seq<string>, lower: Lowering)
    requires tokens != [] && tokens[0] == "codex" && lower("codex") == "codex"
    ensures StripLaunchPrefix(tokens, lower) == tokens && IsCodexExecutable(Executable(tokens, lower))
  {
    PlainBasename("codex");
    assert !IsShellAssignment("codex");
  }

  lemma PlainBasename(s: string)
    requires '/' !in s && '\\' !in s
    ensures Replaced(s) == s && LastSegment(s) == s
  {
    NothingReplaced(s);
    OneSegment(s);
  }

  lemma {:induction false} NothingReplaced(s: string)
    requires '\\' !in s
    ensures Replaced(s) == s
  {
    if s != "" { NothingReplaced(s[1..]); }
  }

  lemma {:induction false} OneSegment(s: string)
    requires '/' !in s
    ensures LastSegment(s) == s
  {
    if s != "" {
      assert s[|s| - 1] in s;
      OneSegment(s[..|s| - 1]);
    }
  }

  lemma ExecIsNoFlag()
    ensures "exec" !in GLOBAL_FLAGS_WITH_VALUES && "exec" !in GLOBAL_BOOLEAN_FLAGS
  {
  }

  lemma ExecIsFound(tokens: seq<string>, flagsWithValues: seq<string>, booleanFlags: seq<string>)
    requires |tokens| in {31, 32} && (|tokens| == 32 ==> tokens[31] == "exec")
    requires "exec" !in flagsWithValues && "exec" !in booleanFlags
    ensures FindFrom(tokens, 31, flagsWithValues, booleanFlags) == if |tokens| == 32 then Some(Subcommand("exec", 31))
              else None
  {
    OptionNameOfPlain("exec");
    hide OptionName;
  }

  lemma ExecIsNonInteractive(tokens: seq<string>)
    requires |tokens| in {31, 32} && (|tokens| == 32 ==> tokens[31] == "exec")
    ensures var found := FindFrom(tokens, 31, GLOBAL_FLAGS_WITH_VALUES, GLOBAL_BOOLEAN_FLAGS);
      found == (if |tokens| == 32 then Some(Subcommand("exec", 31)) else None) && "exec" in NON_INTERACTIVE
  {
    ExecIsNoFlag();
    hide GLOBAL_FLAGS_WITH_VALUES, GLOBAL_BOOLEAN_FLAGS, FindFrom;
    ExecIsFound(tokens, GLOBAL_FLAGS_WITH_VALUES, GLOBAL_BOOLEAN_FLAGS);
    assert NON_INTERACTIVE[0] == "exec";
  }

  /** So 31 is the most: this command of 32 words is not interactive, and becomes so behind an assignment. */
  lemma ThirtyTwoWordsCanChange(w: string, sep: string, lower: Lowering)
    requires PlainWord(w) && IsShellAssignment(w) && Blank(sep) && sep != ""
    requires lower("codex") == "codex" && lower("exec") == "exec"
    ensures var command := "codex" + (SearchFlags(30) + " exec");
      && |Words(Trim(command), "", None)| == 32
      && UsesCodexTerminal(Some(w + sep + command), lower)
      && !UsesCodexTerminal(Some(command), lower)
  {
    hide IsShellAssignment, SearchFlags, StripLaunchPrefix, StartsCodex, StartsInteractive, IsSpace, IsQuote;
    var command := "codex" + (SearchFlags(30) + " exec");
    WordsOfSearchCommand();
    var words := Words(Trim(command), "", None);
    hide Words, Trim;
    SearchWordsClass(words, lower);
    SearchWordsClass(Take(words, 31), lower);
    PrefixedCommandIsItsFirst31Words(w, sep, command, lower);
    LaunchTokensOfWords(command, lower);
  }

  lemma WordsOfSearchCommand()
    ensures Words(Trim("codex" + (SearchFlags(30) + " exec")), "", None) ==
              ["codex"] + Repeated(30, "--search") + ["exec"]
  {
    hide IsSpace, IsQuote, Words, SearchFlags;
    var rest := SearchFlags(30) + " exec";
    SpaceOnly();
    assert forall c <- "codex" :: c in "codex" + "--search" + "exec";
    assert forall c <- "exec" :: c in "codex" + "--search" + "exec";
    assert PlainWord("codex") && PlainWord("exec");
    PlainWordIsTrimmed("exec", "");
    var front := "codex" + SearchFlags(30) + " ";
    assert front + "exec" == "codex" + rest;
    TrimEndKeepsFront(front, "exec");
    PlainWordIsTrimmed("codex", rest);
    WordsOfPlain("codex", rest, "");
    assert "" + "codex" == "codex";
    WordsOfSearch(30, "codex");
  }
}
