/**
 * How launch commands are read (src/cli/codex-command-classification.ts): what is written as words, options and
 * environment settings, and what a command so written is.
 */
module CodexReading {
  import opened Options
  import opened CodexCommand

  // ---- Words ----

  /** A part of a word: characters that mean themselves, or a quoted text. */
  datatype Piece = Bare(text: string) | Quoted(mark: char, text: string)

  predicate Writable(p: Piece) {
    match p
    case Bare(text) => forall c <- text :: !IsSpace(c) && c != '"' && c != '\''
    case Quoted(mark, text) => (mark == '"' || mark == '\'') && mark !in text
  }

  function PieceText(p: Piece): string {
    match p case Bare(text) => text case Quoted(mark, text) => [mark] + text + [mark]
  }

  function TextOf(pieces: seq<Piece>): string {
    if pieces == [] then "" else PieceText(pieces[0]) + TextOf(pieces[1..])
  }

  function ContentOf(pieces: seq<Piece>): string {
    if pieces == [] then "" else pieces[0].text + ContentOf(pieces[1..])
  }

  function Line(words: seq<seq<Piece>>, sep: string): string {
    if words == [] then ""
    else if |words| == 1 then TextOf(words[0])
    else TextOf(words[0]) + (sep + Line(words[1..], sep))
  }

  /** What the words contain; an empty one is none. */
  function Contents(words: seq<seq<Piece>>): seq<string> {
    if words == [] then [] else Said(ContentOf(words[0])) + Contents(words[1..])
  }

  predicate AllWritable(words: seq<seq<Piece>>) { forall w <- words :: forall p <- w :: Writable(p) }

  lemma {:induction false} WordsOfQuoted(text: string, mark: char, s: string, current: string)
    requires mark !in text
    ensures Words(text + [mark] + s, current, Some(mark)) == Words(s, current + text, None)
  {
    hide IsSpace, IsQuote;
    var all := text + [mark] + s;
    if text == "" {
      assert all[0] == mark && all[1..] == s && current + text == current;
    } else {
      assert all[0] == text[0] && text[0] in text && all[1..] == text[1..] + [mark] + s;
      WordsOfQuoted(text[1..], mark, s, current + [text[0]]);
      assert current + [text[0]] + text[1..] == current + text;
    }
  }

  lemma QuotedPiece(text: string, mark: char, s: string, current: string)
    requires mark !in text && IsQuote(mark)
    ensures Words([mark] + text + [mark] + s, current, None) == Words(s, current + text, None)
  {
    WordsOfQuoted(text, mark, s, current);
    var all := [mark] + text + [mark] + s;
    assert all[0] == mark && all[1..] == text + [mark] + s;
    hide IsSpace, IsQuote;
  }

  lemma PieceIsRead(p: Piece, s: string, current: string)
    requires Writable(p)
    ensures Words(PieceText(p) + s, current, None) == Words(s, current + p.text, None)
  {
    match p
    case Bare(text) =>
      hide Words;
      WordsOfPlain(text, s, current);
    case Quoted(mark, text) =>
      hide Words, IsSpace;
      QuotedPiece(text, mark, s, current);
  }

  lemma {:induction false} WordsOfPieces(pieces: seq<Piece>, s: string, current: string)
    requires forall p <- pieces :: Writable(p)
    ensures Words(TextOf(pieces) + s, current, None) == Words(s, current + ContentOf(pieces), None)
  {
    hide Words, Writable, PieceText;
    if pieces == [] {
      assert "" + s == s && current + "" == current;
    } else {
      var rest := TextOf(pieces[1..]);
      assert TextOf(pieces) + s == PieceText(pieces[0]) + (rest + s);
      PieceIsRead(pieces[0], rest + s, current);
      WordsOfPieces(pieces[1..], s, current + pieces[0].text);
      assert current + pieces[0].text + ContentOf(pieces[1..]) == current + ContentOf(pieces);
    }
  }

  function Said(content: string): seq<string> { if content == "" then [] else [content] }

  lemma WordIsRead(word: seq<Piece>, sep: string, rest: string)
    requires (forall p <- word :: Writable(p)) && Blank(sep) && sep != ""
    ensures Words(TextOf(word) + (sep + rest), "", None) == Said(ContentOf(word)) + Words(rest, "", None)
  {
    hide Words, Blank, TextOf, ContentOf, Writable;
    WordsOfPieces(word, sep + rest, "");
    var content := ContentOf(word);
    assert "" + content == content;
    if content == "" { WordsOfBlank(sep, rest); } else { WordsOfSpace(sep, rest, content); }
  }

  lemma LastWordIsRead(word: seq<Piece>)
    requires forall p <- word :: Writable(p)
    ensures Words(TextOf(word), "", None) == Said(ContentOf(word))
  {
    WordsOfPieces(word, "", "");
    hide TextOf, ContentOf, Writable;
    assert TextOf(word) + "" == TextOf(word) && "" + ContentOf(word) == ContentOf(word);
  }

  /** The words of a line are what was written: quotes hold a word together and are not part of it. */
  lemma {:induction false} LineReads(words: seq<seq<Piece>>, sep: string)
    requires AllWritable(words) && Blank(sep) && sep != ""
    ensures Words(Line(words, sep), "", None) == Contents(words)
  {
    hide Writable, Blank, TextOf, ContentOf;
    if words == [] {
      assert Words("", "", None) == [];
    } else {
      assert words[0] in words && forall w :: w in words[1..] ==> w in words;
      hide Words;
      if |words| == 1 {
        LastWordIsRead(words[0]);
        assert words[1..] == [];
      } else {
        WordIsRead(words[0], sep, Line(words[1..], sep));
        LineReads(words[1..], sep);
      }
    }
  }

  // ---- Options ----

  /** A flag alone, `flag=value`, or a flag with its value behind it. */
  datatype OptionItem =
    | Alone(flag: string)
    | Assigned(flag: string, value: string)
    | Valued(flag: string, value: string)

  /** `word` gives the option `flag`, by itself or with a value behind '='. */
  predicate Gives(word: string, flag: string) { word == flag || flag + "=" <= word }

  predicate OptionOf(item: OptionItem, flagsWithValues: seq<string>, booleanFlags: seq<string>) {
    && '=' !in item.flag && item.flag !in ["--", "--help", "-h", "--version", "-V"]
    && match item
       case Alone(flag) => flag in booleanFlags && flag !in flagsWithValues
       case Assigned(flag, _) => flag in booleanFlags || flag in flagsWithValues
       case Valued(flag, _) => flag in flagsWithValues
  }

  predicate AllOptions(items: seq<OptionItem>, flagsWithValues: seq<string>, booleanFlags: seq<string>) {
    forall item <- items :: OptionOf(item, flagsWithValues, booleanFlags)
  }

  function OptionTokens(item: OptionItem): seq<string> {
    match item
    case Alone(flag) => [flag]
    case Assigned(flag, value) => [flag + "=" + value]
    case Valued(flag, value) => [flag, value]
  }

  function Written(items: seq<OptionItem>): seq<string> {
    if items == [] then [] else OptionTokens(items[0]) + Written(items[1..])
  }

  predicate NoOption(word: string, flagsWithValues: seq<string>, booleanFlags: seq<string>) {
    && word != "--"
    && forall flag <- flagsWithValues + booleanFlags + ["--help", "-h", "--version", "-V"] :: !Gives(word, flag)
  }

  lemma {:induction false} NameOfGiven(word: string, flag: string)
    requires '=' !in flag && Gives(word, flag)
    ensures OptionName(word) == flag
  {
    if flag == "" {
      assert word == "" || (flag + "=")[0] == word[0];
    } else {
      assert flag[0] in flag;
      if word != flag { assert (flag + "=")[0] == word[0] && (flag + "=")[1..] == flag[1..] + "=" <= word[1..]; }
      assert word[0] == flag[0];
      NameOfGiven(word[1..], flag[1..]);
    }
  }

  lemma {:induction false} GivesItsName(word: string)
    ensures Gives(word, OptionName(word)) && '=' !in OptionName(word)
  {
    if word != "" && word[0] != '=' {
      GivesItsName(word[1..]);
      var name := OptionName(word[1..]);
      assert ([word[0]] + name) + "=" == [word[0]] + (name + "=");
      assert word == [word[0]] + word[1..];
      if word[1..] != name { GivesLonger(word[0], name + "=", word[1..]); }
    }
  }

  lemma GivesLonger(c: char, a: string, b: string)
    requires a <= b
    ensures [c] + a <= [c] + b
  {
  }

  lemma OneOptionIsRead(item: OptionItem, tokens: seq<string>, i: nat, flagsWithValues: seq<string>,
                        booleanFlags: seq<string>)
    requires OptionOf(item, flagsWithValues, booleanFlags)
    requires i + |OptionTokens(item)| <= |tokens| && tokens[i..i + |OptionTokens(item)|] == OptionTokens(item)
    ensures FindFrom(tokens, i, flagsWithValues, booleanFlags) ==
              FindFrom(tokens, i + |OptionTokens(item)|, flagsWithValues, booleanFlags)
  {
    assert tokens[i] == tokens[i..i + |OptionTokens(item)|][0];
    var token := tokens[i];
    assert Gives(token, item.flag) by {
      if item.Assigned? { assert token == (item.flag + "=") + item.value; }
    }
    NameOfGiven(token, item.flag);
    assert token == "--" ==> OptionName(token) == "--" by { if token == "--" { OptionNameOfPlain(token); } }
    assert item.Assigned? ==> |token| > |item.flag|;
    hide OptionName, Gives;
  }

  /** The tokens from `i` on begin with the options. */
  predicate WrittenAt(tokens: seq<string>, i: nat, items: seq<OptionItem>) {
    i + |Written(items)| <= |tokens| && tokens[i..i + |Written(items)|] == Written(items)
  }

  lemma Slices(tokens: seq<string>, i: nat, a: seq<string>, b: seq<string>)
    requires i + |a| + |b| <= |tokens| && tokens[i..i + |a| + |b|] == a + b
    ensures tokens[i..i + |a|] == a && tokens[i + |a|..i + |a| + |b|] == b
  {
    assert tokens[i..i + |a|] == tokens[i..i + |a| + |b|][..|a|];
    assert tokens[i + |a|..i + |a| + |b|] == tokens[i..i + |a| + |b|][|a|..];
  }

  lemma {:induction false} FirstWritten(tokens: seq<string>, i: nat, items: seq<OptionItem>)
    requires items != [] && WrittenAt(tokens, i, items)
    ensures var n := |OptionTokens(items[0])|;
      && i + n <= |tokens| && tokens[i..i + n] == OptionTokens(items[0]) && WrittenAt(tokens, i + n, items[1..])
      && i + |Written(items)| == i + n + |Written(items[1..])|
  {
    var a, b := OptionTokens(items[0]), Written(items[1..]);
    assert Written(items) == a + b;
    hide Written, OptionTokens;
    Slices(tokens, i, a, b);
  }

  lemma {:induction false} OptionsAreRead(items: seq<OptionItem>, tokens: seq<string>, i: nat,
                                          flagsWithValues: seq<string>, booleanFlags: seq<string>)
    requires AllOptions(items, flagsWithValues, booleanFlags) && WrittenAt(tokens, i, items)
    ensures FindFrom(tokens, i, flagsWithValues, booleanFlags) ==
              FindFrom(tokens, i + |Written(items)|, flagsWithValues, booleanFlags)
    decreases |items|
  {
    hide FindFrom, OptionOf, OptionTokens, WrittenAt;
    if items != [] {
      assert items[0] in items;
      FirstWritten(tokens, i, items);
      hide Written;
      OneOptionIsRead(items[0], tokens, i, flagsWithValues, booleanFlags);
      OptionsAreRead(items[1..], tokens, i + |OptionTokens(items[0])|, flagsWithValues, booleanFlags);
    }
  }

  /**
   * What the tokens from `at` on are read as: the first word that is no option, a help or version flag for
   * itself, the prompt announced by `--`, or nothing.
   */
  ghost predicate EndsAs(found: Option<Subcommand>, tokens: seq<string>, at: nat, flagsWithValues: seq<string>,
                         booleanFlags: seq<string>)
  {
    && (at >= |tokens| ==> found == None)
    && (at < |tokens| ==>
          var word := tokens[at];
          && (NoOption(word, flagsWithValues, booleanFlags) ==> found == Some(Subcommand(word, at)))
          && (word == "--" ==> found == PromptAt(tokens, at + 1))
          && (Gives(word, "--help") || Gives(word, "-h") ==> found == Some(Subcommand("help", at)))
          && (Gives(word, "--version") || Gives(word, "-V") ==> found == Some(Subcommand("version", at)))
          && (LacksValue(tokens, at, flagsWithValues) ==> found == None))
  }

  function PromptAt(tokens: seq<string>, at: nat): Option<Subcommand> {
    if at < |tokens| && tokens[at] != "" then Some(Subcommand("<prompt>", at)) else None
  }

  /** The last token is a flag whose value is missing. */
  predicate LacksValue(tokens: seq<string>, at: nat, flagsWithValues: seq<string>) {
    && at + 1 == |tokens| && tokens[at] in flagsWithValues && '=' !in tokens[at]
    && tokens[at] !in ["--", "--help", "-h", "--version", "-V"]
  }

  /** The reading law: options, each with its value if it takes one, are passed over. */
  lemma SubcommandIsRead(items: seq<OptionItem>, tokens: seq<string>, i: nat, flagsWithValues: seq<string>,
                         booleanFlags: seq<string>)
    requires AllOptions(items, flagsWithValues, booleanFlags) && WrittenAt(tokens, i, items)
    ensures EndsAs(FindFrom(tokens, i, flagsWithValues, booleanFlags), tokens, i + |Written(items)|, flagsWithValues,
                   booleanFlags)
  {
    hide WrittenAt, Written, AllOptions, EndsAs, FindFrom;
    OptionsAreRead(items, tokens, i, flagsWithValues, booleanFlags);
    EndIsRead(tokens, i + |Written(items)|, flagsWithValues, booleanFlags);
  }

  lemma OneTokenIsRead(tokens: seq<string>, at: nat, flagsWithValues: seq<string>, booleanFlags: seq<string>)
    requires at < |tokens|
    ensures var found, word := FindFrom(tokens, at, flagsWithValues, booleanFlags), tokens[at];
      var name := OptionName(word);
      found ==
        if word == "--" then PromptAt(tokens, at + 1)
        else if IsHelpFlag(name) || IsVersionFlag(name) then
          Some(Subcommand(if IsVersionFlag(name) then "version" else "help", at))
        else if name in flagsWithValues then
          FindFrom(tokens, if name == word then at + 2 else at + 1, flagsWithValues, booleanFlags)
        else if name in booleanFlags then FindFrom(tokens, at + 1, flagsWithValues, booleanFlags)
        else Some(Subcommand(word, at))
  {
    hide OptionName, IsHelpFlag, IsVersionFlag;
  }

  lemma NothingToRead(tokens: seq<string>, at: nat, flagsWithValues: seq<string>, booleanFlags: seq<string>)
    requires at >= |tokens|
    ensures FindFrom(tokens, at, flagsWithValues, booleanFlags) == None
  {
  }

  lemma EndIsRead(tokens: seq<string>, at: nat, flagsWithValues: seq<string>, booleanFlags: seq<string>)
    ensures EndsAs(FindFrom(tokens, at, flagsWithValues, booleanFlags), tokens, at, flagsWithValues, booleanFlags)
  {
    hide FindFrom, OptionName, Gives, NoOption, PromptAt;
    if at >= |tokens| {
      NothingToRead(tokens, at, flagsWithValues, booleanFlags);
    } else {
      var word := tokens[at];
      OneTokenIsRead(tokens, at, flagsWithValues, booleanFlags);
      NamesOfHelp(word);
      if NoOption(word, flagsWithValues, booleanFlags) { NameOfNoOption(word, flagsWithValues, booleanFlags); }
      if LacksValue(tokens, at, flagsWithValues) {
        OptionNameOfPlain(word);
        NothingToRead(tokens, at + 2, flagsWithValues, booleanFlags);
      }
    }
  }

  lemma NameOfNoOption(word: string, flagsWithValues: seq<string>, booleanFlags: seq<string>)
    requires NoOption(word, flagsWithValues, booleanFlags)
    ensures var name := OptionName(word);
      && word != "--" && name !in flagsWithValues && name !in booleanFlags
      && !IsHelpFlag(name) && !IsVersionFlag(name)
  {
    GivesItsName(word);
    hide OptionName, Gives;
    var all := flagsWithValues + booleanFlags + ["--help", "-h", "--version", "-V"];
    assert forall flag :: flag in flagsWithValues || flag in booleanFlags ==> flag in all;
    assert forall flag :: flag in ["--help", "-h", "--version", "-V"] ==> flag in all;
  }

  /** A word gives help or the version exactly if that is its name. */
  lemma NamesOfHelp(word: string)
    ensures forall flag :: flag in ["--help", "-h", "--version", "-V"] && Gives(word, flag) ==> OptionName(word) == flag
    ensures word == "--" ==> forall flag :: flag in ["--help", "-h", "--version", "-V"] ==> !Gives(word, flag)
  {
    forall flag | flag in ["--help", "-h", "--version", "-V"] && Gives(word, flag)
      ensures OptionName(word) == flag
    {
      assert '=' !in "--help" && '=' !in "-h" && '=' !in "--version" && '=' !in "-V";
      NameOfGiven(word, flag);
    }
  }

  // ---- The launch prefix ----

  /** A setting, a variable taken away, or another option of `env`. */
  datatype EnvItem = Setting(token: string) | Unset(flag: string, name: string) | EnvOption(token: string)

  predicate EnvItemOf(item: EnvItem) {
    match item
    case Setting(token) => IsShellAssignment(token)
    case Unset(flag, _) => flag == "-u" || flag == "--unset"
    case EnvOption(token) => "-" <= token && token != "-u" && token != "--unset"
  }

  function EnvTokens(item: EnvItem): seq<string> {
    match item
    case Setting(token) => [token]
    case Unset(flag, name) => [flag, name]
    case EnvOption(token) => [token]
  }

  function EnvWritten(items: seq<EnvItem>): seq<string> {
    if items == [] then [] else EnvTokens(items[0]) + EnvWritten(items[1..])
  }

  /** A name of letters, digits and underscores, not starting with a digit, then '=': a shell assignment. */
  lemma NameMakesAssignment(name: string, value: string)
    requires name != "" && !('0' <= name[0] <= '9')
    requires forall c <- name :: 'A' <= c <= 'Z' || 'a' <= c <= 'z' || '0' <= c <= '9' || c == '_'
    ensures IsShellAssignment(name + "=" + value)
  {
    var token := name + "=" + value;
    assert token[|name|] == '=' && forall k :: 0 <= k < |name| ==> token[k] == name[k] && name[k] in name;
  }

  /** A word without '=', or with another character before it, is none. */
  lemma NoAssignment(name: string, rest: string)
    requires '=' !in name && (rest == "" || rest[0] == '=')
    requires rest == "" || name == "" || ('0' <= name[0] <= '9') ||
               exists c <- name :: !('A' <= c <= 'Z' || 'a' <= c <= 'z' || '0' <= c <= '9' || c == '_')
    ensures !IsShellAssignment(name + rest)
  {
    var token := name + rest;
    assert forall k :: 0 <= k < |name| ==> token[k] == name[k] && name[k] in name;
    var bad := FirstBad(name);
    forall n: nat | 0 < n < |token|
      ensures token[n] != '=' || !IsNameStart(token[0]) || exists k | 0 < k < n :: !IsNamePart(token[k])
    {
      if n == |name| && 0 < bad < n {
        assert !IsNamePart(token[bad]);
      } else if n > |name| > 0 {
        assert !IsNamePart(token[|name|]);
      }
    }
  }

  /** Where a character stands that no variable name has there; the length, if there is none. */
  lemma FirstBad(name: string) returns (bad: nat)
    ensures bad <= |name|
    ensures 0 < bad < |name| ==> !IsNamePart(name[bad])
    ensures bad == 0 && name != "" ==> !IsNameStart(name[0])
    ensures name != "" && '0' <= name[0] <= '9' ==> bad < |name|
    ensures (exists c <- name :: !('A' <= c <= 'Z' || 'a' <= c <= 'z' || '0' <= c <= '9' || c == '_')) ==>
              bad < |name|
  {
    bad := |name|;
    if c :| c in name && !('A' <= c <= 'Z' || 'a' <= c <= 'z' || '0' <= c <= '9' || c == '_') {
      bad :| 0 <= bad < |name| && name[bad] == c;
    } else if name != "" && '0' <= name[0] <= '9' {
      bad := 0;
    }
  }

  lemma {:induction false} AssignmentsAreDropped(settings: seq<string>, rest: seq<string>)
    requires (forall t <- settings :: IsShellAssignment(t)) && (rest != [] ==> !IsShellAssignment(rest[0]))
    ensures DropAssignments(settings + rest) == rest
  {
    hide IsShellAssignment;
    if settings == [] {
      assert settings + rest == rest;
    } else {
      assert settings[0] in settings && (settings + rest)[1..] == settings[1..] + rest;
      AssignmentsAreDropped(settings[1..], rest);
    }
  }

  lemma DashIsNoAssignment(token: string)
    requires "-" <= token
    ensures !IsShellAssignment(token) && token != "" && StartsWith(token, "-")
  {
  }

  lemma {:induction false} EnvItemsAreDropped(items: seq<EnvItem>, rest: seq<string>)
    requires forall item <- items :: EnvItemOf(item)
    requires rest != [] ==> !IsShellAssignment(rest[0]) && !("-" <= rest[0])
    ensures DropEnvArguments(EnvWritten(items) + rest) == rest
    decreases |items|
  {
    if items == [] {
      assert [] + rest == rest;
      assert "-" <= "-u" && "-" <= "--unset";
    } else {
      var item, more := items[0], EnvWritten(items[1..]) + rest;
      assert item in items;
      assert EnvWritten(items) + rest == EnvTokens(item) + more;
      EnvItemIsDropped(item, more);
      hide DropEnvArguments, EnvItemOf, EnvTokens, IsShellAssignment;
      EnvItemsAreDropped(items[1..], rest);
    }
  }

  lemma EnvItemIsDropped(item: EnvItem, more: seq<string>)
    requires EnvItemOf(item)
    ensures DropEnvArguments(EnvTokens(item) + more) == DropEnvArguments(more)
  {
    var tokens := EnvTokens(item) + more;
    match item
    case Setting(token) =>
      assert tokens[1..] == more && token != "";
    case Unset(flag, name) =>
      DashIsNoAssignment(flag);
      assert tokens[2..] == more;
      hide IsShellAssignment;
    case EnvOption(token) =>
      DashIsNoAssignment(token);
      assert tokens[1..] == more;
      hide IsShellAssignment;
  }

  /** The reading law: settings in front, and `env` with its arguments, are taken off; the command, if any, stays. */
  lemma LaunchIsRead(settings: seq<string>, rest: seq<string>, lower: Lowering)
    requires forall t <- settings :: IsShellAssignment(t)
    requires rest != [] ==> !IsShellAssignment(rest[0]) && (rest[0] == "" || CommandBasename(rest[0], lower) != "env")
    ensures StripLaunchPrefix(settings + rest, lower) == rest
  {
    hide IsShellAssignment, CommandBasename, DropAssignments;
    AssignmentsAreDropped(settings, rest);
  }

  lemma EnvLaunchIsRead(settings: seq<string>, env: string, items: seq<EnvItem>, rest: seq<string>, lower: Lowering)
    requires (forall t <- settings :: IsShellAssignment(t)) && (forall item <- items :: EnvItemOf(item))
    requires env != "" && !IsShellAssignment(env) && CommandBasename(env, lower) == "env"
    requires rest != [] ==> !IsShellAssignment(rest[0]) && !("-" <= rest[0])
    ensures StripLaunchPrefix(settings + ([env] + (EnvWritten(items) + rest)), lower) == rest
  {
    hide IsShellAssignment, CommandBasename, DropAssignments, DropEnvArguments, EnvWritten, EnvItemOf;
    var more := EnvWritten(items) + rest;
    AssignmentsAreDropped(settings, [env] + more);
    assert ([env] + more)[1..] == more;
    EnvItemsAreDropped(items, rest);
  }

  /** The executable is what follows the last slash, in either direction. */
  lemma PathIsRead(folder: string, slash: char, name: string, lower: Lowering)
    requires (slash == '/' || slash == '\\') && '/' !in name && '\\' !in name
    ensures CommandBasename(folder + [slash] + name, lower) == lower(name)
    ensures CommandBasename(name, lower) == lower(name)
  {
    PlainBasename(name);
    ReplacedSplits(folder + [slash], name);
    ReplacedSplits(folder, [slash]);
    assert Replaced([slash]) == "/";
    LastOfPath(Replaced(folder), name);
  }

  lemma {:induction false} ReplacedSplits(a: string, b: string)
    ensures Replaced(a + b) == Replaced(a) + Replaced(b)
  {
    if a == "" {
      assert a + b == b;
    } else {
      assert (a + b)[1..] == a[1..] + b;
      ReplacedSplits(a[1..], b);
    }
  }

  lemma {:induction false} LastOfPath(folder: string, name: string)
    requires '/' !in name
    ensures LastSegment(folder + "/" + name) == name
  {
    var path := folder + "/" + name;
    if name != "" {
      assert name[|name| - 1] in name;
      assert path[..|path| - 1] == folder + "/" + name[..|name| - 1];
      LastOfPath(folder, name[..|name| - 1]);
    } else {
      assert path[|path| - 1] == '/';
    }
  }

  // ---- What a command is ----

  predicate RunsCodex(executable: string, lower: Lowering) {
    executable != "" && CommandBasename(executable, lower) in {"codex", "codex.exe", "codex.cmd"}
  }

  predicate RunsClaude(executable: string, lower: Lowering) {
    executable != "" && CommandBasename(executable, lower) in {"claude", "claude.exe", "claude.cmd"}
  }

  predicate GlobalOptions(items: seq<OptionItem>) { AllOptions(items, GLOBAL_FLAGS_WITH_VALUES, GLOBAL_BOOLEAN_FLAGS) }

  predicate NoGlobalOption(word: string) { NoOption(word, GLOBAL_FLAGS_WITH_VALUES, GLOBAL_BOOLEAN_FLAGS) }

  /** A codex command: the executable, options, and what follows. */
  function CodexTokens(executable: string, items: seq<OptionItem>, rest: seq<string>): seq<string> {
    [executable] + Written(items) + rest
  }

  lemma CodexClass(tokens: seq<string>, lower: Lowering)
    requires tokens != [] && RunsCodex(tokens[0], lower)
    ensures StartsCodex(tokens, lower) == !IsNonInteractive(tokens, lower)
    ensures StartsInteractive(tokens, lower) == !IsNonInteractive(tokens, lower)
  {
    hide IsNonInteractive, CommandBasename;
  }

  lemma TokenParts(executable: string, items: seq<OptionItem>, rest: seq<string>)
    ensures var tokens, n := CodexTokens(executable, items, rest), |Written(items)|;
      && tokens[0] == executable && |tokens| == 1 + n + |rest| && WrittenAt(tokens, 1, items)
      && tokens[1 + n..] == rest && (rest != [] ==> tokens[1 + n] == rest[0])
  {
    hide Written;
  }

  lemma CodexIsRead(executable: string, items: seq<OptionItem>, rest: seq<string>, lower: Lowering)
    requires RunsCodex(executable, lower) && GlobalOptions(items)
    ensures var tokens := CodexTokens(executable, items, rest);
      && EndsAs(FindFrom(tokens, 1, GLOBAL_FLAGS_WITH_VALUES, GLOBAL_BOOLEAN_FLAGS), tokens, 1 + |Written(items)|,
                GLOBAL_FLAGS_WITH_VALUES, GLOBAL_BOOLEAN_FLAGS)
      && StartsCodex(tokens, lower) == !IsNonInteractive(tokens, lower)
      && StartsInteractive(tokens, lower) == !IsNonInteractive(tokens, lower)
      && |tokens| == 1 + |Written(items)| + |rest| && tokens[1 + |Written(items)|..] == rest
      && (rest != [] ==> tokens[1 + |Written(items)|] == rest[0])
  {
    hide FindFrom, EndsAs, IsNonInteractive, RunsCodex, StartsCodex, StartsInteractive, Written, CodexTokens,
      AllOptions, WrittenAt, GLOBAL_FLAGS_WITH_VALUES, GLOBAL_BOOLEAN_FLAGS;
    var tokens := CodexTokens(executable, items, rest);
    TokenParts(executable, items, rest);
    CodexClass(tokens, lower);
    SubcommandIsRead(items, tokens, 1, GLOBAL_FLAGS_WITH_VALUES, GLOBAL_BOOLEAN_FLAGS);
  }

  predicate Dashed(flags: seq<string>) { forall flag <- flags :: flag != "" && flag[0] == '-' }

  lemma FirstValueFlagsAreDashed()
    ensures |GLOBAL_FLAGS_WITH_VALUES| == 20
    ensures forall k :: 0 <= k < 10 ==> GLOBAL_FLAGS_WITH_VALUES[k] != "" && GLOBAL_FLAGS_WITH_VALUES[k][0] == '-'
  {
    var all := GLOBAL_FLAGS_WITH_VALUES;
    assert
      all[0][0] == '-' && all[1][0] == '-' && all[2][0] == '-' && all[3][0] == '-' && all[4][0] == '-' &&
      all[5][0] == '-' && all[6][0] == '-' && all[7][0] == '-' && all[8][0] == '-' && all[9][0] == '-';
  }

  lemma LastValueFlagsAreDashed()
    ensures |GLOBAL_FLAGS_WITH_VALUES| == 20
    ensures forall k :: 10 <= k < 20 ==> GLOBAL_FLAGS_WITH_VALUES[k] != "" && GLOBAL_FLAGS_WITH_VALUES[k][0] == '-'
  {
    var all := GLOBAL_FLAGS_WITH_VALUES;
    assert
      all[10][0] == '-' && all[11][0] == '-' && all[12][0] == '-' && all[13][0] == '-' && all[14][0] == '-' &&
      all[15][0] == '-' && all[16][0] == '-' && all[17][0] == '-' && all[18][0] == '-' && all[19][0] == '-';
  }

  lemma ValueFlagsAreDashed()
    ensures Dashed(GLOBAL_FLAGS_WITH_VALUES)
  {
    hide GLOBAL_FLAGS_WITH_VALUES;
    FirstValueFlagsAreDashed();
    LastValueFlagsAreDashed();
  }

  lemma BooleanFlagsAreDashed()
    ensures Dashed(GLOBAL_BOOLEAN_FLAGS)
  {
    var all := GLOBAL_BOOLEAN_FLAGS;
    assert |all| == 8 && all[0][0] == '-' && all[1][0] == '-' && all[2][0] == '-' && all[3][0] == '-' &&
      all[4][0] == '-' && all[5][0] == '-' && all[6][0] == '-' && all[7][0] == '-';
  }

  lemma ChildFlagsAreDashed()
    ensures Dashed(CHILD_FLAGS_WITH_VALUES)
  {
    var all := CHILD_FLAGS_WITH_VALUES;
    assert |all| == 4 && all[0][0] == '-' && all[1][0] == '-' && all[2][0] == '-' && all[3][0] == '-';
  }

  lemma LoginFlagsAreDashed()
    ensures Dashed(LOGIN_BOOLEAN_FLAGS)
  {
    var all := LOGIN_BOOLEAN_FLAGS;
    assert |all| == 5 && all[0][0] == '-' && all[1][0] == '-' && all[2][0] == '-' && all[3][0] == '-' &&
      all[4][0] == '-';
  }

  lemma CloudFlagsAreDashed()
    ensures Dashed(CLOUD_BOOLEAN_FLAGS)
  {
    var all := CLOUD_BOOLEAN_FLAGS;
    assert |all| == 4 && all[0][0] == '-' && all[1][0] == '-' && all[2][0] == '-' && all[3][0] == '-';
  }

  /** A word that does not start with a dash is no option. */
  lemma WordIsNoOption(word: string, flagsWithValues: seq<string>, booleanFlags: seq<string>)
    requires Dashed(flagsWithValues) && Dashed(booleanFlags) && word != "" && word[0] != '-'
    ensures NoOption(word, flagsWithValues, booleanFlags)
  {
    forall flag | flag in flagsWithValues + booleanFlags + ["--help", "-h", "--version", "-V"]
      ensures !Gives(word, flag)
    {
      assert flag in flagsWithValues || flag in booleanFlags || flag in ["--help", "-h", "--version", "-V"];
      assert flag[0] == '-' && (flag + "=")[0] == '-';
    }
  }

  /** With options only, codex is interactive. */
  lemma OptionsOnly(executable: string, items: seq<OptionItem>, lower: Lowering)
    requires RunsCodex(executable, lower) && GlobalOptions(items)
    ensures StartsCodex(CodexTokens(executable, items, []), lower)
    ensures StartsInteractive(CodexTokens(executable, items, []), lower)
  {
    CodexIsRead(executable, items, [], lower);
    hide FindFrom, Written, StartsCodex, StartsInteractive, GLOBAL_FLAGS_WITH_VALUES, GLOBAL_BOOLEAN_FLAGS, RunsCodex;
  }

  lemma NamedSubcommand(executable: string, items: seq<OptionItem>, word: string, arguments: seq<string>,
                        lower: Lowering)
    requires RunsCodex(executable, lower) && GlobalOptions(items) && NoGlobalOption(word)
    ensures var tokens, at := CodexTokens(executable, items, [word] + arguments), 1 + |Written(items)|;
      && FindFrom(tokens, 1, GLOBAL_FLAGS_WITH_VALUES, GLOBAL_BOOLEAN_FLAGS) == Some(Subcommand(word, at))
      && at + 1 <= |tokens| && tokens[at + 1..] == arguments
      && StartsCodex(tokens, lower) == StartsInteractive(tokens, lower) == !IsNonInteractive(tokens, lower)
  {
    CodexIsRead(executable, items, [word] + arguments, lower);
    hide FindFrom, Written, IsNonInteractive, GLOBAL_FLAGS_WITH_VALUES, GLOBAL_BOOLEAN_FLAGS, StartsCodex,
      StartsInteractive, RunsCodex, NoOption;
    var tokens, at := CodexTokens(executable, items, [word] + arguments), 1 + |Written(items)|;
    assert tokens[at..][1..] == tokens[at + 1..];
  }

  /** Any other command but `login` and `cloud`: interactive unless it is one of these. */
  lemma CommandDecides(executable: string, items: seq<OptionItem>, word: string, arguments: seq<string>,
                       lower: Lowering)
    requires RunsCodex(executable, lower) && GlobalOptions(items) && NoGlobalOption(word)
    requires lower(word) != "login" && lower(word) != "cloud"
    ensures var tokens := CodexTokens(executable, items, [word] + arguments);
      && StartsCodex(tokens, lower) == StartsInteractive(tokens, lower)
      && (StartsCodex(tokens, lower) <==>
            lower(word) !in {
              "exec", "e", "review", "logout", "mcp", "plugin", "mcp-server", "app-server", "remote-control", "app",
              "completion", "update", "doctor", "sandbox", "debug", "execpolicy", "apply", "a", "cloud-tasks",
              "responses-api-proxy", "stdio-to-uds", "exec-server", "features", "help", "version"})
  {
    NamedSubcommand(executable, items, word, arguments, lower);
    hide FindFrom, Written, StartsCodex, StartsInteractive, CodexTokens;
    hide GLOBAL_FLAGS_WITH_VALUES, GLOBAL_BOOLEAN_FLAGS, RunsCodex, NoOption, GlobalOptions;
    NonInteractiveWords(lower(word));
    hide NON_INTERACTIVE;
  }

  lemma ModelOption(value: string)
    ensures GlobalOptions([Valued("-m", value)]) && Written([Valued("-m", value)]) == ["-m", value]
  {
    assert GLOBAL_FLAGS_WITH_VALUES[9] == "-m";
    assert [Valued("-m", value)][1..] == [];
    hide GLOBAL_FLAGS_WITH_VALUES, GLOBAL_BOOLEAN_FLAGS;
  }

  lemma PlainNameRunsCodex(lower: Lowering)
    requires lower("codex") == "codex"
    ensures RunsCodex("codex", lower)
  {
    PlainBasename("codex");
  }

  /** The value of an option is not taken for the command: `codex -m gpt-5 review` is a review. */
  lemma ReviewWithAModel(lower: Lowering)
    requires lower("codex") == "codex" && lower("review") == "review"
    ensures !StartsCodex(["codex", "-m", "gpt-5", "review"], lower)
    ensures StartsCodex(["codex", "-m", "review"], lower)
  {
    hide StartsCodex, StartsInteractive, GlobalOptions, Written, RunsCodex, NoOption, Dashed, GLOBAL_FLAGS_WITH_VALUES,
      GLOBAL_BOOLEAN_FLAGS;
    PlainNameRunsCodex(lower);
    ModelOption("gpt-5");
    ModelOption("review");
    ValueFlagsAreDashed();
    BooleanFlagsAreDashed();
    WordIsNoOption("review", GLOBAL_FLAGS_WITH_VALUES, GLOBAL_BOOLEAN_FLAGS);
    CommandDecides("codex", [Valued("-m", "gpt-5")], "review", [], lower);
    OptionsOnly("codex", [Valued("-m", "review")], lower);
    assert CodexTokens("codex", [Valued("-m", "gpt-5")], ["review"] + []) == ["codex", "-m", "gpt-5", "review"];
    assert CodexTokens("codex", [Valued("-m", "review")], []) == ["codex", "-m", "review"];
  }

  lemma NonInteractiveWords(name: string)
    ensures name in NON_INTERACTIVE <==>
              name in {
                "exec", "e", "review", "logout", "mcp", "plugin", "mcp-server", "app-server", "remote-control", "app",
                "completion", "update", "doctor", "sandbox", "debug", "execpolicy", "apply", "a", "cloud",
                "cloud-tasks", "responses-api-proxy", "stdio-to-uds", "exec-server", "features", "help", "version"}
  {
  }

  predicate LoginOptions(items: seq<OptionItem>) { AllOptions(items, CHILD_FLAGS_WITH_VALUES, LOGIN_BOOLEAN_FLAGS) }

  predicate CloudOptions(items: seq<OptionItem>) { AllOptions(items, CHILD_FLAGS_WITH_VALUES, CLOUD_BOOLEAN_FLAGS) }

  predicate SettlesLogin(word: string) { word in {"--with-api-key", "--with-access-token", "--help", "-h"} }

  lemma LoginWords(arguments: seq<string>, name: string)
    ensures (exists t <- arguments :: SettlesLogin(t)) <==>
              || "--with-api-key" in arguments || "--with-access-token" in arguments
              || (exists t <- arguments :: IsHelpFlag(t))
    ensures name in NON_INTERACTIVE_LOGIN <==> name in {"status", "help"}
  {
    forall t | t in arguments && SettlesLogin(t)
      ensures || "--with-api-key" in arguments || "--with-access-token" in arguments
              || (exists t <- arguments :: IsHelpFlag(t))
    {
      assert t in {"--with-api-key", "--with-access-token", "--help", "-h"};
    }
  }

  lemma LoginClass(tokens: seq<string>, at: nat, word: string, child: Option<Subcommand>, lower: Lowering)
    requires FindFrom(tokens, 1, GLOBAL_FLAGS_WITH_VALUES, GLOBAL_BOOLEAN_FLAGS) == Some(Subcommand(word, at))
    requires at + 1 <= |tokens| && lower(word) == "login"
    requires FindFrom(tokens, at + 1, CHILD_FLAGS_WITH_VALUES, LOGIN_BOOLEAN_FLAGS) == child
    ensures IsNonInteractive(tokens, lower) <==>
              || (exists t <- tokens[at + 1..] :: SettlesLogin(t))
              || (child.Some? && lower(child.value.value) in {"status", "help"})
  {
    LoginWords(tokens[at + 1..], if child.Some? then lower(child.value.value) else "");
    hide FindFrom, GLOBAL_FLAGS_WITH_VALUES, GLOBAL_BOOLEAN_FLAGS, CHILD_FLAGS_WITH_VALUES, LOGIN_BOOLEAN_FLAGS;
    hide NON_INTERACTIVE, NON_INTERACTIVE_LOGIN, NON_INTERACTIVE_CLOUD, SettlesLogin, IsHelpFlag, IsVersionFlag;
  }

  /** `login`: interactive unless a token is fed in, help is asked for, or the child command is status or help. */
  lemma LoginDecides(executable: string, items: seq<OptionItem>, word: string, child: seq<OptionItem>,
                     rest: seq<string>, lower: Lowering)
    requires RunsCodex(executable, lower) && GlobalOptions(items) && NoGlobalOption(word) && lower(word) == "login"
    requires LoginOptions(child) && (rest != [] ==> NoOption(rest[0], CHILD_FLAGS_WITH_VALUES, LOGIN_BOOLEAN_FLAGS))
    ensures var arguments := Written(child) + rest;
      var tokens := CodexTokens(executable, items, [word] + arguments);
      && StartsCodex(tokens, lower) == StartsInteractive(tokens, lower)
      && (StartsCodex(tokens, lower) <==>
            && (forall t <- arguments :: !SettlesLogin(t))
            && (rest == [] || lower(rest[0]) !in {"status", "help"}))
  {
    var arguments := Written(child) + rest;
    var tokens, at := CodexTokens(executable, items, [word] + arguments), 1 + |Written(items)|;
    NamedSubcommand(executable, items, word, arguments, lower);
    hide FindFrom, Written, StartsCodex, StartsInteractive, CodexTokens, EndsAs, NoOption, IsNonInteractive;
    hide GLOBAL_FLAGS_WITH_VALUES, GLOBAL_BOOLEAN_FLAGS, CHILD_FLAGS_WITH_VALUES, LOGIN_BOOLEAN_FLAGS, RunsCodex;
    ChildIsRead(tokens, at + 1, child, rest, CHILD_FLAGS_WITH_VALUES, LOGIN_BOOLEAN_FLAGS);
    var found := FindFrom(tokens, at + 1, CHILD_FLAGS_WITH_VALUES, LOGIN_BOOLEAN_FLAGS);
    LoginClass(tokens, at, word, found, lower);
  }

  predicate SettlesCloud(word: string) { word in {"--help", "-h", "--version", "-V"} }

  lemma CloudWords(arguments: seq<string>, name: string)
    ensures (exists t <- arguments :: SettlesCloud(t)) <==>
              (exists t <- arguments :: IsHelpFlag(t) || IsVersionFlag(t))
    ensures name in NON_INTERACTIVE_CLOUD <==> name in {"exec", "status", "list", "apply", "diff", "help"}
  {
    forall t | t in arguments && SettlesCloud(t)
      ensures (exists t <- arguments :: IsHelpFlag(t) || IsVersionFlag(t))
    {
      assert t in {"--help", "-h", "--version", "-V"};
    }
  }

  lemma CloudClass(tokens: seq<string>, at: nat, word: string, child: Option<Subcommand>, lower: Lowering)
    requires FindFrom(tokens, 1, GLOBAL_FLAGS_WITH_VALUES, GLOBAL_BOOLEAN_FLAGS) == Some(Subcommand(word, at))
    requires at + 1 <= |tokens| && lower(word) == "cloud"
    requires FindFrom(tokens, at + 1, CHILD_FLAGS_WITH_VALUES, CLOUD_BOOLEAN_FLAGS) == child
    ensures IsNonInteractive(tokens, lower) <==>
              || (exists t <- tokens[at + 1..] :: SettlesCloud(t))
              || (child.Some? && lower(child.value.value) in {"exec", "status", "list", "apply", "diff", "help"})
  {
    CloudWords(tokens[at + 1..], if child.Some? then lower(child.value.value) else "");
    hide FindFrom, GLOBAL_FLAGS_WITH_VALUES, GLOBAL_BOOLEAN_FLAGS, CHILD_FLAGS_WITH_VALUES, CLOUD_BOOLEAN_FLAGS;
    hide NON_INTERACTIVE, NON_INTERACTIVE_LOGIN, NON_INTERACTIVE_CLOUD, SettlesCloud, IsHelpFlag, IsVersionFlag;
  }

  /** `cloud`: interactive unless help or the version is asked for, or the child command is one of these. */
  lemma CloudDecides(executable: string, items: seq<OptionItem>, word: string, child: seq<OptionItem>,
                     rest: seq<string>, lower: Lowering)
    requires RunsCodex(executable, lower) && GlobalOptions(items) && NoGlobalOption(word) && lower(word) == "cloud"
    requires CloudOptions(child) && (rest != [] ==> NoOption(rest[0], CHILD_FLAGS_WITH_VALUES, CLOUD_BOOLEAN_FLAGS))
    ensures var arguments := Written(child) + rest;
      var tokens := CodexTokens(executable, items, [word] + arguments);
      && StartsCodex(tokens, lower) == StartsInteractive(tokens, lower)
      && (StartsCodex(tokens, lower) <==>
            && (forall t <- arguments :: !SettlesCloud(t))
            && (rest == [] || lower(rest[0]) !in {"exec", "status", "list", "apply", "diff", "help"}))
  {
    var arguments := Written(child) + rest;
    var tokens, at := CodexTokens(executable, items, [word] + arguments), 1 + |Written(items)|;
    NamedSubcommand(executable, items, word, arguments, lower);
    hide FindFrom, Written, StartsCodex, StartsInteractive, CodexTokens, EndsAs, NoOption, IsNonInteractive;
    hide GLOBAL_FLAGS_WITH_VALUES, GLOBAL_BOOLEAN_FLAGS, CHILD_FLAGS_WITH_VALUES, CLOUD_BOOLEAN_FLAGS, RunsCodex;
    ChildIsRead(tokens, at + 1, child, rest, CHILD_FLAGS_WITH_VALUES, CLOUD_BOOLEAN_FLAGS);
    var found := FindFrom(tokens, at + 1, CHILD_FLAGS_WITH_VALUES, CLOUD_BOOLEAN_FLAGS);
    CloudClass(tokens, at, word, found, lower);
  }

  lemma ChildIsRead(tokens: seq<string>, at: nat, child: seq<OptionItem>, rest: seq<string>,
                    flagsWithValues: seq<string>, booleanFlags: seq<string>)
    requires at <= |tokens| && tokens[at..] == Written(child) + rest
    requires AllOptions(child, flagsWithValues, booleanFlags)
    requires rest != [] ==> NoOption(rest[0], flagsWithValues, booleanFlags)
    ensures FindFrom(tokens, at, flagsWithValues, booleanFlags) ==
              if rest == [] then None else Some(Subcommand(rest[0], at + |Written(child)|))
  {
    var n := |Written(child)|;
    assert |tokens| == at + n + |rest|;
    assert tokens[at..at + n] == tokens[at..][..n];
    assert rest != [] ==> tokens[at + n] == tokens[at..][n] == rest[0];
    SubcommandIsRead(child, tokens, at, flagsWithValues, booleanFlags);
    hide FindFrom, Written, NoOption;
  }

  lemma OtherClass(tokens: seq<string>, sub: Subcommand, lower: Lowering)
    requires FindFrom(tokens, 1, GLOBAL_FLAGS_WITH_VALUES, GLOBAL_BOOLEAN_FLAGS) == Some(sub)
    requires lower(sub.value) != "login" && lower(sub.value) != "cloud"
    ensures IsNonInteractive(tokens, lower) <==> lower(sub.value) in NON_INTERACTIVE
  {
    hide FindFrom, NON_INTERACTIVE, GLOBAL_FLAGS_WITH_VALUES, GLOBAL_BOOLEAN_FLAGS;
  }

  lemma EndsSpecially(found: Option<Subcommand>, tokens: seq<string>, at: nat, flagsWithValues: seq<string>,
                      booleanFlags: seq<string>)
    requires EndsAs(found, tokens, at, flagsWithValues, booleanFlags) && at < |tokens|
    ensures tokens[at] == "--" ==> found == PromptAt(tokens, at + 1)
    ensures Gives(tokens[at], "--help") || Gives(tokens[at], "-h") ==> found == Some(Subcommand("help", at))
    ensures Gives(tokens[at], "--version") || Gives(tokens[at], "-V") ==> found == Some(Subcommand("version", at))
  {
    hide Gives, NoOption, PromptAt;
  }

  /** A help or version flag where the command would be: not interactive. */
  lemma HelpDecides(executable: string, items: seq<OptionItem>, flag: string, arguments: seq<string>, lower: Lowering)
    requires RunsCodex(executable, lower) && GlobalOptions(items)
    requires lower("help") == "help" && lower("version") == "version"
    requires Gives(flag, "--help") || Gives(flag, "-h") || Gives(flag, "--version") || Gives(flag, "-V")
    ensures !StartsCodex(CodexTokens(executable, items, [flag] + arguments), lower)
    ensures !StartsInteractive(CodexTokens(executable, items, [flag] + arguments), lower)
  {
    hide FindFrom, Written, GLOBAL_FLAGS_WITH_VALUES, GLOBAL_BOOLEAN_FLAGS, StartsCodex, StartsInteractive, RunsCodex,
      CodexTokens, NoOption, Gives, EndsAs, IsNonInteractive, GlobalOptions, NON_INTERACTIVE;
    CodexIsRead(executable, items, [flag] + arguments, lower);
    var tokens, at := CodexTokens(executable, items, [flag] + arguments), 1 + |Written(items)|;
    var found := FindFrom(tokens, 1, GLOBAL_FLAGS_WITH_VALUES, GLOBAL_BOOLEAN_FLAGS);
    EndsSpecially(found, tokens, at, GLOBAL_FLAGS_WITH_VALUES, GLOBAL_BOOLEAN_FLAGS);
    OtherClass(tokens, found.value, lower);
    NonInteractiveWords("help");
    NonInteractiveWords("version");
  }

  /** `--` and a prompt: interactive. */
  lemma PromptDecides(executable: string, items: seq<OptionItem>, arguments: seq<string>, lower: Lowering)
    requires RunsCodex(executable, lower) && GlobalOptions(items) && lower("<prompt>") == "<prompt>"
    ensures StartsCodex(CodexTokens(executable, items, ["--"] + arguments), lower)
    ensures StartsInteractive(CodexTokens(executable, items, ["--"] + arguments), lower)
  {
    hide FindFrom, Written, GLOBAL_FLAGS_WITH_VALUES, GLOBAL_BOOLEAN_FLAGS, StartsCodex, StartsInteractive, RunsCodex,
      CodexTokens, NoOption, Gives, EndsAs, IsNonInteractive, GlobalOptions, NON_INTERACTIVE;
    CodexIsRead(executable, items, ["--"] + arguments, lower);
    var tokens, at := CodexTokens(executable, items, ["--"] + arguments), 1 + |Written(items)|;
    var found := FindFrom(tokens, 1, GLOBAL_FLAGS_WITH_VALUES, GLOBAL_BOOLEAN_FLAGS);
    EndsSpecially(found, tokens, at, GLOBAL_FLAGS_WITH_VALUES, GLOBAL_BOOLEAN_FLAGS);
    if found.Some? { OtherClass(tokens, found.value, lower); } else { NothingFound(tokens, lower); }
    NonInteractiveWords("<prompt>");
  }

  lemma NothingFound(tokens: seq<string>, lower: Lowering)
    requires FindFrom(tokens, 1, GLOBAL_FLAGS_WITH_VALUES, GLOBAL_BOOLEAN_FLAGS) == None
    ensures !IsNonInteractive(tokens, lower)
  {
  }

  /** Claude is interactive unless help, the version or printing is asked for. */
  lemma ClaudeDecides(executable: string, arguments: seq<string>, lower: Lowering)
    requires RunsClaude(executable, lower)
    ensures !StartsCodex([executable] + arguments, lower)
    ensures StartsInteractive([executable] + arguments, lower) <==>
              forall t <- arguments ::
                t !in {"--help", "-h", "--version", "-V"} && !Gives(t, "-p") && !Gives(t, "--print")
  {
    var tokens := [executable] + arguments;
    assert tokens[1..] == arguments;
    forall t | t in arguments
      ensures IsClaudePrintFlag(t) <==> Gives(t, "-p") || Gives(t, "--print")
    {
      GivesItsName(t);
      if Gives(t, "-p") { NameOfGiven(t, "-p"); }
      if Gives(t, "--print") { NameOfGiven(t, "--print"); }
    }
    hide Gives, IsNonInteractive, CommandBasename, IsClaudePrintFlag, OptionName;
  }

  /** Anything else is neither. */
  lemma OthersAreNot(executable: string, arguments: seq<string>, lower: Lowering)
    requires !RunsCodex(executable, lower) && !RunsClaude(executable, lower)
    ensures !StartsCodex([executable] + arguments, lower) && !StartsInteractive([executable] + arguments, lower)
  {
    hide IsNonInteractive, CommandBasename;
  }

  lemma {:induction false} TrimNeverGrows(s: string)
    ensures |TrimStart(s)| < |s| || TrimStart(s) == s
    ensures |TrimEnd(s)| < |s| || TrimEnd(s) == s
  {
    hide IsSpace;
    if s != "" {
      TrimNeverGrows(s[1..]);
      TrimNeverGrows(s[..|s| - 1]);
    }
  }

  lemma {:induction false} TrimStartDrops(lead: string, s: string)
    requires Blank(lead)
    ensures TrimStart(lead + s) == TrimStart(s)
  {
    hide IsSpace;
    if lead == "" {
      assert lead + s == s;
    } else {
      assert lead[0] in lead && (lead + s)[0] == lead[0] && (lead + s)[1..] == lead[1..] + s;
      TrimStartDrops(lead[1..], s);
    }
  }

  lemma TrimDropsMargins(lead: string, s: string, trail: string)
    requires Blank(lead) && Blank(trail) && Trim(s) == s
    ensures Trim(lead + s + trail) == s
  {
    TrimNeverGrows(s);
    TrimNeverGrows(TrimEnd(s));
    BlankTrims(lead);
    BlankTrims(trail);
    TrimEndKeepsFront(lead + s, trail);
    TrimEndKeepsFront(lead, s);
    TrimStartDrops(lead, s);
    hide TrimStart, TrimEnd, Blank;
  }

  /** And of the whole line its first 32 words count, whatever blanks surround it. */
  lemma LineDecides(words: seq<seq<Piece>>, sep: string, lead: string, trail: string, lower: Lowering)
    requires AllWritable(words) && Blank(sep) && sep != "" && Blank(lead) && Blank(trail)
    requires Trim(Line(words, sep)) == Line(words, sep)
    ensures var tokens := StripLaunchPrefix(Take(Contents(words), 32), lower);
      var command := Some(lead + Line(words, sep) + trail);
      && UsesCodexTerminal(command, lower) == StartsCodex(tokens, lower)
      && UsesInteractiveTerminal(command, lower) == StartsInteractive(tokens, lower)
  {
    hide StripLaunchPrefix, StartsCodex, StartsInteractive, UsesCodexTerminal, UsesInteractiveTerminal, Trim, Words,
      Line, Blank;
    LineReads(words, sep);
    TrimDropsMargins(lead, Line(words, sep), trail);
    ClassOfCommand(lead + Line(words, sep) + trail, lower);
  }
}
