/**
 * Command-line parsing, alias and positional normalisation, validation and dispatch
 * (src/cli/args.ts, src/cli/registry-parity.ts, src/cli/dispatch.ts).
 */
module CliArgs {
  import opened Options

  datatype FlagValue = On | Text(text: string)
  type Flags = map<string, FlagValue>
  type CommandPath = seq<string>

  datatype ParsedArgs = ParsedArgs(commandPath: CommandPath, flags: Flags, conflicts: seq<string>)

  datatype Spec = Spec(
    path: CommandPath,
    aliases: Option<seq<CommandPath>>,
    passthrough: bool,
    destructive: bool,
    allowedFlags: seq<string>,
    positionalArgs: seq<string>)

  const GLOBAL_FLAGS := ["help", "json", "pairing-code", "environment"]
  const GLOBAL_VALUE_FLAGS := ["pairing-code", "environment"]
  const BOOLEAN_FLAGS := [
    "all", "attachments", "children", "comments", "connect", "current", "dry-run", "enter", "focus", "force", "full",
    "help", "inject", "include-archived", "interrupt", "json", "messages", "me", "mobile", "mobile-pairing",
    "no-pairing", "parent-current", "provision", "ready", "recipe-json", "relations", "reinstall", "restore-window",
    "return-preamble", "run-hooks", "show-profile", "staged", "tab", "tasks", "text-stdin", "unread", "value-stdin",
      "wait"]
  const REPEATED_FLAG_SEPARATOR := "\0"
  const REPEATABLE_STRING_FLAGS := ["label"]

  // ---- Parsing ----

  predicate IsFlag(token: string) { |token| >= 2 && token[0] == '-' && token[1] == '-' }

  /** Index of the first '=', or the length. */
  function EqualsAt(s: string): (n: nat)
    ensures n <= |s| && (n < |s| ==> s[n] == '=') && '=' !in s[..n]
  {
    if s == "" || s[0] == '=' then 0 else 1 + EqualsAt(s[1..])
  }

  function SetFlag(flags: Flags, name: string, value: string): Flags {
    if name in flags && flags[name].Text? && name in REPEATABLE_STRING_FLAGS then
      flags[name := Text(flags[name].text + REPEATED_FLAG_SEPARATOR + value)]
    else flags[name := Text(value)]
  }

  /** Past the flags at `cursor`, as far as they can be told apart without a registry. */
  function SkipFlags(argv: seq<string>, cursor: nat): nat
    decreases |argv| - cursor
  {
    if cursor < |argv| && IsFlag(argv[cursor]) then
      var assignment := argv[cursor][2..];
      var flag := assignment[..EqualsAt(assignment)];
      SkipFlags(argv, cursor + if '=' in assignment || flag in BOOLEAN_FLAGS then 1 else 2)
    else cursor
  }

  predicate StartsAt(argv: seq<string>, cursor: nat, path: CommandPath)
    decreases |path|
  {
    path == [] ||
    (var c := SkipFlags(argv, cursor);
     c < |argv| && argv[c] == path[0] && StartsAt(argv, c + 1, path[1..]))
  }

  predicate SomeStartsAt(argv: seq<string>, cursor: nat, paths: seq<CommandPath>) {
    exists p <- paths :: StartsAt(argv, cursor, p)
  }

  /** What the tokens from `i` on add to what was parsed so far. */
  function ParseFrom(argv: seq<string>, paths: seq<CommandPath>, i: nat, commandPath: CommandPath,
                     flags: Flags): ParsedArgs
    decreases |argv| - i
  {
    if i >= |argv| then ParsedArgs(commandPath, flags, [])
    else if !IsFlag(argv[i]) then ParseFrom(argv, paths, i + 1, commandPath + [argv[i]], flags)
    else
      var assignment := argv[i][2..];
      var equals := EqualsAt(assignment);
      if equals < |assignment| then
        ParseFrom(argv, paths, i + 1, commandPath, SetFlag(flags, assignment[..equals], assignment[equals + 1..]))
      else if assignment in BOOLEAN_FLAGS
           || (commandPath == [] && SomeStartsAt(argv, i + 1, paths) && !SomeStartsAt(argv, i + 2, paths))
           || i + 1 >= |argv| || IsFlag(argv[i + 1]) then
        ParseFrom(argv, paths, i + 1, commandPath, flags[assignment := On])
      else ParseFrom(argv, paths, i + 2, commandPath, SetFlag(flags, assignment, argv[i + 1]))
  }

  method CommandPathStartsAt(argv: seq<string>, tokenIndex: nat, path: CommandPath) returns (r: bool)
    ensures r == StartsAt(argv, tokenIndex, path)
  {
    hide BOOLEAN_FLAGS;
    var cursor: nat := tokenIndex;
    assert path[0..] == path;
    for k := 0 to |path|
      invariant StartsAt(argv, cursor, path[k..]) == StartsAt(argv, tokenIndex, path)
    {
      assert path[k..][0] == path[k] && path[k..][1..] == path[k + 1..];
      ghost var start := cursor;
      while cursor < |argv| && IsFlag(argv[cursor])
        invariant SkipFlags(argv, cursor) == SkipFlags(argv, start)
        decreases |argv| - cursor
      {
        var assignment := argv[cursor][2..];
        var flag := assignment[..EqualsAt(assignment)];
        cursor := cursor + if '=' in assignment || flag in BOOLEAN_FLAGS then 1 else 2;
      }
      if cursor >= |argv| || argv[cursor] != path[k] { return false; }
      cursor := cursor + 1;
    }
    return true;
  }

  method ParseArgs(argv: seq<string>, paths: seq<CommandPath>) returns (r: ParsedArgs)
    ensures r == ParseFrom(argv, paths, 0, [], map[])
  {
    var commandPath: CommandPath, flags: Flags := [], map[];
    var i := 0;
    while i < |argv|
      invariant ParseFrom(argv, paths, i, commandPath, flags) == ParseFrom(argv, paths, 0, [], map[])
      decreases |argv| - i
    {
      var token := argv[i];
      if !IsFlag(token) {
        commandPath, i := commandPath + [token], i + 1;
        continue;
      }
      var assignment := token[2..];
      var equalsIndex := EqualsAt(assignment);
      if equalsIndex < |assignment| {
        flags, i := SetFlag(flags, assignment[..equalsIndex], assignment[equalsIndex + 1..]), i + 1;
        continue;
      }
      if assignment in BOOLEAN_FLAGS {
        flags, i := flags[assignment := On], i + 1;
        continue;
      }
      if |commandPath| == 0 && SomeStartsAt(argv, i + 1, paths) && !SomeStartsAt(argv, i + 2, paths) {
        flags, i := flags[assignment := On], i + 1;
        continue;
      }
      if i + 1 >= |argv| || IsFlag(argv[i + 1]) {
        flags, i := flags[assignment := On], i + 1;
        continue;
      }
      flags, i := SetFlag(flags, assignment, argv[i + 1]), i + 2;
    }
    return ParsedArgs(commandPath, flags, []);
  }

  // ---- What is said is understood ----

  /** One thing a caller can say: a word, `--name=value`, `--name` alone, or `--name value`. */
  datatype Item =
    | Word(word: string)
    | Assign(name: string, value: string)
    | Switch(name: string)
    | Pair(name: string, value: string)

  /** A registered path starts right behind the flag at `i`, and none starts behind the token after it. */
  predicate PathInstead(argv: seq<string>, i: nat, paths: seq<CommandPath>) {
    SomeStartsAt(argv, i + 1, paths) && !SomeStartsAt(argv, i + 2, paths)
  }

  /**
   * The item can be said at `i` without being taken for another: a flag that is not boolean has what follows for
   * its value, unless that is a flag or, before any word, the start of a registered path instead.
   */
  predicate Sayable(item: Item, argv: seq<string>, i: nat, wordsBefore: bool, paths: seq<CommandPath>) {
    match item
    case Word(w) => !IsFlag(w)
    case Assign(name, _) => '=' !in name
    case Switch(name) =>
      && '=' !in name
      && (name in BOOLEAN_FLAGS || (!wordsBefore && PathInstead(argv, i, paths)) || i + 1 >= |argv| ||
           IsFlag(argv[i + 1]))
    case Pair(name, value) =>
      && '=' !in name && name !in BOOLEAN_FLAGS && !IsFlag(value)
      && (wordsBefore || !PathInstead(argv, i, paths))
  }

  predicate AllSayable(items: seq<Item>, argv: seq<string>, i: nat, wordsBefore: bool, paths: seq<CommandPath>)
    decreases |items|
  {
    items == [] ||
    (&& Sayable(items[0], argv, i, wordsBefore, paths)
     && AllSayable(items[1..], argv, i + |Tokens(items[0])|, wordsBefore || items[0].Word?, paths))
  }

  function Tokens(item: Item): seq<string> {
    match item
    case Word(w) => [w]
    case Assign(name, value) => ["--" + name + "=" + value]
    case Switch(name) => ["--" + name]
    case Pair(name, value) => ["--" + name, value]
  }

  function AllTokens(items: seq<Item>): seq<string> {
    if items == [] then [] else Tokens(items[0]) + AllTokens(items[1..])
  }

  function PathAfter(item: Item, commandPath: CommandPath): CommandPath {
    if item.Word? then commandPath + [item.word] else commandPath
  }

  function FlagsAfter(item: Item, flags: Flags): Flags {
    match item
    case Word(_) => flags
    case Switch(name) => flags[name := On]
    case Assign(name, value) => SetFlag(flags, name, value)
    case Pair(name, value) => SetFlag(flags, name, value)
  }

  /** What the items mean. */
  function Understood(items: seq<Item>, commandPath: CommandPath, flags: Flags): ParsedArgs {
    if items == [] then ParsedArgs(commandPath, flags, [])
    else Understood(items[1..], PathAfter(items[0], commandPath), FlagsAfter(items[0], flags))
  }

  /** The words, in order. */
  function WordsOf(items: seq<Item>): CommandPath {
    if items == [] then []
    else
      var last := items[|items| - 1];
      WordsOf(items[..|items| - 1]) + if last.Word? then [last.word] else []
  }

  /** The flag is named by some item. */
  predicate Mentioned(items: seq<Item>, name: string) {
    exists item <- items :: !item.Word? && item.name == name
  }

  /** The values given for a flag, after it was last given alone. */
  function ValuesOf(items: seq<Item>, name: string): seq<string> {
    if items == [] then []
    else
      var before, last := ValuesOf(items[..|items| - 1], name), items[|items| - 1];
      if last.Word? || last.name != name then before
      else if last.Switch? then []
      else before + [last.value]
  }

  /** The values with the separator between them. */
  function Glued(values: seq<string>): string {
    if values == [] then ""
    else if |values| == 1 then values[0]
    else Glued(values[..|values| - 1]) + "\0" + values[|values| - 1]
  }

  /** What `flags` says of one flag. */
  ghost predicate FlagIs(flags: Flags, items: seq<Item>, name: string) {
    var values := ValuesOf(items, name);
    && (name in flags <==> Mentioned(items, name))
    && (name in flags ==>
          flags[name] == if values == [] then On
                         else if name == "label" then Text(Glued(values))
                         else Text(values[|values| - 1]))
  }

  lemma {:induction false} UnderstoodLast(front: seq<Item>, last: Item, commandPath: CommandPath, flags: Flags)
    ensures var before := Understood(front, commandPath, flags);
      Understood(front + [last], commandPath, flags) ==
        ParsedArgs(PathAfter(last, before.commandPath), FlagsAfter(last, before.flags), [])
    decreases |front|
  {
    hide PathAfter, FlagsAfter;
    var items := front + [last];
    if front == [] {
      assert items[1..] == [];
    } else {
      assert items[0] == front[0] && items[1..] == front[1..] + [last];
      UnderstoodLast(front[1..], last, PathAfter(front[0], commandPath), FlagsAfter(front[0], flags));
    }
  }

  lemma OneMoreMention(front: seq<Item>, last: Item, name: string)
    ensures Mentioned(front + [last], name) <==> Mentioned(front, name) || (!last.Word? && last.name == name)
  {
    var items := front + [last];
    assert items[|front|] == last && forall item :: item in items <==> item in front || item == last;
  }

  lemma FlagAfterOne(flags: Flags, front: seq<Item>, last: Item, name: string)
    requires FlagIs(flags, front, name)
    ensures FlagIs(FlagsAfter(last, flags), front + [last], name)
  {
    OneMoreMention(front, last, name);
    assert (front + [last])[..|front|] == front;
    var values := ValuesOf(front, name);
    if !last.Word? && last.name == name && !last.Switch? {
      assert (values + [last.value])[..|values|] == values;
    }
    ValuesAreMentioned(front, name);
    assert REPEATABLE_STRING_FLAGS == ["label"];
    hide Mentioned;
  }

  lemma {:induction false} ValuesAreMentioned(items: seq<Item>, name: string)
    ensures ValuesOf(items, name) != [] ==> Mentioned(items, name)
    decreases |items|
  {
    if items != [] {
      var front, last := items[..|items| - 1], items[|items| - 1];
      assert items == front + [last];
      ValuesAreMentioned(front, name);
      OneMoreMention(front, last, name);
    }
  }

  /**
   * What the items mean, flag by flag: a flag given alone is on, the last value given counts, and all values of
   * a label given since count together.  The command path is the words, in order.
   */
  lemma {:induction false} UnderstoodMeans(items: seq<Item>, name: string)
    ensures FlagIs(Understood(items, [], map[]).flags, items, name)
    ensures Understood(items, [], map[]).commandPath == WordsOf(items)
    decreases |items|
  {
    if items != [] {
      var front, last := items[..|items| - 1], items[|items| - 1];
      assert items == front + [last];
      hide FlagIs, FlagsAfter;
      UnderstoodMeans(front, name);
      UnderstoodLast(front, last, [], map[]);
      FlagAfterOne(Understood(front, [], map[]).flags, front, last, name);
      hide Understood;
    }
  }

  lemma {:induction false} FirstEquals(name: string, rest: string)
    requires '=' !in name && (rest == "" || rest[0] == '=')
    ensures EqualsAt(name + rest) == |name|
  {
    var s := name + rest;
    if name != "" {
      assert name[0] in name;
      assert s[0] != '=' && s[1..] == name[1..] + rest;
      FirstEquals(name[1..], rest);
    } else {
      assert s == rest;
    }
  }

  /** A flag token comes apart at the '=' that follows its name. */
  lemma FlagToken(name: string, rest: string)
    requires '=' !in name && (rest == "" || rest[0] == '=')
    ensures var token := "--" + name + rest;
      IsFlag(token) && token[2..] == name + rest && EqualsAt(token[2..]) == |name| && token[2..][..|name|] == name
    ensures rest != "" ==> ("--" + name + rest)[2..][|name| + 1..] == rest[1..]
  {
    FirstEquals(name, rest);
    assert ("--" + name + rest)[2..] == name + rest;
  }

  /** One item is parsed as one item, wherever it stands. */
  lemma UnderstandsOne(item: Item, argv: seq<string>, paths: seq<CommandPath>, i: nat, commandPath: CommandPath,
                       flags: Flags)
    requires i + |Tokens(item)| <= |argv| && argv[i..i + |Tokens(item)|] == Tokens(item)
    requires Sayable(item, argv, i, commandPath != [], paths)
    ensures ParseFrom(argv, paths, i, commandPath, flags) ==
              ParseFrom(argv, paths, i + |Tokens(item)|, PathAfter(item, commandPath), FlagsAfter(item, flags))
  {
    hide ParseFrom, StartsAt, SetFlag, BOOLEAN_FLAGS;
    assert argv[i] == argv[i..i + |Tokens(item)|][0];
    match item
    case Word(w) => WordStep(argv, paths, i, commandPath, flags);
    case Assign(name, value) =>
      assert argv[i] == "--" + name + ("=" + value) by {
        assert "--" + name + "=" + value == "--" + name + ("=" + value);
      }
      AssignStep(argv, paths, i, commandPath, flags, name, value);
    case Switch(name) => FlagStep(argv, paths, i, commandPath, flags, name);
    case Pair(name, value) =>
      assert argv[i + 1] == argv[i..i + 2][1];
      FlagStep(argv, paths, i, commandPath, flags, name);
  }

  lemma WordStep(argv: seq<string>, paths: seq<CommandPath>, i: nat, commandPath: CommandPath, flags: Flags)
    requires i < |argv| && !IsFlag(argv[i])
    ensures ParseFrom(argv, paths, i, commandPath, flags) ==
              ParseFrom(argv, paths, i + 1, commandPath + [argv[i]], flags)
  {
  }

  lemma AssignStep(argv: seq<string>, paths: seq<CommandPath>, i: nat, commandPath: CommandPath, flags: Flags,
                   name: string, value: string)
    requires i < |argv| && argv[i] == "--" + name + ("=" + value) && '=' !in name
    ensures ParseFrom(argv, paths, i, commandPath, flags) ==
              ParseFrom(argv, paths, i + 1, commandPath, SetFlag(flags, name, value))
  {
    hide SomeStartsAt, SetFlag, BOOLEAN_FLAGS, IsFlag, EqualsAt;
    FlagToken(name, "=" + value);
    assert ("=" + value)[1..] == value;
  }

  lemma FlagStep(argv: seq<string>, paths: seq<CommandPath>, i: nat, commandPath: CommandPath, flags: Flags,
                 name: string)
    requires i < |argv| && argv[i] == "--" + name && '=' !in name
    ensures ParseFrom(argv, paths, i, commandPath, flags) ==
      if name in BOOLEAN_FLAGS ||
        (commandPath == [] && SomeStartsAt(argv, i + 1, paths) && !SomeStartsAt(argv, i + 2, paths))
         || i + 1 >= |argv| || IsFlag(argv[i + 1])
      then ParseFrom(argv, paths, i + 1, commandPath, flags[name := On])
      else ParseFrom(argv, paths, i + 2, commandPath, SetFlag(flags, name, argv[i + 1]))
  {
    hide SomeStartsAt, SetFlag, BOOLEAN_FLAGS, EqualsAt;
    FlagToken(name, "");
    assert argv[i] == "--" + name + "" && name + "" == name;
  }

  lemma FirstTokens(items: seq<Item>, argv: seq<string>, i: nat)
    requires i <= |argv| && items != [] && AllTokens(items) == argv[i..]
    ensures var n := |Tokens(items[0])|;
      && i + n <= |argv| && argv[i..i + n] == Tokens(items[0]) && argv[i + n..] == AllTokens(items[1..])
  {
    var n := |Tokens(items[0])|;
    assert argv[i..i + n] == argv[i..][..n];
    assert argv[i + n..] == argv[i..][n..];
  }

  lemma {:induction false} Understands(items: seq<Item>, argv: seq<string>, paths: seq<CommandPath>, i: nat,
                                       commandPath: CommandPath, flags: Flags)
    requires i <= |argv| && argv[i..] == AllTokens(items) && AllSayable(items, argv, i, commandPath != [], paths)
    ensures ParseFrom(argv, paths, i, commandPath, flags) == Understood(items, commandPath, flags)
    decreases |items|
  {
    hide Sayable, Tokens, PathAfter, FlagsAfter, SomeStartsAt, SetFlag;
    if items != [] {
      FirstTokens(items, argv, i);
      hide ParseFrom, AllTokens;
      var item := items[0];
      UnderstandsOne(item, argv, paths, i, commandPath, flags);
      PathGrows(item, commandPath);
      Understands(items[1..], argv, paths, i + |Tokens(item)|, PathAfter(item, commandPath), FlagsAfter(item, flags));
    }
  }

  lemma PathGrows(item: Item, commandPath: CommandPath)
    ensures PathAfter(item, commandPath) != [] <==> commandPath != [] || item.Word?
  {
  }

  /** Round trip: whatever can be said item by item is parsed back, whatever the registry. */
  lemma ParseRoundTrip(items: seq<Item>, paths: seq<CommandPath>)
    requires AllSayable(items, AllTokens(items), 0, false, paths)
    ensures ParseFrom(AllTokens(items), paths, 0, [], map[]) == Understood(items, [], map[])
  {
    assert AllTokens(items)[0..] == AllTokens(items);
    Understands(items, AllTokens(items), paths, 0, [], map[]);
  }

  /** The item at `i`. */
  function ReadItem(argv: seq<string>, i: nat, wordsBefore: bool, paths: seq<CommandPath>): Item
    requires i < |argv|
  {
    if !IsFlag(argv[i]) then Word(argv[i])
    else
      var assignment := argv[i][2..];
      var equals := EqualsAt(assignment);
      if equals < |assignment| then Assign(assignment[..equals], assignment[equals + 1..])
      else if Sayable(Switch(assignment), argv, i, wordsBefore, paths) then Switch(assignment)
      else Pair(assignment, if i + 1 < |argv| then argv[i + 1] else "")
  }

  lemma FlagComesApart(token: string)
    requires IsFlag(token)
    ensures var assignment := token[2..];
      var equals := EqualsAt(assignment);
      && token == "--" + assignment && '=' !in assignment[..equals]
      && (equals < |assignment| ==> token == "--" + assignment[..equals] + "=" + assignment[equals + 1..])
      && (equals == |assignment| ==> assignment[..equals] == assignment)
  {
    hide EqualsAt;
    var assignment := token[2..];
    var equals := EqualsAt(assignment);
    if equals < |assignment| {
      assert assignment == assignment[..equals] + "=" + assignment[equals + 1..];
    }
  }

  lemma ReadItemIsSayable(argv: seq<string>, i: nat, wordsBefore: bool, paths: seq<CommandPath>)
    requires i < |argv|
    ensures var item := ReadItem(argv, i, wordsBefore, paths);
      && Sayable(item, argv, i, wordsBefore, paths)
      && 0 < |Tokens(item)| <= |argv| - i && argv[i..i + |Tokens(item)|] == Tokens(item)
  {
    hide PathInstead, BOOLEAN_FLAGS, EqualsAt, IsFlag;
    if IsFlag(argv[i]) { FlagComesApart(argv[i]); }
  }

  lemma NameIsRead(token: string, name: string)
    requires token == "--" + name && '=' !in name
    ensures IsFlag(token) && token[2..] == name && EqualsAt(name) == |name|
  {
    FlagToken(name, "");
    assert token == "--" + name + "" && name + "" == name;
  }

  lemma AssignmentIsRead(token: string, name: string, value: string)
    requires token == "--" + name + "=" + value && '=' !in name
    ensures var assignment := token[2..];
      var equals := EqualsAt(assignment);
      IsFlag(token) && equals < |assignment| && assignment[..equals] == name && assignment[equals + 1..] == value
  {
    FlagToken(name, "=" + value);
    assert token == "--" + name + ("=" + value);
    assert ("=" + value)[1..] == value;
  }

  /** Nothing else can be said with the same tokens. */
  lemma SayableIsRead(item: Item, argv: seq<string>, i: nat, wordsBefore: bool, paths: seq<CommandPath>)
    requires Sayable(item, argv, i, wordsBefore, paths)
    requires i + |Tokens(item)| <= |argv| && argv[i..i + |Tokens(item)|] == Tokens(item)
    ensures i < |argv| && item == ReadItem(argv, i, wordsBefore, paths)
  {
    hide PathInstead, BOOLEAN_FLAGS, EqualsAt, IsFlag;
    assert argv[i] == argv[i..i + |Tokens(item)|][0];
    match item
    case Word(_) =>
    case Assign(name, value) => AssignmentIsRead(argv[i], name, value);
    case Switch(name) => NameIsRead(argv[i], name);
    case Pair(name, value) =>
      NameIsRead(argv[i], name);
      assert argv[i + 1] == argv[i..i + 2][1];
  }

  function Reading(argv: seq<string>, i: nat, wordsBefore: bool, paths: seq<CommandPath>): seq<Item>
    decreases |argv| - i
  {
    if i >= |argv| then []
    else
      var item := ReadItem(argv, i, wordsBefore, paths);
      [item] + Reading(argv, i + |Tokens(item)|, wordsBefore || item.Word?, paths)
  }

  lemma OneMoreSaid(item: Item, rest: seq<Item>, argv: seq<string>, i: nat, wordsBefore: bool, paths: seq<CommandPath>)
    requires Sayable(item, argv, i, wordsBefore, paths) && i + |Tokens(item)| <= |argv|
    requires argv[i..i + |Tokens(item)|] == Tokens(item) && AllTokens(rest) == argv[i + |Tokens(item)|..]
    requires AllSayable(rest, argv, i + |Tokens(item)|, wordsBefore || item.Word?, paths)
    ensures AllTokens([item] + rest) == argv[i..] && AllSayable([item] + rest, argv, i, wordsBefore, paths)
  {
    hide Sayable;
    var items := [item] + rest;
    assert items[0] == item && items[1..] == rest;
    assert argv[i..] == argv[i..i + |Tokens(item)|] + argv[i + |Tokens(item)|..];
  }

  lemma ReadingUnfolds(argv: seq<string>, i: nat, wordsBefore: bool, paths: seq<CommandPath>)
    requires i < |argv|
    ensures var item := ReadItem(argv, i, wordsBefore, paths);
      Reading(argv, i, wordsBefore, paths) ==
        [item] + Reading(argv, i + |Tokens(item)|, wordsBefore || item.Word?, paths)
  {
  }

  lemma NothingToRead(argv: seq<string>, wordsBefore: bool, paths: seq<CommandPath>)
    ensures Reading(argv, |argv|, wordsBefore, paths) == [] && AllTokens([]) == argv[|argv|..]
    ensures AllSayable([], argv, |argv|, wordsBefore, paths)
  {
  }

  lemma {:induction false} ReadingIsSayable(argv: seq<string>, i: nat, wordsBefore: bool, paths: seq<CommandPath>)
    requires i <= |argv|
    ensures AllTokens(Reading(argv, i, wordsBefore, paths)) == argv[i..]
    ensures AllSayable(Reading(argv, i, wordsBefore, paths), argv, i, wordsBefore, paths)
    decreases |argv| - i
  {
    hide *;
    if i == |argv| {
      NothingToRead(argv, wordsBefore, paths);
    } else {
      ReadingUnfolds(argv, i, wordsBefore, paths);
      ReadItemIsSayable(argv, i, wordsBefore, paths);
      var item := ReadItem(argv, i, wordsBefore, paths);
      var n := |Tokens(item)|;
      ReadingIsSayable(argv, i + n, wordsBefore || item.Word?, paths);
      OneMoreSaid(item, Reading(argv, i + n, wordsBefore || item.Word?, paths), argv, i, wordsBefore, paths);
    }
  }

  lemma {:induction false} OnlyReading(items: seq<Item>, argv: seq<string>, i: nat, wordsBefore: bool,
                                       paths: seq<CommandPath>)
    requires i <= |argv| && AllTokens(items) == argv[i..] && AllSayable(items, argv, i, wordsBefore, paths)
    ensures items == Reading(argv, i, wordsBefore, paths)
    decreases |items|
  {
    hide Sayable, ReadItem, Tokens, Reading;
    if items == [] {
      NothingToRead(argv, wordsBefore, paths);
    } else {
      FirstTokens(items, argv, i);
      hide AllTokens;
      SayableIsRead(items[0], argv, i, wordsBefore, paths);
      ReadingUnfolds(argv, i, wordsBefore, paths);
      OnlyReading(items[1..], argv, i + |Tokens(items[0])|, wordsBefore || items[0].Word?, paths);
      assert items == [items[0]] + items[1..];
    }
  }

  /** Every argument list says something, in one way only, and is parsed as that. */
  lemma EveryArgvSaysOneThing(argv: seq<string>, paths: seq<CommandPath>)
    ensures var items := Reading(argv, 0, false, paths);
      && AllTokens(items) == argv && AllSayable(items, argv, 0, false, paths)
      && ParseFrom(argv, paths, 0, [], map[]) == Understood(items, [], map[])
    ensures forall items :: AllTokens(items) == argv && AllSayable(items, argv, 0, false, paths) ==>
              items == Reading(argv, 0, false, paths)
  {
    hide AllSayable, AllTokens, Understood, ParseFrom;
    assert argv[0..] == argv;
    ReadingIsSayable(argv, 0, false, paths);
    ParseRoundTrip(Reading(argv, 0, false, paths), paths);
    forall items | AllTokens(items) == argv && AllSayable(items, argv, 0, false, paths)
      ensures items == Reading(argv, 0, false, paths)
    {
      OnlyReading(items, argv, 0, false, paths);
    }
  }

  lemma {:induction false} PathStarts(argv: seq<string>, i: nat, path: CommandPath)
    requires i + |path| <= |argv| && argv[i..i + |path|] == path && forall w <- path :: !IsFlag(w)
    ensures StartsAt(argv, i, path)
    decreases |path|
  {
    if path != [] {
      assert argv[i] == argv[i..i + |path|][0] == path[0];
      assert path[0] in path;
      assert argv[i + 1..i + |path|] == path[1..];
      PathStarts(argv, i + 1, path[1..]);
    }
  }

  lemma {:induction false} WordsArePushed(argv: seq<string>, paths: seq<CommandPath>, i: nat, words: CommandPath,
                                          commandPath: CommandPath, flags: Flags)
    requires i + |words| <= |argv| && argv[i..i + |words|] == words && forall w <- words :: !IsFlag(w)
    ensures ParseFrom(argv, paths, i, commandPath, flags) ==
              ParseFrom(argv, paths, i + |words|, commandPath + words, flags)
    decreases |words|
  {
    if words == [] {
      assert commandPath + words == commandPath;
    } else {
      assert argv[i] == argv[i..i + |words|][0] == words[0];
      assert words[0] in words;
      assert argv[i + 1..i + |words|] == words[1..];
      WordsArePushed(argv, paths, i + 1, words[1..], commandPath + [words[0]], flags);
      assert commandPath + [words[0]] + words[1..] == commandPath + words;
    }
  }

  /** A flag before the command does not swallow the first word of a registered path. */
  lemma PreCommandFlagKeepsPath(flag: string, path: CommandPath, rest: seq<string>, paths: seq<CommandPath>)
    requires '=' !in flag && flag !in BOOLEAN_FLAGS && path in paths && path != [] && forall w <- path :: !IsFlag(w)
    requires !SomeStartsAt(["--" + flag] + path + rest, 2, paths)
    ensures var argv := ["--" + flag] + path + rest;
      ParseFrom(argv, paths, 0, [], map[]) == ParseFrom(argv, paths, 1 + |path|, path, map[flag := On])
  {
    var argv := ["--" + flag] + path + rest;
    FlagToken(flag, "");
    assert argv[0] == "--" + flag + "" && flag + "" == flag;
    assert argv[1..1 + |path|] == path;
    PathStarts(argv, 1, path);
    assert SomeStartsAt(argv, 1, paths);
    WordsArePushed(argv, paths, 1, path, [], map[flag := On]);
    assert [] + path == path;
  }

  // ---- Normalisation ----

  function SpecPaths(spec: Spec): seq<CommandPath> {
    if spec.aliases.Some? then [spec.path] + spec.aliases.value else [spec.path]
  }

  predicate Considered(spec: Spec) { spec.positionalArgs != [] || spec.aliases.Some? }

  predicate BaseMatches(base: CommandPath, commandPath: CommandPath, positionals: nat) {
    |base| <= |commandPath| <= |base| + positionals && commandPath[..|base|] == base
  }

  /** Later positionals never override a flag that is already there. */
  function FillPositionals(flags: Flags, names: seq<string>, values: seq<string>): Flags
    requires |values| <= |names|
    decreases |values|
  {
    if values == [] then flags
    else
      FillPositionals(if names[0] in flags then flags else flags[names[0] := Text(values[0])], names[1..], values[1..])
  }

  function Filter(names: seq<string>, flags: Flags): seq<string> {
    if names == [] then []
    else (if names[0] in flags then [names[0]] else []) + Filter(names[1..], flags)
  }

  lemma {:induction false} NoConflictsExactly(names: seq<string>, flags: Flags)
    ensures Filter(names, flags) == [] <==> forall n <- names :: n !in flags
  {
    if names != [] {
      NoConflictsExactly(names[1..], flags);
      assert names == [names[0]] + names[1..];
    }
  }

  lemma TailOfFront(names: seq<string>, n: nat)
    requires 0 < n <= |names|
    ensures names[..n][1..] == names[1..][..n - 1]
  {
  }

  /** Without conflicts each positional becomes the flag of its name, and no other flag changes. */
  lemma {:induction false} PositionalsBecomeFlags(flags: Flags, names: seq<string>, values: seq<string>)
    requires |values| <= |names| && Different(names) && Filter(names[..|values|], flags) == []
    ensures BecameFlags(flags, names, values, FillPositionals(flags, names, values))
    decreases |values|
  {
    hide Filter, BecameFlags, Different;
    if values == [] {
      NothingBecame(flags, names);
    } else {
      FirstHasNoConflict(flags, names, values);
      var next := flags[names[0] := Text(values[0])];
      PositionalsBecomeFlags(next, names[1..], values[1..]);
      OneMoreBecame(flags, names, values, FillPositionals(next, names[1..], values[1..]));
    }
  }

  predicate Different(names: seq<string>) { forall i, j :: 0 <= i < j < |names| ==> names[i] != names[j] }

  /** The flags `r` are `flags` with the values under their names. */
  ghost predicate BecameFlags(flags: Flags, names: seq<string>, values: seq<string>, r: Flags)
    requires |values| <= |names|
  {
    && (forall i :: 0 <= i < |values| ==> names[i] in r && r[names[i]] == Text(values[i]))
    && (forall f :: f !in names[..|values|] ==> (f in r <==> f in flags) && (f in flags ==> r[f] == flags[f]))
  }

  lemma NothingBecame(flags: Flags, names: seq<string>)
    ensures BecameFlags(flags, names, [], flags)
  {
  }

  lemma FirstHasNoConflict(flags: Flags, names: seq<string>, values: seq<string>)
    requires 0 < |values| <= |names| && Different(names) && Filter(names[..|values|], flags) == []
    ensures names[0] !in flags && Different(names[1..])
    ensures Filter(names[1..][..|values| - 1], flags[names[0] := Text(values[0])]) == []
  {
    var rest := names[1..][..|values| - 1];
    NoConflictsExactly(names[..|values|], flags);
    NoConflictsExactly(rest, flags[names[0] := Text(values[0])]);
    assert names[0] in names[..|values|];
    TailOfFront(names, |values|);
    forall n | n in rest ensures n in names[..|values|] && n != names[0] {
      var i :| 0 <= i < |rest| && rest[i] == n;
      assert names[..|values|][i + 1] == n;
    }
  }

  lemma OneMoreBecame(flags: Flags, names: seq<string>, values: seq<string>, r: Flags)
    requires 0 < |values| <= |names| && Different(names)
    requires BecameFlags(flags[names[0] := Text(values[0])], names[1..], values[1..], r)
    ensures BecameFlags(flags, names, values, r)
  {
    var rest := names[1..][..|values| - 1];
    TailOfFront(names, |values|);
    assert names[0] !in rest;
    assert forall f :: f !in names[..|values|] ==> f !in rest && f != names[0] by {
      assert names[..|values|] == [names[0]] + rest;
    }
    assert forall i :: 0 < i < |values| ==> names[i] == names[1..][i - 1] && values[i] == values[1..][i - 1];
  }

  /** `r` is `flags` and, for each name not among them, the first of the values that have that name. */
  ghost predicate FilledFrom(flags: Flags, names: seq<string>, values: seq<string>, r: Flags)
    requires |values| <= |names|
  {
    && (forall f :: f in r <==> f in flags || f in names[..|values|])
    && (forall f :: f in flags ==> r[f] == flags[f])
    && (forall m :: 0 <= m < |values| && names[m] !in flags && names[m] !in names[..m] ==>
          r[names[m]] == Text(values[m]))
  }

  lemma {:induction false} PositionalsFill(flags: Flags, names: seq<string>, values: seq<string>)
    requires |values| <= |names|
    ensures FilledFrom(flags, names, values, FillPositionals(flags, names, values))
    decreases |values|
  {
    hide FilledFrom;
    if values == [] {
      NothingFilled(flags, names);
    } else {
      var next := if names[0] in flags then flags else flags[names[0] := Text(values[0])];
      PositionalsFill(next, names[1..], values[1..]);
      OneMoreFilled(flags, names, values, next, FillPositionals(next, names[1..], values[1..]));
    }
  }

  lemma NothingFilled(flags: Flags, names: seq<string>)
    ensures FilledFrom(flags, names, [], flags)
  {
  }

  lemma OneMoreFilled(flags: Flags, names: seq<string>, values: seq<string>, next: Flags, r: Flags)
    requires 0 < |values| <= |names|
    requires next == if names[0] in flags then flags else flags[names[0] := Text(values[0])]
    requires FilledFrom(next, names[1..], values[1..], r)
    ensures FilledFrom(flags, names, values, r)
  {
    var n := |values|;
    assert names[..n] == [names[0]] + names[1..][..n - 1];
    forall m | 0 <= m < n && names[m] !in flags && names[m] !in names[..m]
      ensures r[names[m]] == Text(values[m])
    {
      LaterFilled(names, values, next, r, m);
    }
  }

  lemma LaterFilled(names: seq<string>, values: seq<string>, next: Flags, r: Flags, m: nat)
    requires m < |values| <= |names| && FilledFrom(next, names[1..], values[1..], r)
    requires m == 0 ==> names[0] in next && next[names[0]] == Text(values[0])
    requires m > 0 && names[m] != names[0] ==> names[m] !in next
    requires names[m] !in names[..m]
    ensures names[m] in r && r[names[m]] == Text(values[m])
  {
    if m > 0 {
      var rest := names[1..];
      assert names[..m] == [names[0]] + rest[..m - 1];
      assert names[m] != names[0] && names[m] !in rest[..m - 1];
      assert rest[m - 1] == names[m] && values[1..][m - 1] == values[m];
      assert rest[..|values| - 1][m - 1] == names[m];
    }
  }

  function Shifted(at: seq<nat>): (r: seq<nat>)
    ensures |r| == |at| && forall k :: 0 <= k < |at| ==> r[k] == at[k] + 1
  {
    seq(|at|, k requires 0 <= k < |at| => at[k] + 1)
  }

  /** The positions, in order, of the names that are among the flags. */
  lemma {:induction false} FilterPicks(names: seq<string>, flags: Flags) returns (at: seq<nat>)
    ensures Picks(at, names, flags, Filter(names, flags))
  {
    if names == [] {
      at := [];
    } else {
      var rest := FilterPicks(names[1..], flags);
      at := (if names[0] in flags then [0] else []) + Shifted(rest);
      OneMorePick(names, flags, rest, Filter(names[1..], flags));
      hide Picks;
    }
  }

  lemma OneMorePick(names: seq<string>, flags: Flags, rest: seq<nat>, picked: seq<string>)
    requires names != [] && Picks(rest, names[1..], flags, picked)
    ensures Picks((if names[0] in flags then [0] else []) + Shifted(rest), names, flags,
                  (if names[0] in flags then [names[0]] else []) + picked)
  {
    ShiftedPicks(names, flags, rest, picked);
    ShiftedPicksAll(names, flags, rest);
    hide Shifted, PicksAll;
    if names[0] in flags {
      FirstPick(names, flags, Shifted(rest), picked);
      FirstPickAll(names, flags, Shifted(rest));
    } else {
      assert [] + Shifted(rest) == Shifted(rest) && [] + picked == picked;
      NoFirstPick(names, flags, Shifted(rest));
    }
  }

  lemma ShiftedPicks(names: seq<string>, flags: Flags, rest: seq<nat>, picked: seq<string>)
    requires names != [] && PicksOnly(rest, names[1..], flags, picked)
    ensures PicksOnly(Shifted(rest), names, flags, picked) && forall k :: 0 <= k < |rest| ==> Shifted(rest)[k] > 0
  {
  }

  lemma ShiftedPicksAll(names: seq<string>, flags: Flags, rest: seq<nat>)
    requires names != [] && PicksAll(rest, names[1..], flags)
    ensures forall m :: 0 < m < |names| && names[m] in flags ==> m in Shifted(rest)
  {
    forall m | 0 < m < |names| && names[m] in flags ensures m in Shifted(rest) {
      assert names[1..][m - 1] == names[m];
      var k :| 0 <= k < |rest| && rest[k] == m - 1;
      assert Shifted(rest)[k] == m;
    }
  }

  lemma FirstPick(names: seq<string>, flags: Flags, at: seq<nat>, picked: seq<string>)
    requires names != [] && names[0] in flags && PicksOnly(at, names, flags, picked)
    requires forall k :: 0 <= k < |at| ==> at[k] > 0
    ensures PicksOnly([0] + at, names, flags, [names[0]] + picked)
  {
  }

  lemma FirstPickAll(names: seq<string>, flags: Flags, at: seq<nat>)
    requires forall m :: 0 < m < |names| && names[m] in flags ==> m in at
    ensures PicksAll([0] + at, names, flags)
  {
    assert ([0] + at)[0] == 0;
  }

  lemma NoFirstPick(names: seq<string>, flags: Flags, at: seq<nat>)
    requires names != [] && names[0] !in flags
    requires forall m :: 0 < m < |names| && names[m] in flags ==> m in at
    ensures PicksAll(at, names, flags)
  {
  }

  /** `picked` are the names at the positions `at`, in order, and they are among the flags. */
  ghost predicate PicksOnly(at: seq<nat>, names: seq<string>, flags: Flags, picked: seq<string>) {
    && |at| == |picked|
    && (forall k :: 0 <= k < |at| ==> at[k] < |names| && picked[k] == names[at[k]] && names[at[k]] in flags)
    && (forall k, l :: 0 <= k < l < |at| ==> at[k] < at[l])
  }

  /** No position of such a name is left out. */
  ghost predicate PicksAll(at: seq<nat>, names: seq<string>, flags: Flags) {
    forall m :: 0 <= m < |names| && names[m] in flags ==> m in at
  }

  ghost predicate Picks(at: seq<nat>, names: seq<string>, flags: Flags, picked: seq<string>) {
    PicksOnly(at, names, flags, picked) && PicksAll(at, names, flags)
  }

  function Canonical(spec: Spec, base: CommandPath, parsed: ParsedArgs): ParsedArgs
    requires BaseMatches(base, parsed.commandPath, |spec.positionalArgs|)
  {
    var values := parsed.commandPath[|base|..];
    ParsedArgs(spec.path, FillPositionals(parsed.flags, spec.positionalArgs, values),
               Filter(spec.positionalArgs[..|values|], parsed.flags))
  }

  function FirstBase(bases: seq<CommandPath>, commandPath: CommandPath, positionals: nat): (r: Option<CommandPath>)
    ensures r.Some? ==> r.value in bases && BaseMatches(r.value, commandPath, positionals)
    ensures r.None? ==> forall b <- bases :: !BaseMatches(b, commandPath, positionals)
  {
    if bases == [] then None
    else if BaseMatches(bases[0], commandPath, positionals) then Some(bases[0])
    else FirstBase(bases[1..], commandPath, positionals)
  }

  function Normalize(specs: seq<Spec>, parsed: ParsedArgs): ParsedArgs {
    if specs == [] then parsed
    else
      var base := FirstBase(SpecPaths(specs[0]), parsed.commandPath, |specs[0].positionalArgs|);
      if Considered(specs[0]) && base.Some? then Canonical(specs[0], base.value, parsed)
      else Normalize(specs[1..], parsed)
  }

  method NormalizeCommandPositionals(specs: seq<Spec>, parsed: ParsedArgs) returns (r: ParsedArgs)
    ensures r == Normalize(specs, parsed)
  {
    hide Canonical, SpecPaths, BaseMatches;
    assert specs[0..] == specs;
    for i := 0 to |specs|
      invariant Normalize(specs[i..], parsed) == Normalize(specs, parsed)
    {
      var spec := specs[i];
      assert specs[i..][0] == spec && specs[i..][1..] == specs[i + 1..];
      if |spec.positionalArgs| == 0 && spec.aliases.None? { continue; }
      var bases := SpecPaths(spec);
      assert bases[0..] == bases;
      for j := 0 to |bases|
        invariant FirstBase(bases[j..], parsed.commandPath, |spec.positionalArgs|)
               == FirstBase(bases, parsed.commandPath, |spec.positionalArgs|)
      {
        var base := bases[j];
        assert bases[j..][0] == base && bases[j..][1..] == bases[j + 1..];
        if !BaseMatches(base, parsed.commandPath, |spec.positionalArgs|) { continue; }
        return Canonical(spec, base, parsed);
      }
    }
    return parsed;
  }

  // ---- Validation ----

  /** The path is the command's own or one of its aliases. */
  predicate AnswersTo(spec: Spec, path: CommandPath) {
    path == spec.path || (spec.aliases.Some? && path in spec.aliases.value)
  }

  function FindCommandSpec(specs: seq<Spec>, commandPath: CommandPath): (r: Option<Spec>)
    ensures r.Some? ==> r.value in specs && AnswersTo(r.value, commandPath)
    ensures r.Some? ==> commandPath in SpecPaths(r.value)
    ensures r.None? ==> forall s <- specs :: !AnswersTo(s, commandPath)
    ensures r.None? ==> forall s <- specs :: commandPath !in SpecPaths(s)
  {
    if specs == [] then None
    else if commandPath in SpecPaths(specs[0]) then Some(specs[0])
    else FindCommandSpec(specs[1..], commandPath)
  }

  /** Of the specifications that answer to the path, the first is found. */
  lemma {:induction false} FirstIsFound(specs: seq<Spec>, commandPath: CommandPath, k: nat)
    requires k < |specs| && AnswersTo(specs[k], commandPath)
    requires forall l :: 0 <= l < k ==> !AnswersTo(specs[l], commandPath)
    ensures FindCommandSpec(specs, commandPath) == Some(specs[k])
    decreases k
  {
    if k > 0 { FirstIsFound(specs[1..], commandPath, k - 1); }
  }

  const GROUPS_WITHOUT_PAGE := [
    "automations", "project", "repo", "worktree", "terminal", "file", "orchestration", "computer", "emulator", "note",
    "diagnostics", "linear", "skills", "agent-context"]
  const TAB_COMMANDS_WITHOUT_PAGE := [
    "tab list", "tab create", "tab current", "tab profile list", "tab profile create", "tab profile delete"]

  function Join(words: seq<string>): string {
    if words == [] then "" else if |words| == 1 then words[0] else words[0] + " " + Join(words[1..])
  }

  predicate SupportsPageFlag(path: CommandPath) {
    && (path == [] || (path[0] !in ["open", "status"] && path[0] !in GROUPS_WITHOUT_PAGE))
    && Join(path) !in TAB_COMMANDS_WITHOUT_PAGE
  }

  predicate FlagKnown(spec: Spec, flag: string) {
    flag in GLOBAL_FLAGS || flag in spec.allowedFlags || (flag == "page" && SupportsPageFlag(spec.path))
  }

  predicate FlagAccepted(spec: Spec, flag: string, value: FlagValue) {
    && (flag in GLOBAL_VALUE_FLAGS ==> value.Text? && value.text != "")
    && FlagKnown(spec, flag)
  }

  /** validateCommandAndFlags returns instead of throwing. */
  predicate Valid(specs: seq<Spec>, parsed: ParsedArgs) {
    var spec := FindCommandSpec(specs, parsed.commandPath);
    && spec.Some?
    && parsed.conflicts == []
    && forall flag <- parsed.flags :: FlagAccepted(spec.value, flag, parsed.flags[flag])
  }

  datatype Rejection =
    | UnknownCommand
    | GivenTwice(flags: seq<string>)
    | ValueMissing(flag: string)
    | UnknownFlag(flag: string)

  /** The flags in the order in which they were put into the map. */
  ghost predicate OrderOf(order: seq<string>, flags: Flags) { forall f :: f in order <==> f in flags }

  predicate HasText(value: FlagValue) { value.Text? && value.text != "" }

  /** The flag may be given with this value: those that need a text have one, and the flag is one the command knows. */
  predicate Fits(spec: Spec, flag: string, value: FlagValue) {
    match flag
    case "pairing-code" => value.Text? && value.text != ""
    case "environment" => value.Text? && value.text != ""
    case "help" => true
    case "json" => true
    case "page" => flag in spec.allowedFlags || SupportsPageFlag(spec.path)
    case _ => flag in spec.allowedFlags
  }

  lemma AcceptedFits(spec: Spec, flag: string, value: FlagValue)
    ensures FlagAccepted(spec, flag, value) <==> Fits(spec, flag, value)
  {
    hide SupportsPageFlag;
  }

  /** The first flag that is refused. */
  ghost predicate FirstRefused(spec: Spec, flags: Flags, order: seq<string>, flag: string) {
    && flag in flags && !FlagAccepted(spec, flag, flags[flag])
    && exists k | 0 <= k < |order| ::
         && order[k] == flag
         && forall j :: 0 <= j < k ==> order[j] in flags && FlagAccepted(spec, order[j], flags[order[j]])
  }

  ghost predicate NoneAnswers(specs: seq<Spec>, path: CommandPath) { forall s <- specs :: !AnswersTo(s, path) }

  /** None: nothing is thrown. */
  method ValidateCommandAndFlags(specs: seq<Spec>, parsed: ParsedArgs, order: seq<string>)
    returns (r: Option<Rejection>)
    requires OrderOf(order, parsed.flags)
    ensures r.None? <==> Valid(specs, parsed)
    ensures r.None? ==>
              var spec := FindCommandSpec(specs, parsed.commandPath);
              && spec.Some? && parsed.conflicts == []
              && forall flag <- parsed.flags :: Fits(spec.value, flag, parsed.flags[flag])
    ensures r == Some(UnknownCommand) <==> NoneAnswers(specs, parsed.commandPath)
    ensures !NoneAnswers(specs, parsed.commandPath) && parsed.conflicts != [] <==>
              r.Some? && r.value.GivenTwice? && r.value.flags == parsed.conflicts
    ensures r.Some? && (r.value.ValueMissing? || r.value.UnknownFlag?) ==>
              var spec, flag := FindCommandSpec(specs, parsed.commandPath), r.value.flag;
              && spec.Some? && FirstRefused(spec.value, parsed.flags, order, flag)
              && (r.value.ValueMissing? <==>
                    (flag == "pairing-code" || flag == "environment") && !HasText(parsed.flags[flag]))
              && (r.value.UnknownFlag? <==>
                    && flag !in ["help", "json", "pairing-code", "environment"] && flag !in spec.value.allowedFlags
                    && (flag == "page" ==> !SupportsPageFlag(spec.value.path)))
  {
    hide SupportsPageFlag, OrderOf, Fits;
    var found := FindCommandSpec(specs, parsed.commandPath);
    if found.None? { return Some(UnknownCommand); }
    assert !NoneAnswers(specs, parsed.commandPath);
    var spec := found.value;
    if |parsed.conflicts| > 0 { return Some(GivenTwice(parsed.conflicts)); }
    var pageAllowed := SupportsPageFlag(spec.path);
    for k := 0 to |order|
      invariant forall j :: 0 <= j < k ==>
                  order[j] in parsed.flags && FlagAccepted(spec, order[j], parsed.flags[order[j]])
    {
      var flag := order[k];
      assert flag in parsed.flags by { InTheOrder(order, parsed.flags, flag); }
      var isGlobalFlag := flag in GLOBAL_FLAGS;
      if flag in GLOBAL_VALUE_FLAGS && !HasText(parsed.flags[flag]) { return Some(ValueMissing(flag)); }
      if !isGlobalFlag && flag !in spec.allowedFlags && !(flag == "page" && pageAllowed) {
        return Some(UnknownFlag(flag));
      }
    }
    AllInTheOrder(order, parsed.flags);
    forall flag | flag in parsed.flags ensures Fits(spec, flag, parsed.flags[flag]) {
      AcceptedFits(spec, flag, parsed.flags[flag]);
    }
    return None;
  }

  lemma InTheOrder(order: seq<string>, flags: Flags, flag: string)
    requires OrderOf(order, flags) && flag in order
    ensures flag in flags
  {
  }

  lemma AllInTheOrder(order: seq<string>, flags: Flags)
    requires OrderOf(order, flags)
    ensures forall flag <- flags :: flag in order
  {
  }

  function EffectiveAllowedFlags(spec: Spec): seq<string> {
    if spec.passthrough then []
    else GLOBAL_FLAGS + spec.allowedFlags + if SupportsPageFlag(spec.path) then ["page"] else []
  }

  /** Validation and discovery agree on the flag set exactly for commands that parse their arguments. */
  lemma DiscoveryMatchesValidation(spec: Spec)
    ensures (forall flag :: FlagKnown(spec, flag) <==> flag in EffectiveAllowedFlags(spec)) <==> !spec.passthrough
  {
    assert GLOBAL_FLAGS[0] == "help";
    assert FlagKnown(spec, "help");
  }

  // ---- Registries ----

  datatype ParityGaps = ParityGaps(handlersWithoutSpec: set<string>, specsWithoutHandler: set<string>)

  function FindRegistryParityGaps(specs: seq<Spec>, handlerKeys: set<string>): ParityGaps {
    var canonical := set s <- specs :: Join(s.path);
    ParityGaps(handlerKeys - canonical, canonical - handlerKeys)
  }

  /** A handler is an abstract value here. */
  type Handler = nat
  type Group = seq<(string, Handler)>

  function AllEntries(groups: seq<Group>): Group {
    if groups == [] then [] else AllEntries(groups[..|groups| - 1]) + groups[|groups| - 1]
  }

  predicate KeysDistinct(entries: Group) {
    forall i, j :: 0 <= i < j < |entries| ==> entries[i].0 != entries[j].0
  }

  /** The table holds exactly the entries. */
  predicate TableOf(table: map<string, Handler>, entries: Group) {
    && (forall e <- entries :: e.0 in table && table[e.0] == e.1)
    && (forall k <- table :: exists e <- entries :: e.0 == k)
  }

  lemma {:induction false} PrefixOfEntries(groups: seq<Group>, n: nat)
    requires n <= |groups|
    ensures AllEntries(groups[..n]) <= AllEntries(groups)
    decreases |groups|
  {
    if n < |groups| {
      PrefixOfEntries(groups[..|groups| - 1], n);
      assert groups[..|groups| - 1][..n] == groups[..n];
    } else {
      assert groups[..n] == groups;
    }
  }

  lemma DuplicateStays(groups: seq<Group>, g: nat, e: nat)
    requires g < |groups| && e < |groups[g]|
    requires var done := AllEntries(groups[..g]) + groups[g][..e]; exists d <- done :: d.0 == groups[g][e].0
    ensures !KeysDistinct(AllEntries(groups))
  {
    var done := AllEntries(groups[..g]) + groups[g][..e];
    var all := AllEntries(groups);
    PrefixOfEntries(groups, g + 1);
    assert groups[..g + 1][..g] == groups[..g];
    assert AllEntries(groups[..g + 1]) == AllEntries(groups[..g]) + groups[g];
    var d :| d in done && d.0 == groups[g][e].0;
    var i :| 0 <= i < |done| && done[i] == d;
    assert all[i] == d && all[|done|] == groups[g][e];
  }

  /** None: a key was registered twice and an error is thrown. */
  method BuildHandlers(groups: seq<Group>) returns (table: Option<map<string, Handler>>)
    ensures table.Some? <==> KeysDistinct(AllEntries(groups))
    ensures table.Some? ==> TableOf(table.value, AllEntries(groups))
  {
    hide KeysDistinct, TableOf;
    var t: map<string, Handler> := map[];
    NoEntries();
    assert groups[..0] == [];
    for g := 0 to |groups|
      invariant KeysDistinct(AllEntries(groups[..g])) && TableOf(t, AllEntries(groups[..g]))
    {
      assert groups[..g + 1][..g] == groups[..g];
      var added := AddGroup(t, groups, g);
      if added.None? { return None; }
      t := added.value;
    }
    assert groups[..|groups|] == groups;
    return Some(t);
  }

  /** The inner loop: one group's handlers. */
  method AddGroup(before: map<string, Handler>, groups: seq<Group>, g: nat)
    returns (table: Option<map<string, Handler>>)
    requires g < |groups| && KeysDistinct(AllEntries(groups[..g])) && TableOf(before, AllEntries(groups[..g]))
    ensures table.None? ==> !KeysDistinct(AllEntries(groups))
    ensures table.Some? ==>
              && KeysDistinct(AllEntries(groups[..g]) + groups[g])
              && TableOf(table.value, AllEntries(groups[..g]) + groups[g])
  {
    hide KeysDistinct, TableOf, AllEntries;
    var t, group := before, groups[g];
    ghost var done := AllEntries(groups[..g]);
    assert done + group[..0] == done;
    for e := 0 to |group|
      invariant KeysDistinct(done + group[..e]) && TableOf(t, done + group[..e])
    {
      var (key, handler) := group[e];
      TableTells(t, done + group[..e], key);
      if key in t {
        DuplicateStays(groups, g, e);
        return None;
      }
      TableGrows(t, done + group[..e], key, handler);
      assert done + group[..e] + [group[e]] == done + group[..e + 1];
      t := t[key := handler];
    }
    assert group[..|group|] == group;
    return Some(t);
  }

  lemma NoEntries()
    ensures KeysDistinct([]) && TableOf(map[], []) && AllEntries([]) == []
  {
  }

  lemma TableTells(table: map<string, Handler>, entries: Group, key: string)
    requires TableOf(table, entries)
    ensures key in table <==> exists e <- entries :: e.0 == key
  {
  }

  lemma TableGrows(table: map<string, Handler>, entries: Group, key: string, handler: Handler)
    requires TableOf(table, entries) && KeysDistinct(entries) && key !in table
    ensures TableOf(table[key := handler], entries + [(key, handler)]) && KeysDistinct(entries + [(key, handler)])
  {
    var longer := entries + [(key, handler)];
    assert (key, handler) in longer;
    assert forall e :: e in entries ==> e in longer;
    assert forall i :: 0 <= i < |entries| ==> entries[i] in entries && longer[i] == entries[i];
  }

  /** None: "Unknown command". */
  function Dispatch(table: map<string, Handler>, commandPath: CommandPath): Option<Handler> {
    if Join(commandPath) in table then Some(table[Join(commandPath)]) else None
  }

  // ---- The chain from arguments to handler ----

  lemma {:induction false} NormalizedOrUntouched(specs: seq<Spec>, parsed: ParsedArgs)
    ensures var n := Normalize(specs, parsed);
      || (exists s <- specs :: n.commandPath == s.path)
      || (n == parsed && forall s <- specs :: Considered(s) ==>
            forall b <- SpecPaths(s) :: !BaseMatches(b, parsed.commandPath, |s.positionalArgs|))
  {
    if specs != [] {
      NormalizedOrUntouched(specs[1..], parsed);
      assert specs == [specs[0]] + specs[1..];
    }
  }

  /** What validation accepts after normalisation is some spec's own path, never an alias. */
  lemma ValidIsCanonical(specs: seq<Spec>, parsed: ParsedArgs)
    requires Valid(specs, Normalize(specs, parsed))
    ensures exists s <- specs :: Normalize(specs, parsed).commandPath == s.path
  {
    NormalizedOrUntouched(specs, parsed);
    var n := Normalize(specs, parsed);
    var spec := FindCommandSpec(specs, n.commandPath).value;
    if n.commandPath != spec.path {
      assert spec.aliases.Some? && Considered(spec);
      assert n.commandPath[..|n.commandPath|] == n.commandPath;
      assert BaseMatches(n.commandPath, n.commandPath, |spec.positionalArgs|);
    }
  }

  /**
   * With no gaps between the registries, every argument list that is parsed, normalised and
   * accepted reaches a handler, and it is the one registered under a spec's canonical path.
   */
  lemma DispatchIsTotal(argv: seq<string>, paths: seq<CommandPath>, specs: seq<Spec>, groups: seq<Group>,
                        table: map<string, Handler>)
    requires TableOf(table, AllEntries(groups))
    requires FindRegistryParityGaps(specs, table.Keys) == ParityGaps({}, {})
    requires Valid(specs, Normalize(specs, ParseFrom(argv, paths, 0, [], map[])))
    ensures var n := Normalize(specs, ParseFrom(argv, paths, 0, [], map[]));
      exists s <- specs, e <- AllEntries(groups) ::
        n.commandPath == s.path && e.0 == Join(s.path) && Dispatch(table, n.commandPath) == Some(e.1)
  {
    var parsed := ParseFrom(argv, paths, 0, [], map[]);
    ValidIsCanonical(specs, parsed);
    var n := Normalize(specs, parsed);
    var s :| s in specs && n.commandPath == s.path;
    var canonical := set s <- specs :: Join(s.path);
    assert Join(s.path) in canonical;
    assert Join(s.path) in table.Keys;
    var e :| e in AllEntries(groups) && e.0 == Join(s.path);
  }

  // ---- When validation and dispatch mean different commands ----

  /** The flags were checked against one spec, and the handler of another runs. */
  predicate MixesUp(specs: seq<Spec>, n: ParsedArgs) {
    Valid(specs, n) && FindCommandSpec(specs, n.commandPath).value.path != n.commandPath
  }

  /** Normalisation takes the `j`th path of spec `i`: it is the first that fits. */
  ghost predicate TakenAt(specs: seq<Spec>, commandPath: CommandPath, i: nat, j: nat) {
    && i < |specs| && Considered(specs[i]) && j < |SpecPaths(specs[i])|
    && BaseMatches(SpecPaths(specs[i])[j], commandPath, |specs[i].positionalArgs|)
    && forall k, l :: 0 <= k <= i && 0 <= l < |SpecPaths(specs[k])| && Considered(specs[k]) && (k < i || l < j) ==>
         !BaseMatches(SpecPaths(specs[k])[l], commandPath, |specs[k].positionalArgs|)
  }

  lemma {:induction false} FirstBaseAt(bases: seq<CommandPath>, commandPath: CommandPath, positionals: nat, j: nat)
    requires j < |bases| && BaseMatches(bases[j], commandPath, positionals)
    requires forall l :: 0 <= l < j ==> !BaseMatches(bases[l], commandPath, positionals)
    ensures FirstBase(bases, commandPath, positionals) == Some(bases[j])
  {
    if j > 0 { FirstBaseAt(bases[1..], commandPath, positionals, j - 1); }
  }

  predicate Takes(spec: Spec, commandPath: CommandPath) {
    Considered(spec) && FirstBase(SpecPaths(spec), commandPath, |spec.positionalArgs|).Some?
  }

  lemma NoBase(bases: seq<CommandPath>, commandPath: CommandPath, positionals: nat)
    requires forall l :: 0 <= l < |bases| ==> !BaseMatches(bases[l], commandPath, positionals)
    ensures FirstBase(bases, commandPath, positionals) == None
  {
  }

  lemma {:induction false} FirstBaseFrom(bases: seq<CommandPath>, commandPath: CommandPath, positionals: nat)
    returns (j: nat)
    requires FirstBase(bases, commandPath, positionals).Some?
    ensures j < |bases| && BaseMatches(bases[j], commandPath, positionals)
    ensures forall l :: 0 <= l < j ==> !BaseMatches(bases[l], commandPath, positionals)
  {
    if BaseMatches(bases[0], commandPath, positionals) { return 0; }
    var rest := FirstBaseFrom(bases[1..], commandPath, positionals);
    j := rest + 1;
  }

  lemma {:induction false} NormalizeTakes(specs: seq<Spec>, parsed: ParsedArgs, i: nat, j: nat)
    requires TakenAt(specs, parsed.commandPath, i, j)
    ensures Normalize(specs, parsed) == Canonical(specs[i], SpecPaths(specs[i])[j], parsed)
  {
    hide SpecPaths, Considered, BaseMatches, Canonical;
    if i == 0 {
      FirstBaseAt(SpecPaths(specs[0]), parsed.commandPath, |specs[0].positionalArgs|, j);
    } else {
      var rest := specs[1..];
      assert forall k :: 0 <= k < |rest| ==> rest[k] == specs[k + 1];
      NormalizeTakes(rest, parsed, i - 1, j);
      if Considered(specs[0]) { NoBase(SpecPaths(specs[0]), parsed.commandPath, |specs[0].positionalArgs|); }
    }
  }

  lemma {:induction false} NormalizeTookOne(specs: seq<Spec>, parsed: ParsedArgs) returns (i: nat, j: nat)
    requires exists k :: 0 <= k < |specs| && Takes(specs[k], parsed.commandPath)
    ensures TakenAt(specs, parsed.commandPath, i, j)
  {
    hide SpecPaths, Considered, BaseMatches;
    if Takes(specs[0], parsed.commandPath) {
      i := 0;
      j := FirstBaseFrom(SpecPaths(specs[0]), parsed.commandPath, |specs[0].positionalArgs|);
    } else {
      var rest := specs[1..];
      var k :| 0 <= k < |specs| && Takes(specs[k], parsed.commandPath);
      assert rest[k - 1] == specs[k];
      var h;
      h, j := NormalizeTookOne(rest, parsed);
      i := h + 1;
      assert forall m :: 0 <= m < |rest| ==> rest[m] == specs[m + 1];
    }
  }

  /**
   * What normalisation does when it takes the `j`th path of spec `i`: the words behind that path are positionals.
   * Every flag given keeps its value, each other positional becomes the flag of its name, and the conflicts are,
   * in order, the names given twice.
   */
  lemma NormalizeMeans(specs: seq<Spec>, parsed: ParsedArgs, i: nat, j: nat) returns (at: seq<nat>)
    requires TakenAt(specs, parsed.commandPath, i, j)
    ensures var n, names := Normalize(specs, parsed), specs[i].positionalArgs;
      var values := parsed.commandPath[|SpecPaths(specs[i])[j]|..];
      && n.commandPath == specs[i].path && |values| <= |names|
      && FilledFrom(parsed.flags, names, values, n.flags)
      && Picks(at, names[..|values|], parsed.flags, n.conflicts)
      && (n.conflicts == [] && Different(names) ==> BecameFlags(parsed.flags, names, values, n.flags))
  {
    NormalizeTakes(specs, parsed, i, j);
    var names := specs[i].positionalArgs;
    var values := parsed.commandPath[|SpecPaths(specs[i])[j]|..];
    hide Normalize, SpecPaths, FilledFrom, Picks, BecameFlags, Different, Filter, FillPositionals;
    PositionalsFill(parsed.flags, names, values);
    at := FilterPicks(names[..|values|], parsed.flags);
    if Filter(names[..|values|], parsed.flags) == [] && Different(names) {
      PositionalsBecomeFlags(parsed.flags, names, values);
    }
  }

  /** And when no path fits, nothing changes. */
  lemma NothingFits(specs: seq<Spec>, parsed: ParsedArgs)
    requires forall k, base :: 0 <= k < |specs| && base in SpecPaths(specs[k]) && Considered(specs[k]) ==>
               !BaseMatches(base, parsed.commandPath, |specs[k].positionalArgs|)
    ensures Normalize(specs, parsed) == parsed
  {
    hide SpecPaths, Considered, BaseMatches;
    NothingTaken(specs, parsed);
  }

  /** The `j`th path of spec `k` takes `base` and `count` more words, whatever those are. */
  predicate Absorbs(specs: seq<Spec>, k: nat, l: nat, base: CommandPath, count: nat)
    requires k < |specs| && l < |SpecPaths(specs[k])|
  {
    var other := SpecPaths(specs[k])[l];
    |other| <= |base| && base[..|other|] == other && |base| + count <= |other| + |specs[k].positionalArgs|
  }

  ghost predicate FirstToTake(specs: seq<Spec>, i: nat, j: nat, count: nat)
    requires i < |specs| && j < |SpecPaths(specs[i])|
  {
    forall k, l :: 0 <= k <= i && 0 <= l < |SpecPaths(specs[k])| && Considered(specs[k]) && (k < i || l < j) ==>
      !Absorbs(specs, k, l, SpecPaths(specs[i])[j], count)
  }

  /**
   * What is wrong with a registry: spec `i` can be called by its `j`th path with `count` positionals, which
   * no earlier path takes first; but another spec answers first to its own path, and knows those positionals.
   */
  ghost predicate Confusable(specs: seq<Spec>, i: nat, j: nat, count: nat) {
    && i < |specs| && Considered(specs[i]) && j < |SpecPaths(specs[i])| && count <= |specs[i].positionalArgs|
    && var base := SpecPaths(specs[i])[j];
       && (forall w <- base :: !IsFlag(w))
       && FirstToTake(specs, i, j, count)
       && var first := FindCommandSpec(specs, specs[i].path);
          && first.Some? && first.value.path != specs[i].path
          && forall m :: 0 <= m < count ==> FlagKnown(first.value, specs[i].positionalArgs[m])
  }

  /** Command paths consist of words, and parsing finds no conflicts. */
  lemma {:induction false} ParsedWords(argv: seq<string>, paths: seq<CommandPath>, i: nat, commandPath: CommandPath,
                                       flags: Flags)
    requires forall w <- commandPath :: !IsFlag(w)
    ensures var p := ParseFrom(argv, paths, i, commandPath, flags);
      p.conflicts == [] && forall w <- p.commandPath :: !IsFlag(w)
    decreases |argv| - i
  {
    hide SomeStartsAt, SetFlag, BOOLEAN_FLAGS;
    if i < |argv| {
      if !IsFlag(argv[i]) {
        ParsedWords(argv, paths, i + 1, commandPath + [argv[i]], flags);
      } else {
        var assignment := argv[i][2..];
        var equals := EqualsAt(assignment);
        if equals < |assignment| {
          ParsedWords(argv, paths, i + 1, commandPath, SetFlag(flags, assignment[..equals], assignment[equals + 1..]));
        } else {
          ParsedWords(argv, paths, i + 1, commandPath, flags[assignment := On]);
          if i + 1 < |argv| { ParsedWords(argv, paths, i + 2, commandPath, SetFlag(flags, assignment, argv[i + 1])); }
        }
      }
    }
  }

  lemma {:induction false} FilledFlags(flags: Flags, names: seq<string>, values: seq<string>)
    requires |values| <= |names|
    ensures var r := FillPositionals(flags, names, values);
      && (forall m :: 0 <= m < |values| ==> names[m] in r)
      && (forall f :: f in r ==>
           (f in flags && r[f] == flags[f]) || (f in names[..|values|] && r[f].Text? && r[f].text in values))
      && (forall f :: f in flags ==> f in r)
    decreases |values|
  {
    if values != [] {
      var next := if names[0] in flags then flags else flags[names[0] := Text(values[0])];
      FilledFlags(next, names[1..], values[1..]);
      var r := FillPositionals(flags, names, values);
      forall m | 0 <= m < |values| ensures names[m] in r {
        if m == 0 { assert names[0] in next; } else { assert names[1..][m - 1] == names[m]; }
      }
      TailOfFront(names, |values|);
      assert names[0] in names[..|values|] && values[0] in values;
      assert forall v :: v in values[1..] ==> v in values;
      assert forall f :: f in names[..|values|][1..] ==> f in names[..|values|];
    }
  }

  /** A registry that can mix commands up does so for some argument list ... */
  ghost predicate SomeArgvMixesUp(specs: seq<Spec>, paths: seq<CommandPath>) {
    exists argv: seq<string> :: MixesUp(specs, Normalize(specs, ParseFrom(argv, paths, 0, [], map[])))
  }

  lemma {:induction false} NothingTaken(specs: seq<Spec>, parsed: ParsedArgs)
    ensures (forall k :: 0 <= k < |specs| ==> !Takes(specs[k], parsed.commandPath)) ==>
              Normalize(specs, parsed) == parsed
  {
    hide Considered, FirstBase, SpecPaths;
    if specs != [] {
      NothingTaken(specs[1..], parsed);
      assert (forall k :: 0 <= k < |specs| ==> !Takes(specs[k], parsed.commandPath)) ==>
          !Takes(specs[0], parsed.commandPath) && forall k :: 0 <= k < |specs| - 1 ==>
            !Takes(specs[1..][k], parsed.commandPath);
    }
  }

  /** An untouched parse is not mixed up: a spec that answers to an alias would have been taken. */
  lemma SomethingTaken(specs: seq<Spec>, parsed: ParsedArgs)
    requires MixesUp(specs, Normalize(specs, parsed))
    ensures exists k :: 0 <= k < |specs| && Takes(specs[k], parsed.commandPath)
  {
    hide FlagAccepted;
    var cp := parsed.commandPath;
    NothingTaken(specs, parsed);
    if Normalize(specs, parsed) == parsed {
      var f := FindCommandSpec(specs, cp).value;
      assert f.aliases.Some? && cp in SpecPaths(f);
      assert cp[..|cp|] == cp && BaseMatches(cp, cp, |f.positionalArgs|);
      var k :| 0 <= k < |specs| && specs[k] == f;
      assert Takes(specs[k], cp);
    }
  }

  lemma TakenIsNotAbsorbed(specs: seq<Spec>, commandPath: CommandPath, i: nat, j: nat, count: nat)
    requires TakenAt(specs, commandPath, i, j) && |commandPath| == |SpecPaths(specs[i])[j]| + count
    ensures FirstToTake(specs, i, j, count)
  {
    hide SpecPaths, Considered;
    var base := SpecPaths(specs[i])[j];
    forall k, l | 0 <= k <= i && 0 <= l < |SpecPaths(specs[k])| && Considered(specs[k]) && (k < i || l < j)
      ensures !Absorbs(specs, k, l, base, count)
    {
      var other := SpecPaths(specs[k])[l];
      assert !BaseMatches(other, commandPath, |specs[k].positionalArgs|);
      assert |other| <= |base| ==> commandPath[..|other|] == commandPath[..|base|][..|other|];
    }
  }

  lemma PositionalsAreKnown(specs: seq<Spec>, parsed: ParsedArgs, i: nat, j: nat)
    requires TakenAt(specs, parsed.commandPath, i, j) &&
               MixesUp(specs, Canonical(specs[i], SpecPaths(specs[i])[j], parsed))
    ensures var first := FindCommandSpec(specs, specs[i].path);
      && first.Some? && first.value.path != specs[i].path
      && forall m :: 0 <= m < |parsed.commandPath| - |SpecPaths(specs[i])[j]| ==>
           FlagKnown(first.value, specs[i].positionalArgs[m])
  {
    hide FlagKnown, SpecPaths, FindCommandSpec;
    var values := parsed.commandPath[|SpecPaths(specs[i])[j]|..];
    FilledFlags(parsed.flags, specs[i].positionalArgs, values);
    hide FillPositionals, TakenAt;
  }

  lemma MixUpIsConfusable(specs: seq<Spec>, parsed: ParsedArgs) returns (i: nat, j: nat, count: nat)
    requires MixesUp(specs, Normalize(specs, parsed)) && forall w <- parsed.commandPath :: !IsFlag(w)
    ensures Confusable(specs, i, j, count)
  {
    hide FlagKnown, MixesUp, Normalize, Canonical, FindCommandSpec, FirstToTake, IsFlag;
    SomethingTaken(specs, parsed);
    i, j := NormalizeTookOne(specs, parsed);
    NormalizeTakes(specs, parsed, i, j);
    var base := SpecPaths(specs[i])[j];
    count := |parsed.commandPath| - |base|;
    TakenIsNotAbsorbed(specs, parsed.commandPath, i, j, count);
    PositionalsAreKnown(specs, parsed, i, j);
    assert forall w :: w in base ==> w in parsed.commandPath[..|base|];
  }

  // ---- ... and a confusable registry does so for some argument list ----

  function LongestOf(words: seq<string>): (n: nat)
    ensures forall w :: w in words ==> |w| <= n
  {
    if words == [] then 0
    else var rest := LongestOf(words[1..]); if |words[0]| < rest then rest else |words[0]|
  }

  function LongestIn(paths: seq<CommandPath>): (n: nat)
    ensures forall p, w :: p in paths && w in p ==> |w| <= n
  {
    if paths == [] then 0
    else var rest := LongestIn(paths[1..]); if LongestOf(paths[0]) < rest then rest else LongestOf(paths[0])
  }

  function LongestWord(specs: seq<Spec>): (n: nat)
    ensures forall k, p, w :: 0 <= k < |specs| && p in SpecPaths(specs[k]) && w in p ==> |w| <= n
  {
    if specs == [] then 0
    else
      var rest, first := LongestWord(specs[1..]), LongestIn(SpecPaths(specs[0]));
      assert forall k :: 0 < k < |specs| ==> specs[k] == specs[1..][k - 1];
      if first < rest then rest else first
  }

  /** A word that occurs in no command path. */
  function FreshWord(specs: seq<Spec>): (z: string)
    ensures z != "" && !IsFlag(z)
    ensures forall k, p :: 0 <= k < |specs| && p in SpecPaths(specs[k]) ==> z !in p
  {
    seq(LongestWord(specs) + 1, _ => 'x')
  }

  lemma FreshIsTaken(specs: seq<Spec>, i: nat, j: nat, count: nat, values: seq<string>)
    requires Confusable(specs, i, j, count) && |values| == count && forall v <- values :: v == FreshWord(specs)
    ensures TakenAt(specs, SpecPaths(specs[i])[j] + values, i, j)
  {
    hide SpecPaths, Considered, IsFlag, FlagKnown, FindCommandSpec;
    var base := SpecPaths(specs[i])[j];
    var cp := base + values;
    assert cp[..|base|] == base;
    forall k, l | 0 <= k <= i && 0 <= l < |SpecPaths(specs[k])| && Considered(specs[k]) && (k < i || l < j)
      ensures !BaseMatches(SpecPaths(specs[k])[l], cp, |specs[k].positionalArgs|)
    {
      var other := SpecPaths(specs[k])[l];
      assert !Absorbs(specs, k, l, base, count);
      assert FreshWord(specs) !in other;
      if |base| < |other| <= |cp| {
        assert cp[..|other|][|base|] == values[0] && values[0] in values;
      } else if |other| <= |base| {
        assert cp[..|other|] == base[..|other|];
      }
    }
  }

  lemma FreshFlagsAreAccepted(specs: seq<Spec>, i: nat, j: nat, count: nat, values: seq<string>)
    requires Confusable(specs, i, j, count) && |values| == count && forall v <- values :: v == FreshWord(specs)
    ensures var r := FillPositionals(map[], specs[i].positionalArgs, values);
      forall f <- r :: FlagAccepted(FindCommandSpec(specs, specs[i].path).value, f, r[f])
  {
    hide FindCommandSpec, FlagKnown, FirstToTake, FreshWord;
    var names := specs[i].positionalArgs;
    var first := FindCommandSpec(specs, specs[i].path).value;
    FilledFlags(map[], names, values);
    var r := FillPositionals(map[], names, values);
    forall f | f in r ensures FlagAccepted(first, f, r[f]) {
      var m :| 0 <= m < count && names[..count][m] == f;
    }
  }

  lemma FreshIsAccepted(specs: seq<Spec>, i: nat, j: nat, count: nat, values: seq<string>)
    requires Confusable(specs, i, j, count) && |values| == count && forall v <- values :: v == FreshWord(specs)
    ensures var base := SpecPaths(specs[i])[j];
      BaseMatches(base, base + values, |specs[i].positionalArgs|) &&
      MixesUp(specs, Canonical(specs[i], base, ParsedArgs(base + values, map[], [])))
  {
    hide FindCommandSpec, FlagAccepted, FirstToTake, FreshWord;
    var base, names := SpecPaths(specs[i])[j], specs[i].positionalArgs;
    assert (base + values)[..|base|] == base && (base + values)[|base|..] == values;
    FreshFlagsAreAccepted(specs, i, j, count, values);
    NoConflictsExactly(names[..count], map[]);
    var n := Canonical(specs[i], base, ParsedArgs(base + values, map[], []));
    assert n == ParsedArgs(specs[i].path, FillPositionals(map[], names, values), []);
  }

  /** Words alone are parsed as the command path. */
  lemma WordsParse(argv: seq<string>, paths: seq<CommandPath>)
    requires forall w <- argv :: !IsFlag(w)
    ensures ParseFrom(argv, paths, 0, [], map[]) == ParsedArgs(argv, map[], [])
  {
    hide IsFlag;
    assert argv[0..0 + |argv|] == argv && [] + argv == argv;
    WordsArePushed(argv, paths, 0, argv, [], map[]);
  }

  lemma FreshMixesUp(specs: seq<Spec>, i: nat, j: nat, count: nat, argv: seq<string>)
    requires Confusable(specs, i, j, count) && argv == SpecPaths(specs[i])[j] + seq(count, _ => FreshWord(specs))
    ensures MixesUp(specs, Normalize(specs, ParsedArgs(argv, map[], []))) && forall w <- argv :: !IsFlag(w)
  {
    var values := seq(count, _ => FreshWord(specs));
    FreshIsTaken(specs, i, j, count, values);
    FreshIsAccepted(specs, i, j, count, values);
    hide MixesUp, Canonical, FirstToTake, FindCommandSpec, FlagKnown, IsFlag, Normalize, TakenAt, BaseMatches;
    NormalizeTakes(specs, ParsedArgs(argv, map[], []), i, j);
  }

  lemma ConfusableMixesUp(specs: seq<Spec>, paths: seq<CommandPath>, i: nat, j: nat, count: nat)
    requires Confusable(specs, i, j, count)
    ensures SomeArgvMixesUp(specs, paths)
  {
    var argv := SpecPaths(specs[i])[j] + seq(count, _ => FreshWord(specs));
    FreshMixesUp(specs, i, j, count, argv);
    WordsParse(argv, paths);
    hide Confusable, MixesUp, Normalize, IsFlag;
  }

  /**
   * The exact condition: for some argument list the flags are checked against one command and the
   * handler of another runs, if and only if the registry has a confusable path.
   */
  lemma MixedUpExactlyWhenConfusable(specs: seq<Spec>, paths: seq<CommandPath>)
    ensures SomeArgvMixesUp(specs, paths) <==> exists i, j, count :: Confusable(specs, i, j, count)
  {
    hide Confusable, MixesUp, Normalize;
    if SomeArgvMixesUp(specs, paths) {
      var argv: seq<string> :| MixesUp(specs, Normalize(specs, ParseFrom(argv, paths, 0, [], map[])));
      ParsedWords(argv, paths, 0, [], map[]);
      var i, j, count := MixUpIsConfusable(specs, ParseFrom(argv, paths, 0, [], map[]));
    }
    if exists i, j, count :: Confusable(specs, i, j, count) {
      var i, j, count :| Confusable(specs, i, j, count);
      ConfusableMixesUp(specs, paths, i, j, count);
    }
  }

  // ---- A simple sufficient condition, and an input ----

  /** No spec answers to another spec's canonical path. */
  ghost predicate Unambiguous(specs: seq<Spec>) {
    forall s <- specs, t <- specs :: t.path in SpecPaths(s) ==> s.path == t.path
  }

  lemma UnambiguousIsNotConfusable(specs: seq<Spec>, i: nat, j: nat, count: nat)
    requires Unambiguous(specs)
    ensures !Confusable(specs, i, j, count)
  {
    hide FirstToTake, FlagKnown, Considered;
  }

  /** Then the spec whose flags were validated is the one whose handler runs. */
  lemma ValidatedSpecIsDispatched(specs: seq<Spec>, parsed: ParsedArgs)
    requires Valid(specs, Normalize(specs, parsed)) && Unambiguous(specs)
    ensures var n := Normalize(specs, parsed); FindCommandSpec(specs, n.commandPath).value.path == n.commandPath
  {
    ValidIsCanonical(specs, parsed);
  }

  /** An input for which they do differ: `b v` is checked against the spec of `a` and dispatched to `b`. */
  lemma AmbiguousRegistryMixesUp()
    ensures var a := Spec(["a"], Some([["b"]]), false, false, ["x"], []);
      var b := Spec(["b"], None, false, false, [], ["x"]);
      var n := Normalize([a, b], ParsedArgs(["b", "v"], map[], []));
      Valid([a, b], n) && n.commandPath == b.path && FindCommandSpec([a, b], n.commandPath) == Some(a)
  {
    var a := Spec(["a"], Some([["b"]]), false, false, ["x"], []);
    var b := Spec(["b"], None, false, false, [], ["x"]);
    var parsed := ParsedArgs(["b", "v"], map[], []);
    assert SpecPaths(a) == [["a"], ["b"]] && SpecPaths(b) == [["b"]];
    assert !BaseMatches(["a"], ["b", "v"], 0) && !BaseMatches(["b"], ["b", "v"], 0);
    assert FirstBase([["b"]], ["b", "v"], 0) == None;
    assert FirstBase([["a"], ["b"]][1..], ["b", "v"], 0) == None;
    assert ["b", "v"][..1] == ["b"] && BaseMatches(["b"], ["b", "v"], 1);
    assert [a, b][1..] == [b];
    var n := Canonical(b, ["b"], parsed);
    assert ["b", "v"][1..] == ["v"];
    assert FillPositionals(map[], ["x"], ["v"]) == map["x" := Text("v")];
    assert ["x"][..1] == ["x"] && Filter(["x"], map[]) == [];
    assert n == ParsedArgs(["b"], map["x" := Text("v")], []);
    assert Normalize([a, b], parsed) == n;
    assert ["b"] in SpecPaths(a);
  }
}
