/**
 * Building a Windows command line from an argument list (native/windows-cli-launcher/
 * OrcaCliLauncher.cs), and the Microsoft C runtime's rules for taking it apart again.
 */
module Quoting {
  const QUOTE := '"'
  const BACKSLASH := '\\'

  /** Char.IsWhiteSpace of .NET. */
  predicate IsWhiteSpace(c: char) {
    || c in "\t\n\r " || c in ['\U{0B}', '\U{0C}', '\U{85}', '\U{A0}', '\U{1680}']
    || '\U{2000}' <= c <= '\U{200A}'
    || c in ['\U{2028}', '\U{2029}', '\U{202F}', '\U{205F}', '\U{3000}']
  }

  predicate NeedsQuotes(value: string) {
    value == "" || exists c <- value :: c == QUOTE || IsWhiteSpace(c)
  }

  function Backslashes(n: nat): string { seq(n, _ => BACKSLASH) }

  /** What is still to be written, closing quote included, when `pending` backslashes are held back. */
  function Rest(value: string, pending: nat): string {
    if value == "" then Backslashes(2 * pending) + [QUOTE]
    else if value[0] == BACKSLASH then Rest(value[1..], pending + 1)
    else if value[0] == QUOTE then Backslashes(2 * pending + 1) + [QUOTE] + Rest(value[1..], 0)
    else Backslashes(pending) + [value[0]] + Rest(value[1..], 0)
  }

  /** What one character other than a backslash adds to the output. */
  ghost function Step(c: char, pending: nat): string {
    Backslashes(if c == QUOTE then 2 * pending + 1 else pending) + [c]
  }

  lemma RestStep(written: string, value: string, pending: nat)
    requires value != ""
    ensures value[0] == BACKSLASH ==> Rest(value, pending) == Rest(value[1..], pending + 1)
    ensures value[0] != BACKSLASH ==>
              written + Rest(value, pending) == written + Step(value[0], pending) + Rest(value[1..], 0)
  {
  }

  lemma RestEnd(value: string, pending: nat)
    ensures Rest(value[|value|..], pending) == Backslashes(pending * 2) + [QUOTE]
  {
  }

  function Quote(value: string): string {
    if NeedsQuotes(value) then [QUOTE] + Rest(value, 0) else value
  }

  function Tail(args: seq<string>): string {
    if args == [] then "" else " " + Quote(args[0]) + Tail(args[1..])
  }

  function CommandLine(cliPath: string, args: seq<string>): string {
    Quote(cliPath) + Tail(args)
  }

  // ---- The code ----

  method QuoteArgument(value: string) returns (r: string)
    ensures r == Quote(value)
  {
    hide IsWhiteSpace, Rest;
    var requiresQuotes := |value| == 0;
    var index := 0;
    while index < |value| && !requiresQuotes
      invariant index <= |value|
      invariant requiresQuotes ==> NeedsQuotes(value)
      invariant !requiresQuotes ==> value != "" && forall k :: 0 <= k < index ==>
                  value[k] != QUOTE && !IsWhiteSpace(value[k])
      decreases |value| - index, !requiresQuotes
    {
      assert value[index] in value;
      requiresQuotes := value[index] == QUOTE || IsWhiteSpace(value[index]);
      index := index + 1;
    }
    if !requiresQuotes { return value; }

    var quoted := [QUOTE];
    var backslashCount := 0;
    assert value[0..] == value;
    for i := 0 to |value|
      invariant quoted + Rest(value[i..], backslashCount) == [QUOTE] + Rest(value, 0)
    {
      var character := value[i];
      assert value[i..][0] == character && value[i..][1..] == value[i + 1..];
      RestStep(quoted, value[i..], backslashCount);
      ghost var before, held := quoted, backslashCount;
      if character == BACKSLASH {
        backslashCount := backslashCount + 1;
        continue;
      }
      if character == QUOTE {
        quoted := quoted + Backslashes(backslashCount * 2 + 1);
        quoted := quoted + [QUOTE];
      } else {
        quoted := quoted + Backslashes(backslashCount);
        quoted := quoted + [character];
      }
      assert quoted == before + Step(character, held);
      backslashCount := 0;
    }
    RestEnd(value, backslashCount);
    assert quoted + (Backslashes(backslashCount * 2) + [QUOTE]) == quoted + Backslashes(backslashCount * 2) + [QUOTE];
    quoted := quoted + Backslashes(backslashCount * 2);
    quoted := quoted + [QUOTE];
    return quoted;
  }

  method BuildArguments(cliPath: string, args: seq<string>) returns (r: string)
    ensures r == CommandLine(cliPath, args)
  {
    r := QuoteArgument(cliPath);
    for i := 0 to |args|
      invariant r + Tail(args[i..]) == CommandLine(cliPath, args)
    {
      assert args[i..][0] == args[i] && args[i..][1..] == args[i + 1..];
      r := r + " ";
      var quoted := QuoteArgument(args[i]);
      r := r + quoted;
    }
  }

  // ---- The Microsoft C argv rules, for the arguments after the program name ----

  predicate IsBlank(c: char) { c == ' ' || c == '\t' }

  function SkipBlanks(s: string): (t: string)
    ensures |t| <= |s| && (t != "" ==> !IsBlank(t[0]))
  {
    if s != "" && IsBlank(s[0]) then SkipBlanks(s[1..]) else s
  }

  function LeadingBackslashes(s: string): (n: nat)
    ensures n <= |s| && (n < |s| ==> s[n] != BACKSLASH)
    ensures forall k :: 0 <= k < n ==> s[k] == BACKSLASH
  {
    if s != "" && s[0] == BACKSLASH then 1 + LeadingBackslashes(s[1..]) else 0
  }

  datatype Parsed = Parsed(arg: string, rest: string)

  function Emit(prefix: string, p: Parsed): Parsed { p.(arg := prefix + p.arg) }

  /**
   * One argument.  Before a quote, pairs of backslashes stand for one backslash each; an odd one
   * left over makes the quote literal; otherwise the quote opens or closes a quoted part, except
   * that two quotes in a row inside one stand for a quote.  Backslashes elsewhere are literal.
   */
  function ParseArg(s: string, inQuotes: bool): (p: Parsed)
    ensures |p.rest| <= |s| && (s != "" && !IsBlank(s[0]) ==> |p.rest| < |s|)
    decreases |s|
  {
    var n := LeadingBackslashes(s);
    var t := s[n..];
    if t != "" && t[0] == QUOTE then
      if n % 2 == 1 then Emit(Backslashes(n / 2) + [QUOTE], ParseArg(t[1..], inQuotes))
      else if inQuotes && |t| > 1 && t[1] == QUOTE then Emit(Backslashes(n / 2) + [QUOTE], ParseArg(t[2..], true))
      else Emit(Backslashes(n / 2), ParseArg(t[1..], !inQuotes))
    else if t == "" || (!inQuotes && IsBlank(t[0])) then Parsed(Backslashes(n), t)
    else Emit(Backslashes(n) + [t[0]], ParseArg(t[1..], inQuotes))
  }

  function ParseArgs(s: string): seq<string>
    decreases |s|
  {
    var t := SkipBlanks(s);
    if t == "" then []
    else
      var p := ParseArg(t, false);
      [p.arg] + ParseArgs(p.rest)
  }

  // ---- The round trip ----

  /** An argument ends at the end of the line or before a space. */
  predicate Ends(tail: string) { tail == "" || tail[0] == ' ' }

  lemma {:induction false} CountBackslashes(n: nat, s: string)
    requires s == "" || s[0] != BACKSLASH
    ensures LeadingBackslashes(Backslashes(n) + s) == n
    ensures (Backslashes(n) + s)[n..] == s
  {
    var all := Backslashes(n) + s;
    if n > 0 {
      assert all[1..] == Backslashes(n - 1) + s;
      CountBackslashes(n - 1, s);
    } else {
      assert all == s;
    }
  }

  // One parsing step for each way a quoted argument continues.

  lemma StepLiteralQuote(n: nat, after: string, inQuotes: bool)
    ensures ParseArg(Backslashes(2 * n + 1) + ([QUOTE] + after), inQuotes)
         == Emit(Backslashes(n) + [QUOTE], ParseArg(after, inQuotes))
  {
    var k := 2 * n + 1;
    assert k % 2 == 1 && k / 2 == n;
    CountBackslashes(k, [QUOTE] + after);
    assert ([QUOTE] + after)[1..] == after;
  }

  lemma StepOpen(after: string)
    ensures ParseArg([QUOTE] + after, false) == Emit(Backslashes(0), ParseArg(after, true))
  {
    CountBackslashes(0, [QUOTE] + after);
    assert Backslashes(0) + ([QUOTE] + after) == [QUOTE] + after;
    assert ([QUOTE] + after)[1..] == after;
  }

  lemma StepClose(n: nat, after: string)
    requires Ends(after)
    ensures ParseArg(Backslashes(2 * n) + ([QUOTE] + after), true) == Emit(Backslashes(n), ParseArg(after, false))
  {
    CountBackslashes(2 * n, [QUOTE] + after);
    assert ([QUOTE] + after)[1..] == after;
    assert 2 * n / 2 == n && 2 * n % 2 == 0;
    hide Backslashes, LeadingBackslashes, IsBlank;
  }

  lemma StepPlain(n: nat, c: char, after: string, inQuotes: bool)
    requires c != QUOTE && c != BACKSLASH && (inQuotes || !IsBlank(c))
    ensures ParseArg(Backslashes(n) + ([c] + after), inQuotes) == Emit(Backslashes(n) + [c], ParseArg(after, inQuotes))
  {
    CountBackslashes(n, [c] + after);
    assert ([c] + after)[1..] == after;
  }

  lemma StepStop(n: nat, tail: string)
    requires Ends(tail)
    ensures ParseArg(Backslashes(n) + tail, false) == Parsed(Backslashes(n), tail)
  {
    CountBackslashes(n, tail);
  }

  lemma {:induction false} ParseQuoted(value: string, pending: nat, tail: string)
    requires Ends(tail)
    ensures ParseArg(Rest(value, pending) + tail, true) == Parsed(Backslashes(pending) + value, tail)
    decreases |value|
  {
    hide ParseArg, Ends, Rest, Backslashes;
    if value == "" {
      ParseQuotedEnd(pending, tail);
    } else if value[0] == BACKSLASH {
      ParseQuoted(value[1..], pending + 1, tail);
      HoldBackslash(value, pending, tail);
    } else {
      ParseQuoted(value[1..], 0, tail);
      ParseQuotedStep(value, pending, tail);
    }
  }

  lemma ParseQuotedEnd(pending: nat, tail: string)
    requires Ends(tail)
    ensures ParseArg(Rest("", pending) + tail, true) == Parsed(Backslashes(pending) + "", tail)
  {
    hide ParseArg, Ends;
    assert Rest("", pending) + tail == Backslashes(2 * pending) + ([QUOTE] + tail);
    StepClose(pending, tail);
    StepStop(0, tail);
    assert Backslashes(0) + tail == tail;
    assert Backslashes(pending) + Backslashes(0) == Backslashes(pending) + "";
  }

  lemma HoldBackslash(value: string, pending: nat, tail: string)
    requires value != "" && value[0] == BACKSLASH
    ensures Rest(value, pending) == Rest(value[1..], pending + 1)
    ensures Backslashes(pending + 1) + value[1..] == Backslashes(pending) + value
  {
    assert value == [BACKSLASH] + value[1..];
  }

  lemma ParseQuotedStep(value: string, pending: nat, tail: string)
    requires value != "" && value[0] != BACKSLASH
    requires ParseArg(Rest(value[1..], 0) + tail, true) == Parsed(Backslashes(0) + value[1..], tail)
    ensures ParseArg(Rest(value, pending) + tail, true) == Parsed(Backslashes(pending) + value, tail)
  {
    hide ParseArg, Rest, Backslashes;
    var c, after := value[0], Rest(value[1..], 0) + tail;
    if c == QUOTE {
      QuotedQuote(value, pending, tail);
      StepLiteralQuote(pending, after, true);
    } else {
      QuotedPlain(value, pending, tail);
      StepPlain(pending, c, after, true);
    }
    PutTogether(value, pending);
  }

  lemma QuotedQuote(value: string, pending: nat, tail: string)
    requires value != "" && value[0] == QUOTE
    ensures Rest(value, pending) + tail == Backslashes(2 * pending + 1) + ([QUOTE] + (Rest(value[1..], 0) + tail))
  {
  }

  lemma QuotedPlain(value: string, pending: nat, tail: string)
    requires value != "" && value[0] != QUOTE && value[0] != BACKSLASH
    ensures Rest(value, pending) + tail == Backslashes(pending) + ([value[0]] + (Rest(value[1..], 0) + tail))
  {
  }

  lemma PutTogether(value: string, pending: nat)
    requires value != ""
    ensures Backslashes(pending) + [value[0]] + (Backslashes(0) + value[1..]) == Backslashes(pending) + value
  {
    assert value == [value[0]] + value[1..];
  }

  lemma BlankIsWhiteSpace(c: char)
    ensures IsBlank(c) ==> IsWhiteSpace(c)
  {
  }

  lemma {:induction false} ParsePlain(value: string, tail: string)
    requires Ends(tail) && forall c <- value :: c != QUOTE && !IsWhiteSpace(c)
    ensures ParseArg(value + tail, false) == Parsed(value, tail)
    decreases |value|
  {
    hide ParseArg, Ends, IsWhiteSpace, IsBlank;
    var n := LeadingBackslashes(value);
    assert value[..n] == Backslashes(n);
    if n == |value| {
      assert value == Backslashes(n);
      StepStop(n, tail);
    } else {
      var c, after := value[n], value[n + 1..];
      assert c in value;
      BlankIsWhiteSpace(c);
      assert forall x :: x in after ==> x in value;
      ParsePlain(after, tail);
      StepPlain(n, c, after + tail, false);
      Regroup(value, n, tail);
    }
  }

  lemma Regroup(value: string, n: nat, tail: string)
    requires n < |value| && value[..n] == Backslashes(n)
    ensures value + tail == Backslashes(n) + ([value[n]] + (value[n + 1..] + tail))
    ensures Backslashes(n) + [value[n]] + value[n + 1..] == value
  {
    hide Backslashes;
    var b := Backslashes(n);
    assert value == b + [value[n]] + value[n + 1..];
  }

  lemma ParseOne(value: string, tail: string)
    requires Ends(tail)
    ensures Quote(value) != "" && !IsBlank(Quote(value)[0])
    ensures ParseArg(Quote(value) + tail, false) == Parsed(value, tail)
  {
    hide ParseArg, Ends, Rest, IsWhiteSpace;
    if NeedsQuotes(value) {
      assert Quote(value) + tail == [QUOTE] + (Rest(value, 0) + tail);
      StepOpen(Rest(value, 0) + tail);
      ParseQuoted(value, 0, tail);
      assert Backslashes(0) + (Backslashes(0) + value) == value;
    } else {
      assert value[0] in value;
      BlankIsWhiteSpace(value[0]);
      ParsePlain(value, tail);
    }
  }

  /** The receiving program sees exactly the path and the arguments that were passed. */
  lemma {:induction false} RoundTrip(cliPath: string, args: seq<string>)
    ensures ParseArgs(CommandLine(cliPath, args)) == [cliPath] + args
    decreases |args|
  {
    hide ParseArg, Quote, IsBlank;
    var tail := Tail(args);
    ParseOne(cliPath, tail);
    var line := CommandLine(cliPath, args);
    assert line[0] == Quote(cliPath)[0];
    SkipNothing(line);
    assert ParseArgs(line) == [cliPath] + ParseArgs(tail);
    if args != [] {
      var next := CommandLine(args[0], args[1..]);
      assert tail == " " + next;
      RoundTrip(args[0], args[1..]);
      ParseOne(args[0], Tail(args[1..]));
      assert next[0] == Quote(args[0])[0];
      SkipOne(next);
    }
  }

  lemma SkipNothing(s: string)
    requires s != "" && !IsBlank(s[0])
    ensures SkipBlanks(s) == s
  {
  }

  lemma SkipOne(s: string)
    requires s != "" && !IsBlank(s[0])
    ensures ParseArgs(" " + s) == ParseArgs(s)
  {
    SkipNothing(s);
    assert (" " + s)[1..] == s;
    assert SkipBlanks(" " + s) == s;
  }

  /** So different argument lists never produce the same command line. */
  lemma CommandLinesAreDistinct(p: string, a: seq<string>, q: string, b: seq<string>)
    requires CommandLine(p, a) == CommandLine(q, b)
    ensures p == q && a == b
  {
    RoundTrip(p, a);
    RoundTrip(q, b);
    assert ([p] + a)[1..] == a && ([q] + b)[1..] == b;
  }
}
