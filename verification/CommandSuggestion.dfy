/**
 * "Did you mean" for a mistyped command (src/cli/command-suggestion.ts): which commands are offered, in which order,
 * and when a destructive one may be among them.
 */
module CommandSuggestion {
  import opened CliArgs
  import EditDistance

  const SUGGESTION_THRESHOLD := 3
  const MAX_SUGGESTIONS := 3
  const DESTRUCTIVE_INTENT_THRESHOLD := 1

  datatype Scored = Scored(name: string, distance: nat)

  /** The runtime's locale-aware string comparison: negative, zero or positive. */
  type Collation = (string, string) -> int

  ghost predicate Consistent(compare: Collation) {
    && (forall a, b :: compare(a, b) < 0 <==> compare(b, a) > 0)
    && (forall a, b, c :: compare(a, b) <= 0 && compare(b, c) <= 0 ==> compare(a, c) <= 0)
  }

  function FinalToken(path: CommandPath): string { if path == [] then "" else path[|path| - 1] }

  // ---- Ranking ----

  predicate Near(entry: Scored) { 0 < entry.distance <= SUGGESTION_THRESHOLD }

  function NearOnes(scored: seq<Scored>): (r: seq<Scored>)
    ensures forall e :: e in r <==> e in scored && Near(e)
  {
    if scored == [] then []
    else (if Near(scored[0]) then [scored[0]] else []) + NearOnes(scored[1..])
  }

  predicate Before(compare: Collation, a: Scored, b: Scored) {
    a.distance < b.distance || (a.distance == b.distance && compare(a.name, b.name) < 0)
  }

  /** In front of the first entry that it does not come after. */
  function Insert(compare: Collation, e: Scored, s: seq<Scored>): seq<Scored> {
    if s == [] || !Before(compare, s[0], e) then [e] + s else [s[0]] + Insert(compare, e, s[1..])
  }

  /** The stable sort. */
  function Sort(compare: Collation, s: seq<Scored>): seq<Scored> {
    if s == [] then [] else Insert(compare, s[0], Sort(compare, s[1..]))
  }

  function Labels(s: seq<Scored>): (r: seq<string>)
    ensures |r| == |s| && forall i :: 0 <= i < |s| ==> r[i] == s[i].name
  {
    if s == [] then [] else [s[0].name] + Labels(s[1..])
  }

  function FirstFew(s: seq<Scored>): seq<Scored> { if |s| <= MAX_SUGGESTIONS then s else s[..MAX_SUGGESTIONS] }

  function RankByDistance(compare: Collation, scored: seq<Scored>): seq<string> {
    var sorted := Sort(compare, NearOnes(scored));
    Labels(FirstFew(sorted))
  }

  // ---- What is ranked ----

  /** The last word of a path of the command, its own or an alias. */
  ghost predicate EndsWith(spec: Spec, verb: string) {
    exists path :: AnswersTo(spec, path) && verb == if path == [] then "" else path[|path| - 1]
  }

  ghost predicate IsDestructiveVerb(specs: seq<Spec>, verb: string) {
    exists k :: 0 <= k < |specs| && specs[k].destructive && EndsWith(specs[k], verb)
  }

  lemma EndsWithExactly(spec: Spec, verb: string)
    ensures EndsWith(spec, verb) <==> exists p <- SpecPaths(spec) :: FinalToken(p) == verb
  {
    assert forall p :: AnswersTo(spec, p) <==> p in SpecPaths(spec);
    if p :| p in SpecPaths(spec) && FinalToken(p) == verb { assert AnswersTo(spec, p); }
    if EndsWith(spec, verb) {
      var path :| AnswersTo(spec, path) && verb == if path == [] then "" else path[|path| - 1];
      assert path in SpecPaths(spec) && FinalToken(path) == verb;
    }
  }

  ghost predicate IntendsDestruction(specs: seq<Spec>, inputToken: string) {
    exists verb ::
      IsDestructiveVerb(specs, verb) && EditDistance.Distance(inputToken, verb) <= 1
  }

  /** A one-word command is compared with groups too. */
  function Candidate(path: CommandPath, depth: nat): CommandPath {
    if depth == 1 && path != [] then path[..1] else path
  }

  function LabelsOf(paths: seq<CommandPath>, depth: nat): seq<string> {
    if paths == [] then []
    else
      (if |Candidate(paths[0], depth)| == depth then [Join(Candidate(paths[0], depth))] else [])
      + LabelsOf(paths[1..], depth)
  }

  function AllLabels(specs: seq<Spec>, depth: nat, allowDestructive: bool): seq<string> {
    if specs == [] then []
    else
      (if specs[0].destructive && !allowDestructive then [] else LabelsOf(SpecPaths(specs[0]), depth))
      + AllLabels(specs[1..], depth, allowDestructive)
  }

  /** The first occurrence of each label, with its distance. */
  function Score(input: string, labels: seq<string>): seq<Scored> {
    if labels == [] then []
    else
      var before, name := labels[..|labels| - 1], labels[|labels| - 1];
      Score(input, before) + if name in before then [] else [Scored(name, EditDistance.Distance(input, name))]
  }

  ghost function Suggested(compare: Collation, specs: seq<Spec>, commandPath: CommandPath): seq<string> {
    var allowDestructive := IntendsDestruction(specs, FinalToken(commandPath));
    RankByDistance(compare, Score(Join(commandPath), AllLabels(specs, |commandPath|, allowDestructive)))
  }

  // ---- The code ----

  method DestructiveVerbs(specs: seq<Spec>) returns (verbs: set<string>)
    ensures forall verb :: verb in verbs <==> IsDestructiveVerb(specs, verb)
  {
    verbs := {};
    for i := 0 to |specs|
      invariant forall verb :: verb in verbs <==> IsDestructiveVerb(specs[..i], verb)
    {
      VerbsOfOneMore(specs, i);
      hide IsDestructiveVerb;
      if specs[i].destructive { verbs := AddFinalTokens(verbs, SpecPaths(specs[i])); }
    }
    assert specs[..|specs|] == specs;
  }

  /** The inner loop: one command's verbs. */
  method AddFinalTokens(before: set<string>, paths: seq<CommandPath>) returns (verbs: set<string>)
    ensures forall verb :: verb in verbs <==> verb in before || exists p <- paths :: FinalToken(p) == verb
  {
    hide FinalToken;
    verbs := before;
    for j := 0 to |paths|
      invariant forall verb :: verb in verbs <==> verb in before || exists p <- paths[..j] :: FinalToken(p) == verb
    {
      assert paths[..j + 1] == paths[..j] + [paths[j]];
      verbs := verbs + {FinalToken(paths[j])};
    }
    assert paths[..|paths|] == paths;
  }

  method MeansDestruction(inputToken: string, verbs: set<string>) returns (found: bool)
    ensures found <==> exists verb <- verbs :: EditDistance.Distance(inputToken, verb) <= DESTRUCTIVE_INTENT_THRESHOLD
  {
    var rest := verbs;
    while rest != {}
      invariant rest <= verbs
      invariant forall verb <- verbs - rest :: EditDistance.Distance(inputToken, verb) > DESTRUCTIVE_INTENT_THRESHOLD
    {
      var verb :| verb in rest;
      var distance := EditDistance.Levenshtein(inputToken, verb);
      if distance <= DESTRUCTIVE_INTENT_THRESHOLD { return true; }
      rest := rest - {verb};
    }
    return false;
  }

  method SuggestCommands(compare: Collation, specs: seq<Spec>, commandPath: CommandPath)
    returns (suggestions: seq<string>)
    ensures suggestions == Suggested(compare, specs, commandPath)
  {
    hide Join, IsDestructiveVerb, RankByDistance, SpecPaths, IntendsDestruction, Score, LabelsOf, FinalToken;
    var input := Join(commandPath);
    var verbs := DestructiveVerbs(specs);
    var allowDestructive := MeansDestruction(FinalToken(commandPath), verbs);
    VerbsTellIntent(specs, FinalToken(commandPath), verbs);
    var seen: set<string> := {};
    var scored: seq<Scored> := [];
    NothingScored(input);
    ghost var labels: seq<string> := [];
    for i := 0 to |specs|
      invariant labels + AllLabels(specs[i..], |commandPath|, allowDestructive) ==
                  AllLabels(specs, |commandPath|, allowDestructive)
      invariant scored == Score(input, labels) && forall name :: name in seen <==> name in labels
    {
      if specs[i].destructive && !allowDestructive { continue; }
      ghost var was := labels;
      seen, scored, labels := AddCandidates(input, SpecPaths(specs[i]), |commandPath|, seen, scored, labels);
      assert specs[i..][1..] == specs[i + 1..];
      Regroup(was, LabelsOf(SpecPaths(specs[i]), |commandPath|),
        AllLabels(specs[i + 1..], |commandPath|, allowDestructive));
    }
    assert labels + [] == labels;
    suggestions := RankByDistance(compare, scored);
  }

  /** The inner loop: the candidates of one specification that were not seen before. */
  method AddCandidates(input: string, paths: seq<CommandPath>, depth: nat, seenBefore: set<string>,
                       scoredBefore: seq<Scored>, ghost labelsBefore: seq<string>)
    returns (seen: set<string>, scored: seq<Scored>, ghost labels: seq<string>)
    requires scoredBefore == Score(input, labelsBefore) && forall name :: name in seenBefore <==> name in labelsBefore
    ensures scored == Score(input, labels) && forall name :: name in seen <==> name in labels
    ensures labels == labelsBefore + LabelsOf(paths, depth)
  {
    hide Join;
    seen, scored, labels := seenBefore, scoredBefore, labelsBefore;
    for j := 0 to |paths|
      invariant labels + LabelsOf(paths[j..], depth) == labelsBefore + LabelsOf(paths, depth)
      invariant scored == Score(input, labels) && forall name :: name in seen <==> name in labels
    {
      var candidate := Candidate(paths[j], depth);
      assert paths[j..][1..] == paths[j + 1..];
      if |candidate| != depth { continue; }
      var joined := Join(candidate);
      Regroup(labels, [joined], LabelsOf(paths[j + 1..], depth));
      assert (labels + [joined])[..|labels|] == labels;
      labels := labels + [joined];
      if joined in seen { continue; }
      seen := seen + {joined};
      var distance := EditDistance.Levenshtein(input, joined);
      scored := scored + [Scored(joined, distance)];
    }
  }

  lemma NothingScored(input: string)
    ensures Score(input, []) == []
  {
  }

  lemma VerbsTellIntent(specs: seq<Spec>, inputToken: string, verbs: set<string>)
    requires forall verb :: verb in verbs <==> IsDestructiveVerb(specs, verb)
    ensures IntendsDestruction(specs, inputToken) <==>
              exists verb <- verbs :: EditDistance.Distance(inputToken, verb) <= DESTRUCTIVE_INTENT_THRESHOLD
  {
    hide IsDestructiveVerb;
  }

  lemma Regroup(a: seq<string>, b: seq<string>, c: seq<string>)
    ensures (a + b) + c == a + (b + c)
  {
  }

  lemma VerbsOfOneMore(specs: seq<Spec>, i: nat)
    requires i < |specs|
    ensures forall verb :: IsDestructiveVerb(specs[..i + 1], verb) <==>
              IsDestructiveVerb(specs[..i], verb) ||
              (specs[i].destructive && exists p <- SpecPaths(specs[i]) :: FinalToken(p) == verb)
  {
    hide SpecPaths, FinalToken, EndsWith;
    var more := specs[..i + 1];
    assert forall k :: 0 <= k < i ==> more[k] == specs[..i][k];
    assert more[i] == specs[i];
    forall verb
      ensures EndsWith(specs[i], verb) <==> exists p <- SpecPaths(specs[i]) :: FinalToken(p) == verb
    {
      EndsWithExactly(specs[i], verb);
    }
    forall verb | IsDestructiveVerb(more, verb)
      ensures IsDestructiveVerb(specs[..i], verb) || (specs[i].destructive && EndsWith(specs[i], verb))
    {
      var k :| 0 <= k < |more| && more[k].destructive && EndsWith(more[k], verb);
      if k < i { assert specs[..i][k].destructive; }
    }
    forall verb | IsDestructiveVerb(specs[..i], verb)
      ensures IsDestructiveVerb(more, verb)
    {
      var k :| 0 <= k < i && specs[..i][k].destructive && EndsWith(specs[..i][k], verb);
      assert more[k].destructive;
    }
  }

  // ---- What ranking does ----

  predicate DistinctNames(s: seq<Scored>) { forall i, j :: 0 <= i < j < |s| ==> s[i].name != s[j].name }

  predicate Ordered(compare: Collation, s: seq<Scored>) {
    forall i, j :: 0 <= i < j < |s| ==> !Before(compare, s[j], s[i])
  }

  lemma NotAfterIsTransitive(compare: Collation, a: Scored, b: Scored, c: Scored)
    requires Consistent(compare) && !Before(compare, b, a) && !Before(compare, c, b)
    ensures !Before(compare, c, a)
  {
    assert compare(b.name, a.name) < 0 <==> compare(a.name, b.name) > 0;
    assert compare(c.name, b.name) < 0 <==> compare(b.name, c.name) > 0;
    assert compare(c.name, a.name) < 0 <==> compare(a.name, c.name) > 0;
  }

  lemma BeforeIsOneWay(compare: Collation, a: Scored, b: Scored)
    requires Consistent(compare) && Before(compare, a, b)
    ensures !Before(compare, b, a)
  {
    assert compare(a.name, b.name) < 0 <==> compare(b.name, a.name) > 0;
  }

  lemma {:induction false} InsertKeeps(compare: Collation, e: Scored, s: seq<Scored>)
    ensures |Insert(compare, e, s)| == |s| + 1
    ensures forall x :: x in Insert(compare, e, s) <==> x == e || x in s
    ensures DistinctNames(s) && (forall i :: 0 <= i < |s| ==> s[i].name != e.name) ==>
              DistinctNames(Insert(compare, e, s))
  {
    hide Before;
    if s != [] && Before(compare, s[0], e) {
      InsertKeeps(compare, e, s[1..]);
      assert forall x :: x in s <==> x == s[0] || x in s[1..];
      var r := Insert(compare, e, s[1..]);
      if DistinctNames(s) && forall i :: 0 <= i < |s| ==> s[i].name != e.name {
        assert DistinctNames(s[1..]);
        forall j | 0 <= j < |r| ensures r[j].name != s[0].name { assert r[j] in r; }
      }
    }
  }

  lemma {:induction false} InsertOrders(compare: Collation, e: Scored, s: seq<Scored>)
    requires Consistent(compare) && Ordered(compare, s)
    ensures Ordered(compare, Insert(compare, e, s))
  {
    hide Before, Consistent;
    if s == [] {
    } else if !Before(compare, s[0], e) {
      forall j | 0 < j < |s| ensures !Before(compare, s[j], e) { NotAfterIsTransitive(compare, e, s[0], s[j]); }
    } else {
      assert Ordered(compare, s[1..]);
      InsertOrders(compare, e, s[1..]);
      InsertKeeps(compare, e, s[1..]);
      BeforeIsOneWay(compare, s[0], e);
      var r := Insert(compare, e, s[1..]);
      forall j | 0 <= j < |r| ensures !Before(compare, r[j], s[0]) { assert r[j] in r; }
    }
  }

  /** The sort orders its entries and loses none. */
  lemma {:induction false} SortSorts(compare: Collation, s: seq<Scored>)
    requires Consistent(compare)
    ensures Ordered(compare, Sort(compare, s)) && |Sort(compare, s)| == |s|
    ensures forall x :: x in Sort(compare, s) <==> x in s
    ensures DistinctNames(s) ==> DistinctNames(Sort(compare, s))
  {
    hide Before, Consistent, Insert;
    if s != [] {
      SortSorts(compare, s[1..]);
      var t := Sort(compare, s[1..]);
      InsertKeeps(compare, s[0], t);
      InsertOrders(compare, s[0], t);
      assert forall x :: x in s <==> x == s[0] || x in s[1..];
      if DistinctNames(s) {
        assert DistinctNames(s[1..]);
        forall i | 0 <= i < |t| ensures t[i].name != s[0].name { assert t[i] in t; }
      }
    }
  }

  lemma {:induction false} NearOnesStayDistinct(s: seq<Scored>)
    requires DistinctNames(s)
    ensures DistinctNames(NearOnes(s))
  {
    if s != [] {
      assert DistinctNames(s[1..]);
      NearOnesStayDistinct(s[1..]);
      var r := NearOnes(s[1..]);
      forall j | 0 <= j < |r| ensures r[j].name != s[0].name { assert r[j] in r; }
    }
  }

  lemma {:induction false} ScoreMeaning(input: string, names: seq<string>)
    ensures forall e :: e in Score(input, names) <==>
              e.name in names && e.distance == EditDistance.Distance(input, e.name)
    ensures DistinctNames(Score(input, names))
  {
    hide EditDistance.Distance;
    if names != [] {
      var before, name := names[..|names| - 1], names[|names| - 1];
      ScoreMeaning(input, before);
      assert names == before + [name];
      var r := Score(input, before);
      if name !in before {
        forall j | 0 <= j < |r| ensures r[j].name != name { assert r[j] in r; }
      }
    }
  }

  // ---- What is suggested ----

  /** A one-word input is compared with first words, a longer one with whole paths of its length. */
  ghost predicate Offers(spec: Spec, depth: nat, name: string) {
    exists path :: AnswersTo(spec, path) &&
      if depth == 1 then path != [] && name == path[0] else |path| == depth && name == Join(path)
  }

  /** Some specification that may be offered offers the name. */
  ghost predicate IsCandidate(specs: seq<Spec>, depth: nat, allowDestructive: bool, name: string) {
    exists k :: 0 <= k < |specs| && (!specs[k].destructive || allowDestructive) && Offers(specs[k], depth, name)
  }

  lemma OffersExactly(spec: Spec, depth: nat, name: string)
    ensures Offers(spec, depth, name) <==>
              exists p <- SpecPaths(spec) :: |Candidate(p, depth)| == depth && Join(Candidate(p, depth)) == name
  {
    assert forall p :: AnswersTo(spec, p) <==> p in SpecPaths(spec);
    assert forall p: CommandPath :: |p| == 1 ==> Join(p) == p[0];
    if p :| p in SpecPaths(spec) && |Candidate(p, depth)| == depth && Join(Candidate(p, depth)) == name {
      assert AnswersTo(spec, p);
      assert depth == 1 ==> p[..1][0] == p[0];
    }
    if Offers(spec, depth, name) {
      var path :| AnswersTo(spec, path) &&
        if depth == 1 then path != [] && name == path[0] else |path| == depth && name == Join(path);
      assert path in SpecPaths(spec) && |Candidate(path, depth)| == depth && Join(Candidate(path, depth)) == name;
    }
  }

  lemma {:induction false} LabelsOfMeaning(paths: seq<CommandPath>, depth: nat)
    ensures forall name :: name in LabelsOf(paths, depth) <==>
              exists p <- paths :: |Candidate(p, depth)| == depth && Join(Candidate(p, depth)) == name
  {
    hide Join, Candidate;
    if paths != [] {
      LabelsOfMeaning(paths[1..], depth);
      assert forall p :: p in paths <==> p == paths[0] || p in paths[1..];
    }
  }

  lemma {:induction false} AllLabelsMeaning(specs: seq<Spec>, depth: nat, allowDestructive: bool, name: string)
    ensures name in AllLabels(specs, depth, allowDestructive) <==> IsCandidate(specs, depth, allowDestructive, name)
  {
    hide Join, Candidate, SpecPaths, Offers;
    if specs != [] {
      var rest := specs[1..];
      AllLabelsMeaning(rest, depth, allowDestructive, name);
      LabelsOfMeaning(SpecPaths(specs[0]), depth);
      OffersExactly(specs[0], depth, name);
      if IsCandidate(rest, depth, allowDestructive, name) {
        var k :| 0 <= k < |rest| && (!rest[k].destructive || allowDestructive) && Offers(rest[k], depth, name);
        assert specs[k + 1] == rest[k];
      }
      if IsCandidate(specs, depth, allowDestructive, name) {
        var k :| 0 <= k < |specs| && (!specs[k].destructive || allowDestructive) && Offers(specs[k], depth, name);
        if k > 0 { assert rest[k - 1] == specs[k]; }
      }
    }
  }

  /**
   * A name that may be offered: a near miss of a candidate, destructive ones only if the last word is a near
   * miss of a destructive verb.
   */
  ghost predicate Eligible(specs: seq<Spec>, commandPath: CommandPath, name: string) {
    && IsCandidate(specs, |commandPath|, IntendsDestruction(specs, FinalToken(commandPath)), name)
    && 0 < EditDistance.Distance(Join(commandPath), name) <= 3
  }

  /** `a` is as close to the input as `b`, or closer; of two equally close names the first in collation order. */
  ghost predicate NoFarther(compare: Collation, input: string, a: string, b: string) {
    var x, y := EditDistance.Distance(input, a), EditDistance.Distance(input, b);
    x <= y && (x == y ==> compare(a, b) <= 0)
  }

  lemma NotBeforeIsNoFarther(compare: Collation, input: string, a: string, b: string)
    requires Consistent(compare)
    requires !Before(compare, Scored(b, EditDistance.Distance(input, b)), Scored(a, EditDistance.Distance(input, a)))
    ensures NoFarther(compare, input, a, b)
  {
    hide EditDistance.Distance;
    assert compare(b, a) < 0 <==> compare(a, b) > 0;
  }

  /**
   * What is suggested: different eligible names, closest first, and only for want of room is an eligible one
   * left out.
   */
  ghost predicate NearestFew(compare: Collation, specs: seq<Spec>, commandPath: CommandPath, r: seq<string>) {
    var input := Join(commandPath);
    && |r| <= 3
    && (forall i :: 0 <= i < |r| ==> Eligible(specs, commandPath, r[i]))
    && (forall i, j :: 0 <= i < j < |r| ==> r[i] != r[j] && NoFarther(compare, input, r[i], r[j]))
    && (forall name :: Eligible(specs, commandPath, name) && name !in r ==>
          |r| == 3 && forall i :: 0 <= i < |r| ==> NoFarther(compare, input, r[i], name))
  }

  lemma RankedEntries(compare: Collation, scored: seq<Scored>) returns (sorted: seq<Scored>)
    requires Consistent(compare) && DistinctNames(scored)
    ensures Ordered(compare, sorted) && DistinctNames(sorted) && forall e :: e in sorted <==> e in scored && Near(e)
    ensures RankByDistance(compare, scored) == Labels(FirstFew(sorted))
  {
    hide Before, Consistent, Near;
    NearOnesStayDistinct(scored);
    SortSorts(compare, NearOnes(scored));
    sorted := Sort(compare, NearOnes(scored));
  }

  lemma EligibleEntries(specs: seq<Spec>, commandPath: CommandPath, scored: seq<Scored>, e: Scored)
    requires scored == Score(Join(commandPath),
      AllLabels(specs, |commandPath|, IntendsDestruction(specs, FinalToken(commandPath))))
    ensures e in scored && Near(e) <==>
              Eligible(specs, commandPath, e.name) && e.distance == EditDistance.Distance(Join(commandPath), e.name)
  {
    hide IsCandidate, AllLabels, IntendsDestruction, Join, FinalToken, EditDistance.Distance;
    var allowed := IntendsDestruction(specs, FinalToken(commandPath));
    ScoreMeaning(Join(commandPath), AllLabels(specs, |commandPath|, allowed));
    AllLabelsMeaning(specs, |commandPath|, allowed, e.name);
  }

  /** The entries are the eligible names, with their distances. */
  ghost predicate ListsEligible(specs: seq<Spec>, commandPath: CommandPath, entries: seq<Scored>) {
    forall e :: e in entries <==>
      Eligible(specs, commandPath, e.name) && e.distance == EditDistance.Distance(Join(commandPath), e.name)
  }

  /** The names of the first few of the eligible entries, in their order. */
  ghost predicate TakenFrom(compare: Collation, specs: seq<Spec>, commandPath: CommandPath, sorted: seq<Scored>,
                            r: seq<string>)
  {
    && ListsEligible(specs, commandPath, sorted) && Ordered(compare, sorted) && DistinctNames(sorted)
    && |r| == (if |sorted| <= MAX_SUGGESTIONS then |sorted| else MAX_SUGGESTIONS)
    && forall i :: 0 <= i < |r| ==> r[i] == sorted[i].name
  }

  lemma TakenEntry(compare: Collation, specs: seq<Spec>, commandPath: CommandPath, sorted: seq<Scored>, r: seq<string>,
                   i: nat)
    requires TakenFrom(compare, specs, commandPath, sorted, r) && i < |r|
    ensures sorted[i] == Scored(r[i], EditDistance.Distance(Join(commandPath), r[i])) &&
              Eligible(specs, commandPath, r[i])
  {
    hide Join, EditDistance.Distance, Eligible;
    assert sorted[i] in sorted;
  }

  lemma TakenPair(compare: Collation, specs: seq<Spec>, commandPath: CommandPath, sorted: seq<Scored>, r: seq<string>,
                  i: nat, j: nat)
    requires Consistent(compare)
    requires TakenFrom(compare, specs, commandPath, sorted, r) && i < j < |r|
    ensures r[i] != r[j] && NoFarther(compare, Join(commandPath), r[i], r[j])
  {
    hide Join, EditDistance.Distance, Eligible, Before, NoFarther, Consistent;
    TakenEntry(compare, specs, commandPath, sorted, r, i);
    TakenEntry(compare, specs, commandPath, sorted, r, j);
    NotBeforeIsNoFarther(compare, Join(commandPath), r[i], r[j]);
  }

  lemma LeftOutEntry(compare: Collation, specs: seq<Spec>, commandPath: CommandPath, sorted: seq<Scored>,
                     r: seq<string>, name: string)
    requires Consistent(compare)
    requires TakenFrom(compare, specs, commandPath, sorted, r) && Eligible(specs, commandPath, name) && name !in r
    ensures |r| == MAX_SUGGESTIONS
    ensures forall i :: 0 <= i < |r| ==> NoFarther(compare, Join(commandPath), r[i], name)
  {
    hide Join, EditDistance.Distance, Eligible, Before, NoFarther, Consistent;
    var e := Scored(name, EditDistance.Distance(Join(commandPath), name));
    assert e in sorted;
    var k :| 0 <= k < |sorted| && sorted[k] == e;
    assert forall i :: 0 <= i < |r| ==> r[i] in r;
    forall i | 0 <= i < |r|
      ensures NoFarther(compare, Join(commandPath), r[i], name)
    {
      TakenEntry(compare, specs, commandPath, sorted, r, i);
      NotBeforeIsNoFarther(compare, Join(commandPath), r[i], name);
    }
  }

  lemma TakenAreNearest(compare: Collation, specs: seq<Spec>, commandPath: CommandPath, sorted: seq<Scored>,
                        r: seq<string>)
    requires Consistent(compare)
    requires TakenFrom(compare, specs, commandPath, sorted, r)
    ensures |r| <= MAX_SUGGESTIONS && forall i :: 0 <= i < |r| ==> Eligible(specs, commandPath, r[i])
    ensures forall i, j :: 0 <= i < j < |r| ==> r[i] != r[j] && NoFarther(compare, Join(commandPath), r[i], r[j])
  {
    assert |r| <= MAX_SUGGESTIONS;
    hide Join, Eligible, NoFarther, TakenFrom;
    forall i | 0 <= i < |r|
      ensures Eligible(specs, commandPath, r[i])
    {
      TakenEntry(compare, specs, commandPath, sorted, r, i);
    }
    forall i, j | 0 <= i < j < |r|
      ensures r[i] != r[j] && NoFarther(compare, Join(commandPath), r[i], r[j])
    {
      TakenPair(compare, specs, commandPath, sorted, r, i, j);
    }
  }

  lemma LeftOutAreFarther(compare: Collation, specs: seq<Spec>, commandPath: CommandPath, sorted: seq<Scored>,
                          r: seq<string>)
    requires Consistent(compare) && TakenFrom(compare, specs, commandPath, sorted, r)
    ensures forall name :: Eligible(specs, commandPath, name) && name !in r ==>
              |r| == 3 && forall i :: 0 <= i < |r| ==> NoFarther(compare, Join(commandPath), r[i], name)
  {
    hide Join, Eligible, NoFarther, TakenFrom, Consistent;
    forall name | Eligible(specs, commandPath, name) && name !in r
      ensures |r| == 3 && forall i :: 0 <= i < |r| ==> NoFarther(compare, Join(commandPath), r[i], name)
    {
      LeftOutEntry(compare, specs, commandPath, sorted, r, name);
    }
  }

  lemma SuggestionsAreTheNearest(compare: Collation, specs: seq<Spec>, commandPath: CommandPath)
    requires Consistent(compare)
    ensures NearestFew(compare, specs, commandPath, Suggested(compare, specs, commandPath))
  {
    var sorted := SortedEligible(compare, specs, commandPath);
    var r := Suggested(compare, specs, commandPath);
    hide Join, Eligible, NoFarther, TakenFrom, Suggested, Consistent;
    TakenAreNearest(compare, specs, commandPath, sorted, r);
    LeftOutAreFarther(compare, specs, commandPath, sorted, r);
  }

  lemma SortedEligible(compare: Collation, specs: seq<Spec>, commandPath: CommandPath) returns (sorted: seq<Scored>)
    requires Consistent(compare)
    ensures TakenFrom(compare, specs, commandPath, sorted, Suggested(compare, specs, commandPath))
  {
    hide AllLabels, IntendsDestruction, Join, FinalToken, EditDistance.Distance, Eligible, Before, Consistent, Score,
      RankByDistance, IsCandidate, Ordered, DistinctNames;
    var allowed := IntendsDestruction(specs, FinalToken(commandPath));
    var labels := AllLabels(specs, |commandPath|, allowed);
    var scored := Score(Join(commandPath), labels);
    ScoreMeaning(Join(commandPath), labels);
    sorted := RankedEntries(compare, scored);
    forall e
      ensures e in sorted <==>
                Eligible(specs, commandPath, e.name) && e.distance == EditDistance.Distance(Join(commandPath), e.name)
    {
      EligibleEntries(specs, commandPath, scored, e);
    }
  }

  /**
   * Whatever is offered comes from a harmless command, unless the last word typed is a near miss of a
   * destructive verb.
   */
  lemma HarmlessUnlessIntended(compare: Collation, specs: seq<Spec>, commandPath: CommandPath, name: string)
    requires Consistent(compare) && name in Suggested(compare, specs, commandPath)
    requires forall verb :: IsDestructiveVerb(specs, verb) ==> EditDistance.Distance(FinalToken(commandPath), verb) > 1
    ensures IsCandidate(specs, |commandPath|, false, name)
  {
    hide IsDestructiveVerb, Join, FinalToken, EditDistance.Distance, Suggested, Candidate, SpecPaths;
    SuggestionsAreTheNearest(compare, specs, commandPath);
    assert Eligible(specs, commandPath, name);
    assert !IntendsDestruction(specs, FinalToken(commandPath));
  }
}
