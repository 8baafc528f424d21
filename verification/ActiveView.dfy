/**
 * The remembered top-level view (src/main/active-view-preference.ts): debounced, chained
 * asynchronous writes race a synchronous flush, and a generation counter decides who may rename.
 *
 * Every point where other code can run is one `Action`; `Next` is what it does to the state.
 * Timers fire, file operations finish or fail, and flushes happen in any order.
 */
module ActiveView {
  import opened Options

  datatype View =
    | Terminal | Settings | Tasks | Activity | Automations | Space | Skills | Mobile | Brain | Store | Portfolio

  /** A file's bytes: a serialized view, or anything that does not parse as one. */
  datatype Bytes = Json(view: View) | Broken

  /** How far one `writeAsync` has come.  Between any two phases other code may run. */
  datatype Phase =
    | Waiting    // for the write that was pending when its timer fired, if there was one
    | MakingDir  // mkdir in flight
    | WritingTmp // writeFile in flight
    | TmpWritten // writeFile done, continuation not yet run
    | Removing   // rm of the temporary file in flight
    | Settled    // writeAsync resolved or rejected
    | Finished   // its `catch` and `finally` have run

  /** `previous` is the write whose promise this one is chained to. */
  datatype Write = Write(view: View, generation: nat, previous: Option<nat>, phase: Phase)

  /** One successful rename onto the file; `writer` is None for a flush. */
  datatype Publication = Publication(generation: nat, view: View, writer: Option<nat>)

  datatype State = State(
    activeView: View,
    persisted: Option<View>,
    timer: bool,
    pending: Option<nat>,       // index into writes
    generation: nat,
    writes: seq<Write>,         // in the order their timers fired
    disk: Option<Bytes>,
    tmp: map<nat, Bytes>,       // temporary files, by the generation in their name
    // history, for stating properties
    touched: bool,              // a set or flush happened
    failures: set<nat>,         // the generations of the writes and flushes that failed
    tmpNames: seq<nat>,         // every temporary name ever used
    published: seq<Publication>)

  datatype FlushOutcome = FlushOk | MkdirThrows | WriteThrows | RenameThrows

  datatype Action =
    | SetView(value: Option<View>)      // None: the value is not a view
    | Fire                              // the debounce timer
    | Advance(write: nat, ok: bool)     // the write's operation in flight finishes
    | Flush(outcome: FlushOutcome)

  function ReadView(file: Option<Bytes>): Option<View> {
    if file.Some? && file.value.Json? then Some(file.value.view) else None
  }

  function Initial(disk: Option<Bytes>, legacy: Option<View>): State {
    var stored := ReadView(disk);
    var fallback := if legacy.Some? then legacy.value else Terminal;
    State(if stored.Some? then stored.value else fallback, stored, false, None, 0, [], disk, map[],
          false, {}, [], [])
  }

  // ---- The transitions ----

  function SetStep(s: State, value: Option<View>): State {
    if value.None? then s
    else
      var t := s.(activeView := value.value, touched := true);
      if value != s.persisted || s.timer || s.pending.Some?
      then t.(generation := s.generation + 1, timer := true)
      else t
  }

  function FireStep(s: State): State
    requires s.timer
  {
    s.(timer := false, pending := Some(|s.writes|),
       writes := s.writes + [Write(s.activeView, s.generation, s.pending, Waiting)])
  }

  /** After a flush nothing is pending, so the next write waits for nobody, however many older ones are in flight. */
  predicate MayAdvance(s: State, w: nat) {
    && w < |s.writes|
    && s.writes[w].phase != Finished
    && (s.writes[w].phase == Waiting && s.writes[w].previous.Some? ==>
          s.writes[w].previous.value < |s.writes| && s.writes[s.writes[w].previous.value].phase == Finished)
  }

  function SetPhase(writes: seq<Write>, w: nat, p: Phase): (r: seq<Write>)
    requires w < |writes|
    ensures |r| == |writes| && r[w].phase == p
    ensures forall i :: 0 <= i < |r| ==>
              && r[i].generation == writes[i].generation && r[i].view == writes[i].view
              && r[i].previous == writes[i].previous
    ensures forall i :: 0 <= i < |r| && i != w ==> r[i] == writes[i]
  {
    writes[w := writes[w].(phase := p)]
  }

  /** Nothing another write or a flush depends on has changed, except possibly the published file. */
  ghost predicate SameSchedule(s: State, t: State) {
    && t.generation == s.generation && t.timer == s.timer && |t.writes| == |s.writes|
    && (forall i :: 0 <= i < |s.writes| ==> t.writes[i].generation == s.writes[i].generation)
  }

  ghost predicate SamePublic(s: State, t: State) {
    SameSchedule(s, t) && t.published == s.published && t.disk == s.disk
  }

  // One function per phase; AdvanceStep picks the one that applies.

  function Begin(s: State, w: nat): (t: State)
    requires w < |s.writes|
    ensures SamePublic(s, t)
  {
    s.(writes := SetPhase(s.writes, w, MakingDir), tmpNames := s.tmpNames + [s.writes[w].generation])
  }

  function Fail(s: State, w: nat): (t: State)
    requires w < |s.writes|
    ensures SamePublic(s, t)
  {
    s.(writes := SetPhase(s.writes, w, Removing), failures := s.failures + {s.writes[w].generation})
  }

  function OpenTmp(s: State, w: nat): (t: State)
    requires w < |s.writes|
    ensures SamePublic(s, t)
  {
    s.(writes := SetPhase(s.writes, w, WritingTmp), tmp := s.tmp[s.writes[w].generation := Broken])
  }

  function CompleteTmp(s: State, w: nat): (t: State)
    requires w < |s.writes|
    ensures SamePublic(s, t)
  {
    s.(writes := SetPhase(s.writes, w, TmpWritten), tmp := s.tmp[s.writes[w].generation := Json(s.writes[w].view)])
  }

  function GiveUp(s: State, w: nat): (t: State)
    requires w < |s.writes|
    ensures SamePublic(s, t)
  {
    s.(writes := SetPhase(s.writes, w, Removing))
  }

  function Publish(s: State, w: nat): (t: State)
    requires w < |s.writes| && s.writes[w].generation in s.tmp
    ensures SameSchedule(s, t)
  {
    var g, view := s.writes[w].generation, s.writes[w].view;
    s.(writes := SetPhase(s.writes, w, Settled), disk := Some(s.tmp[g]), tmp := s.tmp - {g}, persisted := Some(view),
       published := s.published + [Publication(g, view, Some(w))])
  }

  function RemoveTmp(s: State, w: nat, ok: bool): (t: State)
    requires w < |s.writes|
    ensures SamePublic(s, t)
  {
    s.(writes := SetPhase(s.writes, w, Settled), tmp := if ok then s.tmp - {s.writes[w].generation} else s.tmp)
  }

  function Conclude(s: State, w: nat): (t: State)
    requires w < |s.writes|
    ensures SamePublic(s, t)
  {
    s.(writes := SetPhase(s.writes, w, Finished), pending := if s.pending == Some(w) then None else s.pending)
  }

  function AdvanceStep(s: State, w: nat, ok: bool): State
    requires MayAdvance(s, w)
  {
    var g := s.writes[w].generation;
    match s.writes[w].phase
    case Waiting => Begin(s, w)
    case MakingDir => if ok then OpenTmp(s, w) else Fail(s, w)
    case WritingTmp => if ok then CompleteTmp(s, w) else Fail(s, w)
    case TmpWritten =>
      if g != s.generation then GiveUp(s, w)
      else if ok && g in s.tmp then Publish(s, w)
      else Fail(s, w)
    case Removing => RemoveTmp(s, w, ok)
    case Settled => Conclude(s, w)
    case Finished => s
  }

  lemma AfterTmp(s: State, w: nat, ok: bool)
    requires MayAdvance(s, w) && s.writes[w].phase == TmpWritten
    ensures var g := s.writes[w].generation;
      AdvanceStep(s, w, ok) ==
        if g != s.generation then GiveUp(s, w) else if ok && g in s.tmp then Publish(s, w) else Fail(s, w)
  {
  }

  /** Everything a flush does before it touches the file system. */
  function Claim(s: State): State {
    s.(timer := false, generation := s.generation + 1, pending := None, touched := true)
  }

  function FlushStep(s: State, outcome: FlushOutcome): State {
    var t := Claim(s);
    if s.pending.None? && s.persisted == Some(s.activeView) then t
    else
      match outcome
      case MkdirThrows => t.(failures := t.failures + {t.generation})
      case WriteThrows =>
        t.(failures := t.failures + {t.generation}, tmpNames := t.tmpNames + [t.generation],
           tmp := t.tmp[t.generation := Broken])
      case RenameThrows =>
        t.(failures := t.failures + {t.generation}, tmpNames := t.tmpNames + [t.generation],
           tmp := t.tmp[t.generation := Json(t.activeView)])
      case FlushOk => FlushPublish(t)
  }

  function FlushPublish(t: State): State {
    t.(tmpNames := t.tmpNames + [t.generation], disk := Some(Json(t.activeView)), persisted := Some(t.activeView),
       published := t.published + [Publication(t.generation, t.activeView, None)])
  }

  /** Whether `flushOrThrow` returns rather than throws. */
  predicate FlushReturns(s: State, outcome: FlushOutcome) {
    outcome == FlushOk || (s.pending.None? && s.persisted == Some(s.activeView))
  }

  predicate Enabled(s: State, a: Action) {
    match a
    case Fire => s.timer
    case Advance(w, _) => MayAdvance(s, w)
    case _ => true
  }

  function Next(s: State, a: Action): State
    requires Enabled(s, a)
  {
    match a
    case SetView(v) => SetStep(s, v)
    case Fire => FireStep(s)
    case Advance(w, ok) => AdvanceStep(s, w, ok)
    case Flush(o) => FlushStep(s, o)
  }

  ghost predicate CanRun(s: State, run: seq<Action>)
    decreases |run|
  {
    run == [] || (Enabled(s, run[0]) && CanRun(Next(s, run[0]), run[1..]))
  }

  ghost function Run(s: State, run: seq<Action>): State
    requires CanRun(s, run)
    decreases |run|
  {
    if run == [] then s else Run(Next(s, run[0]), run[1..])
  }

  // ---- The invariant of every reachable state ----

  /** Still to reach its guard. */
  predicate Unpublished(w: Write) {
    w.phase.Waiting? || w.phase.MakingDir? || w.phase.WritingTmp? || w.phase.TmpWritten?
  }

  /** Generations order the writes, and a generation waiting for its timer has named nothing yet. */
  ghost predicate GenerationsOrdered(s: State) {
    && (forall i, j :: 0 <= i < j < |s.writes| ==> s.writes[i].generation < s.writes[j].generation)
    && (forall i :: 0 <= i < |s.writes| ==> s.writes[i].generation <= s.generation)
    && (s.timer ==> forall i :: 0 <= i < |s.writes| ==> s.writes[i].generation < s.generation)
  }

  ghost predicate FailuresKnown(s: State) {
    forall g :: g in s.failures ==> g <= s.generation && (s.timer ==> g < s.generation)
  }

  ghost predicate NamesFresh(s: State) {
    && (forall i, j :: 0 <= i < j < |s.tmpNames| ==> s.tmpNames[i] != s.tmpNames[j])
    && (forall k :: 0 <= k < |s.tmpNames| ==> s.tmpNames[k] <= s.generation)
    && (s.timer ==> s.generation !in s.tmpNames)
    && (forall i :: 0 <= i < |s.writes| && s.writes[i].phase.Waiting? ==> s.writes[i].generation !in s.tmpNames)
  }

  ghost predicate PendingIsNewest(s: State) {
    && (s.pending.Some? ==>
          && s.pending.value < |s.writes|
          && s.pending.value == |s.writes| - 1
          && !s.writes[s.pending.value].phase.Finished?
          && (!s.timer ==> s.writes[s.pending.value].generation == s.generation
                           && s.writes[s.pending.value].view == s.activeView))
    && (forall i :: 0 <= i < |s.writes| && !s.writes[i].phase.Finished? && s.writes[i].generation == s.generation
          ==> s.pending == Some(i))
  }

  ghost predicate DiskMatches(s: State) {
    && s.persisted == ReadView(s.disk)
    && (forall i :: 0 <= i < |s.writes| && s.writes[i].phase.TmpWritten? ==>
          s.writes[i].generation in s.tmp && s.tmp[s.writes[i].generation] == Json(s.writes[i].view))
  }

  ghost predicate PublishedInOrder(s: State) {
    && (forall i, j :: 0 <= i < j < |s.published| ==> s.published[i].generation < s.published[j].generation)
    && (forall k :: 0 <= k < |s.published| ==> s.published[k].generation <= s.generation)
    && (s.timer ==> forall k :: 0 <= k < |s.published| ==> s.published[k].generation < s.generation)
    && (forall i, k :: 0 <= i < |s.writes| && 0 <= k < |s.published|
          && Unpublished(s.writes[i]) && s.writes[i].generation == s.generation
          ==> s.published[k].generation < s.generation)
    && (s.published != [] ==> s.disk == Some(Json(s.published[|s.published| - 1].view)))
  }

  ghost predicate SavedOrSaving(s: State) {
    s.touched && s.generation !in s.failures && !s.timer ==>
      && (s.pending.None? ==> ReadView(s.disk) == Some(s.activeView))
      && (s.pending.Some? && s.pending.value < |s.writes| ==>
            && !s.writes[s.pending.value].phase.Removing?
            && (s.writes[s.pending.value].phase.Settled? ==> ReadView(s.disk) == Some(s.activeView)))
  }

  ghost predicate Inv(s: State) {
    && GenerationsOrdered(s) && NamesFresh(s) && PendingIsNewest(s) && DiskMatches(s)
    && PublishedInOrder(s) && SavedOrSaving(s) && FailuresKnown(s)
  }

  lemma InitialInv(disk: Option<Bytes>, legacy: Option<View>)
    ensures Inv(Initial(disk, legacy))
  {
  }

  lemma SetKeepsInv(s: State, v: Option<View>)
    requires Inv(s)
    ensures Inv(SetStep(s, v))
  {
  }

  lemma FireKeepsInv(s: State)
    requires Inv(s) && s.timer
    ensures Inv(FireStep(s))
  {
  }

  /** After `Claim` the new generation belongs to no write, name or publication. */
  ghost predicate Claimed(t: State) {
    && !t.timer && t.pending.None?
    && GenerationsOrdered(t) && NamesFresh(t) && PendingIsNewest(t) && DiskMatches(t) && PublishedInOrder(t)
    && (forall g :: g in t.failures ==> g < t.generation)
    && (forall i :: 0 <= i < |t.writes| ==> t.writes[i].generation < t.generation)
    && (forall k :: 0 <= k < |t.tmpNames| ==> t.tmpNames[k] < t.generation)
    && (forall k :: 0 <= k < |t.published| ==> t.published[k].generation < t.generation)
  }

  lemma ClaimIsFresh(s: State)
    requires Inv(s)
    ensures Claimed(Claim(s))
  {
  }

  lemma FlushPublishKeepsInv(t: State)
    requires Claimed(t)
    ensures Inv(FlushPublish(t))
  {
  }

  lemma FlushFailureKeepsInv(t: State, names: seq<nat>, tmp: map<nat, Bytes>)
    requires Claimed(t) && (names == t.tmpNames || names == t.tmpNames + [t.generation])
    requires forall g :: g in t.tmp && g != t.generation ==> g in tmp && tmp[g] == t.tmp[g]
    ensures Inv(t.(failures := t.failures + {t.generation}, tmpNames := names, tmp := tmp))
  {
  }

  lemma FlushKeepsInv(s: State, o: FlushOutcome)
    requires Inv(s)
    ensures Inv(FlushStep(s, o))
  {
    ClaimIsFresh(s);
    var t := Claim(s);
    if !(s.pending.None? && s.persisted == Some(s.activeView)) {
      match o
      case MkdirThrows => FlushFailureKeepsInv(t, t.tmpNames, t.tmp);
      case WriteThrows => FlushFailureKeepsInv(t, t.tmpNames + [t.generation], t.tmp[t.generation := Broken]);
      case RenameThrows =>
        FlushFailureKeepsInv(t, t.tmpNames + [t.generation], t.tmp[t.generation := Json(t.activeView)]);
      case FlushOk => FlushPublishKeepsInv(t);
    }
  }

  lemma BeginKeepsInv(s: State, w: nat)
    requires Inv(s) && MayAdvance(s, w) && s.writes[w].phase == Waiting
    ensures Inv(Begin(s, w))
  {
    BeginKeepsNames(s, w);
    hide NamesFresh;
  }

  lemma BeginKeepsNames(s: State, w: nat)
    requires Inv(s) && MayAdvance(s, w) && s.writes[w].phase == Waiting
    ensures NamesFresh(Begin(s, w))
  {
    hide PendingIsNewest, DiskMatches, PublishedInOrder, SavedOrSaving, FailuresKnown;
  }

  lemma FailKeepsInv(s: State, w: nat)
    requires Inv(s) && MayAdvance(s, w) && Unpublished(s.writes[w])
    ensures Inv(Fail(s, w))
  {
  }

  lemma OpenTmpKeepsInv(s: State, w: nat)
    requires Inv(s) && MayAdvance(s, w) && s.writes[w].phase == MakingDir
    ensures Inv(OpenTmp(s, w))
  {
  }

  lemma CompleteTmpKeepsInv(s: State, w: nat)
    requires Inv(s) && MayAdvance(s, w) && s.writes[w].phase == WritingTmp
    ensures Inv(CompleteTmp(s, w))
  {
  }

  lemma GiveUpKeepsInv(s: State, w: nat)
    requires Inv(s) && MayAdvance(s, w) && s.writes[w].phase == TmpWritten && s.writes[w].generation != s.generation
    ensures Inv(GiveUp(s, w))
  {
  }

  lemma PublishKeepsInv(s: State, w: nat)
    requires Inv(s) && MayAdvance(s, w) && s.writes[w].phase == TmpWritten && s.writes[w].generation == s.generation
    requires s.writes[w].generation in s.tmp
    ensures Inv(Publish(s, w))
  {
  }

  lemma RemoveTmpKeepsInv(s: State, w: nat, ok: bool)
    requires Inv(s) && MayAdvance(s, w) && s.writes[w].phase == Removing
    ensures Inv(RemoveTmp(s, w, ok))
  {
  }

  lemma ConcludeKeepsInv(s: State, w: nat)
    requires Inv(s) && MayAdvance(s, w) && s.writes[w].phase == Settled
    ensures Inv(Conclude(s, w))
  {
  }

  lemma NextKeepsInv(s: State, a: Action)
    requires Inv(s) && Enabled(s, a)
    ensures Inv(Next(s, a))
  {
    hide GenerationsOrdered, NamesFresh, PendingIsNewest, PublishedInOrder, SavedOrSaving, FailuresKnown;
    match a
    case SetView(v) => SetKeepsInv(s, v);
    case Fire => FireKeepsInv(s);
    case Flush(o) => FlushKeepsInv(s, o);
    case Advance(w, ok) =>
      match s.writes[w].phase {
        case Waiting => BeginKeepsInv(s, w);
        case MakingDir => if ok { OpenTmpKeepsInv(s, w); } else { FailKeepsInv(s, w); }
        case WritingTmp => if ok { CompleteTmpKeepsInv(s, w); } else { FailKeepsInv(s, w); }
        case TmpWritten =>
          if s.writes[w].generation != s.generation { GiveUpKeepsInv(s, w); }
          else if ok { PublishKeepsInv(s, w); }
          else { FailKeepsInv(s, w); }
        case Removing => RemoveTmpKeepsInv(s, w, ok);
        case Settled => ConcludeKeepsInv(s, w);
      }
  }

  lemma {:induction false} RunKeepsInv(s: State, run: seq<Action>)
    requires Inv(s) && CanRun(s, run)
    ensures Inv(Run(s, run))
    decreases |run|
  {
    if run != [] {
      NextKeepsInv(s, run[0]);
      RunKeepsInv(Next(s, run[0]), run[1..]);
    }
  }

  // ---- What every run keeps ----

  /**
   * In every reachable state: the remembered value is what the file holds; no two writes or
   * flushes ever used the same temporary name; renames happened in generation order, and the
   * file holds the last of them.
   */
  lemma ReachableStates(disk: Option<Bytes>, legacy: Option<View>, run: seq<Action>)
    requires CanRun(Initial(disk, legacy), run)
    ensures var s := Run(Initial(disk, legacy), run);
      && s.persisted == ReadView(s.disk)
      && (forall i, j :: 0 <= i < j < |s.tmpNames| ==> s.tmpNames[i] != s.tmpNames[j])
      && (forall i, j :: 0 <= i < j < |s.published| ==> s.published[i].generation < s.published[j].generation)
      && (s.published != [] ==> s.disk == Some(Json(s.published[|s.published| - 1].view)))
  {
    InitialInv(disk, legacy);
    RunKeepsInv(Initial(disk, legacy), run);
  }

  /** The view last set in the run, if any was. */
  function LastSet(run: seq<Action>): Option<View> {
    if run == [] then None
    else
      var last := run[|run| - 1];
      if last.SetView? && last.value.Some? then last.value else LastSet(run[..|run| - 1])
  }

  /** The view that was asked for: the last one set, or what there was at the start. */
  function Asked(disk: Option<Bytes>, legacy: Option<View>, run: seq<Action>): View {
    if LastSet(run).Some? then LastSet(run).value
    else if disk.Some? && disk.value.Json? then disk.value.view
    else if legacy.Some? then legacy.value
    else Terminal
  }

  /** A view is set, or a flush asks for the present one to be saved. */
  predicate Asks(a: Action) { (a.SetView? && a.value.Some?) || a.Flush? }

  /** The run asks for something to be saved. */
  ghost predicate AsksInRun(run: seq<Action>) { exists k :: 0 <= k < |run| && Asks(run[k]) }

  lemma NextView(s: State, a: Action)
    requires Enabled(s, a)
    ensures Next(s, a).activeView == if a.SetView? && a.value.Some? then a.value.value else s.activeView
    ensures Next(s, a).touched == (s.touched || Asks(a))
  {
  }

  lemma {:induction false} RunView(s: State, run: seq<Action>)
    requires CanRun(s, run)
    ensures Run(s, run).activeView == if LastSet(run).Some? then LastSet(run).value else s.activeView
    ensures Run(s, run).touched == (s.touched || AsksInRun(run))
    decreases |run|
  {
    if run != [] {
      var front, last := run[..|run| - 1], run[|run| - 1];
      assert run == front + [last];
      RunSplits(s, front, last);
      hide Next, Enabled, CanRun, Run, Asks;
      RunView(s, front);
      NextView(Run(s, front), last);
    }
  }

  lemma {:induction false} RunSplits(s: State, front: seq<Action>, last: Action)
    requires CanRun(s, front + [last])
    ensures CanRun(s, front) && Enabled(Run(s, front), last)
    ensures Run(s, front + [last]) == Next(Run(s, front), last)
    decreases |front|
  {
    var run := front + [last];
    if front == [] {
      assert run[1..] == [];
    } else {
      assert run[0] == front[0] && run[1..] == front[1..] + [last];
      RunSplits(Next(s, front[0]), front[1..], last);
    }
  }

  /** In every run the object has the view that was asked for. */
  lemma ViewIsAsked(disk: Option<Bytes>, legacy: Option<View>, run: seq<Action>)
    requires CanRun(Initial(disk, legacy), run)
    ensures Run(Initial(disk, legacy), run).activeView == Asked(disk, legacy, run)
    ensures Run(Initial(disk, legacy), run).touched == AsksInRun(run)
  {
    RunView(Initial(disk, legacy), run);
  }

  // ---- Failures have a cause ----

  /** The step at which the write or flush of the generation `g` fails. */
  predicate FailsAt(s: State, a: Action, g: nat) {
    match a
    case Advance(w, ok) => !ok && w < |s.writes| && s.writes[w].generation == g
    case Flush(o) => o != FlushOk && s.generation + 1 == g
    case _ => false
  }

  lemma AdvanceFailures(s: State, w: nat, ok: bool)
    requires DiskMatches(s) && MayAdvance(s, w)
    ensures AdvanceStep(s, w, ok).failures - s.failures <= {s.writes[w].generation}
    ensures ok ==> AdvanceStep(s, w, ok).failures == s.failures
  {
  }

  lemma NextFailures(s: State, a: Action, g: nat)
    requires Inv(s) && Enabled(s, a)
    ensures g in Next(s, a).failures ==> g in s.failures || FailsAt(s, a, g)
  {
    if a.Advance? { AdvanceFailures(s, a.write, a.ok); }
    hide Inv, AdvanceStep;
  }

  /** A generation counts as failed only because a file operation of its write or flush did fail. */
  lemma {:induction false} FailureHasCause(disk: Option<Bytes>, legacy: Option<View>, run: seq<Action>, g: nat)
    requires CanRun(Initial(disk, legacy), run) && g in Run(Initial(disk, legacy), run).failures
    ensures exists k :: 0 <= k < |run| && CanRun(Initial(disk, legacy), run[..k]) &&
              FailsAt(Run(Initial(disk, legacy), run[..k]), run[k], g)
    decreases |run|
  {
    var s := Initial(disk, legacy);
    if run != [] {
      var front, last := run[..|run| - 1], run[|run| - 1];
      assert run == front + [last];
      RunSplits(s, front, last);
      InitialInv(disk, legacy);
      RunKeepsInv(s, front);
      NextFailures(Run(s, front), last, g);
      hide Next, Enabled, CanRun, Run, FailsAt, Inv, Initial;
      if g in Run(s, front).failures {
        FailureHasCause(disk, legacy, front, g);
        var k :| 0 <= k < |front| && CanRun(s, front[..k]) && FailsAt(Run(s, front[..k]), front[k], g);
        assert run[..k] == front[..k] && run[k] == front[k];
      } else {
        assert run[..|front|] == front;
      }
    }
  }

  /**
   * With nothing scheduled or pending, the file holds the view asked for, unless nothing was asked, or
   * the write or flush of the newest generation failed.  Earlier failures do not matter.
   */
  lemma Quiescent(disk: Option<Bytes>, legacy: Option<View>, run: seq<Action>)
    requires CanRun(Initial(disk, legacy), run)
    ensures var s := Run(Initial(disk, legacy), run);
      !s.timer && s.pending.None? ==>
        !AsksInRun(run) || s.generation in s.failures || s.disk == Some(Json(Asked(disk, legacy, run)))
  {
    InitialInv(disk, legacy);
    RunKeepsInv(Initial(disk, legacy), run);
    ViewIsAsked(disk, legacy, run);
  }

  // ---- What was asked for is saved in the end ----

  /** Each write waits for an earlier one, if for any. */
  ghost predicate Chained(s: State) {
    forall i :: 0 <= i < |s.writes| && s.writes[i].previous.Some? ==> s.writes[i].previous.value < i
  }

  function WorkOf(p: Phase): nat {
    match p
    case Waiting => 6
    case MakingDir => 5
    case WritingTmp => 4
    case TmpWritten => 3
    case Removing => 2
    case Settled => 1
    case Finished => 0
  }

  /** The phase that a write comes to. */
  function PhaseAfter(s: State, w: nat, ok: bool): Phase
    requires w < |s.writes|
  {
    match s.writes[w].phase
    case Waiting => MakingDir
    case MakingDir => if ok then WritingTmp else Removing
    case WritingTmp => if ok then TmpWritten else Removing
    case TmpWritten =>
      if s.writes[w].generation == s.generation && ok && s.writes[w].generation in s.tmp then Settled else Removing
    case Removing => Settled
    case Settled => Finished
    case Finished => Finished
  }

  lemma AdvanceWrites(s: State, w: nat, ok: bool)
    requires MayAdvance(s, w)
    ensures var t := AdvanceStep(s, w, ok);
      t.writes == SetPhase(s.writes, w, PhaseAfter(s, w, ok)) && t.timer == s.timer && t.generation == s.generation
    ensures WorkOf(PhaseAfter(s, w, ok)) < WorkOf(s.writes[w].phase)
  {
    hide SetPhase;
  }

  lemma NextKeepsChained(s: State, a: Action)
    requires Inv(s) && Chained(s) && Enabled(s, a)
    ensures Chained(Next(s, a))
  {
    if a.Advance? { AdvanceWrites(s, a.write, a.ok); }
    assert s.pending.Some? ==> s.pending.value < |s.writes|;
    hide Inv, AdvanceStep;
  }

  lemma {:induction false} RunKeepsChained(s: State, run: seq<Action>)
    requires Inv(s) && Chained(s) && CanRun(s, run)
    ensures Chained(Run(s, run))
    decreases |run|
  {
    if run != [] {
      NextKeepsInv(s, run[0]);
      NextKeepsChained(s, run[0]);
      hide Inv, Chained, Next;
      RunKeepsChained(Next(s, run[0]), run[1..]);
    }
  }

  /** Of the writes that one waits for, itself included, the first unfinished one can go on. */
  lemma {:induction false} SomeMayAdvance(s: State, w: nat) returns (v: nat)
    requires Chained(s) && w < |s.writes| && s.writes[w].phase != Finished
    ensures MayAdvance(s, v)
    decreases w
  {
    v := w;
    if !MayAdvance(s, w) { v := SomeMayAdvance(s, s.writes[w].previous.value); }
  }

  function Work(writes: seq<Write>): nat {
    if writes == [] then 0 else Work(writes[..|writes| - 1]) + WorkOf(writes[|writes| - 1].phase)
  }

  lemma {:induction false} WorkOfChanged(writes: seq<Write>, w: nat, p: Phase)
    requires w < |writes|
    ensures Work(SetPhase(writes, w, p)) == Work(writes) - WorkOf(writes[w].phase) + WorkOf(p)
    decreases |writes|
  {
    hide WorkOf;
    var n := |writes| - 1;
    var changed := SetPhase(writes, w, p);
    if w == n {
      assert changed[..n] == writes[..n];
    } else {
      assert changed[..n] == SetPhase(writes[..n], w, p);
      WorkOfChanged(writes[..n], w, p);
    }
  }

  lemma AdvanceWorks(s: State, w: nat)
    requires Inv(s) && MayAdvance(s, w)
    ensures var t := Next(s, Advance(w, true));
      && Work(t.writes) < Work(s.writes) && t.timer == s.timer && t.generation == s.generation
      && t.failures == s.failures
  {
    AdvanceFailures(s, w, true);
    AdvanceWrites(s, w, true);
    WorkOfChanged(s.writes, w, PhaseAfter(s, w, true));
    hide Inv, Work, AdvanceStep, WorkOf;
  }

  /** Timers firing, and file operations that succeed. */
  predicate Smooth(a: Action) { a.Fire? || (a.Advance? && a.ok) }

  /** From any state of a run the writes can be brought to their end. */
  lemma {:induction false} Drain(s: State) returns (rest: seq<Action>)
    requires Inv(s) && Chained(s)
    ensures CanRun(s, rest) && forall k :: 0 <= k < |rest| ==> Smooth(rest[k])
    ensures var t := Run(s, rest);
      !t.timer && t.pending.None? && t.generation == s.generation && t.failures == s.failures
    decreases if s.timer then 1 else 0, Work(s.writes)
  {
    if !s.timer && s.pending.None? {
      rest := [];
    } else {
      var a := NextToDrain(s);
      NextKeepsInv(s, a);
      NextKeepsChained(s, a);
      hide Inv, Chained, Next, Work;
      var more := Drain(Next(s, a));
      rest := [a] + more;
      assert rest[1..] == more;
    }
  }

  lemma NextToDrain(s: State) returns (a: Action)
    requires Inv(s) && Chained(s) && (s.timer || s.pending.Some?)
    ensures Enabled(s, a) && Smooth(a)
    ensures var t := Next(s, a);
      && t.generation == s.generation && t.failures == s.failures && (t.timer ==> s.timer)
      && ((s.timer && !t.timer) || (t.timer == s.timer && Work(t.writes) < Work(s.writes)))
  {
    if s.timer {
      a := Fire;
    } else {
      var v := SomeMayAdvance(s, s.pending.value);
      AdvanceWorks(s, v);
      a := Advance(v, true);
    }
    hide Work;
  }

  lemma {:induction false} RunsCompose(s: State, run: seq<Action>, more: seq<Action>)
    requires CanRun(s, run) && CanRun(Run(s, run), more)
    ensures CanRun(s, run + more) && Run(s, run + more) == Run(Run(s, run), more)
    decreases |run|
  {
    var whole := run + more;
    if run == [] {
      assert whole == more;
    } else {
      assert whole[0] == run[0] && whole[1..] == run[1..] + more;
      hide Next, Enabled;
      RunsCompose(Next(s, run[0]), run[1..], more);
    }
  }

  lemma {:induction false} SmoothAsksNothing(run: seq<Action>, rest: seq<Action>)
    requires forall k :: 0 <= k < |rest| ==> Smooth(rest[k])
    ensures LastSet(run + rest) == LastSet(run)
    decreases |rest|
  {
    if rest == [] {
      assert run + rest == run;
    } else {
      var front := rest[..|rest| - 1];
      assert (run + rest)[..|run + rest| - 1] == run + front;
      SmoothAsksNothing(run, front);
    }
  }

  /**
   * After any run, unless the newest generation has failed: once the timer has fired and the writes have
   * gone through, which they always can, the file holds the view asked for.
   */
  lemma SavedInTheEnd(disk: Option<Bytes>, legacy: Option<View>, run: seq<Action>) returns (rest: seq<Action>)
    requires CanRun(Initial(disk, legacy), run) && AsksInRun(run)
    ensures CanRun(Initial(disk, legacy), run + rest) && forall k :: 0 <= k < |rest| ==> Smooth(rest[k])
    ensures var s, t := Run(Initial(disk, legacy), run), Run(Initial(disk, legacy), run + rest);
      && !t.timer && t.pending.None?
      && (s.generation !in s.failures ==> t.disk == Some(Json(Asked(disk, legacy, run))))
  {
    var i := Initial(disk, legacy);
    InitialInv(disk, legacy);
    assert Chained(i);
    RunKeepsInv(i, run);
    RunKeepsChained(i, run);
    rest := Drain(Run(i, run));
    hide Inv, Chained, Next, Enabled, CanRun, Run, Smooth, Initial;
    RunsCompose(i, run, rest);
    SmoothAsksNothing(run, rest);
    assert AsksInRun(run + rest) by {
      var k :| 0 <= k < |run| && Asks(run[k]);
      assert (run + rest)[k] == run[k];
    }
    Quiescent(disk, legacy, run + rest);
  }

  /** What a flush leaves behind: no older write can pass its guard any more. */
  ghost predicate Fenced(s: State, fence: nat, writesBefore: nat, publishedBefore: seq<Publication>,
                         diskBefore: Option<Bytes>)
  {
    && fence <= s.generation && writesBefore <= |s.writes|
    && (forall i :: 0 <= i < writesBefore ==> s.writes[i].generation < fence)
    && (forall i :: writesBefore <= i < |s.writes| ==> s.writes[i].generation > fence)
    && (s.timer ==> s.generation > fence)
    && publishedBefore <= s.published
    && (forall k :: |publishedBefore| <= k < |s.published| ==>
          && s.published[k].generation > fence
          && (s.published[k].writer.Some? ==> writesBefore <= s.published[k].writer.value < |s.writes|))
    && (s.published == publishedBefore ==> s.disk == diskBefore)
  }

  lemma AdvanceFrame(s: State, w: nat, ok: bool)
    requires MayAdvance(s, w)
    ensures var t := AdvanceStep(s, w, ok);
      || SamePublic(s, t)
      || (s.writes[w].generation in s.tmp && s.writes[w].generation == s.generation && t == Publish(s, w))
  {
  }

  lemma AdvanceKeepsFence(s: State, w: nat, ok: bool, fence: nat, n: nat, before: seq<Publication>, disk: Option<Bytes>)
    requires MayAdvance(s, w) && Fenced(s, fence, n, before, disk)
    ensures Fenced(AdvanceStep(s, w, ok), fence, n, before, disk)
  {
    AdvanceFrame(s, w, ok);
  }

  lemma FlushKeepsFence(s: State, o: FlushOutcome, fence: nat, n: nat, before: seq<Publication>, disk: Option<Bytes>)
    requires Fenced(s, fence, n, before, disk)
    ensures Fenced(FlushStep(s, o), fence, n, before, disk)
  {
    assert Fenced(Claim(s), fence, n, before, disk);
  }

  lemma NextKeepsFence(s: State, a: Action, fence: nat, n: nat, before: seq<Publication>, disk: Option<Bytes>)
    requires Enabled(s, a) && Fenced(s, fence, n, before, disk)
    ensures Fenced(Next(s, a), fence, n, before, disk)
  {
    match a
    case SetView(v) =>
    case Fire =>
    case Flush(o) => FlushKeepsFence(s, o, fence, n, before, disk);
    case Advance(w, ok) => AdvanceKeepsFence(s, w, ok, fence, n, before, disk);
  }

  lemma {:induction false} RunKeepsFence(s: State, run: seq<Action>, fence: nat, n: nat, before: seq<Publication>,
                                         disk: Option<Bytes>)
    requires CanRun(s, run) && Fenced(s, fence, n, before, disk)
    ensures Fenced(Run(s, run), fence, n, before, disk)
    decreases |run|
  {
    if run != [] {
      NextKeepsFence(s, run[0], fence, n, before, disk);
      RunKeepsFence(Next(s, run[0]), run[1..], fence, n, before, disk);
    }
  }

  lemma FlushFences(s: State, o: FlushOutcome)
    requires Inv(s)
    ensures var t := FlushStep(s, o);
      && Fenced(t, t.generation, |t.writes|, t.published, t.disk)
      && (FlushReturns(s, o) ==> t.disk == Some(Json(s.activeView)))
  {
    ClaimIsFresh(s);
  }

  /**
   * No stale clobber.  After a flush returns the file holds the flushed view, and in every
   * continuation it still does until a rename by a write whose timer fired after the flush (or by
   * a later flush); no write started before the flush ever renames again.
   */
  lemma FlushIsNotClobbered(disk: Option<Bytes>, legacy: Option<View>, run: seq<Action>, o: FlushOutcome,
                            later: seq<Action>)
    requires CanRun(Initial(disk, legacy), run)
    requires CanRun(FlushStep(Run(Initial(disk, legacy), run), o), later)
    ensures var s := Run(Initial(disk, legacy), run);
      var t := FlushStep(s, o);
      var u := Run(t, later);
      && (o == FlushOk ==> FlushReturns(s, o))
      && (FlushReturns(s, o) ==> t.disk == Some(Json(Asked(disk, legacy, run))))
      && (FlushReturns(s, o) && u.published == t.published ==> u.disk == Some(Json(Asked(disk, legacy, run))))
      && t.published <= u.published
      && (forall k :: |t.published| <= k < |u.published| ==>
            && u.published[k].generation > t.generation
            && (u.published[k].writer.Some? ==> |t.writes| <= u.published[k].writer.value))
  {
    var s := Run(Initial(disk, legacy), run);
    assert o == FlushOk ==> FlushReturns(s, o);
    ViewIsAsked(disk, legacy, run);
    hide Inv, Initial, FlushStep, FlushReturns, Asked;
    InitialInv(disk, legacy);
    RunKeepsInv(Initial(disk, legacy), run);
    FlushFences(s, o);
    var t := FlushStep(s, o);
    RunKeepsFence(t, later, t.generation, |t.writes|, t.published, t.disk);
  }

  /**
   * The race the guard is there for: whatever writes are in flight at a flush, the write of the next
   * change starts at once, beside them.
   */
  lemma FlushReleasesTheChain(s: State, o: FlushOutcome, v: View)
    requires FlushStep(s, o).persisted != Some(v)
    ensures var changed := SetStep(FlushStep(s, o), Some(v));
      && Enabled(changed, Fire)
      && var fired := Next(changed, Fire);
         && fired.writes[..|s.writes|] == s.writes && |fired.writes| == |s.writes| + 1
         && Enabled(fired, Advance(|s.writes|, true))
         && Next(fired, Advance(|s.writes|, true)).writes[..|s.writes|] == s.writes
         && Next(fired, Advance(|s.writes|, true)).writes[|s.writes|].phase == MakingDir
  {
  }

  // ---- The object itself ----

  /**
   * The class and the files it works on.  Each method is one uninterrupted stretch of the
   * original code; what the file system answers (`ok`, `outcome`) is an argument.
   */
  class ActiveViewPreference {
    var activeView: View
    var persistedActiveView: Option<View>
    var writeTimer: bool
    var pendingWrite: Option<nat>
    var writeGeneration: nat
    var writes: seq<Write>
    var file: Option<Bytes>
    var tmpFiles: map<nat, Bytes>
    ghost var touched: bool
    ghost var failures: set<nat>
    ghost var tmpNames: seq<nat>
    ghost var published: seq<Publication>

    ghost function Snapshot(): State
      reads this
    {
      State(activeView, persistedActiveView, writeTimer, pendingWrite, writeGeneration, writes, file, tmpFiles,
            touched, failures, tmpNames, published)
    }

    constructor (file: Option<Bytes>, legacyActiveView: Option<View>)
      ensures Snapshot() == Initial(file, legacyActiveView)
    {
      var stored := ReadView(file);
      this.file := file;
      if stored.Some? {
        activeView := stored.value;
      } else if legacyActiveView.Some? {
        activeView := legacyActiveView.value;
      } else {
        activeView := Terminal;
      }
      persistedActiveView := stored;
      writeTimer, pendingWrite, writeGeneration := false, None, 0;
      writes, tmpFiles := [], map[];
      touched, failures, tmpNames, published := false, {}, [], [];
    }

    method Set(value: Option<View>) returns (changed: bool)
      modifies this
      ensures Snapshot() == SetStep(old(Snapshot()), value)
      ensures changed <==> value.Some? && value.value != old(activeView)
      ensures activeView == if value.Some? then value.value else old(activeView)
    {
      if value.None? { return false; }
      changed := value.value != activeView;
      activeView, touched := value.value, true;
      if value != persistedActiveView || writeTimer || pendingWrite.Some? {
        ScheduleSave();
      }
    }

    method ScheduleSave()
      modifies this`writeGeneration, this`writeTimer
      ensures writeGeneration == old(writeGeneration) + 1 && writeTimer
    {
      writeGeneration := writeGeneration + 1;
      writeTimer := true;
    }

    method TimerFired()
      requires writeTimer
      modifies this
      ensures Snapshot() == Next(old(Snapshot()), Fire)
    {
      writeTimer := false;
      var write := Write(activeView, writeGeneration, pendingWrite, Waiting);
      pendingWrite := Some(|writes|);
      writes := writes + [write];
    }

    // writeAsync, one stretch per method: what runs once the operation it awaits succeeds or fails.

    method StartWrite(w: nat, ok: bool)
      requires MayAdvance(Snapshot(), w) && writes[w].phase == Waiting
      modifies this`writes, this`tmpNames
      ensures Snapshot() == Next(old(Snapshot()), Advance(w, ok))
    {
      tmpNames := tmpNames + [writes[w].generation];
      writes := SetPhase(writes, w, MakingDir);
    }

    method DirectoryMade(w: nat, ok: bool)
      requires MayAdvance(Snapshot(), w) && writes[w].phase == MakingDir
      modifies this`writes, this`tmpFiles, this`failures
      ensures Snapshot() == Next(old(Snapshot()), Advance(w, ok))
    {
      if ok {
        tmpFiles := tmpFiles[writes[w].generation := Broken];
        writes := SetPhase(writes, w, WritingTmp);
      } else {
        failures := failures + {writes[w].generation};
        writes := SetPhase(writes, w, Removing);
      }
    }

    method TmpFinished(w: nat, ok: bool)
      requires MayAdvance(Snapshot(), w) && writes[w].phase == WritingTmp
      modifies this`writes, this`tmpFiles, this`failures
      ensures Snapshot() == Next(old(Snapshot()), Advance(w, ok))
    {
      if ok {
        tmpFiles := tmpFiles[writes[w].generation := Json(writes[w].view)];
        writes := SetPhase(writes, w, TmpWritten);
      } else {
        failures := failures + {writes[w].generation};
        writes := SetPhase(writes, w, Removing);
      }
    }

    /** Guard, rename and bookkeeping, with nothing in between. */
    method GuardedRename(w: nat, ok: bool)
      requires MayAdvance(Snapshot(), w) && writes[w].phase == TmpWritten
      modifies this`writes, this`tmpFiles, this`failures, this`file, this`persistedActiveView, this`published
      ensures Snapshot() == Next(old(Snapshot()), Advance(w, ok))
    {
      var generation := writes[w].generation;
      AfterTmp(Snapshot(), w, ok);
      hide AdvanceStep, MayAdvance;
      if generation != writeGeneration {
        writes := SetPhase(writes, w, Removing);
      } else if ok && generation in tmpFiles {
        RenameTmp(w);
      } else {
        failures := failures + {generation};
        writes := SetPhase(writes, w, Removing);
      }
    }

    /** The rename that succeeds, and what is remembered of it. */
    method RenameTmp(w: nat)
      requires w < |writes| && writes[w].generation in tmpFiles
      modifies this`writes, this`tmpFiles, this`file, this`persistedActiveView, this`published
      ensures Snapshot() == Publish(old(Snapshot()), w)
    {
      var view, generation := writes[w].view, writes[w].generation;
      file, tmpFiles := Some(tmpFiles[generation]), tmpFiles - {generation};
      persistedActiveView := Some(view);
      published := published + [Publication(generation, view, Some(w))];
      writes := SetPhase(writes, w, Settled);
    }

    method TmpRemoved(w: nat, ok: bool)
      requires MayAdvance(Snapshot(), w) && writes[w].phase == Removing
      modifies this`writes, this`tmpFiles
      ensures Snapshot() == Next(old(Snapshot()), Advance(w, ok))
    {
      if ok { tmpFiles := tmpFiles - {writes[w].generation}; }
      writes := SetPhase(writes, w, Settled);
    }

    /** The `catch` and `finally` of the chained promise. */
    method WriteSettled(w: nat, ok: bool)
      requires MayAdvance(Snapshot(), w) && writes[w].phase == Settled
      modifies this`writes, this`pendingWrite
      ensures Snapshot() == Next(old(Snapshot()), Advance(w, ok))
    {
      if pendingWrite == Some(w) { pendingWrite := None; }
      writes := SetPhase(writes, w, Finished);
    }

    method FlushOrThrow(outcome: FlushOutcome) returns (returned: bool)
      modifies this
      ensures Snapshot() == Next(old(Snapshot()), Flush(outcome))
      ensures returned <==> FlushReturns(old(Snapshot()), outcome)
      ensures outcome == FlushOk ==> returned
    {
      var asyncWriteWasInFlight := pendingWrite.Some?;
      touched := true;
      writeTimer, writeGeneration, pendingWrite := false, writeGeneration + 1, None;
      if !asyncWriteWasInFlight && persistedActiveView == Some(activeView) {
        return true;
      }
      assert Snapshot() == Claim(old(Snapshot()));
      returned := WriteNow(outcome);
    }

    /** mkdirSync, writeFileSync and renameSync of a flush. */
    method WriteNow(outcome: FlushOutcome) returns (returned: bool)
      modifies this`file, this`persistedActiveView, this`tmpFiles, this`tmpNames, this`published, this`failures
      ensures returned <==> outcome == FlushOk
      ensures var t := old(Snapshot());
        match outcome
        case FlushOk => Snapshot() == FlushPublish(t)
        case MkdirThrows => Snapshot() == t.(failures := t.failures + {t.generation})
        case WriteThrows =>
          Snapshot() == t.(failures := t.failures + {t.generation}, tmpNames := t.tmpNames + [t.generation],
                           tmp := t.tmp[t.generation := Broken])
        case RenameThrows =>
          Snapshot() == t.(failures := t.failures + {t.generation}, tmpNames := t.tmpNames + [t.generation],
                           tmp := t.tmp[t.generation := Json(t.activeView)])
    {
      if outcome != FlushOk { failures := failures + {writeGeneration}; }
      if outcome == MkdirThrows { return false; }
      tmpNames := tmpNames + [writeGeneration];
      if outcome == WriteThrows {
        tmpFiles := tmpFiles[writeGeneration := Broken];
        return false;
      }
      if outcome == RenameThrows {
        tmpFiles := tmpFiles[writeGeneration := Json(activeView)];
        return false;
      }
      file, persistedActiveView := Some(Json(activeView)), Some(activeView);
      published := published + [Publication(writeGeneration, activeView, None)];
      return true;
    }
  }
}
