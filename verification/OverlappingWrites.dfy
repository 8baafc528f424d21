/**
 * Several durable writes of one file in flight at once, each under its own temporary name: the application
 * saves asynchronously and may flush synchronously meanwhile (src/main/persistence.ts).
 *
 * Each call is the machine of DurableFileWrite; their operations interleave in any order.
 */
module OverlappingWrites {
  import opened Options
  import opened DurableFileWrite

  /** `calls` holds where each call stands, by its temporary name; `possible` is as in `Machine`. */
  datatype Fleet = Fleet(fs: FsState, calls: map<Path, Pc>, possible: set<Option<Content>>)

  datatype Event =
    | Start(name: Path, form: Form, payload: Content)
    | Perform(name: Path, n: nat)
    | Remove(name: Path)                     // the caller's clean-up of a temporary file
    | Restart

  function Call(f: Fleet, p: Path): Pc { if p in f.calls then f.calls[p] else Idle(None) }

  /** The call under the name `p`, as if it were the only one. */
  function Alone(f: Fleet, p: Path): Machine { Machine(f.fs, Call(f, p), f.possible) }

  /** What a program reads at `final`. */
  function Found(s: FsState, final: Path): Option<Content> {
    if final in s.dir && s.dir[final] in s.inodes then Some(s.inodes[s.dir[final]].cached) else None
  }

  /** A directory fsync settles what is at `final` now, which another call may have put there. */
  function Performed(f: Fleet, p: Path, final: Path, n: nat): Fleet {
    var m := Operated(Alone(f, p), p, final, n);
    Fleet(m.fs, f.calls[p := m.pc],
          if Call(f, p).SyncingDirectory? && n > 0 then {Found(f.fs, final)} else m.possible)
  }

  function Unlinked(s: FsState, p: Path): FsState { s.(dir := s.dir - {p}, older := s.older + [s.dir]) }

  /** No call is under way, and of none is it known how it ended. */
  ghost predicate Stopped(f: Fleet) { forall p <- f.calls :: f.calls[p] == Idle(None) }

  ghost predicate Happens(f: Fleet, e: Event, t: Fleet, names: set<Path>, final: Path) {
    match e
    case Start(p, form, payload) =>
      p in names && Call(f, p).Idle? && t == f.(calls := f.calls[p := Opening(form, payload)])
    case Perform(p, n) => p in names && !Call(f, p).Idle? && t == Performed(f, p, final, n)
    case Remove(p) => p in names && Call(f, p).Idle? && t == f.(fs := Unlinked(f.fs, p))
    case Restart => f.fs.Valid() && CrashRelation(f.fs, t.fs) && Stopped(t) && t.possible == f.possible
  }

  ghost predicate IsHistory(fs: seq<Fleet>, events: seq<Event>, names: set<Path>, final: Path) {
    && |fs| == |events| + 1
    && forall k :: 0 <= k < |events| ==> Happens(fs[k], events[k], fs[k + 1], names, final)
  }

  // ---- The disk between and during the calls ----

  /** No version of the directory has the same file under both names. */
  ghost predicate Apart(s: FsState, p: Path, q: Path) {
    forall v <- s.Versions() :: p in v && q in v ==> v[p] != v[q]
  }

  /** `DurableFileWrite.Ready` for every temporary name, and the names apart from each other. */
  ghost predicate AllReady(s: FsState, names: set<Path>, final: Path, allowed: set<Option<Content>>) {
    && s.Valid()
    && (forall p <- names :: Ready(s, p, final, allowed))
    && (forall p <- names, q <- names :: p != q ==> Apart(s, p, q))
  }

  /** The file under the name `q` is the same, and so are its bytes. */
  ghost predicate Untouched(s: FsState, t: FsState, q: Path) {
    && (q in s.dir <==> q in t.dir)
    && (q in s.dir ==> t.dir[q] == s.dir[q])
    && (q in s.dir && s.dir[q] in s.inodes ==> s.dir[q] in t.inodes && t.inodes[s.dir[q]] == s.inodes[s.dir[q]])
  }

  lemma TruncateBeside(s: FsState, p: Path, q: Path, final: Path, allowed: set<Option<Content>>)
    requires Ready(s, p, final, allowed) && Ready(s, q, final, allowed) && p != q && Apart(s, p, q)
    ensures var t := Truncate(s, p).0;
      Ready(t, q, final, allowed) && Apart(t, p, q) && Apart(t, q, p) && Untouched(s, t, q)
  {
    var t := Truncate(s, p).0;
    assert s.dir in s.Versions() by { assert s.Versions()[|s.older|] == s.dir; }
    if p in s.dir {
      assert t.Versions() == s.Versions();
    } else {
      assert t.Versions() == s.Versions() + [t.dir];
    }
  }

  lemma WriteBeside(s: FsState, h: nat, i: Inode, p: Path, q: Path, final: Path, allowed: set<Option<Content>>)
    requires Writing(s, p, final, allowed, h) && Ready(s, q, final, allowed) && p != q && Apart(s, p, q)
    ensures var t := s.(inodes := s.inodes[h := i]);
      Ready(t, q, final, allowed) && Apart(t, p, q) && Apart(t, q, p) && Untouched(s, t, q)
  {
    var t := s.(inodes := s.inodes[h := i]);
    assert s.dir in s.Versions() by { assert s.Versions()[|s.older|] == s.dir; }
    assert t.Versions() == s.Versions();
  }

  lemma RenameBeside(s: FsState, h: nat, payload: Content, p: Path, q: Path, final: Path, allowed: set<Option<Content>>)
    requires Writing(s, p, final, allowed, h) && s.inodes[h] == Inode(payload, true)
    requires Ready(s, q, final, allowed) && p != q && Apart(s, p, q)
    ensures var t := Rename(s, p, final);
      Ready(t, q, final, allowed + {Some(payload)}) && Apart(t, p, q) && Apart(t, q, p) && Untouched(s, t, q)
  {
    var t := Rename(s, p, final);
    assert s.dir in s.Versions() by { assert s.Versions()[|s.older|] == s.dir; }
    assert t.Versions() == s.Versions() + [t.dir];
  }

  lemma SyncSettles(s: FsState, q: Path, final: Path, allowed: set<Option<Content>>)
    requires Ready(s, q, final, allowed)
    ensures Ready(FsyncDirectory(s), q, final, {Found(s, final)}) && Found(s, final) in allowed
    ensures Untouched(s, FsyncDirectory(s), q)
  {
    var t := FsyncDirectory(s);
    assert t.Versions() == [s.dir];
    assert s.dir in s.Versions() by { assert s.Versions()[|s.older|] == s.dir; }
  }

  lemma UnlinkKeepsReady(s: FsState, p: Path, q: Path, final: Path, allowed: set<Option<Content>>)
    requires Ready(s, q, final, allowed) && p != final
    ensures Ready(Unlinked(s, p), q, final, allowed)
    ensures p != q ==> Untouched(s, Unlinked(s, p), q)
  {
    var t := Unlinked(s, p);
    assert s.dir in s.Versions() by { assert s.Versions()[|s.older|] == s.dir; }
    assert t.Versions() == s.Versions() + [t.dir];
  }

  lemma StillApart(s: FsState, t: FsState, q: Path, r: Path)
    requires Apart(s, q, r) && Untouched(s, t, q) && Untouched(s, t, r)
    requires forall v <- t.older :: v in s.Versions()
    ensures Apart(t, q, r)
  {
    assert s.dir in s.Versions() by { assert s.Versions()[|s.older|] == s.dir; }
  }

  // ---- The invariant of every state ----

  /** As `PcFits`, but after its rename a call may find the file of another call at the final path. */
  ghost predicate Fits(f: Fleet, p: Path, final: Path) {
    Call(f, p).SyncingDirectory? || PcFits(Alone(f, p), p, final)
  }

  ghost predicate FleetInv(f: Fleet, names: set<Path>, final: Path) {
    AllReady(f.fs, names, final, f.possible) && forall p <- names :: Fits(f, p, final)
  }

  lemma FitsStays(f: Fleet, t: Fleet, q: Path, final: Path)
    requires Fits(f, q, final) && Ready(t.fs, q, final, t.possible)
    requires Untouched(f.fs, t.fs, q) && Call(t, q) == Call(f, q)
    ensures Fits(t, q, final)
  {
    hide Ready;
  }

  /** What an operation of the call under `p` does to that call. */
  lemma PerformKeepsOwn(f: Fleet, p: Path, n: nat, final: Path)
    requires Ready(f.fs, p, final, f.possible) && Fits(f, p, final) && !Call(f, p).Idle?
    ensures var t := Performed(f, p, final, n);
      Ready(t.fs, p, final, t.possible) && Fits(t, p, final) && t.fs.Valid()
  {
    hide Ready, Operated, Found;
    if Call(f, p).SyncingDirectory? {
      SyncingOperated(f, p, n, final);
      SyncSettles(f.fs, p, final, f.possible);
    } else {
      StepKeepsInv(Alone(f, p), Operate(n), Operated(Alone(f, p), p, final, n), p, final);
    }
    ReadyIsValid(f, p, n, final);
  }

  lemma ReadyIsValid(f: Fleet, p: Path, n: nat, final: Path)
    ensures var t := Performed(f, p, final, n); Ready(t.fs, p, final, t.possible) ==> t.fs.Valid()
  {
    hide Operated, Found;
  }

  lemma SyncingOperated(f: Fleet, p: Path, n: nat, final: Path)
    requires Call(f, p).SyncingDirectory?
    ensures var t := Performed(f, p, final, n);
      && t.fs == (if n > 0 then FsyncDirectory(f.fs) else f.fs)
      && t.possible == (if n > 0 then {Found(f.fs, final)} else f.possible)
      && t.calls == f.calls[p := Idle(Some(Returned(n > 0)))]
  {
  }

  /** What it does to the call under another name, and to the file at the final path. */
  lemma PerformKeepsOther(f: Fleet, p: Path, n: nat, q: Path, final: Path)
    requires Ready(f.fs, p, final, f.possible) && Fits(f, p, final) && !Call(f, p).Idle?
    requires Ready(f.fs, q, final, f.possible) && p != q && Apart(f.fs, p, q)
    ensures var t := Performed(f, p, final, n);
      && Ready(t.fs, q, final, t.possible) && Apart(t.fs, p, q) && Apart(t.fs, q, p) && Untouched(f.fs, t.fs, q)
  {
    hide Ready, Apart, Untouched, Truncate, Rename, Found;
    NothingTouched(f.fs, p, q);
    match Call(f, p)
    case Opening(_, _) => TruncateBeside(f.fs, p, q, final, f.possible);
    case Filling(_, payload, h, written) =>
      if 0 < n <= |payload| - written {
        var i := Inode(f.fs.inodes[h].cached + payload[written..written + n], false);
        WriteBeside(f.fs, h, i, p, q, final, f.possible);
      }
    case Syncing(payload, h) => WriteBeside(f.fs, h, f.fs.inodes[h].(synced := true), p, q, final, f.possible);
    case Renaming(payload, h) => RenameBeside(f.fs, h, payload, p, q, final, f.possible);
    case SyncingDirectory(_) =>
      SyncSettles(f.fs, q, final, f.possible);
      SyncKeepsApart(f.fs, p, q);
    case _ =>
  }

  lemma NothingTouched(s: FsState, p: Path, q: Path)
    requires Apart(s, p, q)
    ensures Apart(s, q, p) && Untouched(s, s, q)
  {
  }

  lemma SyncKeepsApart(s: FsState, p: Path, q: Path)
    requires Apart(s, p, q)
    ensures Apart(FsyncDirectory(s), p, q) && Apart(FsyncDirectory(s), q, p)
  {
    assert FsyncDirectory(s).Versions() == [s.dir];
    assert s.dir in s.Versions() by { assert s.Versions()[|s.older|] == s.dir; }
  }

  lemma OlderVersionsWere(f: Fleet, p: Path, n: nat, final: Path)
    ensures forall v <- Performed(f, p, final, n).fs.older :: v in f.fs.Versions()
  {
    hide Found;
    assert f.fs.dir in f.fs.Versions() by { assert f.fs.Versions()[|f.fs.older|] == f.fs.dir; }
  }

  lemma PerformKeepsInv(f: Fleet, p: Path, n: nat, names: set<Path>, final: Path)
    requires FleetInv(f, names, final) && p in names && !Call(f, p).Idle?
    ensures FleetInv(Performed(f, p, final, n), names, final)
  {
    hide Ready, Apart, Untouched, Fits, Operated, Found;
    var t := Performed(f, p, final, n);
    PerformKeepsOwn(f, p, n, final);
    OlderVersionsWere(f, p, n, final);
    forall q | q in names && q != p
      ensures Ready(t.fs, q, final, t.possible) && Fits(t, q, final)
      ensures Apart(t.fs, p, q) && Apart(t.fs, q, p) && Untouched(f.fs, t.fs, q)
    {
      PerformKeepsOther(f, p, n, q, final);
      FitsStays(f, t, q, final);
    }
    forall q, r | q in names && r in names && q != r
      ensures Apart(t.fs, q, r)
    {
      if q != p && r != p { StillApart(f.fs, t.fs, q, r); }
    }
  }

  lemma RemoveKeepsInv(f: Fleet, p: Path, names: set<Path>, final: Path)
    requires FleetInv(f, names, final) && p in names && Call(f, p).Idle?
    ensures FleetInv(f.(fs := Unlinked(f.fs, p)), names, final)
  {
    hide Ready, Untouched, Fits;
    var t := f.(fs := Unlinked(f.fs, p));
    UnlinkKeepsValid(f.fs, p);
    forall q | q in names
      ensures Ready(t.fs, q, final, t.possible) && Fits(t, q, final)
    {
      FinalIsNoName(f.fs, p, final, f.possible);
      UnlinkKeepsReady(f.fs, p, q, final, f.possible);
      if q == p { IdleFits(t, p, final); } else { FitsStays(f, t, q, final); }
    }
    forall q, r | q in names && r in names && q != r
      ensures Apart(t.fs, q, r)
    {
      UnlinkKeepsApart(f.fs, p, q, r);
    }
  }

  lemma FinalIsNoName(s: FsState, p: Path, final: Path, allowed: set<Option<Content>>)
    requires Ready(s, p, final, allowed)
    ensures p != final
  {
  }

  lemma IdleFits(f: Fleet, p: Path, final: Path)
    requires Call(f, p).Idle?
    ensures Fits(f, p, final)
  {
  }

  lemma UnlinkKeepsValid(s: FsState, p: Path)
    requires s.Valid()
    ensures Unlinked(s, p).Valid()
  {
    assert s.dir in s.Versions() by { assert s.Versions()[|s.older|] == s.dir; }
    assert Unlinked(s, p).Versions() == s.Versions() + [s.dir - {p}];
  }

  lemma UnlinkKeepsApart(s: FsState, p: Path, q: Path, r: Path)
    requires Apart(s, q, r)
    ensures Apart(Unlinked(s, p), q, r)
  {
    assert s.dir in s.Versions() by { assert s.Versions()[|s.older|] == s.dir; }
    assert Unlinked(s, p).Versions() == s.Versions() + [s.dir - {p}];
  }

  lemma RestartKeepsInv(f: Fleet, t: Fleet, names: set<Path>, final: Path)
    requires FleetInv(f, names, final) && CrashRelation(f.fs, t.fs) && Stopped(t) && t.possible == f.possible
    ensures FleetInv(t, names, final)
  {
    hide Ready, CrashRelation, Fits;
    RestartKeepsValid(f.fs, t.fs);
    forall q | q in names
      ensures Ready(t.fs, q, final, t.possible) && Fits(t, q, final)
    {
      CrashKeepsReady(f.fs, t.fs, q, final, f.possible);
      IdleFits(t, q, final);
    }
    forall q, r | q in names && r in names && q != r
      ensures Apart(t.fs, q, r)
    {
      RestartKeepsApart(f.fs, t.fs, q, r);
    }
  }

  lemma RestartKeepsValid(s: FsState, t: FsState)
    requires s.Valid() && CrashRelation(s, t)
    ensures t.Valid()
  {
    assert t.Versions() == [t.dir];
  }

  lemma RestartKeepsApart(s: FsState, t: FsState, q: Path, r: Path)
    requires s.Valid() && CrashRelation(s, t) && Apart(s, q, r)
    ensures Apart(t, q, r)
  {
    assert t.Versions() == [t.dir];
  }

  lemma StartKeepsInv(f: Fleet, p: Path, pc: Pc, names: set<Path>, final: Path)
    requires FleetInv(f, names, final) && pc.Opening?
    ensures FleetInv(f.(calls := f.calls[p := pc]), names, final)
  {
    hide Ready, Apart;
  }

  lemma EventKeepsInv(f: Fleet, e: Event, t: Fleet, names: set<Path>, final: Path)
    requires FleetInv(f, names, final) && Happens(f, e, t, names, final)
    ensures FleetInv(t, names, final)
  {
    hide FleetInv, CrashRelation;
    match e
    case Start(p, form, payload) => StartKeepsInv(f, p, Opening(form, payload), names, final);
    case Perform(p, n) => PerformKeepsInv(f, p, n, names, final);
    case Remove(p) => RemoveKeepsInv(f, p, names, final);
    case Restart => RestartKeepsInv(f, t, names, final);
  }

  lemma {:induction false} HistoryKeepsInv(fs: seq<Fleet>, events: seq<Event>, names: set<Path>, final: Path)
    requires IsHistory(fs, events, names, final) && FleetInv(fs[0], names, final)
    ensures FleetInv(fs[|events|], names, final)
  {
    hide FleetInv, Happens;
    var n := |events|;
    if n > 0 {
      HistoryKeepsInv(fs[..n], events[..n - 1], names, final);
      EventKeepsInv(fs[n - 1], events[n - 1], fs[n], names, final);
    }
  }

  // ---- What every history keeps ----

  /** The call of this event renames its payload into place. */
  ghost predicate Publishes(f: Fleet, e: Event, t: Fleet, c: Option<Content>) {
    && e.Perform? && Call(f, e.name).Renaming? && Call(t, e.name).SyncingDirectory?
    && c == Some(Call(f, e.name).payload)
  }

  /** A call that reached its rename between the two points put `c` there. */
  ghost predicate Published(fs: seq<Fleet>, events: seq<Event>, since: nat, until: nat, c: Option<Content>)
    requires |fs| == |events| + 1 && until <= |events|
  {
    exists k :: since <= k < until && Publishes(fs[k], events[k], fs[k + 1], c)
  }

  ghost predicate Started(events: seq<Event>, p: Path, payload: Content) {
    exists k :: 0 <= k < |events| && events[k].Start? && events[k].name == p && events[k].payload == payload
  }

  ghost predicate SomeStarted(events: seq<Event>, c: Option<Content>) {
    exists p, payload :: Started(events, p, payload) && c == Some(payload)
  }

  lemma EventPossible(f: Fleet, e: Event, t: Fleet, names: set<Path>, final: Path, c: Option<Content>)
    requires FleetInv(f, names, final) && Happens(f, e, t, names, final) && c in t.possible
    ensures c in f.possible || Publishes(f, e, t, c)
  {
    hide Ready, Truncate, Found, Fits, Rename, CrashRelation;
    if e.Perform? && Call(f, e.name).SyncingDirectory? { SyncSettles(f.fs, e.name, final, f.possible); }
  }

  lemma {:induction false} PossibleWasPublished(fs: seq<Fleet>, events: seq<Event>, names: set<Path>, final: Path,
                                                since: nat, until: nat, c: Option<Content>)
    requires IsHistory(fs, events, names, final) && FleetInv(fs[0], names, final)
    requires since <= until <= |events| && c in fs[until].possible
    ensures c in fs[since].possible || Published(fs, events, since, until, c)
    decreases until
  {
    hide FleetInv, Happens, Publishes;
    if since < until {
      var k := until - 1;
      InvAt(fs, events, names, final, k);
      assert Happens(fs[k], events[k], fs[k + 1], names, final);
      EventPossible(fs[k], events[k], fs[k + 1], names, final, c);
      if c in fs[k].possible { PossibleWasPublished(fs, events, names, final, since, k, c); }
    }
  }

  lemma InvAt(fs: seq<Fleet>, events: seq<Event>, names: set<Path>, final: Path, k: nat)
    requires IsHistory(fs, events, names, final) && FleetInv(fs[0], names, final) && k <= |events|
    ensures FleetInv(fs[k], names, final)
  {
    hide FleetInv, Happens;
    HistoryKeepsInv(fs[..k + 1], events[..k], names, final);
  }

  lemma {:induction false} CallsWereStarted(fs: seq<Fleet>, events: seq<Event>, names: set<Path>, final: Path, k: nat,
                                            p: Path)
    requires IsHistory(fs, events, names, final) && k <= |events|
    requires Call(fs[0], p).Idle? && !Call(fs[k], p).Idle?
    ensures Started(events[..k], p, Call(fs[k], p).payload)
    decreases k
  {
    hide Truncate, Rename, Found, CrashRelation;
    var e := events[k - 1];
    assert Happens(fs[k - 1], e, fs[k], names, final);
    assert events[..k][k - 1] == e;
    if !(e.Start? && e.name == p) {
      CallsWereStarted(fs, events, names, final, k - 1, p);
      StartedEarlier(events, k, p, Call(fs[k - 1], p).payload);
    }
  }

  lemma StartedEarlier(events: seq<Event>, k: nat, p: Path, payload: Content)
    requires 0 < k <= |events| && Started(events[..k - 1], p, payload)
    ensures Started(events[..k], p, payload)
  {
    var j :| 0 <= j < k - 1 && events[..k - 1][j].Start? && events[..k - 1][j].name == p &&
      events[..k - 1][j].payload == payload;
    assert events[..k][j] == events[..k - 1][j];
  }

  lemma PublishedWasStarted(fs: seq<Fleet>, events: seq<Event>, names: set<Path>, final: Path, c: Option<Content>)
    requires IsHistory(fs, events, names, final) && Stopped(fs[0]) && Published(fs, events, 0, |events|, c)
    ensures SomeStarted(events, c)
  {
    hide Happens;
    var k :| 0 <= k < |events| && Publishes(fs[k], events[k], fs[k + 1], c);
    var p := events[k].name;
    CallsWereStarted(fs, events, names, final, k, p);
    var payload := Call(fs[k], p).payload;
    var j :| 0 <= j < k && events[..k][j].Start? && events[..k][j].name == p && events[..k][j].payload == payload;
    assert events[j] == events[..k][j];
    assert Started(events, p, payload);
  }

  lemma InvIsSafe(f: Fleet, names: set<Path>, final: Path)
    requires FleetInv(f, names, final) && names != {}
    ensures OnlyRecovers(f.fs, final, f.possible)
  {
    hide Ready, OnlyRecovers;
    var p :| p in names;
    ReadyIsSafe(f.fs, p, final, f.possible);
  }

  /**
   * Crash safety with any number of calls in flight under distinct temporary names, of either form, interleaved
   * in any way, with failures, clean-ups and restarts anywhere: recovery finds at the final path what was there
   * before, or the whole payload of a call that began in the history and reached its rename.
   */
  lemma HistoryRecovers(fs: seq<Fleet>, events: seq<Event>, names: set<Path>, final: Path)
    requires IsHistory(fs, events, names, final) && names != {}
    requires Stopped(fs[0]) && AllReady(fs[0].fs, names, final, fs[0].possible)
    ensures var now := fs[|events|].fs;
      && now.Valid()
      && forall c :: Recoverable(now, final, c) ==>
           c in fs[0].possible || (SomeStarted(events, c) && Published(fs, events, 0, |events|, c))
  {
    StoppedIsInv(fs[0], names, final);
    hide FleetInv, AllReady, Happens, Recoverable, Published, SomeStarted;
    InvAt(fs, events, names, final, |events|);
    InvIsSafe(fs[|events|], names, final);
    forall c | c in fs[|events|].possible
      ensures c in fs[0].possible || (SomeStarted(events, c) && Published(fs, events, 0, |events|, c))
    {
      PossibleWasPublished(fs, events, names, final, 0, |events|, c);
      if c !in fs[0].possible { PublishedWasStarted(fs, events, names, final, c); }
    }
  }

  lemma StoppedIsInv(f: Fleet, names: set<Path>, final: Path)
    requires Stopped(f) && AllReady(f.fs, names, final, f.possible)
    ensures FleetInv(f, names, final)
  {
    hide AllReady;
  }

  // ---- After a synced return ----

  lemma TruncateKeepsFound(s: FsState, p: Path, final: Path, allowed: set<Option<Content>>)
    requires Ready(s, p, final, allowed)
    ensures Found(Truncate(s, p).0, final) == Found(s, final)
  {
    assert s.dir in s.Versions() by { assert s.Versions()[|s.older|] == s.dir; }
  }

  lemma WriteKeepsFound(s: FsState, p: Path, final: Path, allowed: set<Option<Content>>, h: nat, i: Inode)
    requires Writing(s, p, final, allowed, h)
    ensures Found(s.(inodes := s.inodes[h := i]), final) == Found(s, final)
  {
    assert s.dir in s.Versions() by { assert s.Versions()[|s.older|] == s.dir; }
  }

  /** What running programs read at the final path changes by renames only. */
  lemma EventFound(f: Fleet, e: Event, t: Fleet, names: set<Path>, final: Path)
    requires FleetInv(f, names, final) && Happens(f, e, t, names, final) && !e.Restart?
    ensures Found(t.fs, final) == Found(f.fs, final) || Publishes(f, e, t, Found(t.fs, final))
    ensures forall c :: Publishes(f, e, t, c) ==> Found(t.fs, final) == c
  {
    hide Ready, Truncate, Apart;
    if e.Perform? {
      var p := e.name;
      match Call(f, p)
      case Opening(_, _) => TruncateKeepsFound(f.fs, p, final, f.possible);
      case Filling(_, payload, h, written) =>
        if 0 < e.n <= |payload| - written {
          var i := Inode(f.fs.inodes[h].cached + payload[written..written + e.n], false);
          WriteKeepsFound(f.fs, p, final, f.possible, h, i);
        }
      case Syncing(payload, h) => WriteKeepsFound(f.fs, p, final, f.possible, h, f.fs.inodes[h].(synced := true));
      case _ =>
    } else if e.Remove? {
      FinalIsNoName(f.fs, e.name, final, f.possible);
    }
  }

  /** The call under `p` has renamed and stands at its directory fsync from `from` up to `until`. */
  ghost predicate Settling(fs: seq<Fleet>, p: Path, payload: Content, from: nat, until: nat)
    requires until < |fs|
  {
    forall i :: from <= i <= until ==> Call(fs[i], p) == SyncingDirectory(payload)
  }

  lemma {:induction false} FoundWhileSettling(fs: seq<Fleet>, events: seq<Event>, names: set<Path>, final: Path,
                                              j: nat, i: nat, p: Path, payload: Content)
    requires IsHistory(fs, events, names, final) && FleetInv(fs[0], names, final)
    requires j < i <= |events| && Settling(fs, p, payload, j + 1, i)
    requires Publishes(fs[j], events[j], fs[j + 1], Some(payload))
    ensures Found(fs[i].fs, final) == Some(payload) || Published(fs, events, j + 1, i, Found(fs[i].fs, final))
    decreases i
  {
    hide FleetInv, Publishes, Found;
    var k := i - 1;
    InvAt(fs, events, names, final, k);
    if k == j {
      PublishingIsNoRestart(fs[j], events[j], fs[j + 1], Some(payload));
      EventFound(fs[j], events[j], fs[j + 1], names, final);
    } else {
      StoppedIsNotSettling(fs[i], p, payload);
      EventFound(fs[k], events[k], fs[i], names, final);
      hide Happens, Stopped;
      FoundWhileSettling(fs, events, names, final, j, k, p, payload);
      LaterPublished(fs, events, j + 1, k, i, Found(fs[k].fs, final));
    }
  }

  lemma PublishingIsNoRestart(f: Fleet, e: Event, t: Fleet, c: Option<Content>)
    requires Publishes(f, e, t, c)
    ensures !e.Restart?
  {
  }

  lemma StoppedIsNotSettling(f: Fleet, p: Path, payload: Content)
    requires Call(f, p) == SyncingDirectory(payload)
    ensures !Stopped(f)
  {
  }

  lemma LaterPublished(fs: seq<Fleet>, events: seq<Event>, since: nat, until: nat, later: nat, c: Option<Content>)
    requires |fs| == |events| + 1 && until <= later <= |events|
    ensures Published(fs, events, since, until, c) ==> Published(fs, events, since, later, c)
  {
    hide Publishes;
  }

  lemma SettledNow(f: Fleet, e: Event, t: Fleet, names: set<Path>, final: Path, p: Path, payload: Content)
    requires Happens(f, e, t, names, final)
    requires Call(f, p) == SyncingDirectory(payload) && Call(t, p) == Idle(Some(Returned(true)))
    ensures t.possible == {Found(f.fs, final)}
  {
    hide Found, CrashRelation;
  }

  /**
   * Once a call has returned with its directory fsynced, only its payload can be found, or that of a call that
   * renamed after it did, be it one that began earlier.
   */
  lemma SyncedReturnIsFinal(fs: seq<Fleet>, events: seq<Event>, names: set<Path>, final: Path, j: nat, k: nat, p: Path,
                            payload: Content)
    requires IsHistory(fs, events, names, final) && names != {}
    requires Stopped(fs[0]) && AllReady(fs[0].fs, names, final, fs[0].possible)
    requires j < k < |events| && Publishes(fs[j], events[j], fs[j + 1], Some(payload))
    requires Settling(fs, p, payload, j + 1, k) && Call(fs[k + 1], p) == Idle(Some(Returned(true)))
    ensures fs[|events|].fs.Valid()
    ensures forall c :: Recoverable(fs[|events|].fs, final, c) ==>
              c == Some(payload) || Published(fs, events, j + 1, |events|, c)
  {
    StoppedIsInv(fs[0], names, final);
    SettledNow(fs[k], events[k], fs[k + 1], names, final, p, payload);
    hide FleetInv, AllReady, Happens, Recoverable, Publishes, Found, Stopped;
    FoundWhileSettling(fs, events, names, final, j, k, p, payload);
    InvAt(fs, events, names, final, |events|);
    InvIsSafe(fs[|events|], names, final);
    forall c | c in fs[|events|].possible
      ensures c == Some(payload) || Published(fs, events, j + 1, |events|, c)
    {
      PossibleWasPublished(fs, events, names, final, k + 1, |events|, c);
      LaterPublished(fs, events, j + 1, k, |events|, c);
    }
  }

  // ---- A single name is the machine of DurableFileWrite ----

  function AsFleet(m: Machine, tmp: Path): Fleet { Fleet(m.fs, map[tmp := m.pc], m.possible) }

  function AsEvent(a: Action, tmp: Path): Event {
    match a
    case Begin(form, payload) => Start(tmp, form, payload)
    case Operate(n) => Perform(tmp, n)
    case Crash => Restart
  }

  lemma StepHappens(m: Machine, a: Action, t: Machine, tmp: Path, final: Path)
    requires Inv(m, tmp, final) && Step(m, a, t, tmp, final)
    ensures Happens(AsFleet(m, tmp), AsEvent(a, tmp), AsFleet(t, tmp), {tmp}, final)
  {
    hide Ready, Truncate, Rename, CrashRelation;
    assert m.fs.dir in m.fs.Versions() by { assert m.fs.Versions()[|m.fs.older|] == m.fs.dir; }
    assert AsFleet(m, tmp).calls[tmp := t.pc] == AsFleet(t, tmp).calls;
  }

  /** One call after another under one name, as the code of a call is proved to run, is such a history. */
  lemma RunIsHistory(ms: seq<Machine>, run: seq<Action>, tmp: Path, final: Path)
    requires IsRun(ms, run, tmp, final) && Inv(ms[0], tmp, final)
    ensures IsHistory(seq(|ms|, k requires 0 <= k < |ms| => AsFleet(ms[k], tmp)),
                      seq(|run|, k requires 0 <= k < |run| => AsEvent(run[k], tmp)), {tmp}, final)
  {
    hide Inv, Step, Happens;
    forall k | 0 <= k < |run|
      ensures Happens(AsFleet(ms[k], tmp), AsEvent(run[k], tmp), AsFleet(ms[k + 1], tmp), {tmp}, final)
    {
      RunPart(ms, run, tmp, final, k);
      RunKeepsInv(ms[..k + 1], run[..k], tmp, final);
      StepHappens(ms[k], run[k], ms[k + 1], tmp, final);
    }
  }
}
