/**
 * Crash-safe replacement of a file: write a temporary file, fsync it, rename it over the final
 * path, fsync the directory (src/main/durable-file-write.ts).
 *
 * The disk has a cached half, which running programs see, and a durable half, which a crash
 * leaves behind.  File contents and directory entries become durable independently:
 *  - an inode that was not fsynced since its last change may hold anything after a crash;
 *  - the directory may come back as any version it has had since it was last fsynced.
 */
module DurableFileWrite {
  import opened Options

  type Path = string
  type Content = string
  type Directory = map<Path, nat>

  datatype Inode = Inode(cached: Content, synced: bool)

  /** `older` lists the directory versions a crash may still bring back, besides `dir` itself. */
  datatype FsState = FsState(dir: Directory, older: seq<Directory>, inodes: map<nat, Inode>, next: nat)
  {
    ghost function Versions(): seq<Directory> { older + [dir] }

    ghost predicate Valid() {
      && (forall i <- inodes :: i < next)
      && (forall v <- Versions(), p <- v :: v[p] in inodes)
    }

    /** What a program reads at `p` while the machine stays up. */
    ghost function Live(p: Path): Option<Content>
      requires Valid()
    {
      assert dir in Versions() by { assert Versions()[|older|] == dir; }
      if p in dir then Some(inodes[dir[p]].cached) else None
    }
  }

  /** After a crash now, recovery may find `c` at path `p`. */
  ghost predicate Recoverable(s: FsState, p: Path, c: Option<Content>)
    requires s.Valid()
  {
    exists v <- s.Versions() ::
      if p in v then c.Some? && (s.inodes[v[p]].synced ==> c.value == s.inodes[v[p]].cached)
      else c.None?
  }

  /** Whatever recovery finds at `p`, it is one of the contents in `allowed`. */
  ghost predicate OnlyRecovers(s: FsState, p: Path, allowed: set<Option<Content>>) {
    && s.Valid()
    && forall c :: Recoverable(s, p, c) ==> c in allowed
  }

  /** The machine restarts: one surviving directory version, arbitrary bytes in unsynced inodes. */
  ghost predicate CrashRelation(s: FsState, t: FsState)
    requires s.Valid()
  {
    && t.dir in s.Versions() && t.older == [] && t.next == s.next
    && t.inodes.Keys == s.inodes.Keys
    && forall i <- s.inodes :: t.inodes[i].synced && (s.inodes[i].synced ==> t.inodes[i] == s.inodes[i])
  }

  // ---- System calls, on values ----

  /** open(p, 'w'): truncate the file at `p`, or create it. */
  function Truncate(s: FsState, p: Path): (FsState, nat) {
    if p in s.dir then
      (s.(inodes := s.inodes[s.dir[p] := Inode("", false)]), s.dir[p])
    else
      (FsState(s.dir[p := s.next], s.older + [s.dir], s.inodes[s.next := Inode("", false)], s.next + 1), s.next)
  }

  function Append(s: FsState, h: nat, data: Content): FsState
    requires h in s.inodes
  {
    s.(inodes := s.inodes[h := Inode(s.inodes[h].cached + data, false)])
  }

  function Fsync(s: FsState, h: nat): FsState
    requires h in s.inodes
  {
    s.(inodes := s.inodes[h := s.inodes[h].(synced := true)])
  }

  function Rename(s: FsState, from: Path, to: Path): FsState
    requires from in s.dir
  {
    s.(dir := (s.dir - {from})[to := s.dir[from]], older := s.older + [s.dir])
  }

  function FsyncDirectory(s: FsState): FsState { s.(older := []) }

  // ---- The invariant between calls ----

  /**
   * `final` recovers only to contents in `allowed`, and the temporary name never shares an inode
   * with it, so truncating the temporary file cannot touch the published one.
   */
  ghost predicate Ready(s: FsState, tmp: Path, final: Path, allowed: set<Option<Content>>) {
    && s.Valid() && tmp != final
    && (forall v <- s.Versions() ::
          && (final in v ==> s.inodes[v[final]].synced && Some(s.inodes[v[final]].cached) in allowed)
          && (final !in v ==> None in allowed)
          && (tmp in v && final in v ==> v[tmp] != v[final])
          && (tmp in s.dir && final in v ==> v[final] != s.dir[tmp]))
  }

  /** The temporary file is open at inode `h`. */
  ghost predicate Writing(s: FsState, tmp: Path, final: Path, allowed: set<Option<Content>>, h: nat) {
    Ready(s, tmp, final, allowed) && tmp in s.dir && s.dir[tmp] == h && h in s.inodes
  }

  lemma ReadyIsSafe(s: FsState, tmp: Path, final: Path, allowed: set<Option<Content>>)
    requires Ready(s, tmp, final, allowed)
    ensures OnlyRecovers(s, final, allowed)
  {
  }

  lemma TruncateKeepsReady(s: FsState, tmp: Path, final: Path, allowed: set<Option<Content>>)
    requires Ready(s, tmp, final, allowed)
    ensures var (t, h) := Truncate(s, tmp); Writing(t, tmp, final, allowed, h) && t.inodes[h].cached == ""
  {
    var (t, h) := Truncate(s, tmp);
    assert s.dir in s.Versions() by { assert s.Versions()[|s.older|] == s.dir; }
    if tmp in s.dir {
      assert t.Versions() == s.Versions();
    } else {
      assert t.Versions() == s.Versions() + [t.dir];
    }
  }

  lemma AppendKeepsWriting(s: FsState, tmp: Path, final: Path, allowed: set<Option<Content>>, h: nat, data: Content)
    requires Writing(s, tmp, final, allowed, h)
    ensures Writing(Append(s, h, data), tmp, final, allowed, h)
  {
    assert Append(s, h, data).Versions() == s.Versions();
  }

  lemma FsyncKeepsWriting(s: FsState, tmp: Path, final: Path, allowed: set<Option<Content>>, h: nat)
    requires Writing(s, tmp, final, allowed, h)
    ensures Writing(Fsync(s, h), tmp, final, allowed, h)
  {
    assert Fsync(s, h).Versions() == s.Versions();
  }

  lemma RenamePublishes(s: FsState, tmp: Path, final: Path, allowed: set<Option<Content>>, h: nat, payload: Content)
    requires Writing(s, tmp, final, allowed, h) && s.inodes[h] == Inode(payload, true)
    ensures Ready(Rename(s, tmp, final), tmp, final, allowed + {Some(payload)})
    ensures Rename(s, tmp, final).Live(final) == Some(payload)
  {
    var t := Rename(s, tmp, final);
    assert t.Versions() == s.Versions() + [t.dir];
    assert s.dir in s.Versions() by { assert s.Versions()[|s.older|] == s.dir; }
    assert t.dir in t.Versions() by { assert t.Versions()[|t.older|] == t.dir; }
  }

  lemma FsyncDirectoryForgets(s: FsState, tmp: Path, final: Path, allowed: set<Option<Content>>, payload: Content)
    requires Ready(s, tmp, final, allowed) && s.Live(final) == Some(payload)
    ensures Ready(FsyncDirectory(s), tmp, final, {Some(payload)})
    ensures FsyncDirectory(s).Live(final) == Some(payload)
  {
    var t := FsyncDirectory(s);
    assert t.Versions() == [s.dir];
    assert s.dir in s.Versions() by { assert s.Versions()[|s.older|] == s.dir; }
  }

  /** A restart neither widens what may be found at `final` nor breaks the invariant. */
  lemma CrashKeepsReady(s: FsState, t: FsState, tmp: Path, final: Path, allowed: set<Option<Content>>)
    requires Ready(s, tmp, final, allowed) && CrashRelation(s, t)
    ensures Ready(t, tmp, final, allowed)
    ensures t.Valid() && t.Live(final) in allowed
  {
    assert t.Versions() == [t.dir];
  }

  /** Why the file fsync comes first: renaming an unsynced file lets a crash expose any bytes at all. */
  lemma RenameBeforeFsyncTears(s: FsState, tmp: Path, final: Path, torn: Content)
    requires s.Valid() && tmp != final && tmp in s.dir && s.dir[tmp] in s.inodes && !s.inodes[s.dir[tmp]].synced
    ensures Rename(s, tmp, final).Valid()
    ensures Recoverable(Rename(s, tmp, final), final, Some(torn))
  {
    var t := Rename(s, tmp, final);
    assert t.Versions() == s.Versions() + [t.dir];
    assert t.dir in t.Versions() by { assert t.Versions()[|t.older|] == t.dir; }
    assert s.dir in s.Versions() by { assert s.Versions()[|s.older|] == s.dir; }
    assert t.dir[final] == s.dir[tmp];
  }

  // ---- A program on this disk, one operation at a time ----

  datatype Form = Async | Sync

  datatype WriteResult = Threw | Returned(directorySynced: bool)

  /** Where a call stands: the operation it performs next. */
  datatype Pc =
    | Idle(last: Option<WriteResult>)                              // how the last call ended, if it did
    | Opening(form: Form, payload: Content)
    | Filling(form: Form, payload: Content, h: nat, written: nat)  // partial writes
    | Reopening(payload: Content)                                  // the synchronous form only
    | Syncing(payload: Content, h: nat)
    | Closing(payload: Content, h: nat, failed: bool)
    | Renaming(payload: Content, h: nat)
    | SyncingDirectory(payload: Content)

  /** The disk, the program, and every content that recovery may still find at the final path. */
  datatype Machine = Machine(fs: FsState, pc: Pc, possible: set<Option<Content>>)

  /** `Operate(0)` is a failure; a partial write that succeeds writes the given number of bytes. */
  datatype Action = Begin(form: Form, payload: Content) | Operate(n: nat) | Crash

  function Throw(m: Machine): Machine { m.(pc := Idle(Some(Threw))) }

  /** After `written` bytes; writeFileSync closes its own handle, writeFile leaves it open. */
  function Filled(form: Form, payload: Content, h: nat, written: nat): Pc {
    if written < |payload| then Filling(form, payload, h, written)
    else if form == Async then Syncing(payload, h)
    else Reopening(payload)
  }

  function Operated(m: Machine, tmp: Path, final: Path, n: nat): Machine {
    match m.pc
    case Idle(_) => m
    case Opening(form, payload) =>
      if n == 0 then Throw(m)
      else var (t, h) := Truncate(m.fs, tmp); m.(fs := t, pc := Filled(form, payload, h, 0))
    case Filling(form, payload, h, written) =>
      if 0 < n <= |payload| - written && h in m.fs.inodes then
        m.(fs := Append(m.fs, h, payload[written..written + n]), pc := Filled(form, payload, h, written + n))
      else if form == Async then m.(pc := Closing(payload, h, true))
      else Throw(m)
    case Reopening(payload) =>
      if n > 0 && tmp in m.fs.dir then m.(pc := Syncing(payload, m.fs.dir[tmp])) else Throw(m)
    case Syncing(payload, h) =>
      if n > 0 && h in m.fs.inodes then m.(fs := Fsync(m.fs, h), pc := Closing(payload, h, false))
      else m.(pc := Closing(payload, h, true))
    case Closing(payload, h, failed) =>
      if n > 0 && !failed then m.(pc := Renaming(payload, h)) else Throw(m)
    case Renaming(payload, h) =>
      if n > 0 && tmp in m.fs.dir then
        Machine(Rename(m.fs, tmp, final), SyncingDirectory(payload), m.possible + {Some(payload)})
      else Throw(m)
    case SyncingDirectory(payload) =>
      if n > 0 then Machine(FsyncDirectory(m.fs), Idle(Some(Returned(true))), {Some(payload)})
      else m.(pc := Idle(Some(Returned(false))))
  }

  /** Calls follow one another; the machine may crash before, during and after any of them. */
  ghost predicate Step(m: Machine, a: Action, t: Machine, tmp: Path, final: Path) {
    match a
    case Begin(form, payload) => m.pc.Idle? && t == m.(pc := Opening(form, payload))
    case Operate(n) => !m.pc.Idle? && t == Operated(m, tmp, final, n)
    case Crash => m.fs.Valid() && CrashRelation(m.fs, t.fs) && t.pc == Idle(None) && t.possible == m.possible
  }

  ghost predicate IsRun(ms: seq<Machine>, run: seq<Action>, tmp: Path, final: Path) {
    |ms| == |run| + 1 && forall k :: 0 <= k < |run| ==> Step(ms[k], run[k], ms[k + 1], tmp, final)
  }

  // ---- The invariant of every state, also in the middle of a call ----

  ghost predicate PcFits(m: Machine, tmp: Path, final: Path) {
    match m.pc
    case Idle(last) => true
    case Opening(_, _) => true
    case Filling(_, payload, h, written) =>
      written < |payload| && Writing(m.fs, tmp, final, m.possible, h) && m.fs.inodes[h].cached == payload[..written]
    case Reopening(payload) =>
      tmp in m.fs.dir && Writing(m.fs, tmp, final, m.possible, m.fs.dir[tmp]) &&
        m.fs.inodes[m.fs.dir[tmp]].cached == payload
    case Syncing(payload, h) => Writing(m.fs, tmp, final, m.possible, h) && m.fs.inodes[h].cached == payload
    case Closing(payload, h, failed) =>
      !failed ==> Writing(m.fs, tmp, final, m.possible, h) && m.fs.inodes[h] == Inode(payload, true)
    case Renaming(payload, h) => Writing(m.fs, tmp, final, m.possible, h) && m.fs.inodes[h] == Inode(payload, true)
    case SyncingDirectory(payload) => m.fs.Valid() && m.fs.Live(final) == Some(payload) && Some(payload) in m.possible
  }

  ghost predicate Inv(m: Machine, tmp: Path, final: Path) {
    Ready(m.fs, tmp, final, m.possible) && PcFits(m, tmp, final)
  }

  lemma OpenKeepsInv(m: Machine, tmp: Path, final: Path, n: nat)
    requires Inv(m, tmp, final) && m.pc.Opening?
    ensures Inv(Operated(m, tmp, final, n), tmp, final)
  {
    hide Ready, Truncate;
    TruncateKeepsReady(m.fs, tmp, final, m.possible);
  }

  lemma FillKeepsInv(m: Machine, tmp: Path, final: Path, n: nat)
    requires Inv(m, tmp, final) && m.pc.Filling?
    ensures Inv(Operated(m, tmp, final, n), tmp, final)
  {
    hide Ready;
    var Filling(_, payload, h, written) := m.pc;
    if 0 < n <= |payload| - written {
      AppendKeepsWriting(m.fs, tmp, final, m.possible, h, payload[written..written + n]);
      assert payload[..written] + payload[written..written + n] == payload[..written + n];
      assert payload[..|payload|] == payload;
    }
  }

  lemma SyncKeepsInv(m: Machine, tmp: Path, final: Path, n: nat)
    requires Inv(m, tmp, final) && (m.pc.Reopening? || m.pc.Syncing? || m.pc.Closing?)
    ensures Inv(Operated(m, tmp, final, n), tmp, final)
  {
    hide Ready;
    if m.pc.Syncing? { FsyncKeepsWriting(m.fs, tmp, final, m.possible, m.pc.h); }
  }

  lemma RenameKeepsInv(m: Machine, tmp: Path, final: Path, n: nat)
    requires Inv(m, tmp, final) && m.pc.Renaming?
    ensures Inv(Operated(m, tmp, final, n), tmp, final)
  {
    RenamePublishes(m.fs, tmp, final, m.possible, m.pc.h, m.pc.payload);
  }

  lemma SyncDirectoryKeepsInv(m: Machine, tmp: Path, final: Path, n: nat)
    requires Inv(m, tmp, final) && m.pc.SyncingDirectory?
    ensures Inv(Operated(m, tmp, final, n), tmp, final)
  {
    FsyncDirectoryForgets(m.fs, tmp, final, m.possible, m.pc.payload);
  }

  lemma StepKeepsInv(m: Machine, a: Action, t: Machine, tmp: Path, final: Path)
    requires Inv(m, tmp, final) && Step(m, a, t, tmp, final)
    ensures Inv(t, tmp, final)
  {
    hide Ready, Operated, CrashRelation;
    match a
    case Begin(_, _) =>
    case Crash => CrashKeepsReady(m.fs, t.fs, tmp, final, m.possible);
    case Operate(n) =>
      match m.pc {
        case Opening(_, _) => OpenKeepsInv(m, tmp, final, n);
        case Filling(_, _, _, _) => FillKeepsInv(m, tmp, final, n);
        case Renaming(_, _) => RenameKeepsInv(m, tmp, final, n);
        case SyncingDirectory(_) => SyncDirectoryKeepsInv(m, tmp, final, n);
        case _ => SyncKeepsInv(m, tmp, final, n);
      }
  }

  lemma {:induction false} RunKeepsInv(ms: seq<Machine>, run: seq<Action>, tmp: Path, final: Path)
    requires IsRun(ms, run, tmp, final) && Inv(ms[0], tmp, final)
    ensures Inv(ms[|run|], tmp, final)
  {
    hide Inv, Step;
    var n := |run|;
    if n > 0 {
      RunKeepsInv(ms[..n], run[..n - 1], tmp, final);
      StepKeepsInv(ms[n - 1], run[n - 1], ms[n], tmp, final);
    }
  }

  // ---- What every run keeps ----

  /** The payload of a call that began in the run. */
  ghost predicate Begun(run: seq<Action>, c: Option<Content>) {
    exists k :: 0 <= k < |run| && run[k].Begin? && c == Some(run[k].payload)
  }

  /** The payload of a call that got as far as its rename. */
  ghost predicate Published(ms: seq<Machine>, c: Option<Content>) {
    exists k :: 0 <= k < |ms| && ms[k].pc.SyncingDirectory? && c == Some(ms[k].pc.payload)
  }

  /** A call in progress is one that began in the run. */
  ghost predicate PayloadBegun(pc: Pc, run: seq<Action>) { pc.Idle? || Begun(run, Some(pc.payload)) }

  lemma {:induction false} PossibleWasPublished(ms: seq<Machine>, run: seq<Action>, tmp: Path, final: Path)
    requires IsRun(ms, run, tmp, final) && ms[0].pc.Idle?
    ensures PayloadBegun(ms[|run|].pc, run)
    ensures forall c :: c in ms[|run|].possible ==> c in ms[0].possible || (Begun(run, c) && Published(ms, c))
  {
    hide Truncate, CrashRelation, Rename;
    var n := |run|;
    if n > 0 {
      var rest := run[..n - 1];
      PossibleWasPublished(ms[..n], rest, tmp, final);
      assert Step(ms[n - 1], run[n - 1], ms[n], tmp, final);
      forall c | Begun(rest, c) ensures Begun(run, c) {
        var k :| 0 <= k < |rest| && rest[k].Begin? && c == Some(rest[k].payload);
        assert run[k] == rest[k];
      }
      forall c | Published(ms[..n], c) ensures Published(ms, c) {
        var k :| 0 <= k < n && ms[..n][k].pc.SyncingDirectory? && c == Some(ms[..n][k].pc.payload);
        assert ms[k] == ms[..n][k];
      }
      assert run[n - 1].Begin? ==> Begun(run, Some(run[n - 1].payload));
      assert ms[n].pc.SyncingDirectory? ==> Published(ms, Some(ms[n].pc.payload));
    }
  }

  /**
   * Crash safety.  After any number of operations, calls of either form, failures and restarts, in the
   * middle of a call or between calls, recovery finds at the final path what was there before the run
   * or the whole payload of a call that began in it and reached its rename.
   */
  lemma RunRecovers(ms: seq<Machine>, run: seq<Action>, tmp: Path, final: Path)
    requires IsRun(ms, run, tmp, final) && ms[0].pc.Idle? && Ready(ms[0].fs, tmp, final, ms[0].possible)
    ensures var now := ms[|run|].fs;
      && now.Valid()
      && forall c :: Recoverable(now, final, c) ==> c in ms[0].possible || (Begun(run, c) && Published(ms, c))
  {
    hide Ready, Recoverable, Step, PcFits;
    IdleIsReady(ms[0], tmp, final);
    RunKeepsInv(ms, run, tmp, final);
    PossibleWasPublished(ms, run, tmp, final);
    ReadyIsSafe(ms[|run|].fs, tmp, final, ms[|run|].possible);
  }

  lemma IdleIsReady(m: Machine, tmp: Path, final: Path)
    requires m.pc.Idle? && Ready(m.fs, tmp, final, m.possible)
    ensures Inv(m, tmp, final)
  {
  }

  /** So with one call, whose operations may be cut off anywhere: the old content or the whole new payload. */
  lemma OneCallRecovers(ms: seq<Machine>, run: seq<Action>, tmp: Path, final: Path, former: Option<Content>,
                        payload: Content)
    requires IsRun(ms, run, tmp, final) && ms[0].pc.Idle? && Ready(ms[0].fs, tmp, final, {former}) &&
               ms[0].possible == {former}
    requires forall k :: 0 <= k < |run| && run[k].Begin? ==> run[k].payload == payload
    ensures ms[|run|].fs.Valid()
    ensures forall c :: Recoverable(ms[|run|].fs, final, c) ==> c == former || c == Some(payload)
  {
    RunRecovers(ms, run, tmp, final);
  }

  /** Once a call returned with its directory fsynced, only its payload or that of a later call can be found. */
  lemma SyncedWriteIsFinal(ms: seq<Machine>, run: seq<Action>, tmp: Path, final: Path, k: nat, payload: Content)
    requires IsRun(ms, run, tmp, final) && ms[0].pc.Idle? && Ready(ms[0].fs, tmp, final, ms[0].possible)
    requires k < |run| && ms[k].pc == SyncingDirectory(payload) && ms[k + 1].pc == Idle(Some(Returned(true)))
    ensures ms[|run|].fs.Valid()
    ensures forall c :: Recoverable(ms[|run|].fs, final, c) ==> c == Some(payload) || Begun(run[k + 1..], c)
  {
    hide Ready, Recoverable, PcFits, Truncate, Rename;
    assert Step(ms[k], run[k], ms[k + 1], tmp, final);
    assert ms[k + 1].possible == {Some(payload)};
    RunPart(ms, run, tmp, final, k + 1);
    IdleIsReady(ms[0], tmp, final);
    RunKeepsInv(ms[..k + 2], run[..k + 1], tmp, final);
    RunRecovers(ms[k + 1..], run[k + 1..], tmp, final);
  }

  lemma RunPart(ms: seq<Machine>, run: seq<Action>, tmp: Path, final: Path, k: nat)
    requires IsRun(ms, run, tmp, final) && k <= |run|
    ensures IsRun(ms[..k + 1], run[..k], tmp, final) && IsRun(ms[k..], run[k..], tmp, final)
  {
    hide Step;
    forall j | 0 <= j < |run| - k ensures Step(ms[k..][j], run[k..][j], ms[k..][j + 1], tmp, final) {
      assert Step(ms[k + j], run[k + j], ms[k + j + 1], tmp, final);
    }
  }

  // ---- One call, from begin to end ----

  /** The first action begins the call, the others are its operations, and the machine stays up. */
  ghost predicate IsCall(run: seq<Action>, form: Form, payload: Content) {
    && run != [] && run[0] == Begin(form, payload)
    && forall k :: 0 < k < |run| ==> run[k].Operate?
  }

  /** What the call has done to the contents that may be found, when it stands at `m`. */
  ghost predicate CallEffect(possible: set<Option<Content>>, payload: Content, m: Machine, final: Path) {
    match m.pc
    case Idle(None) => false
    case Idle(Some(Threw)) => m.possible == possible
    case Idle(Some(Returned(synced))) =>
      && m.possible == (if synced then {Some(payload)} else possible + {Some(payload)})
      && m.fs.Valid() && m.fs.Live(final) == Some(payload)
    case SyncingDirectory(p) => p == payload && m.possible == possible + {Some(payload)}
    case _ => m.pc.payload == payload && m.possible == possible
  }

  lemma OperationKeepsEffect(m: Machine, tmp: Path, final: Path, n: nat, possible: set<Option<Content>>,
                             payload: Content)
    requires Inv(m, tmp, final) && !m.pc.Idle? && CallEffect(possible, payload, m, final)
    ensures CallEffect(possible, payload, Operated(m, tmp, final, n), final)
  {
    hide Ready, Truncate, Rename;
    if m.pc.SyncingDirectory? {
      StepKeepsInv(m, Operate(n), Operated(m, tmp, final, n), tmp, final);
      FsyncDirectoryForgets(m.fs, tmp, final, m.possible, m.pc.payload);
    }
  }

  /**
   * A call that throws leaves what may be found as it was.  One that returns has its payload live, and
   * it alone can be found if the directory was fsynced.
   */
  lemma {:induction false} CallOutcome(ms: seq<Machine>, run: seq<Action>, tmp: Path, final: Path, form: Form,
                                       payload: Content)
    requires IsRun(ms, run, tmp, final) && Inv(ms[0], tmp, final) && IsCall(run, form, payload)
    requires forall k :: 0 < k < |run| ==> !ms[k].pc.Idle?
    ensures CallEffect(ms[0].possible, payload, ms[|run|], final)
  {
    hide Inv, Operated;
    var n := |run|;
    assert Step(ms[n - 1], run[n - 1], ms[n], tmp, final);
    if n > 1 {
      CallOutcome(ms[..n], run[..n - 1], tmp, final, form, payload);
      RunPart(ms, run, tmp, final, n - 1);
      RunKeepsInv(ms[..n], run[..n - 1], tmp, final);
      OperationKeepsEffect(ms[n - 1], tmp, final, run[n - 1].n, ms[0].possible, payload);
    }
  }

  // ---- A call that nothing fails in ----

  /** The operation succeeds; a partial write writes something, and no more than is left. */
  predicate Succeeds(m: Machine, a: Action) {
    a.Operate? && a.n > 0 && (m.pc.Filling? ==> a.n <= |m.pc.payload| - m.pc.written)
  }

  /** An upper bound on the operations that a call still performs. */
  function OperationsLeft(pc: Pc): nat {
    match pc
    case Idle(_) => 0
    case Opening(_, payload) => |payload| + 6
    case Filling(_, payload, _, written) => (if written < |payload| then |payload| - written else 0) + 5
    case Reopening(_) => 5
    case Syncing(_, _) => 4
    case Closing(_, _, _) => 3
    case Renaming(_, _) => 2
    case SyncingDirectory(_) => 1
  }

  lemma SuccessGoesOn(m: Machine, tmp: Path, final: Path, a: Action)
    requires Inv(m, tmp, final) && !m.pc.Idle? && !(m.pc.Closing? && m.pc.failed) && Succeeds(m, a)
    ensures var t := Operated(m, tmp, final, a.n);
      && OperationsLeft(t.pc) < OperationsLeft(m.pc) && !(t.pc.Closing? && t.pc.failed)
      && (t.pc.Idle? ==> t.pc == Idle(Some(Returned(true))))
  {
    hide Ready, Truncate, Rename;
  }

  /**
   * A call whose operations all succeed does not throw, and comes to its end after at most one operation a
   * character, and six.
   */
  lemma {:induction false} SuccessReturns(ms: seq<Machine>, run: seq<Action>, tmp: Path, final: Path, form: Form,
                                          payload: Content)
    requires IsRun(ms, run, tmp, final) && Inv(ms[0], tmp, final) && IsCall(run, form, payload)
    requires forall k :: 0 < k < |run| ==> !ms[k].pc.Idle? && Succeeds(ms[k], run[k])
    ensures var pc := ms[|run|].pc;
      && |run| - 1 + OperationsLeft(pc) <= |payload| + 6 && !(pc.Closing? && pc.failed)
      && (pc.Idle? ==> pc == Idle(Some(Returned(true))))
  {
    hide Inv, Operated, Succeeds;
    var n := |run|;
    assert Step(ms[n - 1], run[n - 1], ms[n], tmp, final);
    if n > 1 {
      SuccessReturns(ms[..n], run[..n - 1], tmp, final, form, payload);
      RunPart(ms, run, tmp, final, n - 1);
      RunKeepsInv(ms[..n], run[..n - 1], tmp, final);
      SuccessGoesOn(ms[n - 1], tmp, final, run[n - 1]);
    }
  }

  // ---- The code: each form is a run of the machine ----

  class Disk {
    const tmp: Path
    const final: Path
    /** What the k-th call of the operating system answers. */
    const succeeds: nat -> bool
    var calls: nat
    var s: FsState
    /** Every state the machine has been in, and what took it from each to the next. */
    ghost var ms: seq<Machine>
    ghost var run: seq<Action>
    /** The present call, and the number of actions before it. */
    ghost var form: Form
    ghost var payload: Content
    ghost var from: nat

    ghost predicate Valid()
      reads this`s, this`ms, this`run
    {
      && IsRun(ms, run, tmp, final) && Inv(ms[0], tmp, final) && ms[|run|].fs == s
    }

    ghost function Now(): Machine
      requires Valid()
      reads this`s, this`ms, this`run
    {
      ms[|run|]
    }

    lemma HandleIsKnown(h: nat)
      requires Valid() && (Now().pc.Filling? || Now().pc.Syncing?) && Now().pc.h == h
      ensures h in s.inodes
    {
      NowFits();
    }

    /** The temporary file is still there when it is to be reopened or renamed. */
    lemma TmpIsThere()
      requires Valid() && (Now().pc.Reopening? || Now().pc.Renaming?)
      ensures tmp in s.dir
    {
      NowFits();
    }

    lemma NowFits()
      requires Valid()
      ensures Inv(Now(), tmp, final)
    {
      RunKeepsInv(ms, run, tmp, final);
    }

    /** The present call began after the first `from` actions, nothing else happened since, and it has come to `pc`. */
    ghost predicate At(pc: Pc)
      reads this`s, this`ms, this`run, this`from, this`form, this`payload
    {
      && Valid() && from < |run| && IsCall(run[from..], form, payload)
      && (forall k :: from < k < |run| ==> !ms[k].pc.Idle?)
      && Now().pc == pc
    }

    /** The run went on. */
    twostate predicate Onward()
      reads this
    {
      old(run) <= run && old(ms) <= ms && from == old(from) && form == old(form) && payload == old(payload)
    }

    constructor (fs: FsState, tmp: Path, final: Path, succeeds: nat -> bool, ghost possible: set<Option<Content>>)
      requires Ready(fs, tmp, final, possible)
      ensures Valid() && run == [] && Now() == Machine(fs, Idle(None), possible) && this.tmp == tmp &&
                this.final == final
    {
      this.tmp, this.final, this.succeeds, s, calls := tmp, final, succeeds, fs, 0;
      ms, run := [Machine(fs, Idle(None), possible)], [];
    }

    ghost method Start(form: Form, payload: Content)
      requires Valid() && Now().pc.Idle?
      modifies this`ms, this`run, this`from, this`form, this`payload
      ensures At(Opening(form, payload)) && old(run) <= run && old(ms) <= ms
      ensures this.form == form && this.payload == payload && from == |old(run)|
    {
      hide Inv;
      var m := Now().(pc := Opening(form, payload));
      from, this.form, this.payload := |run|, form, payload;
      assert run[|run|..] == [];
      ms, run := ms + [m], run + [Begin(form, payload)];
    }

    /** The operation the call stands at was performed on the disk (which went on to `s`), or failed. */
    ghost method Note(n: nat, pc: Pc)
      requires IsRun(ms, run, tmp, final) && Inv(ms[0], tmp, final) && !ms[|run|].pc.Idle?
      requires from < |run| && IsCall(run[from..], form, payload) && forall k :: from < k < |run| ==> !ms[k].pc.Idle?
      requires Operated(ms[|run|], tmp, final, n) == Machine(s, pc, Operated(ms[|run|], tmp, final, n).possible)
      modifies this`ms, this`run
      ensures Onward() && At(pc)
    {
      hide Inv, Operated;
      ghost var before := run[from..];
      ms, run := ms + [Operated(ms[|run|], tmp, final, n)], run + [Operate(n)];
      assert run[from..] == before + [Operate(n)];
    }

    // The operating system: any call may fail, as `succeeds` tells.

    ghost predicate AllWell(first: nat, until: nat) { forall k :: first <= k < until ==> succeeds(k) }

    method Call() returns (ok: bool)
      modifies this`calls
      ensures ok == succeeds(old(calls)) && calls == old(calls) + 1
    {
      ok := succeeds(calls);
      calls := calls + 1;
    }

    method OpenForWrite() returns (h: Option<nat>)
      requires At(Opening(form, payload))
      modifies this`s, this`ms, this`run, this`calls
      ensures Onward()
      ensures h.None? ==> s == old(s) && At(Idle(Some(Threw)))
      ensures h.Some? ==> Truncate(old(s), tmp) == (s, h.value) && At(Filled(form, payload, h.value, 0))
      ensures h.Some? == succeeds(old(calls)) && calls == old(calls) + 1
    {
      hide Inv, Truncate, IsRun, IsCall;
      var ok := Call();
      if !ok {
        Note(0, Idle(Some(Threw)));
        return None;
      }
      var (t, i) := Truncate(s, tmp);
      s := t;
      Note(1, Filled(form, payload, i, 0));
      h := Some(i);
    }

    /** Write a nonempty front part of `data`, or fail with nothing written. */
    method WriteSome(h: nat, data: Content, ghost written: nat) returns (n: nat)
      requires written < |payload| && data == payload[written..] && At(Filling(form, payload, h, written))
      modifies this`s, this`ms, this`run, this`calls
      ensures Onward() && n <= |data|
      ensures (n > 0) == succeeds(old(calls)) && calls == old(calls) + 1
      ensures n == 0 ==> s == old(s) && At(if form == Async then Closing(payload, h, true) else Idle(Some(Threw)))
      ensures n > 0 ==>
                h in old(s).inodes && s == Append(old(s), h, data[..n]) && At(Filled(form, payload, h, written + n))
    {
      hide Inv, Append, IsRun, IsCall;
      var ok := Call();
      if ok { n :| 0 < n <= |data|; } else { n := 0; }
      if n == 0 {
        Note(0, if form == Async then Closing(payload, h, true) else Idle(Some(Threw)));
        return;
      }
      assert data[..n] == payload[written..written + n];
      HandleIsKnown(h);
      s := Append(s, h, data[..n]);
      Note(n, Filled(form, payload, h, written + n));
    }

    /** writeFileSync closes the handle it wrote through. */
    method CloseWritten() returns (ok: bool)
      requires At(Reopening(payload))
      modifies this`ms, this`run, this`calls
      ensures Onward() && At(if ok then Reopening(payload) else Idle(Some(Threw)))
      ensures ok == succeeds(old(calls)) && calls == old(calls) + 1
    {
      hide Inv, IsRun, IsCall;
      ok := Call();
      if !ok { Note(0, Idle(Some(Threw))); }
    }

    /** open(tmp, 'r+'): a handle on the file that is there. */
    method OpenExisting() returns (h: Option<nat>)
      requires At(Reopening(payload))
      modifies this`ms, this`run, this`calls
      ensures Onward()
      ensures h.None? ==> At(Idle(Some(Threw)))
      ensures h.Some? ==> tmp in s.dir && h.value == s.dir[tmp] && At(Syncing(payload, h.value))
      ensures h.Some? == succeeds(old(calls)) && calls == old(calls) + 1
    {
      TmpIsThere();
      hide Inv, IsRun, IsCall;
      var ok := Call();
      if !ok {
        Note(0, Idle(Some(Threw)));
        return None;
      }
      h := Some(s.dir[tmp]);
      Note(1, Syncing(payload, s.dir[tmp]));
    }

    method SyncFile(h: nat) returns (ok: bool)
      requires At(Syncing(payload, h))
      modifies this`s, this`ms, this`run, this`calls
      ensures Onward() && At(Closing(payload, h, !ok))
      ensures if ok then h in old(s).inodes && s == Fsync(old(s), h) else s == old(s)
      ensures ok == succeeds(old(calls)) && calls == old(calls) + 1
    {
      hide Inv, Fsync, IsRun, IsCall;
      HandleIsKnown(h);
      ok := Call();
      if ok { s := Fsync(s, h); }
      Note(if ok then 1 else 0, Closing(payload, h, !ok));
    }

    method Close(h: nat, ghost failed: bool) returns (ok: bool)
      requires At(Closing(payload, h, failed))
      modifies this`ms, this`run, this`calls
      ensures Onward() && At(if ok && !failed then Renaming(payload, h) else Idle(Some(Threw)))
      ensures ok == succeeds(old(calls)) && calls == old(calls) + 1
    {
      hide Inv, IsRun, IsCall;
      ok := Call();
      Note(if ok then 1 else 0, if ok && !failed then Renaming(payload, h) else Idle(Some(Threw)));
    }

    method RenameFile(ghost h: nat) returns (ok: bool)
      requires At(Renaming(payload, h))
      modifies this`s, this`ms, this`run, this`calls
      ensures Onward() && At(if ok then SyncingDirectory(payload) else Idle(Some(Threw)))
      ensures if ok then tmp in old(s).dir && s == Rename(old(s), tmp, final) else s == old(s)
      ensures ok == succeeds(old(calls)) && calls == old(calls) + 1
    {
      TmpIsThere();
      hide Inv, Rename, IsRun, IsCall;
      ok := Call();
      if ok { s := Rename(s, tmp, final); }
      Note(if ok then 1 else 0, if ok then SyncingDirectory(payload) else Idle(Some(Threw)));
    }

    /** Best effort: whether the directory could be fsynced; a failure is swallowed. */
    method SyncDirectory() returns (synced: bool)
      requires At(SyncingDirectory(payload))
      modifies this`s, this`ms, this`run, this`calls
      ensures Onward() && At(Idle(Some(Returned(synced))))
      ensures s == if synced then FsyncDirectory(old(s)) else old(s)
      ensures synced == succeeds(old(calls)) && calls == old(calls) + 1
    {
      hide Inv, IsRun, IsCall;
      synced := Call();
      if synced { s := FsyncDirectory(s); }
      Note(if synced then 1 else 0, Idle(Some(Returned(synced))));
    }

    // The functions of the file.

    /** The loop inside `writeFile`: partial writes until the payload is out, or an error. */
    method WriteAll(h: nat, data: Content) returns (ok: bool)
      requires data == payload && At(Filled(form, payload, h, 0))
      modifies this`s, this`ms, this`run, this`calls
      ensures Onward()
      ensures ok ==> At(Filled(form, payload, h, |payload|))
      ensures !ok ==> At(if form == Async then Closing(payload, h, true) else Idle(Some(Threw)))
      ensures old(calls) <= calls && (AllWell(old(calls), calls) ==> ok)
    {
      hide At, Append;
      var written := 0;
      while written < |data|
        invariant written <= |data| && Onward() && At(Filled(form, payload, h, written)) && old(calls) <= calls
      {
        var n := WriteSome(h, data[written..], written);
        if n == 0 { return false; }
        written := written + n;
      }
      return true;
    }

    /** Rename the synced temporary file into place, then fsync the directory. */
    method RenameDurable(ghost h: nat) returns (r: WriteResult)
      requires At(Renaming(payload, h))
      modifies this`s, this`ms, this`run, this`calls
      ensures Onward() && At(Idle(Some(r)))
      ensures old(calls) <= calls && (AllWell(old(calls), calls) ==> r == Returned(true))
    {
      hide At, Rename;
      var renamed := RenameFile(h);
      if !renamed { return Threw; }
      var synced := SyncDirectory();
      r := Returned(synced);
    }

    /** At the end of a call: what it did, by CallOutcome. */
    lemma Concluded(r: WriteResult)
      requires At(Idle(Some(r)))
      ensures CallEffect(ms[from].possible, payload, Now(), final)
    {
      hide Inv;
      RunPart(ms, run, tmp, final, from);
      RunKeepsInv(ms[..from + 1], run[..from], tmp, final);
      CallOutcome(ms[from..], run[from..], tmp, final, form, payload);
    }

    /**
     * The asynchronous form.  Every operation it performs is a step of the machine, so RunRecovers
     * holds at each of them, wherever a crash cuts the call off.
     */
    method WriteFileDurable(data: Content) returns (r: WriteResult)
      requires Valid() && Now().pc.Idle?
      modifies this
      ensures Valid() && old(run) <= run && old(ms) <= ms && IsCall(run[|old(run)|..], Async, data)
      ensures Now().pc == Idle(Some(r)) && CallEffect(old(Now()).possible, data, Now(), final)
      ensures old(calls) <= calls && (AllWell(old(calls), calls) ==> r == Returned(true))
    {
      hide Truncate, Fsync, Step, IsCall, Inv, CallEffect;
      Start(Async, data);
      r := WriteAsync(data);
      Concluded(r);
    }

    method WriteAsync(data: Content) returns (r: WriteResult)
      requires form == Async && data == payload && At(Opening(form, payload))
      modifies this`s, this`ms, this`run, this`calls
      ensures Onward() && At(Idle(Some(r)))
      ensures old(calls) <= calls && (AllWell(old(calls), calls) ==> r == Returned(true))
    {
      hide At, Truncate, Fsync;
      var handle := OpenForWrite();
      if handle.None? { return Threw; }
      var h := handle.value;
      var written := WriteAll(h, data);
      var synced := false;
      if written { synced := SyncFile(h); }
      var closed := Close(h, !synced);
      if !synced || !closed { return Threw; }
      r := RenameDurable(h);
    }

    /** The synchronous form: write and close, then reopen only to fsync.  It promises the same. */
    method WriteFileDurableSync(data: Content) returns (r: WriteResult)
      requires Valid() && Now().pc.Idle?
      modifies this
      ensures Valid() && old(run) <= run && old(ms) <= ms && IsCall(run[|old(run)|..], Sync, data)
      ensures Now().pc == Idle(Some(r)) && CallEffect(old(Now()).possible, data, Now(), final)
      ensures old(calls) <= calls && (AllWell(old(calls), calls) ==> r == Returned(true))
    {
      hide Truncate, Fsync, Step, IsCall, Inv, CallEffect;
      Start(Sync, data);
      r := WriteSync(data);
      Concluded(r);
    }

    /** Reopen the file, only to fsync it. */
    method ReopenAndSync() returns (h: Option<nat>)
      requires At(Reopening(payload))
      modifies this`s, this`ms, this`run, this`calls
      ensures Onward() && At(if h.Some? then Renaming(payload, h.value) else Idle(Some(Threw)))
      ensures old(calls) <= calls && (AllWell(old(calls), calls) ==> h.Some?)
    {
      hide At, Fsync;
      var reopened := OpenExisting();
      if reopened.None? { return None; }
      var synced := SyncFile(reopened.value);
      var closed := Close(reopened.value, !synced);
      return if synced && closed then reopened else None;
    }

    method WriteSync(data: Content) returns (r: WriteResult)
      requires form == Sync && data == payload && At(Opening(form, payload))
      modifies this`s, this`ms, this`run, this`calls
      ensures Onward() && At(Idle(Some(r)))
      ensures old(calls) <= calls && (AllWell(old(calls), calls) ==> r == Returned(true))
    {
      hide At, Truncate, Fsync;
      var handle := OpenForWrite();
      if handle.None? { return Threw; }
      var written := WriteAll(handle.value, data);
      if !written { return Threw; }
      var writeClosed := CloseWritten();
      if !writeClosed { return Threw; }
      var synced := ReopenAndSync();
      if synced.None? { return Threw; }
      r := RenameDurable(synced.value);
    }
  }
}
