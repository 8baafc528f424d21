/**
 * Several mock servers agree on one key pair through a lock file and a key file
 * (mobile/scripts/mock-server-key-pair.ts).
 *
 * Each process is a program counter; every file operation is one step, whose outcome the
 * environment chooses.  Processes interleave in any order and may crash between any two steps.
 */
module KeyPair {
  import opened Options

  type Key = nat

  const LOCK_ATTEMPTS := 50
  const RENAME_ATTEMPTS := 5

  /** What the key file holds: nothing, bytes that do not decode to a key, or a key. */
  datatype KeyFile = Missing | Unusable | Valid(key: Key)

  datatype Pc =
    | ReadExisting
    | TryLock(attempt: nat)            // openSync(lock, 'wx') in the loop
    | ReadWhileBusy(attempt: nat)      // the lock exists: maybe its holder has finished
    | ReadWinner                       // after the last attempt
    | TryLockLate
    | ReadLateWinner
    | ReadLocked                       // lock held from here ...
    | WriteTmp(key: Key)
    | ChmodTmp(key: Key)
    | RenameTmp(key: Key, attempt: nat)
    | RemoveTmp(key: Key, renamed: bool)
    | Unlock(result: Option<Key>)      // ... to here; None: an error is on its way out
    | Returned(key: Key)
    | Threw
    | Crashed

  /**
   * How the environment answers a step.  `Retryable` is EACCES, EBUSY or EPERM from rename;
   * a read answered with anything but `Succeeds` yields the reason 'unreadable'.
   */
  datatype Outcome = Succeeds | Retryable | Errors

  /** `lock`: the lock file exists.  `persisted`: every key renamed into place, in order. */
  datatype State = State(procs: seq<Pc>, lock: bool, file: KeyFile, persisted: seq<Key>)

  /** `minted` is the key generated if this step mints one. */
  datatype Action = Step(p: nat, outcome: Outcome, minted: Key) | Crash(p: nat)

  function Read(file: KeyFile, o: Outcome): Option<Key> {
    if o == Succeeds && file.Valid? then Some(file.key) else None
  }

  predicate Done(pc: Pc) { pc.Returned? || pc.Threw? || pc.Crashed? }

  predicate HoldsLock(pc: Pc) {
    pc.ReadLocked? || pc.WriteTmp? || pc.ChmodTmp? || pc.RenameTmp? || pc.RemoveTmp? || pc.Unlock?
  }

  /** The process after one operation; only TryLock, RenameTmp and Unlock touch the shared files. */
  function StepPc(pc: Pc, lock: bool, file: KeyFile, o: Outcome, minted: Key): Pc {
    match pc
    case ReadExisting =>
      var r := Read(file, o); if r.Some? then Returned(r.value) else TryLock(0)
    case TryLock(a) =>
      if o != Succeeds then Threw       // any error but EEXIST
      else if lock then ReadWhileBusy(a)
      else ReadLocked
    case ReadWhileBusy(a) =>
      var r := Read(file, o);
      if r.Some? then Returned(r.value)
      else if a + 1 < LOCK_ATTEMPTS then TryLock(a + 1)
      else ReadWinner
    case ReadWinner =>
      var r := Read(file, o); if r.Some? then Returned(r.value) else TryLockLate
    case TryLockLate =>
      if o != Succeeds then Threw       // any error but EEXIST
      else if lock then ReadLateWinner
      else ReadLocked
    case ReadLateWinner =>
      var r := Read(file, o); if r.Some? then Returned(r.value) else Threw
    case ReadLocked =>
      var r := Read(file, o); if r.Some? then Unlock(r) else WriteTmp(minted)
    case WriteTmp(k) => if o == Succeeds then ChmodTmp(k) else RemoveTmp(k, false)
    case ChmodTmp(k) => if o == Succeeds then RenameTmp(k, 0) else RemoveTmp(k, false)
    case RenameTmp(k, a) =>
      if o == Succeeds then RemoveTmp(k, true)
      else if o == Retryable && a + 1 < RENAME_ATTEMPTS then RenameTmp(k, a + 1)
      else RemoveTmp(k, false)
    case RemoveTmp(k, renamed) => Unlock(if renamed then Some(k) else None)
    case Unlock(r) => if r.Some? then Returned(r.value) else Threw
    case _ => pc
  }

  predicate Takes(pc: Pc, lock: bool, o: Outcome) {
    (pc.TryLock? || pc.TryLockLate?) && !lock && o == Succeeds
  }

  predicate Releases(pc: Pc, o: Outcome) { pc.Unlock? && o == Succeeds }

  predicate Persists(pc: Pc, o: Outcome) { pc.RenameTmp? && o == Succeeds }

  predicate Enabled(s: State, a: Action) {
    a.p < |s.procs| && !Done(s.procs[a.p])
  }

  function Next(s: State, a: Action): State
    requires Enabled(s, a)
  {
    var pc := s.procs[a.p];
    match a
    case Crash(p) => s.(procs := s.procs[p := Crashed])
    case Step(p, o, minted) =>
      State(s.procs[p := StepPc(pc, s.lock, s.file, o, minted)],
            Takes(pc, s.lock, o) || (s.lock && !Releases(pc, o)),
            if Persists(pc, o) then Valid(pc.key) else s.file,
            if Persists(pc, o) then s.persisted + [pc.key] else s.persisted)
  }

  /** Any number of processes, any key file, possibly a stale lock. */
  function Initial(n: nat, lock: bool, file: KeyFile): State {
    State(seq(n, i => ReadExisting), lock, file, [])
  }

  predicate CanRun(s: State, run: seq<Action>)
    decreases |run|
  {
    run == [] || (Enabled(s, run[0]) && CanRun(Next(s, run[0]), run[1..]))
  }

  function Run(s: State, run: seq<Action>): State
    requires CanRun(s, run)
    decreases |run|
  {
    if run == [] then s else Run(Next(s, run[0]), run[1..])
  }

  // ---- Mutual exclusion: every run, whatever fails ----

  ghost predicate Exclusive(s: State) {
    && (forall p, q :: 0 <= p < q < |s.procs| ==> !(HoldsLock(s.procs[p]) && HoldsLock(s.procs[q])))
    && (forall p :: 0 <= p < |s.procs| && HoldsLock(s.procs[p]) ==> s.lock)
  }

  lemma NextKeepsExclusive(s: State, a: Action)
    requires Exclusive(s) && Enabled(s, a)
    ensures Exclusive(Next(s, a))
  {
    var t := Next(s, a);
    assert forall q :: 0 <= q < |s.procs| && q != a.p ==> t.procs[q] == s.procs[q];
  }

  lemma {:induction false} AtMostOneHolder(s: State, run: seq<Action>)
    requires Exclusive(s) && CanRun(s, run)
    ensures Exclusive(Run(s, run))
    decreases |run|
  {
    if run != [] {
      NextKeepsExclusive(s, run[0]);
      AtMostOneHolder(Next(s, run[0]), run[1..]);
    }
  }

  lemma InitialExclusive(n: nat, lock: bool, file: KeyFile)
    ensures Exclusive(Initial(n, lock, file))
  {
  }

  // ---- Agreement ----

  /** A read fails under the lock although the file holds a key: the branch that mints over it. */
  predicate BlindMint(s: State, a: Action) {
    a.Step? && a.p < |s.procs| && s.procs[a.p].ReadLocked? && s.file.Valid? && a.outcome != Succeeds
  }

  ghost predicate NoBlindMint(s: State, run: seq<Action>)
    requires CanRun(s, run)
    decreases |run|
  {
    run != [] ==> !BlindMint(s, run[0]) && NoBlindMint(Next(s, run[0]), run[1..])
  }

  predicate Minting(pc: Pc) { pc.WriteTmp? || pc.ChmodTmp? || pc.RenameTmp? }

  /** The key a process has settled on, if it has. */
  function Decided(pc: Pc): Option<Key> {
    match pc
    case RemoveTmp(k, true) => Some(k)
    case Unlock(r) => r
    case Returned(k) => Some(k)
    case _ => None
  }

  ghost predicate Agreed(s: State) {
    && (s.file.Valid? ==> forall p :: 0 <= p < |s.procs| ==> !Minting(s.procs[p]))
    && (forall p :: 0 <= p < |s.procs| && Decided(s.procs[p]).Some? ==> s.file == Valid(Decided(s.procs[p]).value))
    && |s.persisted| <= 1
    && (s.persisted != [] ==> s.file == Valid(s.persisted[0]))
  }

  lemma NextChangesOne(s: State, a: Action)
    requires Enabled(s, a)
    ensures |Next(s, a).procs| == |s.procs|
    ensures forall q :: 0 <= q < |s.procs| && q != a.p ==> Next(s, a).procs[q] == s.procs[q]
  {
  }

  lemma NextKeepsAgreed(s: State, a: Action)
    requires Exclusive(s) && Agreed(s) && Enabled(s, a) && !BlindMint(s, a)
    ensures Agreed(Next(s, a))
    ensures s.file.Valid? ==> Next(s, a).file == s.file
  {
    var t := Next(s, a);
    assert forall q :: 0 <= q < |s.procs| && q != a.p ==> t.procs[q] == s.procs[q];
    if a.Step? && Persists(s.procs[a.p], a.outcome) {
      assert Minting(s.procs[a.p]);
    }
  }

  lemma {:induction false} RunKeepsAgreed(s: State, run: seq<Action>)
    requires Exclusive(s) && Agreed(s) && CanRun(s, run) && NoBlindMint(s, run)
    ensures Exclusive(Run(s, run)) && Agreed(Run(s, run))
    ensures s.file.Valid? ==> Run(s, run).file == s.file
    decreases |run|
  {
    if run != [] {
      NextKeepsExclusive(s, run[0]);
      NextKeepsAgreed(s, run[0]);
      RunKeepsAgreed(Next(s, run[0]), run[1..]);
    }
  }

  /**
   * Any number of processes, any schedule, any crashes and failed operations: as long as no
   * process mints over a key it merely failed to read, at most one key is ever persisted, none
   * over an existing key, and every process that returns holds the key in the file.
   */
  lemma Agreement(n: nat, lock: bool, file: KeyFile, run: seq<Action>)
    requires CanRun(Initial(n, lock, file), run) && NoBlindMint(Initial(n, lock, file), run)
    ensures var s := Run(Initial(n, lock, file), run);
      && |s.procs| == n
      && |s.persisted| <= 1
      && (file.Valid? ==> s.file == file)
      && (forall p :: 0 <= p < n && s.procs[p].Returned? ==> s.file == Valid(s.procs[p].key))
      && (forall p, q :: 0 <= p < n && 0 <= q < n && s.procs[p].Returned? && s.procs[q].Returned? ==>
           s.procs[p] == s.procs[q])
  {
    InitialExclusive(n, lock, file);
    RunKeepsAgreed(Initial(n, lock, file), run);
    RunKeepsSize(Initial(n, lock, file), run);
    var s := Run(Initial(n, lock, file), run);
    assert forall p :: 0 <= p < n && s.procs[p].Returned? ==> Decided(s.procs[p]).Some?;
  }

  lemma {:induction false} RunKeepsSize(s: State, run: seq<Action>)
    requires CanRun(s, run)
    ensures |Run(s, run).procs| == |s.procs|
    decreases |run|
  {
    if run != [] { RunKeepsSize(Next(s, run[0]), run[1..]); }
  }

  // ---- Why the condition is needed ----

  lemma {:induction false} Extend(s: State, run: seq<Action>, a: Action)
    requires CanRun(s, run) && Enabled(Run(s, run), a)
    ensures CanRun(s, run + [a]) && Run(s, run + [a]) == Next(Run(s, run), a)
    decreases |run|
  {
    var longer := run + [a];
    if run == [] {
      assert longer == [a];
    } else {
      assert longer[0] == run[0] && longer[1..] == run[1..] + [a];
      Extend(Next(s, run[0]), run[1..], a);
    }
  }

  lemma {:induction false} RunsCompose(s: State, run: seq<Action>, more: seq<Action>)
    requires CanRun(s, run) && CanRun(Run(s, run), more)
    ensures CanRun(s, run + more) && Run(s, run + more) == Run(Run(s, run), more)
    decreases |run|
  {
    var whole := run + more;
    if run == [] {
      assert whole == more;
    } else {
      assert whole[0] == run[0] && whole[1..] == run[1..] + more;
      RunsCompose(Next(s, run[0]), run[1..], more);
    }
  }

  /** Process `p` performs `n` operations without a hitch. */
  function Smoothly(p: nat, n: nat): seq<Action> {
    if n == 0 then [] else [Step(p, Succeeds, 0)] + Smoothly(p, n - 1)
  }

  lemma OneSmoothly(u: State, p: nat, n: nat, v: State, t: State)
    requires p < |u.procs| && !Done(u.procs[p]) && Next(u, Step(p, Succeeds, 0)) == v
    requires CanRun(v, Smoothly(p, n)) && Run(v, Smoothly(p, n)) == t
    ensures CanRun(u, Smoothly(p, n + 1)) && Run(u, Smoothly(p, n + 1)) == t
  {
    var run := Smoothly(p, n + 1);
    assert run[0] == Step(p, Succeeds, 0) && run[1..] == Smoothly(p, n);
  }

  /** `u` with process `p` at `pc`. */
  function At(u: State, p: nat, pc: Pc): State
    requires p < |u.procs|
  {
    u.(procs := u.procs[p := pc])
  }

  /** `u` after process `p` has renamed a file with the key `k`, and stands at `pc`. */
  function Renamed(u: State, p: nat, k: Key, pc: Pc): State
    requires p < |u.procs|
  {
    At(u, p, pc).(file := Valid(k), persisted := u.persisted + [k])
  }

  lemma MinterSteps(u: State, p: nat, k: Key)
    requires p < |u.procs|
    ensures var ok := Step(p, Succeeds, 0);
      && Next(At(u, p, WriteTmp(k)), ok) == At(u, p, ChmodTmp(k))
      && Next(At(u, p, ChmodTmp(k)), ok) == At(u, p, RenameTmp(k, 0))
      && Next(At(u, p, RenameTmp(k, 0)), ok) == Renamed(u, p, k, RemoveTmp(k, true))
  {
  }

  lemma RenamerSteps(u: State, p: nat, k: Key)
    requires p < |u.procs|
    ensures var ok, t := Step(p, Succeeds, 0), Renamed(u, p, k, Returned(k));
      && Next(Renamed(u, p, k, RemoveTmp(k, true)), ok) == Renamed(u, p, k, Unlock(Some(k)))
      && Next(Renamed(u, p, k, Unlock(Some(k))), ok) == t.(lock := false)
  {
  }

  /** Write, chmod, rename, remove, unlock: `p` returns the key it minted. */
  function Completion(p: nat): seq<Action> { Smoothly(p, 5) }

  lemma RenamerCompletes(u: State, p: nat, k: Key)
    requires p < |u.procs|
    ensures var s, t := Renamed(u, p, k, RemoveTmp(k, true)), Renamed(u, p, k, Returned(k));
      CanRun(s, Smoothly(p, 2)) && Run(s, Smoothly(p, 2)) == t.(lock := false)
  {
    var t := Renamed(u, p, k, Returned(k)).(lock := false);
    RenamerSteps(u, p, k);
    NothingRun(t);
    hide CanRun, Run, Next;
    OneSmoothly(Renamed(u, p, k, Unlock(Some(k))), p, 0, t, t);
    OneSmoothly(Renamed(u, p, k, RemoveTmp(k, true)), p, 1, Renamed(u, p, k, Unlock(Some(k))), t);
  }

  lemma MinterCompletes(u: State, p: nat, k: Key)
    requires p < |u.procs| && u.procs[p] == WriteTmp(k)
    ensures CanRun(u, Completion(p))
    ensures Run(u, Completion(p)) == Renamed(u, p, k, Returned(k)).(lock := false)
  {
    var t := Renamed(u, p, k, Returned(k)).(lock := false);
    assert u == At(u, p, WriteTmp(k));
    MinterSteps(u, p, k);
    RenamerCompletes(u, p, k);
    hide CanRun, Run, Next, Renamed, Smoothly;
    OneSmoothly(At(u, p, RenameTmp(k, 0)), p, 2, Renamed(u, p, k, RemoveTmp(k, true)), t);
    OneSmoothly(At(u, p, ChmodTmp(k)), p, 3, At(u, p, RenameTmp(k, 0)), t);
    OneSmoothly(u, p, 4, At(u, p, ChmodTmp(k)), t);
  }

  lemma NothingRun(s: State)
    ensures CanRun(s, []) && Run(s, []) == s
  {
  }

  /**
   * After any run, if the lock holder's read fails although the file holds a key, the holder can
   * carry on to replace that key and return another one than everybody who returned before.
   */
  lemma BlindMintReplacesTheKey(s: State, run: seq<Action>, a: Action)
    requires CanRun(s, run) && Enabled(Run(s, run), a) && BlindMint(Run(s, run), a)
    ensures CanRun(s, run + [a] + Completion(a.p))
    ensures var u, t := Run(s, run), Run(s, run + [a] + Completion(a.p));
      && t.file == Valid(a.minted) && t.persisted == u.persisted + [a.minted]
      && t.procs == u.procs[a.p := Returned(a.minted)]
  {
    Extend(s, run, a);
    BlindMinterWrites(Run(s, run), a);
    hide CanRun, Run, Next, Enabled, BlindMint;
    MinterCompletes(Run(s, run + [a]), a.p, a.minted);
    RunsCompose(s, run + [a], Completion(a.p));
  }

  /** A run of two processes that do disagree: the second cannot read the file the first just read. */
  lemma DisagreementIsReachable(first: Key, second: Key) returns (run: seq<Action>)
    requires first != second
    ensures CanRun(Initial(2, false, Valid(first)), run)
    ensures var t := Run(Initial(2, false, Valid(first)), run);
      t.procs == [Returned(first), Returned(second)] && t.file == Valid(second)
  {
    var s := Initial(2, false, Valid(first));
    var blind := Step(1, Errors, second);
    NothingRun(s);
    Extend(s, [], Step(0, Succeeds, 0));
    run := [] + [Step(0, Succeeds, 0)];
    Extend(s, run, blind);
    run := run + [blind];
    Extend(s, run, Step(1, Succeeds, 0));
    run := run + [Step(1, Succeeds, 0)];
    assert Run(s, run).procs == [Returned(first), ReadLocked];
    BlindMintReplacesTheKey(s, run, blind);
    run := run + [blind] + Completion(1);
  }

  lemma {:induction false} SmoothRunsAreNotBlind(s: State, run: seq<Action>)
    requires CanRun(s, run) && forall k :: 0 <= k < |run| ==> run[k].Step? && run[k].outcome == Succeeds
    ensures NoBlindMint(s, run)
    decreases |run|
  {
    if run != [] { SmoothRunsAreNotBlind(Next(s, run[0]), run[1..]); }
  }

  /**
   * The exact condition: a step puts the key in the file at risk of being replaced, with nothing
   * further going wrong, if and only if it mints over a key it failed to read under the lock.
   */
  lemma KeyIsKeptExactlyWhenReadable(n: nat, lock: bool, file: KeyFile, run: seq<Action>, a: Action, key: Key)
    requires CanRun(Initial(n, lock, file), run) && NoBlindMint(Initial(n, lock, file), run)
    requires var s := Run(Initial(n, lock, file), run);
      s.file == Valid(key) && Enabled(s, a) && (a.Step? ==> a.minted != key)
    ensures var s := Run(Initial(n, lock, file), run);
      BlindMint(s, a) <==>
        exists rest ::
          CanRun(Next(s, a), rest) && NoBlindMint(Next(s, a), rest) && Run(Next(s, a), rest).file != Valid(key)
  {
    var s := Run(Initial(n, lock, file), run);
    InitialExclusive(n, lock, file);
    RunKeepsAgreed(Initial(n, lock, file), run);
    if BlindMint(s, a) { BlindMintCanReplace(s, a, key); } else { OtherStepsKeep(s, a, key); }
    hide BlindMint, CanRun, NoBlindMint, Run, Next, Agreed, Exclusive, Enabled;
  }

  lemma BlindMintCanReplace(s: State, a: Action, key: Key)
    requires Enabled(s, a) && BlindMint(s, a) && a.minted != key
    ensures exists rest ::
              CanRun(Next(s, a), rest) && NoBlindMint(Next(s, a), rest) && Run(Next(s, a), rest).file != Valid(key)
  {
    var t := Next(s, a);
    BlindMinterWrites(s, a);
    hide CanRun, Run, NoBlindMint, Next;
    MinterCompletes(t, a.p, a.minted);
    SmoothlyIsSmooth(a.p, 5);
    SmoothRunsAreNotBlind(t, Completion(a.p));
  }

  lemma {:induction false} SmoothlyIsSmooth(p: nat, n: nat)
    ensures |Smoothly(p, n)| == n && forall k :: 0 <= k < n ==> Smoothly(p, n)[k] == Step(p, Succeeds, 0)
  {
    if n > 0 { SmoothlyIsSmooth(p, n - 1); }
  }

  lemma BlindMinterWrites(s: State, a: Action)
    requires Enabled(s, a) && BlindMint(s, a)
    ensures Next(s, a) == At(s, a.p, WriteTmp(a.minted))
  {
  }

  lemma OtherStepsKeep(s: State, a: Action, key: Key)
    requires Exclusive(s) && Agreed(s) && Enabled(s, a) && !BlindMint(s, a) && s.file == Valid(key)
    ensures forall rest :: CanRun(Next(s, a), rest) && NoBlindMint(Next(s, a), rest) ==>
              Run(Next(s, a), rest).file == Valid(key)
  {
    hide BlindMint, CanRun, NoBlindMint, Run, Next, Agreed, Exclusive, Enabled;
    NextKeepsExclusive(s, a);
    NextKeepsAgreed(s, a);
    forall rest | CanRun(Next(s, a), rest) && NoBlindMint(Next(s, a), rest)
      ensures Run(Next(s, a), rest).file == Valid(key)
    {
      RunKeepsAgreed(Next(s, a), rest);
    }
  }

  // ---- Every process stops by itself ----

  predicate WithinAttempts(pc: Pc) {
    match pc
    case TryLock(a) => a < LOCK_ATTEMPTS
    case ReadWhileBusy(a) => a < LOCK_ATTEMPTS
    case RenameTmp(_, a) => a < RENAME_ATTEMPTS
    case _ => true
  }

  /** An upper bound on the operations a process still performs. */
  function OperationsLeft(pc: Pc): nat
    requires WithinAttempts(pc)
  {
    match pc
    case ReadExisting => 2 * LOCK_ATTEMPTS + 13
    case TryLock(a) => 2 * (LOCK_ATTEMPTS - a) + 12
    case ReadWhileBusy(a) => 2 * (LOCK_ATTEMPTS - a) + 11
    case ReadWinner => 12
    case TryLockLate => 11
    case ReadLateWinner => 1
    case ReadLocked => 10
    case WriteTmp(_) => 9
    case ChmodTmp(_) => 8
    case RenameTmp(_, a) => 7 - a
    case RemoveTmp(_, _) => 2
    case Unlock(_) => 1
    case _ => 0
  }

  function StepsOf(run: seq<Action>, p: nat): nat {
    if run == [] then 0 else (if run[0].p == p then 1 else 0) + StepsOf(run[1..], p)
  }

  lemma NextUsesOne(s: State, a: Action, p: nat)
    requires Enabled(s, a) && p < |s.procs| && WithinAttempts(s.procs[p])
    ensures WithinAttempts(Next(s, a).procs[p])
    ensures OperationsLeft(Next(s, a).procs[p]) + (if a.p == p then 1 else 0) <= OperationsLeft(s.procs[p])
  {
  }

  /** At most 113 operations per process, however the lock and the file behave. */
  lemma {:induction false} ProcessStops(s: State, run: seq<Action>, p: nat)
    requires CanRun(s, run) && p < |s.procs| && WithinAttempts(s.procs[p])
    ensures p < |Run(s, run).procs| && WithinAttempts(Run(s, run).procs[p])
    ensures StepsOf(run, p) + OperationsLeft(Run(s, run).procs[p]) <= OperationsLeft(s.procs[p]) <= 113
    decreases |run|
  {
    if run != [] {
      NextUsesOne(s, run[0], p);
      ProcessStops(Next(s, run[0]), run[1..], p);
    }
  }

  // ---- What a process came across decides whether it throws ----

  /** What the operations of one process were answered. */
  datatype Tally = Tally(lockFailed: bool, busy: nat, found: Option<Key>, writeFailed: bool, renameFailed: bool,
                         retries: nat, renamed: Option<Key>)

  const NOTHING_YET := Tally(false, 0, None, false, false, 0, None)

  /** One more operation: `pc` tells which, `s` what there is to see. */
  function Counted(t: Tally, pc: Pc, s: State, o: Outcome): Tally {
    match pc
    case TryLock(_) => CountedLock(t, s.lock, o)
    case TryLockLate => CountedLock(t, s.lock, o)
    case WriteTmp(_) => t.(writeFailed := t.writeFailed || o != Succeeds)
    case ChmodTmp(_) => t.(writeFailed := t.writeFailed || o != Succeeds)
    case RenameTmp(k, _) =>
      if o == Succeeds then t.(renamed := Some(k))
      else if o == Retryable then t.(retries := t.retries + 1)
      else t.(renameFailed := true)
    case RemoveTmp(_, _) => t
    case Unlock(_) => t
    case _ => if Read(s.file, o).Some? then t.(found := Read(s.file, o)) else t
  }

  function CountedLock(t: Tally, lock: bool, o: Outcome): Tally {
    if o != Succeeds then t.(lockFailed := true)
    else if lock then t.(busy := t.busy + 1)
    else t
  }

  ghost function TallyOf(t: Tally, s: State, run: seq<Action>, p: nat): Tally
    requires CanRun(s, run)
    decreases |run|
  {
    if run == [] then t
    else if run[0].Step? && run[0].p == p then
      TallyOf(Counted(t, s.procs[p], s, run[0].outcome), Next(s, run[0]), run[1..], p)
    else TallyOf(t, Next(s, run[0]), run[1..], p)
  }

  /**
   * The causes of an error: the lock could not be opened, or was busy 51 times and no read found a key; the
   * temporary file could not be written; the rename failed for good, or five times.
   */
  predicate Cause(t: Tally) {
    t.lockFailed || (t.busy == 51 && t.found.None?) || t.writeFailed || t.renameFailed || t.retries == 5
  }

  /** The key a process goes by: one it read, or one it renamed into place. */
  function Got(t: Tally): Option<Key> { if t.found.Some? then t.found else t.renamed }

  /** At each place, what a process that began at the beginning has come across. */
  predicate Accounted(pc: Pc, t: Tally) {
    match pc
    case ReadExisting => t == NOTHING_YET
    case TryLock(a) => t == NOTHING_YET.(busy := a) && a < 50
    case ReadWhileBusy(a) => t == NOTHING_YET.(busy := a + 1) && a < 50
    case ReadWinner => t == NOTHING_YET.(busy := 50)
    case TryLockLate => t == NOTHING_YET.(busy := 50)
    case ReadLateWinner => t == NOTHING_YET.(busy := 51)
    case ReadLocked => t == NOTHING_YET.(busy := t.busy) && t.busy <= 50
    case WriteTmp(_) => t == NOTHING_YET.(busy := t.busy) && t.busy <= 50
    case ChmodTmp(_) => t == NOTHING_YET.(busy := t.busy) && t.busy <= 50
    case RenameTmp(_, a) => t == NOTHING_YET.(busy := t.busy, retries := a) && t.busy <= 50 && a < 5
    case RemoveTmp(k, renamed) => Cause(t) == !renamed && Got(t) == if renamed then Some(k) else None
    case Unlock(r) => Cause(t) == r.None? && Got(t) == r
    case Returned(k) => !Cause(t) && Got(t) == Some(k)
    case Threw => Cause(t) && Got(t) == None
    case Crashed => true
  }

  lemma NextIsAccounted(pc: Pc, t: Tally, s: State, o: Outcome, minted: Key)
    requires Accounted(pc, t) && !Done(pc)
    ensures Accounted(StepPc(pc, s.lock, s.file, o, minted), Counted(t, pc, s, o))
  {
  }

  lemma {:induction false} RunIsAccounted(t: Tally, s: State, run: seq<Action>, p: nat)
    requires CanRun(s, run) && p < |s.procs| && Accounted(s.procs[p], t)
    ensures p < |Run(s, run).procs| && Accounted(Run(s, run).procs[p], TallyOf(t, s, run, p))
    decreases |run|
  {
    hide Accounted, Counted, StepPc;
    if run != [] {
      var a := run[0];
      if a.Step? && a.p == p {
        NextIsAccounted(s.procs[p], t, s, a.outcome, a.minted);
        RunIsAccounted(Counted(t, s.procs[p], s, a.outcome), Next(s, a), run[1..], p);
      } else {
        CrashIsAccounted(t);
        RunIsAccounted(t, Next(s, a), run[1..], p);
      }
    }
  }

  lemma CrashIsAccounted(t: Tally)
    ensures Accounted(Crashed, t)
  {
  }

  /**
   * In any run, a process that came to its end has thrown if and only if it came across a cause, and returns the
   * key it read or renamed into place.
   */
  lemma ThrowsExactly(s: State, run: seq<Action>, p: nat)
    requires CanRun(s, run) && p < |s.procs| && s.procs[p] == ReadExisting
    ensures p < |Run(s, run).procs|
    ensures var pc, t := Run(s, run).procs[p], TallyOf(NOTHING_YET, s, run, p);
      pc.Returned? || pc.Threw? ==>
        && (pc.Threw? <==> Cause(t))
        && (pc.Returned? ==> Got(t) == Some(pc.key))
  {
    RunIsAccounted(NOTHING_YET, s, run, p);
  }

  /** Alone, with no key and the lock free, a process whose operations succeed returns the key it minted. */
  lemma AloneMints(s: State, p: nat, minted: Key) returns (run: seq<Action>)
    requires p < |s.procs| && s.procs[p] == ReadExisting && !s.lock && !s.file.Valid?
    ensures CanRun(s, run) && Run(s, run) == Renamed(s, p, minted, Returned(minted))
    ensures forall k :: 0 <= k < |run| ==> run[k].Step? && run[k].p == p && run[k].outcome == Succeeds
  {
    var ok := Step(p, Succeeds, minted);
    var locked := At(s, p, WriteTmp(minted)).(lock := true);
    LockStarts(s, p, minted);
    MinterCompletes(locked, p, minted);
    SmoothlyIsSmooth(p, 5);
    MintedIsRenamed(s, p, minted);
    var first := [ok, ok, ok];
    run := first + Completion(p);
    assert |Completion(p)| == 5 && forall k :: 3 <= k < 8 ==> run[k] == Completion(p)[k - 3];
    hide Next, Smoothly, Renamed, CanRun, Run, At;
    RunsCompose(s, first, Completion(p));
  }

  lemma LockStarts(s: State, p: nat, minted: Key)
    requires p < |s.procs| && s.procs[p] == ReadExisting && !s.lock && !s.file.Valid?
    ensures var ok := Step(p, Succeeds, minted);
      CanRun(s, [ok, ok, ok]) && Run(s, [ok, ok, ok]) == At(s, p, WriteTmp(minted)).(lock := true)
  {
    var ok := Step(p, Succeeds, minted);
    var s1, s2 := At(s, p, TryLock(0)), At(s, p, ReadLocked).(lock := true);
    var s3 := At(s, p, WriteTmp(minted)).(lock := true);
    assert Enabled(s, ok) && Next(s, ok) == s1;
    assert Enabled(s1, ok) && Next(s1, ok) == s2;
    assert Enabled(s2, ok) && Next(s2, ok) == s3;
    NothingRun(s);
    hide Next, Enabled, CanRun, Run, At;
    Extend(s, [], ok);
    Extend(s, [] + [ok], ok);
    Extend(s, [] + [ok] + [ok], ok);
    assert [] + [ok] + [ok] + [ok] == [ok, ok, ok];
  }

  lemma MintedIsRenamed(s: State, p: nat, minted: Key)
    requires p < |s.procs| && !s.lock
    ensures var locked := At(s, p, WriteTmp(minted)).(lock := true);
      Renamed(locked, p, minted, Returned(minted)).(lock := false) == Renamed(s, p, minted, Returned(minted))
  {
  }

  // ---- The code of one process, with its loops ----

  datatype LockResult = Opened | Exists | Failed
  datatype KeyLock = Acquired | Found(key: Key) | Error

  /** What a process is to come across: what the others do before each of its operations, and the answers to those. */
  datatype Script = Script(others: nat -> seq<Action>, answers: nat -> Outcome, minted: Key)

  /** Of what the other processes are to do, what they can do. */
  function Played(s: State, acts: seq<Action>, me: nat): seq<Action>
    decreases |acts|
  {
    if acts == [] then []
    else if Enabled(s, acts[0]) && acts[0].p != me then [acts[0]] + Played(Next(s, acts[0]), acts[1..], me)
    else Played(s, acts[1..], me)
  }

  lemma {:induction false} PlayedCanRun(s: State, acts: seq<Action>, me: nat)
    requires me < |s.procs|
    ensures CanRun(s, Played(s, acts, me))
    ensures var t := Run(s, Played(s, acts, me)); |t.procs| == |s.procs| && t.procs[me] == s.procs[me]
    decreases |acts|
  {
    if acts != [] {
      if Enabled(s, acts[0]) && acts[0].p != me {
        NextChangesOne(s, acts[0]);
        hide Enabled, Next;
        PlayedCanRun(Next(s, acts[0]), acts[1..], me);
        var rest := Played(Next(s, acts[0]), acts[1..], me);
        assert ([acts[0]] + rest)[1..] == rest;
      } else {
        PlayedCanRun(s, acts[1..], me);
      }
    }
  }

  /** The run that comes of it when process `me` performs `n` operations. */
  ghost function Scene(start: State, me: nat, script: Script, n: nat): seq<Action> {
    if n == 0 then []
    else
      var run := Scene(start, me, script, n - 1);
      if !CanRun(start, run) then run
      else run + Played(Run(start, run), script.others(n - 1), me) + [Step(me, script.answers(n - 1), script.minted)]
  }

  /** One operation more: `s` is where `n` of them lead. */
  lemma SceneGoesOn(start: State, me: nat, script: Script, n: nat, s: State)
    requires var run := Scene(start, me, script, n); CanRun(start, run) && Run(start, run) == s
    requires me < |s.procs| && !Done(s.procs[me])
    ensures var run, more := Scene(start, me, script, n), Played(s, script.others(n), me);
      var step := Step(me, script.answers(n), script.minted);
      && CanRun(s, more) && me < |Run(s, more).procs| && Run(s, more).procs[me] == s.procs[me]
      && Scene(start, me, script, n + 1) == run + more + [step]
      && CanRun(start, run + more + [step]) && Run(start, run + more + [step]) == Next(Run(s, more), step)
      && me < |Next(Run(s, more), step).procs|
  {
    var run, more := Scene(start, me, script, n), Played(s, script.others(n), me);
    var step := Step(me, script.answers(n), script.minted);
    PlayedCanRun(s, script.others(n), me);
    var at := Run(s, more);
    NextChangesOne(at, step);
    hide CanRun, Run, Next, Played;
    RunsCompose(start, run, more);
    Extend(start, run + more, step);
  }

  /**
   * Process `me` among the others.  Each method performs one file operation, before which the other processes
   * perform theirs, as the script says; `run` records what happened.
   */
  class Server {
    const me: nat
    const script: Script
    /** How many operations this process has performed. */
    var calls: nat
    ghost const start: State
    ghost var run: seq<Action>
    var s: State

    ghost predicate Valid()
      reads this
    {
      && me < |s.procs| && me < |start.procs|
      && run == Scene(start, me, script, calls) && CanRun(start, run) && Run(start, run) == s
    }

    constructor (start: State, me: nat, script: Script)
      requires me < |start.procs|
      ensures Valid() && s == start && this.me == me && this.start == start && this.script == script && calls == 0
    {
      this.me, this.script, this.calls, this.start, this.s, this.run := me, script, 0, start, start, [];
    }

    /** The other processes' next operations, then this one's.  `at` is what it finds. */
    method Perform() returns (outcome: Outcome, at: State)
      requires Valid() && !Done(s.procs[me])
      modifies this
      ensures Valid() && calls == old(calls) + 1 && outcome == script.answers(old(calls))
      ensures me < |at.procs| && at.procs[me] == old(s.procs[me])
      ensures s == Next(at, Step(me, outcome, script.minted))
    {
      hide CanRun, Run, Next, Played, Scene;
      SceneGoesOn(start, me, script, calls, s);
      var others := Played(s, script.others(calls), me);
      outcome := script.answers(calls);
      at := Run(s, others);
      var step := Step(me, outcome, script.minted);
      s, run, calls := Next(at, step), run + others + [step], calls + 1;
    }

    method ReadKeyPair() returns (r: Option<Key>)
      requires Valid()
      requires s.procs[me].ReadExisting? || s.procs[me].ReadWhileBusy? || s.procs[me].ReadWinner?
            || s.procs[me].ReadLateWinner? || s.procs[me].ReadLocked?
      modifies this
      ensures Valid()
      ensures var before, pc := old(s.procs[me]), s.procs[me];
        if r.Some? then pc == (if before.ReadLocked? then Unlock(r) else Returned(r.value))
        else match before
             case ReadExisting => pc == TryLock(0)
             case ReadWhileBusy(a) => pc == if a + 1 < LOCK_ATTEMPTS then TryLock(a + 1) else ReadWinner
             case ReadWinner => pc == TryLockLate
             case ReadLateWinner => pc == Threw
             case _ => pc == WriteTmp(script.minted)
    {
      var o, at := Perform();
      r := Read(at.file, o);
    }

    method OpenLock() returns (r: LockResult)
      requires Valid() && (s.procs[me].TryLock? || s.procs[me].TryLockLate?)
      modifies this
      ensures Valid()
      ensures var before, pc := old(s.procs[me]), s.procs[me];
        match r
        case Opened => pc == ReadLocked
        case Failed => pc == Threw
        case Exists => pc == if before.TryLock? then ReadWhileBusy(before.attempt) else ReadLateWinner
    {
      var o, at := Perform();
      r := if o != Succeeds then Failed else if at.lock then Exists else Opened;
    }

    /** Writing, chmod or renaming the temporary file. */
    method ChangeFile() returns (o: Outcome)
      requires Valid() && (s.procs[me].WriteTmp? || s.procs[me].ChmodTmp? || s.procs[me].RenameTmp?)
      modifies this
      ensures Valid() && s.procs[me] == StepPc(old(s.procs[me]), false, Missing, o, 0)
    {
      var at;
      o, at := Perform();
    }

    /** A step whose failure is swallowed: removing the temporary file, releasing the lock. */
    method CleanUp()
      requires Valid() && (s.procs[me].RemoveTmp? || s.procs[me].Unlock?)
      modifies this
      ensures Valid() && s.procs[me] == StepPc(old(s.procs[me]), false, Missing, Succeeds, 0)
    {
      var _, _ := Perform();
    }

    method AcquireKeyLock() returns (r: KeyLock)
      requires Valid() && s.procs[me] == TryLock(0)
      modifies this
      ensures Valid()
      ensures s.procs[me] == match r case Acquired => ReadLocked case Found(k) => Returned(k) case Error => Threw
    {
      hide CanRun, Run;
      var key: Option<Key>;
      var attempt := 0;
      while attempt < LOCK_ATTEMPTS
        invariant attempt <= LOCK_ATTEMPTS && Valid()
        invariant s.procs[me] == if attempt < LOCK_ATTEMPTS then TryLock(attempt) else ReadWinner
      {
        var lock := OpenLock();
        if lock != Exists { return if lock == Opened then Acquired else Error; }
        key := ReadKeyPair();
        if key.Some? { return Found(key.value); }
        attempt := attempt + 1;
      }
      key := ReadKeyPair();
      if key.Some? { return Found(key.value); }
      var lock := OpenLock();
      if lock != Exists { return if lock == Opened then Acquired else Error; }
      key := ReadKeyPair();
      return if key.Some? then Found(key.value) else Error;
    }

    method RenameKeyFile(ghost k: Key) returns (ok: bool)
      requires Valid() && s.procs[me] == RenameTmp(k, 0)
      modifies this
      ensures Valid() && s.procs[me] == RemoveTmp(k, ok)
    {
      hide CanRun, Run;
      var attempt := 0;
      while attempt < RENAME_ATTEMPTS
        invariant attempt < RENAME_ATTEMPTS && Valid() && s.procs[me] == RenameTmp(k, attempt)
        decreases RENAME_ATTEMPTS - attempt
      {
        var o := ChangeFile();
        if o == Succeeds { return true; }
        if o == Errors || attempt == RENAME_ATTEMPTS - 1 { return false; }
        attempt := attempt + 1;
      }
    }

    method PersistKeyPair(k: Key) returns (ok: bool)
      requires Valid() && s.procs[me] == WriteTmp(k)
      modifies this
      ensures Valid() && s.procs[me] == Unlock(if ok then Some(k) else None)
    {
      hide Server.Valid;
      ok := false;
      var o := ChangeFile();
      if o == Succeeds {
        o := ChangeFile();
        if o == Succeeds { ok := RenameKeyFile(k); }
      }
      CleanUp();
    }

    method SelectUnderLock() returns (key: Option<Key>)
      requires Valid() && s.procs[me] == ReadLocked
      modifies this
      ensures Valid()
      ensures s.procs[me] == if key.Some? then Returned(key.value) else Threw
    {
      hide Server.Valid;
      key := ReadKeyPair();
      if key.None? {
        var ok := PersistKeyPair(script.minted);
        key := if ok then Some(script.minted) else None;
      }
      CleanUp();
    }

    /** None: an error was thrown. */
    method LoadOrCreate() returns (key: Option<Key>)
      requires Valid() && s.procs[me] == ReadExisting
      modifies this
      ensures Valid()
      ensures s.procs[me] == if key.Some? then Returned(key.value) else Threw
      ensures start.procs[me] == ReadExisting ==>
                var t := TallyOf(NOTHING_YET, start, run, me);
                (key.None? <==> Cause(t)) && (key.Some? ==> key == Got(t))
    {
      key := Load();
      if start.procs[me] == ReadExisting { EndsAsTallied(); }
    }

    lemma EndsAsTallied()
      requires Valid() && (s.procs[me].Returned? || s.procs[me].Threw?) && start.procs[me] == ReadExisting
      ensures var t := TallyOf(NOTHING_YET, start, run, me);
        (s.procs[me].Threw? <==> Cause(t)) && (s.procs[me].Returned? ==> Got(t) == Some(s.procs[me].key))
    {
      ThrowsExactly(start, run, me);
    }

    method Load() returns (key: Option<Key>)
      requires Valid() && s.procs[me] == ReadExisting
      modifies this
      ensures Valid()
      ensures s.procs[me] == if key.Some? then Returned(key.value) else Threw
    {
      hide Server.Valid;
      key := ReadKeyPair();
      if key.Some? { return; }
      var lock := AcquireKeyLock();
      if lock != Acquired { return if lock.Found? then Some(lock.key) else None; }
      key := SelectUnderLock();
    }
  }
}
