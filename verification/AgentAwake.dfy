/**
 * Keeping the machine awake while agents work: the service that decides (src/main/agent-awake-service.ts) and the two
 * child processes it supervises (src/main/linux-lid-sleep-assertion.ts, src/main/macos-system-sleep-assertion.ts). A
 * failure of a child calls the service back, and the service starts children, so the three call each other. The clock
 * stands still during one event; what the operating system answers is left open.
 */
module AgentAwake {
  import opened Options

  const STALE_AFTER_MS := 2 * 60 * 60 * 1000
  const RETRY_MS := 30_000

  // ---- When a status counts ----

  /** `receivedAt` is `None` when the number is not finite. */
  datatype Status = Status(working: bool, receivedAt: Option<int>, observedInCurrentRuntime: bool)

  predicate Counted(s: Status) { s.observedInCurrentRuntime && s.working && s.receivedAt.Some? }

  function Expiry(s: Status): int
    requires Counted(s)
  {
    s.receivedAt.value + STALE_AFTER_MS
  }

  predicate Eligible(s: Status, now: int) { Counted(s) && now - s.receivedAt.value <= STALE_AFTER_MS }

  function EligibleOnes(statuses: seq<Status>, now: int): (r: seq<Status>)
    ensures r != [] <==> exists s <- statuses :: Eligible(s, now)
  {
    if statuses == [] then []
    else (if Eligible(statuses[0], now) then [statuses[0]] else []) + EligibleOnes(statuses[1..], now)
  }

  predicate ShouldBlock(enabled: bool, statuses: seq<Status>, now: int) { enabled && |EligibleOnes(statuses, now)| > 0 }

  /** Some agent was seen at work here, at a known time no more than two hours ago. */
  ghost predicate SomeAgentWorks(statuses: seq<Status>, now: int) {
    exists s <- statuses ::
      s.observedInCurrentRuntime && s.working && s.receivedAt.Some? && now - s.receivedAt.value <= 7_200_000
  }

  /** What decides: the setting, and an agent at work. */
  lemma BlocksExactly(enabled: bool, statuses: seq<Status>, now: int)
    ensures ShouldBlock(enabled, statuses, now) <==> enabled && SomeAgentWorks(statuses, now)
  {
    if s :| s in statuses && s.observedInCurrentRuntime && s.working && s.receivedAt.Some? &&
            now - s.receivedAt.value <= 7_200_000
    {
      assert Eligible(s, now);
    }
  }

  /** The least expiry that is still to come, if any. */
  ghost predicate IsEarliest(statuses: seq<Status>, now: int, r: Option<int>) {
    match r
    case None => forall s <- statuses :: Counted(s) ==> Expiry(s) <= now
    case Some(e) =>
      && (exists s <- statuses :: Counted(s) && Expiry(s) == e > now)
      && (forall s <- statuses :: Counted(s) && Expiry(s) > now ==> e <= Expiry(s))
  }

  /** The loop of `scheduleStaleTimer`. */
  method EarliestExpiry(statuses: seq<Status>, now: int) returns (earliest: Option<int>)
    ensures IsEarliest(statuses, now, earliest)
  {
    earliest := None;
    for i := 0 to |statuses|
      invariant IsEarliest(statuses[..i], now, earliest)
    {
      assert statuses[..i + 1] == statuses[..i] + [statuses[i]];
      if !Counted(statuses[i]) { continue; }
      var expiry := Expiry(statuses[i]);
      if expiry <= now { continue; }
      earliest := Some(if earliest.None? || expiry < earliest.value then expiry else earliest.value);
    }
    assert statuses[..|statuses|] == statuses;
  }

  /** No timer is armed exactly when every eligible status expires at this very moment. */
  lemma NoTimerExactly(statuses: seq<Status>, now: int, timer: Option<int>)
    requires IsEarliest(statuses, now, timer)
    ensures timer.None? <==> forall s <- statuses :: Eligible(s, now) ==> Expiry(s) == now
  {
    if timer.Some? {
      var s :| s in statuses && Counted(s) && Expiry(s) == timer.value > now;
      assert Eligible(s, now);
    }
  }

  /**
   * When the armed timer fires exactly on time, blocking goes on; a new timer is armed only if a later expiry
   * remains.
   */
  lemma FiringOnTimeKeepsBlocking(statuses: seq<Status>, before: int, due: int, next: Option<int>)
    requires IsEarliest(statuses, before, Some(due)) && IsEarliest(statuses, due, next)
    ensures ShouldBlock(true, statuses, due)
    ensures next.None? <==> forall s <- statuses :: Counted(s) ==> Expiry(s) <= due
  {
    var s :| s in statuses && Counted(s) && Expiry(s) == due > before;
    assert Eligible(s, due);
  }

  /** One millisecond late, and it stops exactly when no later expiry remains. */
  lemma FiringLateDecides(statuses: seq<Status>, before: int, due: int, now: int, next: Option<int>)
    requires IsEarliest(statuses, before, Some(due)) && due < now && IsEarliest(statuses, now, next)
    ensures ShouldBlock(true, statuses, now) <==> exists s <- statuses :: Counted(s) && Expiry(s) >= now
    ensures next.Some? ==> ShouldBlock(true, statuses, now)
  {
    if s :| s in statuses && Counted(s) && Expiry(s) >= now { assert Eligible(s, now); }
  }

  // ---- The operating system's blocker ----

  /** The power-save blocker of the runtime: any call may throw, which is `None` or `false` here. */
  class PowerSaveBlocker {
    var issued: nat
    var running: set<nat>
    /** The calls made so far. */
    ghost var starts: nat
    ghost var stops: seq<nat>

    ghost predicate Valid()
      reads this
    {
      forall id <- running :: id < issued
    }

    constructor ()
      ensures Valid() && issued == 0 && running == {} && starts == 0
    {
      issued, running := 0, {};
      starts, stops := 0, [];
    }

    method Start() returns (id: Option<nat>)
      requires Valid()
      modifies this
      ensures Valid() && starts == old(starts) + 1 && stops == old(stops)
      ensures id.None? ==> issued == old(issued) && running == old(running)
      ensures id.Some? ==> id.value == old(issued) && issued == old(issued) + 1
      ensures id.Some? ==> old(running) <= running <= old(running) + {id.value}
    {
      var outcome: bool, started: bool := *, *;
      starts := starts + 1;
      if !outcome { return None; }
      id := Some(issued);
      issued := issued + 1;
      if started { running := running + {id.value}; }
    }

    method Stop(id: nat) returns (returned: bool)
      requires Valid()
      modifies this`running, this`stops
      ensures Valid() && stops == old(stops) + [id]
      ensures old(running) - {id} <= running <= old(running) && (returned ==> id !in running)
    {
      var stopped: bool;
      stops := stops + [id];
      returned, stopped := *, *;
      if returned || stopped { running := running - {id}; }
    }

    method IsStarted(id: nat) returns (answer: Option<bool>)
      ensures answer.Some? ==> answer.value == (id in running)
    {
      var throws: bool := *;
      answer := if throws then None else Some(id in running);
    }
  }

  // ---- One supervised child ----

  datatype Platform = Linux | Darwin | OtherPlatform
  datatype Kind = LinuxLid | MacosSystem
  datatype Failure = ToolMissing | OtherFailure

  predicate Matches(kind: Kind, platform: Platform) {
    match kind case LinuxLid => platform == Linux case MacosSystem => platform == Darwin
  }

  /**
   * Where every spawned process is: the current child, stopped, or its failure reported. Both of the last two only if
   * events still reached it after its listeners were removed.
   */
  ghost predicate Accounted(child: Option<nat>, spawned: nat, killed: set<nat>, reported: set<nat>,
                            intentional: set<nat>, strayed: set<nat>)
  {
    && (forall p :: 0 <= p < spawned ==> child == Some(p) || p in killed || p in reported)
    && (child.Some? ==>
         child.value < spawned && child.value !in killed && child.value !in reported && child.value !in strayed)
    && (forall p :: p in killed && p in reported ==> p in strayed)
    && (forall p :: p in killed || p in reported || p in strayed ==> p < spawned)
    && (forall p :: p in intentional ==> p in killed)
    && (forall p :: p in killed && p !in intentional ==> p in strayed)
  }

  lemma SpawnIsAccounted(spawned: nat, killed: set<nat>, reported: set<nat>, intentional: set<nat>, strayed: set<nat>)
    requires Accounted(None, spawned, killed, reported, intentional, strayed)
    ensures Accounted(Some(spawned), spawned + 1, killed, reported, intentional, strayed)
  {
  }

  lemma StopIsAccounted(child: nat, spawned: nat, killed: set<nat>, reported: set<nat>, intentional: set<nat>,
                        strayed: set<nat>)
    requires Accounted(Some(child), spawned, killed, reported, intentional, strayed)
    ensures Accounted(None, spawned, killed + {child}, reported, intentional + {child}, strayed)
  {
  }

  /**
   * An event of a process. The current child's failure is reported. A process without listeners may be forgotten as
   * stopped, and only after that be reported.
   */
  lemma EventIsAccounted(p: nat, child: Option<nat>, spawned: nat, killed: set<nat>, reported: set<nat>,
                         intentional: set<nat>, strayed: set<nat>)
    requires Accounted(child, spawned, killed, reported, intentional, strayed) && p < spawned
    ensures child == Some(p) ==> p !in intentional && p !in reported
    ensures child == Some(p) ==> Accounted(None, spawned, killed, reported + {p}, intentional, strayed)
    ensures child != Some(p) && p in intentional ==>
              Accounted(child, spawned, killed, reported, intentional - {p}, strayed + {p})
    ensures child != Some(p) && p !in intentional && p in reported ==>
              Accounted(child, spawned, killed, reported, intentional, strayed + {p})
    ensures child != Some(p) && p !in intentional && p !in reported ==>
              p in strayed && Accounted(child, spawned, killed, reported + {p}, intentional, strayed + {p})
  {
  }

  /** Listeners are attached to the current child and to nothing else. */
  ghost predicate ListenersOn(child: Option<nat>, attached: set<nat>) {
    attached == if child.Some? then {child.value} else {}
  }

  lemma ListenersOff(child: Option<nat>, attached: set<nat>, p: nat)
    requires ListenersOn(child, attached)
    ensures ListenersOn(if child == Some(p) then None else child, attached - {p})
  {
  }

  /** Each process that reported did so once. */
  ghost predicate ReportedOnce(reports: multiset<nat>, reported: set<nat>) { reports == multiset(reported) }

  lemma ReportedOnceMore(reports: multiset<nat>, reported: set<nat>, p: nat)
    requires ReportedOnce(reports, reported) && p !in reported
    ensures ReportedOnce(reports + multiset{p}, reported + {p})
  {
  }

  /** When no event reaches a removed listener, no stopped process reports a failure. */
  lemma StoppedOrFailed(child: Option<nat>, spawned: nat, killed: set<nat>, reported: set<nat>, intentional: set<nat>)
    requires Accounted(child, spawned, killed, reported, intentional, {})
    ensures killed !! reported && intentional == killed
    ensures forall p :: p in killed || p in reported || child == Some(p) <==> 0 <= p < spawned
  {
  }

  /**
   * Both assertions, told apart by `kind`. Spawned processes are numbered. The ghost fields remember which processes a
   * kill was tried on, each report of a failure, and which processes had an event delivered to a removed listener.
   */
  class SleepAssertion {
    const kind: Kind
    const platform: Platform
    var child: Option<nat>
    var retryNotBefore: Option<int>
    var retryTimer: Option<int>
    var systemdInhibitUnavailable: bool
    var intentionalStops: set<nat>
    var reportedFailures: set<nat>
    var childCleanups: set<nat>
    var spawned: nat
    ghost var killed: set<nat>
    ghost var reports: multiset<nat>
    ghost var strayed: set<nat>
    /** The timer that the runtime holds for this assertion. */
    ghost var armed: Option<int>
    /** How often a spawn was tried, and what each try is answered. */
    var attempts: nat
    const answers: nat -> Option<Failure>

    constructor (kind: Kind, platform: Platform, answers: nat -> Option<Failure>)
      ensures Valid() && Idle() && this.kind == kind && this.platform == platform && spawned == 0 && attempts == 0
      ensures this.answers == answers && !systemdInhibitUnavailable
    {
      this.kind, this.platform, this.answers := kind, platform, answers;
      child, retryNotBefore, retryTimer, armed := None, None, None, None;
      systemdInhibitUnavailable := false;
      intentionalStops, reportedFailures, childCleanups := {}, {}, {};
      spawned, killed, reports, strayed, attempts := 0, {}, multiset{}, {}, 0;
    }

    /**
     * Every process is the current child, was stopped, or reported its failure; listeners are on the current
     * child only.
     */
    ghost predicate Valid()
      reads this
    {
      && ListenersOn(child, childCleanups)
      && (child.Some? ==> Matches(kind, platform))
      && Accounted(child, spawned, killed, reportedFailures, intentionalStops, strayed)
      && ReportedOnce(reports, reportedFailures)
      && (retryTimer.Some? ==> retryNotBefore.Some?) && retryTimer == armed
      && (systemdInhibitUnavailable ==> kind == LinuxLid)
    }

    /** Nothing runs and nothing is due. */
    predicate Idle()
      reads this
    {
      child.None? && retryNotBefore.None? && retryTimer.None?
    }

    /** Something runs, or will try to, wherever that is possible at all. */
    predicate Supervised()
      reads this
    {
      Matches(kind, platform) ==> child.Some? || retryTimer.Some? || systemdInhibitUnavailable
    }

    predicate Ready(now: int)
      reads this
    {
      && Matches(kind, platform) && child.None? && !systemdInhibitUnavailable
      && (retryNotBefore.Some? ==> retryNotBefore.value <= now)
    }

    /** Attempts made, and the one that is due. */
    ghost function Potential(now: int): nat
      reads this
    {
      attempts + if Ready(now) then 1 else 0
    }

    /** Starting and stopping report nothing. */
    twostate predicate SameReports()
      reads this
    {
      reportedFailures == old(reportedFailures) && reports == old(reports) && strayed == old(strayed)
    }

    /**
     * An assertion that is not ready to spawn is left as it is, but for its timer.  One whose spawn succeeded has
     * its child, and the tool is found missing only by a spawn that said so.
     */
    twostate predicate Proceeds(now: int)
      reads this
    {
      && (old(!Ready(now)) ==>
            && child == old(child) && retryNotBefore == old(retryNotBefore)
            && systemdInhibitUnavailable == old(systemdInhibitUnavailable))
      && (old(Ready(now)) && old(attempts) < attempts && answers(old(attempts)).None? ==> child.Some?)
      && (systemdInhibitUnavailable && !old(systemdInhibitUnavailable) ==> answers(old(attempts)) == Some(ToolMissing))
    }

    ghost predicate Tended(now: int)
      reads this
    {
      Supervised() && !Ready(now)
    }

    method ResetRetrySuppression()
      modifies this`retryNotBefore, this`retryTimer, this`armed
      ensures retryNotBefore.None? && retryTimer.None? && armed.None?
    {
      retryNotBefore := None;
      retryTimer, armed := None, None;
    }

    method ScheduleRetry(now: int)
      requires retryTimer == armed
      modifies this`retryTimer, this`armed
      ensures retryTimer == armed
      ensures retryTimer == if retryNotBefore.None? || old(retryTimer).Some? then old(retryTimer) else
                Some(if retryNotBefore.value < now then now else retryNotBefore.value)
    {
      if retryNotBefore.None? || retryTimer.Some? { return; }
      var retryDelay := if retryNotBefore.value - now < 0 then 0 else retryNotBefore.value - now;
      retryTimer, armed := Some(now + retryDelay), Some(now + retryDelay);
    }

    method Stop()
      requires Valid()
      modifies this
      ensures Valid() && Idle()
      ensures killed == old(killed) + (if old(child).Some? then {old(child).value} else {})
      ensures spawned == old(spawned) && attempts == old(attempts) && SameReports()
      ensures systemdInhibitUnavailable == old(systemdInhibitUnavailable)
    {
      hide Accounted;
      ResetRetrySuppression();
      if child.None? { return; }
      var stopped := child.value;
      StopIsAccounted(stopped, spawned, killed, reportedFailures, intentionalStops, strayed);
      child := None;
      intentionalStops := intentionalStops + {stopped};
      childCleanups := childCleanups - {stopped};
      // The kill may throw; that is only logged.
      killed := killed + {stopped};
    }

    /** The rest of `start` once the spawn succeeded. */
    method Adopt()
      requires Valid() && child.None? && Matches(kind, platform)
      modifies this`child, this`childCleanups, this`spawned, this`retryNotBefore, this`retryTimer, this`armed
      ensures Valid() && child == Some(old(spawned)) && spawned == old(spawned) + 1 && retryNotBefore.None? &&
                retryTimer.None?
    {
      hide Accounted;
      SpawnIsAccounted(spawned, killed, reportedFailures, intentionalStops, strayed);
      child := Some(spawned);
      childCleanups := childCleanups + {spawned};
      spawned := spawned + 1;
      ResetRetrySuppression();
    }

    /** Called while the service refreshes and wants the machine awake. */
    method Start(owner: AgentAwakeService, now: int)
      requires owner.Valid() && owner.Owns(this) && owner.Wants(now) && owner.wanted
      modifies owner`blockerId, owner`notStarted, owner`staleTimer, owner`wanted
      modifies owner.blocker, owner.linuxAssertion, owner.macosAssertion
      ensures owner.Valid() && owner.wanted && Tended(now) && owner.GoesOn(this, now)
      decreases owner.ReadyCount(now), 2
    {
      hide Accounted, ReportedOnce, ListenersOn, IsEarliest, ShouldBlock, SomeAgentWorks;
      if !Matches(kind, platform) || child.Some? || systemdInhibitUnavailable { return; }
      if retryNotBefore.Some? && now < retryNotBefore.value {
        ScheduleRetry(now);
        return;
      }
      Spawn(owner, now);
    }

    /** The rest of `start`. A spawn that throws calls the service back before returning. */
    method Spawn(owner: AgentAwakeService, now: int)
      requires owner.Valid() && owner.Owns(this) && owner.Wants(now) && owner.wanted && Ready(now)
      modifies owner`blockerId, owner`notStarted, owner`staleTimer, owner`wanted
      modifies owner.blocker, owner.linuxAssertion, owner.macosAssertion
      ensures owner.Valid() && owner.wanted && Tended(now) && owner.GoesOn(this, now)
      decreases owner.ReadyCount(now), 1
    {
      hide Accounted, ReportedOnce, ListenersOn, IsEarliest, ShouldBlock, SomeAgentWorks;
      var outcome := answers(attempts);
      if outcome.Some? {
        SpawnFailed(owner, now, outcome.value);
        return;
      }
      attempts := attempts + 1;
      Adopt();
    }

    method SpawnFailed(owner: AgentAwakeService, now: int, failure: Failure)
      requires owner.Valid() && owner.Owns(this) && owner.Wants(now) && owner.wanted && Ready(now)
      requires answers(attempts) == Some(failure)
      modifies owner`blockerId, owner`notStarted, owner`staleTimer, owner`wanted
      modifies owner.blocker, owner.linuxAssertion, owner.macosAssertion
      ensures owner.Valid() && owner.wanted && Tended(now) && owner.GoesOn(this, now)
      decreases owner.ReadyCount(now), 0
    {
      hide Accounted, ReportedOnce, ListenersOn, IsEarliest, ShouldBlock, SomeAgentWorks,
        AgentAwakeService.BlockersAccounted;
      attempts := attempts + 1;
      HandleFailure(owner, now, failure);
    }

    /** The child emitted `error` or `exit`. Processes that are not the current child no longer have listeners. */
    method HandleChildFailure(owner: AgentAwakeService, process: nat, now: int, failure: Failure)
      requires owner.Valid() && owner.Settled() && owner.Owns(this) && process < spawned
      modifies owner`blockerId, owner`notStarted, owner`staleTimer, owner`wanted
      modifies owner.blocker, owner.linuxAssertion, owner.macosAssertion
      ensures owner.Valid() && owner.Settled()
      ensures old(child) == Some(process) ==> process in reportedFailures
      ensures old(child) == Some(process) ==>
                if kind == LinuxLid && failure == ToolMissing then systemdInhibitUnavailable && child.None?
                  else owner.Refreshed(now)
      ensures attempts == old(attempts) && (!owner.Wants(now) ==> owner.StartsNothing())
    {
      hide Accounted, ReportedOnce, ListenersOn, IsEarliest, ShouldBlock, Matches, SomeAgentWorks,
        AgentAwakeService.BlockersAccounted;
      var report := DetachChild(process);
      if !report { return; }
      assert owner.SettledBut(this);
      HandleFailure(owner, now, failure);
      if kind == LinuxLid && failure == ToolMissing { owner.SettledAfterAll(this); }
    }

    method NoteReport(process: nat)
      requires ReportedOnce(reports, reportedFailures) && process !in reportedFailures
      modifies this`reportedFailures, this`reports
      ensures ReportedOnce(reports, reportedFailures)
      ensures reportedFailures == old(reportedFailures) + {process} && reports == old(reports) + multiset{process}
    {
      hide ReportedOnce;
      ReportedOnceMore(reports, reportedFailures, process);
      reportedFailures := reportedFailures + {process};
      reports := reports + multiset{process};
    }

    /** What is done before the failure is handled; answers whether it is. */
    method DetachChild(process: nat) returns (report: bool)
      requires Valid() && process < spawned
      modifies this`child, this`childCleanups, this`intentionalStops, this`reportedFailures, this`reports, this`strayed
      ensures Valid() && child == if old(child) == Some(process) then None else old(child)
      ensures report == (process !in old(intentionalStops) && process !in old(reportedFailures))
      ensures reportedFailures == if report then old(reportedFailures) + {process} else old(reportedFailures)
      ensures reports == if report then old(reports) + multiset{process} else old(reports)
      ensures intentionalStops == if process in old(intentionalStops) then old(intentionalStops) - {process}
                else old(intentionalStops)
      ensures strayed == if old(child) == Some(process) then old(strayed) else old(strayed) + {process}
      ensures old(child) == Some(process) ==> report
    {
      hide Accounted, ReportedOnce, ListenersOn, Matches;
      ListenersOff(child, childCleanups, process);
      EventIsAccounted(process, child, spawned, killed, reportedFailures, intentionalStops, strayed);
      if child != Some(process) { strayed := strayed + {process}; }
      childCleanups := childCleanups - {process};
      if process in intentionalStops {
        intentionalStops := intentionalStops - {process};
        return false;
      }
      if process in reportedFailures { return false; }
      NoteReport(process);
      if child == Some(process) { child := None; }
      return true;
    }

    method HandleFailure(owner: AgentAwakeService, now: int, failure: Failure)
      requires owner.Valid() && owner.Owns(this)
      modifies owner`blockerId, owner`notStarted, owner`staleTimer, owner`wanted
      modifies owner.blocker, owner.linuxAssertion, owner.macosAssertion
      ensures owner.Valid()
      ensures kind == LinuxLid && failure == ToolMissing ==>
                systemdInhibitUnavailable && child == old(child) && retryNotBefore.None? && retryTimer.None? &&
                unchanged(owner) && unchanged(owner.blocker) && unchanged(owner.Other(this))
      ensures !(kind == LinuxLid && failure == ToolMissing) ==> owner.Refreshed(now)
      ensures attempts == old(attempts) && (!owner.Wants(now) ==> owner.StartsNothing())
      ensures systemdInhibitUnavailable ==
                (old(systemdInhibitUnavailable) || (kind == LinuxLid && failure == ToolMissing))
      ensures owner.Wants(now) ==>
                owner.Other(this).Potential(now) == old(owner.Other(this).Potential(now)) && owner.BlockerKept() &&
                owner.Other(this).Proceeds(now)
      ensures owner.Wants(now) && !(kind == LinuxLid && failure == ToolMissing) ==>
                retryNotBefore == Some(now + 30_000)
      ensures owner.linuxAssertion.SameReports() && owner.macosAssertion.SameReports()
      decreases (if owner.Other(this).Ready(now) then 1 else 0), 5
    {
      hide Accounted, ReportedOnce, ListenersOn, IsEarliest, ShouldBlock, SomeAgentWorks,
        AgentAwakeService.BlockersAccounted;
      if kind == LinuxLid && failure == ToolMissing {
        systemdInhibitUnavailable := true;
        ResetRetrySuppression();
        return;
      }
      retryNotBefore := Some(now + RETRY_MS);
      ScheduleRetry(now);
      owner.Refresh(now);
    }

    method RetryTimerFired(owner: AgentAwakeService, now: int)
      requires owner.Valid() && owner.Owns(this) && retryTimer.Some?
      modifies owner`blockerId, owner`notStarted, owner`staleTimer, owner`wanted
      modifies owner.blocker, owner.linuxAssertion, owner.macosAssertion
      ensures owner.Valid() && owner.Refreshed(now)
      ensures !owner.Wants(now) ==> owner.StartsNothing()
    {
      armed := None;   // it has fired
      retryTimer := None;
      owner.Refresh(now);
    }
  }

  // ---- The service ----

  class AgentAwakeService {
    const blocker: PowerSaveBlocker
    const linuxAssertion: SleepAssertion
    const macosAssertion: SleepAssertion
    var enabled: bool
    var statuses: seq<Status>
    var blockerId: Option<nat>
    var staleTimer: Option<int>
    /** The last decision taken. */
    ghost var wanted: bool
    /** The blockers last reported not started. */
    ghost var notStarted: set<nat>

    constructor (platform: Platform, linuxSpawns: nat -> Option<Failure>, macosSpawns: nat -> Option<Failure>)
      ensures Valid() && Settled() && !enabled && statuses == [] && blockerId.None? && staleTimer.None?
      ensures linuxAssertion.platform == platform && macosAssertion.platform == platform
      ensures NothingStarted() && linuxAssertion.answers == linuxSpawns && macosAssertion.answers == macosSpawns
      ensures fresh(blocker) && fresh(linuxAssertion) && fresh(macosAssertion)
    {
      blocker := new PowerSaveBlocker();
      linuxAssertion := new SleepAssertion(LinuxLid, platform, linuxSpawns);
      macosAssertion := new SleepAssertion(MacosSystem, platform, macosSpawns);
      enabled, statuses, blockerId, staleTimer := false, [], None, None;
      wanted, notStarted := false, {};
    }

    ghost predicate BlockersAccounted()
      reads this, blocker
    {
      && blocker.Valid()
      && (forall id :: 0 <= id < blocker.issued ==> blockerId == Some(id) || id in notStarted)
      && (blockerId.Some? ==> blockerId.value < blocker.issued && blockerId.value !in notStarted)
      && notStarted !! blocker.running
      && (forall id <- notStarted :: id < blocker.issued)
    }

    ghost predicate Valid()
      reads this, blocker, linuxAssertion, macosAssertion
    {
      && linuxAssertion.kind == LinuxLid && macosAssertion.kind == MacosSystem
      && linuxAssertion.Valid() && macosAssertion.Valid()
      && BlockersAccounted()
    }

    predicate Owns(a: SleepAssertion) { a == linuxAssertion || a == macosAssertion }

    function Other(a: SleepAssertion): SleepAssertion { if a == linuxAssertion then macosAssertion else linuxAssertion }

    predicate Wants(now: int)
      reads this
    {
      ShouldBlock(enabled, statuses, now)
    }

    /** The held blocker changes only by starting another. */
    twostate predicate BlockerKept()
      reads this, blocker
    {
      && old(blocker.starts) <= blocker.starts
      && (blockerId == old(blockerId) || old(blocker.starts) < blocker.starts)
    }

    /**
     * What starting one assertion keeps, however deep the calls go: at most one attempt each, and what was
     * done stays done.
     */
    twostate predicate GoesOn(a: SleepAssertion, now: int)
      reads this, blocker, linuxAssertion, macosAssertion
    {
      && (old(Other(a).Tended(now)) ==> Other(a).Tended(now))
      && (old(TimerIsEarliest(now)) ==> TimerIsEarliest(now))
      && ReadyCount(now) <= old(ReadyCount(now))
      && linuxAssertion.Potential(now) == old(linuxAssertion.Potential(now))
      && macosAssertion.Potential(now) == old(macosAssertion.Potential(now))
      && BlockerKept() && linuxAssertion.Proceeds(now) && macosAssertion.Proceeds(now)
      && linuxAssertion.SameReports() && macosAssertion.SameReports()
    }

    ghost predicate TimerIsEarliest(now: int)
      reads this
    {
      IsEarliest(statuses, now, staleTimer)
    }

    /** Between events: if the machine was to stay awake, something sees to it; if not, nothing runs. */
    ghost predicate Settled()
      reads this, linuxAssertion, macosAssertion
    {
      if wanted then linuxAssertion.Supervised() && macosAssertion.Supervised()
      else linuxAssertion.Idle() && macosAssertion.Idle()
    }

    /** As `Settled`, except that `a` may lack the child or the timer it should have. */
    ghost predicate SettledBut(a: SleepAssertion)
      reads this, linuxAssertion, macosAssertion, a
    {
      if wanted then Other(a).Supervised() else Other(a).Idle() && a.Idle()
    }

    lemma SettledAfterAll(a: SleepAssertion)
      requires Owns(a) && SettledBut(a) && a.systemdInhibitUnavailable
      ensures Settled()
    {
    }

    /** Neither the blocker nor a child was ever started, nor was it tried. */
    ghost predicate NothingStarted()
      reads this, blocker, linuxAssertion, macosAssertion
    {
      blocker.starts == 0 && linuxAssertion.attempts == 0 && macosAssertion.attempts == 0
    }

    /** Nothing was started since, nor was it tried. */
    twostate predicate StartsNothing()
      reads this, blocker, linuxAssertion, macosAssertion
    {
      && blocker.starts == old(blocker.starts)
      && linuxAssertion.attempts == old(linuxAssertion.attempts)
      && macosAssertion.attempts == old(macosAssertion.attempts)
    }

    /** What a refresh at this time leaves behind. */
    ghost predicate Refreshed(now: int)
      reads this, linuxAssertion, macosAssertion
    {
      && wanted == Wants(now) && Settled() && TimerIsEarliest(now)
      && (Wants(now) ==> linuxAssertion.Tended(now) && macosAssertion.Tended(now))
    }

    /** So while the machine is to stay awake, its platform's child runs, or will be tried again, or has no tool. */
    lemma WantedIsTended(now: int)
      requires Valid() && Refreshed(now) && wanted
      ensures linuxAssertion.platform == Linux ==>
                || linuxAssertion.child.Some? || linuxAssertion.retryTimer.Some?
                || linuxAssertion.systemdInhibitUnavailable
      ensures macosAssertion.platform == Darwin ==> macosAssertion.child.Some? || macosAssertion.retryTimer.Some?
      ensures linuxAssertion.platform != Linux ==> linuxAssertion.child.None?
      ensures macosAssertion.platform != Darwin ==> macosAssertion.child.None?
    {
    }

    function ReadyCount(now: int): nat
      reads linuxAssertion, macosAssertion
    {
      (if linuxAssertion.Ready(now) then 1 else 0) + (if macosAssertion.Ready(now) then 1 else 0)
    }

    method ReconcileBlocker() returns (started: bool)
      requires BlockersAccounted()
      modifies this`blockerId, this`notStarted
      ensures BlockersAccounted()
      ensures blockerId == if started then old(blockerId) else None
    {
      if blockerId.None? { return false; }
      var answer := blocker.IsStarted(blockerId.value);
      if answer.None? { return true; }
      if !answer.value {
        notStarted := notStarted + {blockerId.value};
        blockerId := None;
      }
      return answer.value;
    }

    method StartBlocker()
      requires BlockersAccounted()
      modifies this`blockerId, this`notStarted, blocker
      ensures BlockersAccounted()
      ensures blocker.stops == old(blocker.stops) && old(blocker.starts) <= blocker.starts <= old(blocker.starts) + 1
      ensures blocker.starts == old(blocker.starts) ==> blockerId.Some? && blockerId == old(blockerId)
    {
      if blockerId.Some? {
        var started := ReconcileBlocker();
        if started { return; }
      }
      var id := blocker.Start();
      if id.None? { return; }
      blockerId := id;
      var _ := ReconcileBlocker();
    }

    method StopBlocker()
      requires BlockersAccounted()
      modifies this`blockerId, this`notStarted, blocker
      ensures BlockersAccounted() && (blockerId.None? || blockerId == old(blockerId))
      ensures blocker.starts == old(blocker.starts)
      ensures blocker.stops == if old(blockerId).Some? then old(blocker.stops) + [old(blockerId).value]
                else old(blocker.stops)
    {
      if blockerId.None? { return; }
      var _ := blocker.Stop(blockerId.value);
      var _ := ReconcileBlocker();
    }

    method ScheduleStaleTimer(now: int)
      modifies this`staleTimer
      ensures TimerIsEarliest(now)
    {
      staleTimer := None;
      var earliest := EarliestExpiry(statuses, now);
      if earliest.None? { return; }
      var delay := earliest.value - now;
      staleTimer := Some(now + delay);
    }

    /** At most one spawn is tried for each assertion, and only if one is due. */
    method Refresh(now: int)
      requires Valid()
      modifies this`blockerId, this`notStarted, this`staleTimer, this`wanted, blocker, linuxAssertion, macosAssertion
      ensures Valid() && Refreshed(now)
      ensures wanted == (enabled && SomeAgentWorks(statuses, now))
      ensures !wanted ==> linuxAssertion.Idle() && macosAssertion.Idle() && StartsNothing()
      ensures !wanted ==>
                && linuxAssertion.systemdInhibitUnavailable == old(linuxAssertion.systemdInhibitUnavailable)
                && macosAssertion.systemdInhibitUnavailable == old(macosAssertion.systemdInhibitUnavailable)
      ensures linuxAssertion.SameReports() && macosAssertion.SameReports()
      ensures if Wants(now) then
                linuxAssertion.Potential(now) == old(linuxAssertion.Potential(now)) &&
                macosAssertion.Potential(now) == old(macosAssertion.Potential(now)) &&
                linuxAssertion.Proceeds(now) && macosAssertion.Proceeds(now) &&
                old(blocker.starts) <= blocker.starts &&
                ((blockerId.Some? && blockerId == old(blockerId)) || old(blocker.starts) < blocker.starts)
              else
                (blockerId.None? || blockerId == old(blockerId)) &&
                blocker.stops == if old(blockerId).Some? then old(blocker.stops) + [old(blockerId).value]
                  else old(blocker.stops)
      decreases (if Wants(now) then ReadyCount(now) else 0), 4
    {
      BlocksExactly(enabled, statuses, now);
      hide Accounted, ReportedOnce, ListenersOn, IsEarliest, ShouldBlock, SomeAgentWorks;
      ScheduleStaleTimer(now);
      var shouldBlock := ShouldBlock(enabled, statuses, now);
      wanted := shouldBlock;
      hide SleepAssertion.Valid, SleepAssertion.Ready, BlockersAccounted;
      if shouldBlock { KeepAwake(now); } else { LetSleep(); }
    }

    method KeepAwake(now: int)
      requires Valid() && Wants(now) && wanted && TimerIsEarliest(now)
      modifies this`blockerId, this`notStarted, this`staleTimer, this`wanted, blocker, linuxAssertion, macosAssertion
      ensures Valid() && wanted && TimerIsEarliest(now) && linuxAssertion.Tended(now) && macosAssertion.Tended(now)
      ensures linuxAssertion.SameReports() && macosAssertion.SameReports()
      ensures linuxAssertion.Potential(now) == old(linuxAssertion.Potential(now))
      ensures macosAssertion.Potential(now) == old(macosAssertion.Potential(now))
      ensures linuxAssertion.Proceeds(now) && macosAssertion.Proceeds(now)
      ensures old(blocker.starts) <= blocker.starts
      ensures (blockerId.Some? && blockerId == old(blockerId)) || old(blocker.starts) < blocker.starts
      decreases ReadyCount(now), 3
    {
      hide Accounted, ReportedOnce, ListenersOn, IsEarliest, ShouldBlock, SomeAgentWorks;
      StartBlocker();
      macosAssertion.Start(this, now);
      linuxAssertion.Start(this, now);
    }

    method LetSleep()
      requires Valid()
      modifies this`blockerId, this`notStarted, blocker, linuxAssertion, macosAssertion
      ensures Valid() && linuxAssertion.Idle() && macosAssertion.Idle()
      ensures linuxAssertion.SameReports() && macosAssertion.SameReports()
      ensures StartsNothing()
      ensures linuxAssertion.systemdInhibitUnavailable == old(linuxAssertion.systemdInhibitUnavailable)
      ensures macosAssertion.systemdInhibitUnavailable == old(macosAssertion.systemdInhibitUnavailable)
      ensures blockerId.None? || blockerId == old(blockerId)
      ensures blocker.stops == if old(blockerId).Some? then old(blocker.stops) + [old(blockerId).value]
                else old(blocker.stops)
    {
      hide Accounted, ReportedOnce, ListenersOn;
      StopBlocker();
      macosAssertion.Stop();
      linuxAssertion.Stop();
    }

    method SetEnabled(enabled: bool, now: int)
      requires Valid() && Settled()
      modifies this`enabled, this`blockerId, this`notStarted, this`staleTimer, this`wanted, blocker, linuxAssertion,
        macosAssertion
      ensures Valid() && Settled() && this.enabled == enabled
      ensures !(enabled && SomeAgentWorks(statuses, now)) ==> StartsNothing()
      ensures old(this.enabled) != enabled ==> Refreshed(now)
      ensures old(this.enabled) == enabled ==>
                unchanged(this) && unchanged(blocker) && unchanged(linuxAssertion) && unchanged(macosAssertion)
    {
      if this.enabled == enabled { return; }
      this.enabled := enabled;
      Refresh(now);
    }

    method SetStatuses(statuses: seq<Status>, now: int)
      requires Valid()
      modifies this`statuses, this`blockerId, this`notStarted, this`staleTimer, this`wanted, blocker, linuxAssertion,
        macosAssertion
      ensures Valid() && Refreshed(now) && this.statuses == statuses
      ensures !(enabled && SomeAgentWorks(statuses, now)) ==> StartsNothing()
    {
      this.statuses := statuses;
      Refresh(now);
    }

    method StaleTimerFired(now: int)
      requires Valid() && staleTimer.Some?
      modifies this`blockerId, this`notStarted, this`staleTimer, this`wanted, blocker, linuxAssertion, macosAssertion
      ensures Valid() && Refreshed(now)
      ensures !(enabled && SomeAgentWorks(statuses, now)) ==> StartsNothing()
    {
      staleTimer := None;
      Refresh(now);
    }

    method PowerResumed(now: int)
      requires Valid()
      modifies this`blockerId, this`notStarted, this`staleTimer, this`wanted, blocker, linuxAssertion, macosAssertion
      ensures Valid() && Refreshed(now)
      ensures !(enabled && SomeAgentWorks(statuses, now)) ==> StartsNothing()
    {
      Refresh(now);
    }

    method Dispose()
      requires Valid()
      modifies this`blockerId, this`notStarted, this`staleTimer, this`wanted, blocker, linuxAssertion, macosAssertion
      ensures Valid() && Settled() && staleTimer.None? && linuxAssertion.Idle() && macosAssertion.Idle()
      ensures blocker.stops == if old(blockerId).Some? then old(blocker.stops) + [old(blockerId).value]
                else old(blocker.stops)
      ensures StartsNothing()
    {
      hide Accounted, ReportedOnce, ListenersOn;
      staleTimer := None;
      wanted := false;
      StopBlocker();
      macosAssertion.Stop();
      linuxAssertion.Stop();
    }

    /** No two blockers ever run, and one that runs is the one held, whatever the runtime's calls threw. */
    lemma OnlyTheHeldBlockerRuns(id: nat)
      requires BlockersAccounted() && id in blocker.running
      ensures blockerId == Some(id)
    {
    }

    /** The events that lead to a refresh. */
    predicate Refreshing(event: Event)
      reads this, linuxAssertion, macosAssertion
    {
      match event
      case EnabledSet(on) => on != enabled
      case StatusesSet(_) => true
      case StaleTimer => staleTimer.Some?
      case Resumed => true
      case Disposed => false
      case LinuxRetryTimer => linuxAssertion.retryTimer.Some?
      case MacosRetryTimer => macosAssertion.retryTimer.Some?
      case LinuxChildFailed(p, failure) => linuxAssertion.child == Some(p) && failure != ToolMissing
      case MacosChildFailed(p, _) => macosAssertion.child == Some(p)
    }

    /** One event of the event loop, in any order the outside world chooses. */
    method Handle(event: Event, now: int)
      requires Valid() && Settled()
      modifies this, blocker, linuxAssertion, macosAssertion
      ensures Valid() && Settled()
      ensures enabled == (if event.EnabledSet? then event.on else old(enabled))
      ensures statuses == (if event.StatusesSet? then event.all else old(statuses))
      ensures old(Refreshing(event)) ==> Refreshed(now)
      ensures event.Disposed? ==> staleTimer.None? && linuxAssertion.Idle() && macosAssertion.Idle()
      ensures !(enabled && SomeAgentWorks(statuses, now)) || event.Disposed? ==> StartsNothing()
    {
      match event
      case EnabledSet(on) => SetEnabled(on, now);
      case StatusesSet(all) => SetStatuses(all, now);
      case StaleTimer => if staleTimer.Some? { StaleTimerFired(now); }
      case Resumed => PowerResumed(now);
      case Disposed => Dispose();
      case LinuxRetryTimer => if linuxAssertion.retryTimer.Some? { linuxAssertion.RetryTimerFired(this, now); }
      case MacosRetryTimer => if macosAssertion.retryTimer.Some? { macosAssertion.RetryTimerFired(this, now); }
      case LinuxChildFailed(p, failure) =>
        if p < linuxAssertion.spawned { linuxAssertion.HandleChildFailure(this, p, now, failure); }
      case MacosChildFailed(p, failure) =>
        if p < macosAssertion.spawned { macosAssertion.HandleChildFailure(this, p, now, failure); }
    }
  }

  datatype Event =
    | EnabledSet(on: bool)
    | StatusesSet(all: seq<Status>)
    | StaleTimer
    | Resumed
    | Disposed
    | LinuxRetryTimer
    | MacosRetryTimer
    | LinuxChildFailed(process: nat, failure: Failure)
    | MacosChildFailed(process: nat, failure: Failure)

  /** The setting after the events, off at first, and the statuses last received. */
  function LastSetting(events: seq<Event>): bool {
    if events == [] then false
    else
      var last := events[|events| - 1];
      if last.EnabledSet? then last.on else LastSetting(events[..|events| - 1])
  }

  function LastStatuses(events: seq<Event>): seq<Status> {
    if events == [] then []
    else
      var last := events[|events| - 1];
      if last.StatusesSet? then last.all else LastStatuses(events[..|events| - 1])
  }

  /**
   * Every reachable state is accounted for and settled, and has the latest setting and statuses.  As long as the
   * setting was never switched on, nothing was ever started.
   */
  method EventLoop(platform: Platform, linuxSpawns: nat -> Option<Failure>, macosSpawns: nat -> Option<Failure>,
                   events: seq<Event>, times: seq<int>)
    returns (service: AgentAwakeService)
    requires |times| == |events|
    ensures service.Valid() && service.Settled()
    ensures service.enabled == LastSetting(events) && service.statuses == LastStatuses(events)
    ensures EnabledSet(true) !in events ==> service.NothingStarted()
  {
    hide AgentAwakeService.Valid, AgentAwakeService.Settled, AgentAwakeService.Refreshed, SomeAgentWorks;
    service := new AgentAwakeService(platform, linuxSpawns, macosSpawns);
    for i := 0 to |events|
      invariant service.Valid() && service.Settled()
      invariant fresh(service) && fresh(service.blocker) && fresh(service.linuxAssertion) &&
                  fresh(service.macosAssertion)
      invariant service.enabled == LastSetting(events[..i]) && service.statuses == LastStatuses(events[..i])
      invariant EnabledSet(true) !in events[..i] ==> !service.enabled && service.NothingStarted()
    {
      assert events[..i + 1][..i] == events[..i];
      service.Handle(events[i], times[i]);
    }
    assert events[..|events|] == events;
  }
}
