/**
 * Writing the Dock icon into the application bundle (src/main/app-icon.ts): a command with a time limit that settles
 * once, and the queue that runs such commands one request at a time and skips requests that a newer one replaced.
 */
module IconQueue {
  import opened Options

  const COMMAND_TIMEOUT_MS := 10_000
  const COMMAND_FALLBACK_MS := 1_000

  // ---- The bounded command ----

  /**
   * One call of `runBoundedMacDockIconCommand`. A timer field holds the time a timer is armed for. What the child
   * process does, and when, is left open. The ghost fields count what the caller can notice.
   */
  class BoundedCommand {
    const startedAt: int
    var hasChild: bool
    var settled: bool
    var fallback: Option<int>
    var forceFallback: Option<int>
    var exitListener: bool
    var closeListener: bool
    ghost var resolutions: nat
    ghost var errors: nat
    ghost var warnings: nat
    ghost var kills: nat

    /** Resolved at most once, with at most one complaint; nothing is armed after settling. */
    ghost predicate SettlesOnce()
      reads this
    {
      && resolutions == (if settled then 1 else 0)
      && errors + warnings <= resolutions
      && (settled ==> fallback.None? && forceFallback.None?)
      && (fallback.Some? ==>
           forceFallback.None? && fallback.value == startedAt + COMMAND_TIMEOUT_MS + COMMAND_FALLBACK_MS && kills == 0)
      && (exitListener || closeListener || forceFallback.Some? ==> fallback.None? && hasChild && kills == 1)
      && kills <= 1
    }

    /** Between events, a command that has not settled has a timer armed, so it will. */
    ghost predicate Valid()
      reads this
    {
      SettlesOnce() && (settled || fallback.Some? || (forceFallback.Some? && exitListener && closeListener))
    }

    /**
     * `execFile` may call back before it returns, any number of times (`callbacks` says whether with an error), and
     * it may throw or return no child.
     */
    constructor Run(now: int, callbacks: seq<bool>, throws: bool, child: bool)
      ensures Valid() && startedAt == now && warnings == 0 && kills == 0 && hasChild == (!throws && child)
      ensures settled <==> callbacks != [] || throws
      ensures errors == if callbacks != [] then (if callbacks[0] then 1 else 0) else if throws then 1 else 0
      ensures !settled ==> fallback == Some(now + 11_000)
    {
      startedAt := now;
      hasChild, settled, exitListener, closeListener := false, false, false, false;
      fallback, forceFallback := Some(now + COMMAND_TIMEOUT_MS + COMMAND_FALLBACK_MS), None;
      resolutions, errors, warnings, kills := 0, 0, 0, 0;
      new;
      for i := 0 to |callbacks|
        invariant Valid() && !hasChild && forceFallback.None? && warnings == 0 && kills == 0
        invariant !exitListener && !closeListener
        invariant settled == (i > 0) && errors == if i > 0 && callbacks[0] then 1 else 0
      {
        Finish(callbacks[i]);
      }
      if throws {
        Finish(true);
      } else if child {
        hasChild := true;
      }
    }

    method Finish(failed: bool)
      requires Valid()
      modifies this`settled, this`fallback, this`forceFallback, this`errors, this`resolutions
      ensures Valid() && settled
      ensures old(settled) ==> errors == old(errors)
      ensures !old(settled) ==> errors == (if failed then 1 else 0)
    {
      if settled { return; }
      settled := true;
      fallback := None;
      if forceFallback.Some? { forceFallback := None; }
      if failed { errors := errors + 1; }
      resolutions := resolutions + 1;
    }

    method FinishAfterFallback()
      requires SettlesOnce() && fallback.None?
      modifies this`settled, this`forceFallback, this`warnings, this`resolutions
      ensures Valid() && settled
      ensures old(settled) ==> warnings == old(warnings)
      ensures !old(settled) ==> warnings == 1
    {
      if settled { return; }
      settled := true;
      if forceFallback.Some? { forceFallback := None; }
      warnings := warnings + 1;
      resolutions := resolutions + 1;
    }

    /** Without a child there is nothing to wait for. With one, it is killed and given a little longer to go. */
    method FallbackFired(now: int)
      requires Valid() && fallback.Some?
      modifies this
      ensures Valid() && fallback.None?
      ensures !old(hasChild) ==> settled && warnings == 1 && kills == 0
      ensures old(hasChild) ==> kills == 1 && (settled || forceFallback == Some(now + 1_000))
      ensures old(hasChild) && !settled ==> exitListener && closeListener
    {
      fallback := None;
      if !hasChild {
        FinishAfterFallback();
        return;
      }
      exitListener := true;
      closeListener := true;
      forceFallback := Some(now + COMMAND_FALLBACK_MS);
      // The kill may throw, and it may bring the events about before it returns.
      kills := kills + 1;
      var exits: bool, closes: bool := *, *;
      if exits { ChildExited(); }
      if closes { ChildClosed(); }
    }

    method ForceFallbackFired()
      requires Valid() && forceFallback.Some?
      modifies this
      ensures Valid() && settled && kills == old(kills) && warnings == 1
    {
      forceFallback := None;
      FinishAfterFallback();
    }

    method ChildExited()
      requires Valid()
      modifies this`exitListener, this`settled, this`forceFallback, this`warnings, this`resolutions
      ensures Valid() && (old(exitListener) ==> settled) && (settled || forceFallback == old(forceFallback))
      ensures old(settled) ==> settled && warnings == old(warnings)
      ensures !old(exitListener) ==> settled == old(settled)
      ensures !exitListener
    {
      if !exitListener { return; }
      exitListener := false;
      FinishAfterFallback();
    }

    method ChildClosed()
      requires Valid()
      modifies this`closeListener, this`settled, this`forceFallback, this`warnings, this`resolutions
      ensures Valid() && (old(closeListener) ==> settled) && (settled || forceFallback == old(forceFallback))
      ensures old(settled) ==> settled && warnings == old(warnings)
      ensures !old(closeListener) ==> settled == old(settled)
      ensures !closeListener
    {
      if !closeListener { return; }
      closeListener := false;
      FinishAfterFallback();
    }

    /** The event is an answer, or the end of the waiting. */
    predicate Settles(event: CommandEvent)
      reads this
    {
      match event
      case CalledBack(_) => true
      case FallbackTimer => fallback.Some? && !hasChild
      case ForceFallbackTimer => forceFallback.Some?
      case Exited => exitListener
      case Closed => closeListener
    }

    /** The event is the timer at which the child is killed; that may end it at once. */
    predicate Kills(event: CommandEvent)
      reads this
    {
      event.FallbackTimer? && fallback.Some? && hasChild
    }

    /** What can happen to a command, in any order and any number of times. */
    method Handle(event: CommandEvent, now: int)
      requires Valid()
      modifies this
      ensures Valid() && (old(settled) ==> settled && errors == old(errors) && warnings == old(warnings))
      ensures old(Settles(event)) ==> settled
      ensures settled && !old(settled) ==> old(Settles(event) || Kills(event))
      ensures old(Kills(event)) ==> kills == 1 && (settled || forceFallback == Some(now + 1_000))
      ensures !old(settled) && event == CalledBack(true) ==> errors == 1
      ensures old(kills) == 1 && (event.Exited? || event.Closed?) ==> settled
    {
      match event
      case CalledBack(failed) => Finish(failed);
      case FallbackTimer => if fallback.Some? { FallbackFired(now); }
      case ForceFallbackTimer => if forceFallback.Some? { ForceFallbackFired(); }
      case Exited => ChildExited();
      case Closed => ChildClosed();
    }

    /** Nothing but its own timers is needed for a command to settle. */
    method WaitOut(now: int)
      requires Valid()
      modifies this
      ensures Valid() && settled
    {
      if fallback.Some? { FallbackFired(now); }
      if !settled { ForceFallbackFired(); }
    }
  }

  datatype CommandEvent = CalledBack(failed: bool) | FallbackTimer | ForceFallbackTimer | Exited | Closed

  // ---- What a request runs ----

  datatype Icon = Classic | Watercolor | Blue

  function NormalizeAppIconId(value: string): Icon {
    if value == "watercolor" then Watercolor else if value == "blue" then Blue else Classic
  }

  datatype Request = Request(generation: nat, icon: Icon)

  datatype Script = SetIcon(icon: Icon) | ClearIcon | ClearFinderInfo | ClearResourceFork

  datatype Command = Command(request: Request, script: Script)

  /** The commands of a request, in two rounds when the classic icon comes back. */
  function FirstRound(r: Request): seq<Command> {
    if r.icon == Classic then [Command(r, ClearIcon)] else [Command(r, SetIcon(r.icon))]
  }

  function SecondRound(r: Request): seq<Command> {
    if r.icon == Classic then [Command(r, ClearFinderInfo), Command(r, ClearResourceFork)] else []
  }

  /** A request whose turn came, and the newest generation at that moment. */
  datatype Turn = Turn(request: Request, newest: nat)

  predicate Fresh(t: Turn) { t.request.generation == t.newest }

  /** Everything that a list of completed turns runs. */
  function Commands(turns: seq<Turn>): seq<Command> {
    if turns == [] then []
    else
      var t := turns[|turns| - 1];
      Commands(turns[..|turns| - 1]) + if Fresh(t) then FirstRound(t.request) + SecondRound(t.request) else []
  }

  /** What the bundle shows after some commands that did their work. */
  function Shown(commands: seq<Command>, before: Icon): Icon {
    if commands == [] then before
    else
      match commands[|commands| - 1].script
      case SetIcon(icon) => icon
      case ClearIcon => Classic
      case _ => Shown(commands[..|commands| - 1], before)
  }

  /** Turns are taken in the order of the requests; each saw its own generation or a newer one. */
  predicate InOrder(issued: seq<Request>, turns: seq<Turn>) {
    && (forall i :: 0 <= i < |issued| ==> issued[i].generation == i + 1)
    && |turns| <= |issued|
    && (forall i :: 0 <= i < |turns| ==> turns[i].request == issued[i] && i + 1 <= turns[i].newest <= |issued|)
    && (forall i, j :: 0 <= i < j < |turns| ==> turns[i].newest <= turns[j].newest)
  }

  /** When every request had its turn, the newest one ran, and its commands are the last. */
  lemma {:induction false} NewestRunsLast(issued: seq<Request>, turns: seq<Turn>, before: Icon)
    requires InOrder(issued, turns) && |turns| == |issued| > 0
    ensures var newest := issued[|issued| - 1];
      Commands(turns) == Commands(turns[..|turns| - 1]) + FirstRound(newest) + SecondRound(newest) &&
      Shown(Commands(turns), before) == newest.icon
  {
    var newest := issued[|issued| - 1];
    var t := turns[|turns| - 1];
    assert Fresh(t) && t.request == newest;
    var c := Commands(turns[..|turns| - 1]);
    assert Commands(turns) == c + FirstRound(newest) + SecondRound(newest);
    if newest.icon == Classic { AttributesDoNotShow(c, newest, before); }
  }

  lemma AttributesDoNotShow(c: seq<Command>, r: Request, before: Icon)
    requires r.icon == Classic
    ensures Shown(c + FirstRound(r) + SecondRound(r), before) == Classic
  {
    var one := c + FirstRound(r);
    var two := one + [Command(r, ClearFinderInfo)];
    var three := two + [Command(r, ClearResourceFork)];
    assert three == c + FirstRound(r) + SecondRound(r);
    assert three[..|three| - 1] == two && two[..|two| - 1] == one;
    assert Shown(one, before) == Classic && Shown(two, before) == Shown(one, before);
  }

  /** Each command belongs to a request that had its turn, as the newest. */
  lemma {:induction false} CommandsAreOfTurns(issued: seq<Request>, turns: seq<Turn>)
    requires InOrder(issued, turns)
    ensures forall c :: c in Commands(turns) ==> OfFreshTurn(c, turns)
  {
    if turns != [] {
      var rest, t := turns[..|turns| - 1], turns[|turns| - 1];
      assert InOrder(issued, rest);
      assert t.request.generation == |turns|;
      hide InOrder, Fresh;
      CommandsAreOfTurns(issued, rest);
      CommandsSplit(turns);
      hide Commands;
      forall c | c in Commands(rest) ensures OfFreshTurn(c, turns) { StillOfFreshTurn(c, turns); }
    }
  }

  /** The command belongs to a request that had its turn, as the newest. */
  ghost predicate OfFreshTurn(c: Command, turns: seq<Turn>) {
    && 0 < c.request.generation <= |turns| && turns[c.request.generation - 1].request == c.request
    && Fresh(turns[c.request.generation - 1])
  }

  lemma StillOfFreshTurn(c: Command, turns: seq<Turn>)
    requires turns != [] && OfFreshTurn(c, turns[..|turns| - 1])
    ensures OfFreshTurn(c, turns)
  {
  }

  lemma {:induction false} CommandsSplit(turns: seq<Turn>)
    requires turns != []
    ensures var rest, t := turns[..|turns| - 1], turns[|turns| - 1];
      forall c :: c in Commands(turns) ==> c in Commands(rest) || (Fresh(t) && c.request == t.request)
  {
    hide Fresh;
  }

  /** Commands never go back to an older request. */
  lemma {:induction false} CommandsNeverGoBack(issued: seq<Request>, turns: seq<Turn>, i: nat, j: nat)
    requires InOrder(issued, turns) && i < j < |Commands(turns)|
    ensures Commands(turns)[i].request.generation <= Commands(turns)[j].request.generation
  {
    var rest := turns[..|turns| - 1];
    assert InOrder(issued, rest);
    var t := turns[|turns| - 1];
    var own := if Fresh(t) then FirstRound(t.request) + SecondRound(t.request) else [];
    assert forall c <- own :: c.request == t.request;
    var before := Commands(rest);
    var all := Commands(turns);
    assert all == before + own;
    hide Commands, Fresh, FirstRound, SecondRound;
    if j < |before| {
      CommandsNeverGoBack(issued, rest, i, j);
    } else {
      assert all[j] in own;
      if i < |before| {
        CommandsAreOfTurns(issued, rest);
        assert all[i] in before;
      } else {
        assert all[i] in own;
      }
    }
  }

  /** A request runs nothing exactly when a newer one had been made by its turn. */
  lemma {:induction false} StaleExactly(issued: seq<Request>, turns: seq<Turn>, k: nat)
    requires InOrder(issued, turns) && k < |turns|
    ensures (exists c <- Commands(turns) :: c.request == issued[k]) <==> turns[k].newest == k + 1
  {
    CommandsAreOfTurns(issued, turns);
    if turns[k].newest == k + 1 {
      FreshTurnRuns(turns, k);
      assert FirstRound(issued[k])[0].request == issued[k];
    }
  }

  lemma {:induction false} FreshTurnRuns(turns: seq<Turn>, k: nat)
    requires k < |turns| && Fresh(turns[k])
    ensures FirstRound(turns[k].request)[0] in Commands(turns)
  {
    var last := |turns| - 1;
    if k < last {
      FreshTurnRuns(turns[..last], k);
    } else {
      assert FirstRound(turns[k].request)[0] in FirstRound(turns[k].request) + SecondRound(turns[k].request);
    }
  }

  lemma {:induction false} TurnsGoOn(issued: seq<Request>, turns: seq<Turn>)
    requires InOrder(issued, turns) && |turns| < |issued|
    ensures InOrder(issued, turns + [Turn(issued[|turns|], |issued|)])
    ensures issued[|turns|..][1..] == issued[|turns| + 1..]
  {
  }

  lemma {:induction false} CommandsGoOn(turns: seq<Turn>, t: Turn)
    ensures (turns + [t])[..|turns|] == turns
    ensures Commands(turns + [t]) == Commands(turns) + if Fresh(t) then FirstRound(t.request) + SecondRound(t.request)
              else []
  {
    assert (turns + [t])[..|turns|] == turns;
  }

  lemma {:induction false} CommandsOfLast(turns: seq<Turn>)
    requires turns != [] && Fresh(turns[|turns| - 1])
    ensures var r := turns[|turns| - 1].request;
      Commands(turns) == Commands(turns[..|turns| - 1]) + FirstRound(r) + SecondRound(r)
  {
    var r := turns[|turns| - 1].request;
    assert Commands(turns[..|turns| - 1]) + (FirstRound(r) + SecondRound(r))
        == Commands(turns[..|turns| - 1]) + FirstRound(r) + SecondRound(r);
  }

  lemma RequestsGoOn(issued: seq<Request>, turns: seq<Turn>, icon: Icon)
    requires InOrder(issued, turns)
    ensures InOrder(issued + [Request(|issued| + 1, icon)], turns)
  {
  }

  // ---- The queue ----

  /** The chain of promises: what waits, what runs, and the commands of the round that runs. */
  class DockIconQueue {
    var generation: nat
    var waiting: seq<Request>
    var running: Option<Request>
    var secondRound: bool
    var active: seq<BoundedCommand>
    ghost var issued: seq<Request>
    ghost var turns: seq<Turn>
    ghost var commands: seq<Command>

    ghost predicate Valid()
      reads this, active
    {
      && |issued| == generation && InOrder(issued, turns) && |turns| <= |issued| && waiting == issued[|turns|..]
      && (forall c <- active :: c.Valid())
      && LogIsRight()
    }

    /** The commands started so far are those of the turns taken, the last of them possibly halfway. */
    ghost predicate LogIsRight()
      reads this
    {
      match running
      case None => active == [] && commands == Commands(turns)
      case Some(r) =>
        && turns != [] && turns[|turns| - 1].request == r && Fresh(turns[|turns| - 1])
        && commands == Commands(turns[..|turns| - 1]) + FirstRound(r) + (if secondRound then SecondRound(r) else [])
        && (secondRound ==> r.icon == Classic)
        && |active| == (if secondRound then 2 else 1)
    }

    constructor ()
      ensures Valid() && generation == 0 && running.None? && waiting == []
    {
      generation, waiting, running, secondRound, active := 0, [], None, false, [];
      issued, turns, commands := [], [], [];
    }

    /** `applies` says that this is a packaged application on macOS with a bundle to write to. */
    method Persist(value: string, applies: bool)
      requires Valid()
      modifies this`generation, this`waiting, this`issued
      ensures Valid() && old(issued) <= issued
      ensures !applies ==> issued == old(issued)
      ensures applies ==>
                && |issued| == |old(issued)| + 1 && issued[|issued| - 1].generation == generation
                && var icon := issued[|issued| - 1].icon;
                   && (icon == Watercolor <==> value == "watercolor") && (icon == Blue <==> value == "blue")
                   && (icon == Classic <==> value != "watercolor" && value != "blue")
    {
      hide InOrder, Commands, FirstRound, SecondRound;
      if !applies { return; }
      RequestsGoOn(issued, turns, NormalizeAppIconId(value));
      generation := generation + 1;
      var request := Request(generation, NormalizeAppIconId(value));
      waiting := waiting + [request];
      issued := issued + [request];
    }

    /** The next request has its turn: when the one before it is done. */
    method StartNext(now: int)
      requires Valid() && running.None? && waiting != []
      modifies this`waiting, this`running, this`secondRound, this`active, this`turns, this`commands
      ensures Valid() && turns == old(turns) + [Turn(old(waiting[0]), generation)]
      ensures running == if old(waiting[0]).generation == generation then Some(old(waiting[0])) else None
      ensures waiting == old(waiting)[1..] && (running.Some? ==> !secondRound)
      ensures forall i :: 0 <= i < |active| ==> fresh(active[i])
    {
      hide InOrder, Commands, FirstRound, SecondRound;
      var request := waiting[0];
      TurnsGoOn(issued, turns);
      CommandsGoOn(turns, Turn(request, generation));
      waiting := waiting[1..];
      turns := turns + [Turn(request, generation)];
      if request.generation != generation { return; }
      running := Some(request);
      secondRound := false;
      var callbacks: seq<bool>, throws: bool, child: bool := *, *, *;
      var command := new BoundedCommand.Run(now, callbacks, throws, child);
      active := [command];
      commands := commands + FirstRound(request);
    }

    /** Every command of the round has settled: the second round of the classic icon, or the end. */
    method Continue(now: int)
      requires Valid() && running.Some? && forall c <- active :: c.settled
      modifies this`running, this`secondRound, this`active, this`commands
      ensures Valid() && running == if old(running).value.icon == Classic && !old(secondRound) then old(running)
                else None
      ensures (running.Some? ==> secondRound) && forall i :: 0 <= i < |active| ==> fresh(active[i])
    {
      hide InOrder, Commands, FirstRound;
      if running.value.icon == Classic && !secondRound {
        secondRound := true;
        var callbacks: seq<bool>, throws: bool, child: bool := *, *, *;
        var finderInfo := new BoundedCommand.Run(now, callbacks, throws, child);
        callbacks, throws, child := *, *, *;
        var resourceFork := new BoundedCommand.Run(now, callbacks, throws, child);
        active := [finderInfo, resourceFork];
        commands := commands + SecondRound(running.value);
      } else {
        CommandsOfLast(turns);
        running := None;
        active := [];
      }
    }

    /** Something happens to a command of the running round. */
    method Deliver(i: nat, event: CommandEvent, now: int)
      requires Valid() && i < |active|
      modifies active[i]
      ensures Valid() && (old(active[i].Settles(event)) ==> active[i].settled)
      ensures active[i].settled && !old(active[i].settled) ==>
                old(active[i].Settles(event)) || old(active[i].Kills(event))
    {
      active[i].Handle(event, now);
    }

    /** The queue is never stuck: it can go on, or a timer is armed that will let it. */
    lemma NeverStuck()
      requires Valid() && running.Some?
      ensures (forall c <- active :: c.settled) || exists c <- active :: c.fallback.Some? || c.forceFallback.Some?
    {
    }

    method WaitOutRound(now: int)
      requires Valid()
      modifies active
      ensures Valid() && forall c <- active :: c.settled
    {
      hide InOrder, LogIsRight;
      for i := 0 to |active|
        invariant Valid() && forall j :: 0 <= j < i ==> active[j].settled
      {
        active[i].WaitOut(now);
      }
    }

    /** One round, or the turn of the next request. */
    method Advance(now: int)
      requires Valid() && (running.Some? || waiting != [])
      modifies this`waiting, this`running, this`secondRound, this`active, this`turns, this`commands, active
      ensures Valid() && forall i :: 0 <= i < |active| ==> fresh(active[i])
      ensures old(running).None? ==> |waiting| < old(|waiting|)
      ensures old(running).Some? ==> waiting == old(waiting) && RoundsLeft() < old(RoundsLeft())
    {
      hide InOrder, LogIsRight, Commands;
      if running.Some? {
        WaitOutRound(now);
        Continue(now);
      } else {
        StartNext(now);
      }
    }

    function RoundsLeft(): nat
      reads this
    {
      if running.None? then 0 else if secondRound then 1 else 2
    }

    /** Nor is more needed for all requests to have their turn, and the newest to be what shows. */
    method Drain(now: int, ghost before: Icon)
      requires Valid()
      modifies this, active
      ensures Valid() && waiting == [] && running.None? && issued == old(issued) && generation == old(generation)
      ensures generation > 0 ==> Shown(commands, before) == issued[generation - 1].icon
    {
      hide Valid;
      while running.Some? || waiting != []
        invariant Valid() && issued == old(issued) && generation == old(generation)
        invariant active == old(active) || forall i :: 0 <= i < |active| ==> fresh(active[i])
        decreases |waiting|, RoundsLeft()
      {
        Advance(now);
      }
      if generation > 0 { DrainedShowsTheNewest(before); }
    }

    /**
     * Once all requests have had their turn, the commands end with those of the newest request, which is what
     * shows.
     */
    lemma DrainedShowsTheNewest(before: Icon)
      requires Valid() && running.None? && waiting == [] && generation > 0
      ensures Shown(commands, before) == issued[generation - 1].icon
      ensures var r := issued[generation - 1];
        commands == Commands(turns[..generation - 1]) +
          if r.icon == Classic then
            [Command(r, ClearIcon), Command(r, ClearFinderInfo), Command(r, ClearResourceFork)]
          else [Command(r, SetIcon(r.icon))]
    {
      NewestRunsLast(issued, turns, before);
      var r := issued[generation - 1];
      assert FirstRound(r) + SecondRound(r) ==
        if r.icon == Classic then
          [Command(r, ClearIcon), Command(r, ClearFinderInfo), Command(r, ClearResourceFork)]
        else [Command(r, SetIcon(r.icon))];
    }
  }
}
