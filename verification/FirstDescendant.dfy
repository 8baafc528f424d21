/**
 * The bounded search for a descendant in an accessibility tree
 * (native/computer-use-linux/runtime.py): an explicit stack, a seen set, node and depth limits.
 *
 * The search does not hold the nodes themselves but proxies, made anew whenever children are listed,
 * and it remembers the identities of those it has visited.  An identity is promised to be unique
 * among the proxies alive at the same time only.
 */
module FirstDescendant {
  import opened Options

  type Node = nat
  type Id = nat
  type Children = Node -> seq<Node>
  type Test = Node -> bool

  /** The identity of the i-th child proxy made after the k-th visit. */
  type Naming = (nat, nat) -> Id

  datatype Item = Item(node: Node, id: Id, depth: nat)

  // ---- The specification ----

  /** The recursive preorder below `node`, cut `depth` levels down; finite on cyclic graphs too. */
  function Preorder(children: Children, node: Node, depth: nat): seq<Node>
    decreases depth, 0, 0
  {
    [node] + if depth == 0 then [] else PreorderAll(children, children(node), depth - 1)
  }

  function PreorderAll(children: Children, nodes: seq<Node>, depth: nat): seq<Node>
    decreases depth, 1, |nodes|
  {
    if nodes == [] then [] else Preorder(children, nodes[0], depth) + PreorderAll(children, nodes[1..], depth)
  }

  function FirstHit(nodes: seq<Node>, test: Test): Option<Node> {
    if nodes == [] then None else if test(nodes[0]) then Some(nodes[0]) else FirstHit(nodes[1..], test)
  }

  predicate NoRepeats(nodes: seq<Node>) {
    forall i, j :: 0 <= i < j < |nodes| ==> nodes[i] != nodes[j]
  }

  function Take(nodes: seq<Node>, n: nat): seq<Node> { if |nodes| <= n then nodes else nodes[..n] }

  // ---- The search, one pop at a time ----

  datatype Query = Query(
    root: Node, rootId: Id, children: Children, test: Test, naming: Naming, maxNodes: nat, maxDepth: nat)
  {
    ghost function All(): seq<Node> { Preorder(children, root, maxDepth) }
  }

  /** `held` is the child list of the last expansion, which stays alive until the next one is complete. */
  datatype State = State(visited: seq<Item>, stack: seq<Item>, held: seq<Item>)

  function Start(q: Query): State { State([], [Item(q.root, q.rootId, 0)], []) }

  function Top(s: State): Item
    requires s.stack != []
  {
    s.stack[|s.stack| - 1]
  }

  function Popped(s: State): seq<Item>
    requires s.stack != []
  {
    s.stack[..|s.stack| - 1]
  }

  predicate Seen(visited: seq<Item>, id: Id) { exists i :: 0 <= i < |visited| && visited[i].id == id }

  predicate Stopped(q: Query, s: State) { s.stack == [] || |s.visited| >= q.maxNodes }

  predicate Skips(s: State)
    requires s.stack != []
  {
    Seen(s.visited, Top(s).id)
  }

  predicate Hits(q: Query, s: State) { !Stopped(q, s) && !Skips(s) && q.test(Top(s).node) }

  predicate Expands(q: Query, s: State) {
    !Stopped(q, s) && !Skips(s) && !q.test(Top(s).node) && Top(s).depth < q.maxDepth
  }

  /** The proxies of the children of `top`, which is the k-th node visited. */
  function Made(q: Query, top: Item, k: nat): (r: seq<Item>)
    ensures |r| == |q.children(top.node)|
    ensures forall i :: 0 <= i < |r| ==> r[i].node == q.children(top.node)[i] && r[i].depth == top.depth + 1
  {
    var nodes := q.children(top.node);
    seq(|nodes|, i requires 0 <= i < |nodes| => Item(nodes[i], q.naming(k, i), top.depth + 1))
  }

  function Reversed(items: seq<Item>): (r: seq<Item>)
    ensures |r| == |items| && forall i :: 0 <= i < |r| ==> r[i] == items[|items| - 1 - i]
  {
    seq(|items|, i requires 0 <= i < |items| => items[|items| - 1 - i])
  }

  function Next(q: Query, s: State): State
    requires !Stopped(q, s) && !Hits(q, s)
  {
    var top := Top(s);
    if Skips(s) then State(s.visited, Popped(s), s.held)
    else if top.depth >= q.maxDepth then State(s.visited + [top], Popped(s), s.held)
    else
      var made := Made(q, top, |s.visited| + 1);
      State(s.visited + [top], Popped(s) + Reversed(made), made)
  }

  function Outcome(q: Query, s: State): Option<Node>
    decreases q.maxNodes - |s.visited|, |s.stack|
  {
    if Stopped(q, s) then None else if Hits(q, s) then Some(Top(s).node) else Outcome(q, Next(q, s))
  }

  // ---- What identities promise ----

  /** `made` are the proxies made when `top`, the last of `visited`, was expanded. */
  datatype Expansion = Expansion(visited: seq<Item>, rest: seq<Item>, held: seq<Item>, made: seq<Item>)

  /** Every expansion of the search from here on. */
  function Expansions(q: Query, s: State): seq<Expansion>
    decreases q.maxNodes - |s.visited|, |s.stack|
  {
    if Stopped(q, s) || Hits(q, s) then []
    else
      var next := Next(q, s);
      (if Expands(q, s) then [Expansion(next.visited, Popped(s), s.held, next.held)] else []) + Expansions(q, next)
  }

  predicate SameNode(a: Item, b: Item) { a.id == b.id ==> a.node == b.node }

  ghost predicate AllSameNode(a: seq<Item>, b: seq<Item>) {
    forall i, j :: 0 <= i < |a| && 0 <= j < |b| ==> SameNode(a[i], b[j])
  }

  /**
   * What the runtime promises: a new proxy shares its identity with a live one only if they are one object.
   * Alive are the root, the node expanded, the stack, the child list before, and the new child list.
   */
  ghost predicate Lawful(x: Expansion) {
    && x.visited != []
    && AllSameNode(x.made, [x.visited[0], x.visited[|x.visited| - 1]] + x.rest + x.held + x.made)
  }

  /** What it does not promise: no new proxy has the identity of a visited one that is no longer alive. */
  ghost predicate NothingReused(x: Expansion) { AllSameNode(x.made, x.visited) }

  /** And each node keeps its proxy: what is met again is met as the same object. */
  ghost predicate Steady(x: Expansion) {
    forall i, b :: 0 <= i < |x.made| && (b in x.visited || b in x.rest || b in x.made) && b.node == x.made[i].node ==>
      b.id == x.made[i].id
  }

  ghost predicate Undisturbed(q: Query, s: State) {
    forall x :: x in Expansions(q, s) ==> Lawful(x) && NothingReused(x)
  }

  ghost predicate AllSteady(q: Query, s: State) { forall x :: x in Expansions(q, s) ==> Steady(x) }

  lemma OneStep(q: Query, s: State)
    requires !Stopped(q, s) && !Hits(q, s)
    ensures Outcome(q, s) == Outcome(q, Next(q, s))
    ensures Undisturbed(q, s) ==> Undisturbed(q, Next(q, s))
    ensures AllSteady(q, s) ==> AllSteady(q, Next(q, s))
    ensures Expands(q, s) ==>
              Expansion(Next(q, s).visited, Popped(s), s.held, Next(q, s).held) in Expansions(q, s)
  {
    hide Lawful, NothingReused, Steady, Next;
  }

  // ---- Preorder: when no pop is skipped ----

  /** What is still to come, top of the stack first. */
  ghost function Pending(q: Query, stack: seq<Item>): seq<Node> {
    if stack == [] then []
    else
      var top := stack[|stack| - 1];
      Cut(q, top) + Pending(q, stack[..|stack| - 1])
  }

  ghost function Cut(q: Query, item: Item): seq<Node> {
    if item.depth <= q.maxDepth then Preorder(q.children, item.node, q.maxDepth - item.depth) else []
  }

  ghost predicate Within(q: Query, stack: seq<Item>) {
    forall i :: 0 <= i < |stack| ==> stack[i].depth <= q.maxDepth
  }

  function NodesOf(items: seq<Item>): (r: seq<Node>)
    ensures |r| == |items| && forall i :: 0 <= i < |r| ==> r[i] == items[i].node
  {
    seq(|items|, i requires 0 <= i < |items| => items[i].node)
  }

  lemma Regroup(a: seq<Node>, b: seq<Node>, c: seq<Node>)
    ensures a + b + c == a + (b + c)
  {
  }

  lemma PendingTop(q: Query, s: State)
    requires s.stack != []
    ensures Pending(q, s.stack) == Cut(q, Top(s)) + Pending(q, Popped(s))
  {
  }

  lemma {:induction false} PendingPushed(q: Query, rest: seq<Item>, made: seq<Item>, depth: nat)
    requires depth <= q.maxDepth && forall i :: 0 <= i < |made| ==> made[i].depth == depth
    ensures Pending(q, rest + Reversed(made)) ==
              PreorderAll(q.children, NodesOf(made), q.maxDepth - depth) + Pending(q, rest)
    decreases |made|
  {
    hide Preorder, PreorderAll, Pending;
    if made == [] {
      NothingPushed(q, rest, q.maxDepth - depth);
    } else {
      PendingPushed(q, rest, made[1..], depth);
      ReversedFirst(rest, made);
      PendingLast(q, rest + Reversed(made[1..]), made[0]);
      AllFromFirst(q, made, q.maxDepth - depth);
      Regroup(Cut(q, made[0]), PreorderAll(q.children, NodesOf(made[1..]), q.maxDepth - depth), Pending(q, rest));
    }
  }

  lemma NothingPushed(q: Query, rest: seq<Item>, depth: nat)
    ensures rest + Reversed([]) == rest && NodesOf([]) == [] && PreorderAll(q.children, [], depth) == []
    ensures [] + Pending(q, rest) == Pending(q, rest)
  {
  }

  lemma ReversedFirst(rest: seq<Item>, made: seq<Item>)
    requires made != []
    ensures rest + Reversed(made) == rest + Reversed(made[1..]) + [made[0]]
  {
  }

  lemma PendingLast(q: Query, rest: seq<Item>, top: Item)
    ensures Pending(q, rest + [top]) == Cut(q, top) + Pending(q, rest)
  {
    hide Preorder, Cut;
    assert (rest + [top])[..|rest|] == rest;
  }

  lemma AllFromFirst(q: Query, made: seq<Item>, depth: nat)
    requires made != []
    ensures PreorderAll(q.children, NodesOf(made), depth)
         == Preorder(q.children, made[0].node, depth) + PreorderAll(q.children, NodesOf(made[1..]), depth)
  {
    hide Preorder;
    assert NodesOf(made)[1..] == NodesOf(made[1..]);
  }

  lemma {:induction false} NoHitBefore(visited: seq<Node>, rest: seq<Node>, test: Test)
    requires forall i :: 0 <= i < |visited| ==> !test(visited[i])
    ensures FirstHit(visited + rest, test) == FirstHit(rest, test)
  {
    if visited == [] {
      assert visited + rest == rest;
    } else {
      NoHitBefore(visited[1..], rest, test);
      assert (visited + rest)[1..] == visited[1..] + rest;
    }
  }

  /** What was visited and what is pending make up the preorder, and nothing visited passed the test. */
  ghost predicate InPreorder(q: Query, s: State) {
    && Within(q, s.stack) && |s.visited| <= q.maxNodes
    && NodesOf(s.visited) + Pending(q, s.stack) == q.All()
    && forall i :: 0 <= i < |s.visited| ==> !q.test(s.visited[i].node)
  }

  lemma StartsInPreorder(q: Query)
    ensures InPreorder(q, Start(q))
  {
    var s := Start(q);
    PendingTop(q, s);
    assert Popped(s) == [];
    assert NodesOf(s.visited) + Pending(q, s.stack) == q.All();
  }

  /** Visiting the top and putting its children on the stack only unfolds what is pending. */
  lemma VisitUnfolds(q: Query, s: State)
    requires Within(q, s.stack) && !Stopped(q, s) && !Hits(q, s) && !Skips(s)
    ensures Within(q, Next(q, s).stack)
    ensures Pending(q, s.stack) == [Top(s).node] + Pending(q, Next(q, s).stack)
  {
    hide Pending, Seen;
    var top, rest := Top(s), Popped(s);
    PendingTop(q, s);
    if top.depth >= q.maxDepth {
      assert Cut(q, top) == [top.node];
    } else {
      var made := Made(q, top, |s.visited| + 1);
      PendingPushed(q, rest, made, top.depth + 1);
      assert NodesOf(made) == q.children(top.node);
      Regroup([top.node], PreorderAll(q.children, q.children(top.node), q.maxDepth - top.depth - 1), Pending(q, rest));
    }
  }

  lemma VisitKeepsPreorder(q: Query, s: State)
    requires InPreorder(q, s) && !Stopped(q, s) && !Hits(q, s) && !Skips(s)
    ensures InPreorder(q, Next(q, s))
  {
    hide Pending, Seen, Preorder;
    VisitUnfolds(q, s);
    var next := Next(q, s);
    assert NodesOf(next.visited) == NodesOf(s.visited) + [Top(s).node];
    Regroup(NodesOf(s.visited), [Top(s).node], Pending(q, next.stack));
  }

  lemma TopIsNext(q: Query, s: State)
    requires InPreorder(q, s) && s.stack != []
    ensures |s.visited| < |q.All()| && q.All()[|s.visited|] == Top(s).node
    ensures forall i :: 0 <= i < |s.visited| ==> q.All()[i] == s.visited[i].node
  {
    PendingTop(q, s);
    var visited := NodesOf(s.visited);
    hide Pending;
    assert q.All() == visited + (Cut(q, Top(s)) + Pending(q, Popped(s)));
  }

  lemma StopInPreorder(q: Query, s: State)
    requires InPreorder(q, s) && Stopped(q, s)
    ensures FirstHit(Take(q.All(), q.maxNodes), q.test) == None
  {
    hide Preorder;
    var visited := NodesOf(s.visited);
    assert s.stack == [] ==> Pending(q, s.stack) == [];
    assert Take(q.All(), q.maxNodes) == visited;
    assert visited + [] == visited;
    NoHitBefore(visited, [], q.test);
  }

  lemma HitInPreorder(q: Query, s: State)
    requires InPreorder(q, s) && Hits(q, s)
    ensures FirstHit(Take(q.All(), q.maxNodes), q.test) == Some(Top(s).node)
  {
    TopIsNext(q, s);
    hide Pending, Seen, Preorder;
    HitAt(q.All(), |s.visited|, q.maxNodes, q.test);
  }

  lemma HitAt(all: seq<Node>, n: nat, limit: nat, test: Test)
    requires n < |all| && n < limit && test(all[n]) && forall i :: 0 <= i < n ==> !test(all[i])
    ensures FirstHit(Take(all, limit), test) == Some(all[n])
  {
    var cut := Take(all, limit);
    assert cut == cut[..n] + cut[n..];
    NoHitBefore(cut[..n], cut[n..], test);
  }

  ghost predicate NeverSkips(q: Query, s: State)
    decreases q.maxNodes - |s.visited|, |s.stack|
  {
    Stopped(q, s) || Hits(q, s) || (!Skips(s) && NeverSkips(q, Next(q, s)))
  }

  lemma {:induction false} PreorderRun(q: Query, s: State)
    requires InPreorder(q, s) && NeverSkips(q, s)
    ensures Outcome(q, s) == FirstHit(Take(q.All(), q.maxNodes), q.test)
    decreases q.maxNodes - |s.visited|, |s.stack|
  {
    hide InPreorder, Next, Take, Hits;
    if Stopped(q, s) {
      StopInPreorder(q, s);
    } else if Hits(q, s) {
      HitInPreorder(q, s);
    } else {
      Shrinks(q, s);
      VisitKeepsPreorder(q, s);
      PreorderRun(q, Next(q, s));
    }
  }

  lemma Shrinks(q: Query, s: State)
    requires !Stopped(q, s) && !Hits(q, s)
    ensures var next := Next(q, s);
      |next.visited| > |s.visited| || (|next.visited| == |s.visited| && |next.stack| < |s.stack|)
  {
  }

  /**
   * On any graph: without a skipped proxy, the outcome is the first hit of the preorder, node and depth
   * bounds applied.
   */
  lemma FirstHitUnlessSkipped(q: Query)
    requires NeverSkips(q, Start(q))
    ensures Outcome(q, Start(q)) == FirstHit(Take(q.All(), q.maxNodes), q.test)
  {
    hide *;
    StartsInPreorder(q);
    PreorderRun(q, Start(q));
  }

  // ---- Preorder: what a skipped pop costs ----

  /** No pop that is skipped has a node that passes at it or below it. */
  ghost predicate HidesNothing(q: Query, s: State)
    decreases q.maxNodes - |s.visited|, |s.stack|
  {
    || Stopped(q, s) || Hits(q, s)
    || ((Skips(s) ==> forall n :: n in Cut(q, Top(s)) ==> !q.test(n)) && HidesNothing(q, Next(q, s)))
  }

  /** All that is pending fits within the node bound, and no node is pending twice. */
  ghost predicate RoomFor(q: Query, s: State) {
    && Within(q, s.stack) && NoRepeats(Pending(q, s.stack))
    && |s.visited| + |Pending(q, s.stack)| <= q.maxNodes
  }

  /** A step takes a front part off what is pending: the node visited, or all that a skipped pop hides. */
  lemma StepTakesFront(q: Query, s: State)
    requires RoomFor(q, s) && !Stopped(q, s) && !Hits(q, s)
    ensures RoomFor(q, Next(q, s))
    ensures Pending(q, s.stack) ==
              (if Skips(s) then Cut(q, Top(s)) else [Top(s).node]) + Pending(q, Next(q, s).stack)
  {
    hide Pending, Seen, Preorder;
    PendingTop(q, s);
    if !Skips(s) { VisitUnfolds(q, s); }
    var front, rest := if Skips(s) then Cut(q, Top(s)) else [Top(s).node], Pending(q, Next(q, s).stack);
    assert forall i :: 0 <= i < |rest| ==> rest[i] == (front + rest)[|front| + i];
  }

  lemma TopIsPending(q: Query, s: State)
    requires Within(q, s.stack) && s.stack != []
    ensures Pending(q, s.stack) != [] && Pending(q, s.stack)[0] == Top(s).node
  {
    PendingTop(q, s);
    TopIsCut(q, s);
    hide Pending, Preorder, Cut;
  }

  lemma {:induction false} OutcomeIsPending(q: Query, s: State)
    requires RoomFor(q, s) && Outcome(q, s).Some?
    ensures Outcome(q, s).value in Pending(q, s.stack) && q.test(Outcome(q, s).value)
    decreases q.maxNodes - |s.visited|, |s.stack|
  {
    hide Pending, Skips, Next, NoRepeats;
    if Hits(q, s) {
      TopIsPending(q, s);
    } else {
      Shrinks(q, s);
      StepTakesFront(q, s);
      OutcomeIsPending(q, Next(q, s));
    }
  }

  /** A hit in the front part is lost with it. */
  lemma HiddenHit(front: seq<Node>, rest: seq<Node>, test: Test, n: Node)
    requires NoRepeats(front + rest) && n in front && test(n)
    ensures FirstHit(front + rest, test).Some? && FirstHit(front + rest, test).value !in rest
  {
    var i := FirstPasses(front, test, n);
    var all := front + rest;
    assert all == all[..i] + all[i..];
    NoHitBefore(all[..i], all[i..], test);
    assert all[i..][0] == front[i];
    forall j | 0 <= j < |rest| ensures rest[j] != front[i] { assert all[|front| + j] == rest[j]; }
  }

  lemma {:induction false} FirstPasses(nodes: seq<Node>, test: Test, n: Node) returns (i: nat)
    requires n in nodes && test(n)
    ensures i < |nodes| && test(nodes[i]) && forall j :: 0 <= j < i ==> !test(nodes[j])
  {
    if test(nodes[0]) {
      i := 0;
    } else {
      var k := FirstPasses(nodes[1..], test, n);
      i := k + 1;
      assert forall j :: 0 < j < i ==> nodes[j] == nodes[1..][j - 1];
    }
  }

  lemma {:induction false} HidingRun(q: Query, s: State)
    requires RoomFor(q, s)
    ensures Outcome(q, s) == FirstHit(Pending(q, s.stack), q.test) <==> HidesNothing(q, s)
    decreases q.maxNodes - |s.visited|, |s.stack|
  {
    if s.stack == [] {
      assert Pending(q, s.stack) == [];
    } else {
      hide Pending, Next, RoomFor, FirstHit, Cut, Skips;
      PendingFits(q, s);
      if Hits(q, s) {
        FirstIsTop(q, s);
      } else {
        Shrinks(q, s);
        StepTakesFront(q, s);
        HidingRun(q, Next(q, s));
        HidingStep(q, s);
      }
    }
  }

  lemma PendingFits(q: Query, s: State)
    requires RoomFor(q, s) && s.stack != []
    ensures !Stopped(q, s)
  {
    TopIsPending(q, s);
  }

  lemma FirstIsTop(q: Query, s: State)
    requires RoomFor(q, s) && Hits(q, s)
    ensures FirstHit(Pending(q, s.stack), q.test) == Some(Top(s).node)
  {
    TopIsPending(q, s);
  }

  /** What a step takes away matters exactly if it hides a node that passes. */
  lemma HidingStep(q: Query, s: State)
    requires RoomFor(q, s) && !Stopped(q, s) && !Hits(q, s)
    ensures Skips(s) && !(forall n :: n in Cut(q, Top(s)) ==> !q.test(n)) ==>
              Outcome(q, Next(q, s)) != FirstHit(Pending(q, s.stack), q.test)
    ensures !Skips(s) || (forall n :: n in Cut(q, Top(s)) ==> !q.test(n)) ==>
              FirstHit(Pending(q, s.stack), q.test) == FirstHit(Pending(q, Next(q, s).stack), q.test)
  {
    StepTakesFront(q, s);
    var next := Next(q, s);
    hide Pending, Next, Cut, FirstHit, Seen, Within;
    if Skips(s) && !(forall n :: n in Cut(q, Top(s)) ==> !q.test(n)) {
      var n :| n in Cut(q, Top(s)) && q.test(n);
      HiddenHit(Cut(q, Top(s)), Pending(q, next.stack), q.test, n);
      if Outcome(q, next).Some? { OutcomeIsPending(q, next); }
    } else {
      var front := if Skips(s) then Cut(q, Top(s)) else [Top(s).node];
      assert forall i :: 0 <= i < |front| ==> front[i] in front;
      NoHitBefore(front, Pending(q, next.stack), q.test);
    }
  }

  /**
   * On a tree within the node bound the outcome is the first hit of the preorder if and only if no skipped pop
   * hides a node that passes.
   */
  lemma FirstHitExactly(q: Query)
    requires NoRepeats(q.All()) && |q.All()| <= q.maxNodes
    ensures Outcome(q, Start(q)) == FirstHit(q.All(), q.test) <==> HidesNothing(q, Start(q))
  {
    var s := Start(q);
    PendingTop(q, s);
    assert Popped(s) == [] && Pending(q, []) == [];
    assert Pending(q, s.stack) == q.All();
    hide Preorder, Pending, Outcome, HidesNothing, FirstHit, NoRepeats;
    HidingRun(q, s);
  }

  // ---- Trees ----

  /** Proxies with one identity stand for one node. */
  ghost predicate Named(s: State) { AllSameNode(s.visited + s.stack, s.visited + s.stack) }

  lemma NamedPair(s: State, a: Item, b: Item)
    requires Named(s) && (a in s.visited || a in s.stack) && (b in s.visited || b in s.stack)
    ensures SameNode(a, b)
  {
    var items := s.visited + s.stack;
    assert a in items && b in items;
    var i, j :| 0 <= i < |items| && items[i] == a && 0 <= j < |items| && items[j] == b;
  }

  /** The proxies made by an expansion fit those that are there. */
  lemma MadeFits(x: Expansion, a: Item, b: Item)
    requires Lawful(x) && NothingReused(x) && a in x.made && (b in x.visited || b in x.rest || b in x.made)
    ensures SameNode(a, b)
  {
    var live := [x.visited[0], x.visited[|x.visited| - 1]] + x.rest + x.held + x.made;
    var i :| 0 <= i < |x.made| && x.made[i] == a;
    if b in x.visited {
      var j :| 0 <= j < |x.visited| && x.visited[j] == b;
    } else {
      assert b in live;
      var j :| 0 <= j < |live| && live[j] == b;
    }
  }

  /** Where the proxies after a step come from. */
  lemma NextItems(q: Query, s: State, a: Item)
    requires !Stopped(q, s) && !Hits(q, s) && (a in Next(q, s).visited || a in Next(q, s).stack)
    ensures a in Next(q, s).visited || a in Popped(s) || (Expands(q, s) && a in Next(q, s).held)
    ensures a in Next(q, s).visited || a in Popped(s) ==> a in s.visited || a in s.stack
  {
    hide Seen;
    assert s.stack == Popped(s) + [Top(s)];
  }

  lemma NamedKept(q: Query, s: State)
    requires Named(s) && Undisturbed(q, s) && !Stopped(q, s) && !Hits(q, s)
    ensures Named(Next(q, s))
  {
    OneStep(q, s);
    var next := Next(q, s);
    var items := next.visited + next.stack;
    forall i, j | 0 <= i < |items| && 0 <= j < |items| ensures SameNode(items[i], items[j]) {
      NamedPairKept(q, s, items[i], items[j]);
    }
  }

  lemma NamedPairKept(q: Query, s: State, a: Item, b: Item)
    requires Named(s) && Undisturbed(q, s) && !Stopped(q, s) && !Hits(q, s)
    requires a in Next(q, s).visited || a in Next(q, s).stack
    requires b in Next(q, s).visited || b in Next(q, s).stack
    ensures SameNode(a, b)
  {
    hide Named, Lawful, NothingReused, Skips, Hits, AllSameNode;
    OneStep(q, s);
    NextItems(q, s, a);
    NextItems(q, s, b);
    if (a in s.visited || a in s.stack) && (b in s.visited || b in s.stack) {
      NamedPair(s, a, b);
    } else {
      var x := Expansion(Next(q, s).visited, Popped(s), s.held, Next(q, s).held);
      if a in x.made { MadeFits(x, a, b); } else { MadeFits(x, b, a); }
    }
  }

  /** Where no node occurs twice, a skipped proxy would mean an identity used for two nodes. */
  lemma TreeSkipsNothing(q: Query, s: State)
    requires NoRepeats(q.All()) && InPreorder(q, s) && Named(s) && s.stack != []
    ensures !Skips(s)
  {
    TopIsNext(q, s);
    hide Preorder, Named, Pending;
    var all, n := q.All(), |s.visited|;
    forall i | 0 <= i < n ensures s.visited[i].id != Top(s).id {
      NamedPair(s, s.visited[i], Top(s));
      assert all[i] != all[n];
    }
  }

  lemma {:induction false} TreeRun(q: Query, s: State)
    requires NoRepeats(q.All()) && InPreorder(q, s) && Named(s) && Undisturbed(q, s)
    ensures NeverSkips(q, s)
    decreases q.maxNodes - |s.visited|, |s.stack|
  {
    hide InPreorder, Named, Undisturbed, Next, Hits, Skips, NoRepeats;
    if !Stopped(q, s) && !Hits(q, s) {
      Shrinks(q, s);
      TreeSkipsNothing(q, s);
      VisitKeepsPreorder(q, s);
      NamedKept(q, s);
      OneStep(q, s);
      TreeRun(q, Next(q, s));
    }
  }

  lemma StartIsNamed(q: Query)
    ensures Named(Start(q))
  {
  }

  /** On a tree whose identities are not reused, the outcome is the first hit of the preorder. */
  lemma FirstHitOnTrees(q: Query)
    requires NoRepeats(q.All()) && Undisturbed(q, Start(q))
    ensures Outcome(q, Start(q)) == FirstHit(Take(q.All(), q.maxNodes), q.test)
  {
    hide *;
    StartsInPreorder(q);
    StartIsNamed(q);
    TreeRun(q, Start(q));
    FirstHitUnlessSkipped(q);
  }

  // ---- Any graph ----

  ghost predicate Chain(children: Children, chain: seq<Node>) {
    chain != [] && forall i :: 0 <= i < |chain| - 1 ==> chain[i + 1] in children(chain[i])
  }

  ghost predicate Reaches(children: Children, root: Node, n: Node) {
    exists chain :: Chain(children, chain) && chain[0] == root && chain[|chain| - 1] == n
  }

  ghost predicate ClosedUnder(children: Children, nodes: set<Node>) {
    forall n, c :: n in nodes && c in children(n) ==> c in nodes
  }

  /** The graph below `root` has at most `limit` nodes. */
  ghost predicate AtMost(children: Children, root: Node, limit: nat) {
    exists nodes: set<Node> :: root in nodes && ClosedUnder(children, nodes) && |nodes| <= limit
  }

  lemma {:induction false} ClosedHoldsChain(children: Children, chain: seq<Node>, nodes: set<Node>)
    requires Chain(children, chain) && chain[0] in nodes && ClosedUnder(children, nodes)
    ensures chain[|chain| - 1] in nodes
  {
    if |chain| > 1 { ClosedHoldsChain(children, chain[1..], nodes); }
  }

  lemma ReachesOnward(children: Children, root: Node, n: Node, c: Node)
    requires Reaches(children, root, n) && c in children(n)
    ensures Reaches(children, root, c)
  {
    var chain :| Chain(children, chain) && chain[0] == root && chain[|chain| - 1] == n;
    var longer := chain + [c];
    assert Chain(children, longer) && longer[0] == root && longer[|longer| - 1] == c;
  }

  ghost predicate OnStack(stack: seq<Item>, n: Node) { exists i :: 0 <= i < |stack| && stack[i].node == n }

  /**
   * What was seen failed the test and is reachable; as long as the depth limit cannot have been met,
   * its children were seen or wait on the stack.
   */
  ghost predicate Covering(children: Children, root: Node, test: Test, seen: set<Node>, stack: seq<Item>,
                           maxDepth: nat)
  {
    && (root in seen || OnStack(stack, root))
    && (forall n :: n in seen ==> !test(n))
    && (forall n :: n in seen || OnStack(stack, n) ==> Reaches(children, root, n))
    && (forall i :: 0 <= i < |stack| ==> stack[i].depth <= |seen|)
    && (|seen| <= maxDepth ==> forall n, c :: n in seen && c in children(n) ==> c in seen || OnStack(stack, c))
  }

  lemma OnStackWithTop(stack: seq<Item>, top: Item)
    ensures forall n :: OnStack(stack + [top], n) <==> n == top.node || OnStack(stack, n)
  {
    var s := stack + [top];
    forall n | n == top.node || OnStack(stack, n) ensures OnStack(s, n) {
      if n == top.node { assert s[|stack|].node == n; } else {
        var i :| 0 <= i < |stack| && stack[i].node == n;
        assert s[i].node == n;
      }
    }
  }

  lemma CoveringAtStart(children: Children, root: Node, test: Test, first: Item, maxDepth: nat)
    requires first.node == root && first.depth == 0
    ensures Covering(children, root, test, {}, [first], maxDepth)
  {
    var stack := [first];
    assert stack[0].node == root;
    assert Chain(children, [root]);
  }

  lemma CoveringSkips(children: Children, root: Node, test: Test, seen: set<Node>, stack: seq<Item>, top: Item,
                      maxDepth: nat)
    requires Covering(children, root, test, seen, stack + [top], maxDepth) && top.node in seen
    ensures Covering(children, root, test, seen, stack, maxDepth)
  {
    OnStackWithTop(stack, top);
    assert forall i :: 0 <= i < |stack| ==> (stack + [top])[i] == stack[i];
  }

  /** A node is visited, failed the test and is not expanded: only at the depth limit. */
  lemma CoveringStops(children: Children, root: Node, test: Test, seen: set<Node>, stack: seq<Item>, top: Item,
                      maxDepth: nat)
    requires Covering(children, root, test, seen, stack + [top], maxDepth) && top.node !in seen && !test(top.node)
    requires top.depth >= maxDepth
    ensures Covering(children, root, test, seen + {top.node}, stack, maxDepth)
  {
    OnStackWithTop(stack, top);
    assert (stack + [top])[|stack|] == top;
    assert forall i :: 0 <= i < |stack| ==> (stack + [top])[i] == stack[i];
    assert |seen + {top.node}| == |seen| + 1;
  }

  lemma CoveringExpands(children: Children, root: Node, test: Test, seen: set<Node>, stack: seq<Item>, top: Item,
                        pushed: seq<Item>, maxDepth: nat)
    requires Covering(children, root, test, seen, stack + [top], maxDepth) && top.node !in seen && !test(top.node)
    requires forall n :: OnStack(pushed, n) <==> OnStack(stack, n) || n in children(top.node)
    requires forall i :: 0 <= i < |pushed| ==> pushed[i] in stack || pushed[i].depth == top.depth + 1
    ensures Covering(children, root, test, seen + {top.node}, pushed, maxDepth)
  {
    OnStackWithTop(stack, top);
    assert (stack + [top])[|stack|] == top;
    assert |seen + {top.node}| == |seen| + 1;
    assert OnStack(stack + [top], top.node);
    forall n | n in children(top.node) ensures Reaches(children, root, n) {
      ReachesOnward(children, root, top.node, n);
    }
    forall i | 0 <= i < |pushed| ensures pushed[i].depth <= |seen| + 1 {
      if pushed[i] in stack {
        var j :| 0 <= j < |stack| && stack[j] == pushed[i];
        assert (stack + [top])[j] == stack[j];
      }
    }
  }

  /** On a graph small enough for both bounds, an unsuccessful search has seen everything reachable. */
  lemma NothingMissed(children: Children, root: Node, test: Test, seen: set<Node>, stack: seq<Item>, maxNodes: nat,
                      maxDepth: nat)
    requires Covering(children, root, test, seen, stack, maxDepth) && (stack == [] || |seen| >= maxNodes)
    requires AtMost(children, root, maxNodes) && AtMost(children, root, maxDepth + 1)
    ensures forall n :: Reaches(children, root, n) ==> !test(n)
  {
    var a: set<Node> :| root in a && ClosedUnder(children, a) && |a| <= maxNodes;
    var b: set<Node> :| root in b && ClosedUnder(children, b) && |b| <= maxDepth + 1;
    forall n | Reaches(children, root, n) ensures n in a && n in b {
      var chain :| Chain(children, chain) && chain[0] == root && chain[|chain| - 1] == n;
      ClosedHoldsChain(children, chain, a);
      ClosedHoldsChain(children, chain, b);
    }
    assert seen <= a && seen <= b;
    if |seen| >= maxNodes {
      SameSize(seen, a);
    } else if |seen| > maxDepth {
      SameSize(seen, b);
    } else {
      assert ClosedUnder(children, seen);
    }
    forall n | Reaches(children, root, n) ensures n in seen {
      if |seen| < maxNodes && |seen| <= maxDepth {
        var chain :| Chain(children, chain) && chain[0] == root && chain[|chain| - 1] == n;
        ClosedHoldsChain(children, chain, seen);
      }
    }
  }

  lemma SameSize(s: set<Node>, t: set<Node>)
    requires s <= t && |t| <= |s|
    ensures s == t
  {
    assert |t - s| == |t| - |s|;
  }


  /** Everything on the stack is reachable, and everything pending belongs to the preorder. */
  ghost predicate Inside(q: Query, s: State) {
    && Within(q, s.stack)
    && (forall n :: n in Pending(q, s.stack) ==> n in q.All())
    && (forall i :: 0 <= i < |s.stack| ==> Reaches(q.children, q.root, s.stack[i].node))
  }

  lemma InsideKept(q: Query, s: State)
    requires Inside(q, s) && !Stopped(q, s) && !Hits(q, s)
    ensures Inside(q, Next(q, s))
  {
    hide Pending, Seen, Preorder, Reaches;
    PendingTop(q, s);
    var next, top := Next(q, s), Top(s);
    if !Skips(s) { VisitUnfolds(q, s); }
    assert forall n :: n in Pending(q, next.stack) ==> n in Pending(q, s.stack);
    forall i | 0 <= i < |next.stack| ensures Reaches(q.children, q.root, next.stack[i].node) {
      if i >= |s.stack| - 1 { ReachesOnward(q.children, q.root, top.node, next.stack[i].node); }
    }
  }

  lemma {:induction false} SoundRun(q: Query, s: State)
    requires Inside(q, s) && Outcome(q, s).Some?
    ensures var n := Outcome(q, s).value; q.test(n) && n in q.All() && Reaches(q.children, q.root, n)
    decreases q.maxNodes - |s.visited|, |s.stack|
  {
    hide Pending, Seen, Preorder, Reaches, Next;
    if Hits(q, s) {
      PendingTop(q, s);
      TopIsCut(q, s);
    } else {
      Shrinks(q, s);
      InsideKept(q, s);
      SoundRun(q, Next(q, s));
    }
  }

  lemma TopIsCut(q: Query, s: State)
    requires s.stack != [] && Within(q, s.stack)
    ensures Cut(q, Top(s)) != [] && Cut(q, Top(s))[0] == Top(s).node
  {
  }

  /** Whatever identities are reused: a node found passes the test and lies within the depth limit. */
  lemma HitIsSound(q: Query)
    requires Outcome(q, Start(q)).Some?
    ensures var n := Outcome(q, Start(q)).value; q.test(n) && n in q.All() && Reaches(q.children, q.root, n)
  {
    var s := Start(q);
    PendingTop(q, s);
    assert Popped(s) == [];
    assert Chain(q.children, [q.root]);
    hide Preorder, Outcome, Reaches;
    SoundRun(q, s);
  }

  function NodeSet(items: seq<Item>): (r: set<Node>)
    ensures forall n :: n in r <==> exists i :: 0 <= i < |items| && items[i].node == n
  {
    set i | 0 <= i < |items| :: items[i].node
  }

  lemma NodeSetGrows(items: seq<Item>, a: Item)
    ensures NodeSet(items + [a]) == NodeSet(items) + {a.node}
  {
    var longer := items + [a];
    assert longer[|items|] == a;
    assert forall i :: 0 <= i < |items| ==> longer[i] == items[i];
  }

  /** One node, one proxy. */
  ghost predicate Kept(s: State) {
    forall a, b :: (a in s.visited || a in s.stack) && (b in s.visited || b in s.stack) && a.node == b.node ==>
      a.id == b.id
  }

  lemma KeptOn(q: Query, s: State)
    requires Kept(s) && AllSteady(q, s) && !Stopped(q, s) && !Hits(q, s)
    ensures Kept(Next(q, s))
  {
    var next := Next(q, s);
    forall a, b | (a in next.visited || a in next.stack) && (b in next.visited || b in next.stack) && a.node == b.node
      ensures a.id == b.id
    {
      KeptPair(q, s, a, b);
    }
  }

  lemma KeptPair(q: Query, s: State, a: Item, b: Item)
    requires Kept(s) && AllSteady(q, s) && !Stopped(q, s) && !Hits(q, s) && a.node == b.node
    requires a in Next(q, s).visited || a in Next(q, s).stack
    requires b in Next(q, s).visited || b in Next(q, s).stack
    ensures a.id == b.id
  {
    hide Steady, Skips, Hits, Next;
    OneStep(q, s);
    NextItems(q, s, a);
    NextItems(q, s, b);
    if !((a in s.visited || a in s.stack) && (b in s.visited || b in s.stack)) {
      var x := Expansion(Next(q, s).visited, Popped(s), s.held, Next(q, s).held);
      if a in x.made { SteadyPair(x, a, b); } else { SteadyPair(x, b, a); }
    }
  }

  lemma SteadyPair(x: Expansion, a: Item, b: Item)
    requires Steady(x) && a in x.made && (b in x.visited || b in x.rest || b in x.made) && b.node == a.node
    ensures b.id == a.id
  {
    var i :| 0 <= i < |x.made| && x.made[i] == a;
  }

  ghost predicate Searching(q: Query, s: State) {
    && Named(s) && Kept(s) && Within(q, s.stack) && |s.visited| <= q.maxNodes
    && |NodeSet(s.visited)| == |s.visited|
    && Covering(q.children, q.root, q.test, NodeSet(s.visited), s.stack, q.maxDepth)
  }

  lemma SearchingSkips(q: Query, s: State)
    requires Searching(q, s) && !Stopped(q, s) && Skips(s)
    ensures Covering(q.children, q.root, q.test, NodeSet(s.visited), Popped(s), q.maxDepth)
  {
    hide Named, Kept, Covering;
    var i :| 0 <= i < |s.visited| && s.visited[i].id == Top(s).id;
    NamedPair(s, s.visited[i], Top(s));
    assert s.stack == Popped(s) + [Top(s)];
    CoveringSkips(q.children, q.root, q.test, NodeSet(s.visited), Popped(s), Top(s), q.maxDepth);
  }

  lemma VisitedIsNew(s: State)
    requires Kept(s) && s.stack != [] && !Skips(s)
    ensures Top(s).node !in NodeSet(s.visited)
  {
    forall i | 0 <= i < |s.visited| ensures s.visited[i].node != Top(s).node {
      assert s.visited[i] in s.visited && Top(s) in s.stack && s.visited[i].id != Top(s).id;
    }
  }

  lemma OneMoreNode(s: State)
    requires Kept(s) && s.stack != [] && !Skips(s) && |NodeSet(s.visited)| == |s.visited|
    ensures NodeSet(s.visited + [Top(s)]) == NodeSet(s.visited) + {Top(s).node}
    ensures |NodeSet(s.visited + [Top(s)])| == |s.visited| + 1 && Top(s).node !in NodeSet(s.visited)
  {
    VisitedIsNew(s);
    NodeSetGrows(s.visited, Top(s));
    hide NodeSet;
    assert |NodeSet(s.visited) + {Top(s).node}| == |NodeSet(s.visited)| + 1;
  }

  lemma SearchingStops(q: Query, s: State)
    requires Searching(q, s) && !Stopped(q, s) && !Skips(s) && !Hits(q, s) && !Expands(q, s)
    ensures Covering(q.children, q.root, q.test, NodeSet(s.visited) + {Top(s).node}, Popped(s), q.maxDepth)
  {
    hide Named, Kept, Covering, NodeSet, Seen, OnStack;
    OneMoreNode(s);
    assert s.stack == Popped(s) + [Top(s)];
    CoveringStops(q.children, q.root, q.test, NodeSet(s.visited), Popped(s), Top(s), q.maxDepth);
  }

  lemma SearchingExpands(q: Query, s: State)
    requires Searching(q, s) && Expands(q, s)
    ensures Covering(q.children, q.root, q.test, NodeSet(s.visited) + {Top(s).node}, Next(q, s).stack, q.maxDepth)
  {
    hide Named, Kept, Covering, NodeSet, Seen, OnStack;
    OneMoreNode(s);
    var top := Top(s);
    assert s.stack == Popped(s) + [top];
    PushedOnStack(q, Popped(s), Made(q, top, |s.visited| + 1), q.children(top.node), top.depth + 1);
    CoveringExpands(q.children, q.root, q.test, NodeSet(s.visited), Popped(s), top, Next(q, s).stack, q.maxDepth);
  }

  lemma SearchingVisits(q: Query, s: State)
    requires Searching(q, s) && !Stopped(q, s) && !Skips(s) && !Hits(q, s)
    ensures var next := Next(q, s);
      && |NodeSet(next.visited)| == |next.visited|
      && Covering(q.children, q.root, q.test, NodeSet(next.visited), next.stack, q.maxDepth)
  {
    hide Named, Kept, Covering, NodeSet, Seen;
    OneMoreNode(s);
    if Expands(q, s) { SearchingExpands(q, s); } else { SearchingStops(q, s); }
  }

  lemma PushedOnStack(q: Query, rest: seq<Item>, made: seq<Item>, nodes: seq<Node>, depth: nat)
    requires |made| == |nodes| && forall i :: 0 <= i < |made| ==> made[i].node == nodes[i] && made[i].depth == depth
    ensures var pushed := rest + Reversed(made);
      && (forall n :: OnStack(pushed, n) <==> OnStack(rest, n) || n in nodes)
      && (forall i :: 0 <= i < |pushed| ==> pushed[i] in rest || pushed[i].depth == depth)
  {
    var pushed := rest + Reversed(made);
    forall n | n in nodes ensures OnStack(pushed, n) {
      var i :| 0 <= i < |nodes| && nodes[i] == n;
      assert pushed[|rest| + |made| - 1 - i].node == n;
    }
    forall n | OnStack(rest, n) ensures OnStack(pushed, n) {
      var i :| 0 <= i < |rest| && rest[i].node == n;
      assert pushed[i].node == n;
    }
  }

  lemma SearchingKept(q: Query, s: State)
    requires Searching(q, s) && Undisturbed(q, s) && AllSteady(q, s) && !Stopped(q, s) && !Hits(q, s)
    ensures Searching(q, Next(q, s))
  {
    NamedKept(q, s);
    KeptOn(q, s);
    if Skips(s) { SearchingSkips(q, s); } else { SearchingVisits(q, s); }
    NextWithin(q, s);
    hide Named, Kept, Covering, Seen, NodeSet, Undisturbed, AllSteady;
  }

  lemma NextWithin(q: Query, s: State)
    requires Within(q, s.stack) && |s.visited| <= q.maxNodes && !Stopped(q, s) && !Hits(q, s)
    ensures Within(q, Next(q, s).stack) && |Next(q, s).visited| <= q.maxNodes
  {
    hide Seen;
  }

  lemma {:induction false} GraphRun(q: Query, s: State)
    requires Searching(q, s) && Undisturbed(q, s) && AllSteady(q, s) && Outcome(q, s).None?
    requires AtMost(q.children, q.root, q.maxNodes) && AtMost(q.children, q.root, q.maxDepth + 1)
    ensures forall n :: Reaches(q.children, q.root, n) ==> !q.test(n)
    decreases q.maxNodes - |s.visited|, |s.stack|
  {
    hide Undisturbed, AllSteady, Covering, Named, Kept, Next, AtMost, Reaches, Skips, NodeSet;
    if Stopped(q, s) {
      NothingMissed(q.children, q.root, q.test, NodeSet(s.visited), s.stack, q.maxNodes, q.maxDepth);
    } else {
      Shrinks(q, s);
      SearchingKept(q, s);
      OneStep(q, s);
      GraphRun(q, Next(q, s));
    }
  }

  /**
   * On a graph within both bounds whose proxies keep their identities, nothing is found exactly when nothing
   * passes.
   */
  lemma NothingFoundExactly(q: Query)
    requires Undisturbed(q, Start(q)) && AllSteady(q, Start(q))
    requires AtMost(q.children, q.root, q.maxNodes) && AtMost(q.children, q.root, q.maxDepth + 1)
    ensures Outcome(q, Start(q)).None? <==> forall n :: Reaches(q.children, q.root, n) ==> !q.test(n)
  {
    var s := Start(q);
    CoveringAtStart(q.children, q.root, q.test, Item(q.root, q.rootId, 0), q.maxDepth);
    assert NodeSet(s.visited) == {};
    hide Preorder, Covering, Outcome, Reaches, AtMost, Undisturbed, AllSteady, NodeSet;
    if Outcome(q, s).None? { GraphRun(q, s); } else { HitIsSound(q); }
  }

  // ---- Why the condition is needed ----

  /** A line of four nodes, of which the last passes, and whose proxy gets the identity the second one had. */
  function Line(n: Node): seq<Node> { if n < 3 then [n + 1] else [] }

  function LineQuery(maxNodes: nat, maxDepth: nat): Query {
    Query(0, 0, Line, n => n == 3, (k, i) => if k == 3 then 1 else k, maxNodes, maxDepth)
  }

  /**
   * The second proxy is dropped when the third is popped; the fourth, made after that, may have its identity.
   * Every proxy is then unlike all that are alive with it, and yet the search misses the only node that passes.
   */
  lemma ReusedIdentityMisses(maxNodes: nat, maxDepth: nat)
    requires maxNodes >= 4 && maxDepth >= 3
    ensures var q := LineQuery(maxNodes, maxDepth);
      && (forall x :: x in Expansions(q, Start(q)) ==> Lawful(x))
      && Outcome(q, Start(q)) == None
      && NoRepeats(q.All()) && FirstHit(Take(q.All(), maxNodes), q.test) == Some(3)
  {
    var q := LineQuery(maxNodes, maxDepth);
    LinePreorder(q.children, maxDepth);
    LineRun(q);
    LineHit(q.test, maxNodes);
    hide Preorder, Expansions, Outcome, Lawful;
  }

  lemma LineHit(test: Test, maxNodes: nat)
    requires maxNodes >= 4 && forall n :: test(n) <==> n == 3
    ensures FirstHit(Take([0, 1, 2, 3], maxNodes), test) == Some(3)
  {
    assert [0, 1, 2] + [3] == [0, 1, 2, 3];
    NoHitBefore([0, 1, 2], [3], test);
  }

  lemma LinePreorder(children: Children, maxDepth: nat)
    requires maxDepth >= 3 && forall n :: children(n) == Line(n)
    ensures Preorder(children, 0, maxDepth) == [0, 1, 2, 3]
  {
    hide Preorder, Line;
    LineEnd(children, maxDepth - 3);
    LineBelow(children, 2, maxDepth - 2);
    LineBelow(children, 1, maxDepth - 1);
    LineBelow(children, 0, maxDepth);
  }

  lemma LineEnd(children: Children, depth: nat)
    requires forall m :: children(m) == Line(m)
    ensures Preorder(children, 3, depth) == [3]
  {
  }

  lemma LineBelow(children: Children, n: Node, depth: nat)
    requires n < 3 && depth > 0 && forall m :: children(m) == Line(m)
    ensures Preorder(children, n, depth) == [n] + Preorder(children, n + 1, depth - 1)
  {
    assert [n + 1][1..] == [];
    assert PreorderAll(children, [n + 1], depth - 1) == Preorder(children, n + 1, depth - 1) + [];
  }

  lemma LineRun(q: Query)
    requires q == LineQuery(q.maxNodes, q.maxDepth) && q.maxNodes >= 4 && q.maxDepth >= 3
    ensures Outcome(q, Start(q)) == None && forall x :: x in Expansions(q, Start(q)) ==> Lawful(x)
  {
    hide Outcome, Expansions, Lawful, Next;
    var a, b, c, d := Item(0, 0, 0), Item(1, 1, 1), Item(2, 2, 2), Item(3, 1, 3);
    var s1, s2, s3 := State([a], [b], [b]), State([a, b], [c], [c]), State([a, b, c], [d], [d]);
    LineStep(q, Start(q), a, b, s1);
    LineStep(q, s1, b, c, s2);
    LineStep(q, s2, c, d, s3);
    LineEnds(q, s3);
    LineIsLawful(a, b, c, d);
  }

  lemma LineEnds(q: Query, s: State)
    requires s == State([Item(0, 0, 0), Item(1, 1, 1), Item(2, 2, 2)], [Item(3, 1, 3)], [Item(3, 1, 3)]) &&
               q.maxNodes >= 4
    ensures Outcome(q, s) == None && Expansions(q, s) == []
  {
    assert s.visited[1].id == 1;
    assert Next(q, s) == State(s.visited, [], s.held);
  }

  lemma LineIsLawful(a: Item, b: Item, c: Item, d: Item)
    requires a.id == 0 && b.id == d.id == 1 && c.id == 2
    ensures Lawful(Expansion([a], [], [], [b])) && Lawful(Expansion([a, b], [], [b], [c]))
    ensures Lawful(Expansion([a, b, c], [], [c], [d]))
  {
  }

  /** One visit on the line. */
  lemma LineStep(q: Query, s: State, top: Item, child: Item, next: State)
    requires q == LineQuery(q.maxNodes, q.maxDepth) && q.maxNodes >= 4 && q.maxDepth >= 3
    requires s.stack == [top] && top.node == top.depth == |s.visited| < 3 && !Seen(s.visited, top.id)
    requires child == Item(top.node + 1, q.naming(top.node + 1, 0), top.depth + 1)
    requires next == State(s.visited + [top], [child], [child])
    ensures Outcome(q, s) == Outcome(q, next)
    ensures Expansions(q, s) == [Expansion(next.visited, [], s.held, [child])] + Expansions(q, next)
  {
    hide Seen;
    var made := Made(q, top, |s.visited| + 1);
    assert made == [child] && Reversed(made) == [child];
    assert Next(q, s) == next;
  }

  // ---- The code ----

  /** Pushes the child items, last first. */
  method PushReversed(stack: seq<Item>, made: seq<Item>) returns (r: seq<Item>)
    ensures r == stack + Reversed(made)
  {
    r := stack;
    for i := |made| downto 0
      invariant r == stack + Reversed(made)[..|made| - i]
    {
      r := r + [made[i]];
    }
  }

  /**
   * The search ends on any graph and however identities are reused, and what it finds passes the test within
   * the depth limit.  If no identity of a dropped proxy is reused: where no node occurs twice, as in a tree, it
   * finds the first node that passes among the first `maxNodes` of the recursive preorder; and on a graph
   * within both bounds whose nodes keep their proxies, it finds nothing exactly when nothing reachable passes.
   */
  method Search(q: Query) returns (r: Option<Node>)
    ensures r == Outcome(q, Start(q))
    ensures r.Some? ==> q.test(r.value) && r.value in q.All() && Reaches(q.children, q.root, r.value)
    ensures Undisturbed(q, Start(q)) && NoRepeats(q.All()) ==> r == FirstHit(Take(q.All(), q.maxNodes), q.test)
    ensures Undisturbed(q, Start(q)) && AllSteady(q, Start(q)) &&
            AtMost(q.children, q.root, q.maxNodes) && AtMost(q.children, q.root, q.maxDepth + 1) ==>
              (r.None? <==> forall n :: Reaches(q.children, q.root, n) ==> !q.test(n))
  {
    r := Run(q);
    hide *;
    if r.Some? { HitIsSound(q); }
    if Undisturbed(q, Start(q)) {
      if NoRepeats(q.All()) { FirstHitOnTrees(q); }
      if AllSteady(q, Start(q)) && AtMost(q.children, q.root, q.maxNodes) &&
        AtMost(q.children, q.root, q.maxDepth + 1) {
        NothingFoundExactly(q);
      }
    }
  }

  lemma SkipStep(q: Query, s: State)
    requires !Stopped(q, s) && Skips(s)
    ensures !Hits(q, s) && Next(q, s) == State(s.visited, Popped(s), s.held)
    ensures Outcome(q, s) == Outcome(q, Next(q, s))
  {
    hide Seen;
  }

  lemma VisitStep(q: Query, s: State)
    requires !Stopped(q, s) && !Skips(s) && !q.test(Top(s).node)
    ensures !Hits(q, s) && Next(q, s).visited == s.visited + [Top(s)]
    ensures Next(q, s).stack == if Top(s).depth >= q.maxDepth then Popped(s) else
              Popped(s) + Reversed(Made(q, Top(s), |s.visited| + 1))
    ensures Outcome(q, s) == Outcome(q, Next(q, s))
  {
    hide Seen, Made, Reversed;
  }

  /** The loop. */
  method Run(q: Query) returns (r: Option<Node>)
    ensures r == Outcome(q, Start(q))
  {
    hide Seen, Outcome, Next, Made, Reversed, Hits;
    var visitedCount := 0;
    var stack := [Item(q.root, q.rootId, 0)];
    var seen: set<Id> := {};
    ghost var s := Start(q);
    NothingSeen();
    while |stack| > 0 && visitedCount < q.maxNodes
      invariant s.stack == stack && |s.visited| == visitedCount && forall id :: id in seen <==> Seen(s.visited, id)
      invariant Outcome(q, s) == Outcome(q, Start(q))
      decreases q.maxNodes - visitedCount, |stack|
    {
      var top := stack[|stack| - 1];
      stack := stack[..|stack| - 1];
      if top.id in seen {
        SkipStep(q, s);
        s := Next(q, s);
        continue;
      }
      SeenOneMore(s.visited, top);
      seen, visitedCount := seen + {top.id}, visitedCount + 1;
      if q.test(top.node) {
        HitEnds(q, s);
        return Some(top.node);
      }
      VisitStep(q, s);
      s := Next(q, s);
      if top.depth >= q.maxDepth { continue; }
      var childItems := Made(q, top, visitedCount);
      stack := PushReversed(stack, childItems);
    }
    StopEnds(q, s);
    return None;
  }

  lemma HitEnds(q: Query, s: State)
    requires !Stopped(q, s) && !Skips(s) && q.test(Top(s).node)
    ensures Outcome(q, s) == Some(Top(s).node)
  {
  }

  lemma StopEnds(q: Query, s: State)
    requires Stopped(q, s)
    ensures Outcome(q, s) == None
  {
  }

  lemma NothingSeen()
    ensures forall id :: !Seen([], id)
  {
  }

  lemma SeenOneMore(visited: seq<Item>, top: Item)
    ensures forall id :: Seen(visited + [top], id) <==> Seen(visited, id) || id == top.id
  {
    var longer := visited + [top];
    assert longer[|visited|] == top;
    forall id | Seen(visited, id) ensures Seen(longer, id) {
      var i :| 0 <= i < |visited| && visited[i].id == id;
      assert longer[i].id == id;
    }
  }
}
