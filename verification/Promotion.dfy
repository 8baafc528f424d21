/**
 * Publishing a downloaded folder without overwriting anything, with rollback on failure
 * (src/main/local-downloaded-folder-promotion.ts).
 *
 * Between any two operations third parties may change the destination: create, change, move, link and
 * remove.  Every entry there carries the history of who touched it, so "survives" can be stated.
 * Following the original's comments, creating an entry and reading back its identity leave no gap for
 * third parties (though the reading may fail), nor do the identity check and the removal of a rollback.
 * Identities and file states are never reused.
 */
module Promotion {
  import opened Options

  type Byte = b: int | 0 <= b < 256
  type Path = seq<string>

  const COPY_CHUNK_BYTES := 1024 * 1024

  /** dev, ino and birthtimeNs of an lstat. */
  datatype Identity = Identity(dev: nat, ino: nat, birth: nat)

  /**
   * What happened to an entry.  Promotion creates and writes; third parties create and change; and the
   * stat at the end of a copy records the state of the file.
   */
  datatype Touch = Promotion | ThirdParty | Recorded

  /**
   * `obj` is the file or directory itself, which hard links and moves share; `id` is what the file
   * system reports of it.  `state` stands for a file's size, mtimeNs and mode together.  An entry that
   * was there before has no touches.
   */
  datatype Node =
    | Dir(obj: nat, id: Identity, touches: seq<Touch>)
    | File(obj: nat, id: Identity, touches: seq<Touch>, state: nat, bytes: seq<Byte>)

  /** The object is not part of the original's record and no check looks at it. */
  datatype Record = Record(isDirectory: bool, path: Path, id: Identity, state: nat, obj: nat)

  /** What a source directory lists, in the order promotion visits it. */
  datatype Tree = FileTree(bytes: seq<Byte>) | DirTree(entries: seq<Entry>) | SpecialTree
  datatype Entry = Entry(name: string, tree: Tree)

  type Dest = map<Path, Node>

  /** The destination file system, with every object, identity and file state seen so far. */
  datatype World = World(dest: Dest, objects: set<nat>, ids: set<Identity>, states: set<nat>)

  // ---- The checks of the original ----

  predicate HasSameIdentity(current: Identity, published: Identity) {
    if published.dev != 0 || published.ino != 0 then
      current.dev == published.dev && current.ino == published.ino
    else
      published.birth != 0 && current.birth == published.birth
  }

  /** Rollback takes `node` for what `r` published. */
  predicate Matches(r: Record, node: Node) {
    && HasSameIdentity(node.id, r.id)
    && r.isDirectory == node.Dir?
    && (node.File? ==> node.state == r.state)
  }

  /** The file system reports something to recognise an entry by. */
  predicate Reported(id: Identity) { id != Identity(0, 0, 0) }

  /** Without that, nothing is ever recognised. */
  lemma UnreportedIsUnrecognised(current: Identity, id: Identity)
    ensures HasSameIdentity(id, id) <==> Reported(id)
    ensures !Reported(id) ==> !HasSameIdentity(current, id)
  {
  }

  // ---- The file system ----

  function Parent(p: Path): Path
    requires p != []
  {
    p[..|p| - 1]
  }

  /** Every entry sits in a directory. */
  predicate Closed(d: Dest) {
    forall p <- d.Keys :: p != [] ==> Parent(p) in d && d[Parent(p)].Dir?
  }

  predicate Free(d: Dest, p: Path) {
    p != [] && p !in d && Parent(p) in d && d[Parent(p)].Dir?
  }

  predicate Empty(d: Dest, p: Path) {
    forall q <- d.Keys :: q != [] ==> Parent(q) != p
  }

  predicate LastIs(touches: seq<Touch>, t: Touch) { touches != [] && touches[|touches| - 1] == t }

  /** There before, or last changed by a third party and not recorded by promotion since. */
  predicate Foreign(n: Node) { n.touches == [] || LastIs(n.touches, ThirdParty) }

  predicate IsNew(id: Identity, ids: set<Identity>) {
    forall i <- ids :: !HasSameIdentity(id, i) && !HasSameIdentity(i, id)
  }

  predicate IsNewObject(obj: nat, objects: set<nat>) { obj !in objects }

  predicate Unseen(n: Node, w: World) { IsNewObject(n.obj, w.objects) && IsNew(n.id, w.ids) }

  /** What a third party may leave somewhere. */
  predicate TheirEntry(w: World, n: Node) {
    || (n.touches == [ThirdParty] && Unseen(n, w))       // a new object
    || (exists q <- w.dest.Keys :: w.dest[q] == n)       // what was there, left alone, moved or linked
    || (exists q <- w.dest.Keys :: ChangedFrom(w, w.dest[q], n))
  }

  /** A file changed in place. */
  predicate ChangedFrom(w: World, m: Node, n: Node) {
    m.File? && n.File? && n.obj == m.obj && n.id == m.id && n.state !in w.states &&
      n.touches == m.touches + [ThirdParty]
  }

  function ObjectsOf(d: Dest): set<nat> { set p <- d.Keys :: d[p].obj }

  function IdsOf(d: Dest): set<Identity> { set p <- d.Keys :: d[p].id }

  function StatesOf(d: Dest): set<nat> { set p <- d.Keys | d[p].File? :: d[p].state }

  /** What any number of third-party operations may do. */
  predicate Interference(w: World, d: Dest) {
    Closed(d) && forall p <- d.Keys :: TheirEntry(w, d[p])
  }

  function Observe(w: World, d: Dest): World {
    World(d, w.objects + ObjectsOf(d), w.ids + IdsOf(d), w.states + StatesOf(d))
  }

  // ---- The invariant ----

  ghost predicate KnownNode(w: World, n: Node) {
    n.obj in w.objects && n.id in w.ids && (n.File? ==> n.state in w.states)
  }

  ghost predicate KnownRecord(w: World, r: Record) {
    r.obj in w.objects && r.id in w.ids && (r.isDirectory || r.state in w.states)
  }

  ghost predicate Known(w: World, published: seq<Record>) {
    && (forall p :: p in w.dest ==> KnownNode(w, w.dest[p]))
    && (forall k :: 0 <= k < |published| ==> KnownRecord(w, published[k]))
    && (forall i, j :: 0 <= i < j < |published| ==> published[i].obj != published[j].obj)
  }

  /**
   * Rollback never takes somebody else's entry for its own, an object keeps its identity and kind, and
   * a change that was recorded is taken for promotion's own.
   */
  ghost predicate FitsRecord(r: Record, n: Node) {
    && (Foreign(n) ==> !Matches(r, n))
    && (n.obj == r.obj ==>
         n.id == r.id && n.Dir? == r.isDirectory && (n.File? && LastIs(n.touches, Recorded) ==> n.state == r.state))
  }

  ghost predicate Fits(w: World, published: seq<Record>) {
    forall p, k :: p in w.dest && 0 <= k < |published| ==> FitsRecord(published[k], w.dest[p])
  }

  ghost predicate Good(w: World, published: seq<Record>) {
    Closed(w.dest) && Known(w, published) && Fits(w, published)
  }

  /** Only the file being copied into is recognised as it, and no stat has recorded it yet. */
  ghost predicate Open(w: World, r: Record) {
    && r.id in w.ids && r.obj in w.objects
    && forall p :: p in w.dest ==>
         && (HasSameIdentity(w.dest[p].id, r.id) ==> w.dest[p].obj == r.obj)
         && (w.dest[p].obj == r.obj ==> Recorded !in w.dest[p].touches)
  }

  lemma InterferenceKeepsNode(w: World, n: Node, r: Record)
    requires TheirEntry(w, n) && KnownRecord(w, r)
    requires forall p :: p in w.dest ==> KnownNode(w, w.dest[p]) && FitsRecord(r, w.dest[p])
    ensures FitsRecord(r, n)
  {
    if q :| q in w.dest && ChangedFrom(w, w.dest[q], n) {
      assert FitsRecord(r, w.dest[q]);
    }
  }

  lemma InterferenceKeepsGood(w: World, d: Dest, published: seq<Record>)
    requires Good(w, published) && Interference(w, d)
    ensures Good(Observe(w, d), published)
  {
    hide FitsRecord, TheirEntry;
    var t := Observe(w, d);
    forall p | p in d ensures KnownNode(t, d[p]) {
      assert d[p].obj in ObjectsOf(d) && d[p].id in IdsOf(d);
      assert d[p].File? ==> d[p].state in StatesOf(d);
    }
    forall p, k | p in d && 0 <= k < |published| ensures FitsRecord(published[k], d[p]) {
      InterferenceKeepsNode(w, d[p], published[k]);
    }
  }

  lemma InterferenceKeepsOpen(w: World, d: Dest, r: Record)
    requires Interference(w, d) && Open(w, r)
    ensures Open(Observe(w, d), r)
  {
    forall p | p in d
      ensures HasSameIdentity(d[p].id, r.id) ==> d[p].obj == r.obj
      ensures d[p].obj == r.obj ==> Recorded !in d[p].touches
    {
      assert TheirEntry(w, d[p]);
    }
  }

  // ---- Promotion's own steps ----

  /** A new entry of promotion's, with the object, identity and state the file system gave it. */
  function Create(w: World, p: Path, n: Node): World {
    World(w.dest[p := n], w.objects + {n.obj}, w.ids + {n.id}, if n.File? then w.states + {n.state} else w.states)
  }

  function RecordOf(p: Path, n: Node): Record {
    Record(n.Dir?, p, n.id, if n.File? then n.state else 0, n.obj)
  }

  function Remove(w: World, p: Path): World {
    w.(dest := w.dest - {p})
  }

  /** pwrite: `data` lands at `offset`; a gap before it reads as zeros. */
  function Overlay(bytes: seq<Byte>, offset: nat, data: seq<Byte>): seq<Byte> {
    var padded := if |bytes| < offset then bytes + seq(offset - |bytes|, _ => 0) else bytes;
    padded[..offset] + data + (if |padded| > offset + |data| then padded[offset + |data|..] else [])
  }

  function Written(n: Node, obj: nat, offset: nat, data: seq<Byte>, state: nat): Node {
    if n.File? && n.obj == obj then
      n.(touches := n.touches + [Promotion], bytes := Overlay(n.bytes, offset, data), state := state)
    else n
  }

  /** A write through the handle on an object, wherever that has gone. */
  function WriteAt(w: World, obj: nat, offset: nat, data: seq<Byte>, state: nat): World {
    w.(dest := map p | p in w.dest :: Written(w.dest[p], obj, offset, data, state), states := w.states + {state})
  }

  function Stamped(n: Node, obj: nat, state: nat): Node {
    if n.File? && n.obj == obj && n.state == state then n.(touches := n.touches + [Recorded]) else n
  }

  /** fstat through the handle, which found `state`. */
  function Stat(w: World, obj: nat, state: nat): World {
    w.(dest := map p | p in w.dest :: Stamped(w.dest[p], obj, state), states := w.states + {state})
  }

  function Restat(published: seq<Record>, state: nat): seq<Record>
    requires published != []
  {
    published[|published| - 1 := published[|published| - 1].(state := state)]
  }

  predicate Made(n: Node) { n.touches == [Promotion] }

  lemma CreateKeepsGood(w: World, p: Path, n: Node, published: seq<Record>)
    requires Good(w, published) && Free(w.dest, p) && Made(n) && Unseen(n, w)
    ensures Good(Create(w, p, n), published) && Good(Create(w, p, n), published + [RecordOf(p, n)])
    ensures Open(Create(w, p, n), RecordOf(p, n))
  {
    CreateKeepsKnown(w, p, n, published);
    CreateKeepsFits(w, p, n, published);
    CreateOpens(w, p, n, published);
    assert Closed(Create(w, p, n).dest);
    hide Known, Fits, Open, Closed, Create, RecordOf, Unseen;
  }

  lemma CreateKeepsKnown(w: World, p: Path, n: Node, published: seq<Record>)
    requires Known(w, published) && Unseen(n, w)
    ensures Known(Create(w, p, n), published) && Known(Create(w, p, n), published + [RecordOf(p, n)])
  {
  }

  lemma CreateKeepsFits(w: World, p: Path, n: Node, published: seq<Record>)
    requires Known(w, published) && Fits(w, published) && Made(n) && Unseen(n, w)
    ensures Fits(Create(w, p, n), published) && Fits(Create(w, p, n), published + [RecordOf(p, n)])
  {
    hide FitsRecord, KnownNode, KnownRecord, Unseen;
    var t, r := Create(w, p, n), RecordOf(p, n);
    forall q, k | q in t.dest && 0 <= k < |published| ensures FitsRecord(published[k], t.dest[q]) {
      if q == p { NewFits(w, n, published[k]); }
    }
    forall q | q in t.dest ensures FitsRecord(r, t.dest[q]) {
      if q == p { NewFitsItself(p, n); } else { OthersFitNew(w, w.dest[q], n, p); }
    }
  }

  lemma CreateOpens(w: World, p: Path, n: Node, published: seq<Record>)
    requires Known(w, published) && Made(n) && Unseen(n, w)
    ensures Open(Create(w, p, n), RecordOf(p, n))
  {
    hide KnownRecord;
  }

  lemma NewFits(w: World, n: Node, r: Record)
    requires KnownRecord(w, r) && Made(n) && Unseen(n, w)
    ensures FitsRecord(r, n)
  {
  }

  lemma NewFitsItself(p: Path, n: Node)
    requires Made(n)
    ensures FitsRecord(RecordOf(p, n), n)
  {
  }

  lemma OthersFitNew(w: World, m: Node, n: Node, p: Path)
    requires KnownNode(w, m) && Unseen(n, w)
    ensures FitsRecord(RecordOf(p, n), m)
  {
  }

  lemma WriteKeepsGood(w: World, obj: nat, offset: nat, data: seq<Byte>, state: nat, published: seq<Record>)
    requires Good(w, published)
    ensures Good(WriteAt(w, obj, offset, data, state), published)
  {
    hide FitsRecord, Overlay;
    var t := WriteAt(w, obj, offset, data, state);
    forall q, k | q in t.dest && 0 <= k < |published| ensures FitsRecord(published[k], t.dest[q]) {
      WrittenFits(published[k], w.dest[q], obj, offset, data, state);
    }
  }

  lemma WrittenFits(r: Record, n: Node, obj: nat, offset: nat, data: seq<Byte>, state: nat)
    requires FitsRecord(r, n)
    ensures FitsRecord(r, Written(n, obj, offset, data, state))
  {
  }

  lemma WriteKeepsOpen(w: World, obj: nat, offset: nat, data: seq<Byte>, state: nat, r: Record)
    requires Open(w, r)
    ensures Open(WriteAt(w, obj, offset, data, state), r)
  {
    hide Overlay, HasSameIdentity;
  }

  /**
   * The stat at the end of a copy: the last record takes over the state, and what has that state counts as
   * recorded.
   */
  lemma StatKeepsGood(w: World, state: nat, published: seq<Record>)
    requires Good(w, published) && published != [] && Open(w, published[|published| - 1])
    ensures Good(Stat(w, published[|published| - 1].obj, state), Restat(published, state))
  {
    hide Known, Fits, Open;
    StatKeepsKnown(w, state, published);
    StatKeepsFits(w, state, published);
    hide Restat;
  }

  lemma StatKeepsKnown(w: World, state: nat, published: seq<Record>)
    requires Known(w, published) && published != []
    ensures Known(Stat(w, published[|published| - 1].obj, state), Restat(published, state))
  {
  }

  lemma StatKeepsFits(w: World, state: nat, published: seq<Record>)
    requires Known(w, published) && Fits(w, published) && published != [] && Open(w, published[|published| - 1])
    ensures Fits(Stat(w, published[|published| - 1].obj, state), Restat(published, state))
  {
    hide FitsRecord, Open, KnownNode, KnownRecord;
    var m := |published| - 1;
    var r := published[m];
    var t, after := Stat(w, r.obj, state), Restat(published, state);
    forall q, k | q in t.dest && 0 <= k < |after| ensures FitsRecord(after[k], t.dest[q]) {
      if k < m { StampedFitsOther(published[k], w.dest[q], r.obj, state); } else { StampedFits(w, r, q, state); }
    }
  }

  lemma StampedFitsOther(r: Record, n: Node, obj: nat, state: nat)
    requires FitsRecord(r, n) && r.obj != obj
    ensures FitsRecord(r, Stamped(n, obj, state))
  {
  }

  lemma StampedFits(w: World, r: Record, q: Path, state: nat)
    requires q in w.dest && FitsRecord(r, w.dest[q]) && Open(w, r)
    ensures FitsRecord(r.(state := state), Stamped(w.dest[q], r.obj, state))
  {
  }

  lemma ClosedWithout(d: Dest, p: Path)
    requires Closed(d) && p in d && (d[p].Dir? ==> Empty(d, p))
    ensures Closed(d - {p})
  {
  }

  lemma RemoveKeepsGood(w: World, p: Path, published: seq<Record>)
    requires Good(w, published) && p in w.dest && (w.dest[p].Dir? ==> Empty(w.dest, p))
    ensures Good(Remove(w, p), published)
  {
    ClosedWithout(w.dest, p);
    hide FitsRecord, Closed, Empty, KnownNode, KnownRecord;
  }

  // ---- Without interference: the destination is what it was plus what was published ----

  predicate Below(q: Path, p: Path) { |p| < |q| && q[..|p|] == p }

  ghost function PathsOf(published: seq<Record>): set<Path> { set r <- published :: r.path }

  /** Parents come before their children, and no path comes twice. */
  ghost predicate ParentsFirst(published: seq<Record>) {
    forall i, j :: 0 <= i < j < |published| ==>
      published[i].path != published[j].path && !Below(published[i].path, published[j].path)
  }

  ghost predicate AllThere(d: Dest, published: seq<Record>) {
    forall k :: 0 <= k < |published| ==>
      && published[k].path in d
      && d[published[k].path].id == published[k].id && d[published[k].path].Dir? == published[k].isDirectory
  }

  /** `d` is `base` and something at each of the other paths. */
  ghost predicate Extends(d: Dest, base: Dest, paths: set<Path>) {
    && (forall p :: p in base ==> p in d && d[p] == base[p])
    && d.Keys == base.Keys + paths
    && base.Keys !! paths
  }

  /** The destination is `base` plus the entries recorded in `published`. */
  ghost predicate Built(d: Dest, base: Dest, published: seq<Record>) {
    && Extends(d, base, PathsOf(published))
    && AllThere(d, published)
    && ParentsFirst(published)
  }

  /** The first `n` records know their file's present state. */
  ghost predicate StatesMatch(d: Dest, published: seq<Record>, n: nat) {
    forall k :: 0 <= k < |published| && k < n && published[k].path in d && d[published[k].path].File? ==>
      d[published[k].path].state == published[k].state
  }

  lemma {:induction false} AncestorsExist(d: Dest, p: Path, n: nat)
    requires Closed(d) && p in d && n <= |p|
    ensures p[..n] in d
    decreases |p|
  {
    if n < |p| {
      AncestorsExist(d, Parent(p), n);
      assert Parent(p)[..n] == p[..n];
    } else {
      assert p[..n] == p;
    }
  }

  lemma PathsOfLonger(published: seq<Record>, r: Record)
    ensures PathsOf(published + [r]) == PathsOf(published) + {r.path}
  {
    assert r in published + [r];
  }

  lemma CreateKeepsParentsFirst(d: Dest, published: seq<Record>, r: Record)
    requires Closed(d) && r.path !in d && AllThere(d, published) && ParentsFirst(published)
    ensures ParentsFirst(published + [r])
  {
    forall i | 0 <= i < |published|
      ensures published[i].path != r.path && !Below(published[i].path, r.path)
    {
      if Below(published[i].path, r.path) {
        AncestorsExist(d, published[i].path, |r.path|);
      }
    }
  }

  lemma CreateKeepsThere(w: World, published: seq<Record>, p: Path, n: Node)
    requires AllThere(w.dest, published) && p !in w.dest
    ensures AllThere(Create(w, p, n).dest, published + [RecordOf(p, n)])
    ensures StatesMatch(w.dest, published, |published|) ==>
              StatesMatch(Create(w, p, n).dest, published + [RecordOf(p, n)], |published| + 1)
  {
  }

  lemma ExtendsFurther(d: Dest, base: Dest, paths: set<Path>, p: Path, n: Node)
    requires Extends(d, base, paths) && p !in d
    ensures Extends(d[p := n], base, paths + {p})
  {
  }

  lemma CreateKeepsBuilt(w: World, base: Dest, published: seq<Record>, p: Path, n: Node)
    requires Closed(w.dest) && Free(w.dest, p) && Built(w.dest, base, published)
    ensures Built(Create(w, p, n).dest, base, published + [RecordOf(p, n)])
    ensures StatesMatch(w.dest, published, |published|) ==>
              StatesMatch(Create(w, p, n).dest, published + [RecordOf(p, n)], |published| + 1)
  {
    PathsOfLonger(published, RecordOf(p, n));
    CreateKeepsParentsFirst(w.dest, published, RecordOf(p, n));
    CreateKeepsThere(w, published, p, n);
    ExtendsFurther(w.dest, base, PathsOf(published), p, n);
    hide AllThere, ParentsFirst, PathsOf, StatesMatch, Closed, Extends;
  }

  lemma LastIsEmpty(d: Dest, base: Dest, published: seq<Record>)
    requires Closed(base) && Built(d, base, published) && published != []
    ensures Empty(d, published[|published| - 1].path)
  {
    var last := published[|published| - 1];
    assert last in published;
    forall q | q in d && q != []
      ensures Parent(q) != last.path
    {
      assert Below(q, Parent(q));
      if q !in base {
        assert q in PathsOf(published);
        var r :| r in published && r.path == q;
        var k :| 0 <= k < |published| && published[k] == r;
      }
    }
  }

  lemma WithoutLast(d: Dest, rest: seq<Record>, last: Record)
    requires AllThere(d, rest + [last]) && ParentsFirst(rest + [last])
    ensures AllThere(d - {last.path}, rest) && ParentsFirst(rest) && last.path !in PathsOf(rest)
  {
    var all := rest + [last];
    assert all[|rest|] == last;
    assert forall k :: 0 <= k < |rest| ==> all[k] == rest[k];
    forall r | r in rest
      ensures r.path != last.path
    {
      var k :| 0 <= k < |rest| && rest[k] == r;
      assert all[k] == r;
    }
  }

  /** Taken last to first, each directory is empty when its turn comes. */
  lemma LastIsRemovable(d: Dest, base: Dest, published: seq<Record>)
    requires Closed(base) && Built(d, base, published) && published != []
    ensures var last := published[|published| - 1];
      && Empty(d, last.path)
      && Built(d - {last.path}, base, published[..|published| - 1])
  {
    hide AllThere, ParentsFirst, PathsOf, Empty, Closed;
    var rest, last := published[..|published| - 1], published[|published| - 1];
    LastIsEmpty(d, base, published);
    assert published == rest + [last];
    PathsOfLonger(rest, last);
    WithoutLast(d, rest, last);
  }

  lemma NothingLeft(d: Dest, base: Dest)
    requires Built(d, base, [])
    ensures d == base
  {
  }

  /** An entry that no record can make rollback remove. */
  ghost predicate Stuck(d: Dest, base: Dest, published: seq<Record>, q: Path) {
    && q in d && q !in base
    && forall k :: 0 <= k < |published| && published[k].path == q ==> !Reported(published[k].id)
  }

  // ---- What success looks like ----

  datatype Shape = DirShape | FileShape(bytes: seq<Byte>)

  ghost function ShapeOf(n: Node): Shape {
    match n case Dir(_, _, _) => DirShape case File(_, _, _, _, bytes) => FileShape(bytes)
  }

  ghost function Shapes(d: Dest): map<Path, Shape> { map p | p in d :: ShapeOf(d[p]) }

  /** The names, kinds and bytes of `tree`, placed at `p`. */
  ghost function Image(tree: Tree, p: Path): map<Path, Shape>
    decreases tree, 1
  {
    match tree
    case FileTree(bytes) => map[p := FileShape(bytes)]
    case DirTree(entries) => map[p := DirShape] + ImageOf(entries, p)
    case SpecialTree => map[]
  }

  ghost function ImageOf(entries: seq<Entry>, p: Path): map<Path, Shape>
    decreases entries, 0
  {
    if entries == [] then map[]
    else
      var last := entries[|entries| - 1];
      ImageOf(entries[..|entries| - 1], p) + Image(last.tree, p + [last.name])
  }

  /** The entry at `p` is our copy in progress, holding `bytes`; nothing else differs from `before`. */
  ghost predicate Copying(before: Dest, d: Dest, r: Record, bytes: seq<Byte>) {
    && r.path in before && r.path in d && d == before[r.path := d[r.path]]
    && d[r.path].File? && d[r.path].obj == r.obj && d[r.path].id == r.id && !Foreign(d[r.path]) &&
         d[r.path].bytes == bytes
    && forall q :: q in before && q != r.path ==> before[q].obj != r.obj
  }

  lemma CopyStarts(w: World, p: Path, n: Node, published: seq<Record>)
    requires Known(w, published) && p !in w.dest && Made(n) && n.File? && Unseen(n, w)
    ensures Copying(Create(w, p, n).dest, Create(w, p, n).dest, RecordOf(p, n), n.bytes)
  {
    hide KnownRecord;
  }

  lemma BytesOfCopy(before: Dest, d: Dest, r: Record, bytes: seq<Byte>)
    requires Copying(before, d, r, bytes)
    ensures r.path in d && d[r.path].File? && d[r.path].bytes == bytes
  {
  }

  lemma WriteExtendsCopy(before: Dest, w: World, r: Record, bytes: seq<Byte>, data: seq<Byte>, state: nat)
    requires Copying(before, w.dest, r, bytes)
    ensures Copying(before, WriteAt(w, r.obj, |bytes|, data, state).dest, r, bytes + data)
  {
    assert Overlay(bytes, |bytes|, data) == bytes + data;
  }

  lemma StatKeepsCopy(before: Dest, w: World, r: Record, bytes: seq<Byte>, state: nat)
    requires Copying(before, w.dest, r, bytes)
    ensures Copying(before, Stat(w, r.obj, state).dest, r, bytes)
    ensures w.dest[r.path].state == state ==> Stat(w, r.obj, state).dest[r.path].state == state
  {
  }

  lemma CopyKeepsBuilt(before: Dest, d: Dest, base: Dest, published: seq<Record>, bytes: seq<Byte>)
    requires Built(before, base, published) && published != []
    requires var r := published[|published| - 1]; Copying(before, d, r, bytes) && !r.isDirectory
    ensures Built(d, base, published)
    ensures StatesMatch(before, published, |published| - 1) ==> StatesMatch(d, published, |published| - 1)
  {
    var m := |published| - 1;
    assert published[m] in published;
    assert published[m].path in PathsOf(published);
    assert d.Keys == before.Keys;
  }

  lemma PathsOfSame(a: seq<Record>, b: seq<Record>)
    requires |a| == |b| && forall k :: 0 <= k < |a| ==> a[k].path == b[k].path
    ensures PathsOf(a) <= PathsOf(b)
  {
    forall p | p in PathsOf(a)
      ensures p in PathsOf(b)
    {
      var r :| r in a && r.path == p;
      var k :| 0 <= k < |a| && a[k] == r;
      assert b[k] in b;
    }
  }

  lemma RestatKeepsBuilt(d: Dest, base: Dest, published: seq<Record>, state: nat)
    requires Built(d, base, published) && published != []
    ensures Built(d, base, Restat(published, state))
    ensures var p := published[|published| - 1].path;
      StatesMatch(d, published, |published| - 1) && (d[p].File? ==> d[p].state == state)
      ==> StatesMatch(d, Restat(published, state), |published|)
  {
    var changed := Restat(published, state);
    PathsOfSame(published, changed);
    PathsOfSame(changed, published);
  }

  lemma CreateShapes(w: World, p: Path, n: Node)
    requires p !in w.dest
    ensures Shapes(Create(w, p, n).dest) == Shapes(w.dest) + map[p := ShapeOf(n)]
  {
  }

  lemma CopyShapes(w: World, p: Path, n: Node, d: Dest, bytes: seq<Byte>)
    requires p !in w.dest && Copying(Create(w, p, n).dest, d, RecordOf(p, n), bytes)
    ensures Shapes(d) == Shapes(w.dest) + map[p := FileShape(bytes)]
  {
  }

  lemma DirectoryImage(before: map<Path, Shape>, tree: Tree, p: Path)
    requires tree.DirTree?
    ensures before + map[p := DirShape] + ImageOf(tree.entries, p) == before + Image(tree, p)
    ensures before + ImageOf([], p) == before
  {
  }

  lemma NextImage(entries: seq<Entry>, i: nat, p: Path)
    requires i < |entries|
    ensures ImageOf(entries[..i + 1], p) == ImageOf(entries[..i], p) + Image(entries[i].tree, p + [entries[i].name])
  {
    assert entries[..i + 1][..i] == entries[..i];
  }

  // ---- Rollback, one record at a time ----

  /** Rollback removes what is at the record's path. */
  predicate Removable(r: Record, d: Dest) {
    r.path in d && Matches(r, d[r.path]) && (r.isDirectory ==> Empty(d, r.path))
  }

  ghost function UndoneOne(d: Dest, r: Record): Dest { if Removable(r, d) then d - {r.path} else d }

  /** The records undone, last first, with nobody interfering and every call working. */
  ghost function Undone(d: Dest, published: seq<Record>): Dest {
    if published == [] then d
    else Undone(UndoneOne(d, published[|published| - 1]), published[..|published| - 1])
  }

  /** The destination is `base`, what was recorded, and one entry at `p` that was not. */
  ghost predicate BuiltWithStray(d: Dest, base: Dest, published: seq<Record>, p: Path) {
    p in d && Built(d - {p}, base, published)
  }

  /** What undoing still has to go through: apart from `base` and what is above `p`, only the entries of the records. */
  ghost predicate Unwinding(d: Dest, base: Dest, published: seq<Record>, p: Path) {
    && Closed(d) && p in d && p !in PathsOf(published)
    && (forall q :: q in d ==> q in base || q == p || Below(p, q) || q in PathsOf(published))
    && base.Keys !! PathsOf(published)
    && AllThere(d, published) && ParentsFirst(published) && StatesMatch(d, published, |published|)
    && (forall k :: 0 <= k < |published| ==> Reported(published[k].id))
  }

  lemma FolderOfStrayIsFull(d: Dest, p: Path, q: Path)
    requires Closed(d) && p in d && Below(p, q)
    ensures q in d && d[q].Dir? && !Empty(d, q)
  {
    AncestorsExist(d, p, |q| + 1);
    assert Parent(p[..|q| + 1]) == q;
  }

  lemma OtherFolders(p: Path, q: Path, r: Path)
    requires !Below(p, r) && (q == p || Below(p, q))
    ensures !Below(q, r)
  {
    assert |r| < |q| ==> q[..|r|] == p[..|r|];
  }

  lemma LastIsNotAbove(rest: seq<Record>, r: Record, q: Path)
    requires ParentsFirst(rest + [r]) && q in PathsOf(rest + [r])
    ensures !Below(q, r.path)
  {
    var all := rest + [r];
    var s :| s in all && s.path == q;
    var k :| 0 <= k < |all| && all[k] == s;
    assert all[|rest|] == r;
  }

  lemma OtherFolderIsEmpty(d: Dest, base: Dest, rest: seq<Record>, r: Record, p: Path)
    requires Closed(base) && Unwinding(d, base, rest + [r], p) && !Below(p, r.path)
    ensures Empty(d, r.path)
  {
    assert r in rest + [r] && r.path in PathsOf(rest + [r]);
    forall q | q in d && q != []
      ensures Parent(q) != r.path
    {
      assert Below(q, Parent(q));
      if q in PathsOf(rest + [r]) {
        LastIsNotAbove(rest, r, q);
      } else if q == p || Below(p, q) {
        OtherFolders(p, q, r.path);
      }
    }
  }

  lemma UnwindOne(d: Dest, base: Dest, rest: seq<Record>, r: Record, p: Path)
    requires Closed(base) && Unwinding(d, base, rest + [r], p)
    ensures UndoneOne(d, r) == if Below(p, r.path) then d else d - {r.path}
    ensures r.path != p && r.path !in base && Unwinding(UndoneOne(d, r), base, rest, p)
  {
    var all := rest + [r];
    assert all[|rest|] == r && forall k :: 0 <= k < |rest| ==> all[k] == rest[k];
    PathsOfLonger(rest, r);
    WithoutLast(d, rest, r);
    UnreportedIsUnrecognised(r.id, r.id);
    if Below(p, r.path) {
      FolderOfStrayIsFull(d, p, r.path);
    } else {
      OtherFolderIsEmpty(d, base, rest, r, p);
      ClosedWithout(d, r.path);
    }
  }

  /** `after` is the part of `d` that was in `base`, is at `p`, or is above it. */
  ghost predicate OnlyStrayLeft(d: Dest, after: Dest, base: Dest, p: Path) {
    && (forall q :: q in after <==> q in d && (q in base || q == p || Below(p, q)))
    && (forall q :: q in after ==> after[q] == d[q])
  }

  lemma NothingToUnwind(d: Dest, base: Dest, p: Path)
    requires Unwinding(d, base, [], p)
    ensures OnlyStrayLeft(d, d, base, p)
  {
  }

  lemma LeftOfLess(d: Dest, r: Record, after: Dest, base: Dest, p: Path)
    requires OnlyStrayLeft(if Below(p, r.path) then d else d - {r.path}, after, base, p)
    requires r.path != p && r.path !in base
    ensures OnlyStrayLeft(d, after, base, p)
  {
  }

  lemma {:induction false} UnwindAll(d: Dest, base: Dest, published: seq<Record>, p: Path)
    requires Closed(base) && Unwinding(d, base, published, p)
    ensures OnlyStrayLeft(d, Undone(d, published), base, p)
    decreases |published|
  {
    hide Unwinding, UndoneOne, OnlyStrayLeft, Closed;
    if published == [] {
      NothingToUnwind(d, base, p);
    } else {
      var rest, r := published[..|published| - 1], published[|published| - 1];
      assert published == rest + [r];
      UnwindOne(d, base, rest, r, p);
      UnwindAll(UndoneOne(d, r), base, rest, p);
      LeftOfLess(d, r, Undone(d, published), base, p);
    }
  }

  lemma StrayUnwinds(d: Dest, base: Dest, published: seq<Record>, p: Path)
    requires Closed(d) && BuiltWithStray(d, base, published, p) && StatesMatch(d - {p}, published, |published|)
    requires forall k :: 0 <= k < |published| ==> Reported(published[k].id)
    ensures Unwinding(d, base, published, p) && forall q :: q in base ==> q in d && d[q] == base[q]
  {
    hide ParentsFirst, Closed;
    var without := d - {p};
    assert forall q :: q in d ==> q == p || q in without;
    assert p !in PathsOf(published);
    assert forall q :: q in base ==> q in without;
    assert AllThere(d, published) && StatesMatch(d, published, |published|) by {
      hide PathsOf;
      assert AllThere(without, published);
    }
  }

  /** What was there, the entry that could not be read back, and the folders above it, are what there is. */
  ghost predicate StrayStays(after: Dest, base: Dest, p: Path) {
    && (forall q :: q in after <==> q in base || q == p || Below(p, q))
    && (forall q :: q in base ==> q in after && after[q] == base[q])
  }

  /**
   * When an entry was created without a record, rollback at its best leaves that entry, the folders above
   * it, and what was there before.
   */
  lemma StrayKeepsItsFolders(d: Dest, base: Dest, published: seq<Record>, p: Path)
    requires Closed(base) && Closed(d) && BuiltWithStray(d, base, published, p)
    requires StatesMatch(d - {p}, published, |published|)
    requires forall k :: 0 <= k < |published| ==> Reported(published[k].id)
    ensures StrayStays(Undone(d, published), base, p)
    ensures p in d && p in Undone(d, published) && Undone(d, published)[p] == d[p]
  {
    StrayUnwinds(d, base, published, p);
    UnwindAll(d, base, published, p);
    assert p in d;
    hide Unwinding, Undone, BuiltWithStray, StatesMatch;
    forall q | Below(p, q)
      ensures q in d
    {
      AncestorsExist(d, p, |q|);
    }
    hide Closed;
  }

  /** A third party changed the file after promotion's last write to it. */
  ghost predicate ThirdPartyChangedLast(touches: seq<Touch>) {
    exists k :: 0 <= k < |touches| && touches[k] == ThirdParty && forall j :: k < j < |touches| ==>
      touches[j] == Recorded
  }

  /**
   * The last change that a third party made to a published file survives its rollback if and only if no
   * successful stat of the copy came after the change.
   */
  lemma LastChangeSurvivesExactly(w: World, published: seq<Record>, k: nat)
    requires Good(w, published) && k < |published| && Reported(published[k].id)
    requires var r := published[k];
      r.path in w.dest && w.dest[r.path].File? && w.dest[r.path].obj == r.obj &&
        ThirdPartyChangedLast(w.dest[r.path].touches)
    ensures !Removable(published[k], w.dest) <==> !LastIs(w.dest[published[k].path].touches, Recorded)
  {
    var r := published[k];
    var n := w.dest[r.path];
    assert FitsRecord(r, n);
    UnreportedIsUnrecognised(n.id, r.id);
    var c :| 0 <= c < |n.touches| && n.touches[c] == ThirdParty && forall j :: c < j < |n.touches| ==>
      n.touches[j] == Recorded;
    assert c < |n.touches| - 1 ==> LastIs(n.touches, Recorded);
  }

  /** The file at `p` once a third party has changed it in place. */
  function Changed(w: World, p: Path, bytes: seq<Byte>, state: nat): Dest
    requires p in w.dest && w.dest[p].File?
  {
    w.dest[p := w.dest[p].(touches := w.dest[p].touches + [ThirdParty], bytes := bytes, state := state)]
  }

  /**
   * A run that loses a change: a file is created for a copy, a third party changes it, the stat at the end
   * of the copy succeeds, and something fails after that; rollback then removes the file, the third party's
   * bytes in it.  Had both stats failed, it would have stayed.
   */
  lemma CopyCanLoseAChange(w: World, p: Path, n: Node, bytes: seq<Byte>, state: nat)
    requires Good(w, []) && Free(w.dest, p) && Made(n) && n.File? && Unseen(n, w) && Reported(n.id)
    requires state !in w.states && state != n.state
    ensures var published := [RecordOf(p, n)];
      var created := Create(w, p, n);
      var d := Changed(created, p, bytes, state);
      var changed := Observe(created, d);
      var recorded := Stat(changed, n.obj, state);
      && Interference(created, d) && changed.dest[p].bytes == bytes
      && !Removable(published[0], changed.dest)
      && recorded.dest[p].bytes == bytes && Removable(Restat(published, state)[0], recorded.dest)
  {
    var created := Create(w, p, n);
    var d := Changed(created, p, bytes, state);
    forall q | q in d ensures TheirEntry(created, d[q]) {
      if q == p { assert ChangedFrom(created, created.dest[p], d[p]); } else { assert created.dest[q] == d[q]; }
    }
    UnreportedIsUnrecognised(n.id, n.id);
  }

  /**
   * An entry whose read-back failed is never undone: whatever had been recorded before it, undoing every
   * record leaves the entry and the folders above it.
   */
  lemma UnrecordedEntryStays(w: World, base: Dest, published: seq<Record>, p: Path, n: Node)
    requires Good(w, published) && Closed(base) && Built(w.dest, base, published) && Free(w.dest, p)
    requires StatesMatch(w.dest, published, |published|)
    requires forall k :: 0 <= k < |published| ==> Reported(published[k].id)
    ensures var after := Undone(Create(w, p, n).dest, published);
      StrayStays(after, base, p) && p in after && after[p] == n && after != base
  {
    CreateStaysClosed(w, p, n);
    CreateStray(w, base, published, p, n);
    assert p !in base;
    hide Good, StatesMatch, Reported, Closed, Built, BuiltWithStray, Undone;
    StrayKeepsItsFolders(Create(w, p, n).dest, base, published, p);
  }

  lemma CreateStaysClosed(w: World, p: Path, n: Node)
    requires Closed(w.dest) && Free(w.dest, p)
    ensures Closed(Create(w, p, n).dest)
  {
  }

  lemma SomeObjectIsNew(objects: set<nat>)
    ensures exists obj: nat :: IsNewObject(obj, objects)
  {
    var bound := AboveAll(objects);
    assert IsNewObject(bound, objects);
  }

  lemma {:induction false} AboveAll(objects: set<nat>) returns (bound: nat)
    ensures forall obj <- objects :: obj < bound
  {
    bound := 0;
    if objects != {} {
      var obj :| obj in objects;
      var rest := AboveAll(objects - {obj});
      assert forall x <- objects :: x == obj || x in objects - {obj};
      bound := if obj < rest then rest else obj + 1;
    }
  }

  lemma UnreportedIsNew(ids: set<Identity>)
    ensures exists id: Identity :: IsNew(id, ids)
  {
    assert IsNew(Identity(0, 0, 0), ids);
  }

  lemma NothingPublished()
    ensures VerdictOf([]) == Done
  {
  }

  /** What becomes of a folder at its i-th entry. */
  lemma EntryVerdict(entries: seq<Entry>, i: nat)
    requires i < |entries|
    ensures VerdictOf(entries[..i]) == Done ==>
              VerdictOf(entries[..i + 1]) ==
                if entries[i].tree.SpecialTree? then Failed
                else if HasName(entries[..i], entries[i].name) then AlreadyExists
                else Verdict(entries[i].tree)
    ensures VerdictOf(entries[..i + 1]) != Done ==> VerdictOf(entries) == VerdictOf(entries[..i + 1])
    ensures NamesDistinct(DirTree(entries)) ==>
              !HasName(entries[..i], entries[i].name) && NamesDistinct(entries[i].tree)
  {
    hide *;
    EntryNames(entries, i);
    assert entries[..i + 1] == entries[..i] + [entries[i]];
    LastVerdict(entries[..i], entries[i]);
    if VerdictOf(entries[..i + 1]) != Done { VerdictStays(entries, i + 1); }
  }

  lemma EntryNames(entries: seq<Entry>, i: nat)
    requires i < |entries|
    ensures NamesDistinct(DirTree(entries)) ==>
              !HasName(entries[..i], entries[i].name) && NamesDistinct(entries[i].tree)
  {
    var front := entries[..i];
    assert forall e :: e in front ==> exists k | 0 <= k < i :: entries[k] == e;
    assert entries[i] in entries;
  }

  lemma VerdictHere(tree: Tree, d: Dest, p: Path)
    ensures VerdictAt(tree, d, p) ==
              if tree.SpecialTree? then Failed else if Exclusive(d, p) != Done then Exclusive(d, p) else Verdict(tree)
    ensures Exclusive(d, p) == Done ==> p !in d
  {
  }

  lemma NewObjectIsOurs(w: World, n: Node)
    requires Unseen(n, w)
    ensures n.obj !in w.objects
  {
  }

  lemma StartCopy(w: World, p: Path, n: Node, published: seq<Record>)
    requires Good(w, published) && p !in w.dest && Made(n) && n.File? && Unseen(n, w)
    ensures Copying(Create(w, p, n).dest, Create(w, p, n).dest, RecordOf(p, n), n.bytes)
  {
    CopyStarts(w, p, n, published);
  }

  lemma CreateIsBuilt(w: World, base: Dest, published: seq<Record>, p: Path, n: Node)
    requires Good(w, published) && Free(w.dest, p) && Built(w.dest, base, published)
    ensures Built(Create(w, p, n).dest, base, published + [RecordOf(p, n)])
    ensures StatesMatch(w.dest, published, |published|) ==>
              StatesMatch(Create(w, p, n).dest, published + [RecordOf(p, n)], |published| + 1)
  {
    CreateKeepsBuilt(w, base, published, p, n);
  }

  lemma CreateStray(w: World, base: Dest, published: seq<Record>, p: Path, n: Node)
    requires Free(w.dest, p) && Built(w.dest, base, published)
    ensures BuiltWithStray(Create(w, p, n).dest, base, published, p)
    ensures Create(w, p, n).dest - {p} == w.dest
  {
    assert Create(w, p, n).dest - {p} == w.dest;
  }

  lemma StrayIsStuck(d: Dest, base: Dest, published: seq<Record>, p: Path)
    requires BuiltWithStray(d, base, published, p)
    ensures Stuck(d, base, published, p)
  {
    forall k | 0 <= k < |published|
      ensures published[k].path in PathsOf(published)
    {
      assert published[k] in published;
    }
    assert p !in d - {p};
  }

  lemma StuckDiffers(d: Dest, base: Dest, published: seq<Record>, q: Path)
    requires Stuck(d, base, published, q)
    ensures d != base
  {
  }

  lemma WriteIsOurs(w: World, obj: nat, offset: nat, data: seq<Byte>, state: nat)
    ensures WriteAt(w, obj, offset, data, state).objects == w.objects
  {
  }

  lemma StatIsOurs(w: World, obj: nat, state: nat)
    ensures Stat(w, obj, state).objects == w.objects
  {
  }

  lemma CopyIsThere(before: Dest, d: Dest, r: Record, bytes: seq<Byte>)
    requires Copying(before, d, r, bytes)
    ensures r.path in d && d[r.path].File? && d[r.path].obj == r.obj
  {
  }

  lemma CopyIsAt(before: Dest, d: Dest, r: Record, bytes: seq<Byte>, q: Path)
    requires Copying(before, d, r, bytes) && q in d && d[q].obj == r.obj
    ensures q == r.path
  {
  }

  lemma CopyIsRecorded(created: Dest, d: Dest, base: Dest, published: seq<Record>, state: nat, bytes: seq<Byte>)
    requires Built(created, base, published) && published != []
    requires var r := published[|published| - 1];
      Copying(created, d, r, bytes) && !r.isDirectory && d[r.path].state == state
    ensures Built(d, base, Restat(published, state))
    ensures StatesMatch(created, published, |published|) ==> StatesMatch(d, Restat(published, state), |published|)
  {
    assert StatesMatch(created, published, |published|) ==> StatesMatch(created, published, |published| - 1);
    hide Built, StatesMatch;
    CopyKeepsBuilt(created, d, base, published, bytes);
    RestatKeepsBuilt(d, base, published, state);
  }

  // ---- What comes of it when nothing goes wrong ----

  datatype Result = Done | AlreadyExists | Failed

  /** An exclusive create at `p`. */
  function Exclusive(d: Dest, p: Path): Result {
    if p in d then AlreadyExists else if Free(d, p) then Done else Failed
  }

  /** Publishing at a free path. */
  function Verdict(tree: Tree): Result
    decreases tree, 1
  {
    match tree
    case FileTree(_) => Done
    case DirTree(entries) => VerdictOf(entries)
    case SpecialTree => Failed
  }

  /** Publishing into a new folder: the first entry that cannot be published decides. */
  function VerdictOf(entries: seq<Entry>): Result
    decreases entries, 0
  {
    if entries == [] then Done
    else
      var front, last := entries[..|entries| - 1], entries[|entries| - 1];
      if VerdictOf(front) != Done then VerdictOf(front)
      else if last.tree.SpecialTree? then Failed
      else if HasName(front, last.name) then AlreadyExists
      else Verdict(last.tree)
  }

  predicate HasName(entries: seq<Entry>, name: string) { exists e <- entries :: e.name == name }

  function VerdictAt(tree: Tree, d: Dest, p: Path): Result {
    if tree.SpecialTree? then Failed
    else if Exclusive(d, p) != Done then Exclusive(d, p)
    else Verdict(tree)
  }

  predicate NoSpecial(tree: Tree) {
    match tree
    case FileTree(_) => true
    case DirTree(entries) => forall e <- entries :: NoSpecial(e.tree)
    case SpecialTree => false
  }

  /** No folder lists a name twice. */
  predicate NamesDistinct(tree: Tree) {
    tree.DirTree? ==>
      && (forall i, j :: 0 <= i < j < |tree.entries| ==> tree.entries[i].name != tree.entries[j].name)
      && (forall e <- tree.entries :: NamesDistinct(e.tree))
  }

  lemma {:induction false} VerdictExactly(tree: Tree)
    ensures Verdict(tree) == Done <==> NoSpecial(tree) && NamesDistinct(tree)
    ensures NamesDistinct(tree) ==> Verdict(tree) != AlreadyExists
    decreases tree, 1
  {
    if tree.DirTree? {
      VerdictOfExactly(tree.entries);
      assert tree.entries[..|tree.entries|] == tree.entries;
    }
  }

  lemma {:induction false} VerdictOfExactly(entries: seq<Entry>)
    ensures VerdictOf(entries) == Done <==> NoSpecial(DirTree(entries)) && NamesDistinct(DirTree(entries))
    ensures NamesDistinct(DirTree(entries)) ==> VerdictOf(entries) != AlreadyExists
    decreases entries, 0
  {
    if entries != [] {
      var front, last := entries[..|entries| - 1], entries[|entries| - 1];
      VerdictOfExactly(front);
      VerdictExactly(last.tree);
      assert entries == front + [last];
      hide Verdict, VerdictOf;
      LastOfTree(front, last);
      LastVerdict(front, last);
    }
  }

  lemma LastVerdict(front: seq<Entry>, last: Entry)
    ensures VerdictOf(front + [last]) ==
              if VerdictOf(front) != Done then VerdictOf(front)
              else if last.tree.SpecialTree? then Failed
              else if HasName(front, last.name) then AlreadyExists
              else Verdict(last.tree)
  {
    assert (front + [last])[..|front|] == front;
    hide Verdict;
  }

  lemma LastOfTree(front: seq<Entry>, last: Entry)
    ensures NoSpecial(DirTree(front + [last])) <==> NoSpecial(DirTree(front)) && NoSpecial(last.tree)
    ensures NamesDistinct(DirTree(front + [last])) <==>
              NamesDistinct(DirTree(front)) && NamesDistinct(last.tree) && !HasName(front, last.name)
    ensures last.tree.SpecialTree? ==> !NoSpecial(last.tree)
  {
    var all := front + [last];
    assert all[|front|] == last && forall i :: 0 <= i < |front| ==> all[i] == front[i];
    assert forall e :: e in all <==> e in front || e == last;
    assert HasName(front, last.name) <==> exists i :: 0 <= i < |front| && front[i].name == last.name;
  }

  /** The entries after the first that fails do not matter. */
  lemma {:induction false} VerdictStays(entries: seq<Entry>, n: nat)
    requires n <= |entries| && VerdictOf(entries[..n]) != Done
    ensures VerdictOf(entries) == VerdictOf(entries[..n])
    decreases |entries|
  {
    if n < |entries| {
      var front := entries[..|entries| - 1];
      assert front[..n] == entries[..n];
      VerdictStays(front, n);
    } else {
      assert entries[..n] == entries;
    }
  }

  ghost predicate EmptyFolder(d: Dest, p: Path) {
    p in d && d[p].Dir? && forall q :: q in d ==> !Below(q, p)
  }

  lemma NewFolderIsEmpty(w: World, p: Path, n: Node)
    requires Closed(w.dest) && p !in w.dest && n.Dir?
    ensures EmptyFolder(Create(w, p, n).dest, p)
  {
    forall q | q in w.dest
      ensures !Below(q, p)
    {
      if Below(q, p) { AncestorsExist(w.dest, q, |p|); }
    }
  }

  lemma {:induction false} ImageIsBelow(tree: Tree, p: Path)
    ensures forall q :: q in Image(tree, p) ==> q == p || Below(q, p)
    ensures !tree.SpecialTree? ==> p in Image(tree, p)
    decreases tree, 1
  {
    if tree.DirTree? {
      var root := map[p := DirShape];
      ImageOfIsBelow(tree.entries, p);
      assert forall q :: q in Image(tree, p) <==> q in root || q in ImageOf(tree.entries, p);
    }
  }

  /** What a folder's entries add lies below their names. */
  lemma {:induction false} ImageOfIsBelow(entries: seq<Entry>, p: Path)
    ensures forall q :: q in ImageOf(entries, p) ==> Below(q, p) && HasName(entries, q[|p|])
    ensures forall e :: e in entries && !e.tree.SpecialTree? ==> p + [e.name] in ImageOf(entries, p)
    decreases entries, 0
  {
    if entries != [] {
      var front, last := entries[..|entries| - 1], entries[|entries| - 1];
      ImageOfIsBelow(front, p);
      ImageIsBelow(last.tree, p + [last.name]);
      hide ImageOf, Image;
      assert entries == front + [last];
      LastImage(front, last, p);
      forall q | q in ImageOf(entries, p)
        ensures Below(q, p) && HasName(entries, q[|p|])
      {
        if q in ImageOf(front, p) {
          var e :| e in front && e.name == q[|p|];
          assert e in entries;
        } else {
          ChildIsBelow(q, p, last.name);
          assert last in entries;
        }
      }
    }
  }

  lemma LastImage(front: seq<Entry>, last: Entry, p: Path)
    ensures forall q :: q in ImageOf(front + [last], p) <==>
              q in ImageOf(front, p) || q in Image(last.tree, p + [last.name])
  {
    assert (front + [last])[..|front|] == front;
    hide Image;
  }

  lemma ChildIsBelow(q: Path, p: Path, name: string)
    requires q == p + [name] || Below(q, p + [name])
    ensures Below(q, p) && q[|p|] == name
  {
    assert (p + [name])[..|p|] == p;
    assert q[..|p| + 1] == p + [name];
    assert q[..|p|] == q[..|p| + 1][..|p|];
    assert q[|p|] == q[..|p| + 1][|p|];
  }

  /** In a folder that was empty, a name is taken exactly if an earlier entry has it. */
  lemma NameIsTaken(before: Dest, d: Dest, entries: seq<Entry>, p: Path, name: string)
    requires EmptyFolder(before, p) && Shapes(d) == Shapes(before) + ImageOf(entries, p)
    requires forall e :: e in entries ==> !e.tree.SpecialTree?
    ensures Exclusive(d, p + [name]) == if HasName(entries, name) then AlreadyExists else Done
  {
    ImageOfIsBelow(entries, p);
    hide ImageOf;
    var q := p + [name];
    assert Parent(q) == p && Below(q, p) && q[|p|] == name;
    assert forall x :: x in d <==> x in Shapes(d);
    assert forall x :: x in before <==> x in Shapes(before);
    assert q in d <==> q in ImageOf(entries, p);
    assert p in d && ShapeOf(d[p]) == Shapes(d)[p] == Shapes(before)[p] == DirShape;
  }

  // ---- The code ----

  /**
   * What the operating system answers is given from the start: `succeeds(k)` for the k-th call or check of
   * the abort signal, `links(k)` for the k-th hard link, `cleansUp(k)` for the k-th call that only tidies up
   * after a failure.
   */
  class Promoter {
    var w: World
    var published: seq<Record>
    ghost const base: Dest
    /** No third party acts. */
    const quiet: bool
    const succeeds: nat -> bool
    const links: nat -> bool
    const cleansUp: nat -> bool
    /** The calls made so far. */
    var calls: nat
    var linkCalls: nat
    var cleanups: nat
    /** Some call, hard links and tidying up not counted, has failed. */
    ghost var failed: bool
    /** Every call that only tidied up has succeeded so far. */
    var cleanupOk: bool
    /** Where an entry was created whose identity could not be read back. */
    ghost var stray: Option<Path>
    /** The objects promotion created, those it wrote to, and the entries it removed, as they were. */
    ghost var created: set<nat>
    ghost var written: seq<nat>
    ghost var removed: seq<Node>

    /** Promotion writes only to objects it created, and removes nothing that a third party has the last word on. */
    ghost predicate Harmless()
      reads this`created, this`written, this`removed
    {
      && (forall o <- written :: o in created) && created !! ObjectsOf(base)
      && (forall n <- removed :: !Foreign(n))
    }

    /** All calls from the one to the other succeed; hard links and tidying up are not among them. */
    ghost predicate AllWell(from: nat, until: nat) { forall k :: from <= k < until ==> succeeds(k) }

    /** So do all that tidy up. */
    ghost predicate CleansUp() { forall k :: cleansUp(k) }

    method Call() returns (ok: bool)
      modifies this`calls, this`failed
      ensures ok == succeeds(old(calls)) && calls == old(calls) + 1 && failed == (old(failed) || !ok)
    {
      ok := succeeds(calls);
      calls, failed := calls + 1, failed || !ok;
    }

    method LinkCall() returns (ok: bool)
      modifies this`linkCalls
      ensures ok == links(old(linkCalls)) && linkCalls == old(linkCalls) + 1
    {
      ok := links(linkCalls);
      linkCalls := linkCalls + 1;
    }

    method CleanupCall() returns (ok: bool)
      modifies this`cleanups, this`cleanupOk
      ensures ok == cleansUp(old(cleanups)) && cleanups == old(cleanups) + 1
      ensures cleanupOk == (old(cleanupOk) && ok)
    {
      ok := cleansUp(cleanups);
      cleanups, cleanupOk := cleanups + 1, cleanupOk && ok;
    }

    ghost predicate Sound()
      reads this`w, this`published, this`stray, this`created, this`written, this`removed, this`cleanupOk
    {
      && (CleansUp() ==> cleanupOk)
      && Good(w, published) && Harmless() && Closed(base) && created <= w.objects && ObjectsOf(base) <= w.objects
      && (forall k :: 0 <= k < |published| ==> published[k].obj in created)
    }

    ghost predicate Valid()
      reads this`w, this`published, this`stray, this`created, this`written, this`removed, this`cleanupOk
    {
      && Sound()
      && (quiet && stray.None? ==> Built(w.dest, base, published))
      && (quiet && stray.None? && cleanupOk ==> StatesMatch(w.dest, published, |published|))
      && (quiet && stray.Some? ==> BuiltWithStray(w.dest, base, published, stray.value))
      && (quiet && stray.Some? && cleanupOk ==> StatesMatch(w.dest - {stray.value}, published, |published|))
    }

    constructor (w: World, quiet: bool, succeeds: nat -> bool, links: nat -> bool, cleansUp: nat -> bool)
      requires Good(w, []) && forall p <- w.dest.Keys :: Foreign(w.dest[p])
      ensures Valid() && this.w == w && base == w.dest && this.quiet == quiet && cleanupOk && stray.None?
      ensures !failed && this.succeeds == succeeds && this.links == links && this.cleansUp == cleansUp
      ensures published == [] && removed == [] && written == [] && created == {}
    {
      this.w, this.base, this.quiet, this.published, this.cleanupOk := w, w.dest, quiet, [], true;
      this.succeeds, this.links, this.cleansUp := succeeds, links, cleansUp;
      calls, linkCalls, cleanups := 0, 0, 0;
      failed, stray, created, written, removed := false, None, {}, [], [];
      new;
      forall o | o in ObjectsOf(w.dest) ensures o in w.objects {
        var p :| p in w.dest && w.dest[p].obj == o;
        assert KnownNode(w, w.dest[p]);
      }
    }

    /** Third parties act while promotion waits, any number of times. */
    method Interfere(ghost open: Option<Record>)
      requires Good(w, published) && (open.Some? ==> Open(w, open.value))
      modifies this`w
      ensures Good(w, published) && (open.Some? ==> Open(w, open.value)) && old(w).objects <= w.objects
      ensures quiet ==> w == old(w)
    {
      hide Good, Open;
      if quiet { return; }
      var operations :| 0 <= operations;
      for i := 0 to operations
        invariant Good(w, published) && (open.Some? ==> Open(w, open.value)) && old(w).objects <= w.objects
      {
        var d: Dest := *;
        if Interference(w, d) {
          InterferenceKeepsGood(w, d, published);
          if open.Some? { InterferenceKeepsOpen(w, d, open.value); }
          w := Observe(w, d);
        }
      }
    }

    /** Third parties act before an entry is created. */
    method InterfereBefore()
      requires Valid() && stray.None?
      modifies this`w
      ensures Valid() && (quiet ==> w == old(w))
    {
      hide Good, Built, StatesMatch, Closed, ObjectsOf;
      Interfere(None);
    }

    /** The new entry and its record. */
    method Register(p: Path, n: Node)
      requires Valid() && stray.None? && Free(w.dest, p) && Made(n) && Unseen(n, w)
      modifies this`w, this`published, this`created
      ensures Valid() && published == old(published) + [RecordOf(p, n)] && Open(w, RecordOf(p, n))
      ensures w == Create(old(w), p, n) && created == old(created) + {n.obj}
      ensures quiet && n.File? ==> Copying(w.dest, w.dest, RecordOf(p, n), n.bytes)
    {
      hide Good, Built, BuiltWithStray, StatesMatch, Open, Closed, Copying, ObjectsOf, Unseen;
      CreateKeepsGood(w, p, n, published);
      NewObjectIsOurs(w, n);
      if quiet {
        CreateIsBuilt(w, base, published, p, n);
        if n.File? { StartCopy(w, p, n, published); }
      }
      w, published, created := Create(w, p, n), published + [RecordOf(p, n)], created + {n.obj};
    }

    /** The new entry without a record, as its identity could not be read back. */
    method LeaveStray(p: Path, n: Node)
      requires Valid() && stray.None? && Free(w.dest, p) && Made(n) && Unseen(n, w)
      modifies this`w, this`created, this`stray
      ensures Valid() && stray == Some(p) && n.obj in created && w == Create(old(w), p, n)
    {
      hide Good, Built, BuiltWithStray, StatesMatch, Open, Closed, ObjectsOf, Unseen;
      CreateKeepsGood(w, p, n, published);
      NewObjectIsOurs(w, n);
      if quiet { CreateStray(w, base, published, p, n); }
      w, created, stray := Create(w, p, n), created + {n.obj}, Some(p);
    }

    /** What the file system gives a new file or directory: an object and an identity that nothing else has. */
    method NewNode(isDirectory: bool, bytes: seq<Byte>) returns (n: Node)
      ensures Made(n) && Unseen(n, w) && n.Dir? == isDirectory && (n.File? ==> n.bytes == bytes)
    {
      SomeObjectIsNew(w.objects);
      UnreportedIsNew(w.ids);
      var obj :| IsNewObject(obj, w.objects);
      var id: Identity :| IsNew(id, w.ids);
      var state: nat := *;
      n := if isDirectory then Dir(obj, id, [Promotion]) else File(obj, id, [Promotion], state, bytes);
    }

    /**
     * An exclusive create: mkdir, link or open 'wx'.  A mkdir or an open is followed by a stat, and when that
     * fails the entry stays without a record; a link is recorded before its stat.
     */
    method Claim(p: Path, isDirectory: bool, bytes: seq<Byte>, byLink: bool) returns (r: Result, n: Node)
      requires Valid() && stray.None?
      modifies this`w, this`published, this`created, this`stray, this`calls, this`failed, this`linkCalls
      ensures Valid() && old(calls) <= calls && (r == Done || byLink ==> failed == old(failed))
      ensures quiet && !byLink && Exclusive(old(w).dest, p) == Done ==>
                (succeeds(old(calls)) && !succeeds(old(calls) + 1) ==> stray == Some(p))
      ensures r == Done ==> stray.None? && published == old(published) + [RecordOf(p, n)] && Open(w, RecordOf(p, n))
      ensures r == Done ==> Made(n) && n.Dir? == isDirectory && (n.File? ==> n.bytes == bytes)
      ensures r == Done && quiet ==> p !in old(w).dest && w == Create(old(w), p, n)
      ensures r == Done && quiet && n.File? ==> Copying(w.dest, w.dest, RecordOf(p, n), n.bytes)
      ensures r != Done ==> published == old(published)
      ensures r == AlreadyExists || byLink ==> stray.None?
      ensures r != Done && stray.None? && quiet ==> w == old(w)
      ensures quiet && AllWell(old(calls), calls) ==>
                r == (if byLink && !links(old(linkCalls)) then Failed else Exclusive(old(w).dest, p)) && stray.None?
      ensures quiet && r == AlreadyExists ==> p in old(w).dest
    {
      hide Valid, Open, Copying, Unseen;
      n := Dir(0, Identity(0, 0, 0), []);
      InterfereBefore();
      var ok: bool;
      if byLink { ok := LinkCall(); } else { ok := Call(); }
      if !ok { return Failed, n; }
      if p in w.dest { return AlreadyExists, n; }
      if !Free(w.dest, p) { return Failed, n; }
      n := NewNode(isDirectory, bytes);
      if !byLink {
        ok := Call();
        if !ok {
          LeaveStray(p, n);
          return Failed, n;
        }
      }
      Register(p, n);
      r := Done;
    }

    /** Between the exclusive open of a copy and the stat that records it; the last record is the copy's. */
    ghost predicate MidCopy()
      reads this`w, this`published, this`stray, this`created, this`written, this`removed, this`cleanupOk
    {
      && Sound() && stray.None?
      && published != [] && !Last().isDirectory && Open(w, Last())
    }

    function Last(): Record
      requires published != []
      reads this`published
    {
      published[|published| - 1]
    }

    /** One write, of part of the buffer. */
    method Write(data: seq<Byte>, ghost before: Dest, position: nat, ghost done: seq<Byte>)
      requires MidCopy() && position == |done| && (quiet ==> Copying(before, w.dest, Last(), done))
      modifies this`w, this`written
      ensures written == old(written) + [Last().obj]
      ensures MidCopy() && (quiet ==> Copying(before, w.dest, Last(), done + data))
    {
      hide Good, Closed, Open, Copying, WriteAt, ObjectsOf;
      var r, state: nat := Last(), *;
      WriteKeepsGood(w, r.obj, position, data, state, published);
      WriteKeepsOpen(w, r.obj, position, data, state, r);
      WriteIsOurs(w, r.obj, position, data, state);
      if quiet { WriteExtendsCopy(before, w, r, done, data, state); }
      written := written + [r.obj];
      w := WriteAt(w, r.obj, position, data, state);
    }

    /** Third parties act during a copy. */
    method InterfereMidCopy(ghost before: Dest, ghost done: seq<Byte>)
      requires MidCopy() && (quiet ==> Copying(before, w.dest, Last(), done))
      modifies this`w
      ensures quiet ==> w == old(w)
      ensures MidCopy() && (quiet ==> Copying(before, w.dest, Last(), done))
    {
      hide Good, Closed, Open, Copying, ObjectsOf;
      Interfere(Some(Last()));
    }

    /** The inner loop: short writes until the buffer is out.  A write that succeeds makes progress. */
    method WriteBuffer(position: nat, buffer: seq<Byte>, ghost before: Dest, ghost done: seq<Byte>) returns (ok: bool)
      requires MidCopy() && position == |done|
      requires quiet ==> Copying(before, w.dest, Last(), done)
      modifies this`w, this`written, this`calls, this`failed
      ensures MidCopy() && old(calls) <= calls && (AllWell(old(calls), calls) ==> ok) && (ok ==> failed == old(failed))
      ensures quiet ==>
                && Last().path in w.dest && w.dest[Last().path].File?
                && Copying(before, w.dest, Last(), w.dest[Last().path].bytes)
      ensures ok && quiet ==> w.dest[Last().path].bytes == done + buffer
    {
      hide Sound, Open, Copying;
      var put := 0;
      assert done + buffer[..0] == done;
      while put < |buffer|
        invariant put <= |buffer| && MidCopy() && old(calls) <= calls && failed == old(failed)
        invariant quiet ==> Copying(before, w.dest, Last(), done + buffer[..put])
      {
        var goesOn := Call();
        if !goesOn { break; }
        InterfereMidCopy(before, done + buffer[..put]);
        var didWrite := Call();
        if !didWrite { break; }
        var n: nat :| 0 < n <= |buffer| - put;
        Write(buffer[put..put + n], before, position + put, done + buffer[..put]);
        assert done + buffer[..put] + buffer[put..put + n] == done + buffer[..put + n];
        put := put + n;
      }
      ok := put == |buffer|;
      if quiet { BytesOfCopy(before, w.dest, Last(), done + buffer[..put]); }
      assert buffer[..|buffer|] == buffer;
    }

    /** The outer loop: short reads until the end of the source. */
    method CopyBytes(source: seq<Byte>) returns (ok: bool)
      requires MidCopy()
      requires quiet ==> Copying(w.dest, w.dest, Last(), [])
      modifies this`w, this`written, this`calls, this`failed
      ensures MidCopy() && old(calls) <= calls && (AllWell(old(calls), calls) ==> ok) && (ok ==> failed == old(failed))
      ensures quiet ==> Last().path in w.dest && w.dest[Last().path].File? &&
                        Copying(old(w).dest, w.dest, Last(), w.dest[Last().path].bytes)
      ensures ok && quiet ==> w.dest[Last().path].bytes == source
    {
      hide Sound, Open, Copying;
      var position := 0;
      if quiet { BytesOfCopy(w.dest, w.dest, Last(), []); }
      while true
        invariant position <= |source| && MidCopy() && old(calls) <= calls && failed == old(failed)
        invariant quiet ==>
                    && Last().path in w.dest && w.dest[Last().path].File?
                    && w.dest[Last().path].bytes == source[..position]
        invariant quiet ==> Copying(old(w).dest, w.dest, Last(), source[..position])
        decreases |source| - position
      {
        var goesOn := Call();
        if !goesOn { return false; }
        InterfereMidCopy(old(w).dest, source[..position]);
        var didRead := Call();
        if !didRead { return false; }
        if position == |source| { break; }
        var bytesRead: nat :| 0 < bytesRead <= COPY_CHUNK_BYTES && position + bytesRead <= |source|;
        var buffer := source[position..position + bytesRead];
        assert source[..position] + buffer == source[..position + bytesRead];
        var out := WriteBuffer(position, buffer, old(w).dest, source[..position]);
        if !out { return false; }
        position := position + bytesRead;
      }
      assert source[..position] == source;
      return true;
    }

    ghost predicate RecordIsCurrent()
      requires published != []
      reads this`w, this`published
    {
      Last().path in w.dest && w.dest[Last().path].File? && w.dest[Last().path].state == Last().state
    }

    /** A stat through the handle, stored in the record; `tidying` after a failure. */
    method UpdateRecord(tidying: bool, ghost before: Dest, ghost bytes: seq<Byte>) returns (ok: bool)
      requires MidCopy() && (quiet ==> Copying(before, w.dest, Last(), bytes))
      modifies this`w, this`published, this`calls, this`failed, this`cleanups, this`cleanupOk
      ensures old(calls) <= calls && (tidying ==> cleanupOk == (old(cleanupOk) && ok))
      ensures ok ==> failed == old(failed)
      ensures !tidying ==> ok == succeeds(old(calls)) && calls == old(calls) + 1 && cleanupOk == old(cleanupOk)
      ensures Sound() && published != [] && (quiet ==> Copying(before, w.dest, old(Last()), bytes))
      ensures !ok ==> MidCopy() && published == old(published)
      ensures ok ==> published == Restat(old(published), Last().state)
      ensures ok && quiet ==> RecordIsCurrent()
    {
      hide Good, Closed, Open, Copying, Stat, ObjectsOf;
      InterfereMidCopy(before, bytes);
      if tidying { ok := CleanupCall(); } else { ok := Call(); }
      if ok { Restate(before, bytes); }
    }

    /** The stat found the state of the file, wherever that is by now. */
    method Restate(ghost before: Dest, ghost bytes: seq<Byte>)
      requires MidCopy() && (quiet ==> Copying(before, w.dest, Last(), bytes))
      modifies this`w, this`published
      ensures Sound() && published != [] && (quiet ==> Copying(before, w.dest, old(Last()), bytes))
      ensures published == Restat(old(published), Last().state)
      ensures quiet ==> RecordIsCurrent()
    {
      hide Good, Closed, Open, Copying, Stat, ObjectsOf;
      var r, state: nat := Last(), *;
      if q: Path :| q in w.dest && w.dest[q].File? && w.dest[q].obj == r.obj {
        state := w.dest[q].state;
        if quiet { CopyIsAt(before, w.dest, r, bytes, q); }
      } else {
        if quiet { CopyIsThere(before, w.dest, r, bytes); }
      }
      StatKeepsGood(w, state, published);
      StatIsOurs(w, r.obj, state);
      if quiet { StatKeepsCopy(before, w, r, bytes, state); }
      w, published := Stat(w, r.obj, state), Restat(published, state);
    }

    /** The fallback copy. */
    method CopyFile(source: seq<Byte>, p: Path) returns (r: Result)
      requires Valid() && stray.None?
      modifies this
      ensures Valid()
      ensures r == Done || r == AlreadyExists ==> cleanupOk == old(cleanupOk) && stray.None?
      ensures r == Done ==> failed == old(failed)
      ensures r == Done && quiet ==> Shapes(w.dest) == Shapes(old(w).dest) + map[p := FileShape(source)]
      ensures old(calls) <= calls && (quiet && AllWell(old(calls), calls) ==> r == Exclusive(old(w).dest, p))
      ensures quiet && r == AlreadyExists ==> p in old(w).dest
    {
      hide Valid, Open, Shapes, Copying, Exclusive;
      var didOpen := Call();
      if !didOpen { return Failed; }
      var n: Node;
      r, n := Claim(p, false, [], false);
      if r != Done { return; }
      assert Last() == RecordOf(p, n);
      ClaimedIsOpen();
      r := CopyContents(source);
      if r == Done && quiet { CopyShapes(old(w), p, n, w.dest, source); }
    }

    lemma ClaimedIsOpen()
      requires Valid() && stray.None? && published != [] && !Last().isDirectory && Open(w, Last())
      ensures MidCopy()
    {
      hide Good, Open, Built, StatesMatch;
    }

    /** What follows once the file is claimed. */
    method CopyContents(source: seq<Byte>) returns (r: Result)
      requires Valid() && MidCopy() && (quiet ==> Copying(w.dest, w.dest, Last(), []))
      modifies this
      ensures Valid() && stray.None? && r != AlreadyExists
      ensures r == Done ==> cleanupOk == old(cleanupOk) && failed == old(failed)
      ensures r == Done && quiet ==> Copying(old(w).dest, w.dest, old(Last()), source)
      ensures old(calls) <= calls && (AllWell(old(calls), calls) ==> r == Done)
    {
      hide Good, Closed, Open, Copying, Built, StatesMatch, ObjectsOf;
      ghost var created, before := w.dest, published;
      var ok := CopyBytes(source);
      ghost var bytes := if quiet then w.dest[Last().path].bytes else [];
      if ok { ok := UpdateRecord(false, created, bytes); }
      if ok {
        if quiet { CopyIsRecorded(created, w.dest, base, before, Last().state, bytes); }
        var unlinked := Call();
        return if unlinked then Done else Failed;
      }
      RecordUnfinished(created, bytes);
      return Failed;
    }

    /** The stat after a copy that failed; when it fails too, the record is not current. */
    method RecordUnfinished(ghost before: Dest, ghost bytes: seq<Byte>)
      requires MidCopy() && (quiet ==> Copying(before, w.dest, Last(), bytes) && Built(before, base, published))
      requires quiet && cleanupOk ==> StatesMatch(before, published, |published|)
      modifies this`w, this`published, this`calls, this`failed, this`cleanups, this`cleanupOk
      ensures Valid() && stray.None? && old(calls) <= calls
    {
      hide Good, Closed, Open, Copying, Built, StatesMatch, ObjectsOf, BuiltWithStray;
      ghost var was := published;
      var restated := UpdateRecord(true, before, bytes);
      if restated {
        if quiet { CopyIsRecorded(before, w.dest, base, was, Last().state, bytes); }
      } else {
        if quiet { CopyKeepsBuilt(before, w.dest, base, published, bytes); }
      }
    }

    /** A hard link, or a copy when the link fails. */
    method PublishFile(source: seq<Byte>, p: Path) returns (r: Result)
      requires Valid() && stray.None?
      modifies this
      ensures Valid()
      ensures r == Done || r == AlreadyExists ==> cleanupOk == old(cleanupOk) && stray.None?
      ensures r == Done ==> failed == old(failed)
      ensures r == Done && quiet ==> Shapes(w.dest) == Shapes(old(w).dest) + map[p := FileShape(source)]
      ensures old(calls) <= calls && (quiet && AllWell(old(calls), calls) ==> r == Exclusive(old(w).dest, p))
      ensures quiet && r == AlreadyExists ==> p in old(w).dest
    {
      hide Valid, Shapes, Open, Copying;
      var sourceRead := Call();
      if !sourceRead { return Failed; }
      var n: Node;
      r, n := Claim(p, false, source, true);   // the hard link shares the source's inode
      if r == AlreadyExists { return; }
      if r == Failed {
        r := CopyFile(source, p);
        return;
      }
      if quiet { CreateShapes(old(w), p, n); }
      var readBack := Call();
      if !readBack { return Failed; }
      var goesOn := Call();
      if !goesOn { return Failed; }
      var unlinked := Call();
      return if unlinked then Done else Failed;
    }

    method PublishEntry(tree: Tree, p: Path) returns (r: Result)
      requires Valid() && stray.None?
      modifies this
      ensures Valid()
      ensures r == Done || r == AlreadyExists ==> cleanupOk == old(cleanupOk) && stray.None?
      ensures r == Done ==> failed == old(failed)
      ensures r == Done ==> !tree.SpecialTree?
      ensures r == Done && quiet ==> Shapes(w.dest) == Shapes(old(w).dest) + Image(tree, p)
      ensures old(calls) <= calls && (quiet && AllWell(old(calls), calls) ==> r == VerdictAt(tree, old(w).dest, p))
      ensures quiet && r == AlreadyExists ==> p in old(w).dest || !NamesDistinct(tree)
      decreases tree, 3
    {
      hide Valid, Shapes, NamesDistinct;
      match tree {
        case DirTree(_) => r := PublishDirectory(tree, p);
        case FileTree(bytes) => r := PublishFile(bytes, p);
        case SpecialTree => r := Failed;
      }
    }

    method PublishDirectory(tree: Tree, p: Path) returns (r: Result)
      requires Valid() && stray.None? && tree.DirTree?
      modifies this
      ensures Valid()
      ensures r == Done || r == AlreadyExists ==> cleanupOk == old(cleanupOk) && stray.None?
      ensures r == Done ==> failed == old(failed)
      ensures r == Done && quiet ==> p !in old(w).dest && Shapes(w.dest) == Shapes(old(w).dest) + Image(tree, p)
      ensures old(calls) <= calls && (quiet && AllWell(old(calls), calls) ==> r == VerdictAt(tree, old(w).dest, p))
      ensures quiet && r == AlreadyExists ==> p in old(w).dest || !NamesDistinct(tree)
      decreases tree, 2
    {
      PathsAreClosed();
      hide Valid, Image, Shapes, Open, Copying, NamesDistinct, EmptyFolder;
      var n: Node;
      r, n := Claim(p, true, [], false);
      if r != Done { return; }
      if quiet {
        CreateShapes(old(w), p, n);
        NewFolderIsEmpty(old(w), p, n);
      }
      var listed := Call();
      if !listed { return Failed; }
      r := PublishEntries(tree, p);
      DirectoryImage(Shapes(old(w).dest), tree, p);
    }

    /** One round of the loop. */
    method PublishNth(tree: Tree, i: nat, p: Path) returns (r: Result)
      requires Valid() && stray.None? && tree.DirTree? && i < |tree.entries|
      modifies this
      ensures Valid()
      ensures r == Done || r == AlreadyExists ==> cleanupOk == old(cleanupOk) && stray.None?
      ensures r == Done ==> failed == old(failed)
      ensures r == Done ==> !tree.entries[i].tree.SpecialTree?
      ensures var q := p + [tree.entries[i].name];
        && (r == Done && quiet ==> Shapes(w.dest) == Shapes(old(w).dest) + Image(tree.entries[i].tree, q))
        && (quiet && AllWell(old(calls), calls) ==> r == VerdictAt(tree.entries[i].tree, old(w).dest, q))
        && (quiet && r == AlreadyExists ==> q in old(w).dest || !NamesDistinct(tree.entries[i].tree))
      ensures old(calls) <= calls
      decreases tree, 0
    {
      hide *;
      ghost var from := calls;
      var goesOn := Call();
      NotAllWell(from, old(calls), calls);
      if !goesOn {
        NotAllWell(from, old(calls), calls);
        return Failed;
      }
      ghost var middle := calls;
      r := PublishEntry(tree.entries[i].tree, p + [tree.entries[i].name]);
      PartsWell(old(calls), middle, calls);
      NotAllWell(from, old(calls), calls);
      if r != Done { return; }
      ghost var until := calls;
      goesOn := Call();
      PartsWell(old(calls), until, calls);
      PartsWell(old(calls), middle, until);
      NotAllWell(until, old(calls), calls);
      if !goesOn { r := Failed; }
    }

    lemma NotAllWell(k: nat, from: nat, until: nat)
      ensures from <= k < until && AllWell(from, until) ==> succeeds(k)
    {
    }

    lemma PartsWell(from: nat, middle: nat, until: nat)
      ensures from <= middle <= until && AllWell(from, until) ==> AllWell(from, middle) && AllWell(middle, until)
    {
    }

    lemma PathsAreClosed()
      requires Valid()
      ensures Closed(w.dest)
    {
    }

    method PublishEntries(tree: Tree, p: Path) returns (r: Result)
      requires Valid() && stray.None? && tree.DirTree?
      modifies this
      ensures Valid()
      ensures r == Done || r == AlreadyExists ==> cleanupOk == old(cleanupOk) && stray.None?
      ensures r == Done ==> failed == old(failed)
      ensures r == Done && quiet ==> Shapes(w.dest) == Shapes(old(w).dest) + ImageOf(tree.entries, p)
      ensures old(calls) <= calls
      ensures quiet && EmptyFolder(old(w).dest, p) && AllWell(old(calls), calls) ==> r == VerdictOf(tree.entries)
      ensures quiet && EmptyFolder(old(w).dest, p) && r == AlreadyExists ==> !NamesDistinct(tree)
      decreases tree, 1
    {
      hide *;
      var entries := tree.entries;
      ghost var alone := quiet && EmptyFolder(w.dest, p);
      DirectoryImage(Shapes(w.dest), tree, p);
      NothingPublished();
      assert entries[..0] == [];
      for i := 0 to |entries|
        invariant Valid() && stray.None? && cleanupOk == old(cleanupOk) && old(calls) <= calls && failed == old(failed)
        invariant quiet ==> Shapes(w.dest) == Shapes(old(w).dest) + ImageOf(entries[..i], p)
        invariant forall e :: e in entries[..i] ==> !e.tree.SpecialTree?
        invariant alone && AllWell(old(calls), calls) ==> VerdictOf(entries[..i]) == Done
      {
        if alone { NameIsTaken(old(w).dest, w.dest, entries[..i], p, entries[i].name); }
        EntryVerdict(entries, i);
        VerdictHere(entries[i].tree, w.dest, p + [entries[i].name]);
        ghost var before := calls;
        r := PublishNth(tree, i, p);
        PartsWell(old(calls), before, calls);
        if r != Done { return; }
        NextImage(entries, i, p);
        assert entries[..i + 1] == entries[..i] + [entries[i]];
      }
      assert entries[..|entries|] == entries;
      ghost var from := calls;
      var goesOn := Call();
      NotAllWell(from, old(calls), calls);
      PartsWell(old(calls), from, calls);
      return if goesOn then Done else Failed;
    }

    /** If nothing interferes, undoing the first `n` records is all that is left to do. */
    ghost predicate Restoring(n: nat)
      reads this`w, this`published
    {
      n <= |published| && Built(w.dest, base, published[..n]) && StatesMatch(w.dest, published[..n], n)
    }

    ghost predicate Recognisable()
      reads this`published
    {
      forall k :: 0 <= k < |published| ==> Reported(published[k].id)
    }

    /**
     * Undo the records, last first, each with one try.  Without interference and with every clean-up call working, the
     * destination is restored if and only if every entry was recorded and can be recognised.
     */
    method Rollback()
      requires Valid()
      modifies this`w, this`cleanups, this`cleanupOk, this`removed
      ensures Harmless() && cleanups == old(cleanups) + |published|
      ensures quiet && CleansUp() ==> (w.dest == base <==> stray.None? && Recognisable())
      ensures quiet && !(stray.None? && Recognisable()) ==> w.dest != base
      ensures quiet && CleansUp() ==> w.dest == Undone(old(w).dest, published)
      ensures quiet && CleansUp() && stray.Some? && Recognisable() ==> StrayStays(w.dest, base, stray.value)
    {
      hide CleansUp, Good, Built, BuiltWithStray, StatesMatch, Closed, Stuck, UndoneOne, StrayStays;
      StrayOutcome();
      ghost var restorable := stray.None? && Recognisable();
      ghost var stuck: Path := [];
      if quiet && !restorable { stuck := StuckPath(); }
      var i := |published|;
      assert published[..i] == published;
      while i > 0
        invariant 0 <= i <= |published| && Good(w, published) && Harmless() && Closed(base)
        invariant quiet && cleanupOk && restorable ==> Restoring(i)
        invariant quiet && !restorable ==> Stuck(w.dest, base, published, stuck)
        invariant cleanups == old(cleanups) + |published| - i
        invariant (cleanupOk ==> old(cleanupOk)) && (CleansUp() ==> cleanupOk)
        invariant quiet && cleanupOk ==> Undone(w.dest, published[..i]) == Undone(old(w).dest, published)
      {
        i := i - 1;
        assert published[..i + 1][..i] == published[..i];
        UndoOne(i);
      }
      if quiet && cleanupOk && restorable {
        assert published[..0] == [];
        NothingLeft(w.dest, base);
      }
      if quiet && !restorable { StuckDiffers(w.dest, base, published, stuck); }
    }

    lemma StrayOutcome()
      requires Valid()
      ensures quiet && cleanupOk && stray.Some? && Recognisable() ==>
                StrayStays(Undone(w.dest, published), base, stray.value)
    {
      hide Known, Fits, Built, StatesMatch, Undone, StrayStays;
      if quiet && cleanupOk && stray.Some? && Recognisable() {
        StrayKeepsItsFolders(w.dest, base, published, stray.value);
      }
    }

    lemma StuckPath() returns (q: Path)
      requires Valid() && quiet && !(stray.None? && Recognisable())
      ensures Stuck(w.dest, base, published, q)
    {
      hide Good;
      if stray.Some? {
        q := stray.value;
        StrayIsStuck(w.dest, base, published, q);
      } else {
        var k :| 0 <= k < |published| && !Reported(published[k].id);
        q := published[k].path;
        assert published[k] in published;
        assert q in PathsOf(published);
      }
    }

    method UndoOne(i: nat)
      requires i < |published| && Good(w, published) && Harmless() && Closed(base)
      modifies this`w, this`cleanups, this`cleanupOk, this`removed
      ensures Good(w, published) && Harmless() && cleanups == old(cleanups) + 1
      ensures (cleanupOk ==> old(cleanupOk)) && (CleansUp() && old(cleanupOk) ==> cleanupOk)
      ensures quiet && cleanupOk && Recognisable() && old(Restoring(i + 1)) ==> Restoring(i)
      ensures quiet && cleanupOk ==> w.dest == UndoneOne(old(w).dest, published[i])
      ensures quiet ==> forall q :: Stuck(old(w).dest, base, published, q) ==> Stuck(w.dest, base, published, q)
    {
      hide Good, Built, StatesMatch, Closed, Stuck, Matches, Empty;
      Interfere(None);
      if quiet && Restoring(i + 1) && Reported(published[i].id) { LastOfRestoring(i); }
      var worked := Undo(i);
      if worked && quiet && Recognisable() && old(Restoring(i + 1)) { assert Removable(published[i], old(w).dest); }
    }

    /** The identity check and the removal: what matches the record goes, and nothing else. */
    method Undo(i: nat) returns (worked: bool)
      requires i < |published| && Good(w, published) && Harmless()
      modifies this`w, this`cleanups, this`cleanupOk, this`removed
      ensures Good(w, published) && Harmless() && cleanupOk == (old(cleanupOk) && worked)
      ensures worked == cleansUp(old(cleanups)) && cleanups == old(cleanups) + 1
      ensures w == if worked && Removable(published[i], old(w).dest) then Remove(old(w), published[i].path) else old(w)
      ensures removed == if worked && Removable(published[i], old(w).dest)
                then old(removed) + [old(w).dest[published[i].path]] else old(removed)
      ensures forall q :: Stuck(old(w).dest, base, published, q) ==> Stuck(w.dest, base, published, q)
    {
      hide Good, Closed, FitsRecord;
      var entry := published[i];
      worked := CleanupCall();
      if !worked { return; }
      if entry.path in w.dest && HasSameIdentity(w.dest[entry.path].id, entry.id) {
        var current := w.dest[entry.path];
        if !entry.isDirectory {
          if current.File? && current.state == entry.state { Discard(entry.path, i); }
        } else if current.Dir? && Empty(w.dest, entry.path) {
          Discard(entry.path, i);
        }
      }
    }

    lemma LastOfRestoring(i: nat)
      requires Closed(base) && i < |published| && Restoring(i + 1) && Reported(published[i].id)
      ensures Removable(published[i], w.dest)
      ensures Built(w.dest - {published[i].path}, base, published[..i])
      ensures StatesMatch(w.dest - {published[i].path}, published[..i], i)
    {
      hide Closed, Empty, ParentsFirst, PathsOf;
      LastIsRemovable(w.dest, base, published[..i + 1]);
      UnreportedIsUnrecognised(published[i].id, published[i].id);
      assert published[..i + 1][..i] == published[..i];
      assert published[..i + 1][i] == published[i];
    }

    /** unlink or rmdir. */
    method Discard(p: Path, ghost i: nat)
      requires i < |published| && p == published[i].path && Good(w, published) && Harmless() &&
                 Removable(published[i], w.dest)
      modifies this`w, this`removed
      ensures w == Remove(old(w), p) && Good(w, published) && Harmless()
      ensures removed == old(removed) + [old(w).dest[p]]
      ensures forall q :: Stuck(old(w).dest, base, published, q) ==> Stuck(w.dest, base, published, q)
    {
      hide Closed, ObjectsOf;
      RemoveKeepsGood(w, p, published);
      assert FitsRecord(published[i], w.dest[p]);
      UnreportedIsUnrecognised(w.dest[p].id, published[i].id);
      hide Good, FitsRecord, Matches, HasSameIdentity;
      removed := removed + [w.dest[p]];
      w := Remove(w, p);
    }

    /** The whole promotion.  DestinationExists is the rewritten EEXIST error. */
    method Promote(tree: Tree, root: Path) returns (r: Outcome)
      requires Valid() && published == [] && stray.None? && w.dest == base && cleanupOk && tree.DirTree?
      modifies this
      ensures Harmless()
      ensures r == Promoted && quiet ==> root !in base && Shapes(w.dest) == Shapes(base) + Image(tree, root)
      ensures r == Promoted && quiet ==> forall p :: p in base ==> p in w.dest && w.dest[p] == base[p]
      ensures r != Promoted && quiet && CleansUp() ==> (w.dest == base <==> stray.None? && Recognisable())
      ensures r != Promoted && quiet && !(stray.None? && Recognisable()) ==> w.dest != base
      ensures r != Promoted && quiet && CleansUp() && stray.Some? && Recognisable() ==>
                StrayStays(w.dest, base, stray.value)
      ensures r == Promoted ==> failed == old(failed)
      ensures quiet && AllWell(old(calls), calls) ==> r == OutcomeOf(VerdictAt(tree, base, root))
      ensures quiet && AllWell(old(calls), calls) && Free(base, root) ==>
                (r == Promoted <==> NoSpecial(tree) && NamesDistinct(tree))
      ensures quiet && AllWell(old(calls), calls) && root in base ==> r == DestinationExists
      ensures quiet && r == DestinationExists && NamesDistinct(tree) ==> root in base
    {
      VerdictExactly(tree);
      hide Good, Shapes, Image, StatesMatch, Stuck, Closed, BuiltWithStray, StrayStays, NamesDistinct, NoSpecial,
        Verdict;
      var goesOn := Call();
      if !goesOn { return OtherError; }
      var result := PublishDirectory(tree, root);
      if result == Done { return Promoted; }
      Rollback();
      return OutcomeOf(result);
    }
  }

  datatype Outcome = Promoted | DestinationExists | OtherError

  function OutcomeOf(r: Result): Outcome {
    match r case Done => Promoted case AlreadyExists => DestinationExists case Failed => OtherError
  }
}
