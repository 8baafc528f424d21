/**
 * The build guard that keeps electron out of plain-Node entries
 * (build-plugins/plain-node-entry-guard.ts): a worklist over import edges.
 */
module ChunkGuard {
  import opened Options

  type FileName = string

  /** `requiresElectron` stands for the regular expression matching the chunk's code. */
  datatype Chunk = Chunk(fileName: FileName, imports: seq<FileName>, dynamicImports: seq<FileName>,
                         requiresElectron: bool)
  {
    function Edges(): seq<FileName> { imports + dynamicImports }
  }

  type Bundle = map<FileName, Chunk>

  /** The map is keyed by the chunks' own names. */
  ghost predicate Keyed(bundle: Bundle) { forall f <- bundle :: bundle[f].fileName == f }

  /** A chain of imports; its last name need not be in the bundle. */
  ghost predicate ImportChain(chain: seq<FileName>, bundle: Bundle) {
    && chain != []
    && forall i :: 0 <= i < |chain| - 1 ==>
         && chain[i] in bundle
         && (chain[i + 1] in bundle[chain[i]].imports || chain[i + 1] in bundle[chain[i]].dynamicImports)
  }

  ghost predicate Reaches(entry: FileName, f: FileName, bundle: Bundle) {
    exists chain :: ImportChain(chain, bundle) && chain[0] == entry && chain[|chain| - 1] == f
  }

  lemma EntryReachesItself(entry: FileName, bundle: Bundle)
    ensures Reaches(entry, entry, bundle)
  {
    assert ImportChain([entry], bundle);
  }

  lemma ReachesOnward(entry: FileName, f: FileName, g: FileName, bundle: Bundle)
    requires Reaches(entry, f, bundle) && f in bundle && g in bundle[f].Edges()
    ensures Reaches(entry, g, bundle)
  {
    var chain :| ImportChain(chain, bundle) && chain[0] == entry && chain[|chain| - 1] == f;
    assert ImportChain(chain + [g], bundle);
  }

  lemma {:induction false} ClosedUnderChains(chain: seq<FileName>, bundle: Bundle, seen: set<FileName>)
    requires ImportChain(chain, bundle) && chain[0] in seen
    requires forall f <- seen :: f in bundle ==> forall g <- bundle[f].Edges() :: g in seen
    ensures chain[|chain| - 1] in seen
    decreases |chain|
  {
    if |chain| > 1 {
      ClosedUnderChains(chain[..|chain| - 1], bundle, seen);
    }
  }

  /** Every name that occurs at all: what bounds the search. */
  ghost function Names(entry: FileName, bundle: Bundle): set<FileName> {
    {entry} + set f <- bundle.Keys, g <- bundle[f].Edges() :: g
  }

  ghost predicate Explored(bundle: Bundle, seen: set<FileName>, stack: seq<FileName>) {
    forall f <- seen :: f in bundle ==> forall g <- bundle[f].Edges() :: g in seen || g in stack
  }

  /** The chunks listed are the bundle's chunks with names in `seen`, each once. */
  ghost predicate Lists(bundle: Bundle, seen: set<FileName>, reachable: seq<Chunk>) {
    && (forall c <- reachable :: c.fileName in seen && c.fileName in bundle && bundle[c.fileName] == c)
    && (forall f <- seen :: f in bundle ==> bundle[f] in reachable)
    && (forall i, j :: 0 <= i < j < |reachable| ==> reachable[i].fileName != reachable[j].fileName)
  }

  lemma ListsOne(bundle: Bundle, seen: set<FileName>, reachable: seq<Chunk>, f: FileName)
    requires Keyed(bundle) && Lists(bundle, seen, reachable) && f !in seen
    ensures Lists(bundle, seen + {f}, if f in bundle then reachable + [bundle[f]] else reachable)
  {
  }

  lemma ExploresOne(bundle: Bundle, seen: set<FileName>, stack: seq<FileName>, f: FileName)
    requires Explored(bundle, seen, stack + [f])
    ensures Explored(bundle, seen + {f}, if f in bundle then stack + bundle[f].Edges() else stack)
    ensures f in seen ==> Explored(bundle, seen, stack)
  {
  }

  lemma ReachesEdges(entry: FileName, f: FileName, bundle: Bundle)
    requires Reaches(entry, f, bundle) && f in bundle
    ensures forall g <- bundle[f].Edges() :: Reaches(entry, g, bundle) && g in Names(entry, bundle)
  {
    forall g | g in bundle[f].Edges()
      ensures Reaches(entry, g, bundle)
    {
      ReachesOnward(entry, f, g, bundle);
    }
  }

  method CollectReachableChunks(entry: FileName, bundle: Bundle) returns (reachable: seq<Chunk>)
    requires Keyed(bundle)
    ensures forall c <- reachable ::
              Reaches(entry, c.fileName, bundle) && c.fileName in bundle && bundle[c.fileName] == c
    ensures forall f :: Reaches(entry, f, bundle) && f in bundle ==> bundle[f] in reachable
    ensures forall i, j :: 0 <= i < j < |reachable| ==> reachable[i].fileName != reachable[j].fileName
  {
    var seen: set<FileName> := {};
    reachable := [];
    var stack := [entry];
    EntryReachesItself(entry, bundle);
    assert entry in Names(entry, bundle);
    assert Explored(bundle, seen, stack) && Lists(bundle, seen, reachable);
    hide Reaches, Explored, Lists, Names;
    while |stack| > 0
      invariant forall f <- seen :: Reaches(entry, f, bundle) && f in Names(entry, bundle)
      invariant forall f <- stack :: Reaches(entry, f, bundle) && f in Names(entry, bundle)
      invariant entry in seen || entry in stack
      invariant Explored(bundle, seen, stack)
      invariant Lists(bundle, seen, reachable)
      decreases Names(entry, bundle) - seen, |stack|
    {
      var fileName := stack[|stack| - 1];
      assert stack == stack[..|stack| - 1] + [fileName];
      stack := stack[..|stack| - 1];
      ExploresOne(bundle, seen, stack, fileName);
      if fileName in seen {
        continue;
      }
      ListsOne(bundle, seen, reachable, fileName);
      seen := seen + {fileName};
      if fileName !in bundle {
        continue;
      }
      var chunk := bundle[fileName];
      reachable := reachable + [chunk];
      ReachesEdges(entry, fileName, bundle);
      stack := stack + (chunk.imports + chunk.dynamicImports);
    }
    Complete(entry, bundle, seen);
    ListedOnce(bundle, seen, reachable);
  }

  lemma ListedOnce(bundle: Bundle, seen: set<FileName>, reachable: seq<Chunk>)
    requires Lists(bundle, seen, reachable)
    ensures forall c <- reachable :: c.fileName in seen && c.fileName in bundle && bundle[c.fileName] == c
    ensures forall f <- seen :: f in bundle ==> bundle[f] in reachable
    ensures forall i, j :: 0 <= i < j < |reachable| ==> reachable[i].fileName != reachable[j].fileName
  {
  }

  lemma Complete(entry: FileName, bundle: Bundle, seen: set<FileName>)
    requires entry in seen && Explored(bundle, seen, [])
    ensures forall f :: Reaches(entry, f, bundle) ==> f in seen
  {
    forall f | Reaches(entry, f, bundle)
      ensures f in seen
    {
      var chain :| ImportChain(chain, bundle) && chain[0] == entry && chain[|chain| - 1] == f;
      ClosedUnderChains(chain, bundle, seen);
    }
  }

  /** None: the guard passes.  Some(f): it throws, naming chunk f. */
  method AssertNoElectronRequire(entry: FileName, bundle: Bundle) returns (offender: Option<FileName>)
    requires Keyed(bundle)
    ensures offender.None? <==> forall f :: Reaches(entry, f, bundle) && f in bundle ==> !bundle[f].requiresElectron
    ensures offender.Some? ==>
              && Reaches(entry, offender.value, bundle) && offender.value in bundle
              && bundle[offender.value].requiresElectron
  {
    hide Reaches;
    var chunks := CollectReachableChunks(entry, bundle);
    for i := 0 to |chunks|
      invariant forall k :: 0 <= k < i ==> !chunks[k].requiresElectron
    {
      assert chunks[i] in chunks;
      if chunks[i].requiresElectron { return Some(chunks[i].fileName); }
    }
    return None;
  }
}
