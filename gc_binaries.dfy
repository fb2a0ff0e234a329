/** The binary garbage collector of the CSI driver. Under an environment
    directory E = <root>/<data>/<env>, the ledger E/gc/<version>/ holds one
    marker per pod that still uses <version>; a version whose ledger is empty
    and that is not the latest one loses E/bin/<version>-default,
    E/bin/<version>-musl and its ledger directory. */
module BinaryGc {
  import opened Paths
  import opened Wrappers
  import opened Fs

  /** The name of the ledger directory inside an environment directory. */
  const GarbageCollectionPath := "gc"

  function GcDir(env: Path): Path {
    Child(env, GarbageCollectionPath)
  }

  function BinDir(env: Path): Path {
    Child(env, "bin")
  }

  /** The environment directory <root>/<data>/<env> as filepath.Join cleans it. */
  function EnvDir(rootDir: string, dataPath: string, envID: string): Path {
    Clean(Join([rootDir, dataPath, envID]))
  }

  // ---------------------------------------------------------------------------
  // The pass, as a function of the filesystem state

  /** What the loop body does for one ledger entry v. */
  function GcStep(nodes: Nodes, faults: Faults, env: Path, latest: string, v: string): Outcome {
    if v == latest then Outcome(None, nodes)
    else match ReadDirPath(nodes, faults, Child(GcDir(env), v))
      case Err(e) => Outcome(Some(e), nodes)
      case Ok(subDirs) =>
        if subDirs != {} then Outcome(None, nodes)
        else RemoveVersion(nodes, faults, env, v)
  }

  /** The three removals for an unused version, in order, stopping at the first error. */
  function RemoveVersion(nodes: Nodes, faults: Faults, env: Path, v: string): Outcome {
    var o1 := RemoveAllPath(nodes, faults, Child(BinDir(env), v + "-default"));
    if o1.err.Some? then o1
    else
      var o2 := RemoveAllPath(o1.nodes, faults, Child(BinDir(env), v + "-musl"));
      if o2.err.Some? then o2
      else RemoveAllPath(o2.nodes, faults, Child(GcDir(env), v))
  }

  /** The loop over the listed ledger entries, stopping at the first error. */
  function GcLoop(nodes: Nodes, faults: Faults, env: Path, latest: string, entries: seq<string>): Outcome
    decreases |entries|
  {
    if entries == [] then Outcome(None, nodes)
    else
      var o := GcStep(nodes, faults, env, latest, entries[0]);
      if o.err.Some? then o else GcLoop(o.nodes, faults, env, latest, entries[1..])
  }

  /** The whole pass, given the order in which the listing of E/gc came back. */
  function GcPass(nodes: Nodes, faults: Faults, env: Path, latest: string, listing: seq<string>): Outcome {
    match ReadDirPath(nodes, faults, GcDir(env))
      case Err(NotExist) => Outcome(None, nodes)
      case Err(e) => Outcome(Some(e), nodes)
      case Ok(_) => GcLoop(nodes, faults, env, latest, listing)
  }

  // ---------------------------------------------------------------------------
  // What a pass removes

  /** A version is collected when it is not the latest and its ledger reads as empty. */
  predicate Collectable(nodes: Nodes, faults: Faults, env: Path, latest: string, v: string) {
    v != latest && ReadDirPath(nodes, faults, Child(GcDir(env), v)) == Ok({})
  }

  /** k is one of the three paths deleted for version v, or lies below one. */
  predicate Doomed(k: Path, env: Path, v: string) {
    || Under(k, Child(BinDir(env), v + "-default"))
    || Under(k, Child(BinDir(env), v + "-musl"))
    || Under(k, Child(GcDir(env), v))
  }

  ghost predicate RemovedBy(k: Path, env: Path, versions: set<string>) {
    exists v :: v in versions && Doomed(k, env, v)
  }

  /** The state with every path of the given versions deleted. */
  ghost function Sweep(nodes: Nodes, env: Path, versions: set<string>): Nodes {
    map k | k in nodes && !RemovedBy(k, env, versions) :: nodes[k]
  }

  ghost function Collected(nodes: Nodes, faults: Faults, env: Path, latest: string, entries: seq<string>): set<string> {
    set v | v in entries && Collectable(nodes, faults, env, latest, v)
  }

  predicate Distinct(entries: seq<string>) {
    forall i, j :: 0 <= i < j < |entries| ==> entries[i] != entries[j]
  }

  // ---------------------------------------------------------------------------
  // Disjointness of the paths of different versions

  lemma SuffixesDiffer(a: string, b: string)
    ensures a + "-default" != b + "-musl"
    ensures a + "-default" == b + "-default" ==> a == b
    ensures a + "-musl" == b + "-musl" ==> a == b
  {
    assert (a + "-default")[|a| + 7] == 't';
    assert (b + "-musl")[|b| + 4] == 'l';
    if a + "-default" == b + "-default" {
      assert (a + "-default")[..|a|] == a;
      assert (b + "-default")[..|b|] == b;
    }
    if a + "-musl" == b + "-musl" {
      assert (a + "-musl")[..|a|] == a;
      assert (b + "-musl")[..|b|] == b;
    }
  }

  /** Where the paths of version v sit: two levels below E, in bin/ or in the ledger. */
  lemma DoomedShape(k: Path, env: Path, v: string)
    ensures Doomed(k, env, v) ==>
      var i := |env.segs|;
      && |k.segs| >= i + 2
      && ((k.segs[i] == "bin" && (k.segs[i + 1] == v + "-default" || k.segs[i + 1] == v + "-musl"))
          || (k.segs[i] == GarbageCollectionPath && k.segs[i + 1] == v))
  {
    var i := |env.segs|;
    if Doomed(k, env, v) {
      assert k.segs[i] == k.segs[..i + 2][i];
      assert k.segs[i + 1] == k.segs[..i + 2][i + 1];
    }
  }

  /** The paths of a version nobody collects are deleted by no other version. */
  lemma KeptVersion(k: Path, env: Path, versions: set<string>, v: string)
    requires v !in versions && Doomed(k, env, v)
    ensures !RemovedBy(k, env, versions)
  {
    DoomedShape(k, env, v);
    forall u | u in versions
      ensures !Doomed(k, env, u)
    {
      DoomedShape(k, env, u);
      SuffixesDiffer(v, u);
      SuffixesDiffer(u, v);
    }
  }

  /** The ledger E/gc/w and what it lists are unaffected by sweeping other versions. */
  lemma LedgerStable(nodes: Nodes, faults: Faults, env: Path, versions: set<string>, w: string)
    requires w !in versions
    ensures ReadDirPath(Sweep(nodes, env, versions), faults, Child(GcDir(env), w))
         == ReadDirPath(nodes, faults, Child(GcDir(env), w))
  {
    var q := Child(GcDir(env), w);
    var swept := Sweep(nodes, env, versions);
    assert Doomed(q, env, w);
    KeptVersion(q, env, versions, w);
    forall n
      ensures n in ChildNames(swept, q) <==> n in ChildNames(nodes, q)
    {
      ChildNamesSpec(swept, q, n);
      ChildNamesSpec(nodes, q, n);
      assert Doomed(Child(q, n), env, w);
      KeptVersion(Child(q, n), env, versions, w);
    }
    assert ChildNames(swept, q) == ChildNames(nodes, q);
    forall j | 0 < j < |q.segs|
      ensures IsFileAt(swept, Path(q.rooted, q.segs[..j])) == IsFileAt(nodes, Path(q.rooted, q.segs[..j]))
    {
      var a := Path(q.rooted, q.segs[..j]);
      forall u ensures !Doomed(a, env, u) {
        DoomedShape(a, env, u);
      }
    }
    assert BlockedByFile(swept, q) == BlockedByFile(nodes, q);
  }

  /** Sweeping nothing changes nothing; sweeping twice is sweeping the union. */
  lemma SweepEmpty(nodes: Nodes, env: Path)
    ensures Sweep(nodes, env, {}) == nodes
  {
  }

  lemma SweepUnion(nodes: Nodes, env: Path, a: set<string>, b: set<string>)
    ensures Sweep(Sweep(nodes, env, a), env, b) == Sweep(nodes, env, a + b)
  {
    forall k | k in nodes
      ensures RemovedBy(k, env, a + b) <==> RemovedBy(k, env, a) || RemovedBy(k, env, b)
    {
      if RemovedBy(k, env, a + b) {
        var v :| v in a + b && Doomed(k, env, v);
      }
    }
  }

  /** One step: a collectable version is swept, any other leaves the state as it is;
      an error leaves a state between the two. */
  lemma StepEffect(nodes: Nodes, faults: Faults, env: Path, latest: string, v: string)
    ensures var o := GcStep(nodes, faults, env, latest, v);
      && (forall k :: k in o.nodes ==> k in nodes && o.nodes[k] == nodes[k])
      && (forall k :: k in nodes && k !in o.nodes ==> Collectable(nodes, faults, env, latest, v) && Doomed(k, env, v))
      && (o.err.None? ==> o.nodes == if Collectable(nodes, faults, env, latest, v) then Sweep(nodes, env, {v}) else nodes)
      && (o.err.None? && v != latest ==> ReadDirPath(nodes, faults, Child(GcDir(env), v)).Ok?)
  {
    var o := GcStep(nodes, faults, env, latest, v);
    if Collectable(nodes, faults, env, latest, v) {
      assert o == RemoveVersion(nodes, faults, env, v);
      RemoveVersionEffect(nodes, faults, env, v);
      SweepOne(nodes, env, v);
    }
  }

  /** Sweeping a single version deletes exactly its doomed paths. */
  lemma SweepOne(nodes: Nodes, env: Path, v: string)
    ensures Sweep(nodes, env, {v}) == map k | k in nodes && !Doomed(k, env, v) :: nodes[k]
  {
    forall k | k in nodes
      ensures RemovedBy(k, env, {v}) <==> Doomed(k, env, v)
    {
      if Doomed(k, env, v) {
        assert v in {v};
      }
    }
  }

  /** The three removals delete exactly the doomed paths of v when they succeed,
      and nothing else in any case. */
  lemma RemoveVersionEffect(nodes: Nodes, faults: Faults, env: Path, v: string)
    ensures var o := RemoveVersion(nodes, faults, env, v);
      && (forall k :: k in o.nodes ==> k in nodes && o.nodes[k] == nodes[k])
      && (forall k :: k in nodes && k !in o.nodes ==> Doomed(k, env, v))
      && (o.err.None? ==> o.nodes == map k | k in nodes && !Doomed(k, env, v) :: nodes[k])
  {
    var pd, pm, pg := Child(BinDir(env), v + "-default"), Child(BinDir(env), v + "-musl"), Child(GcDir(env), v);
    var o1 := RemoveAllPath(nodes, faults, pd);
    if o1.err.None? {
      var o2 := RemoveAllPath(o1.nodes, faults, pm);
      if o2.err.None? {
        var o3 := RemoveAllPath(o2.nodes, faults, pg);
        if o3.err.None? {
          var m := map k | k in nodes && !Doomed(k, env, v) :: nodes[k];
          forall k
            ensures k in o3.nodes <==> k in m
          {
          }
          assert o3.nodes == m;
        }
      }
    }
  }

  /** The pass over a listing: it deletes only paths of collectable versions and
      changes no other entry; when it succeeds it has deleted all of them, and
      every non-latest ledger it met could be read. */
  lemma {:induction false} LoopEffect(nodes: Nodes, faults: Faults, env: Path, latest: string, entries: seq<string>)
    requires Distinct(entries)
    ensures var o := GcLoop(nodes, faults, env, latest, entries);
      var c := Collected(nodes, faults, env, latest, entries);
      && (forall k :: k in o.nodes ==> k in nodes && o.nodes[k] == nodes[k])
      && (forall k :: k in nodes && k !in o.nodes ==> RemovedBy(k, env, c))
      && (o.err.None? ==> o.nodes == Sweep(nodes, env, c))
      && (o.err.None? ==> forall v :: v in entries && v != latest ==> ReadDirPath(nodes, faults, Child(GcDir(env), v)).Ok?)
    decreases |entries|
  {
    var c := Collected(nodes, faults, env, latest, entries);
    if entries == [] {
      assert c == {};
      SweepEmpty(nodes, env);
    } else {
      var v, rest := entries[0], entries[1..];
      var s := GcStep(nodes, faults, env, latest, v);
      StepEffect(nodes, faults, env, latest, v);
      var mine: set<string> := if Collectable(nodes, faults, env, latest, v) then {v} else {};
      if s.err.Some? {
        forall k | k in nodes && k !in s.nodes
          ensures RemovedBy(k, env, c)
        {
          assert v in c && Doomed(k, env, v);
        }
      } else {
        assert Distinct(rest) by {
          forall i, j | 0 <= i < j < |rest| ensures rest[i] != rest[j] {
            assert rest[i] == entries[i + 1] && rest[j] == entries[j + 1];
          }
        }
        assert v !in rest by {
          forall i | 0 <= i < |rest| ensures rest[i] != v {
            assert rest[i] == entries[i + 1];
          }
        }
        assert s.nodes == Sweep(nodes, env, mine) by {
          if mine == {} {
            SweepEmpty(nodes, env);
          }
        }
        // The ledgers of the remaining versions read the same after this step.
        forall w | w in rest
          ensures ReadDirPath(s.nodes, faults, Child(GcDir(env), w)) == ReadDirPath(nodes, faults, Child(GcDir(env), w))
        {
          LedgerStable(nodes, faults, env, mine, w);
        }
        var cr := Collected(s.nodes, faults, env, latest, rest);
        assert cr == Collected(nodes, faults, env, latest, rest);
        assert c == mine + cr;
        LoopEffect(s.nodes, faults, env, latest, rest);
        SweepUnion(nodes, env, mine, cr);
        var o := GcLoop(s.nodes, faults, env, latest, rest);
        forall k | k in nodes && k !in o.nodes
          ensures RemovedBy(k, env, c)
        {
          if k in s.nodes {
            assert RemovedBy(k, env, cr);
            var u :| u in cr && Doomed(k, env, u);
            assert u in c;
          } else {
            assert v in c && Doomed(k, env, v);
          }
        }
      }
    }
  }

  // ---------------------------------------------------------------------------
  // Properties of the pass

  /** A missing ledger directory E/gc makes the pass a successful no-op. */
  lemma MissingLedgerIsNoop(nodes: Nodes, faults: Faults, env: Path, latest: string, listing: seq<string>)
    requires ReadDirPath(nodes, faults, GcDir(env)) == Err(NotExist)
    ensures GcPass(nodes, faults, env, latest, listing) == Outcome(None, nodes)
  {
  }

  /** Any other failure to list E/gc is returned and deletes nothing. */
  lemma LedgerReadErrorChangesNothing(nodes: Nodes, faults: Faults, env: Path, latest: string, listing: seq<string>)
    requires ReadDirPath(nodes, faults, GcDir(env)).Err?
    requires ReadDirPath(nodes, faults, GcDir(env)).error != NotExist
    ensures GcPass(nodes, faults, env, latest, listing) == Outcome(Some(ReadDirPath(nodes, faults, GcDir(env)).error), nodes)
  {
  }

  /** Whatever happens, the pass only deletes, and what it deletes are paths of
      listed versions that are not the latest and whose ledger was empty. */
  lemma {:induction false} PassOnlyDeletesCollectable(nodes: Nodes, faults: Faults, env: Path, latest: string, listing: seq<string>)
    requires Distinct(listing)
    ensures var o := GcPass(nodes, faults, env, latest, listing);
      && (forall k :: k in o.nodes ==> k in nodes && o.nodes[k] == nodes[k])
      && (forall k :: k in nodes && k !in o.nodes ==>
            exists v :: v in listing && v != latest
              && ReadDirPath(nodes, faults, Child(GcDir(env), v)) == Ok({}) && Doomed(k, env, v))
  {
    var o := GcPass(nodes, faults, env, latest, listing);
    if ReadDirPath(nodes, faults, GcDir(env)).Ok? {
      LoopEffect(nodes, faults, env, latest, listing);
      var c := Collected(nodes, faults, env, latest, listing);
      forall k | k in nodes && k !in o.nodes
        ensures exists v :: (v in listing && v != latest
          && ReadDirPath(nodes, faults, Child(GcDir(env), v)) == Ok({}) && Doomed(k, env, v))
      {
        var v :| v in c && Doomed(k, env, v);
      }
    }
  }

  /** The latest version is never deleted, even when its ledger is empty. */
  lemma {:induction false} LatestIsKept(nodes: Nodes, faults: Faults, env: Path, latest: string, listing: seq<string>, k: Path)
    requires Distinct(listing)
    requires k in nodes && Doomed(k, env, latest)
    ensures var o := GcPass(nodes, faults, env, latest, listing);
      k in o.nodes && o.nodes[k] == nodes[k]
  {
    if ReadDirPath(nodes, faults, GcDir(env)).Ok? {
      LoopEffect(nodes, faults, env, latest, listing);
      KeptVersion(k, env, Collected(nodes, faults, env, latest, listing), latest);
    }
  }

  /** A version whose ledger lists at least one pod keeps bin/<v>-default,
      bin/<v>-musl and gc/<v>, with everything below them. */
  lemma {:induction false} InUseIsKept(nodes: Nodes, faults: Faults, env: Path, latest: string, listing: seq<string>, v: string, k: Path)
    requires Distinct(listing)
    requires ReadDirPath(nodes, faults, Child(GcDir(env), v)).Ok?
    requires ReadDirPath(nodes, faults, Child(GcDir(env), v)).value != {}
    requires k in nodes && Doomed(k, env, v)
    ensures var o := GcPass(nodes, faults, env, latest, listing);
      k in o.nodes && o.nodes[k] == nodes[k]
  {
    if ReadDirPath(nodes, faults, GcDir(env)).Ok? {
      LoopEffect(nodes, faults, env, latest, listing);
      KeptVersion(k, env, Collected(nodes, faults, env, latest, listing), v);
    }
  }

  /** After a successful pass, a listed non-latest version with an empty ledger
      has none of its three paths, nor anything below them. */
  lemma {:induction false} UnusedIsRemoved(nodes: Nodes, faults: Faults, env: Path, latest: string, listing: seq<string>, v: string, k: Path)
    requires Distinct(listing)
    requires v in listing && v != latest
    requires ReadDirPath(nodes, faults, Child(GcDir(env), v)) == Ok({})
    requires TreeClosed(nodes) && Doomed(k, env, v)
    ensures var o := GcPass(nodes, faults, env, latest, listing);
      o.err.None? ==> k !in o.nodes
  {
    var q := Child(GcDir(env), v);
    assert q in nodes;
    assert Parent(q) == GcDir(env);
    assert IsDirAt(nodes, GcDir(env));
    if ReadDirPath(nodes, faults, GcDir(env)).Ok? {
      LoopEffect(nodes, faults, env, latest, listing);
      var c := Collected(nodes, faults, env, latest, listing);
      assert v in c;
      assert RemovedBy(k, env, c);
    }
  }

  /** The loop works through the listing in order and keeps what it did before
      an error: processing a + b is processing a, then, unless that failed, b. */
  lemma {:induction false} LoopConcat(nodes: Nodes, faults: Faults, env: Path, latest: string, a: seq<string>, b: seq<string>)
    ensures GcLoop(nodes, faults, env, latest, a + b)
         == var o := GcLoop(nodes, faults, env, latest, a);
            if o.err.Some? then o else GcLoop(o.nodes, faults, env, latest, b)
    decreases |a|
  {
    if a == [] {
      assert a + b == b;
    } else {
      assert (a + b)[0] == a[0];
      assert (a + b)[1..] == a[1..] + b;
      var s := GcStep(nodes, faults, env, latest, a[0]);
      if s.err.None? {
        LoopConcat(s.nodes, faults, env, latest, a[1..], b);
      }
    }
  }

  lemma {:induction false} LoopOfNoops(nodes: Nodes, faults: Faults, env: Path, latest: string, entries: seq<string>)
    requires forall w :: w in entries ==> GcStep(nodes, faults, env, latest, w) == Outcome(None, nodes)
    ensures GcLoop(nodes, faults, env, latest, entries) == Outcome(None, nodes)
    decreases |entries|
  {
    if entries != [] {
      assert entries[0] in entries;
      assert forall w :: w in entries[1..] ==> w in entries;
      LoopOfNoops(nodes, faults, env, latest, entries[1..]);
    }
  }

  /** E/gc itself is not among the deleted paths. */
  lemma LedgerRootStable(nodes: Nodes, faults: Faults, env: Path, versions: set<string>)
    ensures ReadDirPath(Sweep(nodes, env, versions), faults, GcDir(env)).Ok? == ReadDirPath(nodes, faults, GcDir(env)).Ok?
  {
    var g := GcDir(env);
    forall u ensures !Doomed(g, env, u) {
      DoomedShape(g, env, u);
    }
    forall j | 0 < j < |g.segs|
      ensures IsFileAt(Sweep(nodes, env, versions), Path(g.rooted, g.segs[..j])) == IsFileAt(nodes, Path(g.rooted, g.segs[..j]))
    {
      var a := Path(g.rooted, g.segs[..j]);
      forall u ensures !Doomed(a, env, u) {
        DoomedShape(a, env, u);
      }
    }
  }

  /** Running the pass again, with no change in between, does nothing and succeeds. */
  lemma {:induction false} PassIdempotent(nodes: Nodes, faults: Faults, env: Path, latest: string, first: seq<string>, second: seq<string>)
    requires ReadDirPath(nodes, faults, GcDir(env)).Ok? ==> Enumerates(first, ReadDirPath(nodes, faults, GcDir(env)).value)
    requires GcPass(nodes, faults, env, latest, first).err.None?
    requires var n := GcPass(nodes, faults, env, latest, first).nodes;
      ReadDirPath(n, faults, GcDir(env)).Ok? ==> Enumerates(second, ReadDirPath(n, faults, GcDir(env)).value)
    ensures var o := GcPass(nodes, faults, env, latest, first);
      GcPass(o.nodes, faults, env, latest, second) == o
  {
    var g := GcDir(env);
    if ReadDirPath(nodes, faults, g).Ok? {
      var names := ReadDirPath(nodes, faults, g).value;
      LoopEffect(nodes, faults, env, latest, first);
      var c := Collected(nodes, faults, env, latest, first);
      var n := Sweep(nodes, env, c);
      assert GcPass(nodes, faults, env, latest, first) == Outcome(None, n);
      LedgerRootStable(nodes, faults, env, c);
      assert ReadDirPath(n, faults, g) == Ok(ChildNames(n, g));
      forall w | w in second
        ensures GcStep(n, faults, env, latest, w) == Outcome(None, n)
      {
        if w != latest {
          ChildNamesSpec(n, g, w);
          ChildNamesSpec(nodes, g, w);
          assert w in names;
          assert w in first;
          assert Doomed(Child(g, w), env, w);
          assert w !in c;
          LedgerStable(nodes, faults, env, c, w);
        }
      }
      LoopOfNoops(n, faults, env, latest, second);
    }
  }

  // ---------------------------------------------------------------------------
  // Running the pass again after it failed

  /** The names of xs whose ledger directory E/gc/<x> exists, in the order of xs.
      After a pass over a sorted listing, this is what the next sorted listing
      of E/gc returns. */
  function Present(nodes: Nodes, env: Path, xs: seq<string>): (r: seq<string>)
    ensures |r| <= |xs|
    decreases |xs|
  {
    if xs == [] then []
    else (if Child(GcDir(env), xs[0]) in nodes then [xs[0]] else []) + Present(nodes, env, xs[1..])
  }

  lemma {:induction false} PresentMember(nodes: Nodes, env: Path, xs: seq<string>, x: string)
    ensures x in Present(nodes, env, xs) <==> x in xs && Child(GcDir(env), x) in nodes
    decreases |xs|
  {
    if xs != [] {
      PresentMember(nodes, env, xs[1..], x);
      assert xs == [xs[0]] + xs[1..];
    }
  }

  lemma {:induction false} PresentConcat(nodes: Nodes, env: Path, a: seq<string>, b: seq<string>)
    ensures Present(nodes, env, a + b) == Present(nodes, env, a) + Present(nodes, env, b)
    decreases |a|
  {
    if a == [] {
      assert a + b == b;
    } else {
      assert (a + b)[0] == a[0];
      assert (a + b)[1..] == a[1..] + b;
      PresentConcat(nodes, env, a[1..], b);
    }
  }

  lemma StepKeepsTree(nodes: Nodes, faults: Faults, env: Path, latest: string, v: string)
    requires TreeClosed(nodes)
    ensures TreeClosed(GcStep(nodes, faults, env, latest, v).nodes)
  {
    var pd := Child(BinDir(env), v + "-default");
    var pm := Child(BinDir(env), v + "-musl");
    RemoveAllKeepsTree(nodes, faults, pd);
    var o1 := RemoveAllPath(nodes, faults, pd);
    RemoveAllKeepsTree(o1.nodes, faults, pm);
    var o2 := RemoveAllPath(o1.nodes, faults, pm);
    RemoveAllKeepsTree(o2.nodes, faults, Child(GcDir(env), v));
  }

  lemma {:induction false} LoopKeepsTree(nodes: Nodes, faults: Faults, env: Path, latest: string, entries: seq<string>)
    requires TreeClosed(nodes)
    ensures TreeClosed(GcLoop(nodes, faults, env, latest, entries).nodes)
    decreases |entries|
  {
    if entries != [] {
      StepKeepsTree(nodes, faults, env, latest, entries[0]);
      var s := GcStep(nodes, faults, env, latest, entries[0]);
      if s.err.None? {
        LoopKeepsTree(s.nodes, faults, env, latest, entries[1..]);
      }
    }
  }

  /** A failed loop is a successful loop over a prefix followed by one failing step. */
  lemma {:induction false} FirstFailure(nodes: Nodes, faults: Faults, env: Path, latest: string, xs: seq<string>) returns (i: nat)
    requires GcLoop(nodes, faults, env, latest, xs).err.Some?
    ensures i < |xs|
    ensures GcLoop(nodes, faults, env, latest, xs[..i]).err.None?
    ensures GcLoop(nodes, faults, env, latest, xs)
         == GcStep(GcLoop(nodes, faults, env, latest, xs[..i]).nodes, faults, env, latest, xs[i])
    decreases |xs|
  {
    var s := GcStep(nodes, faults, env, latest, xs[0]);
    if s.err.Some? {
      i := 0;
      assert xs[..0] == [];
    } else {
      var j := FirstFailure(s.nodes, faults, env, latest, xs[1..]);
      i := j + 1;
      assert xs[..i][0] == xs[0];
      assert xs[..i][1..] == xs[1..][..j];
      assert xs[i] == xs[1..][j];
    }
  }

  /** In a tree, an existing entry has no regular file above it. */
  lemma {:induction false} ClosedNotBlocked(nodes: Nodes, p: Path)
    requires TreeClosed(nodes) && p in nodes
    ensures !BlockedByFile(nodes, p)
    decreases |p.segs|
  {
    var q := Parent(p);
    if q.segs != [] {
      ClosedNotBlocked(nodes, q);
    }
    forall k | 0 < k < |p.segs|
      ensures !IsFileAt(nodes, Path(p.rooted, p.segs[..k]))
    {
      if k == |p.segs| - 1 {
        assert Path(p.rooted, p.segs[..k]) == q;
      } else {
        assert Path(p.rooted, p.segs[..k]) == Path(q.rooted, q.segs[..k]);
      }
    }
  }

  /** A file above p in a smaller state is a file above p in the larger one. */
  lemma BlockedSub(small: Nodes, big: Nodes, p: Path)
    requires forall k :: k in small ==> k in big && big[k] == small[k]
    ensures BlockedByFile(small, p) ==> BlockedByFile(big, p)
  {
    if BlockedByFile(small, p) {
      var k :| 0 < k < |p.segs| && IsFileAt(small, Path(p.rooted, p.segs[..k]));
      assert IsFileAt(big, Path(p.rooted, p.segs[..k]));
    }
  }

  /** Removing a path that is already gone, through directories, changes nothing. */
  lemma RemoveAllNoop(nodes: Nodes, faults: Faults, p: Path)
    requires (RemoveOp, p) !in faults
    requires forall k :: k in nodes ==> !Under(k, p)
    requires !BlockedByFile(nodes, p)
    ensures RemoveAllPath(nodes, faults, p) == Outcome(None, nodes)
  {
    assert (map k | k in nodes && !Under(k, p) :: nodes[k]) == nodes;
  }

  /** Listing q reads the same in a smaller state that lost only entries that
      are neither below q nor on the way to q. */
  lemma ReadDirUnaffected(big: Nodes, small: Nodes, faults: Faults, q: Path)
    requires forall k :: k in small ==> k in big && big[k] == small[k]
    requires forall k :: k in big && k !in small ==> !Under(k, q) && !Under(q, k)
    ensures ReadDirPath(small, faults, q) == ReadDirPath(big, faults, q)
  {
    forall n
      ensures n in ChildNames(small, q) <==> n in ChildNames(big, q)
    {
      ChildNamesSpec(small, q, n);
      ChildNamesSpec(big, q, n);
      assert Child(q, n).segs[..|q.segs|] == q.segs;
    }
    assert ChildNames(small, q) == ChildNames(big, q);
    forall j | 0 < j < |q.segs|
      ensures IsFileAt(small, Path(q.rooted, q.segs[..j])) == IsFileAt(big, Path(q.rooted, q.segs[..j]))
    {
      assert Under(q, Path(q.rooted, q.segs[..j]));
    }
    assert BlockedByFile(small, q) == BlockedByFile(big, q);
    assert Under(q, q);
  }

  /** The paths of version u are neither below the ledger of another version w nor on the way to it. */
  lemma OtherVersionApart(k: Path, env: Path, u: string, w: string)
    requires Doomed(k, env, u) && u != w
    ensures !Under(k, Child(GcDir(env), w)) && !Under(Child(GcDir(env), w), k)
  {
    DoomedShape(k, env, u);
    var q := Child(GcDir(env), w);
    var i := |env.segs|;
    assert q.segs[i] == GarbageCollectionPath && q.segs[i + 1] == w;
    assert k.segs[..i + 2][i] == k.segs[i] && k.segs[..i + 2][i + 1] == k.segs[i + 1];
    assert q.segs[..i + 2] == q.segs;
  }

  /** Paths below E/bin are neither below a ledger nor on the way to one. */
  lemma BinaryApart(k: Path, env: Path, x: string, w: string)
    requires Under(k, Child(BinDir(env), x))
    ensures !Under(k, Child(GcDir(env), w)) && !Under(Child(GcDir(env), w), k)
  {
    var b := Child(BinDir(env), x);
    var q := Child(GcDir(env), w);
    var i := |env.segs|;
    assert k.segs[..i + 2] == b.segs;
    assert k.segs[..i + 2][i] == "bin";
    assert q.segs[i] == GarbageCollectionPath;
    assert q.segs[..i + 2] == q.segs;
  }

  /** After the binaries of an unused version v are removed, its ledger still
      reads as empty and removing them again is a no-op. */
  lemma AfterDefaultRemoved(nodes: Nodes, faults: Faults, env: Path, v: string)
    requires TreeClosed(nodes)
    requires ReadDirPath(nodes, faults, Child(GcDir(env), v)) == Ok({})
    requires RemoveAllPath(nodes, faults, Child(BinDir(env), v + "-default")).err.None?
    ensures var n1 := RemoveAllPath(nodes, faults, Child(BinDir(env), v + "-default")).nodes;
      && ReadDirPath(n1, faults, Child(GcDir(env), v)) == Ok({})
      && RemoveAllPath(n1, faults, Child(BinDir(env), v + "-default")) == Outcome(None, n1)
  {
    var q := Child(GcDir(env), v);
    var pd := Child(BinDir(env), v + "-default");
    var n1 := RemoveAllPath(nodes, faults, pd).nodes;
    forall k | k in nodes && k !in n1
      ensures !Under(k, q) && !Under(q, k)
    {
      BinaryApart(k, env, v + "-default", v);
    }
    ReadDirUnaffected(nodes, n1, faults, q);
    RemoveAllDone(nodes, faults, pd);
  }

  /** On a closed tree, a RemoveAll that succeeded leaves nothing for a second one to do. */
  lemma RemoveAllDone(nodes: Nodes, faults: Faults, p: Path)
    requires TreeClosed(nodes)
    requires RemoveAllPath(nodes, faults, p).err.None?
    ensures var n := RemoveAllPath(nodes, faults, p).nodes;
      RemoveAllPath(n, faults, p) == Outcome(None, n)
  {
    var n := RemoveAllPath(nodes, faults, p).nodes;
    if p in nodes {
      ClosedNotBlocked(nodes, p);
    }
    BlockedSub(n, nodes, p);
    RemoveAllNoop(n, faults, p);
  }

  /** A RemoveAll that had nothing to do still has nothing to do once entries are dropped. */
  lemma RemoveAllAgain(big: Nodes, small: Nodes, faults: Faults, p: Path)
    requires RemoveAllPath(big, faults, p) == Outcome(None, big)
    requires forall k :: k in small ==> k in big && big[k] == small[k]
    ensures RemoveAllPath(small, faults, p) == Outcome(None, small)
  {
    forall k | k in big
      ensures !Under(k, p)
    {
      assert k in RemoveAllPath(big, faults, p).nodes;
    }
    assert Under(p, p);
    BlockedSub(small, big, p);
    RemoveAllNoop(small, faults, p);
  }

  lemma AfterMuslRemoved(nodes: Nodes, faults: Faults, env: Path, v: string)
    requires TreeClosed(nodes)
    requires ReadDirPath(nodes, faults, Child(GcDir(env), v)) == Ok({})
    requires RemoveAllPath(nodes, faults, Child(BinDir(env), v + "-default")).err.None?
    requires var n1 := RemoveAllPath(nodes, faults, Child(BinDir(env), v + "-default")).nodes;
      RemoveAllPath(n1, faults, Child(BinDir(env), v + "-musl")).err.None?
    ensures var n1 := RemoveAllPath(nodes, faults, Child(BinDir(env), v + "-default")).nodes;
      var n2 := RemoveAllPath(n1, faults, Child(BinDir(env), v + "-musl")).nodes;
      && ReadDirPath(n2, faults, Child(GcDir(env), v)) == Ok({})
      && RemoveAllPath(n2, faults, Child(BinDir(env), v + "-default")) == Outcome(None, n2)
      && RemoveAllPath(n2, faults, Child(BinDir(env), v + "-musl")) == Outcome(None, n2)
  {
    var q := Child(GcDir(env), v);
    var pd := Child(BinDir(env), v + "-default");
    var pm := Child(BinDir(env), v + "-musl");
    var n1 := RemoveAllPath(nodes, faults, pd).nodes;
    var n2 := RemoveAllPath(n1, faults, pm).nodes;
    AfterDefaultRemoved(nodes, faults, env, v);
    assert ReadDirPath(n2, faults, q) == Ok({}) by {
      forall k | k in n1 && k !in n2
        ensures !Under(k, q) && !Under(q, k)
      {
        BinaryApart(k, env, v + "-musl", v);
      }
      ReadDirUnaffected(n1, n2, faults, q);
    }
    RemoveAllAgain(n1, n2, faults, pd);
    assert RemoveAllPath(n2, faults, pm) == Outcome(None, n2) by {
      RemoveAllKeepsTree(nodes, faults, pd);
      RemoveAllDone(n1, faults, pm);
    }
  }

  /** The removals for an unused version that failed, run again on the state
      they left, fail the same way and change nothing more; the ledger still
      reads as empty. */
  lemma FailedRemovalRepeats(nodes: Nodes, faults: Faults, env: Path, v: string)
    requires TreeClosed(nodes)
    requires ReadDirPath(nodes, faults, Child(GcDir(env), v)) == Ok({})
    requires RemoveVersion(nodes, faults, env, v).err.Some?
    ensures var o := RemoveVersion(nodes, faults, env, v);
      && ReadDirPath(o.nodes, faults, Child(GcDir(env), v)) == Ok({})
      && RemoveVersion(o.nodes, faults, env, v) == o
  {
    var o1 := RemoveAllPath(nodes, faults, Child(BinDir(env), v + "-default"));
    if o1.err.None? {
      AfterDefaultRemoved(nodes, faults, env, v);
      var o2 := RemoveAllPath(o1.nodes, faults, Child(BinDir(env), v + "-musl"));
      if o2.err.None? {
        AfterMuslRemoved(nodes, faults, env, v);
      }
    }
  }

  /** A step that failed, run again on the state it left, fails the same way and
      changes nothing more; the ledger of the version is still there. */
  lemma FailedStepRepeats(nodes: Nodes, faults: Faults, env: Path, latest: string, v: string)
    requires TreeClosed(nodes)
    requires GcStep(nodes, faults, env, latest, v).err.Some?
    ensures var o := GcStep(nodes, faults, env, latest, v);
      && GcStep(o.nodes, faults, env, latest, v) == o
      && (Child(GcDir(env), v) in nodes ==> Child(GcDir(env), v) in o.nodes)
  {
    if ReadDirPath(nodes, faults, Child(GcDir(env), v)) == Ok({}) {
      FailedRemovalRepeats(nodes, faults, env, v);
    }
  }

  /** Before the step that failed, every listed version whose ledger is still
      there was left alone, and running its step again leaves it alone. */
  lemma PrefixStepsAreNoops(nodes: Nodes, faults: Faults, env: Path, latest: string, first: seq<string>, i: nat)
    requires Distinct(first) && i < |first|
    requires GcLoop(nodes, faults, env, latest, first[..i]).err.None?
    ensures var s := GcLoop(nodes, faults, env, latest, first[..i]).nodes;
      var o := GcStep(s, faults, env, latest, first[i]);
      forall w :: w in Present(o.nodes, env, first[..i]) ==> GcStep(o.nodes, faults, env, latest, w) == Outcome(None, o.nodes)
  {
    var a, v := first[..i], first[i];
    assert Distinct(a) by {
      forall x, y | 0 <= x < y < |a| ensures a[x] != a[y] {
        assert a[x] == first[x] && a[y] == first[y];
      }
    }
    LoopEffect(nodes, faults, env, latest, a);
    var c := Collected(nodes, faults, env, latest, a);
    var s := GcLoop(nodes, faults, env, latest, a).nodes;
    StepEffect(s, faults, env, latest, v);
    var o := GcStep(s, faults, env, latest, v);
    forall w | w in Present(o.nodes, env, a)
      ensures GcStep(o.nodes, faults, env, latest, w) == Outcome(None, o.nodes)
    {
      PresentMember(o.nodes, env, a, w);
      var q := Child(GcDir(env), w);
      if w != latest {
        assert w != v by {
          var j :| 0 <= j < |a| && a[j] == w;
          assert first[j] == w;
        }
        assert Doomed(q, env, w);
        assert q in s;
        assert !RemovedBy(q, env, c);
        assert w !in c;
        assert ReadDirPath(nodes, faults, q).Ok?;
        assert ReadDirPath(nodes, faults, q).value != {} by {
          assert !Collectable(nodes, faults, env, latest, w);
        }
        forall k | k in nodes && k !in o.nodes
          ensures !Under(k, q) && !Under(q, k)
        {
          if k in s {
            OtherVersionApart(k, env, v, w);
          } else {
            var u :| u in c && Doomed(k, env, u);
            OtherVersionApart(k, env, u, w);
          }
        }
        ReadDirUnaffected(nodes, o.nodes, faults, q);
      }
    }
  }

  /** The version whose step failed keeps its ledger directory. */
  lemma FailedVersionListed(nodes: Nodes, faults: Faults, env: Path, latest: string, first: seq<string>, i: nat)
    requires TreeClosed(nodes) && Distinct(first) && i < |first|
    requires Child(GcDir(env), first[i]) in nodes
    requires GcLoop(nodes, faults, env, latest, first[..i]).err.None?
    requires GcStep(GcLoop(nodes, faults, env, latest, first[..i]).nodes, faults, env, latest, first[i]).err.Some?
    ensures var s := GcLoop(nodes, faults, env, latest, first[..i]).nodes;
      var o := GcStep(s, faults, env, latest, first[i]);
      && Child(GcDir(env), first[i]) in o.nodes
      && GcStep(o.nodes, faults, env, latest, first[i]) == o
  {
    var a, v := first[..i], first[i];
    assert Distinct(a) by {
      forall x, y | 0 <= x < y < |a| ensures a[x] != a[y] {
        assert a[x] == first[x] && a[y] == first[y];
      }
    }
    assert v !in a by {
      forall x | 0 <= x < |a| ensures a[x] != v {
        assert a[x] == first[x];
      }
    }
    var s := GcLoop(nodes, faults, env, latest, a).nodes;
    var q := Child(GcDir(env), v);
    assert q in s by {
      LoopEffect(nodes, faults, env, latest, a);
      var c := Collected(nodes, faults, env, latest, a);
      assert Doomed(q, env, v);
      KeptVersion(q, env, c, v);
    }
    assert TreeClosed(s) by {
      LoopKeepsTree(nodes, faults, env, latest, a);
    }
    FailedStepRepeats(s, faults, env, latest, v);
  }

  /** The loop part of a failed pass, run again over the surviving names in the
      same order, fails the same way and changes nothing more. */
  lemma FailedLoopRepeats(nodes: Nodes, faults: Faults, env: Path, latest: string, first: seq<string>)
    requires TreeClosed(nodes) && Distinct(first)
    requires forall x :: x in first ==> Child(GcDir(env), x) in nodes
    requires GcLoop(nodes, faults, env, latest, first).err.Some?
    ensures var o := GcLoop(nodes, faults, env, latest, first);
      GcLoop(o.nodes, faults, env, latest, Present(o.nodes, env, first)) == o
  {
    var i := FirstFailure(nodes, faults, env, latest, first);
    var o := GcLoop(nodes, faults, env, latest, first);
    FailedVersionListed(nodes, faults, env, latest, first, i);
    PrefixStepsAreNoops(nodes, faults, env, latest, first, i);
    PresentSplit(o.nodes, env, first, i);
    ReplayFails(o.nodes, faults, env, latest, Present(o.nodes, env, first[..i]), first[i], Present(o.nodes, env, first[i + 1..]), o.err);
  }

  lemma PresentSplit(nodes: Nodes, env: Path, xs: seq<string>, i: nat)
    requires i < |xs| && Child(GcDir(env), xs[i]) in nodes
    ensures Present(nodes, env, xs) == Present(nodes, env, xs[..i]) + ([xs[i]] + Present(nodes, env, xs[i + 1..]))
  {
    assert xs == xs[..i] + ([xs[i]] + xs[i + 1..]);
    PresentConcat(nodes, env, xs[..i], [xs[i]] + xs[i + 1..]);
    PresentConcat(nodes, env, [xs[i]], xs[i + 1..]);
    assert [xs[i]][1..] == [];
  }

  /** A loop whose first steps change nothing and whose next step fails the
      given way ends in that failure. */
  lemma ReplayFails(nodes: Nodes, faults: Faults, env: Path, latest: string, pa: seq<string>, v: string, pr: seq<string>, err: Option<FsError>)
    requires forall w :: w in pa ==> GcStep(nodes, faults, env, latest, w) == Outcome(None, nodes)
    requires err.Some? && GcStep(nodes, faults, env, latest, v) == Outcome(err, nodes)
    ensures GcLoop(nodes, faults, env, latest, pa + ([v] + pr)) == Outcome(err, nodes)
  {
    LoopOfNoops(nodes, faults, env, latest, pa);
    assert ([v] + pr)[0] == v;
    LoopConcat(nodes, faults, env, latest, pa, [v] + pr);
  }

  /** A pass that failed, run again with no change in between and with the
      listing of E/gc in the same order as before, fails the same way and
      changes nothing more. */
  lemma FailedPassRepeats(nodes: Nodes, faults: Faults, env: Path, latest: string, first: seq<string>, second: seq<string>)
    requires TreeClosed(nodes)
    requires ReadDirPath(nodes, faults, GcDir(env)).Ok? ==> Enumerates(first, ReadDirPath(nodes, faults, GcDir(env)).value)
    requires GcPass(nodes, faults, env, latest, first).err.Some?
    requires second == Present(GcPass(nodes, faults, env, latest, first).nodes, env, first)
    ensures var o := GcPass(nodes, faults, env, latest, first);
      GcPass(o.nodes, faults, env, latest, second) == o
  {
    var g := GcDir(env);
    if ReadDirPath(nodes, faults, g).Ok? {
      forall x | x in first
        ensures Child(g, x) in nodes
      {
        ChildNamesSpec(nodes, g, x);
      }
      FailedLoopRepeats(nodes, faults, env, latest, first);
      LoopEffect(nodes, faults, env, latest, first);
      var o := GcLoop(nodes, faults, env, latest, first);
      forall u ensures !Doomed(g, env, u) {
        DoomedShape(g, env, u);
      }
      assert g in o.nodes;
      assert ReadDirPath(o.nodes, faults, g).Ok?;
    }
  }

  // ---------------------------------------------------------------------------
  // From path strings to cleaned paths

  lemma LayoutPaths(rootDir: string, dataPath: string, envID: string)
    ensures var gcPath := Join([rootDir, dataPath, envID, GarbageCollectionPath]);
      gcPath != "" && Clean(gcPath) == GcDir(EnvDir(rootDir, dataPath, envID))
  {
    var elems := [rootDir, dataPath, envID, GarbageCollectionPath];
    JoinEmpty(elems);
    assert elems[3] != "";
    assert [rootDir, dataPath, envID] + [GarbageCollectionPath] == elems;
    JoinSnoc([rootDir, dataPath, envID], GarbageCollectionPath);
  }

  /** The names the listing of E/gc returns are proper names. */
  lemma ListedNameIsName(nodes: Nodes, env: Path, n: string)
    requires TreeClosed(nodes) && n in ChildNames(nodes, GcDir(env))
    ensures IsName(n)
  {
    var g := GcDir(env);
    ChildNamesSpec(nodes, g, n);
    var k := Child(g, n);
    assert WellFormed(k);
    assert k.segs[|g.segs|] == n;
    assert k.segs[|g.segs| - 1] == GarbageCollectionPath;
  }

  /** binaryPath is the rendering of E/bin/<name>. */
  lemma BinaryPathRender(rootDir: string, dataPath: string, envID: string, name: string)
    requires IsName(name)
    ensures Join([rootDir, dataPath, envID, "bin", name]) == Render(Child(BinDir(EnvDir(rootDir, dataPath, envID)), name))
  {
    var base := [rootDir, dataPath, envID];
    var binElems := base + ["bin"];
    var elems := binElems + [name];
    assert [rootDir, dataPath, envID, "bin", name] == elems;
    assert Clean(Join(elems)) == Child(BinDir(EnvDir(rootDir, dataPath, envID)), name) by {
      JoinSnoc(base, "bin");
      JoinSnoc(binElems, name);
    }
    assert Join(elems) != "" by {
      JoinEmpty(elems);
      assert elems[3] != "";
    }
    JoinEmpty(elems);
  }

  /** The strings the loop body passes to RemoveAll for the binaries, and the paths they clean to. */
  lemma BinaryPaths(rootDir: string, dataPath: string, envID: string, name: string)
    requires IsName(name)
    ensures var b := BinDir(EnvDir(rootDir, dataPath, envID));
      var binaryPath := Join([rootDir, dataPath, envID, "bin", name]);
      && binaryPath + "-default" != "" && !EndsWithDot(binaryPath + "-default")
      && Clean(binaryPath + "-default") == Child(b, name + "-default")
      && binaryPath + "-musl" != "" && !EndsWithDot(binaryPath + "-musl")
      && Clean(binaryPath + "-musl") == Child(b, name + "-musl")
  {
    BinaryPathSuffix(rootDir, dataPath, envID, name, "-default");
    BinaryPathSuffix(rootDir, dataPath, envID, name, "-musl");
  }

  lemma BinaryPathSuffix(rootDir: string, dataPath: string, envID: string, name: string, sfx: string)
    requires IsName(name) && |sfx| >= 2 && sfx[0] == '-' && sfx[|sfx| - 1] != '.' && NoSep(sfx)
    ensures var s := Join([rootDir, dataPath, envID, "bin", name]) + sfx;
      s != "" && !EndsWithDot(s) && Clean(s) == Child(BinDir(EnvDir(rootDir, dataPath, envID)), name + sfx)
  {
    BinaryPathRender(rootDir, dataPath, envID, name);
    BinarySuffix(BinDir(EnvDir(rootDir, dataPath, envID)), name, sfx);
  }

  /** The string the loop body lists and removes for a ledger entry, and the path it cleans to. */
  lemma LedgerPath(rootDir: string, dataPath: string, envID: string, name: string)
    requires IsName(name)
    ensures var gcPath := Join([rootDir, dataPath, envID, GarbageCollectionPath]);
      var ledger := Join([gcPath, name]);
      && ledger != "" && !EndsWithDot(ledger)
      && Clean(ledger) == Child(GcDir(EnvDir(rootDir, dataPath, envID)), name)
  {
    var base := [rootDir, dataPath, envID];
    var gcElems := [rootDir, dataPath, envID, GarbageCollectionPath];
    assert Join([Join(gcElems), name]) == Join(gcElems + [name]) by {
      JoinFlatten(gcElems, [name]);
    }
    JoinNameRender(gcElems, name);
    assert Clean(Join(gcElems)) == GcDir(EnvDir(rootDir, dataPath, envID)) by {
      assert base + [GarbageCollectionPath] == gcElems;
      JoinSnoc(base, GarbageCollectionPath);
    }
    ChildNotEndsWithDot(GcDir(EnvDir(rootDir, dataPath, envID)), name);
  }

  /** Joining a plain name onto any elements gives a non-empty, already clean
      string for the child path. */
  lemma JoinNameRender(elems: seq<string>, name: string)
    requires IsName(name)
    ensures var s := Join(elems + [name]);
      s != "" && s == Render(Clean(s)) && Clean(s) == Child(Clean(Join(elems)), name)
  {
    JoinSnoc(elems, name);
    assert (elems + [name])[|elems|] == name;
    JoinEmpty(elems + [name]);
  }

  lemma BinarySuffix(b: Path, name: string, sfx: string)
    requires WellFormed(b) && IsName(name) && |sfx| >= 2 && sfx[0] == '-' && sfx[|sfx| - 1] != '.' && NoSep(sfx)
    ensures var s := Render(Child(b, name)) + sfx;
      s != "" && !EndsWithDot(s) && Clean(s) == Child(b, name + sfx)
  {
    RenderChildSuffix(b, name, sfx);
    var x := name + sfx;
    assert x[|x| - 1] == sfx[|sfx| - 1];
    assert x != "." && x != "..";
    ChildWellFormed(b, x);
    CleanRender(Child(b, x));
  }

  // ---------------------------------------------------------------------------
  // The pass itself

  /** The body of the loop of runBinaryGarbageCollection for one ledger entry. */
  method CollectVersion(fs: FileSystem, rootDir: string, dataPath: string, envID: string, latestVersion: string, name: string)
    returns (err: Option<FsError>)
    requires fs.Valid() && IsName(name)
    modifies fs
    ensures fs.Valid()
    ensures Outcome(err, fs.nodes) == GcStep(old(fs.nodes), fs.faults, EnvDir(rootDir, dataPath, envID), latestVersion, name)
  {
    ghost var env := EnvDir(rootDir, dataPath, envID);
    var gcPath := Join([rootDir, dataPath, envID, GarbageCollectionPath]);
    if name == latestVersion {
      return None;
    }
    LedgerPath(rootDir, dataPath, envID, name);
    var subDirs := fs.ReadDir(Join([gcPath, name]));
    if subDirs.Err? {
      return Some(subDirs.error);
    }
    ghost var listed := ReadDirPath(fs.nodes, fs.faults, Child(GcDir(env), name));
    assert listed.Ok?;
    ghost var names := listed.value;
    var entries := subDirs.value;
    EnumeratesEmpty(entries, names);
    if |entries| != 0 {
      return None;
    }
    err := DeleteVersion(fs, rootDir, dataPath, envID, name);
  }

  /** The three RemoveAll calls of the loop body. */
  method DeleteVersion(fs: FileSystem, rootDir: string, dataPath: string, envID: string, name: string)
    returns (err: Option<FsError>)
    requires fs.Valid() && IsName(name)
    modifies fs
    ensures fs.Valid()
    ensures Outcome(err, fs.nodes) == RemoveVersion(old(fs.nodes), fs.faults, EnvDir(rootDir, dataPath, envID), name)
  {
    ghost var env := EnvDir(rootDir, dataPath, envID);
    var gcPath := Join([rootDir, dataPath, envID, GarbageCollectionPath]);
    var binaryPath := Join([rootDir, dataPath, envID, "bin", name]);
    BinaryPaths(rootDir, dataPath, envID, name);
    LedgerPath(rootDir, dataPath, envID, name);
    ghost var o1 := RemoveAllPath(fs.nodes, fs.faults, Child(BinDir(env), name + "-default"));
    err := fs.RemoveAll(binaryPath + "-default");
    assert Outcome(err, fs.nodes) == o1;
    if err.Some? {
      return;
    }
    ghost var o2 := RemoveAllPath(fs.nodes, fs.faults, Child(BinDir(env), name + "-musl"));
    err := fs.RemoveAll(binaryPath + "-musl");
    assert Outcome(err, fs.nodes) == o2;
    if err.Some? {
      return;
    }
    err := fs.RemoveAll(Join([gcPath, name]));
  }

  /** runBinaryGarbageCollection. The ghost listing is the order in which the
      listing of E/gc came back. */
  method RunBinaryGarbageCollection(fs: FileSystem, rootDir: string, dataPath: string, envID: string, latestVersion: string)
    returns (err: Option<FsError>, ghost listing: seq<string>)
    requires fs.Valid()
    modifies fs
    ensures fs.Valid()
    ensures var env := EnvDir(rootDir, dataPath, envID);
      var top := ReadDirPath(old(fs.nodes), fs.faults, GcDir(env));
      && (top.Ok? ==> Enumerates(listing, top.value))
      && Outcome(err, fs.nodes) == GcPass(old(fs.nodes), fs.faults, env, latestVersion, listing)
  {
    ghost var env := EnvDir(rootDir, dataPath, envID);
    var gcPath := Join([rootDir, dataPath, envID, GarbageCollectionPath]);
    LayoutPaths(rootDir, dataPath, envID);
    var gcDirs := fs.ReadDir(gcPath);
    if gcDirs.Err? {
      listing := [];
      if gcDirs.error == NotExist {
        return None, listing;
      }
      return Some(gcDirs.error), listing;
    }
    var names := gcDirs.value;
    listing := names;
    assert forall j :: 0 <= j < |names| ==> IsName(names[j]) by {
      forall j | 0 <= j < |names|
        ensures IsName(names[j])
      {
        ListedNameIsName(fs.nodes, env, names[j]);
      }
    }
    err := CollectAll(fs, rootDir, dataPath, envID, latestVersion, names);
  }

  /** The loop of runBinaryGarbageCollection over the listed ledger entries. */
  method CollectAll(fs: FileSystem, rootDir: string, dataPath: string, envID: string, latestVersion: string, names: seq<string>)
    returns (err: Option<FsError>)
    requires fs.Valid() && forall j :: 0 <= j < |names| ==> IsName(names[j])
    modifies fs
    ensures fs.Valid()
    ensures Outcome(err, fs.nodes) == GcLoop(old(fs.nodes), fs.faults, EnvDir(rootDir, dataPath, envID), latestVersion, names)
  {
    ghost var env := EnvDir(rootDir, dataPath, envID);
    ghost var total := GcLoop(fs.nodes, fs.faults, env, latestVersion, names);
    var i := 0;
    while i < |names|
      invariant 0 <= i <= |names|
      invariant fs.Valid()
      invariant total == GcLoop(fs.nodes, fs.faults, env, latestVersion, names[i..])
    {
      assert names[i..][0] == names[i] && names[i..][1..] == names[i + 1..];
      var e := CollectVersion(fs, rootDir, dataPath, envID, latestVersion, names[i]);
      if e.Some? {
        return e;
      }
      i := i + 1;
    }
    assert names[i..] == [];
    return None;
  }
}
