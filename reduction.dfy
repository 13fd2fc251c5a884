/** Program.cs, `RemoveDirectDependenciesThatAreTransient` and
    `GetAllTransientDependenciesForPackage`: one in-order pass that drops,
    from each package, every direct dependency whose name also occurs among
    the dependencies of its resolved direct dependencies. */
module Reduction {
  import opened Wrappers
  import opened Models

  /** `GetAllTransientDependenciesForPackage`: for each entry `d`, in order,
      the current dependency list of the first listed package named `d.name`,
      followed by the recursion on the ENTRY `d` (not on that package); an
      unresolved entry contributes nothing. */
  function Transient(g: seq<Node>, deps: seq<Entry>): seq<Entry>
    decreases deps
  {
    if deps == [] then []
    else
      var d := deps[0];
      var here := match FindPackage(g, d.name)
        case None => []
        case Some(j) => g[j].deps + Transient(g, d.deps);
      here + Transient(g, deps[1..])
  }

  /** The dependency list of the first listed package named `n`, if any. */
  function ResolvedDeps(g: seq<Node>, n: string): (r: seq<Entry>)
    ensures FindPackage(g, n).None? ==> r == []
  {
    match FindPackage(g, n)
    case None => []
    case Some(j) => g[j].deps
  }

  /** Two hops and no further: the dependency lists of the resolved direct
      dependencies, in order. */
  function TwoHop(g: seq<Node>, deps: seq<Entry>): seq<Entry>
  {
    if deps == [] then [] else ResolvedDeps(g, deps[0].name) + TwoHop(g, deps[1..])
  }

  /** Entries built by the parsers have no dependencies, so the recursion on
      the entry adds nothing and the transient list is exactly two hops. */
  lemma {:induction false} TransientIsTwoHop(g: seq<Node>, deps: seq<Entry>)
    requires LeafEntries(deps)
    ensures Transient(g, deps) == TwoHop(g, deps)
  {
    if deps != [] {
      assert deps[0].deps == [];
      assert Transient(g, deps[0].deps) == [];
      TransientIsTwoHop(g, deps[1..]);
    }
  }

  /** A name occurs in the two-hop list iff some direct dependency resolves
      to a package that lists that name. */
  lemma {:induction false} TwoHopNames(g: seq<Node>, deps: seq<Entry>, n: string)
    ensures HasDep(TwoHop(g, deps), n) <==>
      exists k :: 0 <= k < |deps| && HasDep(ResolvedDeps(g, deps[k].name), n)
  {
    if deps != [] {
      TwoHopNames(g, deps[1..], n);
      HasDepAppend(ResolvedDeps(g, deps[0].name), TwoHop(g, deps[1..]), n);
      if exists k :: 0 <= k < |deps| && HasDep(ResolvedDeps(g, deps[k].name), n) {
        var k :| 0 <= k < |deps| && HasDep(ResolvedDeps(g, deps[k].name), n);
        if k > 0 {
          assert deps[1..][k - 1] == deps[k];
        }
      }
      if HasDep(TwoHop(g, deps[1..]), n) {
        var k :| 0 <= k < |deps[1..]| && HasDep(ResolvedDeps(g, deps[1..][k].name), n);
        assert deps[k + 1] == deps[1..][k];
      }
    }
  }

  lemma HasDepAppend(a: seq<Entry>, b: seq<Entry>, n: string)
    ensures HasDep(a + b, n) <==> HasDep(a, n) || HasDep(b, n)
  {
    if HasDep(a + b, n) {
      var k :| 0 <= k < |a + b| && (a + b)[k].name == n;
      if k >= |a| { assert b[k - |a|] == (a + b)[k]; }
    }
    if HasDep(a, n) {
      var k :| 0 <= k < |a| && a[k].name == n;
      assert (a + b)[k] == a[k];
    }
    if HasDep(b, n) {
      var k :| 0 <= k < |b| && b[k].name == n;
      assert (a + b)[k + |a|] == b[k];
    }
  }

  /** The inner loop's effect: the entries whose names do not occur in `t`,
      in their original order. */
  function Reduced(deps: seq<Entry>, t: seq<Entry>): seq<Entry>
  {
    if deps == [] then []
    else
      var last := deps[|deps| - 1];
      Reduced(deps[..|deps| - 1], t) + (if HasDep(t, last.name) then [] else [last])
  }

  /** An entry survives iff its name is not in `t`; the list never grows,
      and filtering distributes over concatenation, so survivors keep their
      relative order. */
  lemma {:induction false} ReducedMeaning(deps: seq<Entry>, t: seq<Entry>)
    ensures forall e :: e in Reduced(deps, t) <==> e in deps && !HasDep(t, e.name)
    ensures |Reduced(deps, t)| <= |deps|
  {
    if deps != [] {
      ReducedMeaning(deps[..|deps| - 1], t);
      assert deps == deps[..|deps| - 1] + [deps[|deps| - 1]];
    }
  }

  lemma {:induction false} ReducedAppend(a: seq<Entry>, b: seq<Entry>, t: seq<Entry>)
    ensures Reduced(a + b, t) == Reduced(a, t) + Reduced(b, t)
  {
    if b != [] {
      ReducedAppend(a, b[..|b| - 1], t);
      assert (a + b)[..|a + b| - 1] == a + b[..|b| - 1];
    } else {
      assert a + b == a;
    }
  }

  /** Handling the package at `i`: its transient list is computed over the
      current state, and only its own dependency list changes. */
  function ReduceStep(g: seq<Node>, i: nat): (r: seq<Node>)
    requires i < |g|
  {
    g[i := g[i].(deps := Reduced(g[i].deps, Transient(g, g[i].deps)))]
  }

  /** The state after the packages before position `i` were handled. */
  function ReduceUpTo(g: seq<Node>, i: nat): (r: seq<Node>)
    requires i <= |g|
    ensures |r| == |g|
  {
    if i == 0 then g else ReduceStep(ReduceUpTo(g, i - 1), i - 1)
  }

  /** The whole pass. */
  function ReduceAll(g: seq<Node>): (r: seq<Node>)
  {
    ReduceUpTo(g, |g|)
  }

  /** Reduction keeps every package's name, version and used-by list, leaves
      the packages not yet handled as they were, and only shrinks lists. */
  lemma {:induction false} ReduceUpToKeeps(g: seq<Node>, i: nat)
    requires i <= |g|
    ensures forall j :: 0 <= j < |g| ==>
      ReduceUpTo(g, i)[j].name == g[j].name && ReduceUpTo(g, i)[j].version == g[j].version &&
      ReduceUpTo(g, i)[j].usedBy == g[j].usedBy && |ReduceUpTo(g, i)[j].deps| <= |g[j].deps|
    ensures forall j :: i <= j < |g| ==> ReduceUpTo(g, i)[j] == g[j]
  {
    if i > 0 {
      ReduceUpToKeeps(g, i - 1);
      var h := ReduceUpTo(g, i - 1);
      ReducedMeaning(h[i - 1].deps, Transient(h, h[i - 1].deps));
    }
  }

  /** Handling later packages never revisits earlier ones: after `i` steps
      the first `i` packages are as they end up, the rest as they started. */
  lemma {:induction false} ReduceUpToSplit(g: seq<Node>, i: nat)
    requires i <= |g|
    ensures ReduceUpTo(g, i) == ReduceAll(g)[..i] + g[i..]
  {
    ReduceUpToKeeps(g, i);
    SettledStays(g, i, |g|);
    assert forall j :: 0 <= j < i ==> ReduceUpTo(g, i)[j] == ReduceAll(g)[j];
  }

  lemma {:induction false} SettledStays(g: seq<Node>, i: nat, m: nat)
    requires i <= m <= |g|
    ensures forall j :: 0 <= j < i ==> ReduceUpTo(g, m)[j] == ReduceUpTo(g, i)[j]
  {
    if m > i {
      SettledStays(g, i, m - 1);
    }
  }

  /** The main property: every package ends with the direct dependencies
      whose names are not in its transient list, that list being computed
      over the already-reduced earlier packages and the untouched later ones. */
  lemma ReduceAllAt(g: seq<Node>, i: nat)
    requires i < |g|
    ensures
      var mid := ReduceAll(g)[..i] + g[i..];
      ReduceAll(g)[i].deps == Reduced(g[i].deps, Transient(mid, g[i].deps))
  {
    ReduceUpToSplit(g, i);
    ReduceUpToKeeps(g, i);
    SettledStays(g, i + 1, |g|);
  }

  /** For graphs the parsers build, a direct dependency of the package at
      `i` survives iff no direct dependency resolves, in the state the pass
      has reached, to a package listing its name. */
  lemma ReduceAllTwoHop(g: seq<Node>, i: nat, e: Entry)
    requires i < |g| && AllLeafEntries(g)
    ensures
      var mid := ReduceAll(g)[..i] + g[i..];
      e in ReduceAll(g)[i].deps <==>
        e in g[i].deps && !exists k :: 0 <= k < |g[i].deps| && HasDep(ResolvedDeps(mid, g[i].deps[k].name), e.name)
  {
    var mid := ReduceAll(g)[..i] + g[i..];
    ReduceAllAt(g, i);
    assert LeafEntries(g[i].deps);
    TransientIsTwoHop(mid, g[i].deps);
    ReducedMeaning(g[i].deps, TwoHop(mid, g[i].deps));
    TwoHopNames(mid, g[i].deps, e.name);
  }

  /** The first package is handled in the state the pass starts from. */
  lemma ReduceFirst(g: seq<Node>)
    requires g != []
    ensures ReduceAll(g)[0].deps == Reduced(g[0].deps, Transient(g, g[0].deps))
  {
    ReduceAllAt(g, 0);
    assert ReduceAll(g)[..0] + g[0..] == g;
  }

  /** A lists B and C, B lists C: A keeps only B. */
  lemma DropsRedundantEdge()
    ensures
      var b, c := NewEntry("B", "1"), NewEntry("C", "1");
      var g := [Node("A", "1", [b, c], []), Node("B", "1", [c], []), Node("C", "1", [], [])];
      ReduceAll(g)[0].deps == [b]
  {
    var b, c := NewEntry("B", "1"), NewEntry("C", "1");
    var g := [Node("A", "1", [b, c], []), Node("B", "1", [c], []), Node("C", "1", [], [])];
    assert Transient(g, [b, c]) == [c] by {
      assert g[1..] == [g[1], g[2]] && g[1..][1..] == [g[2]];
      assert FindPackage(g, "B") == Some(1);
      assert FindPackage(g, "C") == Some(2);
      assert Transient(g, [c]) == [] by {
        assert [c][1..] == [];
      }
      assert [b, c][1..] == [c];
    }
    assert Reduced([b, c], [c]) == [b] by {
      assert HasDep([c], "C") && !HasDep([c], "B") by {
        assert |[c]| == 1 && [c][0].name == "C";
      }
      assert Reduced([b], [c]) == [b] by {
        assert [b][..0] == [];
      }
      assert [b, c][..1] == [b];
    }
    ReduceFirst(g);
  }

  /** A transitive reduction would keep reachability; this pass does not:
      with A listing B and C, B listing C and C listing B, A loses both
      edges, so A no longer reaches anything. */
  lemma CycleLosesReachability()
    ensures
      var b, c := NewEntry("B", "1"), NewEntry("C", "1");
      var g := [Node("A", "1", [b, c], []), Node("B", "1", [c], []), Node("C", "1", [b], [])];
      ReduceAll(g)[0].deps == []
  {
    var b, c := NewEntry("B", "1"), NewEntry("C", "1");
    var g := [Node("A", "1", [b, c], []), Node("B", "1", [c], []), Node("C", "1", [b], [])];
    assert Transient(g, [b, c]) == [c, b] by {
      assert g[1..] == [g[1], g[2]] && g[1..][1..] == [g[2]];
      assert FindPackage(g, "B") == Some(1);
      assert FindPackage(g, "C") == Some(2);
      assert Transient(g, [c]) == [b] by {
        assert [c][1..] == [];
      }
      assert [b, c][1..] == [c];
    }
    assert Reduced([b, c], [c, b]) == [] by {
      assert HasDep([c, b], "C") && HasDep([c, b], "B") by {
        assert [c, b][0].name == "C" && [c, b][1].name == "B";
      }
      assert Reduced([b], [c, b]) == [] by {
        assert [b][..0] == [];
      }
      assert [b, c][..1] == [b];
    }
    ReduceFirst(g);
  }

  /** Only two hops count: with A listing B and D, B listing C and C listing
      D, A keeps its edge to D although D is reachable through B. */
  lemma DistanceThreeKept()
    ensures
      var b, c, d := NewEntry("B", "1"), NewEntry("C", "1"), NewEntry("D", "1");
      var g := [Node("A", "1", [b, d], []), Node("B", "1", [c], []), Node("C", "1", [d], []), Node("D", "1", [], [])];
      ReduceAll(g)[0].deps == [b, d]
  {
    var b, c, d := NewEntry("B", "1"), NewEntry("C", "1"), NewEntry("D", "1");
    var g := [Node("A", "1", [b, d], []), Node("B", "1", [c], []), Node("C", "1", [d], []), Node("D", "1", [], [])];
    ChainTransient(g, b, c, d);
    assert Reduced([b, d], [c]) == [b, d] by {
      assert !HasDep([c], "B") && !HasDep([c], "D") by {
        assert |[c]| == 1 && [c][0].name == "C";
      }
      assert Reduced([b], [c]) == [b] by {
        assert [b][..0] == [];
      }
      assert [b, d][..1] == [b];
    }
    ReduceFirst(g);
  }

  /** In the chain A -> B -> C -> D with A also listing D, the two-hop list
      of A holds only C. */
  lemma ChainTransient(g: seq<Node>, b: Entry, c: Entry, d: Entry)
    requires b == NewEntry("B", "1") && c == NewEntry("C", "1") && d == NewEntry("D", "1")
    requires g == [Node("A", "1", [b, d], []), Node("B", "1", [c], []), Node("C", "1", [d], []), Node("D", "1", [], [])]
    ensures Transient(g, [b, d]) == [c]
  {
    assert g[1..] == [g[1], g[2], g[3]] && g[1..][1..] == [g[2], g[3]] && g[1..][1..][1..] == [g[3]];
    assert FindPackage(g, "B") == Some(1);
    assert FindPackage(g, "D") == Some(3);
    assert Transient(g, [d]) == [] by {
      assert [d][1..] == [];
    }
    assert [b, d][1..] == [d];
  }

  /** The inner loop (lines 90-96): walks a copy of the list and removes, from
      the live list, each entry whose name is in `t`. */
  method RemoveTransient(p: Package, t: seq<Entry>)
    modifies p`dependencies
    ensures p.dependencies == Reduced(old(p.dependencies), t)
  {
    var snapshot := p.dependencies;
    for k := 0 to |snapshot|
      invariant p.dependencies == Reduced(snapshot[..k], t) + snapshot[k..]
    {
      var d := snapshot[k];
      RemoveStep(snapshot, k, t, p.dependencies);
      if HasDep(t, d.name) {
        var _ := p.RemoveDependency(d);
      }
    }
    assert snapshot[..|snapshot|] == snapshot;
  }

  /** One turn of the inner loop, on values: handling the entry at `k`
      moves it from the unread part to the reduced prefix. */
  lemma RemoveStep(snapshot: seq<Entry>, k: nat, t: seq<Entry>, live: seq<Entry>)
    requires k < |snapshot| && live == Reduced(snapshot[..k], t) + snapshot[k..]
    ensures (if HasDep(t, snapshot[k].name) then RemoveFirst(live, snapshot[k]) else live) ==
      Reduced(snapshot[..k + 1], t) + snapshot[k + 1..]
  {
    var d := snapshot[k];
    assert snapshot[..k + 1] == snapshot[..k] + [d];
    assert snapshot[k..] == [d] + snapshot[k + 1..];
    if HasDep(t, d.name) {
      DropStep(snapshot[..k], d, snapshot[k + 1..], t);
    } else {
      ReducedSnoc(snapshot[..k], d, t);
    }
  }

  /** Removing an entry whose name is in `t` from the live list extends the
      reduced prefix by nothing. */
  lemma DropStep(front: seq<Entry>, d: Entry, rest: seq<Entry>, t: seq<Entry>)
    requires HasDep(t, d.name)
    ensures RemoveFirst(Reduced(front, t) + ([d] + rest), d) == Reduced(front + [d], t) + rest
  {
    var kept := Reduced(front, t);
    assert d !in kept by { ReducedMeaning(front, t); }
    ReducedSnoc(front, d, t);
    RemoveFirstAfter(kept, d, rest);
  }

  lemma ReducedSnoc(a: seq<Entry>, x: Entry, t: seq<Entry>)
    ensures Reduced(a + [x], t) == Reduced(a, t) + (if HasDep(t, x.name) then [] else [x])
  {
    assert (a + [x])[..|a|] == a;
  }

  /** `RemoveDirectDependenciesThatAreTransient` over the listed packages:
      the pass `ReduceAll`, touching only dependency lists. */
  method RemoveDirectDependenciesThatAreTransient(pkgs: seq<Package>)
    requires Distinct(pkgs)
    modifies pkgs
    ensures Nodes(pkgs) == ReduceAll(old(Nodes(pkgs)))
    ensures forall p :: p in pkgs ==>
      p.usageCount == old(p.usageCount) && p.guid == old(p.guid) && p.rootName == old(p.rootName)
  {
    ghost var g0 := Nodes(pkgs);
    for i := 0 to |pkgs|
      invariant Nodes(pkgs) == ReduceUpTo(g0, i)
      invariant forall p :: p in pkgs ==>
        p.usageCount == old(p.usageCount) && p.guid == old(p.guid) && p.rootName == old(p.rootName)
    {
      ghost var before := Nodes(pkgs);
      var p := pkgs[i];
      var t := Transient(Nodes(pkgs), p.dependencies);
      RemoveTransient(p, t);
      assert forall j :: 0 <= j < |pkgs| && j != i ==> pkgs[j] != p;
      StepMatches(before, Nodes(pkgs), i);
    }
  }

  /** The state after handling the package at `i`, from the values: only its
      dependency list changed, to the reduced list. */
  lemma StepMatches(before: seq<Node>, after: seq<Node>, i: nat)
    requires i < |before| == |after|
    requires forall j :: 0 <= j < |before| && j != i ==> after[j] == before[j]
    requires after[i] == before[i].(deps := Reduced(before[i].deps, Transient(before, before[i].deps)))
    ensures after == ReduceStep(before, i)
  {
  }
}
