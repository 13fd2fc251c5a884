/** The reverse-usage index pass that both parsers run: for every package P
    and every consumer C that lists P by exact name, P gains
    `ChildPackage(C.Name, <C's declared version of P>, C.Version)`. */
module UsageIndex {
  import opened Models

  /** The back-reference that consumer `c` gives the package named `n`: the
      version is taken from the FIRST entry of `c` that names `n`. */
  function RefFrom(c: Node, n: string): ChildPackage
    requires HasDep(c.deps, n)
  {
    ChildPackage(c.name, c.deps[FirstDepIndex(c.deps, n)].version, c.version)
  }

  /** What one pass appends to a package named `n`, consumers taken in list order. */
  function BackRefs(consumers: seq<Node>, n: string): seq<ChildPackage>
  {
    if consumers == [] then []
    else
      var last := consumers[|consumers| - 1];
      BackRefs(consumers[..|consumers| - 1], n) + (if HasDep(last.deps, n) then [RefFrom(last, n)] else [])
  }

  /** The positions of the consumers that list `n`, ascending. */
  function Users(consumers: seq<Node>, n: string): (js: seq<nat>)
    ensures forall k :: 0 <= k < |js| ==> js[k] < |consumers| && HasDep(consumers[js[k]].deps, n)
    ensures forall a, b :: 0 <= a < b < |js| ==> js[a] < js[b]
    ensures forall j :: 0 <= j < |consumers| && HasDep(consumers[j].deps, n) ==> j in js
  {
    if consumers == [] then []
    else
      var m := |consumers| - 1;
      var front := Users(consumers[..m], n);
      assert forall k :: 0 <= k < |front| ==> consumers[..m][front[k]] == consumers[front[k]];
      front + (if HasDep(consumers[m].deps, n) then [m] else [])
  }

  /** One entry per consumer that lists `n`, in consumer order, each carrying
      that consumer's name, its declared version of `n` and its own version. */
  lemma {:induction false} BackRefsFollowUsers(consumers: seq<Node>, n: string)
    ensures |BackRefs(consumers, n)| == |Users(consumers, n)|
    ensures forall k :: 0 <= k < |Users(consumers, n)| ==>
      BackRefs(consumers, n)[k] == RefFrom(consumers[Users(consumers, n)[k]], n)
  {
    if consumers != [] {
      var m := |consumers| - 1;
      var front := consumers[..m];
      BackRefsFollowUsers(front, n);
      var uf := Users(front, n);
      var tail := if HasDep(consumers[m].deps, n) then [RefFrom(consumers[m], n)] else [];
      assert BackRefs(consumers, n) == BackRefs(front, n) + tail;
      assert Users(consumers, n) == uf + (if HasDep(consumers[m].deps, n) then [m] else []);
      assert forall k :: 0 <= k < |uf| ==> front[uf[k]] == consumers[uf[k]];
    }
  }

  /** With unique consumer names, a consumer that lists `n` gives exactly one
      entry, and it carries the version of its first entry named `n`. */
  lemma OneRefPerConsumer(consumers: seq<Node>, n: string, j: nat)
    requires forall a, b :: 0 <= a < b < |consumers| ==> consumers[a].name != consumers[b].name
    requires j < |consumers| && HasDep(consumers[j].deps, n)
    ensures exists k :: 0 <= k < |BackRefs(consumers, n)| && BackRefs(consumers, n)[k] == RefFrom(consumers[j], n)
    ensures forall k, k' :: 0 <= k < k' < |BackRefs(consumers, n)| ==>
      BackRefs(consumers, n)[k].name != consumers[j].name || BackRefs(consumers, n)[k'].name != consumers[j].name
  {
    BackRefsFollowUsers(consumers, n);
    var js := Users(consumers, n);
    var r := BackRefs(consumers, n);
    var k :| 0 <= k < |js| && js[k] == j;
    assert r[k] == RefFrom(consumers[j], n);
    forall a, b | 0 <= a < b < |r|
      ensures r[a].name != consumers[j].name || r[b].name != consumers[j].name
    {
      assert r[a].name == consumers[js[a]].name && r[b].name == consumers[js[b]].name;
      assert js[a] < js[b];
    }
  }

  /** A consumer that lists no entry named exactly `n` contributes nothing:
      when none does, the pass appends nothing. */
  lemma {:induction false} NoUsersNoRefs(consumers: seq<Node>, n: string)
    requires forall j :: 0 <= j < |consumers| ==> !HasDep(consumers[j].deps, n)
    ensures BackRefs(consumers, n) == []
  {
    if consumers != [] {
      NoUsersNoRefs(consumers[..|consumers| - 1], n);
    }
  }

  /** Two lists that declare the same things give the same back-references:
      earlier used-by entries play no part. */
  lemma {:induction false} BackRefsIgnoreUsedBy(a: seq<Node>, b: seq<Node>, n: string)
    requires |a| == |b|
    requires forall j :: 0 <= j < |a| ==> a[j].name == b[j].name && a[j].version == b[j].version && a[j].deps == b[j].deps
    ensures BackRefs(a, n) == BackRefs(b, n)
  {
    if a != [] {
      BackRefsIgnoreUsedBy(a[..|a| - 1], b[..|b| - 1], n);
    }
  }

  function WithBackRefs(node: Node, consumers: seq<Node>): Node
  {
    node.(usedBy := node.usedBy + BackRefs(consumers, node.name))
  }

  /** One pass over the whole list (every package is a target and a consumer). */
  function IndexAll(g: seq<Node>): (r: seq<Node>)
  {
    seq(|g|, i requires 0 <= i < |g| => WithBackRefs(g[i], g))
  }

  /** A second pass over an already indexed list appends the same batch again:
      the pass is not idempotent. */
  lemma IndexTwiceDuplicates(g: seq<Node>, i: nat)
    requires i < |g|
    ensures IndexAll(IndexAll(g))[i].usedBy ==
      g[i].usedBy + BackRefs(g, g[i].name) + BackRefs(g, g[i].name)
  {
    BackRefsIgnoreUsedBy(IndexAll(g), g, g[i].name);
  }

  /** Consumers that declare what `g` records (used-by lists aside). */
  ghost predicate Declares(consumers: seq<Package>, g: seq<Node>)
    reads consumers
  {
    |consumers| == |g| &&
    forall j :: 0 <= j < |consumers| ==>
      consumers[j].name == g[j].name && consumers[j].version == g[j].version &&
      consumers[j].dependencies == g[j].deps
  }

  /** The inner loop for one package `p`: `foreach consumer in consumers where
      consumer lists p.Name`, append its back-reference. */
  method AddUsersOf(p: Package, consumers: seq<Package>, ghost g: seq<Node>)
    requires p.Valid() && Declares(consumers, g)
    modifies p`usedBy, p`usageCount
    ensures p.Valid()
    ensures p.usedBy == old(p.usedBy) + BackRefs(g, p.name)
  {
    for j := 0 to |consumers|
      invariant p.Valid() && Declares(consumers, g)
      invariant p.usedBy == old(p.usedBy) + BackRefs(g[..j], p.name)
    {
      var c := consumers[j];
      assert g[..j + 1][..j] == g[..j];
      if HasDep(c.dependencies, p.name) {
        var first := c.dependencies[FirstDepIndex(c.dependencies, p.name)];
        p.AddUsedBy(ChildPackage(c.name, first.version, c.version));
      }
    }
    assert g[..|consumers|] == g;
  }

  /** `foreach package in targets, foreach consumer in consumers where consumer
      lists package.Name: package.PackagesThatUseThisPackage.Add(...)`. The
      back-references are computed from what the consumers declare when the
      pass starts. */
  method AddBackReferences(targets: seq<Package>, consumers: seq<Package>)
    requires Distinct(targets) && AllValid(targets)
    modifies targets
    ensures AllValid(targets)
    ensures forall k :: 0 <= k < |targets| ==>
      targets[k].usedBy == old(targets[k].usedBy) + BackRefs(old(Nodes(consumers)), targets[k].name)
    ensures forall p :: p in targets ==>
      p.name == old(p.name) && p.version == old(p.version) && p.dependencies == old(p.dependencies) &&
      p.guid == old(p.guid) && p.rootName == old(p.rootName)
  {
    ghost var g0 := Nodes(consumers);
    for i := 0 to |targets|
      invariant AllValid(targets) && Declares(consumers, g0)
      invariant forall k :: 0 <= k < i ==>
        targets[k].usedBy == old(targets[k].usedBy) + BackRefs(g0, targets[k].name)
      invariant forall k :: i <= k < |targets| ==> targets[k].usedBy == old(targets[k].usedBy)
      invariant forall p :: p in targets ==>
        p.name == old(p.name) && p.version == old(p.version) && p.dependencies == old(p.dependencies) &&
        p.guid == old(p.guid) && p.rootName == old(p.rootName)
    {
      AddUsersOf(targets[i], consumers, g0);
    }
  }
}
