/** The package graph: `Package` (Models/Package.cs) and `ChildPackage`
    (Models/ChildPackage.cs), plus the lookups every component shares. */
module Models {
  import opened Wrappers

  /** A back-reference stored on a package P that some consumer uses:
      `name` is the consumer's name, `parentVersion` the version of P that the
      consumer declares, `version` the consumer's own version. Any three
      strings make one; nothing is validated. */
  datatype ChildPackage = ChildPackage(name: string, parentVersion: string, version: string)

  /** A dependency entry: the `Package` object that a package's `Dependencies`
      list holds for one declared dependency. The parsers create each entry
      with the two-argument constructor, so `deps` is empty; `guid` is "" until
      the diagram builder resolves the entry ("" stands for C#'s null). */
  datatype Entry = Entry(name: string, version: string, deps: seq<Entry>, guid: string)

  /** `new Package(name, version)` as the parsers use it for dependency entries. */
  function NewEntry(name: string, version: string): (e: Entry)
    ensures e.name == name && e.version == version
    ensures e.deps == [] && e.guid == ""
  {
    Entry(name, version, [], "")
  }

  /** The value of one package as the graph algorithms see it. */
  datatype Node = Node(name: string, version: string, deps: seq<Entry>, usedBy: seq<ChildPackage>)

  /** Every entry was built by the two-argument constructor (no nested dependencies). */
  predicate LeafEntries(deps: seq<Entry>)
  {
    forall k :: 0 <= k < |deps| ==> deps[k].deps == []
  }

  /** Every entry of every package has an empty dependency list. */
  predicate AllLeafEntries(g: seq<Node>)
  {
    forall i :: 0 <= i < |g| ==> LeafEntries(g[i].deps)
  }

  /** `deps.Any(y => y.Name.Equals(n))`: ordinal, case-sensitive. */
  predicate HasDep(deps: seq<Entry>, n: string)
  {
    exists k :: 0 <= k < |deps| && deps[k].name == n
  }

  /** `deps.First(x => x.Name.Equals(n))`: the position of the first entry named `n`. */
  function FirstDepIndex(deps: seq<Entry>, n: string): (k: nat)
    requires HasDep(deps, n)
    ensures k < |deps| && deps[k].name == n
    ensures forall j :: 0 <= j < k ==> deps[j].name != n
  {
    if deps[0].name == n then 0
    else
      assert HasDep(deps[1..], n) by {
        var k :| 0 <= k < |deps| && deps[k].name == n;
        assert deps[1..][k - 1] == deps[k];
      }
      1 + FirstDepIndex(deps[1..], n)
  }

  /** The elements of a list at the given positions, in the order given:
      a `Where` keeps ascending positions, an `OrderBy` a permutation. */
  function Pick<T>(s: seq<T>, js: seq<nat>): (r: seq<T>)
    requires forall k :: 0 <= k < |js| ==> js[k] < |s|
    ensures |r| == |js| && forall k :: 0 <= k < |js| ==> r[k] == s[js[k]]
  {
    seq(|js|, k requires 0 <= k < |js| => s[js[k]])
  }

  /** The package names, in list order. */
  function Names(g: seq<Node>): (r: seq<string>)
    ensures |r| == |g| && forall i :: 0 <= i < |g| ==> r[i] == g[i].name
  {
    seq(|g|, i requires 0 <= i < |g| => g[i].name)
  }

  /** `packages.FirstOrDefault(x => x.Name.Equals(n))`, as a position. */
  function FindPackage(g: seq<Node>, n: string): (r: Option<nat>)
    ensures r.Some? ==> r.value < |g| && g[r.value].name == n &&
                        forall j :: 0 <= j < r.value ==> g[j].name != n
    ensures r.None? ==> forall j :: 0 <= j < |g| ==> g[j].name != n
  {
    if g == [] then None
    else if g[0].name == n then Some(0)
    else match FindPackage(g[1..], n)
      case None => None
      case Some(j) => Some(j + 1)
  }

  /** `List.Remove(x)`: drops the first occurrence of `x`, if any. */
  function RemoveFirst(s: seq<Entry>, x: Entry): (r: seq<Entry>)
    ensures x in s ==> |r| == |s| - 1
    ensures x !in s ==> r == s
  {
    if s == [] then []
    else if s[0] == x then s[1..]
    else [s[0]] + RemoveFirst(s[1..], x)
  }

  /** Removing `x` when it occurs first right after `a` leaves `a` and what follows. */
  lemma {:induction false} RemoveFirstAfter(a: seq<Entry>, x: Entry, b: seq<Entry>)
    requires x !in a
    ensures RemoveFirst(a + ([x] + b), x) == a + b
  {
    var s := a + ([x] + b);
    if a == [] {
      assert s == [x] + b;
    } else {
      assert a == [a[0]] + a[1..];
      assert s[0] == a[0] && s[0] != x;
      assert s[1..] == a[1..] + ([x] + b);
      RemoveFirstAfter(a[1..], x, b);
      assert a + b == [a[0]] + (a[1..] + b);
    }
  }

  /** Models/Package.cs. `usageCount` is the cached
      `NumberOfPackagesThatUseThisPackage`, which the collection-changed
      handler keeps equal to the length of `usedBy`. */
  class Package {
    var name: string
    var version: string
    var dependencies: seq<Entry>
    var usedBy: seq<ChildPackage>
    var usageCount: nat
    var guid: string
    var rootName: string

    /** The count is the live length of the used-by list. */
    ghost predicate Valid()
      reads this
    {
      usageCount == |usedBy|
    }

    function AsNode(): Node
      reads this
    {
      Node(name, version, dependencies, usedBy)
    }

    /** `Package(name, version)`: no dependencies, nobody uses it yet. */
    constructor WithoutDependencies(name: string, version: string)
      ensures Valid()
      ensures this.name == name && this.version == version && dependencies == []
      ensures usedBy == [] && usageCount == 0 && guid == "" && rootName == ""
    {
      this.name := name;
      this.version := version;
      dependencies := [];
      usedBy := [];
      usageCount := 0;
      guid := "";
      rootName := "";
    }

    /** `Package(name, version, dependencies)`: stores the three arguments
        unchanged and starts with an empty used-by list. */
    constructor (name: string, version: string, dependencies: seq<Entry>)
      ensures Valid()
      ensures this.name == name && this.version == version && this.dependencies == dependencies
      ensures usedBy == [] && usageCount == 0 && guid == "" && rootName == ""
    {
      this.name := name;
      this.version := version;
      this.dependencies := dependencies;
      usedBy := [];
      usageCount := 0;
      guid := "";
      rootName := "";
    }

    /** `PackagesThatUseThisPackage.Add(c)`, followed by the change handler
        `UpdateNumberOfPackagesThatUseThisPackage` recounting the list. */
    method AddUsedBy(c: ChildPackage)
      requires Valid()
      modifies this`usedBy, this`usageCount
      ensures Valid()
      ensures usedBy == old(usedBy) + [c] && usageCount == old(usageCount) + 1
    {
      usedBy := usedBy + [c];
      usageCount := |usedBy|;
    }

    /** `Dependencies.Remove(d)`. */
    method RemoveDependency(d: Entry) returns (removed: bool)
      modifies this`dependencies
      ensures removed == (d in old(dependencies))
      ensures dependencies == RemoveFirst(old(dependencies), d)
    {
      removed := d in dependencies;
      dependencies := RemoveFirst(dependencies, d);
    }

    /** `dependency.Guid = g` on the `k`-th entry. */
    method SetDependencyGuid(k: nat, g: string)
      requires k < |dependencies|
      modifies this`dependencies
      ensures dependencies == old(dependencies)[k := old(dependencies)[k].(guid := g)]
    {
      dependencies := dependencies[k := dependencies[k].(guid := g)];
    }
  }

  /** No package object occurs twice in the list. */
  predicate Distinct(pkgs: seq<Package>)
  {
    forall i, j :: 0 <= i < j < |pkgs| ==> pkgs[i] != pkgs[j]
  }

  ghost predicate AllValid(pkgs: seq<Package>)
    reads pkgs
  {
    forall p :: p in pkgs ==> p.Valid()
  }

  /** The values of the listed packages, in list order. */
  function Nodes(pkgs: seq<Package>): (g: seq<Node>)
    reads pkgs
  {
    seq(|pkgs|, i requires 0 <= i < |pkgs| reads pkgs => pkgs[i].AsNode())
  }

  lemma NodesAppend(pkgs: seq<Package>, p: Package)
    ensures Nodes(pkgs + [p]) == Nodes(pkgs) + [p.AsNode()]
  {
  }
}
