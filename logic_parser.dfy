/** BusinessLogic/ProjectAssetsJsonParser.cs (`Parser`): reads the single
    target ".NETStandard,Version=v2.1", keeps every package, keeps only the
    dependencies whose names start with the prefix, and indexes reverse usage
    once, on the packages whose names start with the prefix, drawing consumers
    from all packages. */
module LogicParser {
  import opened Wrappers
  import opened Strings
  import opened Models
  import opened UsageIndex
  import opened AssetsJson
  import AssetsParser

  const TargetFramework := ".NETStandard,Version=v2.1"

  /** `obj["targets"][framework]` from position `i` on: the first target with
      that name; a missing one is null, and enumerating it fails. */
  function FindTargetFrom(targets: seq<Target>, framework: string, i: nat): (r: Option<nat>)
    requires i <= |targets|
    decreases |targets| - i
    ensures r.None? <==> forall k :: i <= k < |targets| ==> targets[k].framework != framework
    ensures r.Some? ==> i <= r.value < |targets| && targets[r.value].framework == framework &&
                        forall k :: i <= k < r.value ==> targets[k].framework != framework
  {
    if i == |targets| then None
    else if targets[i].framework == framework then Some(i)
    else FindTargetFrom(targets, framework, i + 1)
  }

  function FindTarget(targets: seq<Target>, framework: string): (r: Option<nat>)
    ensures r.None? <==> forall k :: 0 <= k < |targets| ==> targets[k].framework != framework
    ensures r.Some? ==> r.value < |targets| && targets[r.value].framework == framework &&
                        forall k :: 0 <= k < r.value ==> targets[k].framework != framework
  {
    FindTargetFrom(targets, framework, 0)
  }

  /** Lines 36-42: one `new Package(key, value)` per dependency, in order. */
  function AllEntries(deps: seq<(string, string)>): (r: seq<Entry>)
    ensures |r| == |deps|

  {
    if deps == [] then [] else AllEntries(deps[..|deps| - 1]) + [NewEntry(deps[|deps| - 1].0, deps[|deps| - 1].1)]
  }

  /** Line 44: `Where(x => x.Name.StartsWith(prefix, OrdinalIgnoreCase))`,
      in order. */
  function WithPrefix(deps: seq<Entry>, prefix: string): seq<Entry>
  {
    if deps == [] then []
    else
      var last := deps[|deps| - 1];
      WithPrefix(deps[..|deps| - 1], prefix) + (if StartsWithIgnoreCase(last.name, prefix) then [last] else [])
  }

  /** Building every entry and then filtering gives the list the other parser
      builds by filtering while it reads, so the facts proved there (leaf
      entries, membership iff the key passes) hold here too. */
  lemma {:induction false} FilterAfterBuilding(deps: seq<(string, string)>, prefix: string)
    ensures WithPrefix(AllEntries(deps), prefix) == AssetsParser.KeptDependencies(deps, prefix)
  {
    if deps != [] {
      var front := deps[..|deps| - 1];
      FilterAfterBuilding(front, prefix);
      assert AllEntries(deps)[..|deps| - 1] == AllEntries(front);
    }
  }

  /** One member: its package, whatever its name, or the error of a
      malformed key. */
  function ReadOne(record: Record, prefix: string): (r: (seq<Node>, Option<Error>))
  {
    match GetPackageNameAndVersion(record.key)
    case Err(e) => ([], Some(e))
    case Ok((name, version)) => ([Node(name, version, WithPrefix(AllEntries(record.dependencies), prefix), [])], None)
  }

  /** The member loop: every member becomes a package; the first malformed
      key ends the loop. */
  function ReadAll(records: seq<Record>, prefix: string): (r: (seq<Node>, Option<Error>))
  {
    if records == [] then ([], None)
    else
      var one := ReadOne(records[0], prefix);
      if one.1.Some? then one
      else
        var rest := ReadAll(records[1..], prefix);
        (one.0 + rest.0, rest.1)
  }

  /** One step of the member loop: appending the member at `r` to what was
      read before it either ends the loop with its error or leaves the
      members after it to read. */
  lemma ReadAllAdvance(records: seq<Record>, r: nat, prefix: string, before: seq<Node>, after: seq<Node>)
    requires r < |records|
    requires after == before + ReadOne(records[r], prefix).0
    ensures ReadOne(records[r], prefix).1.Some? ==>
      ReadAll(records[r..], prefix) == ReadOne(records[r], prefix) && after == before + ReadAll(records[r..], prefix).0
    ensures ReadOne(records[r], prefix).1.None? ==>
      before + ReadAll(records[r..], prefix).0 == after + ReadAll(records[r + 1..], prefix).0 &&
      ReadAll(records[r..], prefix).1 == ReadAll(records[r + 1..], prefix).1
  {
    assert records[r..][0] == records[r] && records[r..][1..] == records[r + 1..];
  }

  /** With well-formed keys, every member gives a package at its own
      position, named and versioned by its key, whatever the prefix. */
  lemma {:induction false} ReadAllKeepsEveryMember(records: seq<Record>, prefix: string)
    requires forall k :: 0 <= k < |records| ==> '/' in records[k].key
    ensures ReadAll(records, prefix).1.None?
    ensures |ReadAll(records, prefix).0| == |records|
    ensures forall k :: 0 <= k < |records| ==>
      (ReadAll(records, prefix).0[k].name, ReadAll(records, prefix).0[k].version) == GetPackageNameAndVersion(records[k].key).value
  {
    if records != [] {
      assert forall k :: 0 <= k < |records[1..]| ==> records[1..][k] == records[k + 1];
      ReadAllKeepsEveryMember(records[1..], prefix);
    }
  }

  /** Dependency lists read here never hold nested entries. */
  lemma {:induction false} ReadAllLeafEntries(records: seq<Record>, prefix: string)
    ensures AllLeafEntries(ReadAll(records, prefix).0)
  {
    if records != [] && GetPackageNameAndVersion(records[0].key).Ok? {
      ReadAllLeafEntries(records[1..], prefix);
      FilterAfterBuilding(records[0].dependencies, prefix);
      AssetsParser.KeptDependenciesMeaning(records[0].dependencies, prefix);
    }
  }

  /** The positions of the packages whose names start with the prefix, ascending. */
  function Passing(g: seq<Node>, prefix: string): (js: seq<nat>)
    ensures forall k :: 0 <= k < |js| ==> js[k] < |g| && StartsWithIgnoreCase(g[js[k]].name, prefix)
    ensures forall a, b :: 0 <= a < b < |js| ==> js[a] < js[b]
    ensures forall j :: 0 <= j < |g| && StartsWithIgnoreCase(g[j].name, prefix) ==> j in js
  {
    if g == [] then []
    else
      var m := |g| - 1;
      var front := Passing(g[..m], prefix);
      assert forall k :: 0 <= k < |front| ==> g[..m][front[k]] == g[front[k]];
      front + (if StartsWithIgnoreCase(g[m].name, prefix) then [m] else [])
  }

  /** The selection reads names only. */
  lemma {:induction false} PassingNamesOnly(a: seq<Node>, b: seq<Node>, prefix: string)
    requires |a| == |b| && forall j :: 0 <= j < |a| ==> a[j].name == b[j].name
    ensures Passing(a, prefix) == Passing(b, prefix)
  {
    if a != [] {
      PassingNamesOnly(a[..|a| - 1], b[..|b| - 1], prefix);
    }
  }

  /** An empty prefix selects every position. */
  lemma {:induction false} PassingEmptyPrefix(g: seq<Node>)
    ensures Passing(g, []) == seq(|g|, j requires 0 <= j < |g| => j)
  {
    if g != [] {
      PassingEmptyPrefix(g[..|g| - 1]);
    }
  }

  /** `GetFilteredPackages`: the list itself for an empty prefix, otherwise
      the packages whose names pass, in list order. */
  function GetFilteredPackages(all: seq<Package>, prefix: string): seq<Package>
    reads all
  {
    if prefix == [] then all else Pick(all, Passing(Nodes(all), prefix))
  }

  /** A package of a duplicate-free list is picked iff its position is. */
  lemma PickContains(all: seq<Package>, js: seq<nat>, i: nat)
    requires Distinct(all) && i < |all|
    requires forall k :: 0 <= k < |js| ==> js[k] < |all|
    ensures all[i] in Pick(all, js) <==> i in js
  {
    var r := Pick(all, js);
    if all[i] in r {
      var k :| 0 <= k < |r| && r[k] == all[i];
      assert all[js[k]] == all[i];
    }
    if i in js {
      var k :| 0 <= k < |js| && js[k] == i;
      assert r[k] == all[i];
    }
  }

  /** Picking ascending positions of a duplicate-free list leaves no duplicates. */
  lemma PickDistinct(all: seq<Package>, js: seq<nat>)
    requires Distinct(all)
    requires forall k :: 0 <= k < |js| ==> js[k] < |all|
    requires forall a, b :: 0 <= a < b < |js| ==> js[a] < js[b]
    ensures Distinct(Pick(all, js))
  {
  }

  /** Both branches of `GetFilteredPackages` agree: the empty prefix passes
      every name. */
  lemma FilteredBranchesAgree(all: seq<Package>, prefix: string)
    ensures GetFilteredPackages(all, prefix) == Pick(all, Passing(Nodes(all), prefix))
  {
    if prefix == [] {
      PassingEmptyPrefix(Nodes(all));
    }
  }

  /** The filtered list holds each passing package once and nothing else. */
  lemma FilteredPackagesMeaning(all: seq<Package>, prefix: string)
    requires Distinct(all)
    ensures Distinct(GetFilteredPackages(all, prefix))
    ensures forall i :: 0 <= i < |all| ==>
      (all[i] in GetFilteredPackages(all, prefix) <==> StartsWithIgnoreCase(all[i].name, prefix))
  {
    FilteredBranchesAgree(all, prefix);
    var js := Passing(Nodes(all), prefix);
    PickDistinct(all, js);
    forall i | 0 <= i < |all|
      ensures all[i] in Pick(all, js) <==> StartsWithIgnoreCase(all[i].name, prefix)
    {
      PickContains(all, js, i);
      assert Nodes(all)[i].name == all[i].name;
    }
  }

  /** The index pass of lines 48-56 on values: packages whose names pass gain
      one back-reference per consumer among ALL packages; others are untouched. */
  function IndexSelected(g: seq<Node>, prefix: string): (r: seq<Node>)
  {
    seq(|g|, i requires 0 <= i < |g| =>
      if StartsWithIgnoreCase(g[i].name, prefix) then WithBackRefs(g[i], g) else g[i])
  }

  /** `Parse` on values: the state after the member loop and the index pass,
      and the error, if any. A missing target, or a malformed key, stops
      before the index pass. */
  function ParseSpec(g: seq<Node>, targets: seq<Target>, prefix: string): (r: (seq<Node>, Option<Error>))
  {
    match FindTarget(targets, TargetFramework)
    case None => (g, Some(MissingTarget(TargetFramework)))
    case Some(t) =>
      var read := ReadAll(targets[t].packages, prefix);
      if read.1.Some? then (g + read.0, read.1) else (IndexSelected(g + read.0, prefix), None)
  }

  /** Consumers outside the prefix still count: "Other.App" (rejected by the
      prefix "Foo") lists "Foo.Core", and "Foo.Core" records it. */
  lemma UnfilteredConsumers()
    ensures
      var g := [Node("Foo.Core", "2.0.0", [], []),
                Node("Other.App", "1.0.0", [NewEntry("Foo.Core", "2.0.0")], [])];
      !StartsWithIgnoreCase("Other.App", "Foo") &&
      IndexSelected(g, "Foo")[0].usedBy == [ChildPackage("Other.App", "2.0.0", "1.0.0")]
  {
    var g := [Node("Foo.Core", "2.0.0", [], []),
              Node("Other.App", "1.0.0", [NewEntry("Foo.Core", "2.0.0")], [])];
    assert UpperAscii("Other.App"[0]) != UpperAscii("Foo"[0]);
    assert StartsWithIgnoreCase("Foo.Core", "Foo");
    assert !HasDep(g[0].deps, "Foo.Core");
    assert HasDep(g[1].deps, "Foo.Core") by { assert g[1].deps[0].name == "Foo.Core"; }
    assert FirstDepIndex(g[1].deps, "Foo.Core") == 0;
    assert g[..1] == [g[0]] && g[..1][..0] == [] && g[..|g| - 1] == g[..1];
    assert BackRefs(g[..1], "Foo.Core") == [];
    assert BackRefs(g, "Foo.Core") == [ChildPackage("Other.App", "2.0.0", "1.0.0")];
  }

  class Parser {
    /** The file path; reading the file is outside the model. */
    const jsonPath: string
    const packageFilterPrefix: string
    var allPackages: seq<Package>

    ghost predicate Valid()
      reads this, allPackages
    {
      Distinct(allPackages) && AllValid(allPackages)
    }

    constructor (projectAssetsJsonPath: string, packageFilterPrefix: string)
      ensures Valid() && jsonPath == projectAssetsJsonPath
      ensures this.packageFilterPrefix == packageFilterPrefix && allPackages == []
    {
      jsonPath := projectAssetsJsonPath;
      this.packageFilterPrefix := packageFilterPrefix;
      allPackages := [];
    }

    /** Lines 32-44: build every entry, then keep those with the prefix. */
    static method DependencyList(deps: seq<(string, string)>, prefix: string) returns (list: seq<Entry>)
      ensures list == WithPrefix(AllEntries(deps), prefix)
    {
      var built := [];
      for k := 0 to |deps|
        invariant built == AllEntries(deps[..k])
      {
        assert deps[..k + 1][..k] == deps[..k];
        built := built + [NewEntry(deps[k].0, deps[k].1)];
      }
      assert deps[..|deps|] == deps;
      list := [];
      for k := 0 to |built|
        invariant list == WithPrefix(built[..k], prefix)
      {
        assert built[..k + 1][..k] == built[..k];
        if StartsWithIgnoreCase(built[k].name, prefix) {
          list := list + [built[k]];
        }
      }
      assert built[..|built|] == built;
    }

    /** `allPackages.Add(new Package(name, version, dependencies))`. */
    method AddPackage(name: string, version: string, dependencies: seq<Entry>)
      requires Valid()
      modifies this`allPackages
      ensures Valid()
      ensures |allPackages| == |old(allPackages)| + 1
      ensures allPackages[..|old(allPackages)|] == old(allPackages) && fresh(allPackages[|old(allPackages)|])
      ensures Nodes(allPackages) == old(Nodes(allPackages)) + [Node(name, version, dependencies, [])]
    {
      var p := new Package(name, version, dependencies);
      NodesAppend(allPackages, p);
      allPackages := allPackages + [p];
    }

    /** Lines 27-45: one member. */
    method ReadMember(record: Record) returns (failure: Option<Error>)
      requires Valid()
      modifies this`allPackages
      ensures Valid()
      ensures old(allPackages) <= allPackages
      ensures forall k :: |old(allPackages)| <= k < |allPackages| ==> fresh(allPackages[k])
      ensures Nodes(allPackages) == old(Nodes(allPackages)) + ReadOne(record, packageFilterPrefix).0
      ensures failure == ReadOne(record, packageFilterPrefix).1
    {
      var nameVersion := GetPackageNameAndVersion(record.key);
      if nameVersion.Err? {
        return Some(nameVersion.error);
      }
      var (name, version) := nameVersion.value;
      var list := DependencyList(record.dependencies, packageFilterPrefix);
      AddPackage(name, version, list);
      failure := None;
    }

    /** Lines 25-46: the member loop. */
    method ReadMembers(records: seq<Record>) returns (failure: Option<Error>)
      requires Valid()
      modifies this`allPackages
      ensures Valid()
      ensures old(allPackages) <= allPackages
      ensures forall k :: |old(allPackages)| <= k < |allPackages| ==> fresh(allPackages[k])
      ensures Nodes(allPackages) == old(Nodes(allPackages)) + ReadAll(records, packageFilterPrefix).0
      ensures failure == ReadAll(records, packageFilterPrefix).1
    {
      ghost var g0 := Nodes(allPackages);
      ghost var whole := ReadAll(records, packageFilterPrefix);
      var r := 0;
      while r < |records|
        invariant r <= |records|
        invariant Valid()
        invariant old(allPackages) <= allPackages
        invariant forall k :: |old(allPackages)| <= k < |allPackages| ==> fresh(allPackages[k])
        invariant Nodes(allPackages) + ReadAll(records[r..], packageFilterPrefix).0 == g0 + whole.0
        invariant ReadAll(records[r..], packageFilterPrefix).1 == whole.1
      {
        ghost var before := Nodes(allPackages);
        failure := ReadMember(records[r]);
        ReadAllAdvance(records, r, packageFilterPrefix, before, Nodes(allPackages));
        if failure.Some? {
          return;
        }
        r := r + 1;
      }
      assert records[|records|..] == [];
      failure := None;
    }

    /** Lines 48-56 over the packages read: `result` gains back-references
        drawn from all packages; the rest stay as they are. */
    method IndexFiltered() returns (result: seq<Package>)
      requires Valid()
      modifies allPackages
      ensures Valid()
      ensures result == Pick(allPackages, Passing(old(Nodes(allPackages)), packageFilterPrefix))
      ensures Nodes(allPackages) == IndexSelected(old(Nodes(allPackages)), packageFilterPrefix)
    {
      ghost var before := Nodes(allPackages);
      FilteredBranchesAgree(allPackages, packageFilterPrefix);
      FilteredPackagesMeaning(allPackages, packageFilterPrefix);
      result := GetFilteredPackages(allPackages, packageFilterPrefix);
      assert forall i :: 0 <= i < |allPackages| ==>
        (allPackages[i] in result <==> StartsWithIgnoreCase(before[i].name, packageFilterPrefix));
      AddBackReferences(result, allPackages);
      forall i | 0 <= i < |allPackages|
        ensures allPackages[i].AsNode() == IndexSelected(before, packageFilterPrefix)[i]
      {
        var p := allPackages[i];
        if p in result {
          var k :| 0 <= k < |result| && result[k] == p;
          assert p.usedBy == before[i].usedBy + BackRefs(before, before[i].name);
        }
      }
    }

    /** `Parse`: the filtered list, or the error that stopped it;
        `allPackages` keeps every package read, including those of earlier
        calls. */
    method Parse(targets: seq<Target>) returns (r: Result<seq<Package>>)
      requires Valid()
      modifies this, allPackages
      ensures Valid()
      ensures old(allPackages) <= allPackages
      ensures forall k :: |old(allPackages)| <= k < |allPackages| ==> fresh(allPackages[k])
      ensures Nodes(allPackages) == ParseSpec(old(Nodes(allPackages)), targets, packageFilterPrefix).0
      ensures r == match ParseSpec(old(Nodes(allPackages)), targets, packageFilterPrefix).1
                   case None => Ok(GetFilteredPackages(allPackages, packageFilterPrefix))
                   case Some(e) => Err(e)
    {
      var found := FindTarget(targets, TargetFramework);
      if found.None? {
        return Err(MissingTarget(TargetFramework));
      }
      var failure := ReadMembers(targets[found.value].packages);
      if failure.Some? {
        return Err(failure.value);
      }
      ghost var read := Nodes(allPackages);
      var result := IndexFiltered();
      PassingNamesOnly(Nodes(allPackages), read, packageFilterPrefix);
      FilteredBranchesAgree(allPackages, packageFilterPrefix);
      r := Ok(result);
    }
  }
}
