/** Implementation/ProjectAssetsJsonParser.cs: reads every target framework of
    a project.assets.json, keeps the packages and dependencies whose names
    start with a prefix, and re-indexes reverse usage after each framework. */
module AssetsParser {
  import opened Wrappers
  import opened Strings
  import opened Models
  import opened UsageIndex
  import opened AssetsJson

  /** `StringStartsWithPrefix`: an empty prefix admits everything (a null
      prefix cannot arise in this model); otherwise an ordinal
      case-insensitive prefix test. */
  function StringStartsWithPrefix(s: string, prefix: string): (r: bool)
    ensures prefix == [] ==> r
    ensures r <==> |prefix| <= |s| &&
                   forall k :: 0 <= k < |prefix| ==> UpperAscii(s[k]) == UpperAscii(prefix[k])
  {
    if prefix == [] then true else StartsWithIgnoreCase(s, prefix)
  }

  /** The dependency entries built for one member: those whose key passes the
      prefix test, in document order, each `new Package(key, value)`. */
  function KeptDependencies(deps: seq<(string, string)>, prefix: string): seq<Entry>
  {
    if deps == [] then []
    else
      var last := deps[|deps| - 1];
      KeptDependencies(deps[..|deps| - 1], prefix) +
        (if StringStartsWithPrefix(last.0, prefix) then [NewEntry(last.0, last.1)] else [])
  }

  /** Filtering distributes over concatenation, so document order is kept. */
  lemma {:induction false} KeptDependenciesAppend(a: seq<(string, string)>, b: seq<(string, string)>, prefix: string)
    ensures KeptDependencies(a + b, prefix) == KeptDependencies(a, prefix) + KeptDependencies(b, prefix)
  {
    if b == [] {
      assert a + b == a;
    } else {
      KeptDependenciesAppend(a, b[..|b| - 1], prefix);
      assert (a + b)[..|a + b| - 1] == a + b[..|b| - 1];
    }
  }

  /** An entry is kept iff its key passes the prefix test; kept entries have
      no dependencies of their own. */
  lemma {:induction false} KeptDependenciesMeaning(deps: seq<(string, string)>, prefix: string)
    ensures LeafEntries(KeptDependencies(deps, prefix))
    ensures |KeptDependencies(deps, prefix)| <= |deps|
    ensures forall e :: e in KeptDependencies(deps, prefix) <==>
      exists k :: 0 <= k < |deps| && StringStartsWithPrefix(deps[k].0, prefix) && e == NewEntry(deps[k].0, deps[k].1)
  {
    if deps != [] {
      var front := deps[..|deps| - 1];
      KeptDependenciesMeaning(front, prefix);
      forall e | e in KeptDependencies(deps, prefix)
        ensures exists k :: 0 <= k < |deps| && StringStartsWithPrefix(deps[k].0, prefix) && e == NewEntry(deps[k].0, deps[k].1)
      {
        if e in KeptDependencies(front, prefix) {
          var k :| 0 <= k < |front| && StringStartsWithPrefix(front[k].0, prefix) && e == NewEntry(front[k].0, front[k].1);
          assert deps[k] == front[k];
        } else {
          assert deps[|deps| - 1].0 == e.name;
        }
      }
      forall k | 0 <= k < |deps| && StringStartsWithPrefix(deps[k].0, prefix)
        ensures NewEntry(deps[k].0, deps[k].1) in KeptDependencies(deps, prefix)
      {
        if k < |front| { assert front[k] == deps[k]; }
      }
    }
  }

  /** The packages one target contributes, and the error that stopped the
      member loop, if any. */
  datatype Reading = Reading(kept: seq<Node>, failure: Option<Error>)

  /** What one member contributes: its package if its name passes, nothing
      if not, the error of a malformed key. */
  function ReadMemberSpec(record: Record, prefix: string): Reading
  {
    match GetPackageNameAndVersion(record.key)
    case Err(e) => Reading([], Some(e))
    case Ok((name, version)) =>
      if StringStartsWithPrefix(name, prefix)
      then Reading([Node(name, version, KeptDependencies(record.dependencies, prefix), [])], None)
      else Reading([], None)
  }

  /** The member loop of one target: split each key (before any filtering),
      skip members whose name fails the prefix test, keep the rest in order
      with no deduplication. The first malformed key ends the loop. */
  function ReadPackages(records: seq<Record>, prefix: string): (r: Reading)
  {
    if records == [] then Reading([], None)
    else
      var one := ReadMemberSpec(records[0], prefix);
      if one.failure.Some? then one
      else
        var rest := ReadPackages(records[1..], prefix);
        Reading(one.kept + rest.kept, rest.failure)
  }

  /** One step of the member loop: appending what the member at `r`
      contributes either ends the loop with its error or leaves the members
      after it to read. */
  lemma ReadPackagesAdvance(records: seq<Record>, r: nat, prefix: string, before: seq<Node>, after: seq<Node>)
    requires r < |records|
    requires after == before + ReadMemberSpec(records[r], prefix).kept
    ensures ReadMemberSpec(records[r], prefix).failure.Some? ==>
      ReadPackages(records[r..], prefix) == ReadMemberSpec(records[r], prefix) &&
      after == before + ReadPackages(records[r..], prefix).kept
    ensures ReadMemberSpec(records[r], prefix).failure.None? ==>
      before + ReadPackages(records[r..], prefix).kept == after + ReadPackages(records[r + 1..], prefix).kept &&
      ReadPackages(records[r..], prefix).failure == ReadPackages(records[r + 1..], prefix).failure
  {
    assert records[r..][0] == records[r] && records[r..][1..] == records[r + 1..];
  }

  /** Every kept package passed the prefix test, holds only dependencies that
      passed it too, has no dependencies of its own entries, and is not used yet. */
  lemma {:induction false} ReadPackagesKept(records: seq<Record>, prefix: string)
    ensures |ReadPackages(records, prefix).kept| <= |records|
    ensures forall i :: 0 <= i < |ReadPackages(records, prefix).kept| ==>
      var n := ReadPackages(records, prefix).kept[i];
      StringStartsWithPrefix(n.name, prefix) && n.usedBy == [] && LeafEntries(n.deps) &&
      forall k :: 0 <= k < |n.deps| ==> StringStartsWithPrefix(n.deps[k].name, prefix)
  {
    if records != [] {
      ReadPackagesKept(records[1..], prefix);
      KeptDependenciesMeaning(records[0].dependencies, prefix);
      var deps := KeptDependencies(records[0].dependencies, prefix);
      forall k | 0 <= k < |deps| ensures StringStartsWithPrefix(deps[k].name, prefix) {
        assert deps[k] in deps;
      }
    }
  }

  /** The loop fails iff some key lacks '/'; it fails on the first such key. */
  lemma {:induction false} ReadPackagesFailure(records: seq<Record>, prefix: string)
    ensures ReadPackages(records, prefix).failure.Some? <==>
      exists k :: 0 <= k < |records| && '/' !in records[k].key
    ensures ReadPackages(records, prefix).failure.Some? ==>
      exists k :: 0 <= k < |records| && '/' !in records[k].key &&
        ReadPackages(records, prefix).failure == Some(MissingVersionSeparator(records[k].key)) &&
        forall j :: 0 <= j < k ==> '/' in records[j].key
  {
    if records != [] {
      ReadPackagesFailure(records[1..], prefix);
      if '/' in records[0].key {
        var r := ReadPackages(records, prefix);
        if r.failure.Some? {
          var k :| 0 <= k < |records[1..]| && '/' !in records[1..][k].key &&
            r.failure == Some(MissingVersionSeparator(records[1..][k].key)) &&
            forall j :: 0 <= j < k ==> '/' in records[1..][j].key;
          assert records[k + 1] == records[1..][k];
          forall j | 0 <= j < k + 1 ensures '/' in records[j].key {
            if j > 0 { assert records[j] == records[1..][j - 1]; }
          }
        }
        forall k | 0 <= k < |records| && '/' !in records[k].key
          ensures r.failure.Some?
        {
          assert records[1..][k - 1] == records[k];
        }
      }
    }
  }

  /** Records read one after the other are kept one after the other: nothing
      is merged or dropped across the boundary. */
  lemma {:induction false} ReadPackagesAppend(a: seq<Record>, b: seq<Record>, prefix: string)
    requires ReadPackages(a, prefix).failure.None?
    ensures ReadPackages(a + b, prefix).kept == ReadPackages(a, prefix).kept + ReadPackages(b, prefix).kept
    ensures ReadPackages(a + b, prefix).failure == ReadPackages(b, prefix).failure
  {
    if a == [] {
      assert a + b == b;
    } else {
      var x, front := a[0], a[1..];
      assert a == [x] + front;
      assert a + b == [x] + (front + b);
      ReadPackagesCons(x, front, prefix);
      ReadPackagesCons(x, front + b, prefix);
      ReadPackagesAppend(front, b, prefix);
      KeptAssociates(ReadMemberSpec(x, prefix).kept, ReadPackages(front, prefix).kept, ReadPackages(b, prefix).kept);
    }
  }

  lemma KeptAssociates(x: seq<Node>, y: seq<Node>, z: seq<Node>)
    ensures x + y + z == x + (y + z)
  {
  }

  /** The loop on a first member and the rest. */
  lemma ReadPackagesCons(x: Record, rest: seq<Record>, prefix: string)
    ensures
      var one := ReadMemberSpec(x, prefix);
      ReadPackages([x] + rest, prefix) ==
        if one.failure.Some? then one
        else Reading(one.kept + ReadPackages(rest, prefix).kept, ReadPackages(rest, prefix).failure)
  {
    assert ([x] + rest)[0] == x && ([x] + rest)[1..] == rest;
  }

  /** When every key is well formed and every name passes, each member gives
      exactly one package, duplicates included. */
  lemma {:induction false} ReadPackagesAll(records: seq<Record>, prefix: string)
    requires forall k :: 0 <= k < |records| ==>
      GetPackageNameAndVersion(records[k].key).Ok? &&
      StringStartsWithPrefix(GetPackageNameAndVersion(records[k].key).value.0, prefix)
    ensures ReadPackages(records, prefix).failure.None?
    ensures |ReadPackages(records, prefix).kept| == |records|
    ensures forall k :: 0 <= k < |records| ==>
      ReadPackages(records, prefix).kept[k].name == GetPackageNameAndVersion(records[k].key).value.0 &&
      ReadPackages(records, prefix).kept[k].version == GetPackageNameAndVersion(records[k].key).value.1
  {
    if records != [] {
      assert forall k :: 0 <= k < |records[1..]| ==> records[1..][k] == records[k + 1];
      ReadPackagesAll(records[1..], prefix);
      assert GetPackageNameAndVersion(records[0].key).Ok?;
    }
  }

  /** The state of `allPackages` after the framework loop, and the error that
      ended it, if any. After each framework read without error, the index pass
      runs over the whole accumulated list. */
  function RunTargets(g: seq<Node>, targets: seq<Target>, prefix: string): (r: (seq<Node>, Option<Error>))
    decreases |targets|
  {
    if targets == [] then (g, None)
    else
      var reading := ReadPackages(targets[0].packages, prefix);
      if reading.failure.Some? then (g + reading.kept, reading.failure)
      else RunTargets(IndexAll(g + reading.kept), targets[1..], prefix)
  }

  /** Reading appends: the packages present before keep their place, name,
      version and dependencies, and their used-by lists only grow. */
  lemma {:induction false} RunTargetsExtends(g: seq<Node>, targets: seq<Target>, prefix: string)
    ensures |g| <= |RunTargets(g, targets, prefix).0|
    ensures forall i :: 0 <= i < |g| ==>
      var n := RunTargets(g, targets, prefix).0[i];
      n.name == g[i].name && n.version == g[i].version && n.deps == g[i].deps && g[i].usedBy <= n.usedBy
    decreases |targets|
  {
    if targets != [] {
      var reading := ReadPackages(targets[0].packages, prefix);
      if reading.failure.None? {
        RunTargetsExtends(IndexAll(g + reading.kept), targets[1..], prefix);
      }
    }
  }

  /** A package read from framework 1 is indexed again after framework 2:
      it receives one batch of back-references per pass, so an unchanged
      consumer is recorded twice. */
  lemma IndexedPerFramework(g: seq<Node>, t1: Target, t2: Target, prefix: string, i: nat)
    requires ReadPackages(t1.packages, prefix).failure.None?
    requires ReadPackages(t2.packages, prefix).failure.None?
    requires i < |g| + |ReadPackages(t1.packages, prefix).kept|
    ensures
      var g1 := g + ReadPackages(t1.packages, prefix).kept;
      var g2 := g1 + ReadPackages(t2.packages, prefix).kept;
      |RunTargets(g, [t1, t2], prefix).0| == |g2| &&
      RunTargets(g, [t1, t2], prefix).0[i].usedBy ==
        g1[i].usedBy + BackRefs(g1, g1[i].name) + BackRefs(g2, g1[i].name)
  {
    var g1 := g + ReadPackages(t1.packages, prefix).kept;
    var k2 := ReadPackages(t2.packages, prefix).kept;
    var i1 := IndexAll(g1);
    assert [t1, t2][0] == t1 && [t1, t2][1..] == [t2];
    assert [t2][0] == t2 && [t2][1..] == [];
    assert RunTargets(g, [t1, t2], prefix) == RunTargets(i1, [t2], prefix);
    assert RunTargets(i1, [t2], prefix) == RunTargets(IndexAll(i1 + k2), [], prefix);
    var result := IndexAll(i1 + k2);
    assert (i1 + k2)[i] == i1[i];
    assert i1[i] == WithBackRefs(g1[i], g1);
    assert result[i] == WithBackRefs(i1[i], i1 + k2);
    BackRefsIgnoreUsedBy(i1 + k2, g1 + k2, g1[i].name);
  }

  /** The parsers only ever build dependency entries without dependencies. */
  lemma {:induction false} RunTargetsLeafEntries(g: seq<Node>, targets: seq<Target>, prefix: string)
    requires AllLeafEntries(g)
    ensures AllLeafEntries(RunTargets(g, targets, prefix).0)
    decreases |targets|
  {
    if targets != [] {
      var reading := ReadPackages(targets[0].packages, prefix);
      ReadPackagesKept(targets[0].packages, prefix);
      assert AllLeafEntries(g + reading.kept) by {
        forall i | 0 <= i < |g + reading.kept| ensures LeafEntries((g + reading.kept)[i].deps) {
          if i >= |g| { assert (g + reading.kept)[i] == reading.kept[i - |g|]; }
        }
      }
      if reading.failure.None? {
        RunTargetsLeafEntries(IndexAll(g + reading.kept), targets[1..], prefix);
      }
    }
  }

  /** Filtering folds case but the index compares names exactly: a dependency
      "Foo.Core" passes the prefix "foo", yet gives no back-reference to a
      package named "foo.core". */
  lemma CaseSensitiveIndex()
    ensures StringStartsWithPrefix("Foo.Core", "foo")
    ensures BackRefs([Node("App", "1.0.0", [NewEntry("Foo.Core", "2.0.0")], [])], "foo.core") == []
  {
    var c := Node("App", "1.0.0", [NewEntry("Foo.Core", "2.0.0")], []);
    assert !HasDep(c.deps, "foo.core") by {
      assert c.deps[0].name == "Foo.Core";
      assert "Foo.Core"[0] != "foo.core"[0];
    }
    assert [c][..0] == [];
  }

  class ProjectAssetsJsonParser {
    /** The file path; reading the file is outside the model. */
    const jsonPath: string
    var allPackages: seq<Package>

    ghost predicate Valid()
      reads this, allPackages
    {
      Distinct(allPackages) && AllValid(allPackages)
    }

    constructor (projectAssetsJsonPath: string)
      ensures Valid() && jsonPath == projectAssetsJsonPath && allPackages == []
    {
      jsonPath := projectAssetsJsonPath;
      allPackages := [];
    }

    /** The dependency loop of one member: `new Package(key, value)` for every
        key that passes the prefix test. */
    static method DependencyList(deps: seq<(string, string)>, prefix: string) returns (list: seq<Entry>)
      ensures list == KeptDependencies(deps, prefix)
    {
      list := [];
      for k := 0 to |deps|
        invariant list == KeptDependencies(deps[..k], prefix)
      {
        assert deps[..k + 1][..k] == deps[..k];
        if StringStartsWithPrefix(deps[k].0, prefix) {
          list := list + [NewEntry(deps[k].0, deps[k].1)];
        }
      }
      assert deps[..|deps|] == deps;
    }

    /** `allPackages.Add(new Package(name, version, dependencies))`. */
    method AddPackage(name: string, version: string, dependencies: seq<Entry>)
      requires Valid()
      modifies this`allPackages
      ensures Valid()
      ensures |allPackages| == |old(allPackages)| + 1
      ensures allPackages[..|old(allPackages)|] == old(allPackages) && fresh(allPackages[|old(allPackages)|])
      ensures Nodes(allPackages) == old(Nodes(allPackages)) + [Node(name, version, dependencies, [])]
    {
      var p := new Package(name, version, dependencies);
      NodesAppend(allPackages, p);
      allPackages := allPackages + [p];
    }

    /** One member of the loop (lines 36-60). */
    method ReadMember(record: Record, prefix: string) returns (failure: Option<Error>)
      requires Valid()
      modifies this`allPackages
      ensures Valid()
      ensures old(allPackages) <= allPackages
      ensures forall k :: |old(allPackages)| <= k < |allPackages| ==> fresh(allPackages[k])
      ensures Nodes(allPackages) == old(Nodes(allPackages)) + ReadMemberSpec(record, prefix).kept
      ensures failure == ReadMemberSpec(record, prefix).failure
    {
      var nameVersion := GetPackageNameAndVersion(record.key);
      if nameVersion.Err? {
        return Some(nameVersion.error);
      }
      var (name, version) := nameVersion.value;
      if StringStartsWithPrefix(name, prefix) {
        var list := DependencyList(record.dependencies, prefix);
        AddPackage(name, version, list);
      }
      failure := None;
    }

    /** The member loop of one target (lines 34-61): appends one fresh package
        per kept member; a malformed key stops it with the packages read so
        far already appended. */
    method ReadTargetPackages(records: seq<Record>, prefix: string) returns (failure: Option<Error>)
      requires Valid()
      modifies this`allPackages
      ensures Valid()
      ensures old(allPackages) <= allPackages
      ensures forall k :: |old(allPackages)| <= k < |allPackages| ==> fresh(allPackages[k])
      ensures Nodes(allPackages) == old(Nodes(allPackages)) + ReadPackages(records, prefix).kept
      ensures failure == ReadPackages(records, prefix).failure
    {
      ghost var g0 := Nodes(allPackages);
      ghost var whole := ReadPackages(records, prefix);
      var r := 0;
      while r < |records|
        invariant r <= |records|
        invariant Valid()
        invariant old(allPackages) <= allPackages
        invariant forall k :: |old(allPackages)| <= k < |allPackages| ==> fresh(allPackages[k])
        invariant Nodes(allPackages) + ReadPackages(records[r..], prefix).kept == g0 + whole.kept
        invariant ReadPackages(records[r..], prefix).failure == whole.failure
      {
        ghost var before := Nodes(allPackages);
        failure := ReadMember(records[r], prefix);
        ReadPackagesAdvance(records, r, prefix, before, Nodes(allPackages));
        if failure.Some? {
          return;
        }
        r := r + 1;
      }
      assert records[|records|..] == [];
      failure := None;
    }

    /** `GetAllPackages`: the framework loop. Returns the accumulated list
        itself, including packages left by earlier calls. */
    method GetAllPackages(targets: seq<Target>, prefix: string) returns (r: Result<seq<Package>>)
      requires Valid()
      modifies this, allPackages
      ensures Valid()
      ensures old(allPackages) <= allPackages
      ensures forall k :: |old(allPackages)| <= k < |allPackages| ==> fresh(allPackages[k])
      ensures Nodes(allPackages) == RunTargets(old(Nodes(allPackages)), targets, prefix).0
      ensures r == match RunTargets(old(Nodes(allPackages)), targets, prefix).1
                   case None => Ok(allPackages)
                   case Some(e) => Err(e)
    {
      for t := 0 to |targets|
        invariant Valid()
        invariant old(allPackages) <= allPackages
        invariant forall k :: |old(allPackages)| <= k < |allPackages| ==> fresh(allPackages[k])
        invariant RunTargets(Nodes(allPackages), targets[t..], prefix) ==
                  RunTargets(old(Nodes(allPackages)), targets, prefix)
      {
        assert targets[t..][1..] == targets[t + 1..];
        var failure := ReadTargetPackages(targets[t].packages, prefix);
        if failure.Some? {
          return Err(failure.value);
        }
        ghost var before := Nodes(allPackages);
        AddBackReferences(allPackages, allPackages);
        assert Nodes(allPackages) == IndexAll(before);
      }
      assert targets[|targets|..] == [];
      return Ok(allPackages);
    }
  }
}
