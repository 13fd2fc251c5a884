/** Program.cs, `OutputGeneralPackageInformationToConsole` (lines 34-83):
    read-only queries over the listed packages. The console text is left
    out; each query returns the values it would print. */
module Statistics {
  import opened Wrappers
  import opened Strings
  import opened Models

  /** `DistinctBy`/`Distinct` on strings: first occurrences, in order. */
  function DistinctStrings(s: seq<string>): (r: seq<string>)
    ensures Unique(r)
    ensures forall x :: x in r <==> x in s
    ensures |r| <= |s|
  {
    if s == [] then []
    else
      var front := DistinctStrings(s[..|s| - 1]);
      var last := s[|s| - 1];
      assert forall x :: x in s <==> x in s[..|s| - 1] || x == last by {
        assert s == s[..|s| - 1] + [last];
      }
      if last in front then front else front + [last]
  }

  predicate Unique(s: seq<string>)
  {
    forall a, b :: 0 <= a < b < |s| ==> s[a] != s[b]
  }

  /** The count equals the length iff no string repeats, and then nothing
      is dropped at all. */
  lemma {:induction false} DistinctStringsFull(s: seq<string>)
    ensures |DistinctStrings(s)| == |s| <==> Unique(s)
    ensures Unique(s) ==> DistinctStrings(s) == s
  {
    if s != [] {
      var front, last := s[..|s| - 1], s[|s| - 1];
      DistinctStringsFull(front);
      assert s == front + [last];
      if Unique(s) {
        assert Unique(front);
        assert last !in front;
      }
      if |DistinctStrings(s)| == |s| {
        assert last !in DistinctStrings(front);
        assert |DistinctStrings(front)| == |front|;
        assert last !in front;
        forall a, b | 0 <= a < b < |s| ensures s[a] != s[b] {
          if b < |s| - 1 { assert s[a] == front[a] && s[b] == front[b]; }
          else { assert s[a] in front; }
        }
      }
    }
  }

  /** Line 37: `DistinctBy(x => x.Name).Count()`. */
  function DistinctNameCount(g: seq<Node>): nat
  {
    |DistinctStrings(Names(g))|
  }

  /** At most one per package, and one per package exactly when no two
      packages share a name. */
  lemma DistinctNameCountBounds(g: seq<Node>)
    ensures DistinctNameCount(g) <= |g|
    ensures DistinctNameCount(g) == |g| <==>
      forall a, b :: 0 <= a < b < |g| ==> g[a].name != g[b].name
  {
    DistinctStringsFull(Names(g));
  }

  /** Line 38: a main package has exactly three '.'-separated parts. */
  predicate IsMainPackage(name: string)
  {
    |Split(name, '.')| == 3
  }

  /** Three parts means exactly two dots. */
  lemma MainPackageHasTwoDots(name: string)
    ensures IsMainPackage(name) <==> Occurrences(name, '.') == 2
  {
    SplitPieces(name, '.');
  }

  function MainPackageCount(g: seq<Node>): (r: nat)
    ensures r <= |g|
  {
    if g == [] then 0
    else MainPackageCount(g[..|g| - 1]) + (if IsMainPackage(g[|g| - 1].name) then 1 else 0)
  }

  /** Every package counts when every name has exactly two dots; none when
      no name has. */
  lemma {:induction false} MainPackageCountExtremes(g: seq<Node>)
    ensures (forall i :: 0 <= i < |g| ==> Occurrences(g[i].name, '.') == 2) ==> MainPackageCount(g) == |g|
    ensures (forall i :: 0 <= i < |g| ==> Occurrences(g[i].name, '.') != 2) ==> MainPackageCount(g) == 0
  {
    if g != [] {
      MainPackageCountExtremes(g[..|g| - 1]);
      MainPackageHasTwoDots(g[|g| - 1].name);
    }
  }

  // ---------------------------------------------------------------------
  // Stable descending order (`OrderByDescending`), on positions.

  /** Position `a` comes before position `b`: a larger key, or an equal key
      and an earlier position. */
  predicate Before(keys: seq<nat>, a: nat, b: nat)
    requires a < |keys| && b < |keys|
  {
    keys[a] > keys[b] || (keys[a] == keys[b] && a < b)
  }

  predicate SortedBy(keys: seq<nat>, js: seq<nat>)
  {
    (forall k :: 0 <= k < |js| ==> js[k] < |keys|) &&
    forall a, b :: 0 <= a < b < |js| ==> Before(keys, js[a], js[b])
  }

  function Range(n: nat): (r: seq<nat>)
    ensures |r| == n && forall k :: 0 <= k < n ==> r[k] == k
  {
    seq(n, k requires 0 <= k < n => k)
  }

  lemma RangeSnoc(m: nat)
    ensures multiset(Range(m + 1)) == multiset(Range(m)) + multiset{m}
  {
    assert Range(m + 1) == Range(m) + [m];
  }

  /** Inserting position `i`, later than every position in `js`, after every
      position whose key is at least as large. */
  function Insert(keys: seq<nat>, js: seq<nat>, i: nat): (r: seq<nat>)
    requires i < |keys| && forall k :: 0 <= k < |js| ==> js[k] < i
    ensures |r| == |js| + 1
  {
    if js == [] then [i]
    else if keys[js[0]] >= keys[i] then [js[0]] + Insert(keys, js[1..], i)
    else [i] + js
  }

  /** Insert adds `i` and keeps every other position. */
  lemma {:induction false} InsertElements(keys: seq<nat>, js: seq<nat>, i: nat)
    requires i < |keys| && forall k :: 0 <= k < |js| ==> js[k] < i
    ensures multiset(Insert(keys, js, i)) == multiset(js) + multiset{i}
    ensures forall k :: 0 <= k < |js| + 1 ==> Insert(keys, js, i)[k] == i || Insert(keys, js, i)[k] in js
  {
    if js != [] {
      assert js == [js[0]] + js[1..];
      if keys[js[0]] >= keys[i] {
        InsertElements(keys, js[1..], i);
      }
    }
  }

  /** Insert keeps an ordered list ordered. */
  lemma {:induction false} InsertSorted(keys: seq<nat>, js: seq<nat>, i: nat)
    requires i < |keys| && forall k :: 0 <= k < |js| ==> js[k] < i
    requires SortedBy(keys, js)
    ensures SortedBy(keys, Insert(keys, js, i))
  {
    if js != [] {
      if keys[js[0]] >= keys[i] {
        var rest := Insert(keys, js[1..], i);
        InsertSorted(keys, js[1..], i);
        InsertElements(keys, js[1..], i);
        forall k | 0 <= k < |rest| ensures Before(keys, js[0], rest[k]) {
          if rest[k] != i {
            var m :| 0 <= m < |js[1..]| && js[1..][m] == rest[k];
            assert Before(keys, js[0], js[m + 1]);
          }
        }
        ConsSorted(keys, js[0], rest);
      } else {
        forall k | 0 <= k < |js| ensures Before(keys, i, js[k]) {
          if k > 0 { assert Before(keys, js[0], js[k]); }
        }
        ConsSorted(keys, i, js);
      }
    }
  }

  /** A position before everything in an ordered list extends it. */
  lemma ConsSorted(keys: seq<nat>, x: nat, rest: seq<nat>)
    requires x < |keys| && SortedBy(keys, rest)
    requires forall k :: 0 <= k < |rest| ==> Before(keys, x, rest[k])
    ensures SortedBy(keys, [x] + rest)
  {
    var r := [x] + rest;
    forall a, b | 0 <= a < b < |r| ensures Before(keys, r[a], r[b]) {
      if a > 0 {
        assert r[a] == rest[a - 1] && r[b] == rest[b - 1];
      } else {
        assert r[b] == rest[b - 1];
      }
    }
  }

  /** The positions `0 .. n-1` in stable descending key order. */
  function SortPositions(keys: seq<nat>, n: nat): (r: seq<nat>)
    requires n <= |keys|
    ensures |r| == n && forall k :: 0 <= k < n ==> r[k] < n
  {
    if n == 0 then []
    else
      var front := SortPositions(keys, n - 1);
      InsertElements(keys, front, n - 1);
      Insert(keys, front, n - 1)
  }

  /** Every position exactly once, in order. */
  lemma {:induction false} SortPositionsSorted(keys: seq<nat>, n: nat)
    requires n <= |keys|
    ensures multiset(SortPositions(keys, n)) == multiset(Range(n))
    ensures SortedBy(keys, SortPositions(keys, n))
  {
    if n > 0 {
      var front := SortPositions(keys, n - 1);
      SortPositionsSorted(keys, n - 1);
      InsertElements(keys, front, n - 1);
      InsertSorted(keys, front, n - 1);
      RangeSnoc(n - 1);
    }
  }

  /** The usage count of each package: the length of its used-by list,
      which the cached `NumberOfPackagesThatUseThisPackage` equals. */
  function UsageKeys(g: seq<Node>): (r: seq<nat>)
    ensures |r| == |g| && forall i :: 0 <= i < |g| ==> r[i] == |g[i].usedBy|
  {
    seq(|g|, i requires 0 <= i < |g| => |g[i].usedBy|)
  }

  /** The queries read the used-by lengths; on valid packages these are the
      cached `NumberOfPackagesThatUseThisPackage` values the source reads. */
  lemma UsageKeysAreCachedCounts(pkgs: seq<Package>)
    requires AllValid(pkgs)
    ensures forall i :: 0 <= i < |pkgs| ==> UsageKeys(Nodes(pkgs))[i] == pkgs[i].usageCount
  {
    forall i | 0 <= i < |pkgs|
      ensures UsageKeys(Nodes(pkgs))[i] == pkgs[i].usageCount
    {
      assert pkgs[i] in pkgs;
    }
  }

  /** Lines 40 and 65: `OrderByDescending(x => x.NumberOfPackagesThatUseThisPackage)`. */
  function OrderByUsage(g: seq<Node>): seq<Node>
  {
    Pick(g, SortPositions(UsageKeys(g), |g|))
  }

  /** The order lists every package exactly once, by usage count from the
      highest down, and keeps list order among packages with equal counts. */
  lemma OrderByUsageIsStableSort(g: seq<Node>)
    ensures
      var js := SortPositions(UsageKeys(g), |g|);
      |js| == |g| && multiset(js) == multiset(Range(|g|)) &&
      OrderByUsage(g) == Pick(g, js) &&
      forall a, b :: 0 <= a < b < |js| ==>
        |g[js[a]].usedBy| > |g[js[b]].usedBy| || (|g[js[a]].usedBy| == |g[js[b]].usedBy| && js[a] < js[b])
  {
    var js := SortPositions(UsageKeys(g), |g|);
    SortPositionsSorted(UsageKeys(g), |g|);
    assert forall a, b :: 0 <= a < b < |js| ==> Before(UsageKeys(g), js[a], js[b]);
  }

  const Top := 10

  /** `Take(top)`. */
  function Take<T>(s: seq<T>, n: nat): (r: seq<T>)
    ensures |r| <= n && r <= s
    ensures |s| >= n ==> |r| == n
    ensures |s| <= n ==> r == s
  {
    if |s| <= n then s else s[..n]
  }

  /** Lines 65-68: the ten most used packages; no package left out is used
      more than any package listed. */
  lemma TopUsedDominates(g: seq<Node>)
    ensures
      var top := Take(OrderByUsage(g), Top);
      |top| <= Top &&
      forall a, b :: 0 <= a < |top| <= b < |g| ==>
        |OrderByUsage(g)[b].usedBy| <= |top[a].usedBy|
  {
    var js := SortPositions(UsageKeys(g), |g|);
    SortPositionsSorted(UsageKeys(g), |g|);
    assert forall a, b :: 0 <= a < b < |js| ==> Before(UsageKeys(g), js[a], js[b]);
  }

  // ---------------------------------------------------------------------
  // Usage listing, averages and histogram.

  /** Line 43: culture `StartsWith` taken as an exact prefix test. */
  function RelevantDependencyCount(deps: seq<Entry>, prefix: string): (r: nat)
    ensures r <= |deps|
  {
    if deps == [] then 0
    else RelevantDependencyCount(deps[..|deps| - 1], prefix) + (if prefix <= deps[|deps| - 1].name then 1 else 0)
  }

  /** The positions of the entries whose names start with `prefix`, ascending. */
  function RelevantPositions(deps: seq<Entry>, prefix: string): (js: seq<nat>)
    ensures forall k :: 0 <= k < |js| ==> js[k] < |deps| && prefix <= deps[js[k]].name
    ensures forall a, b :: 0 <= a < b < |js| ==> js[a] < js[b]
    ensures forall m :: 0 <= m < |deps| && prefix <= deps[m].name ==> m in js
  {
    if deps == [] then []
    else
      var m := |deps| - 1;
      var front := RelevantPositions(deps[..m], prefix);
      assert forall k :: 0 <= k < |front| ==> deps[..m][front[k]] == deps[front[k]];
      front + (if prefix <= deps[m].name then [m] else [])
  }

  /** The count on line 43 is the number of entries whose names start with
      the prefix. */
  lemma {:induction false} RelevantDependencyCountMeaning(deps: seq<Entry>, prefix: string)
    ensures RelevantDependencyCount(deps, prefix) == |RelevantPositions(deps, prefix)|
  {
    if deps != [] {
      RelevantDependencyCountMeaning(deps[..|deps| - 1], prefix);
    }
  }

  /** An empty prefix counts every dependency. */
  lemma {:induction false} EmptyPrefixCountsAll(deps: seq<Entry>)
    ensures RelevantDependencyCount(deps, []) == |deps|
  {
    if deps != [] {
      EmptyPrefixCountsAll(deps[..|deps| - 1]);
    }
  }

  /** What line 45 prints for one package. */
  datatype UsageLine = UsageLine(index: nat, name: string, version: string, relevantDependencies: nat, referencedIn: nat)

  /** Lines 39-46: one line per package, in usage order, numbered from 0. */
  function UsageLines(g: seq<Node>, prefix: string): (r: seq<UsageLine>)
  {
    var ordered := OrderByUsage(g);
    seq(|ordered|, k requires 0 <= k < |ordered| =>
      UsageLine(k, ordered[k].name, ordered[k].version,
                RelevantDependencyCount(ordered[k].deps, prefix), |ordered[k].usedBy|))
  }

  /** Every package gets one line; the reference counts go down the listing. */
  lemma UsageLinesSorted(g: seq<Node>, prefix: string)
    ensures |UsageLines(g, prefix)| == |g|
    ensures forall a, b :: 0 <= a < b < |g| ==>
      UsageLines(g, prefix)[a].referencedIn >= UsageLines(g, prefix)[b].referencedIn
    ensures forall k :: 0 <= k < |g| ==>
      UsageLines(g, prefix)[k].index == k && UsageLines(g, prefix)[k].relevantDependencies <= |OrderByUsage(g)[k].deps|
    ensures forall k :: 0 <= k < |g| ==>
      var line, p := UsageLines(g, prefix)[k], OrderByUsage(g)[k];
      line.name == p.name && line.version == p.version && line.referencedIn == |p.usedBy| &&
      line.relevantDependencies == |RelevantPositions(p.deps, prefix)|
  {
    var js := SortPositions(UsageKeys(g), |g|);
    SortPositionsSorted(UsageKeys(g), |g|);
    assert forall a, b :: 0 <= a < b < |js| ==> Before(UsageKeys(g), js[a], js[b]);
    forall k | 0 <= k < |g|
      ensures UsageLines(g, prefix)[k].relevantDependencies == |RelevantPositions(OrderByUsage(g)[k].deps, prefix)|
    {
      RelevantDependencyCountMeaning(OrderByUsage(g)[k].deps, prefix);
    }
  }

  function SumDependencies(g: seq<Node>): nat
  {
    if g == [] then 0 else SumDependencies(g[..|g| - 1]) + |g[|g| - 1].deps|
  }

  function SumUsage(g: seq<Node>): nat
  {
    if g == [] then 0 else SumUsage(g[..|g| - 1]) + |g[|g| - 1].usedBy|
  }

  /** Lines 48-49: the two averages as (sum, count) pairs; `Average` fails on
      an empty sequence. */
  function Averages(g: seq<Node>): (r: Result<((nat, nat), (nat, nat))>)
    ensures r.Err? <==> g == []
    ensures r.Err? ==> r.error == EmptySequence
    ensures r.Ok? ==> r.value.0.1 == |g| && r.value.1.1 == |g|
  {
    if g == [] then Err(EmptySequence)
    else Ok(((SumDependencies(g), |g|), (SumUsage(g), |g|)))
  }

  /** Each sum lies between `count * min` and `count * max`: here, bounded by
      a common bound on every package. */
  lemma {:induction false} SumsBounded(g: seq<Node>, bound: nat)
    requires forall i :: 0 <= i < |g| ==> |g[i].deps| <= bound && |g[i].usedBy| <= bound
    ensures SumDependencies(g) <= |g| * bound && SumUsage(g) <= |g| * bound
  {
    if g != [] {
      SumsBounded(g[..|g| - 1], bound);
    }
  }

  /** `Max(x => x.NumberOfPackagesThatUseThisPackage)`. */
  function MaxUsage(g: seq<Node>): (m: nat)
    requires g != []
    ensures forall i :: 0 <= i < |g| ==> |g[i].usedBy| <= m
    ensures exists i :: 0 <= i < |g| && |g[i].usedBy| == m
  {
    if |g| == 1 then |g[0].usedBy|
    else
      var front := MaxUsage(g[..|g| - 1]);
      assert forall i :: 0 <= i < |g| - 1 ==> g[..|g| - 1][i] == g[i];
      if |g[|g| - 1].usedBy| > front then |g[|g| - 1].usedBy| else front
  }

  /** The number of packages used by exactly `u` others. */
  function CountWithUsage(g: seq<Node>, u: nat): (r: nat)
    ensures r <= |g|
  {
    if g == [] then 0
    else CountWithUsage(g[..|g| - 1], u) + (if |g[|g| - 1].usedBy| == u then 1 else 0)
  }

  /** The number of packages used by fewer than `m` others. */
  function CountBelow(g: seq<Node>, m: nat): (r: nat)
  {
    if g == [] then 0
    else CountBelow(g[..|g| - 1], m) + (if |g[|g| - 1].usedBy| < m then 1 else 0)
  }

  lemma {:induction false} CountBelowStep(g: seq<Node>, m: nat)
    ensures CountBelow(g, m + 1) == CountBelow(g, m) + CountWithUsage(g, m)
  {
    if g != [] {
      CountBelowStep(g[..|g| - 1], m);
    }
  }

  lemma {:induction false} CountBelowAll(g: seq<Node>, m: nat)
    requires forall i :: 0 <= i < |g| ==> |g[i].usedBy| < m
    ensures CountBelow(g, m) == |g|
  {
    if g != [] {
      CountBelowAll(g[..|g| - 1], m);
    }
  }

  /** The histogram lines for usage counts `0 .. m-1`: (count, packages),
      only where the number of packages is not zero. */
  function HistogramUpTo(g: seq<Node>, m: nat): seq<(nat, nat)>
  {
    if m == 0 then []
    else HistogramUpTo(g, m - 1) + (if CountWithUsage(g, m - 1) > 0 then [(m - 1, CountWithUsage(g, m - 1))] else [])
  }

  function SumCounts(h: seq<(nat, nat)>): nat
  {
    if h == [] then 0 else SumCounts(h[..|h| - 1]) + h[|h| - 1].1
  }

  lemma SumCountsAppend(h: seq<(nat, nat)>, x: seq<(nat, nat)>)
    requires |x| <= 1
    ensures SumCounts(h + x) == SumCounts(h) + (if x == [] then 0 else x[0].1)
  {
    if x != [] {
      assert (h + x)[..|h + x| - 1] == h;
    } else {
      assert h + x == h;
    }
  }

  /** Each line reports the exact number of packages with that usage count,
      never zero, for a count below `m`. */
  lemma {:induction false} HistogramLines(g: seq<Node>, m: nat)
    ensures forall k :: 0 <= k < |HistogramUpTo(g, m)| ==>
      HistogramUpTo(g, m)[k].0 < m && HistogramUpTo(g, m)[k].1 == CountWithUsage(g, HistogramUpTo(g, m)[k].0) > 0
  {
    if m > 0 {
      HistogramLines(g, m - 1);
    }
  }

  /** Usage counts go up along the lines. */
  lemma {:induction false} HistogramIncreasing(g: seq<Node>, m: nat)
    ensures forall a, b :: 0 <= a < b < |HistogramUpTo(g, m)| ==> HistogramUpTo(g, m)[a].0 < HistogramUpTo(g, m)[b].0
  {
    if m > 0 {
      HistogramIncreasing(g, m - 1);
      HistogramLines(g, m - 1);
    }
  }

  /** No usage count below `m` that some package has is left out. */
  lemma {:induction false} HistogramComplete(g: seq<Node>, m: nat)
    ensures forall u :: 0 <= u < m && CountWithUsage(g, u) > 0 ==>
      exists k :: 0 <= k < |HistogramUpTo(g, m)| && HistogramUpTo(g, m)[k].0 == u
  {
    if m > 0 {
      HistogramComplete(g, m - 1);
      var h := HistogramUpTo(g, m - 1);
      var x: seq<(nat, nat)> := if CountWithUsage(g, m - 1) > 0 then [(m - 1, CountWithUsage(g, m - 1))] else [];
      assert HistogramUpTo(g, m) == h + x;
      forall u | 0 <= u < m && CountWithUsage(g, u) > 0
        ensures exists k :: 0 <= k < |HistogramUpTo(g, m)| && HistogramUpTo(g, m)[k].0 == u
      {
        if u < m - 1 {
          var k :| 0 <= k < |h| && h[k].0 == u;
          assert HistogramUpTo(g, m)[k] == h[k];
        } else {
          assert HistogramUpTo(g, m)[|h|].0 == u;
        }
      }
    }
  }

  /** The reported numbers add up to the packages with usage below `m`. */
  lemma {:induction false} HistogramSum(g: seq<Node>, m: nat)
    ensures SumCounts(HistogramUpTo(g, m)) == CountBelow(g, m)
  {
    if m == 0 {
      CountBelowZero(g);
    } else {
      HistogramSum(g, m - 1);
      CountBelowStep(g, m - 1);
      var h := HistogramUpTo(g, m - 1);
      var x: seq<(nat, nat)> := if CountWithUsage(g, m - 1) > 0 then [(m - 1, CountWithUsage(g, m - 1))] else [];
      assert HistogramUpTo(g, m) == h + x;
      SumCountsAppend(h, x);
    }
  }

  lemma {:induction false} CountBelowZero(g: seq<Node>)
    ensures CountBelow(g, 0) == 0
  {
    if g != [] {
      CountBelowZero(g[..|g| - 1]);
    }
  }

  /** Lines 51-58: for usage counts 0 up to the largest, one line per count
      that some package has. `Max` (like the averages before it) fails on no
      packages. */
  method Histogram(g: seq<Node>) returns (r: Result<seq<(nat, nat)>>)
    ensures r.Err? <==> g == []
    ensures r.Err? ==> r.error == EmptySequence
    ensures r.Ok? ==> r.value == HistogramUpTo(g, MaxUsage(g) + 1)
  {
    if g == [] {
      return Err(EmptySequence);
    }
    var max := MaxUsage(g);
    var lines: seq<(nat, nat)> := [];
    for i := 0 to max + 1
      invariant lines == HistogramUpTo(g, i)
    {
      var count := 0;
      for k := 0 to |g|
        invariant count == CountWithUsage(g[..k], i)
      {
        assert g[..k + 1][..k] == g[..k];
        if |g[k].usedBy| == i {
          count := count + 1;
        }
      }
      assert g[..|g|] == g;
      if count > 0 {
        lines := lines + [(i, count)];
      }
    }
    r := Ok(lines);
  }

  /** Over the full range the histogram accounts for every package once. */
  lemma {:induction false} HistogramTotal(g: seq<Node>)
    requires g != []
    ensures SumCounts(HistogramUpTo(g, MaxUsage(g) + 1)) == |g|
  {
    var m := MaxUsage(g) + 1;
    HistogramSum(g, m);
    CountBelowAll(g, m);
  }

  // ---------------------------------------------------------------------
  // Versions and the Alert check.

  function ParentVersions(usedBy: seq<ChildPackage>): (r: seq<string>)
    ensures |r| == |usedBy| && forall k :: 0 <= k < |usedBy| ==> r[k] == usedBy[k].parentVersion
  {
    seq(|usedBy|, k requires 0 <= k < |usedBy| => usedBy[k].parentVersion)
  }

  /** `Select(x => x.ParentVersion).Distinct().Count()`. */
  function DistinctVersionCount(n: Node): (r: nat)
  {
    |DistinctStrings(ParentVersions(n.usedBy))|
  }

  /** At most one per user; at least one as soon as there is a user. */
  lemma DistinctVersionBounds(n: Node)
    ensures DistinctVersionCount(n) <= |n.usedBy|
    ensures n.usedBy != [] ==> DistinctVersionCount(n) >= 1
  {
    if n.usedBy != [] {
      assert ParentVersions(n.usedBy)[0] in ParentVersions(n.usedBy);
    }
  }

  function VersionKeys(g: seq<Node>): (r: seq<nat>)
    ensures |r| == |g| && forall i :: 0 <= i < |g| ==> r[i] == DistinctVersionCount(g[i])
  {
    seq(|g|, i requires 0 <= i < |g| => DistinctVersionCount(g[i]))
  }

  /** Lines 73-75: ordered by the number of distinct declared versions,
      stable, then the first ten. */
  function TopByVersions(g: seq<Node>): (r: seq<Node>)
  {
    Take(Pick(g, SortPositions(VersionKeys(g), |g|)), Top)
  }

  /** No package left out declares more distinct versions than one listed. */
  lemma TopByVersionsDominates(g: seq<Node>)
    ensures |TopByVersions(g)| <= Top
    ensures
      var ordered := Pick(g, SortPositions(VersionKeys(g), |g|));
      forall a, b :: 0 <= a < |TopByVersions(g)| <= b < |g| ==>
        DistinctVersionCount(ordered[b]) <= DistinctVersionCount(TopByVersions(g)[a])
  {
    var keys := VersionKeys(g);
    var js := SortPositions(keys, |g|);
    SortPositionsSorted(keys, |g|);
    var ordered := Pick(g, js);
    var top := TopByVersions(g);
    assert top == Take(ordered, Top);
    forall a, b | 0 <= a < |top| <= b < |g|
      ensures DistinctVersionCount(ordered[b]) <= DistinctVersionCount(top[a])
    {
      SortedKeysDescend(keys, js, a, b);
      assert top[a] == ordered[a];
    }
  }

  /** In a list ordered by `Before`, keys never increase. */
  lemma SortedKeysDescend(keys: seq<nat>, js: seq<nat>, a: nat, b: nat)
    requires SortedBy(keys, js) && a < b < |js|
    ensures keys[js[b]] <= keys[js[a]]
  {
    assert Before(keys, js[a], js[b]);
  }

  /** `s.Split(".")[0]`. */
  function FirstSegment(s: string): (r: string)
    ensures '.' !in r && r <= s
  {
    FirstPiece(s, '.');
    SplitPieces(s, '.');
    Split(s, '.')[0]
  }

  /** Line 78: `Any(x => x.ParentVersion.Split(".")[0] != Version.Split(".")[0])`. */
  predicate AlertFrom(usedBy: seq<ChildPackage>, version: string)
    ensures AlertFrom(usedBy, version) <==>
      exists k :: 0 <= k < |usedBy| && FirstSegment(usedBy[k].parentVersion) != FirstSegment(version)
  {
    if usedBy == [] then false
    else
      assert forall k :: 1 <= k < |usedBy| ==> usedBy[k] == usedBy[1..][k - 1];
      FirstSegment(usedBy[0].parentVersion) != FirstSegment(version) || AlertFrom(usedBy[1..], version)
  }

  predicate Alert(n: Node)
  {
    AlertFrom(n.usedBy, n.version)
  }

  /** The first segment of a version is what comes before its first dot. */
  lemma FirstSegmentLeading(v: string, rest: string)
    requires '.' !in v && (rest == [] || rest[0] == '.')
    ensures FirstSegment(v + rest) == v
  {
    SplitLeading(v, '.', rest);
  }

  /** A consumer whose version differs only after the first dot raises no alert. */
  lemma MinorDifferenceNoAlert()
    ensures !Alert(Node("P", "1.2.0", [], [ChildPackage("C", "1.5.3", "7.0")]))
  {
    assert FirstSegment("1.2.0") == "1" by { FirstSegmentLeading("1", ".2.0"); assert "1.2.0" == "1" + ".2.0"; }
    assert FirstSegment("1.5.3") == "1" by { FirstSegmentLeading("1", ".5.3"); assert "1.5.3" == "1" + ".5.3"; }
  }

  /** A consumer with a different major version raises the alert. */
  lemma MajorDifferenceAlert()
    ensures Alert(Node("P", "1.2.0", [], [ChildPackage("C", "2.0.0", "7.0")]))
  {
    assert FirstSegment("1.2.0") == "1" by { FirstSegmentLeading("1", ".2.0"); assert "1.2.0" == "1" + ".2.0"; }
    assert FirstSegment("2.0.0") == "2" by { FirstSegmentLeading("2", ".0.0"); assert "2.0.0" == "2" + ".0.0"; }
  }

  /** What lines 67 and 77 print for one package of a top list. */
  datatype TopLine = TopLine(name: string, referencedBy: nat, versions: nat)

  /** Lines 65-68: the ten most used packages with their distinct versions. */
  function TopUsedLines(g: seq<Node>): (r: seq<TopLine>)
    ensures |r| == |Take(OrderByUsage(g), Top)| <= Top
    ensures forall k :: 0 <= k < |r| ==> r[k].versions <= r[k].referencedBy
  {
    var top := Take(OrderByUsage(g), Top);
    seq(|top|, k requires 0 <= k < |top| =>
      DistinctVersionBounds(top[k]);
      TopLine(top[k].name, |top[k].usedBy|, DistinctVersionCount(top[k])))
  }

  /** Lines 73-82: the version top list, each line with its Alert flag. */
  function VersionLines(g: seq<Node>): (r: seq<(TopLine, bool)>)
    ensures |r| == |TopByVersions(g)| <= Top
    ensures forall k :: 0 <= k < |r| ==> r[k].0.versions <= r[k].0.referencedBy
    ensures forall k :: 0 <= k < |r| ==> (r[k].1 <==>
      exists c :: 0 <= c < |TopByVersions(g)[k].usedBy| &&
        FirstSegment(TopByVersions(g)[k].usedBy[c].parentVersion) != FirstSegment(TopByVersions(g)[k].version))
  {
    var top := TopByVersions(g);
    TopByVersionsDominates(g);
    seq(|top|, k requires 0 <= k < |top| =>
      DistinctVersionBounds(top[k]);
      (TopLine(top[k].name, |top[k].usedBy|, DistinctVersionCount(top[k])), Alert(top[k])))
  }
}
