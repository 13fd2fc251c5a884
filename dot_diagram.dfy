/** The text builder of Implementation/DotDependencyDiagramCreator.cs: it
    labels every package, gives every root name a colour, resolves each
    dependency entry to the package it names, and emits one DOT node
    statement per package and one edge per resolved entry. Writing the file
    and running `dot` are not part of this model; the random colour is a
    caller-given choice `pick(k)` for the `k`-th draw. */
module DotDiagram {
  import opened Wrappers
  import opened Strings
  import opened Models
  import UsageIndex

  // ---------------------------------------------------------------------
  // Root names (lines 88-91).

  function TakeThree(parts: seq<string>): (r: seq<string>)
    ensures r <= parts && |r| == if |parts| <= 3 then |parts| else 3
  {
    if |parts| <= 3 then parts else parts[..3]
  }

  /** `string.Join("", name.Split(".").Take(3))`. */
  function RootName(name: string): string
  {
    Concat(TakeThree(Split(name, '.')))
  }

  /** A root name never contains a dot. */
  lemma RootNameHasNoDots(name: string)
    ensures '.' !in RootName(name)
  {
    SplitPieces(name, '.');
    var parts := TakeThree(Split(name, '.'));
    assert forall k :: 0 <= k < |parts| ==> parts[k] == Split(name, '.')[k];
    ConcatFree(parts, '.');
  }

  /** With three segments or fewer the root name is the whole name without
      its dots. */
  lemma RootNameOfShortName(name: string)
    requires Occurrences(name, '.') <= 2
    ensures RootName(name) == Without(name, '.')
  {
    SplitPieces(name, '.');
    ConcatSplit(name, '.');
  }

  lemma ConcatThree(a: string, b: string, c: string)
    ensures Concat([a, b, c]) == a + b + c
  {
    assert [a, b, c][1..] == [b, c] && [b, c][1..] == [c] && [c][1..] == [];
    assert Concat([c]) == c;
    assert Concat([b, c]) == b + c;
  }

  lemma TakeThreeOfLong(a: string, b: string, c: string, rest: seq<string>)
    ensures TakeThree([a] + ([b] + ([c] + rest))) == [a, b, c]
  {
    var parts := [a] + ([b] + ([c] + rest));
    assert parts[0] == a && parts[1] == b && parts[2] == c;
  }

  /** With more segments, the root name joins the first three. */
  lemma RootNameOfLongName(a: string, b: string, c: string, rest: string)
    requires '.' !in a && '.' !in b && '.' !in c
    ensures RootName(a + (['.'] + (b + (['.'] + (c + (['.'] + rest)))))) == a + b + c
  {
    var s3 := c + (['.'] + rest);
    var s2 := b + (['.'] + s3);
    var s1 := a + (['.'] + s2);
    assert c + ['.'] + rest == s3;
    assert b + ['.'] + s3 == s2;
    assert a + ['.'] + s2 == s1;
    SplitSeparated(c, '.', rest);
    SplitSeparated(b, '.', s3);
    SplitSeparated(a, '.', s2);
    assert Split(s1, '.') == [a] + ([b] + ([c] + Split(rest, '.')));
    TakeThreeOfLong(a, b, c, Split(rest, '.'));
    ConcatThree(a, b, c);
  }

  /** `A.B.C.D` has the root `ABC`: everything after the third part is dropped. */
  lemma LongRootExample()
    ensures RootName("A.B.C.D") == "ABC"
  {
    RootNameOfLongName("A", "B", "C", "D");
    assert "A.B.C.D" == "A" + (['.'] + ("B" + (['.'] + ("C" + (['.'] + "D")))));
  }

  /** `A.B.C` has the root `ABC` and `A.B` the root `AB`: short names lose only their dots. */
  lemma ShortRootExamples()
    ensures RootName("A.B.C") == "ABC" && RootName("A.B") == "AB"
  {
    assert RootName("A.B.C") == "ABC" by {
      RootNameOfShortName("A.B.C");
    }
    assert RootName("A.B") == "AB" by {
      RootNameOfShortName("A.B");
    }
  }

  // ---------------------------------------------------------------------
  // Labels (lines 40-44).

  /** `$"a{i}i{in}o{out}"`. */
  function GuidLabel(i: nat, inCount: nat, outCount: nat): string
  {
    ['a'] + (NatToString(i) + (['i'] + (NatToString(inCount) + (['o'] + NatToString(outCount)))))
  }

  /** The number of listed packages that have a dependency named `n`: the
      consumers one indexing pass would take back-references from. */
  function InCount(g: seq<Node>, n: string): (r: nat)
    ensures r <= |g|
  {
    if g == [] then 0
    else InCount(g[..|g| - 1], n) + (if HasDep(g[|g| - 1].deps, n) then 1 else 0)
  }

  /** The in-count is the number of back-references one indexing pass gives
      a package of that name. */
  lemma {:induction false} InCountIsBackReferenceCount(g: seq<Node>, n: string)
    ensures InCount(g, n) == |UsageIndex.BackRefs(g, n)|
  {
    if g != [] {
      InCountIsBackReferenceCount(g[..|g| - 1], n);
    }
  }

  /** The label the package at index `i` receives. */
  function Label(g: seq<Node>, i: nat): string
    requires i < |g|
  {
    GuidLabel(i, InCount(g, g[i].name), |g[i].deps|)
  }

  function Labels(g: seq<Node>): (r: seq<string>)
    ensures |r| == |g|
  {
    seq(|g|, i requires 0 <= i < |g| => Label(g, i))
  }

  /** The position of the first `c` in `s`, or `|s|` when there is none. */
  function FirstAt(s: string, c: char): nat
  {
    if s == [] || s[0] == c then 0 else 1 + FirstAt(s[1..], c)
  }

  lemma {:induction false} FirstAtCut(c: char, x: string, y: string)
    requires c !in x
    ensures FirstAt(x + ([c] + y), c) == |x|
  {
    if x != [] {
      assert (x + ([c] + y))[1..] == x[1..] + ([c] + y);
      assert x[0] in x;
      FirstAtCut(c, x[1..], y);
    }
  }

  /** Two strings cut at the first `c` of each: equal strings give equal pieces. */
  lemma CutAtFirst(c: char, x: string, y: string, x2: string, y2: string)
    requires c !in x && c !in x2
    requires x + ([c] + y) == x2 + ([c] + y2)
    ensures x == x2 && y == y2
  {
    var s := x + ([c] + y);
    FirstAtCut(c, x, y);
    FirstAtCut(c, x2, y2);
    assert x == s[..|x|] && y == s[|x| + 1..];
    assert x2 == s[..|x2|] && y2 == s[|x2| + 1..];
  }

  lemma DigitsAvoid(n: nat, c: char)
    requires !IsDigit(c)
    ensures c !in NatToString(n)
  {
  }

  /** A label determines its index and both counts. */
  lemma GuidLabelInjective(i: nat, a: nat, b: nat, j: nat, c: nat, d: nat)
    requires GuidLabel(i, a, b) == GuidLabel(j, c, d)
    ensures i == j && a == c && b == d
  {
    var tail1 := NatToString(a) + (['o'] + NatToString(b));
    var tail2 := NatToString(c) + (['o'] + NatToString(d));
    assert GuidLabel(i, a, b)[1..] == NatToString(i) + (['i'] + tail1);
    assert GuidLabel(j, c, d)[1..] == NatToString(j) + (['i'] + tail2);
    DigitsAvoid(i, 'i');
    DigitsAvoid(j, 'i');
    CutAtFirst('i', NatToString(i), tail1, NatToString(j), tail2);
    NatToStringInjective(i, j);
    DigitsAvoid(a, 'o');
    DigitsAvoid(c, 'o');
    CutAtFirst('o', NatToString(a), NatToString(b), NatToString(c), NatToString(d));
    NatToStringInjective(a, c);
    NatToStringInjective(b, d);
  }

  /** Packages at different indices get different labels. */
  lemma LabelsDistinct(g: seq<Node>)
    ensures forall i, j :: 0 <= i < j < |g| ==> Labels(g)[i] != Labels(g)[j]
  {
    forall i, j | 0 <= i < j < |g| ensures Labels(g)[i] != Labels(g)[j] {
      if Labels(g)[i] == Labels(g)[j] {
        GuidLabelInjective(i, InCount(g, g[i].name), |g[i].deps|, j, InCount(g, g[j].name), |g[j].deps|);
      }
    }
  }

  // ---------------------------------------------------------------------
  // Colours (lines 45-49).

  function RootsOf(g: seq<Node>): (r: seq<string>)
    ensures |r| == |g|
  {
    seq(|g|, i requires 0 <= i < |g| => RootName(g[i].name))
  }

  /** The dictionary after the roots in order: a root not yet a key gets the
      next draw; a key is never assigned again. */
  function ColourMap(roots: seq<string>, pick: nat -> string): map<string, string>
  {
    if roots == [] then map[]
    else
      var front := ColourMap(roots[..|roots| - 1], pick);
      var r := roots[|roots| - 1];
      if r in front then front else front[r := pick(|front|)]
  }

  lemma ColourMapSnoc(roots: seq<string>, r: string, pick: nat -> string)
    ensures ColourMap(roots + [r], pick) ==
      var m := ColourMap(roots, pick);
      if r in m then m else m[r := pick(|m|)]
  {
    assert (roots + [r])[..|roots|] == roots;
  }

  /** The keys are exactly the roots seen. */
  lemma {:induction false} ColourMapKeys(roots: seq<string>, pick: nat -> string)
    ensures forall r :: r in ColourMap(roots, pick) <==> r in roots
  {
    if roots != [] {
      var front := roots[..|roots| - 1];
      ColourMapKeys(front, pick);
      assert roots == front + [roots[|roots| - 1]];
    }
  }

  /** The first colour given to a root stays its colour. */
  lemma {:induction false} ColourMapKeepsFirst(roots: seq<string>, n: nat, pick: nat -> string)
    requires n <= |roots|
    ensures forall r :: r in ColourMap(roots[..n], pick) ==>
      r in ColourMap(roots, pick) && ColourMap(roots, pick)[r] == ColourMap(roots[..n], pick)[r]
  {
    ColourMapKeys(roots, pick);
    ColourMapKeys(roots[..n], pick);
    if n < |roots| {
      var front := roots[..|roots| - 1];
      assert front[..n] == roots[..n];
      ColourMapKeepsFirst(front, n, pick);
    } else {
      assert roots[..n] == roots;
    }
  }

  // ---------------------------------------------------------------------
  // Resolving entries (lines 55-62).

  /** The position of the first name equal to `n`. */
  function FindName(names: seq<string>, n: string): (r: Option<nat>)
    ensures r.Some? ==> r.value < |names| && names[r.value] == n &&
                        forall j :: 0 <= j < r.value ==> names[j] != n
    ensures r.None? ==> forall j :: 0 <= j < |names| ==> names[j] != n
  {
    if names == [] then None
    else if names[0] == n then Some(0)
    else match FindName(names[1..], n)
      case None => None
      case Some(j) => Some(j + 1)
  }

  /** Looking a name up in the names finds the same package as looking it up
      in the packages. */
  lemma {:induction false} FindNameAgrees(g: seq<Node>, n: string)
    ensures FindName(Names(g), n) == FindPackage(g, n)
  {
    if g != [] {
      FindNameAgrees(g[1..], n);
      assert Names(g)[1..] == Names(g[1..]);
    }
  }

  /** An entry takes the label of the first package with its name; an entry
      no package matches keeps its own. */
  function Resolve(names: seq<string>, guids: seq<string>, e: Entry): Entry
    requires |names| == |guids|
  {
    match FindName(names, e.name)
    case None => e
    case Some(j) => e.(guid := guids[j])
  }

  /** Resolving changes only the label: to the label of the first package
      with the entry's name, or not at all when no package has it. */
  lemma ResolveMeaning(names: seq<string>, guids: seq<string>, e: Entry)
    requires |names| == |guids|
    ensures Resolve(names, guids, e) == e.(guid := Resolve(names, guids, e).guid)
    ensures (forall j :: 0 <= j < |names| ==> names[j] != e.name) ==> Resolve(names, guids, e) == e
    ensures forall j :: (0 <= j < |names| && names[j] == e.name &&
      forall j' :: 0 <= j' < j ==> names[j'] != e.name) ==> Resolve(names, guids, e).guid == guids[j]
  {
  }

  function ResolveAll(names: seq<string>, guids: seq<string>, deps: seq<Entry>): (r: seq<Entry>)
    requires |names| == |guids|
    ensures |r| == |deps|
  {
    seq(|deps|, k requires 0 <= k < |deps| => Resolve(names, guids, deps[k]))
  }

  /** Every package after the diagram: each dependency entry resolved
      against the labels. */
  function ResolvedGraph(g: seq<Node>): (r: seq<Node>)
    ensures |r| == |g|
  {
    var names, guids := Names(g), Labels(g);
    seq(|g|, i requires 0 <= i < |g| => g[i].(deps := ResolveAll(names, guids, g[i].deps)))
  }

  /** Resolving does not change which packages there are, their names or
      their edges; only entry labels change. */
  lemma ResolvedGraphKeeps(g: seq<Node>)
    ensures Names(ResolvedGraph(g)) == Names(g)
    ensures forall i :: 0 <= i < |g| ==>
      ResolvedGraph(g)[i].version == g[i].version && ResolvedGraph(g)[i].usedBy == g[i].usedBy &&
      |ResolvedGraph(g)[i].deps| == |g[i].deps| &&
      forall k :: 0 <= k < |g[i].deps| ==> ResolvedGraph(g)[i].deps[k].name == g[i].deps[k].name
  {
  }

  // ---------------------------------------------------------------------
  // Statements (lines 32-39, 52-54, 64-76).

  datatype DotLine =
    | Text(text: string)                                   // the fixed lines
    | NodeStmt(guid: string, colour: string)               // line 54
    | EdgeStmt(source: string, target: string, colour: string)  // line 71

  /** The eight fixed lines after which the statements follow. */
  function HeaderText(k: nat): string
  {
    if k == 0 then "digraph G {"
    else if k == 1 then " layout=\"twopi\";"
    else if k == 2 then " ranksep=3 // set radius, in inches"
    else if k == 3 then " node [shape = circle];"
    else if k == 4 then " edge [style=solid];"
    else if k == 5 then " graph [overlap=false, splines=true];"
    else if k == 6 then " //overlap = scale;"
    else " edge [concentrate=true]"
  }

  const HeaderLength := 8

  function HeaderLines(): (r: seq<DotLine>)
    ensures |r| == HeaderLength
  {
    seq(HeaderLength, k requires 0 <= k < HeaderLength => Text(HeaderText(k)))
  }

  const ClosingLine: DotLine := Text("}")

  /** The text of one line, without the line break `AppendLine` adds
      (the attribute name `penwitdh` is spelled as the source spells it). */
  function Render(l: DotLine): string
  {
    match l
    case Text(t) => t
    case NodeStmt(g, c) => g + " [penwitdh=20 color=\"" + c + "\"];"
    case EdgeStmt(s, t, c) => s + " -> " + t + " [color=\"" + c + "\"];"
  }

  /** `gray88` inside one root family, `black` across families. */
  function EdgeColour(sourceRoot: string, targetName: string): string
  {
    if sourceRoot == RootName(targetName) then "gray88" else "black"
  }

  /** The edges of one package: one per entry whose label is not empty, in
      entry order. */
  function Edges(source: string, root: string, deps: seq<Entry>): (r: seq<DotLine>)
    ensures |r| <= |deps|
  {
    if deps == [] then []
    else
      var d := deps[|deps| - 1];
      Edges(source, root, deps[..|deps| - 1]) +
        (if d.guid != "" then [EdgeStmt(source, d.guid, EdgeColour(root, d.name))] else [])
  }

  /** Every edge leaves the package and reaches a non-empty label. */
  lemma {:induction false} EdgesShape(source: string, root: string, deps: seq<Entry>)
    ensures forall k :: 0 <= k < |Edges(source, root, deps)| ==>
      Edges(source, root, deps)[k].EdgeStmt? && Edges(source, root, deps)[k].source == source &&
      Edges(source, root, deps)[k].target != ""
  {
    if deps != [] {
      EdgesShape(source, root, deps[..|deps| - 1]);
    }
  }

  /** An entry with a label gives an edge to that label, coloured by the rule. */
  lemma {:induction false} EdgesComplete(source: string, root: string, deps: seq<Entry>, m: nat)
    requires m < |deps| && deps[m].guid != ""
    ensures EdgeStmt(source, deps[m].guid, EdgeColour(root, deps[m].name)) in Edges(source, root, deps)
  {
    var front := deps[..|deps| - 1];
    if m < |front| {
      assert deps[m] == front[m];
      EdgesComplete(source, root, front, m);
    } else {
      var r := Edges(source, root, deps);
      assert r[|r| - 1] == EdgeStmt(source, deps[m].guid, EdgeColour(root, deps[m].name));
    }
  }

  /** Every edge comes from an entry with a label, coloured by the rule. */
  lemma {:induction false} EdgesSound(source: string, root: string, deps: seq<Entry>, k: nat)
    requires k < |Edges(source, root, deps)|
    ensures exists m :: (0 <= m < |deps| && deps[m].guid != "" &&
      Edges(source, root, deps)[k] == EdgeStmt(source, deps[m].guid, EdgeColour(root, deps[m].name)))
  {
    var front := deps[..|deps| - 1];
    var fr := Edges(source, root, front);
    var m: nat := |deps| - 1;
    if k < |fr| {
      EdgesSound(source, root, front, k);
      var m' :| 0 <= m' < |front| && front[m'].guid != "" &&
        fr[k] == EdgeStmt(source, front[m'].guid, EdgeColour(root, front[m'].name));
      assert deps[m'] == front[m'];
      m := m';
    }
    assert Edges(source, root, deps)[k] == EdgeStmt(source, deps[m].guid, EdgeColour(root, deps[m].name));
  }

  /** The positions of the entries that carry a label, ascending. */
  function Labelled(deps: seq<Entry>): (js: seq<nat>)
    ensures forall k :: 0 <= k < |js| ==> js[k] < |deps| && deps[js[k]].guid != ""
    ensures forall a, b :: 0 <= a < b < |js| ==> js[a] < js[b]
    ensures forall m :: 0 <= m < |deps| && deps[m].guid != "" ==> m in js
  {
    if deps == [] then []
    else
      var m := |deps| - 1;
      var front := Labelled(deps[..m]);
      assert forall k :: 0 <= k < |front| ==> deps[..m][front[k]] == deps[front[k]];
      front + (if deps[m].guid != "" then [m] else [])
  }

  /** Exactly one edge per labelled entry, in entry order, duplicates
      included: the j-th edge belongs to the j-th labelled entry. */
  lemma {:induction false} EdgesFollowLabelled(source: string, root: string, deps: seq<Entry>)
    ensures |Edges(source, root, deps)| == |Labelled(deps)|
    ensures forall j :: 0 <= j < |Labelled(deps)| ==>
      Edges(source, root, deps)[j] ==
        EdgeStmt(source, deps[Labelled(deps)[j]].guid, EdgeColour(root, deps[Labelled(deps)[j]].name))
  {
    if deps != [] {
      var m := |deps| - 1;
      var front := deps[..m];
      EdgesFollowLabelled(source, root, front);
      var lf := Labelled(front);
      var ls := Labelled(deps);
      var ef := Edges(source, root, front);
      var es := Edges(source, root, deps);
      var d := deps[m];
      assert ls == lf + (if d.guid != "" then [m] else []);
      assert es == ef + (if d.guid != "" then [EdgeStmt(source, d.guid, EdgeColour(root, d.name))] else []);
      forall j | 0 <= j < |ls|
        ensures es[j] == EdgeStmt(source, deps[ls[j]].guid, EdgeColour(root, deps[ls[j]].name))
      {
        if j < |lf| {
          assert ls[j] == lf[j] && es[j] == ef[j];
          assert front[lf[j]] == deps[lf[j]];
        }
      }
    }
  }

  /** The node statement and the edges of one package, given its label,
      colour and root name and its resolved entries. */
  function PackageLines(guid: string, colour: string, root: string, deps: seq<Entry>): seq<DotLine>
  {
    [NodeStmt(guid, colour)] + Edges(guid, root, deps)
  }

  /** Every root has a colour. */
  predicate Coloured(roots: seq<string>, colours: map<string, string>)
  {
    forall i :: 0 <= i < |roots| ==> roots[i] in colours
  }

  lemma ColourMapCovers(roots: seq<string>, pick: nat -> string)
    ensures Coloured(roots, ColourMap(roots, pick))
  {
    ColourMapKeys(roots, pick);
    forall i | 0 <= i < |roots| ensures roots[i] in ColourMap(roots, pick) {
      assert roots[i] in roots;
    }
  }

  /** The lines of each package, in list order: its label, its root's
      colour, its root name and its resolved entries. */
  function Chunks(resolved: seq<Node>, guids: seq<string>, roots: seq<string>,
                  colours: map<string, string>): (r: seq<seq<DotLine>>)
    requires |resolved| == |guids| == |roots| && Coloured(roots, colours)
    ensures |r| == |resolved|
  {
    seq(|resolved|, i requires 0 <= i < |resolved| =>
      PackageLines(guids[i], colours[roots[i]], roots[i], resolved[i].deps))
  }

  /** The chunks one after the other. */
  function Flatten(chunks: seq<seq<DotLine>>): seq<DotLine>
  {
    if chunks == [] then [] else Flatten(chunks[..|chunks| - 1]) + chunks[|chunks| - 1]
  }

  lemma FlattenSnoc(chunks: seq<seq<DotLine>>, c: seq<DotLine>)
    ensures Flatten(chunks + [c]) == Flatten(chunks) + c
  {
    assert (chunks + [c])[..|chunks|] == chunks;
  }

  /** The whole output of `GetDotOutput`, line by line. */
  function DotSpec(g: seq<Node>, pick: nat -> string): (r: seq<DotLine>)
    ensures |r| >= HeaderLength + 1
    ensures r[..HeaderLength] == HeaderLines() && r[|r| - 1] == ClosingLine
  {
    var roots := RootsOf(g);
    ColourMapCovers(roots, pick);
    HeaderLines() + Flatten(Chunks(ResolvedGraph(g), Labels(g), roots, ColourMap(roots, pick))) + [ClosingLine]
  }

  /** The node statements, in order. */
  function NodeStmts(lines: seq<DotLine>): (r: seq<DotLine>)
  {
    if lines == [] then []
    else NodeStmts(lines[..|lines| - 1]) + (if lines[|lines| - 1].NodeStmt? then [lines[|lines| - 1]] else [])
  }

  lemma {:induction false} NodeStmtsAppend(a: seq<DotLine>, b: seq<DotLine>)
    ensures NodeStmts(a + b) == NodeStmts(a) + NodeStmts(b)
  {
    if b != [] {
      NodeStmtsAppend(a, b[..|b| - 1]);
      assert (a + b)[..|a + b| - 1] == a + b[..|b| - 1];
    } else {
      assert a + b == a;
    }
  }

  lemma {:induction false} NoNodeStmts(lines: seq<DotLine>)
    requires forall k :: 0 <= k < |lines| ==> !lines[k].NodeStmt?
    ensures NodeStmts(lines) == []
  {
    if lines != [] {
      NoNodeStmts(lines[..|lines| - 1]);
    }
  }

  /** A package contributes exactly its own node statement. */
  lemma PackageNodeStmt(guid: string, colour: string, root: string, deps: seq<Entry>)
    ensures NodeStmts(PackageLines(guid, colour, root, deps)) == [NodeStmt(guid, colour)]
  {
    var e := Edges(guid, root, deps);
    EdgesShape(guid, root, deps);
    NoNodeStmts(e);
    NodeStmtsAppend([NodeStmt(guid, colour)], e);
    assert [NodeStmt(guid, colour)][..0] == [];
  }

  /** One node statement per package, from its label and its root's colour. */
  function NodeList(guids: seq<string>, roots: seq<string>, colours: map<string, string>, n: nat): (r: seq<DotLine>)
    requires n <= |guids| == |roots| && Coloured(roots, colours)
    ensures |r| == n
  {
    seq(n, i requires 0 <= i < n => NodeStmt(guids[i], colours[roots[i]]))
  }

  /** Chunks that hold one node statement each give those statements, in order. */
  lemma {:induction false} NodeStmtsOfChunks(cs: seq<seq<DotLine>>, nodes: seq<DotLine>)
    requires |cs| == |nodes|
    requires forall k :: 0 <= k < |cs| ==> NodeStmts(cs[k]) == [nodes[k]]
    ensures NodeStmts(Flatten(cs)) == nodes
  {
    if cs != [] {
      var m := |cs| - 1;
      NodeStmtsOfChunks(cs[..m], nodes[..m]);
      NodeStmtsAppend(Flatten(cs[..m]), cs[m]);
      assert nodes == nodes[..m] + [nodes[m]];
    }
  }

  /** Exactly one node statement per package, in list order, carrying the
      package's label and its root's colour. */
  lemma OneNodePerPackage(resolved: seq<Node>, guids: seq<string>, roots: seq<string>,
                          colours: map<string, string>)
    requires |resolved| == |guids| == |roots| && Coloured(roots, colours)
    ensures NodeStmts(Flatten(Chunks(resolved, guids, roots, colours))) ==
      NodeList(guids, roots, colours, |resolved|)
  {
    var cs := Chunks(resolved, guids, roots, colours);
    var nodes := NodeList(guids, roots, colours, |resolved|);
    forall k | 0 <= k < |cs| ensures NodeStmts(cs[k]) == [nodes[k]] {
      PackageNodeStmt(guids[k], colours[roots[k]], roots[k], resolved[k].deps);
    }
    NodeStmtsOfChunks(cs, nodes);
  }

  /** The header and the closing line hold no node statement, so the whole
      output has exactly one per package, in list order. */
  lemma NodeStmtsOfOutput(g: seq<Node>, pick: nat -> string)
    ensures Coloured(RootsOf(g), ColourMap(RootsOf(g), pick))
    ensures NodeStmts(DotSpec(g, pick)) == NodeList(Labels(g), RootsOf(g), ColourMap(RootsOf(g), pick), |g|)
  {
    var roots := RootsOf(g);
    var colours := ColourMap(roots, pick);
    ColourMapCovers(roots, pick);
    var cs := Chunks(ResolvedGraph(g), Labels(g), roots, colours);
    OneNodePerPackage(ResolvedGraph(g), Labels(g), roots, colours);
    NodeStmtsInside(Flatten(cs));
  }

  /** The header and the closing brace declare no node. */
  lemma NodeStmtsInside(body: seq<DotLine>)
    ensures NodeStmts(HeaderLines() + body + [ClosingLine]) == NodeStmts(body)
  {
    NoNodeStmts(HeaderLines());
    NoNodeStmts([ClosingLine]);
    NodeStmtsAppend(HeaderLines(), body);
    NodeStmtsAppend(HeaderLines() + body, [ClosingLine]);
  }

  // ---------------------------------------------------------------------
  // The builder.

  /** Lines 55-62 for one package: resolve every entry in place. */
  method ResolveDependencies(p: Package, names: seq<string>, guids: seq<string>)
    requires |names| == |guids|
    modifies p`dependencies
    ensures p.dependencies == ResolveAll(names, guids, old(p.dependencies))
  {
    ghost var d0 := p.dependencies;
    for k := 0 to |p.dependencies|
      invariant |p.dependencies| == |d0|
      invariant forall m :: 0 <= m < k ==> p.dependencies[m] == Resolve(names, guids, d0[m])
      invariant forall m :: k <= m < |d0| ==> p.dependencies[m] == d0[m]
    {
      match FindName(names, p.dependencies[k].name) {
        case Some(j) =>
          p.SetDependencyGuid(k, guids[j]);
        case None =>
      }
    }
  }

  /** Lines 65-73 for one package. */
  method EdgeLines(source: string, root: string, deps: seq<Entry>) returns (r: seq<DotLine>)
    ensures r == Edges(source, root, deps)
  {
    r := [];
    for k := 0 to |deps|
      invariant r == Edges(source, root, deps[..k])
    {
      assert deps[..k + 1][..k] == deps[..k];
      if deps[k].guid != "" {
        r := r + [EdgeStmt(source, deps[k].guid, EdgeColour(root, deps[k].name))];
      }
    }
    assert deps[..|deps|] == deps;
  }

  /** What the iteration at `i` computes, from the values. */
  lemma LabelStep(g0: seq<Node>, i: nat, pick: nat -> string)
    requires i < |g0|
    ensures GuidLabel(i, InCount(g0, g0[i].name), |g0[i].deps|) == Labels(g0)[i]
    ensures RootName(g0[i].name) == RootsOf(g0)[i]
    ensures ColourMap(RootsOf(g0)[..i + 1], pick) ==
      var m := ColourMap(RootsOf(g0)[..i], pick);
      if RootName(g0[i].name) in m then m else m[RootName(g0[i].name) := pick(|m|)]
  {
    var roots := RootsOf(g0);
    assert roots[..i + 1] == roots[..i] + [roots[i]];
    ColourMapSnoc(roots[..i], roots[i], pick);
  }

  /** Lines 40-50: label every package, note its root name, and give each
      new root the next colour. */
  method LabelPackages(pkgs: seq<Package>, pick: nat -> string) returns (colours: map<string, string>)
    requires Distinct(pkgs)
    modifies pkgs`guid, pkgs`rootName
    ensures Nodes(pkgs) == old(Nodes(pkgs))
    ensures colours == ColourMap(RootsOf(old(Nodes(pkgs))), pick)
    ensures forall k :: 0 <= k < |pkgs| ==>
      pkgs[k].guid == Labels(old(Nodes(pkgs)))[k] && pkgs[k].rootName == RootsOf(old(Nodes(pkgs)))[k]
  {
    var g0 := Nodes(pkgs);
    ghost var labels := Labels(g0);
    ghost var roots := RootsOf(g0);
    colours := map[];
    for i := 0 to |pkgs|
      invariant colours == ColourMap(roots[..i], pick)
      invariant forall k :: 0 <= k < i ==> pkgs[k].guid == labels[k] && pkgs[k].rootName == roots[k]
    {
      var p := pkgs[i];
      LabelStep(g0, i, pick);
      var guid := GuidLabel(i, InCount(g0, g0[i].name), |g0[i].deps|);
      var root := RootName(g0[i].name);
      assert forall k :: 0 <= k < |pkgs| && k != i ==> pkgs[k] != p;
      p.guid := guid;
      p.rootName := root;
      if root !in colours {
        colours := colours[root := pick(|colours|)];
      }
    }
    assert roots[..|pkgs|] == roots;
  }

  /** Lines 54-73 for one package: its node statement, then its entries
      resolved in place, then its edges. The ghost parameters name the
      package's label, colour and root name as the caller knows them. */
  method EmitPackage(p: Package, names: seq<string>, guids: seq<string>, colours: map<string, string>,
                     ghost guid: string, ghost colour: string, ghost root: string)
    returns (out: seq<DotLine>)
    requires |names| == |guids| && p.rootName in colours
    requires p.guid == guid && colours[p.rootName] == colour && RootName(p.name) == root
    modifies p`dependencies
    ensures p.dependencies == ResolveAll(names, guids, old(p.dependencies))
    ensures p.AsNode() == old(p.AsNode()).(deps := p.dependencies)
    ensures out == PackageLines(guid, colour, root, p.dependencies)
  {
    out := [NodeStmt(p.guid, colours[p.rootName])];
    ResolveDependencies(p, names, guids);
    var mainRoot := RootName(p.name);
    var edges := EdgeLines(p.guid, mainRoot, p.dependencies);
    out := out + edges;
  }

  /** Appending the chunk at `i` extends the output by one package. */
  lemma AppendChunk(lines0: seq<DotLine>, lines: seq<DotLine>, chunks: seq<seq<DotLine>>, i: nat)
    requires i < |chunks| && lines == lines0 + Flatten(chunks[..i])
    ensures lines + chunks[i] == lines0 + Flatten(chunks[..i + 1])
  {
    assert chunks[..i + 1] == chunks[..i] + [chunks[i]];
    FlattenSnoc(chunks[..i], chunks[i]);
  }

  /** Lines 52-74: the statements of every package, appended in list order,
      each package's entries resolved on the way. */
  method EmitStatements(pkgs: seq<Package>, names: seq<string>, guids: seq<string>,
                        colours: map<string, string>, lines0: seq<DotLine>,
                        ghost g0: seq<Node>, ghost roots: seq<string>, ghost chunks: seq<seq<DotLine>>)
    returns (lines: seq<DotLine>)
    requires Distinct(pkgs)
    requires |g0| == |pkgs| == |roots| == |guids| == |names| == |chunks|
    requires Coloured(roots, colours) && roots == RootsOf(g0)
    requires forall k :: 0 <= k < |pkgs| ==> pkgs[k].AsNode() == g0[k]
    requires forall k :: 0 <= k < |pkgs| ==> pkgs[k].guid == guids[k] && pkgs[k].rootName == roots[k]
    requires forall k :: 0 <= k < |pkgs| ==>
      chunks[k] == PackageLines(guids[k], colours[roots[k]], roots[k], ResolveAll(names, guids, g0[k].deps))
    modifies pkgs`dependencies
    ensures lines == lines0 + Flatten(chunks)
    ensures forall k :: 0 <= k < |pkgs| ==>
      pkgs[k].AsNode() == g0[k].(deps := ResolveAll(names, guids, g0[k].deps))
  {
    lines := lines0;
    for i := 0 to |pkgs|
      invariant lines == lines0 + Flatten(chunks[..i])
      invariant forall k :: 0 <= k < |pkgs| ==>
        pkgs[k].AsNode() == if k < i then g0[k].(deps := ResolveAll(names, guids, g0[k].deps)) else g0[k]
    {
      var p := pkgs[i];
      var out := EmitPackage(p, names, guids, colours, guids[i], colours[roots[i]], roots[i]);
      assert forall j :: 0 <= j < |pkgs| && j != i ==> pkgs[j] != p;
      AppendChunk(lines0, lines, chunks, i);
      lines := lines + out;
    }
    assert chunks[..|pkgs|] == chunks;
  }

  /** The chunks of the output, entry by entry, from the labels and names. */
  lemma ChunksOfLabels(g0: seq<Node>, names: seq<string>, guids: seq<string>, roots: seq<string>,
                       colours: map<string, string>)
    requires names == Names(g0) && guids == Labels(g0) && |roots| == |g0| && Coloured(roots, colours)
    ensures forall k :: 0 <= k < |g0| ==>
      Chunks(ResolvedGraph(g0), guids, roots, colours)[k] ==
        PackageLines(guids[k], colours[roots[k]], roots[k], ResolveAll(names, guids, g0[k].deps))
  {
  }

  /** After every package has had its entries resolved, the packages are
      the resolved graph. */
  lemma AllResolved(g0: seq<Node>, after: seq<Node>, names: seq<string>, guids: seq<string>)
    requires names == Names(g0) && guids == Labels(g0) && |after| == |g0|
    requires forall k :: 0 <= k < |g0| ==> after[k] == g0[k].(deps := ResolveAll(names, guids, g0[k].deps))
    ensures after == ResolvedGraph(g0)
  {
  }

  /** `GetDotOutput` (lines 28-78): the statements it appends, in order, and
      what it leaves on the packages. */
  method GetDotOutput(pkgs: seq<Package>, pick: nat -> string) returns (lines: seq<DotLine>)
    requires Distinct(pkgs)
    modifies pkgs`guid, pkgs`rootName, pkgs`dependencies
    ensures lines == DotSpec(old(Nodes(pkgs)), pick)
    ensures Nodes(pkgs) == ResolvedGraph(old(Nodes(pkgs)))
  {
    ghost var g0 := Nodes(pkgs);
    ghost var roots := RootsOf(g0);
    var names := seq(|pkgs|, k requires 0 <= k < |pkgs| reads pkgs => pkgs[k].name);
    assert names == Names(g0);
    var colours := LabelPackages(pkgs, pick);
    var guids := seq(|pkgs|, k requires 0 <= k < |pkgs| reads pkgs => pkgs[k].guid);
    assert guids == Labels(g0);
    ColourMapCovers(roots, pick);
    ghost var chunks := Chunks(ResolvedGraph(g0), guids, roots, colours);
    ChunksOfLabels(g0, names, guids, roots, colours);
    assert forall k :: 0 <= k < |pkgs| ==> pkgs[k].AsNode() == g0[k];
    lines := EmitStatements(pkgs, names, guids, colours, HeaderLines(), g0, roots, chunks);
    lines := lines + [ClosingLine];
    AllResolved(g0, Nodes(pkgs), names, guids);
  }

  /** `A.B.C` is found second and takes the second label; `X` is not
      found and keeps its empty label. */
  lemma FamilyResolveExample(source: string, target: string)
    ensures
      var deps := [NewEntry("A.B.C", "2"), NewEntry("X", "1")];
      ResolveAll(["A.B.C.D", "A.B.C"], [source, target], deps) == [deps[0].(guid := target), deps[1]]
  {
    var names := ["A.B.C.D", "A.B.C"];
    var guids := [source, target];
    var deps := [NewEntry("A.B.C", "2"), NewEntry("X", "1")];
    assert names[0] != deps[0].name && names[1] == deps[0].name;
    assert names[0] != deps[1].name && names[1] != deps[1].name;
    ResolveMeaning(names, guids, deps[0]);
    ResolveMeaning(names, guids, deps[1]);
  }

  /** An edge from `A.B.C.D` to `A.B.C` stays inside the family `ABC`. */
  lemma FamilyColourExample()
    ensures EdgeColour(RootName("A.B.C.D"), "A.B.C") == "gray88"
  {
    LongRootExample();
    ShortRootExamples();
  }

  /** `A.B.C.D` lists `A.B.C`, which is listed second, and `X`, which is
      not listed: one edge, to the label of `A.B.C`, inside the family. */
  lemma SameFamilyEdge(source: string, target: string)
    requires target != ""
    ensures
      var names := ["A.B.C.D", "A.B.C"];
      var deps := [NewEntry("A.B.C", "2"), NewEntry("X", "1")];
      Edges(source, RootName(names[0]), ResolveAll(names, [source, target], deps)) ==
        [EdgeStmt(source, target, "gray88")]
  {
    var deps := [NewEntry("A.B.C", "2"), NewEntry("X", "1")];
    var resolved := [deps[0].(guid := target), deps[1]];
    FamilyResolveExample(source, target);
    var root := RootName("A.B.C.D");
    FamilyColourExample();
    assert resolved[..1] == [resolved[0]];
    assert Edges(source, root, resolved) == [EdgeStmt(source, target, "gray88")];
  }
}
