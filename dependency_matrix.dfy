/** ExcelDependencyMatrixCreator.cs, `CreateDependencyMatrix`: the cells the
    three loops write into the worksheet "Work". The worksheet is the map
    from 1-based (row, column) to the written text; a cell never written is
    not a key. */
module DependencyMatrix {
  import opened Wrappers
  import opened Models

  type Cells = map<(int, int), string>

  /** The first loop (lines 26-29) after `m` turns: row 1, columns 2 .. m+1. */
  function TopHeaders(g: seq<Node>, m: nat, cells: Cells): Cells
    requires m <= |g|
  {
    if m == 0 then cells else TopHeaders(g, m - 1, cells)[(1, m + 1) := g[m - 1].name]
  }

  /** The second loop (lines 31-34) after `m` turns: column 1, rows 2 .. m+1. */
  function SideHeaders(g: seq<Node>, m: nat, cells: Cells): Cells
    requires m <= |g|
  {
    if m == 0 then cells else SideHeaders(g, m - 1, cells)[(m + 1, 1) := g[m - 1].name]
  }

  /** The column an entry marks: two more than the position of the first
      listed package with the entry's name; none when no package has it. */
  predicate MarksColumn(g: seq<Node>, e: Entry, c: int)
  {
    match FindPackage(g, e.name)
    case None => false
    case Some(j) => c == j + 2
  }

  /** The inner `foreach` (lines 39-48) over the entries `deps` of the package
      on `row`. */
  function RowMarks(g: seq<Node>, deps: seq<Entry>, row: int, cells: Cells): Cells
  {
    if deps == [] then cells
    else
      var marked := RowMarks(g, deps[..|deps| - 1], row, cells);
      match FindPackage(g, deps[|deps| - 1].name)
      case None => marked
      case Some(j) => marked[(row, j + 2) := "dependency"]
  }

  /** The third loop (lines 36-49) after `m` rows. */
  function DependencyMarks(g: seq<Node>, m: nat, cells: Cells): Cells
    requires m <= |g|
  {
    if m == 0 then cells else RowMarks(g, g[m - 1].deps, m + 1, DependencyMarks(g, m - 1, cells))
  }

  /** The worksheet after the three loops. */
  function Matrix(g: seq<Node>): Cells
  {
    DependencyMarks(g, |g|, SideHeaders(g, |g|, TopHeaders(g, |g|, map[])))
  }

  /** The package at position `i` has an entry marking column `c`. */
  predicate DependsOn(g: seq<Node>, i: nat, c: int)
    requires i < |g|
  {
    MarkedBy(g, g[i].deps, c)
  }

  /** The cells the matrix holds, independently of the loops: the names
      across row 1 and down column 1, and a mark where the row's package
      has an entry resolving to the column's package. */
  predicate Written(g: seq<Node>, r: int, c: int)
  {
    (r == 1 && 2 <= c <= |g| + 1) || (c == 1 && 2 <= r <= |g| + 1) ||
    (2 <= r <= |g| + 1 && DependsOn(g, r - 2, c))
  }

  /** What a written cell holds. */
  function Expected(g: seq<Node>, r: int, c: int): string
    requires Written(g, r, c)
  {
    if r == 1 then g[c - 2].name else if c == 1 then g[r - 2].name else "dependency"
  }

  /** `CreateDependencyMatrix` (lines 26-49): the three loops of the source,
      with `FirstOrDefault` and `IndexOf` as the position of the first
      package with the entry's name. */
  method CreateDependencyMatrix(packages: seq<Node>) returns (cells: Cells)
    ensures cells == Matrix(packages)
  {
    cells := map[];
    for i := 1 to |packages| + 1
      invariant cells == TopHeaders(packages, i - 1, map[])
    {
      cells := cells[(1, i + 1) := packages[i - 1].name];
    }
    ghost var top := cells;
    for i := 1 to |packages| + 1
      invariant cells == SideHeaders(packages, i - 1, top)
    {
      cells := cells[(i + 1, 1) := packages[i - 1].name];
    }
    ghost var headers := cells;
    for i := 1 to |packages| + 1
      invariant cells == DependencyMarks(packages, i - 1, headers)
    {
      var packageOnRow := packages[i - 1];
      ghost var before := cells;
      for k := 0 to |packageOnRow.deps|
        invariant cells == RowMarks(packages, packageOnRow.deps[..k], i + 1, before)
      {
        var dependency := packageOnRow.deps[k];
        RowMarksStep(packages, packageOnRow.deps, k, i + 1, before);
        var found := FindPackage(packages, dependency.name);
        if found.Some? {
          var indexOfDependency := found.value;
          cells := cells[(i + 1, indexOfDependency + 2) := "dependency"];
        }
      }
      assert packageOnRow.deps[..|packageOnRow.deps|] == packageOnRow.deps;
    }
  }

  /** One more entry of the row: its mark, if it resolves, on top of the
      earlier ones. */
  lemma RowMarksStep(g: seq<Node>, deps: seq<Entry>, k: nat, row: int, cells: Cells)
    requires k < |deps|
    ensures RowMarks(g, deps[..k + 1], row, cells) ==
      match FindPackage(g, deps[k].name)
      case None => RowMarks(g, deps[..k], row, cells)
      case Some(j) => RowMarks(g, deps[..k], row, cells)[(row, j + 2) := "dependency"]
  {
    assert deps[..k + 1][..k] == deps[..k];
  }

  lemma {:induction false} TopHeadersAt(g: seq<Node>, m: nat, cells: Cells, r: int, c: int)
    requires m <= |g|
    ensures (r, c) in TopHeaders(g, m, cells) <==> (r, c) in cells || (r == 1 && 2 <= c <= m + 1)
    ensures (r, c) in TopHeaders(g, m, cells) ==>
      TopHeaders(g, m, cells)[(r, c)] == if r == 1 && 2 <= c <= m + 1 then g[c - 2].name else cells[(r, c)]
  {
    if m > 0 {
      TopHeadersAt(g, m - 1, cells, r, c);
    }
  }

  lemma {:induction false} SideHeadersAt(g: seq<Node>, m: nat, cells: Cells, r: int, c: int)
    requires m <= |g|
    ensures (r, c) in SideHeaders(g, m, cells) <==> (r, c) in cells || (c == 1 && 2 <= r <= m + 1)
    ensures (r, c) in SideHeaders(g, m, cells) ==>
      SideHeaders(g, m, cells)[(r, c)] == if c == 1 && 2 <= r <= m + 1 then g[r - 2].name else cells[(r, c)]
  {
    if m > 0 {
      SideHeadersAt(g, m - 1, cells, r, c);
    }
  }

  lemma {:induction false} RowMarksAt(g: seq<Node>, deps: seq<Entry>, row: int, cells: Cells, r: int, c: int)
    ensures (r, c) in RowMarks(g, deps, row, cells) <==> (r, c) in cells || (r == row && MarkedBy(g, deps, c))
    ensures (r, c) in RowMarks(g, deps, row, cells) ==>
      RowMarks(g, deps, row, cells)[(r, c)] == if r == row && MarkedBy(g, deps, c) then "dependency" else cells[(r, c)]
  {
    if deps != [] {
      RowMarksAt(g, deps[..|deps| - 1], row, cells, r, c);
      MarkedBySnoc(g, deps, c);
    }
  }

  /** Some entry of `deps` marks column `c`. */
  predicate MarkedBy(g: seq<Node>, deps: seq<Entry>, c: int)
  {
    exists k :: 0 <= k < |deps| && MarksColumn(g, deps[k], c)
  }

  lemma MarkedBySnoc(g: seq<Node>, deps: seq<Entry>, c: int)
    requires deps != []
    ensures MarkedBy(g, deps, c) <==> MarkedBy(g, deps[..|deps| - 1], c) || MarksColumn(g, deps[|deps| - 1], c)
  {
    var front := deps[..|deps| - 1];
    if MarkedBy(g, deps, c) {
      var k :| 0 <= k < |deps| && MarksColumn(g, deps[k], c);
      if k < |front| {
        assert front[k] == deps[k];
      }
    }
    if MarkedBy(g, front, c) {
      var k :| 0 <= k < |front| && MarksColumn(g, front[k], c);
      assert deps[k] == front[k];
    }
  }

  lemma {:induction false} DependencyMarksAt(g: seq<Node>, m: nat, cells: Cells, r: int, c: int)
    requires m <= |g|
    ensures (r, c) in DependencyMarks(g, m, cells) <==>
      (r, c) in cells || (2 <= r <= m + 1 && DependsOn(g, r - 2, c))
    ensures (r, c) in DependencyMarks(g, m, cells) ==>
      DependencyMarks(g, m, cells)[(r, c)] ==
        if 2 <= r <= m + 1 && DependsOn(g, r - 2, c) then "dependency" else cells[(r, c)]
  {
    if m > 0 {
      DependencyMarksAt(g, m - 1, cells, r, c);
      RowMarksAt(g, g[m - 1].deps, m + 1, DependencyMarks(g, m - 1, cells), r, c);
    }
  }

  /** A marked column is the column of a listed package. */
  lemma MarksColumnRange(g: seq<Node>, e: Entry, c: int)
    requires MarksColumn(g, e, c)
    ensures 2 <= c <= |g| + 1
  {
  }

  /** Every cell of the matrix: it is written exactly where `Written` says,
      and holds what `Expected` says. */
  lemma MatrixCell(g: seq<Node>, r: int, c: int)
    ensures (r, c) in Matrix(g) <==> Written(g, r, c)
    ensures (r, c) in Matrix(g) ==> Matrix(g)[(r, c)] == Expected(g, r, c)
  {
    var n := |g|;
    var top := TopHeaders(g, n, map[]);
    var side := SideHeaders(g, n, top);
    TopHeadersAt(g, n, map[], r, c);
    SideHeadersAt(g, n, top, r, c);
    DependencyMarksAt(g, n, side, r, c);
    if 2 <= r <= n + 1 && DependsOn(g, r - 2, c) {
      var k :| 0 <= k < |g[r - 2].deps| && MarksColumn(g, g[r - 2].deps[k], c);
      MarksColumnRange(g, g[r - 2].deps[k], c);
    }
  }

  /** Cell (1, 1) is never written, and every written cell lies in rows and
      columns 1 .. n+1. */
  lemma MatrixBounds(g: seq<Node>, r: int, c: int)
    requires (r, c) in Matrix(g)
    ensures 1 <= r <= |g| + 1 && 1 <= c <= |g| + 1 && (r, c) != (1, 1)
  {
    MatrixCell(g, r, c);
    if 2 <= r <= |g| + 1 && DependsOn(g, r - 2, c) {
      var k :| 0 <= k < |g[r - 2].deps| && MarksColumn(g, g[r - 2].deps[k], c);
      MarksColumnRange(g, g[r - 2].deps[k], c);
    }
  }

  /** A package listing `B.C` and an unknown `X`, next to `B.C` listed
      second: only the cell of `B.C` on the first package's row is marked. */
  lemma UnknownDependencyMarksNothing()
    ensures
      var g := [Node("A", "1", [NewEntry("B.C", "2"), NewEntry("X", "1")], []), Node("B.C", "2", [], [])];
      (2, 3) in Matrix(g) && Matrix(g)[(2, 3)] == "dependency" && (2, 2) !in Matrix(g) && (3, 2) !in Matrix(g)
  {
    var g := [Node("A", "1", [NewEntry("B.C", "2"), NewEntry("X", "1")], []), Node("B.C", "2", [], [])];
    assert FindPackage(g, "B.C") == Some(1) by {
      assert g[1..][0].name == "B.C";
    }
    assert FindPackage(g, "X") == None by {
      assert g[0].name != "X" && g[1].name != "X";
    }
    assert DependsOn(g, 0, 3) by {
      assert MarksColumn(g, g[0].deps[0], 3);
    }
    assert !DependsOn(g, 0, 2) by {
      assert !MarksColumn(g, g[0].deps[0], 2) && !MarksColumn(g, g[0].deps[1], 2);
    }
    assert !DependsOn(g, 1, 2) by {
      assert g[1].deps == [];
    }
    MatrixCell(g, 2, 3);
    MatrixCell(g, 2, 2);
    MatrixCell(g, 3, 2);
  }
}
