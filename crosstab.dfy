/** `render_crosstab` (sphinx_sparql/__init__.py, lines 143-224): a pivot of
    a SELECT result on two of its variables. Every distinct value of
    dimension-x becomes a column, every distinct value of dimension-y a row,
    and the cell where they meet holds a check mark when some solution binds
    that pair. */
module Crosstab {

  import opened SparqlResults

  /** The (x, y) pairs the solutions bind to the two dimensions: the set of
      cells the source's matrix marks. A solution that leaves either
      dimension unbound marks nothing here; the source raises on it instead,
      and RenderCrosstab's requires excludes that case. */
  function Marks(solutions: seq<Solution>, dx: string, dy: string): set<(string, string)> {
    if solutions == [] then {}
    else
      var last := solutions[|solutions| - 1];
      Marks(solutions[..|solutions| - 1], dx, dy)
        + (if dx in last && dy in last then {(last[dx], last[dy])} else {})
  }

  /** Some solution binds dimension-x to `x` and dimension-y to `y`. */
  predicate Binds(solution: Solution, dx: string, dy: string, x: string, y: string) {
    dx in solution && dy in solution && solution[dx] == x && solution[dy] == y
  }

  /** The column labels: every value dimension-x takes. */
  function XLabels(marks: set<(string, string)>): set<string> {
    set m | m in marks :: m.0
  }

  /** The row labels: every value dimension-y takes. */
  function YLabels(marks: set<(string, string)>): set<string> {
    set m | m in marks :: m.1
  }

  /** `xs` lists the elements of `s`, each exactly once, in some order: what
      iterating over a Python set yields. */
  ghost predicate Enumerates(xs: seq<string>, s: set<string>) {
    && (forall i, j :: 0 <= i < j < |xs| ==> xs[i] != xs[j])
    && (forall e :: e in xs <==> e in s)
  }

  /** The text of the cell at column label `x` and row label `y`. */
  function CellText(marks: set<(string, string)>, x: string, y: string): string {
    if (x, y) in marks then Check else ""
  }

  /** The header: an empty title cell, then the column labels. (The ensures
      clauses spell out the definition for readers; they add nothing to it.) */
  function CrossHeader(xs: seq<string>): (row: Row)
    ensures |row| == |xs| + 1 && row[0] == Some("")
    ensures forall j :: 0 <= j < |xs| ==> row[j + 1] == Some(xs[j])
  {
    [Some("")] + seq(|xs|, j requires 0 <= j < |xs| => Some(xs[j]))
  }

  /** The cells of the row labelled `y`, one per column label, in the
      header's order. (The ensures clauses spell out the definition for
      readers; they add nothing to it.) */
  function CrossCells(marks: set<(string, string)>, xs: seq<string>, y: string): (cells: Row)
    ensures |cells| == |xs|
    ensures forall j :: 0 <= j < |xs| ==> cells[j] == Some(CellText(marks, xs[j], y))
  {
    seq(|xs|, j requires 0 <= j < |xs| => Some(CellText(marks, xs[j], y)))
  }

  /** `group` is the pivot of `marks` laid out with the column labels in the
      order `xs` and the row labels in the order `ys`. */
  predicate LaidOut(marks: set<(string, string)>, xs: seq<string>, ys: seq<string>, group: TGroup) {
    && group.cols == |xs| + 1
    && group.colspecs == |xs| + 1
    && group.header == CrossHeader(xs)
    && |group.body| == |ys|
    && forall i :: 0 <= i < |ys| ==> group.body[i] == [Some(ys[i])] + CrossCells(marks, xs, ys[i])
  }

  /** `group` is the pivot of `marks` for some order of its labels; the same
      order of column labels is used by the header and by every row. */
  ghost predicate IsCrosstab(marks: set<(string, string)>, group: TGroup) {
    exists xs, ys ::
      Enumerates(xs, XLabels(marks)) && Enumerates(ys, YLabels(marks)) && LaidOut(marks, xs, ys, group)
  }

  /** Iteration over a Python set: its elements, each once, in an order the
      model leaves open. */
  method Enumerate(s: set<string>) returns (xs: seq<string>)
    ensures Enumerates(xs, s)
  {
    xs := [];
    var rest := s;
    while rest != {}
      invariant rest <= s
      invariant forall e :: e in xs <==> e in s && e !in rest
      invariant forall i, j :: 0 <= i < j < |xs| ==> xs[i] != xs[j]
      decreases rest
    {
      var e :| e in rest;
      xs := xs + [e];
      rest := rest - {e};
    }
  }

  /** `matrix` is the source's `defaultdict(dict)` after the results loop:
      `matrix[y][x]` is a check mark exactly for the marked pairs, and a row
      key exists only once something was marked in it. */
  ghost predicate MatrixOf(matrix: map<string, map<string, string>>, marks: set<(string, string)>) {
    && (forall y, x :: y in matrix && x in matrix[y] <==> (x, y) in marks)
    && (forall y, x :: y in matrix && x in matrix[y] ==> matrix[y][x] == Check)
    && (forall y :: y in matrix ==> matrix[y] != map[])
  }

  /** The results loop: each solution sets `matrix[y][x]` to a check mark. */
  method FillMatrix(solutions: seq<Solution>, dx: string, dy: string)
    returns (matrix: map<string, map<string, string>>)
    requires forall k :: 0 <= k < |solutions| ==> dx in solutions[k] && dy in solutions[k]
    ensures MatrixOf(matrix, Marks(solutions, dx, dy))
  {
    matrix := map[];
    for i := 0 to |solutions|
      invariant MatrixOf(matrix, Marks(solutions[..i], dx, dy))
    {
      var res := solutions[i];
      var x := res[dx];
      var y := res[dy];
      assert solutions[..i + 1][..i] == solutions[..i];
      assert Marks(solutions[..i + 1], dx, dy) == Marks(solutions[..i], dx, dy) + {(x, y)};
      var inner := if y in matrix then matrix[y] else map[];
      matrix := matrix[y := inner[x := Check]];
    }
    assert solutions[..|solutions|] == solutions;
  }

  /** The label sets read off the matrix are the label sets of the marks. */
  lemma MatrixLabels(matrix: map<string, map<string, string>>, marks: set<(string, string)>)
    requires MatrixOf(matrix, marks)
    ensures (set y, x | y in matrix && x in matrix[y] :: x) == XLabels(marks)
    ensures matrix.Keys == YLabels(marks)
  {
    forall y | y in matrix ensures y in YLabels(marks) {
      var x :| x in matrix[y];
      assert (x, y) in marks;
    }
  }

  /** One body row: the row label, then `matrix.get(y, {}).get(x, "")` for
      every column label in header order. */
  method BuildRow(matrix: map<string, map<string, string>>, ghost marks: set<(string, string)>,
                  xs: seq<string>, yLabel: string) returns (row: Row)
    requires MatrixOf(matrix, marks)
    ensures row == [Some(yLabel)] + CrossCells(marks, xs, yLabel)
  {
    row := [Some(yLabel)];
    for j := 0 to |xs|
      invariant row == [Some(yLabel)] + CrossCells(marks, xs[..j], yLabel)
    {
      var inner := if yLabel in matrix then matrix[yLabel] else map[];
      var value := if xs[j] in inner then inner[xs[j]] else "";
      row := row + [Some(value)];
    }
    assert xs[..|xs|] == xs;
  }

  /** The header row: an empty title cell, then one cell per column label. */
  method BuildHeader(xs: seq<string>) returns (header: Row)
    ensures header == CrossHeader(xs)
  {
    header := [Some("")];
    for j := 0 to |xs|
      invariant header == CrossHeader(xs[..j])
    {
      header := header + [Some(xs[j])];
    }
    assert xs[..|xs|] == xs;
  }

  /** The table `render_crosstab` builds. When either dimension is not a
      variable of the query it is returned without a tgroup; otherwise its
      tgroup is the pivot of the pairs the solutions bind. */
  method RenderCrosstab(results: QueryResults, dx: string, dy: string) returns (table: Table)
    requires dx in results.variables && dy in results.variables ==>
      forall k :: 0 <= k < |results.solutions| ==> dx in results.solutions[k] && dy in results.solutions[k]
    ensures table.classes == [AutoWidths]
    ensures table.group.None? <==> dx !in results.variables || dy !in results.variables
    ensures table.group.Some? ==> IsCrosstab(Marks(results.solutions, dx, dy), table.group.value)
  {
    var variables := results.variables;
    if dx !in variables {
      // the source logs that the binding is not provided
      return Table([AutoWidths], None);
    }
    if dy !in variables {
      return Table([AutoWidths], None);
    }

    var matrix := FillMatrix(results.solutions, dx, dy);
    ghost var marks := Marks(results.solutions, dx, dy);

    var xSet := set y, x | y in matrix && x in matrix[y] :: x;
    var ySet := matrix.Keys;
    MatrixLabels(matrix, marks);
    var xs := Enumerate(xSet);
    var ys := Enumerate(ySet);

    var colspecs := 0;
    for i := 0 to |xs| + 1
      invariant colspecs == i
    {
      colspecs := colspecs + 1;
    }

    var rows: seq<Row> := [];
    for i := 0 to |ys|
      invariant |rows| == i
      invariant forall k :: 0 <= k < i ==> rows[k] == [Some(ys[k])] + CrossCells(marks, xs, ys[k])
    {
      var row := BuildRow(matrix, marks, xs, ys[i]);
      rows := rows + [row];
    }

    var header := BuildHeader(xs);
    var group := TGroup(|xs| + 1, colspecs, header, rows);
    assert LaidOut(marks, xs, ys, group);
    table := Table([AutoWidths], Some(group));
  }

  /** A pair is marked exactly when some solution binds dimension-x to `x`
      and dimension-y to `y`. */
  lemma {:induction false} MarksMembers(solutions: seq<Solution>, dx: string, dy: string, x: string, y: string)
    ensures (x, y) in Marks(solutions, dx, dy)
      <==> exists k :: 0 <= k < |solutions| && Binds(solutions[k], dx, dy, x, y)
  {
    if solutions != [] {
      var n := |solutions|;
      var init := solutions[..n - 1];
      MarksMembers(init, dx, dy, x, y);
      if (x, y) in Marks(init, dx, dy) {
        var k :| 0 <= k < |init| && Binds(init[k], dx, dy, x, y);
        assert solutions[k] == init[k];
      }
      if exists k :: 0 <= k < n && Binds(solutions[k], dx, dy, x, y) {
        var k :| 0 <= k < n && Binds(solutions[k], dx, dy, x, y);
        if k < n - 1 {
          assert init[k] == solutions[k];
        }
      }
    }
  }

  /** The marks depend only on which solutions occur, not on their order or
      on how often each is repeated. */
  lemma MarksDependOnSolutionSet(a: seq<Solution>, b: seq<Solution>, dx: string, dy: string)
    requires forall s :: s in a <==> s in b
    ensures Marks(a, dx, dy) == Marks(b, dx, dy)
  {
    forall m | m in Marks(a, dx, dy) ensures m in Marks(b, dx, dy) {
      MarksMembers(a, dx, dy, m.0, m.1);
      MarksMembers(b, dx, dy, m.0, m.1);
      var k :| 0 <= k < |a| && Binds(a[k], dx, dy, m.0, m.1);
      assert a[k] in b;
    }
    forall m | m in Marks(b, dx, dy) ensures m in Marks(a, dx, dy) {
      MarksMembers(a, dx, dy, m.0, m.1);
      MarksMembers(b, dx, dy, m.0, m.1);
      var k :| 0 <= k < |b| && Binds(b[k], dx, dy, m.0, m.1);
      assert b[k] in a;
    }
  }

  /** Repeating a solution leaves every cell of the pivot as it was. */
  lemma RepeatedSolution(solutions: seq<Solution>, k: nat, dx: string, dy: string)
    requires k < |solutions|
    ensures Marks(solutions + [solutions[k]], dx, dy) == Marks(solutions, dx, dy)
  {
    MarksDependOnSolutionSet(solutions + [solutions[k]], solutions, dx, dy);
  }

  /** The column labels are the values dimension-x takes, and the row labels
      the values dimension-y takes, over the solutions binding both. */
  lemma LabelsAreValues(solutions: seq<Solution>, dx: string, dy: string)
    ensures forall x :: x in XLabels(Marks(solutions, dx, dy)) <==>
      exists k :: 0 <= k < |solutions| && dx in solutions[k] && dy in solutions[k] && solutions[k][dx] == x
    ensures forall y :: y in YLabels(Marks(solutions, dx, dy)) <==>
      exists k :: 0 <= k < |solutions| && dx in solutions[k] && dy in solutions[k] && solutions[k][dy] == y
  {
    var marks := Marks(solutions, dx, dy);
    forall x ensures x in XLabels(marks) <==>
      exists k :: 0 <= k < |solutions| && dx in solutions[k] && dy in solutions[k] && solutions[k][dx] == x
    {
      if x in XLabels(marks) {
        var m :| m in marks && m.0 == x;
        MarksMembers(solutions, dx, dy, m.0, m.1);
      }
      if exists k :: 0 <= k < |solutions| && dx in solutions[k] && dy in solutions[k] && solutions[k][dx] == x {
        var k :| 0 <= k < |solutions| && dx in solutions[k] && dy in solutions[k] && solutions[k][dx] == x;
        MarksMembers(solutions, dx, dy, x, solutions[k][dy]);
        assert (x, solutions[k][dy]) in marks;
      }
    }
    forall y ensures y in YLabels(marks) <==>
      exists k :: 0 <= k < |solutions| && dx in solutions[k] && dy in solutions[k] && solutions[k][dy] == y
    {
      if y in YLabels(marks) {
        var m :| m in marks && m.1 == y;
        MarksMembers(solutions, dx, dy, m.0, m.1);
      }
      if exists k :: 0 <= k < |solutions| && dx in solutions[k] && dy in solutions[k] && solutions[k][dy] == y {
        var k :| 0 <= k < |solutions| && dx in solutions[k] && dy in solutions[k] && solutions[k][dy] == y;
        MarksMembers(solutions, dx, dy, solutions[k][dx], y);
        assert (solutions[k][dx], y) in marks;
      }
    }
  }

  /** A list that names each element of a set once is as long as the set. */
  lemma {:induction false} EnumeratesCard(xs: seq<string>, s: set<string>)
    requires Enumerates(xs, s)
    ensures |xs| == |s|
  {
    if xs == [] {
      assert forall e :: e !in s;
      assert s == {};
    } else {
      var n := |xs|;
      var last := xs[n - 1];
      var init := xs[..n - 1];
      assert xs == init + [last];
      assert Enumerates(init, s - {last});
      EnumeratesCard(init, s - {last});
    }
  }

  /** The size of a pivot: one column per distinct dimension-x value plus
      the label column, each declared by a colspec, a header as wide as
      that, and one body row per distinct dimension-y value. */
  lemma CrosstabSize(marks: set<(string, string)>, group: TGroup)
    requires IsCrosstab(marks, group)
    ensures group.cols == |XLabels(marks)| + 1 && group.colspecs == group.cols
    ensures |group.header| == group.cols
    ensures |group.body| == |YLabels(marks)|
  {
    var xs, ys :| Enumerates(xs, XLabels(marks)) && Enumerates(ys, YLabels(marks)) && LaidOut(marks, xs, ys, group);
    EnumeratesCard(xs, XLabels(marks));
    EnumeratesCard(ys, YLabels(marks));
  }

  /** The header of a pivot: an empty title cell, then every column label
      exactly once. */
  lemma CrosstabHeader(marks: set<(string, string)>, group: TGroup)
    requires IsCrosstab(marks, group)
    ensures |group.header| == group.cols >= 1 && group.header[0] == Some("")
    ensures forall j :: 1 <= j < group.cols ==> group.header[j].Some? && group.header[j].value in XLabels(marks)
    ensures forall x :: x in XLabels(marks) ==> Some(x) in group.header[1..]
    ensures forall j1, j2 :: 1 <= j1 < j2 < group.cols ==> group.header[j1] != group.header[j2]
  {
    var xs, ys :| Enumerates(xs, XLabels(marks)) && Enumerates(ys, YLabels(marks)) && LaidOut(marks, xs, ys, group);
    forall x | x in XLabels(marks) ensures Some(x) in group.header[1..] {
      var j :| 0 <= j < |xs| && xs[j] == x;
      assert group.header[1..][j] == Some(x);
    }
  }

  /** The body of a pivot: every row is as wide as the header and starts
      with its row label, every row label appears exactly once, and the
      cell under column label x in the row labelled y holds the text
      CellText gives for that pair. */
  lemma CrosstabRows(marks: set<(string, string)>, group: TGroup)
    requires IsCrosstab(marks, group)
    ensures forall i :: 0 <= i < |group.body| ==>
      |group.body[i]| == |group.header| && group.body[i][0].Some? && group.body[i][0].value in YLabels(marks)
    ensures forall y :: y in YLabels(marks) ==> exists i :: 0 <= i < |group.body| && group.body[i][0] == Some(y)
    ensures forall i1, i2 :: 0 <= i1 < i2 < |group.body| ==> group.body[i1][0] != group.body[i2][0]
    ensures forall i, j :: 0 <= i < |group.body| && 1 <= j < |group.header| ==>
      group.header[j].Some? && group.body[i][j] == Some(CellText(marks, group.header[j].value, group.body[i][0].value))
  {
    var xs, ys :| Enumerates(xs, XLabels(marks)) && Enumerates(ys, YLabels(marks)) && LaidOut(marks, xs, ys, group);
    forall i | 0 <= i < |group.body|
      ensures |group.body[i]| == |group.header| && group.body[i][0] == Some(ys[i])
    {
      assert group.body[i] == [Some(ys[i])] + CrossCells(marks, xs, ys[i]);
    }
    forall y | y in YLabels(marks) ensures exists i :: 0 <= i < |group.body| && group.body[i][0] == Some(y) {
      var i :| 0 <= i < |ys| && ys[i] == y;
      assert group.body[i][0] == Some(y);
    }
    forall i, j | 0 <= i < |group.body| && 1 <= j < |group.header|
      ensures group.header[j].Some? && group.body[i][j] == Some(CellText(marks, group.header[j].value, group.body[i][0].value))
    {
      var cells := CrossCells(marks, xs, ys[i]);
      assert group.body[i] == [Some(ys[i])] + cells;
      assert group.body[i][j] == cells[j - 1];
      assert group.header[j] == Some(xs[j - 1]);
    }
  }

  /** The cell of a pivot at row label y and column label x is a check mark
      exactly when some solution binds dimension-x to x and dimension-y to
      y, and empty otherwise. */
  lemma CrosstabCell(solutions: seq<Solution>, dx: string, dy: string, group: TGroup, i: nat, j: nat)
    requires IsCrosstab(Marks(solutions, dx, dy), group)
    requires i < |group.body| && 1 <= j < |group.header|
    ensures j < |group.body[i]| && group.header[j].Some? && group.body[i][0].Some?
    ensures group.body[i][j] == Some(Check) <==>
      exists k :: 0 <= k < |solutions| && Binds(solutions[k], dx, dy, group.header[j].value, group.body[i][0].value)
    ensures group.body[i][j] != Some(Check) ==> group.body[i][j] == Some("")
  {
    var marks := Marks(solutions, dx, dy);
    CrosstabHeader(marks, group);
    CrosstabRows(marks, group);
    var x, y := group.header[j].value, group.body[i][0].value;
    assert group.body[i][j] == Some(CellText(marks, x, y));
    MarksMembers(solutions, dx, dy, x, y);
    if (x, y) in marks {
      assert group.body[i][j] == Some(Check);
    } else {
      assert group.body[i][j] == Some("") != Some(Check);
    }
  }
}
