/** `render_table` (sphinx_sparql/__init__.py, lines 227-270): the result of
    a SELECT query as a table with one column per bound variable, a header
    row naming them and one body row per solution. */
module TableRender {

  import opened SparqlResults

  /** The columns of the table: the `:bind:` list when there is one,
      otherwise the query's variables in query order. */
  function Columns(results: QueryResults, bind: Option<seq<string>>): seq<string> {
    match bind
    case None => results.variables
    case Some(names) => names
  }

  /** The text of a cell for variable `v`: the value the solution binds to
      it, or None when it is unbound. */
  function Lookup(solution: Solution, v: string): Cell {
    if v in solution then Some(solution[v]) else None
  }

  /** The requested names that the query provides, in the order requested;
      the others are skipped. */
  function Provided(names: seq<string>, variables: seq<string>): (ps: seq<string>)
    ensures |ps| <= |names|
  {
    if names == [] then []
    else
      var last := names[|names| - 1];
      Provided(names[..|names| - 1], variables) + (if last in variables then [last] else [])
  }

  /** A name is kept exactly when it was requested and the query provides it. */
  lemma {:induction false} ProvidedMembers(names: seq<string>, variables: seq<string>)
    ensures forall v :: v in Provided(names, variables) <==> v in names && v in variables
  {
    if names != [] {
      var init := names[..|names| - 1];
      assert names == init + [names[|names| - 1]];
      ProvidedMembers(init, variables);
    }
  }

  /** The body row built for one solution: for each requested name in turn,
      a cell when the query provides it and nothing otherwise. */
  function BodyRow(solution: Solution, names: seq<string>, variables: seq<string>): Row {
    if names == [] then []
    else
      var last := names[|names| - 1];
      BodyRow(solution, names[..|names| - 1], variables)
        + (if last in variables then [Lookup(solution, last)] else [])
  }

  /** The header row: one cell per name, in order. (The ensures clauses
      spell out the definition for readers; they add nothing to it.) */
  function HeaderRow(names: seq<string>): (row: Row)
    ensures |row| == |names|
    ensures forall i :: 0 <= i < |names| ==> row[i] == Some(names[i])
  {
    seq(|names|, i requires 0 <= i < |names| => Some(names[i]))
  }

  /** The table `render_table` builds: a single tgroup declaring one column
      and one colspec per chosen column, a header naming the columns in
      order, and one body row per solution, in solution order, each as
      BodyRow describes. */
  method RenderTable(results: QueryResults, bind: Option<seq<string>>) returns (table: Table)
    ensures table.classes == [AutoWidths]
    ensures table.group.Some?
    ensures table.group.value.cols == |Columns(results, bind)|
    ensures table.group.value.colspecs == |Columns(results, bind)|
    ensures table.group.value.header == HeaderRow(Columns(results, bind))
    ensures |table.group.value.body| == |results.solutions|
    ensures forall k :: 0 <= k < |results.solutions| ==>
      table.group.value.body[k] == BodyRow(results.solutions[k], Columns(results, bind), results.variables)
  {
    var boundVars := if bind.None? then results.variables else bind.value;
    var variables := results.variables;

    var colspecs := 0;
    for i := 0 to |boundVars|
      invariant colspecs == i
    {
      colspecs := colspecs + 1;
    }

    var rows: seq<Row> := [];
    for k := 0 to |results.solutions|
      invariant |rows| == k
      invariant forall m :: 0 <= m < k ==> rows[m] == BodyRow(results.solutions[m], boundVars, variables)
    {
      var binding := results.solutions[k];
      var row: Row := [];
      for j := 0 to |boundVars|
        invariant row == BodyRow(binding, boundVars[..j], variables)
      {
        var v := boundVars[j];
        assert boundVars[..j + 1][..j] == boundVars[..j];
        if v !in variables {
          // the source logs an error and adds no entry
          continue;
        }
        var value := if v in binding then Some(binding[v]) else None;
        row := row + [value];
      }
      assert boundVars[..|boundVars|] == boundVars;
      rows := rows + [row];
    }

    var header: Row := [];
    for j := 0 to |boundVars|
      invariant header == HeaderRow(boundVars[..j])
    {
      header := header + [Some(boundVars[j])];
    }
    assert boundVars[..|boundVars|] == boundVars;

    table := Table([AutoWidths], Some(TGroup(|boundVars|, colspecs, header, rows)));
  }

  /** A body row holds exactly the cells of the provided names, in request
      order, each the solution's value for that name or None. */
  lemma {:induction false} BodyRowCells(solution: Solution, names: seq<string>, variables: seq<string>)
    ensures |BodyRow(solution, names, variables)| == |Provided(names, variables)|
    ensures forall i :: 0 <= i < |Provided(names, variables)| ==>
      BodyRow(solution, names, variables)[i] == Lookup(solution, Provided(names, variables)[i])
  {
    if names != [] {
      BodyRowCells(solution, names[..|names| - 1], variables);
    }
  }

  /** Filtering distributes over concatenation, so the provided names keep
      their relative order. */
  lemma {:induction false} ProvidedAppend(a: seq<string>, b: seq<string>, variables: seq<string>)
    ensures Provided(a + b, variables) == Provided(a, variables) + Provided(b, variables)
  {
    if b == [] {
      assert a + b == a;
    } else {
      var init, last := b[..|b| - 1], b[|b| - 1];
      var extra := if last in variables then [last] else [];
      ProvidedAppend(a, init, variables);
      var ab := a + b;
      assert ab[..|ab| - 1] == a + init;
      assert ab[|ab| - 1] == last;
      calc {
        Provided(ab, variables);
        Provided(a + init, variables) + extra;
        Provided(a, variables) + Provided(init, variables) + extra;
        Provided(a, variables) + (Provided(init, variables) + extra);
        Provided(a, variables) + Provided(b, variables);
      }
    }
  }

  /** No name is skipped exactly when every requested name is a query
      variable; a single missing name makes every body row shorter than
      the header. */
  lemma {:induction false} ProvidedAll(names: seq<string>, variables: seq<string>)
    ensures Provided(names, variables) == names <==> forall v :: v in names ==> v in variables
    ensures |Provided(names, variables)| == |names| <==> Provided(names, variables) == names
  {
    if names != [] {
      var init := names[..|names| - 1];
      var last := names[|names| - 1];
      assert names == init + [last];
      ProvidedAll(init, variables);
      ProvidedMembers(names, variables);
      if last !in variables {
        assert |Provided(names, variables)| < |names|;
      }
    }
  }

  /** The cell for the requested name at header position `p` sits at the
      position given by the number of provided names before it. */
  lemma CellOfColumn(solution: Solution, names: seq<string>, variables: seq<string>, p: nat)
    requires p < |names| && names[p] in variables
    ensures |Provided(names[..p], variables)| < |BodyRow(solution, names, variables)|
    ensures BodyRow(solution, names, variables)[|Provided(names[..p], variables)|] == Lookup(solution, names[p])
  {
    assert names == names[..p] + [names[p]] + names[p + 1..];
    ProvidedAppend(names[..p] + [names[p]], names[p + 1..], variables);
    ProvidedAppend(names[..p], [names[p]], variables);
    assert Provided([names[p]], variables) == [names[p]] by {
      assert [names[p]][..0] == [];
    }
    BodyRowCells(solution, names, variables);
  }

  /** Without a `:bind:` list every body row is complete: one cell per query
      variable, in query order, aligned with the header. */
  lemma RowsCompleteWithoutBind(results: QueryResults, k: nat)
    requires k < |results.solutions|
    ensures var row := BodyRow(results.solutions[k], Columns(results, None), results.variables);
      |row| == |results.variables|
      && forall i :: 0 <= i < |row| ==> row[i] == Lookup(results.solutions[k], results.variables[i])
  {
    ProvidedAll(results.variables, results.variables);
    BodyRowCells(results.solutions[k], results.variables, results.variables);
  }

  /** A body row is as long as the header exactly when every column name is
      a query variable. */
  lemma RowLengthMatchesHeader(solution: Solution, names: seq<string>, variables: seq<string>)
    ensures |BodyRow(solution, names, variables)| <= |HeaderRow(names)|
    ensures |BodyRow(solution, names, variables)| == |HeaderRow(names)|
      <==> forall v :: v in names ==> v in variables
  {
    BodyRowCells(solution, names, variables);
    ProvidedAll(names, variables);
  }
}
