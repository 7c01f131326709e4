# sphinx-sparql: table rendering of SPARQL results, in Dafny

A model of the logic of the `sphinx_sparql` Sphinx extension that is its own:
turning the answer of a SPARQL query into docutils nodes. The query itself
runs in an embedded pyoxigraph store and is not modelled; the model starts
from its result.

- `results.dfy` (`SparqlResults`): a SELECT result is an ordered list of
  projected variable names plus an ordered list of solutions, each a partial
  map from variable name to the lexical value of the bound term. The docutils
  tree becomes a `Table` (its `classes`, and a `TGroup` unless the renderer
  returned early) whose `TGroup` records the `cols` attribute, the number of
  colspec children, the single header row and the body rows; a cell is the
  text argument passed to its paragraph, `None` when the source passes
  `text=None` for an unbound variable (the argument, not the displayed text).
- `bind.dfy` (`BindOption`): the `:bind:` option of `sparql:select`, split at
  every comma as Python's `str.split(",")` does and each piece trimmed as
  `str.strip()` does (with Python's `str.isspace` set of whitespace
  characters). Split is proved to be the exact inverse of joining, in both
  directions.
- `table.dfy` (`TableRender`): `render_table`, a method whose loops build the
  colspecs, the body rows and the header as the source does; its contract
  ties the result to the specification functions `Columns`, `HeaderRow` and
  `BodyRow`, and the lemmas say what a body row holds.
- `crosstab.dfy` (`Crosstab`): `render_crosstab`. The results loop fills the
  `matrix[y][x]` map as the source's `defaultdict(dict)`; the set of marked
  (x, y) pairs, `Marks`, specifies it. Python's iteration over the label sets
  is an arbitrary enumeration (`Enumerate`), taken once for the column labels
  and reused for the header and every row, as the source iterates the same
  set object each time. The result is specified by `IsCrosstab`: the table is
  the pivot of the marks for some order of the labels.
- `ask.dfy` (`AskRole`): the check mark or cross that `sparql:ask` shows.

## Model

| member | source | states |
|---|---|---|
| `BindOption.Split` | sphinx_sparql/__init__.py:83 | `str.split(",")` gives one piece per comma plus one, and no piece contains the separator |
| `BindOption.JoinSplit` | sphinx_sparql/__init__.py:83 | joining the pieces with the separator gives back the option value, so nothing is lost or reordered |
| `BindOption.SplitJoin` | sphinx_sparql/__init__.py:83 | splitting a join of separator-free pieces gives back exactly those pieces |
| `BindOption.Strip` | sphinx_sparql/__init__.py:83 | `str.strip()` returns a contiguous slice of its input with only whitespace outside it, neither starting nor ending with whitespace |
| `BindOption.StripStripped` | sphinx_sparql/__init__.py:83 | a name without surrounding whitespace is unchanged by strip |
| `BindOption.StripIdempotent` | sphinx_sparql/__init__.py:83 | stripping twice equals stripping once |
| `BindOption.ParseBind` | sphinx_sparql/__init__.py:83 | there are (commas + 1) bound names, in order, the i-th being the i-th comma-separated piece stripped; none holds a comma or surrounding whitespace |
| `BindOption.ParseBindJoin` | sphinx_sparql/__init__.py:83 | a list of comma-free, stripped names written as `a,b,c` parses back to that list |
| `BindOption.BoundVars` | sphinx_sparql/__init__.py:82-85 | `bound_vars` is None exactly when `:bind:` is absent, otherwise one name per comma plus one, the i-th being the i-th comma-separated piece of the option value, stripped |
| `TableRender.RenderTable` | sphinx_sparql/__init__.py:227-270 | the table has class `colwidths-auto` and one tgroup whose `cols` and colspec count equal the number of bound variables (the query's variables when no bind list is given), whose header names them in order, and which has one body row per solution, in solution order, the k-th being BodyRow of the k-th solution |
| `TableRender.Provided` | sphinx_sparql/__init__.py:244-248 | skipping names the query does not provide never lengthens the list |
| `TableRender.ProvidedMembers` | sphinx_sparql/__init__.py:244-248 | a bound name gets cells exactly when it was requested and is a query variable |
| `TableRender.ProvidedAppend` | sphinx_sparql/__init__.py:244-248 | skipping commutes with concatenation, so the surviving names keep their relative order |
| `TableRender.ProvidedAll` | sphinx_sparql/__init__.py:244-248 | nothing is skipped exactly when every bound name is a query variable, and the filtered list is as long as the request only when it equals it |
| `TableRender.BodyRowCells` | sphinx_sparql/__init__.py:244-252 | a body row holds one cell per provided bound name, in order, each the solution's value for it or None when it is unbound |
| `TableRender.CellOfColumn` | sphinx_sparql/__init__.py:244-252 | the cell for the provided name at header position p sits at the index equal to the number of provided names before p, so a skipped name shifts later cells left |
| `TableRender.RowLengthMatchesHeader` | sphinx_sparql/__init__.py:244-261 | a body row is never longer than the header, and as long as it exactly when every bound name is a query variable; otherwise it is shorter |
| `TableRender.RowsCompleteWithoutBind` | sphinx_sparql/__init__.py:228-253 | without a bind list every body row has one cell per query variable, in query order, holding that variable's value or None |
| `Crosstab.RenderCrosstab` | sphinx_sparql/__init__.py:143-224 | the table has class `colwidths-auto`; it has no tgroup exactly when dimension-x or dimension-y is not a query variable, and otherwise its tgroup is a pivot (IsCrosstab) of the pairs the solutions bind |
| `Crosstab.FillMatrix` | sphinx_sparql/__init__.py:159-162 | after the results loop `matrix[y][x]` is a check mark exactly for the pairs some solution binds, and a row key exists only with some entry |
| `Crosstab.MatrixLabels` | sphinx_sparql/__init__.py:164-171 | the label sets read off the matrix are the x and y components of the marked pairs |
| `Crosstab.Enumerate` | sphinx_sparql/__init__.py:183-215 | iterating a label set visits each of its elements exactly once |
| `Crosstab.BuildRow` | sphinx_sparql/__init__.py:183-199 | a body row is its y label followed by `matrix.get(y, {}).get(x, "")` for each column label in header order, i.e. a check mark for a marked pair and "" otherwise |
| `Crosstab.BuildHeader` | sphinx_sparql/__init__.py:201-215 | the header is an empty title cell followed by the column labels in the enumeration order |
| `Crosstab.MarksMembers` | sphinx_sparql/__init__.py:159-162 | a pair (x, y) is marked exactly when some solution binds dimension-x to x and dimension-y to y |
| `Crosstab.MarksDependOnSolutionSet` | sphinx_sparql/__init__.py:159-162 | the marks depend only on which solutions occur, not on their order or multiplicity |
| `Crosstab.RepeatedSolution` | sphinx_sparql/__init__.py:159-162 | repeating a solution does not change the marks, hence not the pivot |
| `Crosstab.LabelsAreValues` | sphinx_sparql/__init__.py:164-168 | the column labels are exactly the values dimension-x takes and the row labels exactly the values dimension-y takes |
| `Crosstab.EnumeratesCard` | sphinx_sparql/__init__.py:173-176 | an enumeration of a set is as long as the set has elements |
| `Crosstab.CrosstabSize` | sphinx_sparql/__init__.py:173-199 | `cols` is the number of distinct x labels plus one, there are that many colspecs and header cells, and one body row per distinct y label |
| `Crosstab.CrosstabHeader` | sphinx_sparql/__init__.py:201-215 | the header is an empty title cell followed by every x label exactly once |
| `Crosstab.CrosstabRows` | sphinx_sparql/__init__.py:183-199 | every body row is as wide as the header and starts with its y label, every y label heads exactly one row, and the cell under column label x holds CellText for (x, y), in the header's order |
| `Crosstab.CrosstabCell` | sphinx_sparql/__init__.py:159-199 | the cell at row label y and column label x is a check mark exactly when some solution binds that pair, and "" otherwise |
| `AskRole.AskText` | sphinx_sparql/__init__.py:55-60 | the inline text is a check mark exactly when the answer is true and "x" exactly when it is false |

## Left out

- The store: `SparqlDomain.store`, `ask`, `select` and `load_store` (`Store.read_only`, `bulk_load`, `clear`, `flush`) call into pyoxigraph; the query result is an input of the model, and the wrapping of the store's exceptions into `SparqlExtError` is part of that foreign plumbing.
- Reading the query from a file or from the directive's content, and Sphinx's path resolution and dependency notes: I/O and host wiring.
- `setup`, the domain's directive and role tables, `env.get_domain` lookups and the directives' `run` wrappers that return `[]` on `SparqlExtError`: host wiring. When the domain is missing, `SparqlAskRole.ask` reads an unassigned `result`; that path is not modelled.
- Logging: `logger.error` calls are dropped; a logged error is modelled as what follows it (a skipped cell, an early return).
- Crosstab.RenderCrosstab: requires both dimensions to be bound in every solution when both are query variables, because the source then evaluates `.value` on `None` and raises; that crash is not modelled.
- The order of Python set iteration is unspecified: the model fixes nothing about the order of the crosstab's labels beyond that the header and every row use the same one.
- The rendering of a `text=None` paragraph by docutils is not modelled: a cell records the argument `None`, and in the rendered output an unbound cell likely cannot be told apart from a bound value whose text is "None".
- RDF terms are reduced to their `.value` strings; a literal and an IRI with the same lexical form are the same label, as they are in the source's sets.
- docutils node objects become values: the in-place `+=` on nodes is modelled as building sequences that are assembled into the table at the end.
- `sphinx_ext_sparql/__init__.py` is an earlier draft whose only logic is a subset of `render_table` and which stops in `breakpoint()`; it is not part of this model. `doc/source/conf.py` is configuration and is not part of this model.
