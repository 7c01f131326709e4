/** The values the renderers work on: a SELECT result as the triple store
    hands it over, and the docutils table the directives emit. */
module SparqlResults {

  datatype Option<+T> = None | Some(value: T)

  /** One solution of a SELECT query: a partial map from a variable name to
      the lexical value (`.value`) of the RDF term bound to it. A projected
      variable the solution leaves unbound is simply not a key. */
  type Solution = map<string, string>

  /** A SELECT result: the projected variable names in query order, then the
      solutions in the order the store yields them. */
  datatype QueryResults = QueryResults(variables: seq<string>, solutions: seq<Solution>)

  /** The text argument passed to the paragraph inside one entry node; None
      when the source passes `text=None` (an unbound variable). This records
      the argument, not what docutils later displays for it. */
  type Cell = Option<string>

  type Row = seq<Cell>

  /** A tgroup node: its `cols` attribute, the number of colspec children,
      the single row of its thead and the rows of its tbody. */
  datatype TGroup = TGroup(cols: nat, colspecs: nat, header: Row, body: seq<Row>)

  /** A table node: its `classes` attribute and its tgroup, which is absent
      when the renderer returned before adding one. */
  datatype Table = Table(classes: seq<string>, group: Option<TGroup>)

  /** The class both renderers put on every table they create. */
  const AutoWidths: string := "colwidths-auto"

  /** The check mark U+2713 that marks a true answer or an occupied cell. */
  const Check: string := "\U{2713}"
}
