/** The `sparql:ask` role (sphinx_sparql/__init__.py, lines 48-60): the
    answer of an ASK query shown inline as a check mark or a cross. */
module AskRole {

  import opened SparqlResults

  /** The text shown for a false answer. */
  const Cross: string := "x"

  /** The text of the inline node for an answer: a check mark exactly when
      the answer is true, and a cross exactly when it is false, so the two
      answers never look alike. */
  function AskText(answer: bool): (text: string)
    ensures text == Check <==> answer
    ensures text == Cross <==> !answer
  {
    if answer then Check else Cross
  }
}
