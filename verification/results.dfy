/** Failure-compatible result types shared by every part of the model. */
module Results {

  datatype Option<+T> = None | Some(value: T)

  /** The ways an operation of the applications can end without a value.
      Each one is a warning box or an uncaught Python exception in the source. */
  datatype Failure =
    | NoMatches          // the regex found no edge token at all
    | MalformedEdge      // a match in which neither alternative filled its groups
    | MalformedLine      // line mode: a non-blank line without a comma / not starting with a weighted token
    | ValueError         // `a, b = line.split(',')` with two or more commas, or `int()` of a non-number
    | CyclicInput        // networkx reported that the graph is not a DAG
    | NotGenerated       // `graphGenerated` is false
    | NoWeightedGraph    // `self.G is None`
    | KeyError(key: string)  // `node_to_index[start_vertex]` with a start vertex that is not a node
    | TypeError          // iterating over the `None` returned by a failed `generateGraph`
    | NoStartVertex      // the start vertex field is empty (corrected route finding only)

  /** The failures that are uncaught Python exceptions rather than a warning box. */
  predicate Raises(f: Failure) {
    f.ValueError? || f.KeyError? || f.TypeError?
  }

  datatype Result<+T> = Ok(value: T) | Err(error: Failure) {
    predicate IsFailure() { Err? }

    function PropagateFailure<U>(): Result<U>
      requires Err?
    {
      Err(error)
    }

    function Extract(): T
      requires Ok?
    {
      value
    }
  }
}
