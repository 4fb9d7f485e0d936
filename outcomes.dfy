/** Failure-aware values shared by the whole model. */
module Outcomes {

  /** A value that may be missing; `None` stands for Python's `None`. */
  datatype Option<T> = None | Some(value: T)

  /** The outcome of an operation that may raise. */
  datatype Result<T, E> = Ok(value: T) | Err(error: E)

  /** The exceptions an ant's edge selection can raise. */
  datatype Fault =
    | EmptyBackTrace        // `back_trace_list[-1]` on an empty list (IndexError)
    | NoCandidates          // `np.random.choice` over an empty candidate list (ValueError)
    | InvalidProbabilities  // `np.random.choice` with a negative or NaN probability: mixed signs or a zero sum (ValueError)
    | MissingEdge           // `graph[from_node][to_node]` for a pair that is not an edge (KeyError)
}
