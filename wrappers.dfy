/** Option and Result values used for the library's "None" returns and raised exceptions. */
module Wrappers {

  datatype Option<+T> = None | Some(value: T)

  /** The exceptions the graph operations raise, by kind. */
  datatype GraphError =
    | DuplicateNode(id: int)      // add_node: "Duplicate node '<id>'"
    | DuplicateEdge               // add_edge: "Instance of edge ... already in graph."
    | UnknownNode(id: int)        // add_edge: "Node '<id>' doesn't exist."

  datatype Result<+T> = Ok(value: T) | Err(error: GraphError)
}
