/** Failure values of the mesh decoder.

    The source stops the process with a hard assertion on a corrupt asset or a
    contract violation; here every such stop is a `Fault`, and an operation that
    can stop returns a `Result`.
 */
module Faults {

  /** A value that may be absent; stands for a nullable pointer or record. */
  datatype Option<+T> = None | Some(value: T)

  datatype Fault =
    /** The GIF-tag copy code is absent at the scanned position and at the list head (Mesh.cpp:44). */
    | CopyCodeMissing
    /** The per-segment loop counts sum to zero or less (Mesh.cpp:111). */
    | NoVertices
    /** A strip handle is null where the walker asserts it is not (Mesh.cpp:226, Mesh.cpp:266). */
    | NullStrip
    /** A cluster strip reports no command segments (Mesh.cpp:228). */
    | EmptyClusterStrip
    /** A cluster's sub-hierarchy entry does not point at a HIER chunk (Mesh.cpp:443). */
    | NotHierarchyChunk
    /** The CDOA cluster layout, which the decoder refuses (Mesh.cpp:464-465). */
    | UnsupportedCdoa
    /** `FindStrip` was asked for a handle that was never cached (Mesh.cpp:500). */
    | StripNotCached
    /** The source would read past the memory this model describes (undefined behaviour there). */
    | OutsideModelledMemory

  /** Ok/Err, usable with `:-`. */
  datatype Result<+T> = Ok(value: T) | Err(fault: Fault) {

    predicate IsFailure() {
      Err?
    }

    function PropagateFailure<U>(): Result<U>
      requires Err?
    {
      Err(fault)
    }

    function Extract(): T
      requires Ok?
    {
      value
    }
  }
}
