/** Option and Result, and the faults that stop a run of the duplicate finder. */
module Wrappers {

  datatype Option<+T> = None | Some(value: T)

  datatype Result<+R, +E> = Success(value: R) | Failure(error: E)

  /** The two conditions that end a run abruptly (a panic in the program). */
  datatype Fault =
    | MalformedPath(path: string)                        // a catalog path has no final component
    | MoveFailed(source: string, destination: string)    // a rename into the quarantine directory failed
}
