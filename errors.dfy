/** The exceptions the join can raise, one constructor per cause. */
module Errors {

  datatype Error =
    | FileNotFound(time: real)      // no raster file for this time slice
    | MissingVariable(name: string) // KeyError: variable (or both axis names) absent
    | ShapeMismatch                 // IndexError: the NaN mask does not fit the coordinate mesh
    | EmptyIndex                    // the neighbour index was fitted on zero valid cells
    | EmptyQuery                    // the neighbour query was given zero points
    | NothingToConcatenate          // concatenation of an empty list of slices
}
