/** The exceptions the core can raise that nothing catches: each one
    propagates out of the per-tool work item and aborts the whole run. */
module Faults {

  datatype Fault =
    | ArgumentOutOfRange  // `Substring` asked for a negative length
    | ArgumentNull        // a `null` string handed to the name converter
    | IndexOutOfRange     // the first character of an empty string
}
