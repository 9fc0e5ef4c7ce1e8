/** The crate's parse error: which kind of value rejected which input. */
module Errors {

  /** The validated kinds. Only the kind whose grammar can reject is part of
      this model; free text has no failure path and so no tag of its own here. */
  datatype Kind = Username

  datatype Error = FailedParsing(kind: Kind, input: string)
}
