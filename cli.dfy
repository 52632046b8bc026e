/** What one run of a sample sorter does, as seen from outside the process. */
module Cli {

  /**
   * Either the fixed usage line, which asks for a list of at least two integers (on whichever
   * stream the program uses), or the text written to stdout.
   */
  datatype Outcome = Usage | Output(text: string)

  /** An outcome together with the process exit status. */
  datatype Exit = Exit(outcome: Outcome, status: int)
}
