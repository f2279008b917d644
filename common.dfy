/** Values shared by the three implementations of the command finder. */
module Common {

  datatype Option<T> = None | Some(value: T)

  /** The ways one resolution can fail. Each is a panic in the Rust program and an exception in the
      Python programs; the model returns them instead. */
  datatype Failure =
    | NoSearchTerm       // Rust `main`: the search phrase is empty
    | NoSourceAvailable  // the answer bank gave too few answers and the generative model is disabled
    | NoBloomCandidates  // "No command via Bloom could be found!": no candidate line at all
    | NoNonEmptyLine     // taking the first of the non-empty candidate lines when there is none
    | NoToken            // Python `correct_answer_line`: the line has no token to take first
    | EmptySeparator     // Python `str.split` with an empty separator raises ValueError
    | BlankAnswerLine    // main.py `parse_code_grepper_answer`: the first character of an empty line

  datatype Result<T> = Ok(value: T) | Err(failure: Failure)

  /** The provenance of a resolved command; the Rust and Python programs print it as
      "cache", "code grepper" and "bloom". */
  datatype Origin = Cache | CodeGrepper | Bloom

  datatype Resolved = Resolved(command: string, origin: Origin)

  /** The answer bank is trusted only when it returns more than this many answers (src/main.rs
      and src/bash_command_finder.py; main.py trusts any non-empty answer list). */
  const AnswerBankThreshold: nat := 1

  /** One stored example: (query, command). */
  type Example = (string, string)

  /** The command-line switches of the Rust program and of src/bash_command_finder.py. */
  datatype Options = Options(
    search: string,
    debug: bool,
    disableCache: bool,
    disableCodeGrepper: bool,
    disableBloom: bool,
    disableClipboard: bool)
}
