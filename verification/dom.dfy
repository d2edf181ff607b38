/**
 * The parts of the D parser's document model the server reads: code
 * locations, parser errors, comment tasks and the parsed module record.
 */
module Dom {
  import opened Wrappers
  import opened Machine

  /**
   * `CodeLocation`: a 1-based column and a line. The C# constructor takes
   * the column first, and so does this one.
   */
  datatype CodeLocation = CodeLocation(column: int32, line: int32)

  /** `CodeLocation.Empty`, the location of an error that has no position. */
  const EmptyLocation: CodeLocation := CodeLocation(0, 0)

  /** `ParserError`: a syntax or semantic error at a location. */
  datatype ParserError = ParserError(isSemantic: bool, message: string, location: CodeLocation)

  /** A comment task (a `TODO`-style comment found by the parser). */
  datatype CommentTask = CommentTask(location: CodeLocation, message: string)

  /**
   * `DModule`, reduced to what the server reads and writes. `moduleName`
   * is `""` for both a null and an empty name (the server treats them
   * alike); `tasks` is `None` when the task list is null; `isInOperators`
   * lists the operator locations of the `is` and `in` expressions in the
   * order the depth-first visitor meets them.
   */
  datatype DModule = DModule(
    moduleName: string,
    fileName: string,
    parseErrors: seq<ParserError>,
    tasks: Option<seq<CommentTask>>,
    isInOperators: seq<CodeLocation>)
}
