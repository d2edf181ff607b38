/**
 * Translation of a query generator's task state into the answer a polling
 * caller receives: the payload once the task ran to completion, the
 * `"__cancelled__"` sentinel when it faulted or was cancelled, and the
 * `"__pending__"` sentinel in every other state. The identifier-types,
 * semantic-expansions and references polls share the string form; the
 * tooltip and definition polls add a range, translated to editor
 * coordinates.
 */
module Polling {
  import opened Machine
  import opened Dom
  import opened Coordinates

  /** .NET `TaskStatus`. */
  datatype TaskStatus =
    | Created
    | WaitingForActivation
    | WaitingToRun
    | Running
    | WaitingForChildrenToComplete
    | RanToCompletion
    | Canceled
    | Faulted

  const PendingSentinel: string := "__pending__"
  const CancelledSentinel: string := "__cancelled__"

  /**
   * A query generator as a poll sees it: the status of its current task and
   * the value its `Result` holds once that task has run to completion (the
   * value is not consulted in any other status).
   */
  datatype Slot<T> = Slot(status: TaskStatus, result: T)

  /** The three outcomes a caller can observe. */
  datatype Outcome<T> = Waiting | Abandoned | Produced(value: T)

  /**
   * The poll contract, independent of any encoding: completion produces the
   * result, a fault and a cancellation are one and the same outcome, and
   * everything else is still waiting.
   */
  function Expected<T>(slot: Slot<T>): Outcome<T> {
    match slot.status
    case RanToCompletion => Produced(slot.result)
    case Faulted => Abandoned
    case Canceled => Abandoned
    case _ => Waiting
  }

  /** The string poll (`GetIdentifierTypesResult`, `GetSemanticExpansionsResult`, `GetReferencesResult`). */
  function PollString(slot: Slot<string>): (answer: string)
    ensures slot.status == RanToCompletion ==> answer == slot.result
    ensures slot.status == Faulted || slot.status == Canceled ==> answer == CancelledSentinel
    ensures Expected(slot).Waiting? ==> answer == PendingSentinel
  {
    match slot.status
    case RanToCompletion => slot.result
    case Faulted => CancelledSentinel
    case Canceled => CancelledSentinel
    case _ => PendingSentinel
  }

  /** How a caller reads a string answer. */
  function ReadAnswer(answer: string): Outcome<string> {
    if answer == PendingSentinel then Waiting
    else if answer == CancelledSentinel then Abandoned
    else Produced(answer)
  }

  /**
   * A caller reading the answer observes exactly the outcome the poll
   * contract promises, provided the payload is not itself a sentinel; in
   * particular an unfinished task never shows a stale result.
   */
  lemma PollStringReadsBack(slot: Slot<string>)
    requires slot.result != PendingSentinel && slot.result != CancelledSentinel
    ensures ReadAnswer(PollString(slot)) == Expected(slot)
  {
  }

  /** A task that has not run to completion answers the same whatever value its result cell holds. */
  lemma PollStringIgnoresUnfinishedResult(status: TaskStatus, a: string, b: string)
    requires status != RanToCompletion
    ensures PollString(Slot(status, a)) == PollString(Slot(status, b))
    ensures PollString(Slot(status, a)) != a || a == PendingSentinel || a == CancelledSentinel
  {
  }

  /** The generator result of a tooltip or definition query: a range and a text (the tooltip, or the target file). */
  datatype RangeResult = RangeResult(start: CodeLocation, end: CodeLocation, text: string)

  /** The out-parameters of `GetTipResult` and `GetDefinitionResult`. */
  datatype RangeAnswer = RangeAnswer(startLine: int32, startIndex: int32, endLine: int32, endIndex: int32, text: string)

  /**
   * The range poll (`GetTipResult`, `GetDefinitionResult`): on completion
   * the result's range in editor coordinates, never negative, and its text;
   * otherwise a zero range and the sentinel the string poll gives.
   */
  function PollRange(slot: Slot<RangeResult>): (a: RangeAnswer)
    ensures a.startLine >= 0 && a.startIndex >= 0 && a.endLine >= 0 && a.endIndex >= 0
    ensures slot.status == RanToCompletion ==>
      && a.text == slot.result.text
      && a.startLine == LineOut(slot.result.start.line)
      && a.startIndex == IndexOfColumn(slot.result.start.column)
      && a.endLine == LineOut(slot.result.end.line)
      && a.endIndex == IndexOfColumn(slot.result.end.column)
    ensures slot.status != RanToCompletion ==>
      a == RangeAnswer(0, 0, 0, 0, PollString(Slot(slot.status, slot.result.text)))
  {
    match slot.status
    case RanToCompletion =>
      var r := slot.result;
      RangeAnswer(LineOut(r.start.line), IndexOfColumn(r.start.column), LineOut(r.end.line), IndexOfColumn(r.end.column), r.text)
    case Faulted => RangeAnswer(0, 0, 0, 0, CancelledSentinel)
    case Canceled => RangeAnswer(0, 0, 0, 0, CancelledSentinel)
    case _ => RangeAnswer(0, 0, 0, 0, PendingSentinel)
  }

  /**
   * A completed range whose lines are non-negative and whose columns are
   * 1-based positions comes back to the parser unchanged when the caller
   * sends the reported editor coordinates in again.
   */
  lemma PollRangeRoundTrip(slot: Slot<RangeResult>)
    requires slot.status == RanToCompletion
    requires slot.result.start.line >= 0 && slot.result.start.column >= 1
    requires slot.result.end.line >= 0 && slot.result.end.column >= 1
    ensures var a := PollRange(slot);
      && CodeLocation(ColumnOfIndex(a.startIndex), a.startLine) == slot.result.start
      && CodeLocation(ColumnOfIndex(a.endIndex), a.endLine) == slot.result.end
  {
    ColumnRoundTrip(slot.result.start.column);
    ColumnRoundTrip(slot.result.end.column);
  }
}
