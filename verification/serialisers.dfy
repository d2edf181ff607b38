/**
 * The synchronous queries that flatten a module's lists into strings for
 * the caller: `GetParseErrors` (one `line,index,line,column:message`
 * record per error), `GetCommentTasks` (one `line,index:message` record
 * per task) and `GetBinaryIsInLocations` (a flat list of line and index
 * pairs). Each fails with "module not found" when the lookup finds no
 * module for the normalised file name.
 */
module Serialisers {
  import opened Wrappers
  import opened Machine
  import opened Dom
  import opened ModuleStore
  import Text

  /** `COMException(message, code)`. */
  datatype ComError = ComException(message: string, code: int)

  const ModuleNotFound: ComError := ComException("module not found", 1)

  /** The record for one parse error, without its newline: the column less one is written as it is, unclamped. */
  function ErrorRecord(e: ParserError): string {
    Text.Join(FormatInts(ErrorCoordinates(e)), ',') + ":" + e.message
  }

  /** The record for one comment task, without its newline. */
  function TaskRecord(t: CommentTask): string {
    Text.Join(FormatInts(TaskCoordinates(t)), ',') + ":" + t.message
  }

  function ErrorRecords(errors: seq<ParserError>): (records: seq<string>)
    ensures |records| == |errors|
    ensures forall i :: 0 <= i < |errors| ==> records[i] == ErrorRecord(errors[i])
  {
    seq(|errors|, i requires 0 <= i < |errors| => ErrorRecord(errors[i]))
  }

  function TaskRecords(tasks: seq<CommentTask>): (records: seq<string>)
    ensures |records| == |tasks|
    ensures forall i :: 0 <= i < |tasks| ==> records[i] == TaskRecord(tasks[i])
  {
    seq(|tasks|, i requires 0 <= i < |tasks| => TaskRecord(tasks[i]))
  }

  /**
   * `GetParseErrors`: "module not found" exactly when the lookup of the
   * normalised name finds nothing; otherwise one newline-terminated record
   * per parse error, in order, and the empty string for no errors.
   */
  function GetParseErrors(s: Server, cache: ParseCache, host: Host, filename: string): (r: Result<string, ComError>)
    ensures var m := GetModule(s, cache, host.normalizePath(filename));
      && (r.Failure? <==> m.None?)
      && (r.Failure? ==> r.error == ModuleNotFound)
      && (r.Success? ==> r.value == Text.Terminated(ErrorRecords(m.value.parseErrors)))
      && (r.Success? ==> (r.value == "" <==> m.value.parseErrors == []))
  {
    match GetModule(s, cache, host.normalizePath(filename))
    case None => Failure(ModuleNotFound)
    case Some(ast) => Success(Text.Terminated(ErrorRecords(ast.parseErrors)))
  }

  /**
   * `GetCommentTasks`: "module not found" exactly when the lookup of the
   * normalised name finds nothing; otherwise one newline-terminated record
   * per task, in order, and the empty string for a null or empty task list.
   */
  function GetCommentTasks(s: Server, cache: ParseCache, host: Host, filename: string): (r: Result<string, ComError>)
    ensures var m := GetModule(s, cache, host.normalizePath(filename));
      && (r.Failure? <==> m.None?)
      && (r.Failure? ==> r.error == ModuleNotFound)
      && (r.Success? && m.value.tasks.None? ==> r.value == "")
      && (r.Success? && m.value.tasks.Some? ==> r.value == Text.Terminated(TaskRecords(m.value.tasks.value)))
  {
    match GetModule(s, cache, host.normalizePath(filename))
    case None => Failure(ModuleNotFound)
    case Some(ast) =>
      match ast.tasks
      case None => Success("")
      case Some(tasks) => Success(Text.Terminated(TaskRecords(tasks)))
  }

  /** Line and index of each operator location, flattened: `[line0, index0, line1, index1, ...]`. */
  function FlattenLocations(locs: seq<CodeLocation>): (r: seq<int32>)
    ensures |r| == 2 * |locs|
    ensures forall i :: 0 <= i < |locs| ==> r[2 * i] == locs[i].line && r[2 * i + 1] == Wrap32(locs[i].column - 1)
  {
    if locs == [] then []
    else
      var rest := FlattenLocations(locs[1..]);
      var r := [locs[0].line, Wrap32(locs[0].column - 1)] + rest;
      assert forall i :: 1 <= i < |locs| ==> locs[1..][i - 1] == locs[i];
      r
  }

  /** How a caller reads the flat list: consecutive entries form a (line, index) pair. */
  function ReadPairs(xs: seq<int32>): seq<(int, int)>
    decreases |xs|
  {
    if |xs| < 2 then [] else [(xs[0] as int, xs[1] as int)] + ReadPairs(xs[2..])
  }

  /** The (line, index) pair an operator location is reported as. */
  function OperatorPosition(loc: CodeLocation): (int, int) {
    (loc.line as int, Wrap32(loc.column - 1) as int)
  }

  /** Reading the flattened list in pairs gives back every operator's position, in visit order. */
  lemma {:induction false} FlattenLocationsReadsBack(locs: seq<CodeLocation>)
    ensures |ReadPairs(FlattenLocations(locs))| == |locs|
    ensures forall i :: 0 <= i < |locs| ==> ReadPairs(FlattenLocations(locs))[i] == OperatorPosition(locs[i])
    decreases |locs|
  {
    if locs != [] {
      FlattenLocationsReadsBack(locs[1..]);
      var r := FlattenLocations(locs);
      assert r[2..] == FlattenLocations(locs[1..]);
      assert forall i :: 1 <= i < |locs| ==> locs[1..][i - 1] == locs[i];
    }
  }

  /** `GetBinaryIsInLocations`: the flattened locations of the module's `is` and `in` operators. */
  function GetBinaryIsInLocations(s: Server, cache: ParseCache, host: Host, filename: string): (r: Result<seq<int32>, ComError>)
    ensures var m := GetModule(s, cache, host.normalizePath(filename));
      && (r.Failure? <==> m.None?)
      && (r.Failure? ==> r.error == ModuleNotFound)
      && (r.Success? ==> r.value == FlattenLocations(m.value.isInOperators))
      && (r.Success? ==> |r.value| == 2 * |m.value.isInOperators|)
  {
    match GetModule(s, cache, host.normalizePath(filename))
    case None => Failure(ModuleNotFound)
    case Some(ast) => Success(FlattenLocations(ast.isInOperators))
  }

  /** The fields a caller reads from a parse-error record. */
  datatype ErrorReport = ErrorReport(line: int, index: int, endLine: int, endColumn: int, message: string)

  /** The fields a caller reads from a comment-task record. */
  datatype TaskReport = TaskReport(line: int, index: int, message: string)

  /** What a caller should read for a parse error. */
  function ReportOf(e: ParserError): ErrorReport {
    ErrorReport(e.location.line, Wrap32(e.location.column - 1), e.location.line, e.location.column, e.message)
  }

  /** What a caller should read for a comment task. */
  function TaskReportOf(t: CommentTask): TaskReport {
    TaskReport(t.location.line, Wrap32(t.location.column - 1), t.message)
  }

  /** How a caller reads the coordinates and message of a record: integers before the first colon, the message after it. */
  function ReadRecord(record: string): Option<(seq<int>, string)> {
    match Text.SplitFirst(record, ':')
    case None => None
    case Some((coordinates, message)) =>
      match ParseInts(Text.SplitAll(coordinates, ','))
      case None => None
      case Some(xs) => Some((xs, message))
  }

  /** How a caller reads one parse-error record: four integers, then the message. */
  function ReadErrorRecord(record: string): Option<ErrorReport> {
    match ReadRecord(record)
    case Some((xs, message)) =>
      if |xs| == 4 then Some(ErrorReport(xs[0], xs[1], xs[2], xs[3], message)) else None
    case None => None
  }

  /** How a caller reads one comment-task record: two integers, then the message. */
  function ReadTaskRecord(record: string): Option<TaskReport> {
    match ReadRecord(record)
    case Some((xs, message)) =>
      if |xs| == 2 then Some(TaskReport(xs[0], xs[1], message)) else None
    case None => None
  }

  /** A record built from integer fields and a message reads back as those integers and that message. */
  lemma RecordReadsBack(xs: seq<int>, message: string)
    requires |xs| >= 1
    ensures ReadRecord(Text.Join(FormatInts(xs), ',') + ":" + message) == Some((xs, message))
  {
    var fields := FormatInts(xs);
    var coordinates := Text.Join(fields, ',');
    PlainFields(fields);
    assert coordinates + ":" + message == coordinates + [':'] + message;
    Text.SplitFirstOf(coordinates, message, ':');
    ParseFormatted(xs);
  }

  /** Fields free of separators, joined by commas, contain no colon or newline and split back into the same fields. */
  lemma PlainFields(fields: seq<string>)
    requires |fields| >= 1
    requires forall i :: 0 <= i < |fields| ==> ',' !in fields[i] && ':' !in fields[i] && '\n' !in fields[i]
    ensures ':' !in Text.Join(fields, ',') && '\n' !in Text.Join(fields, ',')
    ensures Text.SplitAll(Text.Join(fields, ','), ',') == fields
  {
    Text.JoinLacks(fields, ',', ':');
    Text.JoinLacks(fields, ',', '\n');
    Text.SplitJoin(fields, ',');
  }

  /** Integers formatted as decimal fields. */
  function FormatInts(xs: seq<int>): (fields: seq<string>)
    ensures |fields| == |xs|
    ensures forall i :: 0 <= i < |fields| ==> ',' !in fields[i] && ':' !in fields[i] && '\n' !in fields[i]
  {
    if xs == [] then []
    else
      Text.IntToStringHasNoSeparators(xs[0]);
      [Text.IntToString(xs[0])] + FormatInts(xs[1..])
  }

  /** How a caller reads decimal fields: every field must be an integer. */
  function ParseInts(fields: seq<string>): Option<seq<int>> {
    if fields == [] then Some([])
    else match (Text.ParseInt(fields[0]), ParseInts(fields[1..]))
      case (Some(x), Some(rest)) => Some([x] + rest)
      case _ => None
  }

  lemma {:induction false} ParseFormatted(xs: seq<int>)
    ensures ParseInts(FormatInts(xs)) == Some(xs)
    decreases |xs|
  {
    if xs != [] {
      Text.IntToStringRoundTrip(xs[0]);
      ParseFormatted(xs[1..]);
      assert FormatInts(xs)[1..] == FormatInts(xs[1..]);
      assert [xs[0]] + xs[1..] == xs;
    }
  }

  /** The coordinates of a parse-error record: line, column less one (unclamped), line, column. */
  function ErrorCoordinates(e: ParserError): seq<int> {
    [e.location.line, Wrap32(e.location.column - 1), e.location.line, e.location.column]
  }

  /** The coordinates of a comment-task record: line, column less one (unclamped). */
  function TaskCoordinates(t: CommentTask): seq<int> {
    [t.location.line, Wrap32(t.location.column - 1)]
  }

  /** A parse-error record reads back as its error's line, unclamped index, line, column and message. */
  lemma ErrorRecordReadsBack(e: ParserError)
    ensures ReadErrorRecord(ErrorRecord(e)) == Some(ReportOf(e))
  {
    var xs := ErrorCoordinates(e);
    assert |xs| == 4;
    RecordReadsBack(xs, e.message);
    assert ReadRecord(ErrorRecord(e)) == Some((xs, e.message));
  }

  /** A comment-task record reads back as its task's line, unclamped index and message. */
  lemma TaskRecordReadsBack(t: CommentTask)
    ensures ReadTaskRecord(TaskRecord(t)) == Some(TaskReportOf(t))
  {
    var xs := TaskCoordinates(t);
    assert |xs| == 2;
    RecordReadsBack(xs, t.message);
    assert ReadRecord(TaskRecord(t)) == Some((xs, t.message));
  }

  predicate MessagesOnOneLine(errors: seq<ParserError>) {
    forall i :: 0 <= i < |errors| ==> '\n' !in errors[i].message
  }

  /** Splitting the records of newline-free errors on newlines reads back every error, in order. */
  lemma ErrorRecordsReadBack(errors: seq<ParserError>)
    requires MessagesOnOneLine(errors)
    ensures var records := Text.SplitAll(Text.Terminated(ErrorRecords(errors)), '\n');
      && |records| == |errors| + 1
      && records[|errors|] == ""
      && forall i :: 0 <= i < |errors| ==> ReadErrorRecord(records[i]) == Some(ReportOf(errors[i]))
  {
    var recs := ErrorRecords(errors);
    forall i | 0 <= i < |recs|
      ensures '\n' !in recs[i]
    {
      ErrorRecordHasNoNewline(errors[i]);
    }
    Text.SplitTerminated(recs);
    var records := Text.SplitAll(Text.Terminated(recs), '\n');
    assert records == recs + [""];
    forall i | 0 <= i < |errors|
      ensures ReadErrorRecord(records[i]) == Some(ReportOf(errors[i]))
    {
      assert records[i] == ErrorRecord(errors[i]);
      ErrorRecordReadsBack(errors[i]);
    }
  }

  /**
   * When no message spans lines, a caller splitting the `GetParseErrors`
   * output on newlines gets one record per error, in order, each reading
   * back as that error, and then the empty tail after the last newline.
   */
  lemma ParseErrorsReadBack(s: Server, cache: ParseCache, host: Host, filename: string)
    requires GetModule(s, cache, host.normalizePath(filename)).Some?
    requires MessagesOnOneLine(GetModule(s, cache, host.normalizePath(filename)).value.parseErrors)
    ensures var errors := GetModule(s, cache, host.normalizePath(filename)).value.parseErrors;
      var records := Text.SplitAll(GetParseErrors(s, cache, host, filename).value, '\n');
      && |records| == |errors| + 1
      && records[|errors|] == ""
      && forall i :: 0 <= i < |errors| ==> ReadErrorRecord(records[i]) == Some(ReportOf(errors[i]))
  {
    ErrorRecordsReadBack(GetModule(s, cache, host.normalizePath(filename)).value.parseErrors);
  }

  lemma ErrorRecordHasNoNewline(e: ParserError)
    requires '\n' !in e.message
    ensures '\n' !in ErrorRecord(e)
  {
    PlainFields(FormatInts(ErrorCoordinates(e)));
  }

  lemma TaskRecordHasNoNewline(t: CommentTask)
    requires '\n' !in t.message
    ensures '\n' !in TaskRecord(t)
  {
    PlainFields(FormatInts(TaskCoordinates(t)));
  }

  /** Splitting the records of newline-free tasks on newlines reads back every task, in order. */
  lemma TaskRecordsReadBack(tasks: seq<CommentTask>)
    requires forall i :: 0 <= i < |tasks| ==> '\n' !in tasks[i].message
    ensures var records := Text.SplitAll(Text.Terminated(TaskRecords(tasks)), '\n');
      && |records| == |tasks| + 1
      && records[|tasks|] == ""
      && forall i :: 0 <= i < |tasks| ==> ReadTaskRecord(records[i]) == Some(TaskReportOf(tasks[i]))
  {
    var recs := TaskRecords(tasks);
    forall i | 0 <= i < |recs|
      ensures '\n' !in recs[i]
    {
      TaskRecordHasNoNewline(tasks[i]);
    }
    Text.SplitTerminated(recs);
    var records := Text.SplitAll(Text.Terminated(recs), '\n');
    assert records == recs + [""];
    forall i | 0 <= i < |tasks|
      ensures ReadTaskRecord(records[i]) == Some(TaskReportOf(tasks[i]))
    {
      assert records[i] == TaskRecord(tasks[i]);
      TaskRecordReadsBack(tasks[i]);
    }
  }

  /**
   * When no task message spans lines, a caller splitting the
   * `GetCommentTasks` output on newlines gets one record per task, in
   * order, each reading back as that task, and then the empty tail.
   */
  lemma CommentTasksReadBack(s: Server, cache: ParseCache, host: Host, filename: string)
    requires GetModule(s, cache, host.normalizePath(filename)).Some?
    requires GetModule(s, cache, host.normalizePath(filename)).value.tasks.Some?
    requires var tasks := GetModule(s, cache, host.normalizePath(filename)).value.tasks.value;
      forall i :: 0 <= i < |tasks| ==> '\n' !in tasks[i].message
    ensures var tasks := GetModule(s, cache, host.normalizePath(filename)).value.tasks.value;
      var records := Text.SplitAll(GetCommentTasks(s, cache, host, filename).value, '\n');
      && |records| == |tasks| + 1
      && records[|tasks|] == ""
      && forall i :: 0 <= i < |tasks| ==> ReadTaskRecord(records[i]) == Some(TaskReportOf(tasks[i]))
  {
    TaskRecordsReadBack(GetModule(s, cache, host.normalizePath(filename)).value.tasks.value);
  }

  /**
   * The module stored when the parser throws breaks the one-record-per-line
   * framing: its single error's message is the exception message, two
   * newlines and the stack trace, so the caller sees the record line (at
   * line 0, index -1, with the exception message), an empty line, and then
   * one line per line of the stack trace.
   */
  lemma CapturedFailureBreaksFraming(ex: Exception)
    requires '\n' !in ex.message
    ensures var records := Text.SplitAll(Text.Terminated(ErrorRecords(CapturedFailure(ex).parseErrors)), '\n');
      && |records| >= 4
      && ReadErrorRecord(records[0]) == Some(ErrorReport(0, -1, 0, 0, ex.message))
      && records[1] == ""
      && ReadErrorRecord(records[1]).None?
      && records[2..] == Text.SplitAll(ex.stackTrace, '\n') + [""]
  {
    var first := CapturedFailure(ex).parseErrors[0].(message := ex.message);
    ErrorRecordHasNoNewline(first);
    ErrorRecordReadsBack(first);
    assert ReportOf(first) == ErrorReport(0, -1, 0, 0, ex.message);
    CapturedRecords(ex, ErrorRecord(first));
  }

  /** The output for the captured failure splits into the first line, an empty line, the stack trace's lines and the empty tail. */
  lemma CapturedRecords(ex: Exception, head: string)
    requires head == ErrorRecord(CapturedFailure(ex).parseErrors[0].(message := ex.message))
    requires '\n' !in head
    ensures Text.SplitAll(Text.Terminated(ErrorRecords(CapturedFailure(ex).parseErrors)), '\n')
         == [head, ""] + (Text.SplitAll(ex.stackTrace, '\n') + [""])
  {
    CapturedOutput(ex, head);
    var last := ex.stackTrace + ['\n'] + "";
    var tail := "" + ['\n'] + last;
    Text.SplitAllAppend(ex.stackTrace, "", '\n');
    assert Text.SplitAll("", '\n') == [""];
    assert Text.SplitAll(last, '\n') == Text.SplitAll(ex.stackTrace, '\n') + [""];
    Text.SplitAllPeel("", last, '\n');
    assert Text.SplitAll(tail, '\n') == [""] + (Text.SplitAll(ex.stackTrace, '\n') + [""]);
    Text.SplitAllPeel(head, tail, '\n');
  }

  lemma CapturedOutput(ex: Exception, head: string)
    requires head == ErrorRecord(CapturedFailure(ex).parseErrors[0].(message := ex.message))
    ensures Text.Terminated(ErrorRecords(CapturedFailure(ex).parseErrors))
         == head + ['\n'] + ("" + ['\n'] + (ex.stackTrace + ['\n'] + ""))
  {
    var e := CapturedFailure(ex).parseErrors[0];
    assert ErrorRecord(e) == head + "\n\n" + ex.stackTrace;
    assert ErrorRecords(CapturedFailure(ex).parseErrors) == [ErrorRecord(e)];
  }
}
