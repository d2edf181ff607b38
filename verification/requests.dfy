/**
 * The query starters: each takes editor coordinates (0-based indices) and
 * hands its generator parser coordinates (1-based columns). The generators
 * themselves are not part of this model, so a starter is modelled by the
 * request it hands over.
 */
module Requests {
  import opened Machine
  import opened Dom
  import opened Coordinates

  /** What `GetTip` hands the tooltip generator. */
  datatype TipRequest = TipRequest(filename: string, location: CodeLocation, flags: int32)

  /** What `GetDefinition` hands the definition generator. */
  datatype DefinitionRequest = DefinitionRequest(filename: string, start: CodeLocation, end: CodeLocation)

  /** What `GetSemanticExpansions` hands the expansions generator. */
  datatype ExpansionsRequest = ExpansionsRequest(filename: string, location: CodeLocation, token: string)

  /** What `GetReferences` hands the references generator. */
  datatype ReferencesRequest = ReferencesRequest(filename: string, location: CodeLocation, moduleOnly: bool)

  /** What `GetIdentifierTypes` hands the identifier-types generator. */
  datatype IdentifierTypesRequest = IdentifierTypesRequest(filename: string, location: CodeLocation, endLine: int32, flag: bool)

  /**
   * `GetTip`: the start position, with its index made a column; the end of
   * the range is not passed on.
   */
  function GetTip(filename: string, startLine: int32, startIndex: int32, endLine: int32, endIndex: int32, flags: int32): (req: TipRequest)
    ensures req.filename == filename && req.flags == flags
    ensures req.location.line == startLine
    ensures startIndex < MaxInt32 ==> req.location.column == startIndex + 1
    ensures IndexOfColumn(req.location.column) == Max0(startIndex)
  {
    IndexRoundTrip(startIndex);
    TipRequest(filename, CodeLocation(ColumnOfIndex(startIndex), startLine), flags)
  }

  /** `GetDefinition`: both ends of the range, each index made a column. */
  function GetDefinition(filename: string, startLine: int32, startIndex: int32, endLine: int32, endIndex: int32): (req: DefinitionRequest)
    ensures req.filename == filename
    ensures req.start.line == startLine && req.end.line == endLine
    ensures startIndex < MaxInt32 ==> req.start.column == startIndex + 1
    ensures endIndex < MaxInt32 ==> req.end.column == endIndex + 1
    ensures IndexOfColumn(req.start.column) == Max0(startIndex)
    ensures IndexOfColumn(req.end.column) == Max0(endIndex)
  {
    IndexRoundTrip(startIndex);
    IndexRoundTrip(endIndex);
    DefinitionRequest(filename, CodeLocation(ColumnOfIndex(startIndex), startLine), CodeLocation(ColumnOfIndex(endIndex), endLine))
  }

  /**
   * The location of `GetSemanticExpansions` and `GetReferences`: the
   * unsigned line and index are cast to `int` unchecked, and the index
   * made a column.
   */
  function UnsignedLocation(line: uint32, idx: uint32): (loc: CodeLocation)
    ensures line <= MaxInt32 ==> loc.line == line
    ensures idx < MaxInt32 ==> loc.column == idx + 1
    ensures idx <= MaxInt32 ==> IndexOfColumn(loc.column) == idx
    ensures idx > MaxInt32 ==> loc.column <= 0
  {
    IndexRoundTrip(AsInt32(idx));
    CodeLocation(ColumnOfIndex(AsInt32(idx)), AsInt32(line))
  }

  /** `GetSemanticExpansions`: the token to expand at the given position; the expression text is not passed on. */
  function GetSemanticExpansions(filename: string, tok: string, line: uint32, idx: uint32, expr: string): (req: ExpansionsRequest)
    ensures req.filename == filename && req.token == tok
    ensures req.location == UnsignedLocation(line, idx)
    ensures idx <= MaxInt32 ==> IndexOfColumn(req.location.column) == idx
  {
    ExpansionsRequest(filename, UnsignedLocation(line, idx), tok)
  }

  /** `GetReferences`: the position and the module-only flag; the token and expression text are not passed on. */
  function GetReferences(filename: string, tok: string, line: uint32, idx: uint32, expr: string, moduleOnly: bool): (req: ReferencesRequest)
    ensures req.filename == filename && req.moduleOnly == moduleOnly
    ensures req.location == UnsignedLocation(line, idx)
    ensures idx <= MaxInt32 ==> IndexOfColumn(req.location.column) == idx
  {
    ReferencesRequest(filename, UnsignedLocation(line, idx), moduleOnly)
  }

  /**
   * `GetIdentifierTypes`: column 0 of the start line, the end line, and
   * `flags & 1 != 0`, which holds exactly for odd `flags`.
   */
  function GetIdentifierTypes(filename: string, startLine: int32, endLine: int32, flags: int32): (req: IdentifierTypesRequest)
    ensures req.filename == filename
    ensures req.location == CodeLocation(0, startLine)
    ensures req.endLine == endLine
    ensures req.flag <==> flags % 2 == 1
  {
    LowBitIsOdd(flags);
    IdentifierTypesRequest(filename, CodeLocation(0, startLine), endLine, Bits32(flags) & 1 != 0)
  }
}
