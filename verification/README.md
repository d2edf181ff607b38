# VDServer façade — a Dafny model

This project models the sequential logic of `VDServer`, the COM server that
lets the Visual D editor ask the D language parser for parse errors, comment
tasks, tooltips, completions ("semantic expansions"), definitions, references
and identifier types without ever blocking. Long queries are started by a
`Get*` call and polled with the matching `Get*Result` call, which answers
with the payload, `"__cancelled__"` or `"__pending__"`.

What is modelled, module by module:

- `ModuleStore` — the server's state as an immutable record of finite maps:
  source text per file (`_sources`), the session's own parsed modules
  (`_modules`), the import path string, the comment-task tokens and the
  `uint` activity counter. The process-wide parse cache is a map handed to
  every lookup, so that a property of a lookup holds for whatever the cache
  holds or has forgotten. The parser, the path normaliser and
  `Path.GetFileNameWithoutExtension` are function-valued fields of a `Host`
  record. Being Dafny functions, they are total and deterministic: the same
  name always normalises to the same key, and the normaliser, which
  `UpdateModule` calls outside its `try`, never throws. Nothing else is
  assumed about them, not even that normalising is idempotent. A null
  source text or import string is `None`. Operations: `GetModule`, `UpdateModule`,
  `ConfigureSemanticProject`, `ConfigureCommentTasks`, and a client's run of
  calls with arbitrary cache eviction between calls.
- `Polling` — the five `Get*Result` translators as two pure functions over
  .NET's `TaskStatus` and the generator's result: `PollString` (identifier
  types, semantic expansions, references) and `PollRange` (tooltip,
  definition, which also translate the range to editor coordinates).
- `Requests` — the five `Get*` starters, modelled by the request each hands
  its generator: editor indices are 0-based, parser columns 1-based.
- `Coordinates` — the two coordinate translations and their round trips.
- `Serialisers` — `GetParseErrors`, `GetCommentTasks` and
  `GetBinaryIsInLocations`, together with a caller-side reader proving that
  the newline-terminated `line,index,line,column:message` and
  `line,index:message` records read back as the errors and tasks they came
  from.
- `Text`, `Machine`, `Dom`, `Wrappers` — decimal formatting of integers,
  `String.Split` with and without `RemoveEmptyEntries`, unchecked 32-bit C#
  arithmetic (`index + 1`, `Column - 1`, the `(int)` cast of a `uint`, the
  wrapping counter), the parser's location/error/module records, and
  `Option`/`Result` for `null` and thrown exceptions.

One consequence of the source that the model makes explicit: when the parser
throws, `UpdateModule` stores a single error whose message is the exception
message, two newlines and the stack trace, at the empty location. In
`GetParseErrors` that one error is therefore written as two lines plus one per
line of the stack trace: a record whose index field is `-1` (the column is not
clamped there), an empty line that reads as no record, and the stack trace
(`Serialisers.CapturedFailureBreaksFraming`).

## Model

| member | source | states |
|---|---|---|
| `ModuleStore.GetModule` | vdc/abothe/comserver/VDServer.cs:43-51 | Nothing for a file whose source text is unknown, whatever the parse cache holds; otherwise the parse cache's module, and the session's own module only when the cache has none for that name. |
| `ModuleStore.LookupFindsKnownFiles` | vdc/abothe/comserver/VDServer.cs:39-51 | In a consistent store the lookup finds a module exactly for the files whose source text is known, for every parse-cache content. |
| `ModuleStore.CapturedFailure` | vdc/abothe/comserver/VDServer.cs:90-96 | A parser exception becomes a module with exactly one error, at the empty location, and no module name. |
| `ModuleStore.ParsedModule` | vdc/abothe/comserver/VDServer.cs:84-99 | For any source text, null included, the stored module carries the normalised file name; a parser exception yields exactly one error at the empty location carrying message, two newlines and stack trace; otherwise the parser's errors, tasks and operators are kept; an empty module name is replaced by the file name without extension. |
| `ModuleStore.UpdateModule` | vdc/abothe/comserver/VDServer.cs:82-109 | For any source text, null included, under the normalised name the new text and the new module are filed and the module is published to the parse cache; every other file's text and module are unchanged; the activity counter moves on by exactly one (with `uint` wrap-around); imports and task tokens are untouched. |
| `ModuleStore.UpdateSurvivesEviction` | vdc/abothe/comserver/VDServer.cs:39-51 | After an update, however many entries the parse cache then forgets, looking up the normalised name yields exactly the new module. |
| `ModuleStore.UpdatedFileIsFound` | vdc/abothe/comserver/VDServer.cs:101-103 | After an update the normalised name is found whatever the parse cache holds. |
| `ModuleStore.UpdateKeepsValid` | vdc/abothe/comserver/VDServer.cs:99-102 | An update keeps every known file paired with a module filed under its own name. |
| `ModuleStore.ConfigureSemanticProject` | vdc/abothe/comserver/VDServer.cs:65-76 | The counter moves by exactly one when the import string differs from the last one configured, null counting as a value equal only to null, and the state is unchanged otherwise; afterwards the import string is the one given, null included. |
| `ModuleStore.ConfigureCommentTasks` | vdc/abothe/comserver/VDServer.cs:208-211 | The tokens are non-empty, hold no newline, and concatenated give the input with its newlines removed; nothing else changes. |
| `ModuleStore.CommentTasksRoundTrip` | vdc/abothe/comserver/VDServer.cs:208-211 | Configuring the newline-joined list of any newline-free entries installs exactly its non-empty entries, in order, and so exactly the list when no entry is empty. |
| `ModuleStore.Apply` | vdc/abothe/comserver/VDServer.cs:65-109 | Across the three state-changing calls the activity counter moves exactly on an update or an import change, by one, and otherwise stays. |
| `ModuleStore.RunKeepsValid` | vdc/abothe/comserver/VDServer.cs:82-109 | Any sequence of calls, with any parse-cache eviction between them, keeps the store consistent. |
| `ModuleStore.UpdatedFileStaysFound` | vdc/abothe/comserver/VDServer.cs:39-40 | A file once known stays findable through any later calls and any parse-cache eviction, because the session map is never emptied. |
| `Machine.IncUInt32` | vdc/abothe/comserver/VDServer.cs:108 | Incrementing the `uint` counter always changes it, is one more modulo 2^32, and increases it except at the largest value. |
| `Machine.AsInt32` | vdc/abothe/comserver/VDServer.cs:170 | The unchecked `(int)` cast keeps values up to 2^31-1 and maps larger ones to the negative value 2^32 below. |
| `Machine.LowBitIsOdd` | vdc/abothe/comserver/VDServer.cs:113 | The bit test `flags & 1 != 0` on a two's-complement `int` holds exactly for odd values, negative ones included. |
| `Coordinates.ColumnOfIndex` | vdc/abothe/comserver/VDServer.cs:135 | An incoming index becomes the column one greater, wrapping at the largest `int`. |
| `Coordinates.IndexOfColumn` | vdc/abothe/comserver/VDServer.cs:145 | An outgoing column becomes the index one less, never negative: 0 for columns from 0 down to -2^31+1, and 2^31-1 for the smallest `int`, where the unchecked subtraction wraps before the clamp. |
| `Coordinates.IndexRoundTrip` | vdc/abothe/comserver/VDServer.cs:135-147 | An index sent in and reported back is unchanged when non-negative (even at the wrap) and zero otherwise. |
| `Coordinates.ColumnRoundTrip` | vdc/abothe/comserver/VDServer.cs:289-302 | A column of 1 or more reported out and sent back in is unchanged. |
| `Polling.PollString` | vdc/abothe/comserver/VDServer.cs:116-131 | On completion the generator's result; `"__cancelled__"` for a faulted or cancelled task; `"__pending__"` in every other status. The same switch is written out in `GetSemanticExpansionsResult` and `GetReferencesResult`. |
| `Polling.PollStringReadsBack` | vdc/abothe/comserver/VDServer.cs:173-188 | A caller decoding the answer observes exactly completed-with-result, abandoned (fault and cancellation alike) or waiting, as the status says, whenever the payload is not itself a sentinel. |
| `Polling.PollStringIgnoresUnfinishedResult` | vdc/abothe/comserver/VDServer.cs:328-343 | Before completion the answer does not depend on the result cell, so no stale result can be reported. |
| `Polling.PollRange` | vdc/abothe/comserver/VDServer.cs:138-166 | All four coordinates are never negative; on completion they are `max(0, line)` and `max(0, column - 1)` of the result's range with its text; otherwise they are all zero and the text is the sentinel of the string poll. The same switch is written out in `GetDefinitionResult`. |
| `Polling.PollRangeRoundTrip` | vdc/abothe/comserver/VDServer.cs:293-321 | A completed range with non-negative lines and 1-based columns, reported out and sent back in, is the same range. |
| `Requests.GetTip` | vdc/abothe/comserver/VDServer.cs:133-136 | The tooltip generator receives the file, the flags and the start line with the start index made a column (index + 1), which reports back as the clamped index. |
| `Requests.GetDefinition` | vdc/abothe/comserver/VDServer.cs:287-292 | Both ends of the range reach the generator with their lines and with their indices made columns, each of which reports back as the clamped index. |
| `Requests.UnsignedLocation` | vdc/abothe/comserver/VDServer.cs:170 | Unsigned line and index become an `int` location with the index made a column; indices up to 2^31-1 report back unchanged, larger ones give a column of 0 or less. |
| `Requests.GetSemanticExpansions` | vdc/abothe/comserver/VDServer.cs:168-171 | The generator receives the file, the token and the translated position; every index up to 2^31-1 reports back unchanged. |
| `Requests.GetReferences` | vdc/abothe/comserver/VDServer.cs:323-326 | The generator receives the file, the module-only flag and the translated position; every index up to 2^31-1 reports back unchanged. |
| `Requests.GetIdentifierTypes` | vdc/abothe/comserver/VDServer.cs:111-115 | The generator receives column 0 of the start line, the end line, and a flag that is set exactly when the lowest bit of `flags` is. |
| `Text.IntToStringRoundTrip` | vdc/abothe/comserver/VDServer.cs:202 | Every integer the server writes into a record reads back as the same integer. |
| `Text.SplitAll` | vdc/abothe/comserver/VDServer.cs:210 | Splitting yields at least one segment, and no segment holds the separator. |
| `Text.SplitAllConcat` | vdc/abothe/comserver/VDServer.cs:210 | The segments concatenated are the input without its separators. |
| `Text.SplitNonEmpty` | vdc/abothe/comserver/VDServer.cs:210 | Splitting with empty entries removed yields non-empty, separator-free tokens whose concatenation is the input without separators. |
| `Text.SplitNonEmptyJoin` | vdc/abothe/comserver/VDServer.cs:210 | Splitting the join of any separator-free parts, empty entries removed, gives exactly the non-empty parts in order. |
| `Text.SplitNonEmptyOfAnyInput` | vdc/abothe/comserver/VDServer.cs:210 | Every input is the join of its segments, and splitting with empty entries removed keeps exactly the non-empty segments, so the round trip above covers every input. |
| `Text.SplitTerminated` | vdc/abothe/comserver/VDServer.cs:200-203 | Newline-terminated records split on newlines give back the records and one empty tail, when no record holds a newline. |
| `Serialisers.GetParseErrors` | vdc/abothe/comserver/VDServer.cs:190-206 | Fails with "module not found" exactly when the lookup of the normalised name finds nothing; otherwise one newline-terminated record per error in order, and the empty string exactly when there are no errors. |
| `Serialisers.ErrorRecordReadsBack` | vdc/abothe/comserver/VDServer.cs:202 | A parse-error record reads back as its line, its column less one (unclamped), its line again, its column and its message. |
| `Serialisers.ParseErrorsReadBack` | vdc/abothe/comserver/VDServer.cs:198-203 | When no message spans lines, splitting the output on newlines gives one record per error, in order, each reading back as that error, then the empty tail. |
| `Serialisers.CapturedFailureBreaksFraming` | vdc/abothe/comserver/VDServer.cs:92-95 | For any stack trace and a one-line exception message, the error stored for a parser exception is written as a record at line 0 and index -1 with the message, then an empty line that reads as no record, then the stack trace's own lines and the empty tail. |
| `Serialisers.GetCommentTasks` | vdc/abothe/comserver/VDServer.cs:213-229 | Fails with "module not found" exactly when the lookup of the normalised name finds nothing; otherwise the empty string for a null task list and one newline-terminated record per task in order for a list. |
| `Serialisers.TaskRecordReadsBack` | vdc/abothe/comserver/VDServer.cs:224 | A task record reads back as its line, its column less one (unclamped) and its message. |
| `Serialisers.CommentTasksReadBack` | vdc/abothe/comserver/VDServer.cs:221-226 | When no task message spans lines, splitting the output on newlines gives one record per task, in order, each reading back as that task, then the empty tail. |
| `Serialisers.FlattenLocations` | vdc/abothe/comserver/VDServer.cs:243-259 | Two entries per operator location, in visit order: its line, then its column less one. |
| `Serialisers.FlattenLocationsReadsBack` | vdc/abothe/comserver/VDServer.cs:243-273 | Read in pairs, the flattened list gives back each operator's line and column less one, one pair per operator, in visit order. |
| `Serialisers.GetBinaryIsInLocations` | vdc/abothe/comserver/VDServer.cs:261-273 | Fails with "module not found" exactly when the lookup of the normalised name finds nothing; otherwise exactly the flattened operator locations of the found module, two entries per `is`/`in` operator. |

## Left out

- Query generators (`TooltipGenerator` and the four others): their code is not part of this model. Starting, superseding and cancelling their background tasks, and "latest generation wins", are not modelled; a generator appears only as the request a `Get*` call hands it and as the status and result a `Get*Result` call reads.
- Parser, path normaliser, `Path.GetFileNameWithoutExtension`: uninterpreted, as fields of `Host`. They are taken to be total and deterministic, and nothing more is assumed. A normaliser that throws, or that maps the same name to different keys on different calls, is not modelled.
- Parse cache: modelled as a map supplied to each lookup; `GlobalParseCache.AddOrUpdateModule` is taken to file the module under its `FileName`.
- `ConfigureSemanticProject`: only the import string is modelled; the other arguments go only to `ConfigureEnvironment`, and `uniqueDirectories` and `BeginAddOrUpdatePaths` are fire-and-forget calls with no effect on the state modelled here.
- ModuleStore.ConfigureSemanticProject: a null import string is handed to `ConfigureEnvironment` and, when it differs from the stored one, to `uniqueDirectories`. Their code is not part of this model, so the model does not promise whether they accept null; it takes them not to throw.
- `EditorDataProvider.OnSourceChanged` (called by `UpdateModule`): its effect lies outside this file.
- Stubs `IsBinaryOperator` (throws "not implemented" once the module is found), `GetParameterStorageLocs`, `GetDocumentOutline`, `GetLastMessage`, `ClearSemanticProject`: they hold no logic to verify.
- COM registration code under `#if false`: dead code.
- The unused `_identiferTypes` dictionary.
- The activity counter is a static field shared by all server instances; here it belongs to the one server record.
- The token kind (`DTokens.Invariant`) recorded on the captured parse error is not modelled; `CodeLocation.Empty` is taken to be line 0, column 0, and the task list of the module built for a parser exception is taken to be null.
- Null arguments: a null source text and a null import string are accepted by the source and modelled as `None`. The parser's exception on a null text is caught like any other, and the text is filed as null. A null task string makes `tasks.Split` raise a `NullReferenceException`; that call is not modelled. A null file name goes straight to the path normaliser, whose code is not part of this model, so it is not modelled either.
- Number formatting assumes the invariant culture (ASCII digits and `-`).
- ModuleStore.UpdateSurvivesEviction: assumes the parse cache only forgets entries between an update and the lookup; a re-filing of the same path by `BeginAddOrUpdatePaths` or by another server instance sharing the cache is not covered.
- The depth-first visitor of `GetBinaryIsInLocations` is not modelled: each module carries the operator locations in the order the visitor would meet them.
