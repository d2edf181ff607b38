/**
 * The server's module store: the source text and parsed module it keeps per
 * file, the two-layer lookup (process-wide parse cache first, then the
 * session's own map), the activity counter, the import configuration and
 * the comment-task tokens.
 *
 * The parser, the path normaliser and the file-name helper are not part of
 * this model; they are the fields of a `Host` value. The process-wide parse
 * cache is a map handed to each lookup: it may hold any module or forget any
 * entry between calls, so properties of a lookup are stated for every cache.
 */
module ModuleStore {
  import opened Wrappers
  import opened Machine
  import opened Dom
  import Text

  /** An exception thrown by the parser: its message and its stack trace. */
  datatype Exception = Exception(message: string, stackTrace: string)

  /**
   * Collaborators whose code is not part of this model:
   * `EditorDataProvider.normalizePath`, `DParser.ParseString` (given the
   * text, `None` for a null one, and the current task tokens; it may throw)
   * and `Path.GetFileNameWithoutExtension`. As Dafny functions they are
   * taken to be total and deterministic: normalising the same name twice
   * gives the same key, and `normalizePath`, which `UpdateModule` calls
   * outside its `try`, is taken never to throw.
   */
  datatype Host = Host(
    normalizePath: string -> string,
    parseString: (Option<string>, Option<seq<string>>) -> Result<DModule, Exception>,
    fileNameWithoutExtension: string -> string)

  /** The contents of the process-wide parse cache at one moment, keyed by file name. */
  type ParseCache = map<string, DModule>

  /**
   * The server's own state. `imports` and `taskTokens` are `None` until
   * first configured (the C# fields start out null), and a source text is
   * `None` where a null one was stored; `activity` is the `uint` activity
   * counter.
   */
  datatype Server = Server(
    sources: map<string, Option<string>>,
    modules: map<string, DModule>,
    imports: Option<string>,
    taskTokens: Option<seq<string>>,
    activity: uint32)

  /** A freshly constructed server. */
  const Initial: Server := Server(map[], map[], None, None, 0)

  /** A result of `UpdateModule`: the new server state and the parse cache with the module published. */
  datatype Updated = Updated(server: Server, cache: ParseCache)

  /** `cache` is what remains of `published` after the parse cache forgot some of its entries. */
  ghost predicate Forgets(cache: ParseCache, published: ParseCache) {
    && cache.Keys <= published.Keys
    && forall k :: k in cache ==> cache[k] == published[k]
  }

  /**
   * The store's consistency: every file with source text has a module, and
   * the other way round, and each module is filed under its own name.
   */
  ghost predicate Valid(s: Server) {
    && s.sources.Keys == s.modules.Keys
    && forall k :: k in s.modules ==> s.modules[k].fileName == k
  }

  /**
   * `GetModule`: nothing for a file whose source the server has never been
   * given, whatever the parse cache holds; otherwise the parse cache's
   * module, and the session's own module only when the cache has none.
   */
  function GetModule(s: Server, cache: ParseCache, fileName: string): (m: Option<DModule>)
    ensures fileName !in s.sources ==> m.None?
    ensures fileName in s.sources && fileName in cache ==> m == Some(cache[fileName])
    ensures fileName in s.sources && fileName !in cache && fileName in s.modules ==> m == Some(s.modules[fileName])
    ensures m.Some? ==> fileName in cache || fileName in s.modules
  {
    if fileName !in s.sources then None
    else if fileName in cache then Some(cache[fileName])
    else if fileName in s.modules then Some(s.modules[fileName])
    else None
  }

  /** The module `UpdateModule` stores when the parser threw: one error, at no location, carrying the exception text. */
  function CapturedFailure(ex: Exception): (ast: DModule)
    ensures |ast.parseErrors| == 1
    ensures ast.parseErrors[0].location == EmptyLocation
    ensures ast.moduleName == ""
  {
    DModule("", "", [ParserError(false, ex.message + "\n\n" + ex.stackTrace, EmptyLocation)], None, [])
  }

  /**
   * The module `UpdateModule` builds for `srcText` under the normalised
   * name `fileName`: the parser's module, or the captured failure when the
   * parser throws; an empty module name is replaced by the file name
   * without its extension; the file name is always `fileName`.
   */
  function ParsedModule(host: Host, fileName: string, srcText: Option<string>, tokens: Option<seq<string>>): (ast: DModule)
    ensures ast.fileName == fileName
    ensures host.parseString(srcText, tokens).Failure? ==>
      var ex := host.parseString(srcText, tokens).error;
      && ast.parseErrors == [ParserError(false, ex.message + "\n\n" + ex.stackTrace, EmptyLocation)]
      && ast.moduleName == host.fileNameWithoutExtension(fileName)
    ensures host.parseString(srcText, tokens).Success? ==>
      var parsed := host.parseString(srcText, tokens).value;
      && ast.parseErrors == parsed.parseErrors
      && ast.tasks == parsed.tasks
      && ast.isInOperators == parsed.isInOperators
      && ast.moduleName == (if parsed.moduleName == "" then host.fileNameWithoutExtension(fileName) else parsed.moduleName)
  {
    var parsed :=
      match host.parseString(srcText, tokens)
      case Success(m) => m
      case Failure(ex) => CapturedFailure(ex);
    var named :=
      if parsed.moduleName == "" then parsed.(moduleName := host.fileNameWithoutExtension(fileName)) else parsed;
    named.(fileName := fileName)
  }

  /**
   * `UpdateModule`: files the text and its freshly parsed module under the
   * normalised name, publishes the module to the parse cache and bumps the
   * activity counter. A parser exception is caught, so a null text (`None`)
   * is filed like any other; no other file's entries change.
   */
  function UpdateModule(s: Server, cache: ParseCache, host: Host, filename: string, srcText: Option<string>, flags: int32): (u: Updated)
    ensures var n := host.normalizePath(filename);
      && n in u.server.sources && u.server.sources[n] == srcText
      && n in u.server.modules && u.server.modules[n] == ParsedModule(host, n, srcText, s.taskTokens)
      && u.server.sources - {n} == s.sources - {n}
      && u.server.modules - {n} == s.modules - {n}
      && u.cache == cache[n := u.server.modules[n]]
    ensures u.server.activity == IncUInt32(s.activity)
    ensures u.server.imports == s.imports && u.server.taskTokens == s.taskTokens
  {
    var n := host.normalizePath(filename);
    var ast := ParsedModule(host, n, srcText, s.taskTokens);
    var server := s.(modules := s.modules[n := ast], sources := s.sources[n := srcText], activity := IncUInt32(s.activity));
    Updated(server, cache[n := ast])
  }

  /**
   * `ConfigureSemanticProject`, as far as this server's state goes: the
   * activity counter moves exactly when the import path string differs
   * from the one last configured, and the new string is kept. C#'s string
   * `!=` compares values and treats two nulls (`None`) as equal, so a null
   * import string on a fresh server, or twice in a row, moves nothing.
   */
  function ConfigureSemanticProject(s: Server, imp: Option<string>): (r: Server)
    ensures r.imports == imp
    ensures s.imports != imp ==> r.activity == IncUInt32(s.activity) && r.activity != s.activity
    ensures s.imports == imp ==> r == s
    ensures r.sources == s.sources && r.modules == s.modules && r.taskTokens == s.taskTokens
  {
    var activity := if s.imports != imp then IncUInt32(s.activity) else s.activity;
    s.(imports := imp, activity := activity)
  }

  /**
   * `ConfigureCommentTasks`: the tokens are the newline-separated entries
   * of `tasks` with the empty ones dropped, so each is non-empty, none holds
   * a newline, and together they are `tasks` without its newlines.
   */
  function ConfigureCommentTasks(s: Server, tasks: string): (r: Server)
    ensures r.taskTokens.Some?
    ensures forall i :: 0 <= i < |r.taskTokens.value| ==> r.taskTokens.value[i] != "" && '\n' !in r.taskTokens.value[i]
    ensures Text.Concat(r.taskTokens.value) == Text.Remove(tasks, '\n')
    ensures r.sources == s.sources && r.modules == s.modules && r.imports == s.imports && r.activity == s.activity
  {
    s.(taskTokens := Some(Text.SplitNonEmpty(tasks, '\n')))
  }

  /**
   * Configuring the newline join of newline-free entries installs exactly
   * the non-empty entries, in order; when all entries are non-empty, exactly
   * that list. Every string is such a join (`Text.SplitNonEmptyOfAnyInput`).
   */
  lemma CommentTasksRoundTrip(s: Server, entries: seq<string>)
    requires Text.NoneContains(entries, '\n')
    ensures ConfigureCommentTasks(s, Text.Join(entries, '\n')).taskTokens == Some(Text.NonEmpty(entries))
    ensures (forall i :: 0 <= i < |entries| ==> entries[i] != "") ==>
      ConfigureCommentTasks(s, Text.Join(entries, '\n')).taskTokens == Some(entries)
  {
    Text.SplitNonEmptyJoin(entries, '\n');
    if forall i :: 0 <= i < |entries| ==> entries[i] != "" {
      Text.NonEmptyOfNonEmpty(entries);
    }
  }

  /**
   * The update survives the parse cache's forgetfulness: once the cache has
   * lost any of the entries it held after the update, looking up the
   * normalised name still yields exactly the new module.
   */
  lemma UpdateSurvivesEviction(s: Server, cache: ParseCache, host: Host, filename: string, srcText: Option<string>, flags: int32, later: ParseCache)
    requires Forgets(later, UpdateModule(s, cache, host, filename, srcText, flags).cache)
    ensures var n := host.normalizePath(filename);
      GetModule(UpdateModule(s, cache, host, filename, srcText, flags).server, later, n)
        == Some(ParsedModule(host, n, srcText, s.taskTokens))
  {
    var u := UpdateModule(s, cache, host, filename, srcText, flags);
    var n := host.normalizePath(filename);
    if n in later {
      assert later[n] == u.cache[n];
    }
  }

  /** After an update the normalised name is found whatever the parse cache holds. */
  lemma UpdatedFileIsFound(s: Server, cache: ParseCache, host: Host, filename: string, srcText: Option<string>, flags: int32, later: ParseCache)
    ensures GetModule(UpdateModule(s, cache, host, filename, srcText, flags).server, later, host.normalizePath(filename)).Some?
  {
  }

  lemma InitialValid()
    ensures Valid(Initial)
  {
  }

  /** Every operation keeps the store consistent. */
  lemma UpdateKeepsValid(s: Server, cache: ParseCache, host: Host, filename: string, srcText: Option<string>, flags: int32)
    requires Valid(s)
    ensures Valid(UpdateModule(s, cache, host, filename, srcText, flags).server)
  {
    var n := host.normalizePath(filename);
    var r := UpdateModule(s, cache, host, filename, srcText, flags).server;
    assert r.sources.Keys == s.sources.Keys + {n};
    assert r.modules.Keys == s.modules.Keys + {n};
  }

  /**
   * In a consistent store the lookup finds a module exactly for the files
   * whose source the server holds, whatever the parse cache holds.
   */
  lemma LookupFindsKnownFiles(s: Server, cache: ParseCache, fileName: string)
    requires Valid(s)
    ensures GetModule(s, cache, fileName).Some? <==> fileName in s.sources
  {
  }

  /** The calls a client makes on the store. */
  datatype Call =
    | Update(filename: string, srcText: Option<string>, flags: int32)
    | ConfigureProject(imp: Option<string>)
    | ConfigureTasks(tasks: string)

  /** Whether `call` moves the activity counter when made on `s`. */
  predicate Bumps(s: Server, call: Call) {
    call.Update? || (call.ConfigureProject? && s.imports != call.imp)
  }

  /** One call on the store; only an update publishes to the parse cache. */
  function Apply(s: Server, cache: ParseCache, host: Host, call: Call): (u: Updated)
    ensures u.server.activity == if Bumps(s, call) then IncUInt32(s.activity) else s.activity
    ensures Bumps(s, call) <==> u.server.activity != s.activity
  {
    match call
    case Update(f, t, flags) => UpdateModule(s, cache, host, f, t, flags)
    case ConfigureProject(imp) => Updated(ConfigureSemanticProject(s, imp), cache)
    case ConfigureTasks(tasks) => Updated(ConfigureCommentTasks(s, tasks), cache)
  }

  /**
   * A sequence of calls. Between calls the parse cache may forget entries:
   * `evict` says, per call, which keys survive into the next call.
   */
  function Run(s: Server, cache: ParseCache, host: Host, calls: seq<Call>, evict: seq<set<string>>): Server
    requires |evict| == |calls|
    decreases |calls|
  {
    if calls == [] then s
    else
      var u := Apply(s, cache, host, calls[0]);
      Run(u.server, map k | k in u.cache && k in evict[0] :: u.cache[k], host, calls[1..], evict[1..])
  }

  /** Every state a client can drive a new server into is consistent. */
  lemma {:induction false} RunKeepsValid(s: Server, cache: ParseCache, host: Host, calls: seq<Call>, evict: seq<set<string>>)
    requires Valid(s)
    requires |evict| == |calls|
    ensures Valid(Run(s, cache, host, calls, evict))
    decreases |calls|
  {
    if calls != [] {
      var u := Apply(s, cache, host, calls[0]);
      if calls[0].Update? {
        UpdateKeepsValid(s, cache, host, calls[0].filename, calls[0].srcText, calls[0].flags);
      }
      RunKeepsValid(u.server, map k | k in u.cache && k in evict[0] :: u.cache[k], host, calls[1..], evict[1..]);
    }
  }

  /**
   * A file once updated stays findable through any later calls and any
   * cache eviction: the session map is never emptied.
   */
  lemma {:induction false} UpdatedFileStaysFound(s: Server, cache: ParseCache, host: Host, calls: seq<Call>, evict: seq<set<string>>, later: ParseCache, f: string)
    requires |evict| == |calls|
    requires f in s.sources && f in s.modules
    ensures GetModule(Run(s, cache, host, calls, evict), later, f).Some?
    decreases |calls|
  {
    if calls != [] {
      var u := Apply(s, cache, host, calls[0]);
      UpdatedFileStaysFound(u.server, map k | k in u.cache && k in evict[0] :: u.cache[k], host, calls[1..], evict[1..], later, f);
    }
  }
}
