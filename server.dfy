/** The MCP server's request handlers: the resource list and resource
    reads, the tool list and the four tools (search, read, tree, sync). The
    protocol transport is not modelled; each handler is given what is on
    disk, and the repository synchronisation's outcome, as inputs. */
module Server {
  import opened Text
  import opened Results
  import opened Config
  import opened Exceptions
  import opened FileTree
  import opened StorageManager
  import opened SearchEngine

  const OUTDATED_NOTE := " (РЕКОМЕНДУЕТСЯ: база устарела)"
  const UP_TO_DATE := "\nAll documentation repositories are up to date."
  const FILE_SCHEME := "file://"
  const RESOURCE_DESCRIPTION := "Klipper documentation: "
  const MARKDOWN := "text/markdown"
  const UNKNOWN_TOOL := "Unknown tool: "

  const SEARCH_TOOL := "search_docs"
  const READ_TOOL := "read_doc"
  const MAP_TOOL := "list_docs_map"
  const SYNC_TOOL := "sync_docs"
  const TOOL_NAMES := [SEARCH_TOOL, READ_TOOL, MAP_TOOL, SYNC_TOOL]

  const SEARCH_DESCRIPTION := "Search Klipper documentation by query. Returns up to 7 results with file paths and snippets. Matches in filenames and headings are ranked higher."
  const MAP_DESCRIPTION := "List the complete structure of Klipper documentation as a tree. Useful for discovering available files and understanding the docs organization."

  function ReadDescription(): string {
    "Read a Klipper documentation file. Returns up to " + NatToString(MAX_FILE_CHARS) + " characters by default. Use offset and limit for pagination."
  }

  /** The outcome of one repository's synchronisation, as the repository manager reports it. */
  datatype SyncResult = SyncResult(repoName: string, success: bool, message: string, wasCloned: bool, wasUpdated: bool)

  datatype Resource = Resource(uri: string, name: string, description: string, mimeType: string)

  /** A tool as announced to the client (its input schema is not modelled). */
  datatype Tool = Tool(name: string, description: string)

  /** The arguments of a tool call; `None` for an argument the caller left out. */
  datatype Args = Args(query: Option<string>, path: Option<string>, offset: Option<int>, limit: Option<int>)

  /** An exception that escapes a handler. */
  datatype Raised = ValueError(message: string) | OsFailure(os: OsError) | DocsFailure(error: KlipperDocsError)

  /** What a tool call gives back: a text, or an exception. */
  datatype Outcome = Text(text: string) | Raise(error: Raised)

  /** `arguments.get(key, default)`. */
  function GetOr<T>(o: Option<T>, default: T): T {
    if o.Some? then o.value else default
  }

  // ------------------------------------------------ resources

  /** The resource announced for one listed file. */
  function ResourceFor(rel: seq<string>): Resource {
    var p := PathString(rel);
    Resource(FILE_SCHEME + p, p, RESOURCE_DESCRIPTION + p, MARKDOWN)
  }

  function ResourcesOf(rels: seq<seq<string>>): (rs: seq<Resource>)
    ensures |rs| == |rels|
    ensures forall k :: 0 <= k < |rels| ==> rs[k] == ResourceFor(rels[k])
  {
    seq(|rels|, k requires 0 <= k < |rels| => ResourceFor(rels[k]))
  }

  /** `handle_list_resources`: one resource per listed file; none when the root is missing. */
  method ListResources(cfg: StorageConfig, docs: DocsTree) returns (resources: seq<Resource>)
    ensures !docs.present ==> resources == []
    ensures docs.present ==> resources == ResourcesOf(SupportedPaths(WalkRoot(docs), cfg.supportedExtensions))
  {
    resources := [];
    if !docs.present {
      return;
    }
    var listed := ListFiles(cfg, docs);
    var files := listed.value;
    var i := 0;
    while i < |files|
      invariant 0 <= i <= |files|
      invariant resources == ResourcesOf(files[..i])
    {
      resources := resources + [ResourceFor(files[i])];
      i := i + 1;
    }
    assert files[..i] == files;
  }

  /** The part of a resource URI that names the file: the URI without a leading "file://". */
  function StripFileScheme(uri: string): (p: string)
    ensures StartsWith(uri, FILE_SCHEME) ==> FILE_SCHEME + p == uri
    ensures !StartsWith(uri, FILE_SCHEME) ==> p == uri
  {
    if StartsWith(uri, FILE_SCHEME) then uri[|FILE_SCHEME|..] else uri
  }

  /** `handle_read_resource`: the first `maxFileChars` characters of the file;
      errors are not caught. */
  function ReadResource(cfg: StorageConfig, docs: DocsTree, uri: string): (r: Result<string, Raised>)
    ensures r.Success? <==> ReadFile(cfg, docs, StripFileScheme(uri), 0, None).Success?
    ensures var path := StripFileScheme(uri);
            var f := ReadFile(cfg, docs, path, 0, None);
            && (f.Success? ==> r == Success(PySlice(FoundContent(cfg, docs, path), 0, cfg.maxFileChars)))
            && (f.Failure? && f.error.Docs? ==> r == Failure(DocsFailure(f.error.error)))
            && (f.Failure? && f.error.Os? ==> r == Failure(OsFailure(f.error.os)))
  {
    match ReadFile(cfg, docs, StripFileScheme(uri), 0, None)
    case Success((content, _)) => Success(content)
    case Failure(Docs(e)) => Failure(DocsFailure(e))
    case Failure(Os(e)) => Failure(OsFailure(e))
  }

  /** The URI of an announced resource leads back to its name. */
  lemma ResourceUriRoundTrip(rel: seq<string>)
    ensures StripFileScheme(ResourceFor(rel).uri) == ResourceFor(rel).name
  {
    ConcatEnds(FILE_SCHEME, PathString(rel));
  }

  /** Every announced resource can be read back through its URI, in a tree
      with proper names: the read yields the start of the file, or the
      operating system's refusal when the file cannot be read. */
  lemma ResourcesReadable(cfg: StorageConfig, docs: DocsTree, r: Resource)
    requires docs.present && ProperNames(Dir("", docs.readable, docs.children))
    requires r in ResourcesOf(SupportedPaths(WalkRoot(docs), cfg.supportedExtensions))
    ensures exists k :: 0 <= k < |WalkRoot(docs)| &&
              var f := WalkRoot(docs)[k];
              ReadResource(cfg, docs, r.uri)
              == if f.readable then Success(PySlice(f.content, 0, cfg.maxFileChars))
                 else Failure(OsFailure(PermissionDenied(cfg.docsDir + RelPath(f))))
  {
    var rels := SupportedPaths(WalkRoot(docs), cfg.supportedExtensions);
    var i :| 0 <= i < |rels| && r == ResourceFor(rels[i]);
    SupportedPathsMember(WalkRoot(docs), cfg.supportedExtensions, rels[i]);
    var k :| 0 <= k < |WalkRoot(docs)| && RelPath(WalkRoot(docs)[k]) == rels[i]
             && EndsWithAny(WalkRoot(docs)[k].name, cfg.supportedExtensions);
    ResourceUriRoundTrip(rels[i]);
    WalkedFileReadBack(cfg, docs, k);
  }

  // ------------------------------------------------ read_doc

  /** The pagination note `read_doc` appends. */
  function Footer(offset: int, end: int, total: nat): string {
    "\n\n[... Showing characters " + IntToString(offset) + "-" + IntToString(if end < total then end else total)
    + " of " + IntToString(total) + " total]"
  }

  /** `read_doc(path, offset, limit)`: the requested slice, followed by a
      pagination note when the slice does not start at 0 or stops before the
      end; the note uses the limit as given, even when the read fell back to
      the default for a zero limit. A `KlipperDocsError` becomes its message;
      an operating-system error escapes. */
  function ReadDoc(cfg: StorageConfig, docs: DocsTree, path: string, offset: int, limit: int): (r: Outcome)
    ensures var f := ReadFile(cfg, docs, path, offset, Some(limit));
            r.Raise? <==> f.Failure? && f.error.Os?
    ensures var f := ReadFile(cfg, docs, path, offset, Some(limit));
            f.Success? ==> r.Text? && StartsWith(r.text, f.value.0)
  {
    match ReadFile(cfg, docs, path, offset, Some(limit))
    case Failure(Docs(e)) => Text(Message(e))
    case Failure(Os(e)) => Raise(OsFailure(e))
    case Success((content, total)) =>
      var end := offset + limit;
      if offset > 0 || end < total then Text(content + Footer(offset, end, total)) else Text(content)
  }

  /** A successful read with a positive limit shows `content[offset:offset+limit]`
      of the file, followed by the note exactly when the slice does not start
      at 0 or stops before the end. */
  lemma ReadDocPage(cfg: StorageConfig, docs: DocsTree, path: string, offset: int, limit: int)
    requires ReadFile(cfg, docs, path, offset, Some(limit)).Success? && limit != 0
    ensures var c := FoundContent(cfg, docs, path);
            ReadDoc(cfg, docs, path, offset, limit)
            == Text(PySlice(c, offset, offset + limit)
                    + if offset > 0 || offset + limit < |c| then Footer(offset, offset + limit, |c|) else "")
  {
    var c := FoundContent(cfg, docs, path);
    var slice := PySlice(c, offset, offset + limit);
    assert ReadFile(cfg, docs, path, offset, Some(limit)) == Success((slice, |c|)) by {
      ReadFileValue(cfg, docs, path, offset, Some(limit));
    }
    if offset > 0 || offset + limit < |c| {
      ReadDocNoted(cfg, docs, path, offset, limit, slice, |c|);
    } else {
      assert slice + "" == slice;
    }
  }

  lemma ReadDocNoted(cfg: StorageConfig, docs: DocsTree, path: string, offset: int, limit: int, slice: string, total: nat)
    requires ReadFile(cfg, docs, path, offset, Some(limit)) == Success((slice, total))
    requires offset > 0 || offset + limit < total
    ensures ReadDoc(cfg, docs, path, offset, limit) == Text(slice + Footer(offset, offset + limit, total))
  {
  }

  /** Reading from the start with a limit that covers the file gives the
      whole text without a note. */
  lemma ReadDocWholeFile(cfg: StorageConfig, docs: DocsTree, path: string, limit: int)
    requires ReadFile(cfg, docs, path, 0, Some(limit)).Success?
    requires limit > 0 && limit >= ReadFile(cfg, docs, path, 0, Some(limit)).value.1
    ensures ReadDoc(cfg, docs, path, 0, limit) == Text(FoundContent(cfg, docs, path))
  {
    ReadFileValue(cfg, docs, path, 0, Some(limit));
  }

  /** A zero limit reads the default number of characters, yet the note
      reports the range as ending at the offset. */
  lemma ReadDocZeroLimit(cfg: StorageConfig, docs: DocsTree, path: string, offset: nat)
    requires ReadFile(cfg, docs, path, offset, Some(0)).Success?
    requires offset > 0 || offset < ReadFile(cfg, docs, path, offset, Some(0)).value.1
    ensures var c := FoundContent(cfg, docs, path);
            ReadDoc(cfg, docs, path, offset, 0)
            == Text(PySlice(c, offset, offset + cfg.maxFileChars) + Footer(offset, offset, |c|))
  {
    ReadFileValue(cfg, docs, path, offset, Some(0));
    var c := FoundContent(cfg, docs, path);
    assert EffectiveLimit(Some(0), cfg.maxFileChars) == cfg.maxFileChars;
    assert ReadFile(cfg, docs, path, offset, Some(0)) == Success((PySlice(c, offset, offset + cfg.maxFileChars), |c|));
  }

  /** The error texts `read_doc` returns: a missing root, an escaping path, a missing file. */
  lemma ReadDocErrors(cfg: StorageConfig, docs: DocsTree, path: string, offset: int, limit: int)
    ensures !docs.present ==> ReadDoc(cfg, docs, path, offset, limit) == Text(NOT_AVAILABLE_MESSAGE)
    ensures docs.present && !(cfg.docsDir <= Resolve(cfg.docsDir, path)) ==>
              ReadDoc(cfg, docs, path, offset, limit) == Text(Message(PathTraversal(path)))
              && StartsWith(Message(PathTraversal(path)), "Access denied: ")
    ensures docs.present && cfg.docsDir <= Resolve(cfg.docsDir, path)
            && Target(cfg, docs, Resolve(cfg.docsDir, path)).None? ==>
              ReadDoc(cfg, docs, path, offset, limit) == Text(Message(ResourceNotFound(path)))
  {
    TraversalMessage(path);
  }

  /** An operating-system error is not a `KlipperDocsError`: opening a
      directory or an unreadable file escapes `read_doc` as an exception. */
  lemma ReadDocOsErrors(cfg: StorageConfig, docs: DocsTree, path: string, offset: int, limit: int)
    requires docs.present && cfg.docsDir <= Resolve(cfg.docsDir, path)
    ensures var target := Resolve(cfg.docsDir, path);
            var t := Target(cfg, docs, target);
            && (t.Some? && t.value.Dir? ==> ReadDoc(cfg, docs, path, offset, limit) == Raise(OsFailure(IsADirectory(target))))
            && (t.Some? && t.value.File? && !t.value.readable ==>
                  ReadDoc(cfg, docs, path, offset, limit) == Raise(OsFailure(PermissionDenied(target))))
  {
  }

  // ------------------------------------------------ search_docs

  /** The text `search_docs` returns: the formatted results, or the error's message. */
  function SearchDocsText(scfg: SearchConfig, extensions: seq<string>, docs: DocsTree, query: string): string {
    match SearchSpec(scfg, extensions, docs, query)
    case Success(rs) => FormattedResults(rs)
    case Failure(e) => Message(e)
  }

  /** `search_docs`. */
  method SearchDocs(scfg: SearchConfig, extensions: seq<string>, docs: DocsTree, query: string) returns (text: string)
    ensures text == SearchDocsText(scfg, extensions, docs, query)
  {
    var r := Search(scfg, extensions, docs, query);
    if r.Failure? {
      return Message(r.error);
    }
    text := FormatResults(r.value);
  }

  /** A missing root and an empty query are reported as text, in that order. */
  lemma SearchDocsErrors(scfg: SearchConfig, extensions: seq<string>, docs: DocsTree, query: string)
    ensures !docs.present ==> SearchDocsText(scfg, extensions, docs, query) == NOT_AVAILABLE_MESSAGE
    ensures docs.present && query == "" ==> SearchDocsText(scfg, extensions, docs, query) == EMPTY_QUERY_MESSAGE
  {
  }

  // ------------------------------------------------ list_docs_map

  /** The lines of the documentation map: the root's name with "/", then its tree. */
  function DocsMapLines(cfg: StorageConfig, docs: DocsTree): seq<string> {
    [BaseName(cfg.docsDir) + "/"] + TreeLines(Top(cfg.docsDir, docs), "")
  }

  function DocsMapText(cfg: StorageConfig, docs: DocsTree): string {
    if !docs.present then NOT_AVAILABLE_MESSAGE else Join(DocsMapLines(cfg, docs), "\n")
  }

  /** `list_docs_map`. */
  method ListDocsMap(cfg: StorageConfig, docs: DocsTree) returns (text: string)
    ensures text == DocsMapText(cfg, docs)
  {
    if !docs.present {
      return NOT_AVAILABLE_MESSAGE;
    }
    var tree := BuildTree(Top(cfg.docsDir, docs), "", true);
    var lines := [BaseName(cfg.docsDir) + "/"] + tree;
    return Join(lines, "\n");
  }

  /** The map has a header line and one line per shown entry, each entry
      line opening with a connector or an indent. */
  lemma DocsMapShape(cfg: StorageConfig, docs: DocsTree)
    ensures DocsMapLines(cfg, docs)[0] == BaseName(cfg.docsDir) + "/"
    ensures |DocsMapLines(cfg, docs)| == 1 + CountVisible(Top(cfg.docsDir, docs))
    ensures forall k :: 1 <= k < |DocsMapLines(cfg, docs)| ==> WellFormedLine(DocsMapLines(cfg, docs)[k], "")
  {
    var lines := DocsMapLines(cfg, docs);
    var tree := TreeLines(Top(cfg.docsDir, docs), "");
    TreeLinesCount(Top(cfg.docsDir, docs), "");
    TreeLinesShape(Top(cfg.docsDir, docs), "");
    forall k | 1 <= k < |lines| ensures WellFormedLine(lines[k], "") {
      assert lines[k] == tree[k - 1];
    }
  }

  // ------------------------------------------------ sync_docs

  /** The lines reported for one repository. */
  function SyncBlock(r: SyncResult): seq<string> {
    ["\n--- Syncing " + r.repoName + " ---"]
    + (if r.success && r.wasCloned then ["Cloning " + r.repoName + "..."]
       else if r.success && r.wasUpdated then ["Updating " + r.repoName + "..."]
       else [])
    + [r.message]
  }

  function SyncLines(results: seq<SyncResult>): seq<string>
    decreases |results|
  {
    if results == [] then [] else SyncLines(results[..|results| - 1]) + SyncBlock(results[|results| - 1])
  }

  /** The text `sync_docs` returns. */
  function SyncText(results: seq<SyncResult>, outdated: bool): string {
    Join(SyncLines(results) + (if outdated then [] else [UP_TO_DATE]), "\n")
  }

  /** The repositories that announce a clone or an update. */
  function Announced(results: seq<SyncResult>): nat
    decreases |results|
  {
    if results == [] then 0
    else
      var r := results[|results| - 1];
      Announced(results[..|results| - 1]) + (if r.success && (r.wasCloned || r.wasUpdated) then 1 else 0)
  }

  /** Each repository gets a header line and its message, plus one line
      when it was cloned or updated. */
  lemma {:induction false} SyncLinesCount(results: seq<SyncResult>)
    ensures |SyncLines(results)| == 2 * |results| + Announced(results)
    ensures Announced(results) <= |results|
    decreases |results|
  {
    if results != [] {
      SyncLinesCount(results[..|results| - 1]);
    }
  }

  /** The closing "up to date" line appears when the documentation is not outdated after the sync. */
  lemma SyncTextUpToDate(results: seq<SyncResult>)
    ensures EndsWith(SyncText(results, false), UP_TO_DATE)
    ensures results == [] ==> SyncText(results, false) == UP_TO_DATE && SyncText(results, true) == ""
  {
    var lines := SyncLines(results);
    if lines == [] {
      assert lines + [UP_TO_DATE] == [UP_TO_DATE];
    } else {
      JoinSnoc(lines, UP_TO_DATE, "\n");
      ConcatEnds(Join(lines, "\n") + "\n", UP_TO_DATE);
    }
  }

  // ------------------------------------------------ the server

  /** The server's mutable state: whether the documentation is known to be
      outdated, which changes the sync tool's description. The storage and
      search settings are the defaults, fixed at start-up. */
  class Server {
    var docsOutdated: bool
    const storage: StorageConfig
    const search: SearchConfig

    constructor (docsDir: seq<string>)
      ensures storage == DefaultStorageConfig(docsDir) && search == DefaultSearchConfig()
      ensures !docsOutdated
    {
      storage := DefaultStorageConfig(docsDir);
      search := DefaultSearchConfig();
      docsOutdated := false;
    }

    /** `main`: the outdated check at start-up sets the flag. */
    method Start(outdated: bool)
      modifies this
      ensures docsOutdated == outdated
    {
      docsOutdated := outdated;
    }

    /** The sync tool's description: marked as recommended exactly while the documentation is outdated. */
    function SyncToolDescription(): (d: string)
      reads this
      ensures StartsWith(d, SYNC_DESCRIPTION)
      ensures docsOutdated <==> d != SYNC_DESCRIPTION
    {
      ConcatEnds(SYNC_DESCRIPTION, OUTDATED_NOTE);
      if docsOutdated then SYNC_DESCRIPTION + OUTDATED_NOTE else SYNC_DESCRIPTION
    }

    /** `handle_list_tools`: the four tools, in order. */
    function ListTools(): (ts: seq<Tool>)
      reads this
      ensures |ts| == |TOOL_NAMES| && forall k :: 0 <= k < |ts| ==> ts[k].name == TOOL_NAMES[k]
      ensures ts[3].description == SyncToolDescription()
    {
      [Tool(SEARCH_TOOL, SEARCH_DESCRIPTION), Tool(READ_TOOL, ReadDescription()), Tool(MAP_TOOL, MAP_DESCRIPTION),
       Tool(SYNC_TOOL, SyncToolDescription())]
    }

    /** `sync_docs`: reports each repository's outcome, records whether the
      documentation is still outdated, and closes with the "up to date" line
      when it is not. */
    method SyncDocs(results: seq<SyncResult>, outdated: bool) returns (text: string)
      modifies this
      ensures docsOutdated == outdated
      ensures text == SyncText(results, outdated)
    {
      var outputLines := [];
      var i := 0;
      while i < |results|
        invariant 0 <= i <= |results|
        invariant outputLines == SyncLines(results[..i])
      {
        var result := results[i];
        var block := ["\n--- Syncing " + result.repoName + " ---"];
        if result.success {
          if result.wasCloned {
            block := block + ["Cloning " + result.repoName + "..."];
          } else if result.wasUpdated {
            block := block + ["Updating " + result.repoName + "..."];
          }
          block := block + [result.message];
        } else {
          block := block + [result.message];
        }
        assert block == SyncBlock(result);
        assert results[..i + 1][..i] == results[..i];
        assert SyncLines(results[..i + 1]) == SyncLines(results[..i]) + SyncBlock(result);
        outputLines := outputLines + block;
        i := i + 1;
      }
      assert results[..i] == results;
      docsOutdated := outdated;
      if !docsOutdated {
        outputLines := outputLines + [UP_TO_DATE];
      } else {
        assert outputLines + [] == outputLines;
      }
      return Join(outputLines, "\n");
    }

    /** `handle_call_tool`: dispatches on the tool name with the arguments'
      defaults; an unknown name raises `ValueError`. Only the sync tool
      changes the outdated flag. */
    method CallTool(name: string, args: Args, docs: DocsTree, syncResults: seq<SyncResult>, outdated: bool) returns (o: Outcome)
      modifies this
      ensures name != SYNC_TOOL ==> docsOutdated == old(docsOutdated)
      ensures name == SEARCH_TOOL ==> o == Text(SearchDocsText(search, storage.supportedExtensions, docs, GetOr(args.query, "")))
      ensures name == READ_TOOL ==> o == ReadDoc(storage, docs, GetOr(args.path, ""), GetOr(args.offset, 0), GetOr(args.limit, MAX_FILE_CHARS))
      ensures name == MAP_TOOL ==> o == Text(DocsMapText(storage, docs))
      ensures name == SYNC_TOOL ==> o == Text(SyncText(syncResults, outdated)) && docsOutdated == outdated
      ensures name !in TOOL_NAMES ==> o == Raise(ValueError(UNKNOWN_TOOL + name))
      ensures o.Raise? && o.error.ValueError? <==> name !in TOOL_NAMES
    {
      if name == SEARCH_TOOL {
        var text := SearchDocs(search, storage.supportedExtensions, docs, GetOr(args.query, ""));
        o := Text(text);
      } else if name == READ_TOOL {
        o := ReadDoc(storage, docs, GetOr(args.path, ""), GetOr(args.offset, 0), GetOr(args.limit, MAX_FILE_CHARS));
      } else if name == MAP_TOOL {
        var text := ListDocsMap(storage, docs);
        o := Text(text);
      } else if name == SYNC_TOOL {
        var text := SyncDocs(syncResults, outdated);
        o := Text(text);
      } else {
        o := Raise(ValueError(UNKNOWN_TOOL + name));
      }
    }
  }
}
