/** The standalone server: the same three read-only tools written without the
    service layer, with its own copies of the search, the file reader and the
    tree builder, its documentation root fixed at start-up and the default
    limits (10000 characters, 200-character snippets, 7 results). Its error
    cases are answered with texts of their own. */
module Standalone {
  import opened Text
  import opened Results
  import opened Config
  import opened Exceptions
  import opened FileTree
  import opened StorageManager
  import opened SearchEngine
  import Server

  const TRAVERSAL_DENIED := ACCESS_DENIED + TRAVERSAL_ATTEMPT
  const FILE_NOT_FOUND := "File not found: "
  const MAP_HINT := "\n\nUse list_docs_map() to see available files."
  const READ_ERROR := "Error reading file: "
  const NO_RESULTS_FOR := "No results found for '"
  const NOTE_OPEN := "\n\n[... File truncated: "
  const NOTE_OF := " of "
  const NOTE_CLOSE := " characters shown]"

  // ------------------------------------------------ search_docs

  /** The matches the standalone search collects in one file: the heading
      matches, then a body match for every occurrence of the query, including
      the occurrences that lie within a heading match. */
  function StandaloneMatches(s: string, q: string): seq<Match>
    requires |q| > 0
  {
    HeadingMatches(s, HeadingSpans(s, q)) + ContentMatches(s, q, OccurrencesFrom(s, q, 0), [], SNIPPET_LENGTH)
  }

  /** The result one walked file contributes to the standalone search. */
  function StandaloneFileResult(q: string, f: WalkFile): Option<SearchResult>
    requires |q| > 0
  {
    if !EndsWithAny(f.name, SUPPORTED_EXTENSIONS) || !f.readable then None
    else
      var path := DisplayPath(f);
      var filenameMatch := IsSubstring(Lower(q), Lower(path));
      var all := StandaloneMatches(f.content, q);
      if |all| > 0 || filenameMatch then
        Some(SearchResult(DetermineRank(filenameMatch, all), path, BestSnippet(f.content, all, SNIPPET_LENGTH)))
      else None
  }

  function StandaloneResults(q: string, walk: seq<WalkFile>): (os: seq<Option<SearchResult>>)
    requires |q| > 0
    ensures |os| == |walk|
    ensures forall k :: 0 <= k < |walk| ==> os[k] == StandaloneFileResult(q, walk[k])
  {
    seq(|walk|, k requires 0 <= k < |walk| => StandaloneFileResult(q, walk[k]))
  }

  /** The message for a search without results; it quotes the query. */
  function NoResultsFor(q: string): string {
    NO_RESULTS_FOR + q + "'"
  }

  /** The text the standalone `search_docs(query)` returns. */
  function SearchText(docs: DocsTree, q: string): (r: string)
    ensures !docs.present ==> r == NOT_AVAILABLE_MESSAGE
    ensures docs.present && q == "" ==> r == EMPTY_QUERY_MESSAGE
    ensures docs.present && q != "" && r != NoResultsFor(q) ==> StartsWith(r, "## ")
  {
    if !docs.present then NOT_AVAILABLE_MESSAGE
    else if q == "" then EMPTY_QUERY_MESSAGE
    else
      var rs := Take(SortByRank(Present(StandaloneResults(q, WalkRoot(docs)))), MAX_SEARCH_RESULTS);
      if rs == [] then NoResultsFor(q)
      else
        FormattedResultsShape(rs);
        Join(ResultBlocks(rs), "\n")
  }

  /** The standalone `search_docs`: one pass over the walk, then a stable sort
      by rank, the first seven results and their blocks. */
  method SearchDocs(docs: DocsTree, query: string) returns (text: string)
    ensures text == SearchText(docs, query)
  {
    if !docs.present {
      return NOT_AVAILABLE_MESSAGE;
    }
    if query == "" {
      return EMPTY_QUERY_MESSAGE;
    }
    var walk := WalkRoot(docs);
    var results := [];
    var i := 0;
    while i < |walk|
      invariant 0 <= i <= |walk|
      invariant results == Present(StandaloneResults(query, walk[..i]))
    {
      var f := walk[i];
      assert StandaloneResults(query, walk[..i + 1])[..i] == StandaloneResults(query, walk[..i]);
      if EndsWithAny(f.name, SUPPORTED_EXTENSIONS) && f.readable {
        var relPath := DisplayPath(f);
        var filenameMatch := IsSubstring(Lower(query), Lower(relPath));
        var headingMatches, _ := ExtractHeadingMatches(f.content, query);
        var contentMatches := ExtractContentMatches(f.content, query, [], SNIPPET_LENGTH);
        var matches := headingMatches + contentMatches;
        if |matches| > 0 || filenameMatch {
          var rank := DetermineRank(filenameMatch, matches);
          var snippet := BestSnippet(f.content, matches, SNIPPET_LENGTH);
          results := results + [SearchResult(rank, relPath, snippet)];
        }
      }
      i := i + 1;
    }
    assert walk[..i] == walk;
    var shown := Take(SortByRank(results), MAX_SEARCH_RESULTS);
    if shown == [] {
      return NoResultsFor(query);
    }
    text := FormatResults(shown);
  }

  /** The rank depends only on the filename match and on whether there is a
      heading match, whatever body matches follow the heading matches. */
  lemma RankOfMatches(filenameMatch: bool, hs: seq<Match>, cs: seq<Match>)
    requires forall k :: 0 <= k < |hs| ==> hs[k].kind == Heading
    requires forall m :: m in cs ==> m.kind == Content
    ensures DetermineRank(filenameMatch, hs + cs) == if filenameMatch then 1 else if hs != [] then 2 else 3
  {
    if !filenameMatch && hs != [] {
      assert (hs + cs)[0] in hs + cs;
    }
  }

  /** A match at `k` that is the first one at the smallest position is the
      one `EarliestIndex` picks. */
  lemma EarliestIs(ms: seq<Match>, k: nat)
    requires k < |ms|
    requires forall j :: 0 <= j < |ms| ==> ms[k].pos <= ms[j].pos
    requires forall j :: 0 <= j < k ==> ms[j].pos > ms[k].pos
    ensures EarliestIndex(ms) == k
  {
  }

  /** The best snippet of the heading matches followed by some body matches,
      when every body match lies at or after the first occurrence `o0` and
      either the first heading match comes no later than `o0` (its snippet
      wins) or `o0` comes first and is the first body match (its snippet wins). */
  lemma EarliestOfSplit(hs: seq<Match>, cs: seq<Match>, o0: nat)
    requires forall j :: 0 <= j < |hs| ==> hs[0].pos <= hs[j].pos
    requires forall m :: m in cs ==> o0 <= m.pos
    requires hs != [] || cs != []
    requires hs == [] || o0 < hs[0].pos ==> cs != [] && cs[0].pos == o0
    ensures hs != [] && hs[0].pos <= o0 ==> EarliestIndex(hs + cs) == 0
    ensures hs == [] || o0 < hs[0].pos ==> EarliestIndex(hs + cs) == |hs|
  {
    var all := hs + cs;
    forall j | |hs| <= j < |all| ensures o0 <= all[j].pos {
      assert all[j] == cs[j - |hs|] && cs[j - |hs|] in cs;
    }
    if hs != [] && hs[0].pos <= o0 {
      forall j | 0 <= j < |all| ensures all[0].pos <= all[j].pos {
        if j < |hs| {
          assert all[j] == hs[j];
        }
      }
      EarliestIs(all, 0);
    } else {
      assert all[|hs|] == cs[0];
      forall j | 0 <= j < |hs| ensures all[j].pos > all[|hs|].pos {
        assert all[j] == hs[j];
      }
      EarliestIs(all, |hs|);
    }
  }

  /** The body matches of one file, with or without leaving out the
      occurrences inside heading matches, are all body matches at or after
      the first occurrence; when that occurrence precedes every heading match,
      both lists open with its match. */
  lemma ContentMatchesShape(s: string, q: string, occs: seq<nat>, spans: seq<Span>)
    requires forall j :: 0 <= j < |occs| ==> occs[j] + |q| <= |s|
    requires forall j :: 0 < j < |occs| ==> occs[j - 1] + |q| <= occs[j]
    requires forall j :: 0 <= j < |spans| ==> spans[j].start < spans[j].end
    requires forall j :: 0 < j < |spans| ==> spans[j - 1].end <= spans[j].start
    ensures forall m :: m in ContentMatches(s, q, occs, spans, SNIPPET_LENGTH) ==> m.kind == Content && occs[0] <= m.pos
    ensures forall m :: m in ContentMatches(s, q, occs, [], SNIPPET_LENGTH) ==> m.kind == Content && occs[0] <= m.pos
    ensures |ContentMatches(s, q, occs, [], SNIPPET_LENGTH)| == |occs|
    ensures occs != [] <==> ContentMatches(s, q, occs, [], SNIPPET_LENGTH) != []
    ensures occs != [] ==> ContentMatches(s, q, occs, [], SNIPPET_LENGTH)[0] == ContentMatchAt(s, q, occs[0], SNIPPET_LENGTH)
    ensures occs != [] && (spans == [] || occs[0] < spans[0].start) ==>
              && ContentMatches(s, q, occs, spans, SNIPPET_LENGTH) != []
              && ContentMatches(s, q, occs, spans, SNIPPET_LENGTH)[0] == ContentMatchAt(s, q, occs[0], SNIPPET_LENGTH)
  {
    forall m | m in ContentMatches(s, q, occs, spans, SNIPPET_LENGTH) ensures m.kind == Content && occs[0] <= m.pos {
      ContentMatchesSound(s, q, occs, spans, SNIPPET_LENGTH, m);
      var k :| 0 <= k < |occs| && occs[k] == m.pos;
      FirstOccurrenceEarliest(occs, |q|, k);
    }
    forall m | m in ContentMatches(s, q, occs, [], SNIPPET_LENGTH) ensures m.kind == Content && occs[0] <= m.pos {
      ContentMatchesSound(s, q, occs, [], SNIPPET_LENGTH, m);
      var k :| 0 <= k < |occs| && occs[k] == m.pos;
      FirstOccurrenceEarliest(occs, |q|, k);
    }
    ContentMatchesUnfiltered(s, q, occs, SNIPPET_LENGTH);
    if occs != [] {
      ContentMatchesFirst(s, q, occs, [], SNIPPET_LENGTH);
      if spans == [] || occs[0] < spans[0].start {
        if InsideSome(occs[0], occs[0] + |q|, spans) {
          var k :| 0 <= k < |spans| && occs[0] >= spans[k].start && occs[0] + |q| <= spans[k].end;
          FirstSpanEarliest(spans, k);
          assert false;
        }
        ContentMatchesFirst(s, q, occs, spans, SNIPPET_LENGTH);
      }
    }
  }

  /** The matches the search service collects in one file under the default
      configuration. */
  function ServiceMatches(s: string, q: string): seq<Match>
    requires |q| > 0
  {
    HeadingMatches(s, HeadingSpans(s, q)) + ContentMatches(s, q, OccurrencesFrom(s, q, 0), HeadingSpans(s, q), SNIPPET_LENGTH)
  }

  /** Both match lists are empty together and give the same rank and the same best snippet. */
  predicate SameOutcomeFor(s: string, q: string, filenameMatch: bool)
    requires |q| > 0
  {
    && (|ServiceMatches(s, q)| > 0 <==> |StandaloneMatches(s, q)| > 0)
    && DetermineRank(filenameMatch, ServiceMatches(s, q)) == DetermineRank(filenameMatch, StandaloneMatches(s, q))
    && BestSnippet(s, ServiceMatches(s, q), SNIPPET_LENGTH) == BestSnippet(s, StandaloneMatches(s, q), SNIPPET_LENGTH)
  }

  /** Counting the occurrences within heading matches again changes neither
      whether a file has matches, nor the rank they give, nor the best snippet. */
  lemma SameMatchOutcome(s: string, q: string, filenameMatch: bool)
    requires |q| > 0
    ensures SameOutcomeFor(s, q, filenameMatch)
  {
    var occs := OccurrencesFrom(s, q, 0);
    if occs == [] {
      assert ContentMatches(s, q, occs, HeadingSpans(s, q), SNIPPET_LENGTH) == [];
      assert ContentMatches(s, q, occs, [], SNIPPET_LENGTH) == [];
      assert ServiceMatches(s, q) == StandaloneMatches(s, q);
    } else if HeadingSpans(s, q) == [] {
      assert ServiceMatches(s, q) == StandaloneMatches(s, q);
    } else {
      SameMatchOutcomeWithHeadings(s, q, filenameMatch);
    }
  }

  lemma SameMatchOutcomeWithHeadings(s: string, q: string, filenameMatch: bool)
    requires |q| > 0 && OccurrencesFrom(s, q, 0) != [] && HeadingSpans(s, q) != []
    ensures SameOutcomeFor(s, q, filenameMatch)
  {
    var spans := HeadingSpans(s, q);
    var hs := HeadingMatches(s, spans);
    var occs := OccurrencesFrom(s, q, 0);
    var cf := ContentMatches(s, q, occs, spans, SNIPPET_LENGTH);
    var ca := ContentMatches(s, q, occs, [], SNIPPET_LENGTH);
    ContentMatchesShape(s, q, occs, spans);
    assert hs[0].pos == spans[0].start;
    forall j | 0 <= j < |hs| ensures hs[j].kind == Heading && hs[0].pos <= hs[j].pos {
      FirstSpanEarliest(spans, j);
    }
    assert ca != [] && ca[0].pos == occs[0];
    SameOutcome(s, hs, cf, ca, occs[0], filenameMatch);
    assert ServiceMatches(s, q) == hs + cf;
    assert StandaloneMatches(s, q) == hs + ca;
  }

  /** The heading matches followed by either of two lists of body matches
      give the same rank and the same best snippet, when both lists hold
      body matches at or after `o0` only, and they open with the same match
      at `o0` whenever `o0` precedes the first heading match. */
  lemma SameOutcome(s: string, hs: seq<Match>, cf: seq<Match>, ca: seq<Match>, o0: nat, filenameMatch: bool)
    requires forall j :: 0 <= j < |hs| ==> hs[j].kind == Heading && hs[0].pos <= hs[j].pos
    requires forall m :: m in cf ==> m.kind == Content && o0 <= m.pos
    requires forall m :: m in ca ==> m.kind == Content && o0 <= m.pos
    requires ca != [] && ca[0].pos == o0
    requires hs == [] || o0 < hs[0].pos ==> cf != [] && cf[0] == ca[0]
    ensures |hs + cf| > 0
    ensures DetermineRank(filenameMatch, hs + cf) == DetermineRank(filenameMatch, hs + ca)
    ensures BestSnippet(s, hs + cf, SNIPPET_LENGTH) == BestSnippet(s, hs + ca, SNIPPET_LENGTH)
  {
    RankOfMatches(filenameMatch, hs, cf);
    RankOfMatches(filenameMatch, hs, ca);
    EarliestOfSplit(hs, cf, o0);
    EarliestOfSplit(hs, ca, o0);
    if hs == [] || o0 < hs[0].pos {
      assert (hs + cf)[|hs|] == cf[0];
      assert (hs + ca)[|hs|] == ca[0];
    } else {
      assert (hs + cf)[0] == hs[0] == (hs + ca)[0];
    }
  }

  /** The standalone search reports every file exactly as the search service
      does under the default configuration. */
  lemma SameFileResult(q: string, f: WalkFile)
    requires |q| > 0
    ensures StandaloneFileResult(q, f) == FileResult(DefaultSearchConfig(), SUPPORTED_EXTENSIONS, q, f)
  {
    SameMatchOutcome(f.content, q, IsSubstring(Lower(q), Lower(DisplayPath(f))));
  }

  /** The standalone search text agrees with the server's `search_docs` under
      the default configuration, except that a search without results is
      answered with a message that quotes the query. */
  lemma SearchTextAgrees(docs: DocsTree, q: string)
    ensures var service := SearchSpec(DefaultSearchConfig(), SUPPORTED_EXTENSIONS, docs, q);
            && (service == Success([]) ==> SearchText(docs, q) == NoResultsFor(q))
            && (service != Success([]) ==> SearchText(docs, q) == Server.SearchDocsText(DefaultSearchConfig(), SUPPORTED_EXTENSIONS, docs, q))
  {
    if docs.present && q != "" {
      var walk := WalkRoot(docs);
      forall k | 0 <= k < |walk| ensures StandaloneResults(q, walk)[k] == FileResults(DefaultSearchConfig(), SUPPORTED_EXTENSIONS, q, walk)[k] {
        SameFileResult(q, walk[k]);
      }
      assert StandaloneResults(q, walk) == FileResults(DefaultSearchConfig(), SUPPORTED_EXTENSIONS, q, walk);
    }
  }

  /** The standalone's empty-result message is never the server's. */
  lemma NoResultsDiffers(q: string)
    ensures NoResultsFor(q) != NO_RESULTS
    ensures StartsWith(NoResultsFor(q), NO_RESULTS_FOR) && EndsWith(NoResultsFor(q), q + "'")
  {
    assert NoResultsFor(q)[16] == ' ' && NO_RESULTS[16] == '.';
    ConcatEnds(NO_RESULTS_FOR, q + "'");
    assert NoResultsFor(q) == NO_RESULTS_FOR + (q + "'");
  }

  // ------------------------------------------------ read_doc

  /** The absolute path `str(path)` of a target given by its segments. */
  function AbsolutePath(segs: seq<string>): string {
    "/" + Join(segs, "/")
  }

  /** How an operating-system error reads when formatted: its number, its
      description and the quoted path. */
  function OsErrorText(e: OsError): string {
    match e
    case IsADirectory(p) => "[Errno 21] Is a directory: '" + AbsolutePath(p) + "'"
    case PermissionDenied(p) => "[Errno 13] Permission denied: '" + AbsolutePath(p) + "'"
  }

  /** The note put after a cut text; `shown` is the length after the cut. */
  function TruncationNote(shown: nat): string {
    NOTE_OPEN + NatToString(shown) + NOTE_OF + NatToString(MAX_FILE_CHARS) + NOTE_CLOSE
  }

  /** The text the standalone `read_doc(path)` returns: the whole file, cut
      at `MAX_FILE_CHARS` characters with a note when it is longer; every
      failure, including a read error, becomes a message. */
  function ReadDocText(docsDir: seq<string>, docs: DocsTree, path: string): (r: string)
    ensures !docs.present ==> r == NOT_AVAILABLE_MESSAGE
    ensures docs.present && !(docsDir <= Resolve(docsDir, path)) ==> r == TRAVERSAL_DENIED
  {
    if !docs.present then NOT_AVAILABLE_MESSAGE
    else
      match ValidatePath(docsDir, path)
      case Failure(_) => TRAVERSAL_DENIED
      case Success(target) =>
        match Target(DefaultStorageConfig(docsDir), docs, target)
        case None => FILE_NOT_FOUND + path + MAP_HINT
        case Some(entry) =>
          if entry.Dir? then READ_ERROR + OsErrorText(IsADirectory(target))
          else if !entry.readable then READ_ERROR + OsErrorText(PermissionDenied(target))
          else if |entry.content| > MAX_FILE_CHARS then
            var cut := entry.content[..MAX_FILE_CHARS];
            cut + TruncationNote(|cut|)
          else entry.content
  }

  /** A file the storage service reads successfully under the default
      configuration is shown by the standalone reader as the same text when
      it has at most `MAX_FILE_CHARS` characters, and as the same first
      `MAX_FILE_CHARS` characters followed by the cut note when it is longer. */
  lemma ReadDocFound(docsDir: seq<string>, docs: DocsTree, path: string)
    requires ReadFile(DefaultStorageConfig(docsDir), docs, path, 0, None).Success?
    ensures var (content, total) := ReadFile(DefaultStorageConfig(docsDir), docs, path, 0, None).value;
            && (total <= MAX_FILE_CHARS ==> ReadDocText(docsDir, docs, path) == content)
            && (total > MAX_FILE_CHARS ==> ReadDocText(docsDir, docs, path) == content + TruncationNote(MAX_FILE_CHARS))
  {
    var target := ValidatePath(docsDir, path).value;
    var entry := Target(DefaultStorageConfig(docsDir), docs, target).value;
    if |entry.content| > MAX_FILE_CHARS {
      assert PySlice(entry.content, 0, MAX_FILE_CHARS) == entry.content[..MAX_FILE_CHARS];
    } else {
      assert PySlice(entry.content, 0, MAX_FILE_CHARS) == entry.content;
    }
  }

  /** Each failure of the storage service's `read_file(path)` under the
      default configuration is a message in the standalone reader: the same
      text for a missing root, a prefix of the service's message for an
      escaping path (the standalone one leaves out the path); see
      `ReadDocMissingOrUnreadable` for the rest. */
  lemma ReadDocFailures(docsDir: seq<string>, docs: DocsTree, path: string)
    ensures ReadFile(DefaultStorageConfig(docsDir), docs, path, 0, None) == Failure(Docs(NotAvailable()))
            ==> ReadDocText(docsDir, docs, path) == Message(NotAvailable())
    ensures ReadFile(DefaultStorageConfig(docsDir), docs, path, 0, None) == Failure(Docs(PathTraversal(path)))
            ==> StartsWith(Message(PathTraversal(path)), ReadDocText(docsDir, docs, path))
  {
    if docs.present && ValidatePath(docsDir, path).Failure? {
      assert Message(PathTraversal(path)) == TRAVERSAL_DENIED + (": " + path);
      ConcatEnds(TRAVERSAL_DENIED, ": " + path);
    }
  }

  /** A file missing under the default configuration gets a message of the
      standalone reader's own, and an unreadable target the formatted error. */
  lemma ReadDocMissingOrUnreadable(docsDir: seq<string>, docs: DocsTree, path: string)
    ensures ReadFile(DefaultStorageConfig(docsDir), docs, path, 0, None) == Failure(Docs(ResourceNotFound(path)))
            ==> ReadDocText(docsDir, docs, path) == FILE_NOT_FOUND + path + MAP_HINT
    ensures var r := ReadFile(DefaultStorageConfig(docsDir), docs, path, 0, None);
            r.Failure? && r.error.Os? ==> ReadDocText(docsDir, docs, path) == READ_ERROR + OsErrorText(r.error.os)
  {
  }

  /** The cut note for the default limit reads "10000 of 10000". */
  lemma FullTruncationNote()
    ensures TruncationNote(MAX_FILE_CHARS) == NOTE_OPEN + "10000" + NOTE_OF + "10000" + NOTE_CLOSE
  {
    assert NatToString(1) == "1" && NatToString(10) == "10" && NatToString(100) == "100";
    assert NatToString(1000) == "1000" && NatToString(10000) == "10000";
  }

  /** A cut text always holds `MAX_FILE_CHARS` characters of the file and a
      note reporting 10000 of 10000 characters: it never tells how long the
      file was. */
  lemma TruncationNoteFixed(docsDir: seq<string>, docs: DocsTree, path: string)
    requires ReadFile(DefaultStorageConfig(docsDir), docs, path, 0, None).Success?
    requires ReadFile(DefaultStorageConfig(docsDir), docs, path, 0, None).value.1 > MAX_FILE_CHARS
    ensures EndsWith(ReadDocText(docsDir, docs, path), NOTE_OPEN + "10000" + NOTE_OF + "10000" + NOTE_CLOSE)
    ensures |ReadDocText(docsDir, docs, path)| == MAX_FILE_CHARS + |TruncationNote(MAX_FILE_CHARS)|
  {
    FullTruncationNote();
    ReadDocFound(docsDir, docs, path);
    SliceLength(DefaultStorageConfig(docsDir), docs, path, 0, None);
    ConcatEnds(ReadFile(DefaultStorageConfig(docsDir), docs, path, 0, None).value.0, TruncationNote(MAX_FILE_CHARS));
  }

  // ------------------------------------------------ list_docs_map

  /** The standalone `list_docs_map` builds the same tree as the storage
      service: the root's name, then the sorted, unhidden entries. */
  method ListDocsMap(docsDir: seq<string>, docs: DocsTree) returns (text: string)
    ensures text == Server.DocsMapText(DefaultStorageConfig(docsDir), docs)
    ensures docs.present ==> StartsWith(text, BaseName(docsDir) + "/")
  {
    text := Server.ListDocsMap(DefaultStorageConfig(docsDir), docs);
    if docs.present {
      var lines := Server.DocsMapLines(DefaultStorageConfig(docsDir), docs);
      JoinStartsWithFirst(lines, "\n");
    }
  }
}
