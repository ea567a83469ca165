# klipper-docs-mcp, modelled in Dafny

This project models the core of klipper-docs-mcp. That is an MCP server that gives an assistant access to a local copy of the Klipper documentation. It has two parts:

- **The storage manager** (`StorageManager`) answers whether the documentation directory exists. It confines every requested path to that directory, reads a file as a window of characters, lists the supported files and draws the directory tree.
- **The search engine** (`SearchEngine`) looks for a query in file names, in Markdown headings and in the running text. It ranks each matching file, picks a snippet, orders the results by rank and caps their number.

Two front ends sit on top of these parts:

- **The MCP server** (`Server`) has resource handlers and four tools: `search_docs`, `read_doc`, `list_docs_map` and `sync_docs`.
- **The standalone command-line server** (`Standalone`) re-implements search, read and tree without the services.

The project is split into these modules:

| module | what it holds |
|---|---|
| `Results` | `Option` and `Result` |
| `Text` | the string operations the code relies on, with Python's semantics: ASCII lower-casing, `strip`, `"\n".join`, `split("/")`, `str(int)`, slicing with clamped bounds |
| `Config` | the configuration constants |
| `Exceptions` | the exception hierarchy and its messages |
| `FileTree` | the file system |
| `EntryOrder` | the ordering of directory entries |
| `StorageManager`, `SearchEngine`, `Server`, `Standalone` | the four components above |

The file system is modelled as a value:

- It is a tree of directories and files.
- Each entry carries a `readable` flag.
- The order of a directory's children is the order in which the operating system lists them.
- `os.walk` is the top-down, files-first traversal `Walk` derived from that tree.
- A path is a sequence of segments. `Path.resolve` is lexical normalisation, and `os.path.commonpath` is the longest common prefix of segments.

Three inputs are not computed by the model and are passed in as parameters:

- the contents of the disk;
- the outcome of synchronising the Git repositories;
- the answer of the "is the copy outdated" check.

Each operation that loops in the source is a method with a loop. It is proved equal to a specification function, and the properties are lemmas about that function. The module-level `_docs_outdated` flag of the server is the one piece of mutable state. It is the field of the `Server.Server` class.

## Model

| member | source | states |
|---|---|---|
| Exceptions.TraversalMessage | klipper_docs_mcp/exceptions.py:21-23 | a path-traversal error's message starts with "Access denied: " and ends with the offending path |
| Exceptions.InvalidPathMessage | klipper_docs_mcp/exceptions.py:29-31 | an invalid-path error's message starts with "Access denied: ", ends with the path, and reads "Access denied: invalid path: p" with the default reason |
| Exceptions.PathMessagesInjective | klipper_docs_mcp/exceptions.py:13-23 | different paths give different not-found and traversal messages |
| Exceptions.GitMessageDetails | klipper_docs_mcp/exceptions.py:44-51 | a Git error's message is the base message exactly when there are no details, and otherwise ends with ": details" |
| EntryOrder.StrLeTotal | klipper_docs_mcp/services/storage_manager.py:138 | the string order used for names is total |
| EntryOrder.StrLeTrans | klipper_docs_mcp/services/storage_manager.py:138 | the string order used for names is transitive |
| EntryOrder.KeyLeTotal | klipper_docs_mcp/services/storage_manager.py:138 | the sort key (directories first, then the lower-cased name) is a total preorder |
| EntryOrder.KeyLeTrans | klipper_docs_mcp/services/storage_manager.py:138 | the sort key is transitive |
| EntryOrder.Insert | klipper_docs_mcp/services/storage_manager.py:138 | inserting one entry adds exactly that entry to the multiset |
| EntryOrder.InsertSorted | klipper_docs_mcp/services/storage_manager.py:138 | inserting into a sorted sequence keeps it sorted by the key |
| EntryOrder.SortEntries | klipper_docs_mcp/services/storage_manager.py:138 | `sorted(..., key=...)` yields a permutation of the entries, ordered by the key |
| EntryOrder.InsertKeyClass | klipper_docs_mcp/services/storage_manager.py:138 | insertion keeps the relative order of the entries that share a sort key |
| EntryOrder.SortEntriesStable | klipper_docs_mcp/services/storage_manager.py:138 | `sorted` is stable: the entries with the same key keep their listing order |
| EntryOrder.Visible | klipper_docs_mcp/services/storage_manager.py:139 | dropping dotted names keeps only entries of the input that are not hidden |
| EntryOrder.VisibleCount | klipper_docs_mcp/services/storage_manager.py:139 | each visible entry keeps its multiplicity and each hidden entry has none |
| EntryOrder.VisiblePermutation | klipper_docs_mcp/services/storage_manager.py:139 | filtering two permutations of each other gives permutations of each other |
| EntryOrder.VisibleSorted | klipper_docs_mcp/services/storage_manager.py:139 | filtering a sorted sequence keeps it sorted |
| EntryOrder.VisibleAppend | klipper_docs_mcp/services/storage_manager.py:139 | the filter distributes over concatenation |
| EntryOrder.VisibleKeyClass | klipper_docs_mcp/services/storage_manager.py:139 | filtering keeps the order of the entries that share a key |
| Text.Lower | klipper_docs_mcp/services/search_engine.py:177 | lower-casing keeps the length and lowers each character in place |
| Text.SubstringOfLowerIff | klipper_docs_mcp/services/search_engine.py:191 | `q.lower() in s.lower()` holds exactly when a case-insensitive occurrence of q exists in s |
| Text.SkipSpacesMeaning | klipper_docs_mcp/services/search_engine.py:76 | the left edge of `strip` skips only whitespace and stops at a non-space or the end |
| Text.TrimEndMeaning | klipper_docs_mcp/services/search_engine.py:76 | the right edge of `strip` cuts only whitespace and stops after a non-space |
| Text.StripMeaning | klipper_docs_mcp/services/search_engine.py:76 | `strip` returns an infix with only whitespace removed around it, and that infix is empty or neither starts nor ends with whitespace |
| Text.JoinSnoc | klipper_docs_mcp/services/search_engine.py:235 | joining one more part appends the separator and the part |
| Text.Split | klipper_docs_mcp/services/storage_manager.py:57 | splitting always yields at least one part |
| Text.JoinSplit | klipper_docs_mcp/services/storage_manager.py:57 | joining the parts of a split with the separator gives back the string |
| Text.SplitNoSep | klipper_docs_mcp/services/storage_manager.py:57 | a string without the separator splits into itself |
| Text.SplitCons | klipper_docs_mcp/services/storage_manager.py:57 | splitting at the first separator peels off the first part |
| Text.SplitJoin | klipper_docs_mcp/services/storage_manager.py:57 | splitting a join of separator-free parts gives back the parts |
| Text.JoinFirstChar | klipper_docs_mcp/server.py:185 | a join starts with the first character of its first part |
| Text.JoinStartsWithFirst | klipper_docs_mcp/server.py:185 | a join starts with its first part |
| Text.NatToString | klipper_docs_mcp/server.py:170 | `str(n)` of a natural number is a non-empty string of decimal digits |
| Text.NatToStringRoundTrip | klipper_docs_mcp/server.py:170 | reading `str(n)` back as decimal digits gives n |
| Text.ClampIndex | klipper_docs_mcp/services/storage_manager.py:97 | a slice bound is clamped into [0, len] and an in-range bound is kept |
| Text.PySliceFrom | klipper_docs_mcp/services/storage_manager.py:97 | `s[start:start+width]` has min(width, len - start) elements, the ones after start |
| Text.PySliceAdjacent | klipper_docs_mcp/services/storage_manager.py:97 | two adjacent slices concatenate to the slice that spans both |
| StorageManager.RequireAvailable | klipper_docs_mcp/services/storage_manager.py:39-42 | the availability check fails exactly when the root is missing, with the "not available" error |
| StorageManager.CommonPath | klipper_docs_mcp/services/storage_manager.py:60 | commonpath is a common prefix of both paths that cannot be extended |
| StorageManager.Normalize | klipper_docs_mcp/services/storage_manager.py:57 | resolution adds at most one segment per path segment, and never produces "", "." or ".." segments from a base that has none |
| StorageManager.Resolve | klipper_docs_mcp/services/storage_manager.py:57 | resolving under a root without "", "." or ".." segments gives a path without them |
| StorageManager.CommonPathIsRootIff | klipper_docs_mcp/services/storage_manager.py:60-62 | commonpath(root, target) equals root exactly when the target lies under the root |
| StorageManager.ValidatePath | klipper_docs_mcp/services/storage_manager.py:44-66 | validation returns the resolved path when it stays under the root, and otherwise the traversal error for the path as given |
| StorageManager.ValidateRootItself | klipper_docs_mcp/services/storage_manager.py:57-66 | "" and "." are accepted and name the root |
| StorageManager.NormalizeWithoutParents | klipper_docs_mcp/services/storage_manager.py:57 | without ".." segments, resolving appends the non-trivial segments |
| StorageManager.NormalizeParents | klipper_docs_mcp/services/storage_manager.py:57 | each ".." removes one segment, never going above "/" |
| StorageManager.RelativePathStaysInside | klipper_docs_mcp/services/storage_manager.py:57-66 | a relative path without ".." is always accepted, as root plus its segments |
| StorageManager.ParentSegmentsEscape | klipper_docs_mcp/services/storage_manager.py:57-62 | a path made only of ".." segments is refused with the traversal error |
| StorageManager.AbsolutePathOutsideRefused | klipper_docs_mcp/services/storage_manager.py:57-62 | an absolute path ignores the root when it is resolved: it is accepted as its own normalised segments when they lie under the root, and refused with the traversal error otherwise |
| StorageManager.ResolveJoined | klipper_docs_mcp/services/storage_manager.py:57 | a relative path written from valid names resolves to root plus those names |
| StorageManager.ReadFile | klipper_docs_mcp/services/storage_manager.py:68-99 | reading fails with "not available" when the root is missing and with the traversal error for an escaping path, and succeeds only on a validated path |
| StorageManager.ReadFileOutcome | klipper_docs_mcp/services/storage_manager.py:87-93 | a missing target gives ResourceNotFound, a directory or unreadable file gives the operating system's error, and a file gives its sliced content and length |
| StorageManager.TotalIndependentOfWindow | klipper_docs_mcp/services/storage_manager.py:95 | the reported total is the file's full length, whatever the offset and limit |
| StorageManager.SliceLength | klipper_docs_mcp/services/storage_manager.py:96-99 | the returned slice has min(limit, total - offset) characters |
| StorageManager.ConsecutivePages | klipper_docs_mcp/services/storage_manager.py:96-99 | a page of a characters followed by the next page of b characters is the page of a + b characters |
| StorageManager.ListFiles | klipper_docs_mcp/services/storage_manager.py:101-120 | listing fails when the root is missing, and otherwise returns the supported files' relative paths in walk order |
| StorageManager.SupportedPathsMember | klipper_docs_mcp/services/storage_manager.py:113-118 | a path is listed exactly when a walked file has that path and a supported extension |
| StorageManager.ListedIff | klipper_docs_mcp/services/storage_manager.py:113-120 | a path is listed exactly when it reaches a file in the tree with a supported extension |
| StorageManager.ListedSound | klipper_docs_mcp/services/storage_manager.py:113-120 | every listed path reaches a file with a supported extension |
| StorageManager.ListedComplete | klipper_docs_mcp/services/storage_manager.py:113-120 | every reachable file with a supported extension is listed |
| StorageManager.WalkSound | klipper_docs_mcp/services/storage_manager.py:113 | every file the walk yields lies below its start and is reachable in the tree |
| StorageManager.WalkComplete | klipper_docs_mcp/services/storage_manager.py:113 | every reachable file is yielded by the walk |
| FileTree.Walk | klipper_docs_mcp/services/storage_manager.py:113 | every file the walk yields was found in a directory below its start |
| StorageManager.LookupWalked | klipper_docs_mcp/services/storage_manager.py:116-117 | with distinct names, looking up a walked file's relative path finds that very file |
| StorageManager.WalkedFileReadBack | klipper_docs_mcp/services/storage_manager.py:68-120 | reading a walked file through its listed path gives its start, or the permission error when it is unreadable |
| StorageManager.Listing | klipper_docs_mcp/services/storage_manager.py:137-141 | the tree lists a directory's visible entries, directories before files, sorted by the key, and nothing for an unreadable directory |
| StorageManager.ListingStable | klipper_docs_mcp/services/storage_manager.py:137-141 | the listed entries that share a sort key appear in the operating system's order |
| StorageManager.BuildEntries | klipper_docs_mcp/services/storage_manager.py:143-152 | the loop over the entries produces exactly the lines the tree specification gives |
| StorageManager.BuildTree | klipper_docs_mcp/services/storage_manager.py:122-154 | `build_tree` produces exactly the specified tree lines |
| StorageManager.CountEntriesPermutation | klipper_docs_mcp/services/storage_manager.py:138 | the number of lines does not depend on the order of the entries |
| StorageManager.TreeLinesCount | klipper_docs_mcp/services/storage_manager.py:137-154 | the tree has one line per visible entry reachable through readable directories |
| StorageManager.TreeLinesShape | klipper_docs_mcp/services/storage_manager.py:143-152 | every tree line is the prefix followed either by a connector "├── " or "└── " and a name, or by a child indent "    " or "│   " |
| StorageManager.TreeLinesEntry | klipper_docs_mcp/services/storage_manager.py:143-152 | each listed entry's line (prefix, "└── " for the last entry and "├── " otherwise, name, "/" for a directory) appears in the tree, followed for a directory by its own tree with the prefix grown by "    " under the last entry and "│   " otherwise |
| SearchEngine.HashRun | klipper_docs_mcp/services/search_engine.py:67-70 | the run of '#' at a position is maximal |
| SearchEngine.LineEnd | klipper_docs_mcp/services/search_engine.py:68 | `$` under MULTILINE is the first newline or the end |
| SearchEngine.LastMatchIn | klipper_docs_mcp/services/search_engine.py:68 | the greedy `.*` settles on the last occurrence of the query in the window, or on none when there is none |
| SearchEngine.HeadingAt | klipper_docs_mcp/services/search_engine.py:67-70 | the pattern matches at a position exactly when it is a line start with one to six '#', then a whitespace character, and the query occurs from the next character to the end of the following line; the match starts there and is non-empty |
| SearchEngine.HeadingSpansFrom | klipper_docs_mcp/services/search_engine.py:73 | finditer's heading spans are in bounds, ordered and do not overlap |
| SearchEngine.FirstSpanEarliest | klipper_docs_mcp/services/search_engine.py:73 | the first heading span starts earliest |
| SearchEngine.HeadingAtMeaning | klipper_docs_mcp/services/search_engine.py:67-70 | a match of the pattern starts at a line start with one to six '#' and a whitespace character, holds the query after them, and ends at a newline or the end |
| SearchEngine.HeadingSpanMeaning | klipper_docs_mcp/services/search_engine.py:67-73 | every span finditer yields is such a match |
| SearchEngine.HeadingSpansComplete | klipper_docs_mcp/services/search_engine.py:67-73 | every position where the pattern matches lies inside some span finditer yields |
| SearchEngine.HeadingLineConsumed | klipper_docs_mcp/services/search_engine.py:67-73 | a match that crosses a line break hides a heading line after it from finditer |
| SearchEngine.HeadingAcrossLineBreak | klipper_docs_mcp/services/search_engine.py:67-70 | because `\s` matches a newline, "#\nfoo" is a heading match for "foo" |
| SearchEngine.OccurrencesFrom | klipper_docs_mcp/services/search_engine.py:97 | finditer's occurrences are case-insensitive matches, ordered and non-overlapping |
| SearchEngine.FirstOccurrenceEarliest | klipper_docs_mcp/services/search_engine.py:97 | the first occurrence is the earliest |
| SearchEngine.OccurrencesComplete | klipper_docs_mcp/services/search_engine.py:97 | if the query occurs at or after a position, the scan from there finds something |
| SearchEngine.HeadingMatches | klipper_docs_mcp/services/search_engine.py:73-77 | one heading match per span, at the span's start, whose snippet is the stripped text from 50 characters before the span to 50 after it |
| SearchEngine.ContentMatchesUnfiltered | klipper_docs_mcp/services/search_engine.py:97-112 | with no heading spans to skip, the k-th occurrence gives the k-th content match |
| SearchEngine.ContentMatchesSound | klipper_docs_mcp/services/search_engine.py:97-112 | every content match is an occurrence outside all heading spans, with its window snippet |
| SearchEngine.ContentMatchesComplete | klipper_docs_mcp/services/search_engine.py:97-112 | every occurrence outside all heading spans gives a content match |
| SearchEngine.ContentMatchesFirst | klipper_docs_mcp/services/search_engine.py:97-112 | when the first occurrence lies outside the headings, it gives the first content match |
| SearchEngine.ContentMatchesStep | klipper_docs_mcp/services/search_engine.py:97-112 | one more occurrence adds at most its own match at the end |
| SearchEngine.ExtractHeadingMatches | klipper_docs_mcp/services/search_engine.py:56-80 | the heading pass returns the finditer spans and one match per span |
| SearchEngine.CollectHeadingMatches | klipper_docs_mcp/services/search_engine.py:73-78 | the loop over the spans builds exactly the specified heading matches |
| SearchEngine.HeadingMatchesStep | klipper_docs_mcp/services/search_engine.py:73-78 | one more span appends its own match |
| SearchEngine.ExtractContentMatches | klipper_docs_mcp/services/search_engine.py:82-114 | the content pass returns exactly the specified content matches |
| SearchEngine.CollectContentMatches | klipper_docs_mcp/services/search_engine.py:97-112 | the loop over the occurrences builds exactly the specified content matches |
| SearchEngine.WithinHeading | klipper_docs_mcp/services/search_engine.py:99-103 | an occurrence is skipped exactly when it lies inside some heading span |
| SearchEngine.DetermineRank | klipper_docs_mcp/services/search_engine.py:116-131 | rank 1 exactly for a file-name match, rank 2 exactly for a heading match without one, and rank 3 otherwise |
| SearchEngine.EarliestIndex | klipper_docs_mcp/services/search_engine.py:143-145 | the stable sort's first match has the smallest position and no match before it shares it |
| SearchEngine.EarliestIsHeadingOnTies | klipper_docs_mcp/services/search_engine.py:143-145 | when a heading and a content match start together, the heading wins |
| SearchEngine.BestSnippet | klipper_docs_mcp/services/search_engine.py:133-151 | the snippet is the earliest match's snippet, or the whole short content, or the first snippet_length characters followed by "..." |
| SearchEngine.HasMatchesIff | klipper_docs_mcp/services/search_engine.py:196-206 | a file has heading or content matches exactly when the query occurs in it |
| SearchEngine.HasMatchesSound | klipper_docs_mcp/services/search_engine.py:196-206 | a file with matches contains the query |
| SearchEngine.HasMatchesComplete | klipper_docs_mcp/services/search_engine.py:196-206 | a file containing the query has matches |
| SearchEngine.FileResultIff | klipper_docs_mcp/services/search_engine.py:181-209 | a walked file yields a result exactly when it is readable, has a supported extension, and matches by name or by content, and the result carries its relative path |
| SearchEngine.FileResult | klipper_docs_mcp/services/search_engine.py:183-212 | a result comes only from a readable file with a supported extension, and carries its relative path |
| SearchEngine.FileRankMeaning | klipper_docs_mcp/services/search_engine.py:191-207 | a result's rank is 1 for a name match, 2 for a heading match, and 3 otherwise |
| SearchEngine.HeadingLineRanksTwo | klipper_docs_mcp/services/search_engine.py:191-207 | a file without the query in its path but with a line the heading pattern matches is ranked 2 |
| SearchEngine.FileResults | klipper_docs_mcp/services/search_engine.py:181-209 | one outcome per walked file, in walk order |
| SearchEngine.CollectResultsStep | klipper_docs_mcp/services/search_engine.py:181-209 | one more walked file appends its result, if any |
| SearchEngine.PresentMember | klipper_docs_mcp/services/search_engine.py:206-209 | a result is collected exactly when some file produced it |
| SearchEngine.SortByRankSorted | klipper_docs_mcp/services/search_engine.py:215 | sorting by rank orders the results by rank |
| SearchEngine.SortByRankPermutation | klipper_docs_mcp/services/search_engine.py:215 | sorting by rank is a permutation |
| SearchEngine.SortByRankStable | klipper_docs_mcp/services/search_engine.py:215 | sorting by rank keeps the walk order within each rank |
| SearchEngine.SortByRank | klipper_docs_mcp/services/search_engine.py:215 | sorting keeps the number of results |
| SearchEngine.Take | klipper_docs_mcp/services/search_engine.py:216-217 | the cap keeps a prefix of at most max_results results, and all of them when they fit |
| SearchEngine.Search | klipper_docs_mcp/services/search_engine.py:153-217 | `search` returns the specified results or the same errors |
| SearchEngine.SearchSpec | klipper_docs_mcp/services/search_engine.py:153-217 | a search succeeds exactly when the root exists and the query is not empty, a missing root is reported first, and at most max_results results come back |
| SearchEngine.SearchFile | klipper_docs_mcp/services/search_engine.py:183-212 | searching one file yields exactly the specified per-file result |
| SearchEngine.SearchSortedAndCapped | klipper_docs_mcp/services/search_engine.py:214-217 | a successful search is sorted by rank and holds at most max_results results |
| SearchEngine.SearchSound | klipper_docs_mcp/services/search_engine.py:153-217 | every returned result is the result of some walked file |
| SearchEngine.SearchComplete | klipper_docs_mcp/services/search_engine.py:153-217 | when nothing is cut, every file's result is returned |
| SearchEngine.ResultBlocks | klipper_docs_mcp/services/search_engine.py:231-233 | one block per result, in order |
| SearchEngine.FormatResults | klipper_docs_mcp/services/search_engine.py:219-235 | the loop produces exactly the specified text |
| SearchEngine.FormattedResultsShape | klipper_docs_mcp/services/search_engine.py:228-235 | no results give the "No results found." text, and otherwise the text starts with the first result's heading, so the two cannot be confused |
| SearchEngine.FormattedResultsSnoc | klipper_docs_mcp/services/search_engine.py:231-235 | one more result appends a newline and its block |
| Server.ResourcesOf | klipper_docs_mcp/server.py:46-55 | one resource per listed path, in order |
| Server.ListResources | klipper_docs_mcp/server.py:38-57 | no resources when the root is missing, and otherwise one per listed file |
| Server.StripFileScheme | klipper_docs_mcp/server.py:63-67 | a leading "file://" is removed, and any other URI is kept |
| Server.ReadResource | klipper_docs_mcp/server.py:60-69 | reading a resource succeeds exactly when reading its path with the defaults does; it then returns the file's first max_file_chars characters with no note, and otherwise the storage error unchanged |
| Server.ResourceUriRoundTrip | klipper_docs_mcp/server.py:46-67 | stripping an announced resource's URI gives its name |
| Server.ResourcesReadable | klipper_docs_mcp/server.py:38-69 | every announced resource reads back as the start of its file, or the permission error |
| Server.ReadDocPage | klipper_docs_mcp/server.py:162-172 | a non-zero limit shows `content[offset:offset+limit]`, plus the pagination note exactly when the window is not the whole file from 0 |
| Server.ReadDoc | klipper_docs_mcp/server.py:162-174 | `read_doc` raises exactly on an operating-system error, and a successful read's text starts with the content read |
| Server.ReadDocWholeFile | klipper_docs_mcp/server.py:168-172 | reading from 0 with a limit covering the file shows the whole file without a note |
| Server.ReadDocZeroLimit | klipper_docs_mcp/server.py:165-170 | a zero limit reads max_file_chars characters, but the note reports a range ending at the offset |
| Server.ReadDocErrors | klipper_docs_mcp/server.py:173-174 | the texts for a missing root, an escaping path and a missing file |
| Server.ReadDocOsErrors | klipper_docs_mcp/server.py:164-174 | a directory or an unreadable file escapes `read_doc` as an operating-system error |
| Server.SearchDocs | klipper_docs_mcp/server.py:152-159 | `search_docs` returns the formatted results or the error's message |
| Server.SearchDocsErrors | klipper_docs_mcp/server.py:154-159 | the texts for a missing root and an empty query |
| Server.ListDocsMap | klipper_docs_mcp/server.py:177-185 | `list_docs_map` returns the "not available" text or the root line followed by the tree |
| Server.DocsMapShape | klipper_docs_mcp/server.py:182-185 | the map starts with "name/", has one more line than the tree, and its other lines are tree lines |
| Server.SyncLinesCount | klipper_docs_mcp/server.py:195-204 | two lines per repository, plus one for each clone or update announced |
| Server.SyncTextUpToDate | klipper_docs_mcp/server.py:206-211 | when not outdated, the text ends with the up-to-date line, and an outdated empty sync gives "" |
| Server.Server.constructor | klipper_docs_mcp/server.py:30-35 | the services get the default configurations, and the outdated flag starts false |
| Server.Server.Start | klipper_docs_mcp/server.py:214-219 | start-up records the outdated check's answer |
| Server.Server.SyncToolDescription | klipper_docs_mcp/server.py:75-77 | the sync tool's description gains a suffix exactly when the copy is outdated |
| Server.Server.ListTools | klipper_docs_mcp/server.py:72-132 | the four tools in order, with the sync tool carrying the current description |
| Server.Server.SyncDocs | klipper_docs_mcp/server.py:188-211 | sync builds the specified report and records the new outdated flag |
| Server.Server.CallTool | klipper_docs_mcp/server.py:135-149 | dispatch to the four tools with the argument defaults, and ValueError exactly for an unknown tool; only sync changes the flag |
| Standalone.StandaloneResults | klipper_docs_mcp/standalone.py:77-117 | one outcome per walked file, in walk order |
| Standalone.SearchDocs | klipper_docs_mcp/standalone.py:66-132 | the standalone search's loop produces the specified text |
| Standalone.SearchText | klipper_docs_mcp/standalone.py:66-132 | a missing root is answered before an empty query, and any text other than the no-results text starts with a result heading |
| Standalone.RankOfMatches | klipper_docs_mcp/standalone.py:103-108 | the rank is 1 for a name match, 2 when there are headings, and 3 otherwise |
| Standalone.EarliestIs | klipper_docs_mcp/standalone.py:110-113 | the stable sort's first element is the first match at the smallest position |
| Standalone.EarliestOfSplit | klipper_docs_mcp/standalone.py:110-113 | the earliest match is the first heading or the first content match, with headings winning ties |
| Standalone.ContentMatchesShape | klipper_docs_mcp/standalone.py:97-101 | the unfiltered content pass has one match per occurrence, the first one first, and both passes only hold body matches at or after the first occurrence |
| Standalone.SameMatchOutcome | klipper_docs_mcp/standalone.py:89-115 | counting content matches inside headings changes neither the rank nor the snippet |
| Standalone.SameMatchOutcomeWithHeadings | klipper_docs_mcp/standalone.py:89-115 | the same holds when the file has headings |
| Standalone.SameOutcome | klipper_docs_mcp/standalone.py:103-115 | with the same headings and the same first content match, the rank and the snippet agree |
| Standalone.SameFileResult | klipper_docs_mcp/standalone.py:77-117 | for every file, the standalone result equals the service's result under the default configuration |
| Standalone.SearchTextAgrees | klipper_docs_mcp/standalone.py:66-132 | the standalone search text equals the service's, except for the no-results text |
| Standalone.NoResultsDiffers | klipper_docs_mcp/standalone.py:125-126 | the standalone no-results text names the query and differs from the service's |
| Standalone.ReadDocText | klipper_docs_mcp/standalone.py:134-162 | the standalone read gives the "not available" text for a missing root and the fixed traversal text for an escaping path |
| Standalone.ReadDocFound | klipper_docs_mcp/standalone.py:151-160 | a readable file shows whole, or as max_file_chars characters plus the truncation note |
| Standalone.ReadDocFailures | klipper_docs_mcp/standalone.py:136-146 | a missing root gives the service's message, and an escaping path a prefix of the service's traversal message without the path |
| Standalone.ReadDocMissingOrUnreadable | klipper_docs_mcp/standalone.py:148-162 | a missing file gives the "File not found" text, and a directory or an unreadable file gives "Error reading file" |
| Standalone.FullTruncationNote | klipper_docs_mcp/standalone.py:155-158 | the truncation note always reads "10000 of 10000" |
| Standalone.TruncationNoteFixed | klipper_docs_mcp/standalone.py:155-160 | a long file is cut to max_file_chars characters and ends with the fixed "10000 of 10000" note |
| Standalone.ListDocsMap | klipper_docs_mcp/standalone.py:164-191 | the standalone tree text equals the server's, starting with the root line |

## Left out

**Not modelled at all:**

- `git_manager.py` is not part of this model: cloning, updating, `sync_all` and `check_if_outdated` run Git processes. `Server.Server.SyncDocs` takes the sync results and the "outdated" answer as parameters. `SyncResult` mirrors the record at klipper_docs_mcp/services/git_manager.py:16-23.
- The standalone server's `check_if_outdated`, `interactive_shell` and `main` (standalone.py) are I/O loops. Its `_docs_outdated` field is set to False in `__init__` (standalone.py:28) and is otherwise written and read only by the left-out `interactive_shell` (standalone.py:212-213), so it is not modelled either.
- The MCP SDK wiring is not modelled: stdio transport, `InitializationOptions`, and the `Resource`, `Tool` and `TextContent` wrappers. Tool input schemas are not modelled either.
- Symbolic links are not modelled. Neither is the `errors="ignore"` UTF-8 decoding: a file's content is given as characters.

**Modelled in a simplified form:**

- **Unreadable entries.** An unreadable file or directory is a flag on the tree. Only `Path.exists` and the two operating-system errors (a directory, no permission) are modelled.
- **Case folding.** `str.lower` is modelled for ASCII letters only. Unicode case folding is not modelled.
- **Unreachable errors.** `InvalidPathError`, and the standalone "Access denied: invalid path" text, cannot arise on POSIX, where `commonpath` of two absolute paths never raises. Their messages are modelled but no path produces them.
- **Argument types.** Configuration values are natural numbers: a negative snippet length or result cap is not modelled. Tool arguments of the wrong JSON type (a non-string path, a null offset) are not modelled.
- Standalone.ReadDocMissingOrUnreadable: the exact text of an `OSError` (its `repr` quoting of the path) is approximated by `OsErrorText`.

**Behaviour of the code that the model keeps:**

- `read_resource` returns the first `max_file_chars` characters and, unlike `read_doc`, adds no truncation note.
- `read_doc` turns only a `KlipperDocsError` into text, so operating-system errors escape it.
- `read_resource` catches nothing: the "not available", traversal and not-found errors and the operating-system errors all escape it.
- The standalone search hard-codes the `.md`/`.txt` extensions and uses the global snippet length and result cap. These equal the service's default configuration, which is what `Standalone.SameFileResult` relies on.
- The standalone `build_tree` (standalone.py:169-188) is the storage manager's `build_tree` (storage_manager.py:136-154) line for line, without the unused `is_last` parameter. `Standalone.ListDocsMap` therefore reuses the server's tree and states that the two texts are equal, rather than modelling a second copy.
- The standalone search also counts occurrences that lie inside a heading match, which the service skips. `Standalone.SameMatchOutcome` shows that this changes neither the rank nor the snippet.
