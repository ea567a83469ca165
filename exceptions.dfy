/** The server's error kinds. In the source each is a subclass of
    `KlipperDocsError`; here they are the constructors of one datatype, so
    every error kind is a `KlipperDocsError` by construction, and `Message`
    is the text `str(e)` yields, which the server hands back to its caller. */
module Exceptions {
  import opened Text

  datatype KlipperDocsError =
    | ResourceNotFound(path: string)
    | PathTraversal(path: string)
    | InvalidPath(path: string, reason: string)
    | DocumentationNotAvailable(message: string)
    | GitOperation(repoName: string, operation: string, details: string)
    | SearchQueryEmpty(message: string)

  const NOT_AVAILABLE_MESSAGE := "Documentation directory not found. Run sync_docs() first."
  const EMPTY_QUERY_MESSAGE := "Please provide a search query."
  const DEFAULT_INVALID_REASON := "invalid path"
  const ACCESS_DENIED := "Access denied: "
  const TRAVERSAL_ATTEMPT := "path traversal attempt"

  /** `DocumentationNotAvailableError()` with its default message. */
  function NotAvailable(): KlipperDocsError {
    DocumentationNotAvailable(NOT_AVAILABLE_MESSAGE)
  }

  /** `SearchQueryEmptyError()` with its default message. */
  function QueryEmpty(): KlipperDocsError {
    SearchQueryEmpty(EMPTY_QUERY_MESSAGE)
  }

  /** `InvalidPathError(path)` with its default reason. */
  function InvalidPathDefault(path: string): KlipperDocsError {
    InvalidPath(path, DEFAULT_INVALID_REASON)
  }

  function GitBaseMessage(repoName: string, operation: string): string {
    "Git operation '" + operation + "' failed for " + repoName
  }

  /** The message each constructor passes to `Exception.__init__`. */
  function Message(e: KlipperDocsError): string {
    match e
    case ResourceNotFound(p) => "Documentation file not found: " + p
    case PathTraversal(p) => ACCESS_DENIED + TRAVERSAL_ATTEMPT + ": " + p
    case InvalidPath(p, r) => ACCESS_DENIED + r + ": " + p
    case DocumentationNotAvailable(m) => m
    case GitOperation(n, op, d) =>
      if d != "" then GitBaseMessage(n, op) + ": " + d else GitBaseMessage(n, op)
    case SearchQueryEmpty(m) => m
  }

  /** A traversal error starts with "Access denied: " and ends with the path. */
  lemma TraversalMessage(p: string)
    ensures StartsWith(Message(PathTraversal(p)), "Access denied: ")
    ensures EndsWith(Message(PathTraversal(p)), p)
  {
    var m := Message(PathTraversal(p));
    var tail := TRAVERSAL_ATTEMPT + ": ";
    assert m == ACCESS_DENIED + tail + p;
    ConcatEnds(ACCESS_DENIED + tail, p);
    assert m == ACCESS_DENIED + (tail + p);
    ConcatEnds(ACCESS_DENIED, tail + p);
  }

  /** An invalid-path error starts with "Access denied: ", ends with the path,
      and with the default reason reads "Access denied: invalid path: <path>". */
  lemma InvalidPathMessage(p: string, reason: string)
    ensures StartsWith(Message(InvalidPath(p, reason)), "Access denied: ")
    ensures EndsWith(Message(InvalidPath(p, reason)), p)
    ensures Message(InvalidPathDefault(p)) == ACCESS_DENIED + "invalid path" + ": " + p
  {
    var m := Message(InvalidPath(p, reason));
    assert m == ACCESS_DENIED + reason + ": " + p;
    ConcatEnds(ACCESS_DENIED + reason + ": ", p);
    assert m == ACCESS_DENIED + (reason + ": " + p);
    ConcatEnds(ACCESS_DENIED, reason + ": " + p);
  }

  /** Different missing paths give different "not found" messages, and so do
      different traversal attempts: the message determines the path. */
  lemma PathMessagesInjective(p: string, p': string)
    ensures Message(ResourceNotFound(p)) == Message(ResourceNotFound(p')) ==> p == p'
    ensures Message(PathTraversal(p)) == Message(PathTraversal(p')) ==> p == p'
  {
    var a := "Documentation file not found: ";
    var b := ACCESS_DENIED + TRAVERSAL_ATTEMPT + ": ";
    if Message(ResourceNotFound(p)) == Message(ResourceNotFound(p')) {
      assert p == (a + p)[|a|..] && p' == (a + p')[|a|..];
    }
    if Message(PathTraversal(p)) == Message(PathTraversal(p')) {
      assert p == (b + p)[|b|..] && p' == (b + p')[|b|..];
    }
  }

  /** The git failure message carries ": details" exactly when details were given. */
  lemma GitMessageDetails(repoName: string, operation: string, details: string)
    ensures Message(GitOperation(repoName, operation, details)) == GitBaseMessage(repoName, operation)
            <==> details == ""
    ensures details != "" ==> EndsWith(Message(GitOperation(repoName, operation, details)), ": " + details)
  {
    var base := GitBaseMessage(repoName, operation);
    if details != "" {
      assert |Message(GitOperation(repoName, operation, details))| > |base|;
      assert Message(GitOperation(repoName, operation, details)) == base + (": " + details);
      ConcatEnds(base, ": " + details);
    }
  }

  /** The default messages are fixed texts, and an empty-query error is never
      mistaken for a missing documentation directory. */
  lemma DefaultMessages()
    ensures Message(NotAvailable()) == "Documentation directory not found. Run sync_docs() first."
    ensures Message(QueryEmpty()) == "Please provide a search query."
    ensures Message(NotAvailable()) != Message(QueryEmpty())
  {
    assert |Message(NotAvailable())| != |Message(QueryEmpty())|;
  }
}
