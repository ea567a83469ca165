/** Constants and configuration records of the server (its numeric limits,
    supported extensions and tool description), with their default values. */
module Config {

  const MAX_FILE_CHARS: nat := 10000
  const SNIPPET_LENGTH: nat := 200
  const MAX_SEARCH_RESULTS: nat := 7
  const SUPPORTED_EXTENSIONS: seq<string> := [".md", ".txt"]
  const SYNC_DESCRIPTION := "Sync documentation (Klipper, Moonraker) with remote repositories"

  /** Settings of the search: the snippet window and the result cap. */
  datatype SearchConfig = SearchConfig(snippetLength: nat, maxResults: nat)

  /** Settings of the storage: the documentation root (as the segments of an
      absolute path), the default read size and the extensions served. */
  datatype StorageConfig = StorageConfig(docsDir: seq<string>, maxFileChars: nat, supportedExtensions: seq<string>)

  function DefaultSearchConfig(): SearchConfig {
    SearchConfig(SNIPPET_LENGTH, MAX_SEARCH_RESULTS)
  }

  function DefaultStorageConfig(docsDir: seq<string>): StorageConfig {
    StorageConfig(docsDir, MAX_FILE_CHARS, SUPPORTED_EXTENSIONS)
  }
}
