/** The filesystem below the documentation root, as the server sees it.
    A directory lists its entries in the order the operating system returns
    them (the order of `os.scandir`, `Path.iterdir` and `os.walk`); an entry
    that the process may not open or list is marked unreadable. Symbolic
    links are not modelled. */
module FileTree {
  import opened Text
  import opened Results

  datatype Entry =
    | File(name: string, readable: bool, content: string)
    | Dir(name: string, readable: bool, children: seq<Entry>)

  /** What is on disk at the documentation root: whether it exists, whether
      it can be listed, and its entries. */
  datatype DocsTree = DocsTree(present: bool, readable: bool, children: seq<Entry>)

  /** `Path(...).name` of an absolute path: its last segment, "" for "/". */
  function BaseName(path: seq<string>): string {
    if path == [] then "" else path[|path| - 1]
  }

  /** The root as a directory entry named after the last segment of its path. */
  function Top(docsDir: seq<string>, docs: DocsTree): (d: Entry)
    ensures d.Dir? && d.children == docs.children && d.readable == docs.readable
  {
    Dir(BaseName(docsDir), docs.readable, docs.children)
  }

  /** `str(path)` of a relative path: its segments joined by "/". */
  function PathString(rel: seq<string>): string {
    Join(rel, "/")
  }

  /** One file as `os.walk` reports it: the directory it was found in
      (relative to the root), its name, and what reading it yields. */
  datatype WalkFile = WalkFile(dir: seq<string>, name: string, readable: bool, content: string)

  function RelPath(f: WalkFile): seq<string> {
    f.dir + [f.name]
  }

  /** The non-directory entries of `cs`, in listing order, found in `at`. */
  function FilesIn(cs: seq<Entry>, at: seq<string>): (r: seq<WalkFile>)
    ensures forall f :: f in r ==> f.dir == at
    decreases |cs|
  {
    if cs == [] then []
    else
      var rest := FilesIn(cs[1..], at);
      if cs[0].File? then [WalkFile(at, cs[0].name, cs[0].readable, cs[0].content)] + rest else rest
  }

  /** The files `os.walk` visits below directory `d`, reached at relative path
      `at`, top-down: first the files of `d` in listing order, then each
      subdirectory in listing order. A directory that cannot be listed
      contributes nothing (the walk's default error handler ignores it). */
  function Walk(d: Entry, at: seq<string>): (r: seq<WalkFile>)
    ensures forall f :: f in r ==> at <= f.dir
    decreases d, 1
  {
    if d.File? || !d.readable then [] else FilesIn(d.children, at) + WalkSubdirs(d, 0, at)
  }

  function WalkSubdirs(d: Entry, i: nat, at: seq<string>): (r: seq<WalkFile>)
    requires d.Dir?
    ensures forall f :: f in r ==> at <= f.dir
    decreases d, 0, |d.children| - i
  {
    if i >= |d.children| then []
    else
      var c := d.children[i];
      (if c.Dir? then Walk(c, at + [c.name]) else []) + WalkSubdirs(d, i + 1, at)
  }

  /** The whole walk of the documentation root, paths relative to the root. */
  function WalkRoot(docs: DocsTree): seq<WalkFile> {
    if docs.present then Walk(Dir("", docs.readable, docs.children), []) else []
  }

  /** `rel` names a file that can be reached from `d` through listable
      directories only; this is the set of files a walk visits. */
  predicate Reaches(d: Entry, rel: seq<string>)
    decreases d
  {
    d.Dir? && d.readable && |rel| >= 1 &&
    if |rel| == 1 then exists i :: 0 <= i < |d.children| && d.children[i].File? && d.children[i].name == rel[0]
    else exists i :: 0 <= i < |d.children| && d.children[i].Dir? && d.children[i].name == rel[0]
                     && Reaches(d.children[i], rel[1..])
  }

  /** Index of the first child called `name`. */
  function FindChild(cs: seq<Entry>, name: string): (r: Option<nat>)
    ensures r.Some? ==> r.value < |cs| && cs[r.value].name == name
    ensures r.Some? ==> forall j :: 0 <= j < r.value ==> cs[j].name != name
    ensures r.None? ==> forall j :: 0 <= j < |cs| ==> cs[j].name != name
    decreases |cs|
  {
    if cs == [] then None
    else if cs[0].name == name then Some(0)
    else match FindChild(cs[1..], name)
      case None => None
      case Some(k) => Some(k + 1)
  }

  /** What the operating system finds at relative path `rel` below `d`:
      the entry itself, or nothing when some segment is missing or a file
      is used as a directory. Looking a name up does not need the directory
      to be listable. */
  function Lookup(d: Entry, rel: seq<string>): Option<Entry>
    decreases d
  {
    if rel == [] then Some(d)
    else if d.File? then None
    else match FindChild(d.children, rel[0])
      case None => None
      case Some(i) => Lookup(d.children[i], rel[1..])
  }

  /** A name a directory entry can have: not empty, not "." or "..", and free of '/'. */
  predicate ValidName(name: string) {
    name != "" && name != "." && name != ".." && forall k :: 0 <= k < |name| ==> name[k] != '/'
  }

  /** Names within each directory below `d` are valid and distinct, as in a real file system. */
  predicate ProperNames(d: Entry)
    decreases d
  {
    d.Dir? ==>
      && (forall i :: 0 <= i < |d.children| ==> ValidName(d.children[i].name))
      && (forall i, j :: 0 <= i < j < |d.children| ==> d.children[i].name != d.children[j].name)
      && (forall i :: 0 <= i < |d.children| ==> ProperNames(d.children[i]))
  }
}
