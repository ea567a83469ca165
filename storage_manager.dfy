/** The storage side of the server: confining caller-supplied paths to the
    documentation root, paginated reading, listing the supported files and
    rendering the directory tree. The configuration is fixed after start-up,
    so every operation takes it, and the disk contents, as inputs. */
module StorageManager {
  import opened Text
  import opened Results
  import opened Config
  import opened Exceptions
  import opened FileTree
  import opened EntryOrder

  /** Errors the operating system raises while opening a file; they are not
      `KlipperDocsError`s, so the server does not turn them into text. */
  datatype OsError = IsADirectory(path: seq<string>) | PermissionDenied(path: seq<string>)

  /** An exception raised by a storage operation. */
  datatype Failure = Docs(error: KlipperDocsError) | Os(os: OsError)

  /** `require_available`: raises `DocumentationNotAvailableError` exactly when the root is missing. */
  function RequireAvailable(docs: DocsTree): (r: Option<KlipperDocsError>)
    ensures r.None? <==> docs.present
    ensures r.Some? ==> r.value == NotAvailable()
  {
    if docs.present then None else Some(NotAvailable())
  }

  // ---------------------------------------------------------------- paths

  /** One segment of path resolution: "" and "." stay, ".." goes up (the
      filesystem root is its own parent), anything else goes down. */
  function Step(base: seq<string>, seg: string): seq<string> {
    if seg == "" || seg == "." then base
    else if seg == ".." then (if base == [] then [] else base[..|base| - 1])
    else base + [seg]
  }

  /** No segment of `p` is "", "." or "..": the form of a resolved path. */
  predicate Canonical(p: seq<string>) {
    forall k :: 0 <= k < |p| ==> p[k] != "" && p[k] != "." && p[k] != ".."
  }

  function Normalize(base: seq<string>, segs: seq<string>): (r: seq<string>)
    ensures |r| <= |base| + |segs|
    ensures Canonical(base) ==> Canonical(r)
    decreases |segs|
  {
    if segs == [] then base else Normalize(Step(base, segs[0]), segs[1..])
  }

  /** `(docs_dir / path).resolve()` with symbolic links abstracted away: an
      absolute `path` replaces the root, the rest is resolved segment by segment. */
  function Resolve(root: seq<string>, path: string): (r: seq<string>)
    ensures Canonical(root) ==> Canonical(r)
  {
    Normalize(if StartsWith(path, "/") then [] else root, Split(path, '/'))
  }

  /** `os.path.commonpath([a, b])` on segment lists: the longest common leading part. */
  function CommonPath(a: seq<string>, b: seq<string>): (c: seq<string>)
    ensures c <= a && c <= b
    ensures |c| < |a| && |c| < |b| ==> a[|c|] != b[|c|]
    decreases |a|
  {
    if a == [] || b == [] || a[0] != b[0] then [] else [a[0]] + CommonPath(a[1..], b[1..])
  }

  /** The common path of the root and a target is the root exactly when the
      target lies at or below the root. */
  lemma {:induction false} CommonPathIsRootIff(root: seq<string>, target: seq<string>)
    ensures CommonPath(root, target) == root <==> root <= target
    decreases |root|
  {
    if root != [] && target != [] && root[0] == target[0] {
      CommonPathIsRootIff(root[1..], target[1..]);
      assert root <= target <==> root[1..] <= target[1..];
    }
  }

  /** `validate_path`: the resolved target, or `PathTraversalError(path)` when
      its common path with the root is not the root. (The `InvalidPathError`
      branch needs paths on different drives, which POSIX paths never are.) */
  function ValidatePath(root: seq<string>, path: string): (r: Result<seq<string>, KlipperDocsError>)
    ensures r.Success? ==> r.value == Resolve(root, path) && root <= r.value
    ensures r.Failure? ==> r.error == PathTraversal(path) && !(root <= Resolve(root, path))
  {
    var target := Resolve(root, path);
    CommonPathIsRootIff(root, target);
    if CommonPath(root, target) != root then Failure(PathTraversal(path)) else Success(target)
  }

  /** "" and "." designate the root itself. */
  lemma ValidateRootItself(root: seq<string>)
    ensures ValidatePath(root, "") == Success(root)
    ensures ValidatePath(root, ".") == Success(root)
  {
    assert Split("", '/') == [""];
    var rest := Split("."[1..], '/');
    assert "."[1..] == "" && rest == [""];
    assert ['.'] + rest[0] == "." && rest[1..] == [];
    assert Split(".", '/') == [['.'] + rest[0]] + rest[1..];
    assert Normalize(root, [""]) == root;
    assert Normalize(root, ["."]) == root;
  }

  /** The segments that move down: everything but "", "." (and ".."). */
  function Descents(segs: seq<string>): seq<string>
    decreases |segs|
  {
    if segs == [] then []
    else (if segs[0] == "" || segs[0] == "." || segs[0] == ".." then [] else [segs[0]]) + Descents(segs[1..])
  }

  lemma {:induction false} NormalizeWithoutParents(base: seq<string>, segs: seq<string>)
    requires forall k :: 0 <= k < |segs| ==> segs[k] != ".."
    ensures Normalize(base, segs) == base + Descents(segs)
    decreases |segs|
  {
    if segs != [] {
      var d := Descents(segs[1..]);
      NormalizeWithoutParents(Step(base, segs[0]), segs[1..]);
      if segs[0] == "" || segs[0] == "." {
        assert Descents(segs) == d;
      } else {
        assert Descents(segs) == [segs[0]] + d;
        assert base + ([segs[0]] + d) == (base + [segs[0]]) + d;
      }
    }
  }

  /** A relative path without ".." segments never escapes: it resolves to
      the root followed by its proper segments. */
  lemma RelativePathStaysInside(root: seq<string>, path: string)
    requires !StartsWith(path, "/")
    requires forall k :: 0 <= k < |Split(path, '/')| ==> Split(path, '/')[k] != ".."
    ensures ValidatePath(root, path) == Success(root + Descents(Split(path, '/')))
  {
    NormalizeWithoutParents(root, Split(path, '/'));
  }

  lemma {:induction false} NormalizeParents(base: seq<string>, segs: seq<string>)
    requires forall k :: 0 <= k < |segs| ==> segs[k] == ".."
    ensures Normalize(base, segs) == base[..if |segs| <= |base| then |base| - |segs| else 0]
    decreases |segs|
  {
    if segs != [] {
      NormalizeParents(Step(base, segs[0]), segs[1..]);
    }
  }

  /** Climbing out with ".." segments alone is refused below any non-root
      directory: `../..` resolves above the root. */
  lemma ParentSegmentsEscape(root: seq<string>, path: string)
    requires root != []
    requires !StartsWith(path, "/")
    requires forall k :: 0 <= k < |Split(path, '/')| ==> Split(path, '/')[k] == ".."
    ensures ValidatePath(root, path) == Failure(PathTraversal(path))
  {
    NormalizeParents(root, Split(path, '/'));
  }

  /** An absolute path outside the root is refused, whatever it names. */
  lemma AbsolutePathOutsideRefused(root: seq<string>, path: string)
    requires StartsWith(path, "/")
    ensures var target := Normalize([], Split(path, '/'));
            ValidatePath(root, path) == if root <= target then Success(target) else Failure(PathTraversal(path))
  {
  }

  // ---------------------------------------------------------------- reading

  /** `limit or max_file_chars`: a missing or zero limit means the default. */
  function EffectiveLimit(limit: Option<int>, maxFileChars: nat): (l: int)
    ensures limit.None? || limit.value == 0 ==> l == maxFileChars
    ensures limit.Some? && limit.value != 0 ==> l == limit.value
  {
    if limit.None? || limit.value == 0 then maxFileChars else limit.value
  }

  /** What the operating system finds at the validated target of `path`. */
  function Target(cfg: StorageConfig, docs: DocsTree, target: seq<string>): Option<Entry>
    requires cfg.docsDir <= target
  {
    Lookup(Top(cfg.docsDir, docs), target[|cfg.docsDir|..])
  }

  /** `read_file(path, offset, limit)`: the slice `content[offset:offset+limit]`
      of the whole decoded file and the file's full length. The root is checked
      before the path, the path before the file's existence. */
  function ReadFile(cfg: StorageConfig, docs: DocsTree, path: string, offset: int, limit: Option<int>): (r: Result<(string, nat), Failure>)
    ensures !docs.present ==> r == Failure(Docs(NotAvailable()))
    ensures docs.present && ValidatePath(cfg.docsDir, path).Failure? ==> r == Failure(Docs(PathTraversal(path)))
    ensures r.Success? ==> ValidatePath(cfg.docsDir, path).Success?
  {
    if !docs.present then Failure(Docs(NotAvailable()))
    else
      var lim := EffectiveLimit(limit, cfg.maxFileChars);
      match ValidatePath(cfg.docsDir, path)
      case Failure(e) => Failure(Docs(e))
      case Success(target) =>
        match Target(cfg, docs, target)
        case None => Failure(Docs(ResourceNotFound(path)))
        case Some(entry) =>
          if entry.Dir? then Failure(Os(IsADirectory(target)))
          else if !entry.readable then Failure(Os(PermissionDenied(target)))
          else Success((PySlice(entry.content, offset, offset + lim), |entry.content|))
  }

  /** A read succeeds exactly on a readable file inside the root; it is not
      found exactly when nothing exists at the validated target. */
  lemma ReadFileOutcome(cfg: StorageConfig, docs: DocsTree, path: string, offset: int, limit: Option<int>)
    requires docs.present && ValidatePath(cfg.docsDir, path).Success?
    ensures var t := Target(cfg, docs, ValidatePath(cfg.docsDir, path).value);
            && (ReadFile(cfg, docs, path, offset, limit) == Failure(Docs(ResourceNotFound(path))) <==> t.None?)
            && (ReadFile(cfg, docs, path, offset, limit).Success? <==> t.Some? && t.value.File? && t.value.readable)
  {
  }

  /** The reported total is the length of the whole file, whatever the
      offset and limit of the request. */
  lemma TotalIndependentOfWindow(cfg: StorageConfig, docs: DocsTree, path: string,
                                 o1: int, l1: Option<int>, o2: int, l2: Option<int>)
    requires ReadFile(cfg, docs, path, o1, l1).Success?
    ensures ReadFile(cfg, docs, path, o2, l2).Success?
    ensures ReadFile(cfg, docs, path, o1, l1).value.1 == ReadFile(cfg, docs, path, o2, l2).value.1
    ensures var t := Target(cfg, docs, ValidatePath(cfg.docsDir, path).value);
            ReadFile(cfg, docs, path, o1, l1).value.1 == |t.value.content|
  {
  }

  /** With a non-negative offset and limit, the slice holds exactly
      `max(0, min(limit, total - offset))` characters, taken from `offset` on. */
  lemma SliceLength(cfg: StorageConfig, docs: DocsTree, path: string, offset: int, limit: Option<int>)
    requires ReadFile(cfg, docs, path, offset, limit).Success?
    requires offset >= 0 && EffectiveLimit(limit, cfg.maxFileChars) >= 0
    ensures var (slice, total) := ReadFile(cfg, docs, path, offset, limit).value;
            var lim := EffectiveLimit(limit, cfg.maxFileChars);
            |slice| == (if offset >= total then 0 else if lim < total - offset then lim else total - offset)
  {
    var t := Target(cfg, docs, ValidatePath(cfg.docsDir, path).value);
    PySliceFrom(t.value.content, offset, EffectiveLimit(limit, cfg.maxFileChars));
  }

  /** The content of the file a successful read found. */
  function FoundContent(cfg: StorageConfig, docs: DocsTree, path: string): string
    requires docs.present && ValidatePath(cfg.docsDir, path).Success?
    requires var t := Target(cfg, docs, ValidatePath(cfg.docsDir, path).value); t.Some? && t.value.File?
  {
    Target(cfg, docs, ValidatePath(cfg.docsDir, path).value).value.content
  }

  lemma ReadFileValue(cfg: StorageConfig, docs: DocsTree, path: string, offset: int, limit: Option<int>)
    requires ReadFile(cfg, docs, path, offset, limit).Success?
    ensures forall o: int, l: Option<int> {:trigger ReadFile(cfg, docs, path, o, l)} ::
              ReadFile(cfg, docs, path, o, l)
              == Success((PySlice(FoundContent(cfg, docs, path), o, o + EffectiveLimit(l, cfg.maxFileChars)), |FoundContent(cfg, docs, path)|))
  {
  }

  /** Paging is lossless: reading `a` characters at `offset` and then `b` more
      right after gives the same text as reading `a + b` at once. */
  lemma ConsecutivePages(cfg: StorageConfig, docs: DocsTree, path: string, offset: nat, a: nat, b: nat)
    requires 0 < a && 0 < b
    requires ReadFile(cfg, docs, path, offset, Some(a)).Success?
    ensures ReadFile(cfg, docs, path, offset + a, Some(b)).Success?
    ensures ReadFile(cfg, docs, path, offset, Some(a + b)).Success?
    ensures ReadFile(cfg, docs, path, offset, Some(a)).value.0 + ReadFile(cfg, docs, path, offset + a, Some(b)).value.0
            == ReadFile(cfg, docs, path, offset, Some(a + b)).value.0
  {
    ReadFileValue(cfg, docs, path, offset, Some(a));
    var c := FoundContent(cfg, docs, path);
    var m := cfg.maxFileChars;
    assert EffectiveLimit(Some(a), m) == a && EffectiveLimit(Some(b), m) == b && EffectiveLimit(Some(a + b), m) == a + b;
    var first, second, whole := ReadFile(cfg, docs, path, offset, Some(a)), ReadFile(cfg, docs, path, offset + a, Some(b)),
                                 ReadFile(cfg, docs, path, offset, Some(a + b));
    assert second == Success((PySlice(c, offset + a, offset + a + b), |c|));
    assert whole == Success((PySlice(c, offset, offset + (a + b)), |c|));
    assert first == Success((PySlice(c, offset, offset + a), |c|));
    PySliceAdjacent(c, offset, a, b);
  }

  // ---------------------------------------------------------------- listing

  /** The relative paths of the walked files whose names end in a supported
      extension, in walk order. */
  function SupportedPaths(walk: seq<WalkFile>, extensions: seq<string>): seq<seq<string>>
    decreases |walk|
  {
    if walk == [] then []
    else
      var f := walk[|walk| - 1];
      SupportedPaths(walk[..|walk| - 1], extensions) + (if EndsWithAny(f.name, extensions) then [RelPath(f)] else [])
  }

  /** `list_files`: every file the walk of the root visits whose name ends
      in a supported extension, as a root-relative path, in walk order. */
  method ListFiles(cfg: StorageConfig, docs: DocsTree) returns (r: Result<seq<seq<string>>, KlipperDocsError>)
    ensures !docs.present ==> r == Failure(NotAvailable())
    ensures docs.present ==> r == Success(SupportedPaths(WalkRoot(docs), cfg.supportedExtensions))
  {
    var missing := RequireAvailable(docs);
    if missing.Some? {
      return Failure(missing.value);
    }
    var walk := WalkRoot(docs);
    var files := [];
    var i := 0;
    while i < |walk|
      invariant 0 <= i <= |walk|
      invariant files == SupportedPaths(walk[..i], cfg.supportedExtensions)
    {
      assert walk[..i + 1][..i] == walk[..i];
      if EndsWithAny(walk[i].name, cfg.supportedExtensions) {
        files := files + [RelPath(walk[i])];
      }
      i := i + 1;
    }
    assert walk[..i] == walk;
    return Success(files);
  }

  lemma {:induction false} SupportedPathsMember(walk: seq<WalkFile>, extensions: seq<string>, rel: seq<string>)
    ensures rel in SupportedPaths(walk, extensions)
            <==> exists k :: 0 <= k < |walk| && RelPath(walk[k]) == rel && EndsWithAny(walk[k].name, extensions)
    decreases |walk|
  {
    if walk != [] {
      var init := walk[..|walk| - 1];
      SupportedPathsMember(init, extensions, rel);
      if exists k :: 0 <= k < |walk| && RelPath(walk[k]) == rel && EndsWithAny(walk[k].name, extensions) {
        var k :| 0 <= k < |walk| && RelPath(walk[k]) == rel && EndsWithAny(walk[k].name, extensions);
        if k < |walk| - 1 {
          assert init[k] == walk[k];
        }
      }
      if exists k :: 0 <= k < |init| && RelPath(init[k]) == rel && EndsWithAny(init[k].name, extensions) {
        var k :| 0 <= k < |init| && RelPath(init[k]) == rel && EndsWithAny(init[k].name, extensions);
        assert walk[k] == init[k];
      }
    }
  }

  /** `list_files` is exhaustive and exact: a path is listed exactly when it
      leads, through listable directories, to a file with a supported name. */
  lemma ListedIff(docs: DocsTree, extensions: seq<string>, rel: seq<string>)
    requires docs.present
    ensures rel in SupportedPaths(WalkRoot(docs), extensions)
            <==> Reaches(Dir("", docs.readable, docs.children), rel) && EndsWithAny(rel[|rel| - 1], extensions)
  {
    if rel in SupportedPaths(WalkRoot(docs), extensions) {
      ListedSound(docs, extensions, rel);
    }
    if Reaches(Dir("", docs.readable, docs.children), rel) && EndsWithAny(rel[|rel| - 1], extensions) {
      ListedComplete(docs, extensions, rel);
    }
  }

  lemma ListedSound(docs: DocsTree, extensions: seq<string>, rel: seq<string>)
    requires docs.present && rel in SupportedPaths(WalkRoot(docs), extensions)
    ensures Reaches(Dir("", docs.readable, docs.children), rel) && EndsWithAny(rel[|rel| - 1], extensions)
  {
    var w := WalkRoot(docs);
    SupportedPathsMember(w, extensions, rel);
    var k :| 0 <= k < |w| && RelPath(w[k]) == rel && EndsWithAny(w[k].name, extensions);
    WalkSound(Dir("", docs.readable, docs.children), [], w[k]);
    assert RelPath(w[k])[0..] == rel;
  }

  lemma ListedComplete(docs: DocsTree, extensions: seq<string>, rel: seq<string>)
    requires docs.present && Reaches(Dir("", docs.readable, docs.children), rel)
    requires EndsWithAny(rel[|rel| - 1], extensions)
    ensures rel in SupportedPaths(WalkRoot(docs), extensions)
  {
    var w := WalkRoot(docs);
    WalkComplete(Dir("", docs.readable, docs.children), [], rel);
    var f :| f in w && RelPath(f) == [] + rel;
    var k :| 0 <= k < |w| && w[k] == f;
    assert RelPath(f)[|RelPath(f)| - 1] == f.name;
    SupportedPathsMember(w, extensions, rel);
  }

  lemma {:induction false} FilesInSound(cs: seq<Entry>, at: seq<string>, f: WalkFile)
    requires f in FilesIn(cs, at)
    ensures exists i :: 0 <= i < |cs| && cs[i].File? && cs[i].name == f.name
    decreases |cs|
  {
    if !(cs[0].File? && f == WalkFile(at, cs[0].name, cs[0].readable, cs[0].content)) {
      FilesInSound(cs[1..], at, f);
      var i :| 0 <= i < |cs[1..]| && cs[1..][i].File? && cs[1..][i].name == f.name;
      assert cs[i + 1] == cs[1..][i];
    }
  }

  lemma {:induction false} FilesInComplete(cs: seq<Entry>, at: seq<string>, i: nat)
    requires i < |cs| && cs[i].File?
    ensures WalkFile(at, cs[i].name, cs[i].readable, cs[i].content) in FilesIn(cs, at)
    decreases |cs|
  {
    if i > 0 {
      FilesInComplete(cs[1..], at, i - 1);
    }
  }

  lemma {:induction false} SubdirsSound(d: Entry, i: nat, at: seq<string>, f: WalkFile)
    requires d.Dir? && f in WalkSubdirs(d, i, at)
    ensures exists j :: i <= j < |d.children| && d.children[j].Dir?
                        && f in Walk(d.children[j], at + [d.children[j].name])
    decreases |d.children| - i
  {
    var c := d.children[i];
    if !(c.Dir? && f in Walk(c, at + [c.name])) {
      SubdirsSound(d, i + 1, at, f);
    }
  }

  lemma {:induction false} SubdirsComplete(d: Entry, i: nat, j: nat, at: seq<string>, f: WalkFile)
    requires d.Dir? && i <= j < |d.children| && d.children[j].Dir?
    requires f in Walk(d.children[j], at + [d.children[j].name])
    ensures f in WalkSubdirs(d, i, at)
    decreases j - i
  {
    if i < j {
      SubdirsComplete(d, i + 1, j, at, f);
    }
  }

  /** Every walked file lies below the place the walk started and is reachable. */
  lemma {:induction false} WalkSound(d: Entry, at: seq<string>, f: WalkFile)
    requires f in Walk(d, at)
    ensures |f.dir| >= |at| && f.dir[..|at|] == at
    ensures Reaches(d, RelPath(f)[|at|..])
    decreases d
  {
    if f in FilesIn(d.children, at) {
      FilesInSound(d.children, at, f);
      assert RelPath(f)[|at|..] == [f.name];
    } else {
      SubdirsSound(d, 0, at, f);
      var j :| 0 <= j < |d.children| && d.children[j].Dir? && f in Walk(d.children[j], at + [d.children[j].name]);
      var c := d.children[j];
      WalkSound(c, at + [c.name], f);
      WalkSoundBelow(d, at, f, j);
    }
  }

  /** The case of `WalkSound` where the file lies below the sub-directory
      `d.children[j]`, given what holds there. */
  lemma WalkSoundBelow(d: Entry, at: seq<string>, f: WalkFile, j: nat)
    requires d.Dir? && d.readable && j < |d.children| && d.children[j].Dir?
    requires var below := at + [d.children[j].name];
             |f.dir| >= |below| && f.dir[..|below|] == below && Reaches(d.children[j], RelPath(f)[|below|..])
    ensures |f.dir| >= |at| && f.dir[..|at|] == at
    ensures Reaches(d, RelPath(f)[|at|..])
  {
    var c := d.children[j];
    var rel := RelPath(f)[|at|..];
    assert f.dir[..|at|] == (at + [c.name])[..|at|];
    assert f.dir[|at|] == (at + [c.name])[|at|];
    assert rel == [c.name] + RelPath(f)[|at| + 1..];
    assert rel[1..] == RelPath(f)[|at| + 1..];
  }

  /** Every reachable file is walked. */
  lemma {:induction false} WalkComplete(d: Entry, at: seq<string>, rel: seq<string>)
    requires Reaches(d, rel)
    ensures exists f :: f in Walk(d, at) && RelPath(f) == at + rel
    decreases d
  {
    if |rel| == 1 {
      var i :| 0 <= i < |d.children| && d.children[i].File? && d.children[i].name == rel[0];
      FilesInComplete(d.children, at, i);
      var f := WalkFile(at, d.children[i].name, d.children[i].readable, d.children[i].content);
      assert RelPath(f) == at + rel;
    } else {
      var i :| 0 <= i < |d.children| && d.children[i].Dir? && d.children[i].name == rel[0]
               && Reaches(d.children[i], rel[1..]);
      var c := d.children[i];
      WalkComplete(c, at + [c.name], rel[1..]);
      var f :| f in Walk(c, at + [c.name]) && RelPath(f) == at + [c.name] + rel[1..];
      SubdirsComplete(d, 0, i, at, f);
      assert at + [c.name] + rel[1..] == at + rel;
    }
  }

  lemma FindChildUnique(cs: seq<Entry>, i: nat)
    requires i < |cs|
    requires forall a, b :: 0 <= a < b < |cs| ==> cs[a].name != cs[b].name
    ensures FindChild(cs, cs[i].name) == Some(i)
  {
    assert FindChild(cs, cs[i].name).Some?;
  }

  lemma {:induction false} FilesInIndex(cs: seq<Entry>, at: seq<string>, f: WalkFile)
    requires f in FilesIn(cs, at)
    ensures exists i :: 0 <= i < |cs| && cs[i] == File(f.name, f.readable, f.content)
    decreases |cs|
  {
    if !(cs[0].File? && f == WalkFile(at, cs[0].name, cs[0].readable, cs[0].content)) {
      FilesInIndex(cs[1..], at, f);
      var i :| 0 <= i < |cs[1..]| && cs[1..][i] == File(f.name, f.readable, f.content);
      assert cs[i + 1] == cs[1..][i];
    }
  }

  /** In a directory with proper names, looking a walked file up by its
      relative path finds that very file, and every segment of the path is
      a valid name. */
  lemma {:induction false} LookupWalked(d: Entry, at: seq<string>, f: WalkFile)
    requires ProperNames(d) && f in Walk(d, at)
    ensures |f.dir| >= |at| && f.dir[..|at|] == at
    ensures Lookup(d, RelPath(f)[|at|..]) == Some(File(f.name, f.readable, f.content))
    ensures forall k :: |at| <= k < |RelPath(f)| ==> ValidName(RelPath(f)[k])
    decreases d
  {
    WalkSound(d, at, f);
    var rel := RelPath(f)[|at|..];
    if f in FilesIn(d.children, at) {
      LookupWalkedChild(d, at, f);
    } else {
      SubdirsSound(d, 0, at, f);
      var j :| 0 <= j < |d.children| && d.children[j].Dir? && f in Walk(d.children[j], at + [d.children[j].name]);
      var c := d.children[j];
      LookupWalked(c, at + [c.name], f);
      LookupWalkedBelow(d, at, f, j);
    }
  }

  /** The case of `LookupWalked` where the file is a child of the walked directory itself. */
  lemma LookupWalkedChild(d: Entry, at: seq<string>, f: WalkFile)
    requires ProperNames(d) && d.Dir? && f in FilesIn(d.children, at) && f.dir == at
    ensures Lookup(d, RelPath(f)[|at|..]) == Some(File(f.name, f.readable, f.content))
    ensures forall k :: |at| <= k < |RelPath(f)| ==> ValidName(RelPath(f)[k])
  {
    var rel := RelPath(f)[|at|..];
    FilesInIndex(d.children, at, f);
    var i :| 0 <= i < |d.children| && d.children[i] == File(f.name, f.readable, f.content);
    assert rel == [f.name];
    FindChildUnique(d.children, i);
    assert rel[1..] == [];
    forall k | |at| <= k < |RelPath(f)| ensures ValidName(RelPath(f)[k]) {
      assert RelPath(f)[k] == rel[k - |at|] == f.name;
    }
  }

  /** The case of `LookupWalked` where the file lies below the sub-directory
      `d.children[j]`, given what holds there. */
  lemma LookupWalkedBelow(d: Entry, at: seq<string>, f: WalkFile, j: nat)
    requires ProperNames(d) && d.Dir? && j < |d.children| && d.children[j].Dir?
    requires var below := at + [d.children[j].name];
             |f.dir| >= |below| && f.dir[..|below|] == below
             && Lookup(d.children[j], RelPath(f)[|below|..]) == Some(File(f.name, f.readable, f.content))
             && forall k :: |below| <= k < |RelPath(f)| ==> ValidName(RelPath(f)[k])
    ensures |f.dir| >= |at| && f.dir[..|at|] == at
    ensures Lookup(d, RelPath(f)[|at|..]) == Some(File(f.name, f.readable, f.content))
    ensures forall k :: |at| <= k < |RelPath(f)| ==> ValidName(RelPath(f)[k])
  {
    var c := d.children[j];
    var rel := RelPath(f)[|at|..];
    assert f.dir[..|at|] == (at + [c.name])[..|at|];
    assert rel == [c.name] + RelPath(f)[|at| + 1..];
    FindChildUnique(d.children, j);
    assert rel[1..] == RelPath(f)[|at| + 1..];
    forall k | |at| <= k < |RelPath(f)| ensures ValidName(RelPath(f)[k]) {
      if k == |at| {
        assert RelPath(f)[k] == f.dir[k] == (at + [c.name])[k];
      }
    }
  }

  lemma {:induction false} DescentsOfValid(segs: seq<string>)
    requires forall k :: 0 <= k < |segs| ==> ValidName(segs[k])
    ensures Descents(segs) == segs
    decreases |segs|
  {
    if segs != [] {
      DescentsOfValid(segs[1..]);
      assert [segs[0]] + segs[1..] == segs;
    }
  }

  /** A path made of valid names, joined by "/", resolves to those names below the root. */
  lemma ResolveJoined(root: seq<string>, rel: seq<string>)
    requires |rel| >= 1 && forall k :: 0 <= k < |rel| ==> ValidName(rel[k])
    ensures ValidatePath(root, PathString(rel)) == Success(root + rel)
  {
    SplitJoin(rel, '/');
    assert "/" == ['/'];
    JoinFirstChar(rel, "/");
    assert !StartsWith(PathString(rel), "/");
    NormalizeWithoutParents(root, rel);
    DescentsOfValid(rel);
  }

  /** Every file the walk of the root visits can be read back through its
      relative path: the read yields the start of its text and its length,
      or the operating system's refusal when the file cannot be read. */
  lemma WalkedFileReadBack(cfg: StorageConfig, docs: DocsTree, k: nat)
    requires docs.present && ProperNames(Dir("", docs.readable, docs.children))
    requires k < |WalkRoot(docs)|
    ensures var f := WalkRoot(docs)[k];
            ReadFile(cfg, docs, PathString(RelPath(f)), 0, None)
            == if f.readable then Success((PySlice(f.content, 0, cfg.maxFileChars), |f.content|))
               else Failure(Os(PermissionDenied(cfg.docsDir + RelPath(f))))
  {
    var d := Dir("", docs.readable, docs.children);
    var f := WalkRoot(docs)[k];
    LookupWalked(d, [], f);
    var rel := RelPath(f);
    assert rel[0..] == rel;
    ResolveJoined(cfg.docsDir, rel);
    assert (cfg.docsDir + rel)[|cfg.docsDir|..] == rel;
    assert Lookup(Top(cfg.docsDir, docs), rel) == Lookup(d, rel);
  }

  // ---------------------------------------------------------------- tree

  const BRANCH := "├── "
  const LAST_BRANCH := "└── "
  const PIPE_INDENT := "│   "
  const SPACE_INDENT := "    "

  /** The entries `build_tree` shows for directory `d`, in display order:
      sorted (directories first, then by lower-cased name), hidden entries
      dropped; nothing when `d` cannot be listed. */
  function Listing(d: Entry): (es: seq<Entry>)
    requires d.Dir?
    ensures forall e :: e in es ==> e in d.children && !IsHidden(e)
    ensures forall i, j :: 0 <= i < j < |es| ==> KeyLe(es[i], es[j])
    ensures forall i, j :: 0 <= i < j < |es| && es[i].File? ==> es[j].File?
    ensures d.readable ==> multiset(es) == multiset(Visible(d.children))
    ensures !d.readable ==> es == []
  {
    if !d.readable then []
    else
      var sorted := SortEntries(d.children);
      VisibleSorted(sorted);
      VisiblePermutation(sorted, d.children);
      var es := Visible(sorted);
      forall e | e in es ensures e in d.children {
        assert e in multiset(sorted);
      }
      es
  }

  /** Siblings with equal sort keys (such as the files "README.md" and
      "readme.md") are shown in the order the directory lists them: the
      sort is stable and the filter keeps the order. */
  lemma ListingStable(d: Entry, x: Entry)
    requires d.Dir?
    ensures KeyClass(Listing(d), x) == if d.readable then KeyClass(Visible(d.children), x) else []
  {
    if d.readable {
      SortEntriesStable(d.children, x);
      VisibleKeyClass(SortEntries(d.children), x);
      VisibleKeyClass(d.children, x);
    }
  }

  /** The lines `build_tree(d, prefix)` returns. */
  function TreeLines(d: Entry, prefix: string): (r: seq<string>)
    requires d.Dir?
    decreases d, 1
  {
    EntryLines(d, Listing(d), 0, prefix)
  }

  /** The lines of one entry shown with prefix `prefix`: "└── " for the last
      sibling and "├── " otherwise; a directory is marked with "/" and
      followed by its own tree, indented by four spaces under a last sibling
      and by "│   " otherwise. */
  function EntryBlock(e: Entry, last: bool, prefix: string): (r: seq<string>)
    decreases e, 2
  {
    var connector := if last then LAST_BRANCH else BRANCH;
    if e.Dir? then [prefix + connector + e.name + "/"] + TreeLines(e, prefix + (if last then SPACE_INDENT else PIPE_INDENT))
    else [prefix + connector + e.name]
  }

  /** The lines of the entries `es[i..]` of directory `d`. */
  function EntryLines(d: Entry, es: seq<Entry>, i: nat, prefix: string): (r: seq<string>)
    requires d.Dir? && forall e :: e in es ==> e in d.children
    decreases d, 0, |es| - i
  {
    if i >= |es| then []
    else
      assert es[i] in es && es[i] in d.children;
      EntryBlock(es[i], i == |es| - 1, prefix) + EntryLines(d, es, i + 1, prefix)
  }

  lemma EntryLinesStep(d: Entry, es: seq<Entry>, i: nat, prefix: string)
    requires d.Dir? && (forall e :: e in es ==> e in d.children) && i < |es|
    ensures EntryLines(d, es, i, prefix) == EntryBlock(es[i], i == |es| - 1, prefix) + EntryLines(d, es, i + 1, prefix)
  {
  }

  /** `block` occurs in `lines` as consecutive lines from index `j` on. */
  predicate BlockAt(lines: seq<string>, block: seq<string>, j: int) {
    0 <= j <= |lines| - |block| && lines[j..j + |block|] == block
  }

  lemma BlockAtFront(a: seq<string>, b: seq<string>)
    ensures BlockAt(a + b, a, 0)
  {
    assert (a + b)[0..|a|] == a;
  }

  lemma BlockAtBehind(a: seq<string>, b: seq<string>, block: seq<string>, j: int)
    requires BlockAt(b, block, j)
    ensures BlockAt(a + b, block, |a| + j)
  {
    assert (a + b)[|a| + j..|a| + j + |block|] == b[j..j + |block|];
  }

  lemma {:induction false} EntryLinesContain(d: Entry, es: seq<Entry>, k: nat, i: nat, prefix: string, block: seq<string>)
    requires d.Dir? && (forall e :: e in es ==> e in d.children) && k <= i < |es|
    requires block == EntryBlock(es[i], i == |es| - 1, prefix)
    ensures exists j :: BlockAt(EntryLines(d, es, k, prefix), block, j)
    decreases i - k
  {
    var here := EntryBlock(es[k], k == |es| - 1, prefix);
    var rest := EntryLines(d, es, k + 1, prefix);
    assert EntryLines(d, es, k, prefix) == here + rest;
    if k == i {
      BlockAtFront(here, rest);
    } else {
      EntryLinesContain(d, es, k + 1, i, prefix, block);
      var j :| BlockAt(rest, block, j);
      BlockAtBehind(here, rest, block, j);
    }
  }

  /** Each listed entry `e` of `d` gets the line: prefix, "└── " when it is
      the last listed entry and "├── " otherwise, its name, and "/" for a
      directory; a directory's line is followed by the directory's own tree,
      whose prefix grows by four spaces under the last entry and by "│   "
      otherwise. These lines appear together in the tree of `d`. */
  lemma TreeLinesEntry(d: Entry, prefix: string, i: nat, block: seq<string>)
    requires d.Dir? && i < |Listing(d)|
    requires var e, last := Listing(d)[i], i == |Listing(d)| - 1;
             block == [prefix + (if last then LAST_BRANCH else BRANCH) + e.name + (if e.Dir? then "/" else "")]
                      + (if e.Dir? then TreeLines(e, prefix + (if last then SPACE_INDENT else PIPE_INDENT)) else [])
    ensures exists j :: BlockAt(TreeLines(d, prefix), block, j)
  {
    var es := Listing(d);
    var e, last := es[i], i == |es| - 1;
    if !e.Dir? {
      assert prefix + (if last then LAST_BRANCH else BRANCH) + e.name + "" == prefix + (if last then LAST_BRANCH else BRANCH) + e.name;
    }
    assert block == EntryBlock(e, last, prefix);
    EntryLinesContain(d, es, 0, i, prefix, block);
    var j :| BlockAt(EntryLines(d, es, 0, prefix), block, j);
    assert TreeLines(d, prefix) == EntryLines(d, es, 0, prefix);
    assert BlockAt(TreeLines(d, prefix), block, j);
  }

  /** `build_tree(path, prefix, is_last)`: lists `d` (nothing when it
      cannot be listed), then appends the lines of each listed entry.
      (`is_last` is accepted and unused, as in the source.) */
  method BuildTree(d: Entry, prefix: string, isLast: bool) returns (lines: seq<string>)
    requires d.Dir?
    ensures lines == TreeLines(d, prefix)
    decreases d, 1
  {
    if !d.readable {
      return [];
    }
    var entries := Listing(d);
    lines := BuildEntries(d, entries, prefix);
  }

  /** The loop of `build_tree` over the listed entries of `d`: each entry's
      line with its connector and, for a directory, its subtree, built
      recursively with the extended prefix. */
  method BuildEntries(d: Entry, entries: seq<Entry>, prefix: string) returns (lines: seq<string>)
    requires d.Dir? && forall e :: e in entries ==> e in d.children
    ensures lines == EntryLines(d, entries, 0, prefix)
    decreases d, 0
  {
    lines := [];
    var i := 0;
    while i < |entries|
      invariant 0 <= i <= |entries|
      invariant lines + EntryLines(d, entries, i, prefix) == EntryLines(d, entries, 0, prefix)
    {
      var entry := entries[i];
      assert entry in entries && entry in d.children;
      var isLastEntry := i == |entries| - 1;
      var connector := if isLastEntry then LAST_BRANCH else BRANCH;
      var block;
      if entry.Dir? {
        var extension := if isLastEntry then SPACE_INDENT else PIPE_INDENT;
        var sub := BuildTree(entry, prefix + extension, isLastEntry);
        block := [prefix + connector + entry.name + "/"] + sub;
      } else {
        block := [prefix + connector + entry.name];
      }
      assert block == EntryBlock(entry, isLastEntry, prefix);
      EntryLinesStep(d, entries, i, prefix);
      ghost var rest := EntryLines(d, entries, i + 1, prefix);
      assert lines + (block + rest) == (lines + block) + rest;
      lines := lines + block;
      i := i + 1;
    }
  }

  /** One line for the entry and, for a directory, one for every entry shown below it. */
  function Weight(e: Entry): nat
    decreases e, 2
  {
    1 + (if e.Dir? then CountVisible(e) else 0)
  }

  /** How many entries the tree of `d` shows, counted on the unsorted
      listing: every entry not hidden, at every depth, below listable
      directories. */
  function CountVisible(d: Entry): nat
    requires d.Dir?
    decreases d, 1
  {
    if !d.readable then 0 else CountEntries(d, Visible(d.children))
  }

  function CountEntries(d: Entry, es: seq<Entry>): nat
    requires d.Dir? && forall e :: e in es ==> e in d.children
    decreases d, 0, |es|
  {
    if es == [] then 0
    else
      assert es[0] in es && es[0] in d.children;
      Weight(es[0]) + CountEntries(d, es[1..])
  }

  lemma {:induction false} CountEntriesRemove(d: Entry, es: seq<Entry>, k: nat)
    requires d.Dir? && forall e :: e in es ==> e in d.children
    requires k < |es|
    ensures CountEntries(d, es) == Weight(es[k]) + CountEntries(d, es[..k] + es[k + 1..])
    decreases k
  {
    if k > 0 {
      CountEntriesRemove(d, es[1..], k - 1);
      assert es[1..][..k - 1] + es[1..][k..] == (es[..k] + es[k + 1..])[1..];
    } else {
      assert es[..k] + es[k + 1..] == es[1..];
    }
  }

  lemma RemoveMatching<T>(a: seq<T>, b: seq<T>, k: nat)
    requires multiset(a) == multiset(b) && a != [] && k < |b| && b[k] == a[0]
    ensures multiset(a[1..]) == multiset(b[..k] + b[k + 1..])
    ensures forall e :: e in b[..k] + b[k + 1..] ==> e in b
  {
    assert b == b[..k] + [b[k]] + b[k + 1..];
    assert multiset(b) == multiset(b[..k]) + multiset{b[k]} + multiset(b[k + 1..]);
    assert a == [a[0]] + a[1..];
    assert multiset(a) == multiset{a[0]} + multiset(a[1..]);
    assert multiset(b[..k] + b[k + 1..]) == multiset(b[..k]) + multiset(b[k + 1..]);
    assert multiset(a[1..]) == multiset(a) - multiset{a[0]};
    assert multiset(b[..k] + b[k + 1..]) == multiset(b) - multiset{b[k]};
  }

  lemma {:induction false} CountEntriesPermutation(d: Entry, a: seq<Entry>, b: seq<Entry>)
    requires d.Dir? && (forall e :: e in a ==> e in d.children) && (forall e :: e in b ==> e in d.children)
    requires multiset(a) == multiset(b)
    ensures CountEntries(d, a) == CountEntries(d, b)
    decreases |a|
  {
    if a == [] {
      assert |b| == |multiset(b)| == 0;
    } else {
      assert a[0] in multiset(b);
      var k :| 0 <= k < |b| && b[k] == a[0];
      RemoveMatching(a, b, k);
      CountEntriesRemove(d, b, k);
      CountEntriesPermutation(d, a[1..], b[..k] + b[k + 1..]);
    }
  }

  lemma {:induction false} EntryLinesCount(d: Entry, es: seq<Entry>, i: nat, prefix: string)
    requires d.Dir? && forall e :: e in es ==> e in d.children
    requires i <= |es|
    ensures |EntryLines(d, es, i, prefix)| == CountEntries(d, es[i..])
    decreases d, 0, |es| - i
  {
    if i < |es| {
      var e := es[i];
      assert e in es && e in d.children;
      EntryLinesCount(d, es, i + 1, prefix);
      assert es[i..][1..] == es[i + 1..];
      if e.Dir? {
        TreeLinesCount(e, prefix + (if i == |es| - 1 then SPACE_INDENT else PIPE_INDENT));
      }
    }
  }

  /** Every entry the tree shows gets exactly one line: the number of lines
      equals the number of non-hidden entries below listable directories. */
  lemma {:induction false} TreeLinesCount(d: Entry, prefix: string)
    requires d.Dir?
    ensures |TreeLines(d, prefix)| == CountVisible(d)
    decreases d, 1
  {
    if d.readable {
      EntryLinesCount(d, Listing(d), 0, prefix);
      assert Listing(d)[0..] == Listing(d);
      forall e | e in Visible(d.children) ensures e in d.children { }
      CountEntriesPermutation(d, Listing(d), Visible(d.children));
    }
  }

  /** A line of the tree at prefix `p`: `p`, then a connector or an indent. */
  predicate WellFormedLine(line: string, prefix: string) {
    |line| >= |prefix| + 4 && line[..|prefix|] == prefix
    && line[|prefix|..|prefix| + 4] in {BRANCH, LAST_BRANCH, PIPE_INDENT, SPACE_INDENT}
  }

  lemma {:induction false} EntryLinesShape(d: Entry, es: seq<Entry>, i: nat, prefix: string)
    requires d.Dir? && forall e :: e in es ==> e in d.children
    ensures forall line :: line in EntryLines(d, es, i, prefix) ==> WellFormedLine(line, prefix)
    decreases d, 0, |es| - i
  {
    if i < |es| {
      var e := es[i];
      assert e in es && e in d.children;
      var last := i == |es| - 1;
      var connector := if last then LAST_BRANCH else BRANCH;
      assert EntryLines(d, es, i, prefix) == EntryBlock(e, last, prefix) + EntryLines(d, es, i + 1, prefix);
      EntryLinesShape(d, es, i + 1, prefix);
      var own := prefix + connector + e.name + (if e.Dir? then "/" else "");
      assert own[..|prefix|] == prefix && own[|prefix|..|prefix| + 4] == connector;
      if e.Dir? {
        var indent := if last then SPACE_INDENT else PIPE_INDENT;
        TreeLinesShape(e, prefix + indent);
        forall line | line in TreeLines(e, prefix + indent) ensures WellFormedLine(line, prefix) {
          assert line[..|prefix| + 4] == prefix + indent;
          assert line[..|prefix|] == (prefix + indent)[..|prefix|];
          assert line[|prefix|..|prefix| + 4] == (prefix + indent)[|prefix|..];
        }
        assert prefix + connector + e.name + "/" == own;
      } else {
        assert prefix + connector + e.name == own;
      }
    }
  }

  /** Every line of `build_tree(d, prefix)` starts with the prefix followed by
      a connector ("├── ", "└── ") or a child indent ("│   ", four spaces). */
  lemma {:induction false} TreeLinesShape(d: Entry, prefix: string)
    requires d.Dir?
    ensures forall line :: line in TreeLines(d, prefix) ==> WellFormedLine(line, prefix)
    decreases d, 1
  {
    EntryLinesShape(d, Listing(d), 0, prefix);
  }
}
