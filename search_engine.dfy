/** The search engine: case-insensitive search of the supported files under
    the documentation root, ranking filename matches before heading matches
    before body matches, with a context snippet per file. */
module SearchEngine {
  import opened Text
  import opened Results
  import opened Config
  import opened Exceptions
  import opened FileTree

  /** 1: the query is in the file's path; 2: in a Markdown heading; 3: in the body. */
  type Rank = r: int | 1 <= r <= 3 witness 1

  datatype SearchResult = SearchResult(rank: Rank, path: string, snippet: string)

  /** Where a match in a file's text was found. */
  datatype Kind = Heading | Content

  /** A match at position `pos` of a file's text, with its context snippet. */
  datatype Match = Match(pos: nat, kind: Kind, snippet: string)

  /** The characters `[start, end)` of a file's text. */
  datatype Span = Span(start: nat, end: nat)

  /** Characters of context kept on each side of a heading match. */
  const HEADING_CONTEXT: nat := 50

  const NO_RESULTS := "No results found."

  // ------------------------------------------------ the heading pattern

  /** The number of consecutive '#' characters from `p` on. */
  function HashRun(s: string, p: nat): (k: nat)
    requires p <= |s|
    ensures p + k <= |s|
    ensures forall j :: p <= j < p + k ==> s[j] == '#'
    ensures p + k == |s| || s[p + k] != '#'
    decreases |s| - p
  {
    if p < |s| && s[p] == '#' then 1 + HashRun(s, p + 1) else 0
  }

  /** The end of the line that contains position `i`: the next line break, or the end of the text. */
  function LineEnd(s: string, i: nat): (e: nat)
    requires i <= |s|
    ensures i <= e <= |s|
    ensures e == |s| || s[e] == '\n'
    ensures forall j :: i <= j < e ==> s[j] != '\n'
    decreases |s| - i
  {
    if i == |s| || s[i] == '\n' then i else LineEnd(s, i + 1)
  }

  /** Where `^` matches in multi-line mode. */
  predicate LineStart(s: string, p: nat) {
    p == 0 || (p <= |s| && s[p - 1] == '\n')
  }

  /** The last position in `[lo, hi]` where the query occurs case-insensitively. */
  function LastMatchIn(s: string, q: string, lo: nat, hi: nat): (r: Option<nat>)
    ensures r.Some? ==> lo <= r.value <= hi && MatchesAt(s, q, r.value)
                        && forall j :: r.value < j <= hi ==> !MatchesAt(s, q, j)
    ensures r.None? ==> forall j :: lo <= j <= hi ==> !MatchesAt(s, q, j)
    decreases hi
  {
    if hi < lo then None
    else if MatchesAt(s, q, hi) then Some(hi)
    else if hi == lo then None
    else LastMatchIn(s, q, lo, hi - 1)
  }

  /** The match of `^(#{1,6}\s.*QUERY.*)$` (multi-line, ignoring case) that
      starts at `p`, if any. It needs a line start, one to six '#' not
      followed by another '#', and one whitespace character, which may be
      the line break itself; the greedy `.*` then settles on the query's LAST
      case-insensitive occurrence that starts on the following line, and the
      match runs to the end of the line on which that occurrence ends. */
  function HeadingAt(s: string, q: string, p: nat): (r: Option<Span>)
    requires p <= |s|
    ensures r.Some? ==> r.value.start == p < r.value.end <= |s|
    ensures var k := HashRun(s, p);
            r.Some? <==> LineStart(s, p) && 1 <= k <= 6 && p + k < |s| && IsSpace(s[p + k])
                         && exists i :: p + k + 1 <= i <= LineEnd(s, p + k + 1) && MatchesAt(s, q, i)
  {
    var k := HashRun(s, p);
    if !LineStart(s, p) || k < 1 || k > 6 || p + k == |s| || !IsSpace(s[p + k]) then None
    else
      var q0 := p + k + 1;
      match LastMatchIn(s, q, q0, LineEnd(s, q0))
      case None => None
      case Some(i) => Some(Span(p, LineEnd(s, i + |q|)))
  }

  /** `finditer` of the heading pattern from `pos` on: leftmost match first,
      the next search starting where the previous match ended. */
  function HeadingSpansFrom(s: string, q: string, pos: nat): (r: seq<Span>)
    requires pos <= |s|
    ensures forall k :: 0 <= k < |r| ==> pos <= r[k].start < r[k].end <= |s|
    ensures forall k :: 0 < k < |r| ==> r[k - 1].end <= r[k].start
    decreases |s| - pos
  {
    if pos == |s| then []
    else
      match HeadingAt(s, q, pos)
      case Some(sp) => [sp] + HeadingSpansFrom(s, q, sp.end)
      case None => HeadingSpansFrom(s, q, pos + 1)
  }

  /** The first heading match starts no later than any other. */
  lemma FirstSpanEarliest(spans: seq<Span>, k: nat)
    requires forall j :: 0 <= j < |spans| ==> spans[j].start < spans[j].end
    requires forall j :: 0 < j < |spans| ==> spans[j - 1].end <= spans[j].start
    requires k < |spans|
    ensures spans[0].start <= spans[k].start
  {
    if k > 0 {
      FirstSpanEarliest(spans, k - 1);
    }
  }

  /** The heading matches of a whole text. */
  function HeadingSpans(s: string, q: string): seq<Span> {
    HeadingSpansFrom(s, q, 0)
  }

  /** What a heading match is: it starts a line with one to six '#' and a
      whitespace character, holds a case-insensitive occurrence of the query
      that starts on the line after that character, and ends at a line end. */
  predicate IsHeadingMatch(s: string, q: string, sp: Span) {
    sp.start < sp.end <= |s| && LineStart(s, sp.start) && s[sp.start] == '#'
    && (var k := HashRun(s, sp.start);
        1 <= k <= 6 && sp.start + k < |s| && IsSpace(s[sp.start + k])
        && exists i :: sp.start + k + 1 <= i <= LineEnd(s, sp.start + k + 1) && i + |q| <= sp.end && MatchesAt(s, q, i))
    && (sp.end == |s| || s[sp.end] == '\n')
  }

  lemma HeadingAtMeaning(s: string, q: string, p: nat)
    requires p <= |s| && HeadingAt(s, q, p).Some?
    ensures IsHeadingMatch(s, q, HeadingAt(s, q, p).value)
  {
    var k := HashRun(s, p);
    var i := LastMatchIn(s, q, p + k + 1, LineEnd(s, p + k + 1)).value;
    assert MatchesAt(s, q, i) && p + k + 1 <= i <= LineEnd(s, p + k + 1) && i + |q| <= HeadingAt(s, q, p).value.end;
  }

  /** Every heading match found by the scan is one. */
  lemma {:induction false} HeadingSpanMeaning(s: string, q: string, pos: nat, sp: Span)
    requires pos <= |s| && sp in HeadingSpansFrom(s, q, pos)
    ensures IsHeadingMatch(s, q, sp)
    decreases |s| - pos
  {
    match HeadingAt(s, q, pos)
    case Some(h) =>
      if sp != h {
        HeadingSpanMeaning(s, q, h.end, sp);
      } else {
        HeadingAtMeaning(s, q, pos);
      }
    case None =>
      HeadingSpanMeaning(s, q, pos + 1, sp);
  }

  /** Every line on which the heading pattern matches is covered by a
      heading match: either the scan reaches that line, or an earlier match
      already runs across it. */
  lemma {:induction false} HeadingSpansComplete(s: string, q: string, pos: nat, p: nat)
    requires pos <= p <= |s| && HeadingAt(s, q, p).Some?
    ensures exists sp :: sp in HeadingSpansFrom(s, q, pos) && sp.start <= p < sp.end
    decreases |s| - pos
  {
    match HeadingAt(s, q, pos)
    case Some(h) =>
      if p < h.end {
        assert h in HeadingSpansFrom(s, q, pos);
      } else {
        HeadingSpansComplete(s, q, h.end, p);
        var sp :| sp in HeadingSpansFrom(s, q, h.end) && sp.start <= p < sp.end;
        assert sp in HeadingSpansFrom(s, q, pos);
      }
    case None =>
      HeadingSpansComplete(s, q, pos + 1, p);
      var sp :| sp in HeadingSpansFrom(s, q, pos + 1) && sp.start <= p < sp.end;
      assert sp in HeadingSpansFrom(s, q, pos);
  }

  /** A match that runs across a line break hides the heading line after it:
      the second "#" line would match on its own, but the scan resumes after
      the first match, which ends inside that line. */
  lemma HeadingLineConsumed()
    ensures HeadingAt("#\n#\na#", "#", 2) == Some(Span(2, 6))
    ensures HeadingSpans("#\n#\na#", "#") == [Span(0, 3)]
  {
    var s := "#\n#\na#";
    ConsumedSampleScan();
    assert HeadingAt(s, "#", 0) == Some(Span(0, 3));
    assert HeadingAt(s, "#", 3) == None;
    assert HeadingAt(s, "#", 4) == None;
    assert HeadingAt(s, "#", 5) == None;
    assert HeadingSpansFrom(s, "#", 5) == [] by {
      assert HeadingSpansFrom(s, "#", 6) == [];
    }
  }

  /** The pieces of the heading pattern on the text "#\n#\na#". */
  lemma ConsumedSampleScan()
    ensures var s := "#\n#\na#";
            && HashRun(s, 0) == 1 && HashRun(s, 2) == 1 && HashRun(s, 4) == 0
            && LineEnd(s, 2) == 3 && LineEnd(s, 4) == 6
            && LastMatchIn(s, "#", 2, 3) == Some(2) && LastMatchIn(s, "#", 4, 6) == Some(5)
  {
    var s := "#\n#\na#";
    assert HashRun(s, 1) == 0;
    assert HashRun(s, 3) == 0;
    assert LineEnd(s, 6) == 6 && LineEnd(s, 5) == 6;
    assert s[3] == '\n' && LowerChar(s[3 + 0]) != LowerChar("#"[0]);
    assert !MatchesAt(s, "#", 3) && MatchesAt(s, "#", 2);
    assert !MatchesAt(s, "#", 6) && MatchesAt(s, "#", 5);
  }

  /** The regular expression's quirk: `\s` may be the line break, so a bare
      "#" line followed by a line holding the query matches across both lines. */
  lemma HeadingAcrossLineBreak()
    ensures HeadingSpans("#\nfoo", "foo") == [Span(0, 5)]
  {
    var s := "#\nfoo";
    assert HashRun(s, 0) == 1 by {
      assert HashRun(s, 1) == 0;
    }
    assert LineEnd(s, 2) == 5 by {
      assert LineEnd(s, 5) == 5;
      assert LineEnd(s, 4) == 5;
      assert LineEnd(s, 3) == 5;
    }
    assert MatchesAt(s, "foo", 2);
    assert LastMatchIn(s, "foo", 2, 5) == Some(2) by {
      assert !MatchesAt(s, "foo", 5) && !MatchesAt(s, "foo", 4) && !MatchesAt(s, "foo", 3);
      assert LastMatchIn(s, "foo", 2, 2) == Some(2);
    }
    assert HeadingAt(s, "foo", 0) == Some(Span(0, 5));
    assert HeadingSpansFrom(s, "foo", 5) == [];
  }

  // ------------------------------------------------ body occurrences

  /** `finditer` of the escaped query, ignoring case: non-overlapping, each
      search resuming after the previous occurrence. */
  function OccurrencesFrom(s: string, q: string, pos: nat): (r: seq<nat>)
    requires |q| > 0 && pos <= |s|
    ensures forall k :: 0 <= k < |r| ==> pos <= r[k] && MatchesAt(s, q, r[k])
    ensures forall k :: 0 < k < |r| ==> r[k - 1] + |q| <= r[k]
    decreases |s| - pos
  {
    if pos + |q| > |s| then []
    else if MatchesAt(s, q, pos) then [pos] + OccurrencesFrom(s, q, pos + |q|)
    else OccurrencesFrom(s, q, pos + 1)
  }

  /** The first occurrence found is the earliest. */
  lemma FirstOccurrenceEarliest(occs: seq<nat>, w: nat, k: nat)
    requires forall j :: 0 < j < |occs| ==> occs[j - 1] + w <= occs[j]
    requires k < |occs|
    ensures occs[0] <= occs[k]
  {
    if k > 0 {
      FirstOccurrenceEarliest(occs, w, k - 1);
    }
  }

  /** An occurrence anywhere from `pos` on is found. */
  lemma {:induction false} OccurrencesComplete(s: string, q: string, pos: nat, i: nat)
    requires |q| > 0 && pos <= i && MatchesAt(s, q, i)
    ensures OccurrencesFrom(s, q, pos) != []
    decreases |s| - pos
  {
    if !MatchesAt(s, q, pos) {
      OccurrencesComplete(s, q, pos + 1, i);
    }
  }

  // ------------------------------------------------ matches and snippets

  /** `content[max(0, a - w):min(len, b + w)].strip()`. */
  function Window(s: string, a: nat, b: nat, w: nat): string
    requires a <= b <= |s|
  {
    Strip(s[(if a >= w then a - w else 0)..(if b + w <= |s| then b + w else |s|)])
  }

  predicate ValidSpans(s: string, spans: seq<Span>) {
    forall k :: 0 <= k < |spans| ==> spans[k].start <= spans[k].end <= |s|
  }

  /** The heading match of one heading span, with 50 characters of context. */
  function HeadingMatchAt(s: string, sp: Span): Match
    requires sp.start <= sp.end <= |s|
  {
    Match(sp.start, Heading, Window(s, sp.start, sp.end, HEADING_CONTEXT))
  }

  /** One heading match per heading span, in order. */
  function HeadingMatches(s: string, spans: seq<Span>): (ms: seq<Match>)
    requires ValidSpans(s, spans)
    ensures |ms| == |spans|
    ensures forall k :: 0 <= k < |ms| ==> ms[k].pos == spans[k].start && ms[k].kind == Heading
    ensures forall k :: 0 <= k < |ms| ==> ms[k] == HeadingMatchAt(s, spans[k])
  {
    seq(|spans|, k requires 0 <= k < |spans| && ValidSpans(s, spans) => HeadingMatchAt(s, spans[k]))
  }

  /** The occurrence `[a, b)` lies within one heading match. */
  predicate InsideSome(a: nat, b: nat, spans: seq<Span>) {
    exists k :: 0 <= k < |spans| && a >= spans[k].start && b <= spans[k].end
  }

  /** The body match of the occurrence at `o`. */
  function ContentMatchAt(s: string, q: string, o: nat, snippetLength: nat): Match
    requires o + |q| <= |s|
  {
    Match(o, Content, Window(s, o, o + |q|, snippetLength / 2))
  }

  /** One body match per occurrence that does not lie within a heading
      match, with `snippetLength / 2` characters of context on each side. */
  function ContentMatches(s: string, q: string, occs: seq<nat>, spans: seq<Span>, snippetLength: nat): (ms: seq<Match>)
    requires forall k :: 0 <= k < |occs| ==> occs[k] + |q| <= |s|
    decreases |occs|
  {
    if occs == [] then []
    else
      var o := occs[|occs| - 1];
      var init := ContentMatches(s, q, occs[..|occs| - 1], spans, snippetLength);
      if InsideSome(o, o + |q|, spans) then init else init + [ContentMatchAt(s, q, o, snippetLength)]
  }

  /** Without heading matches to leave out, every occurrence yields its
      body match, in order. */
  lemma {:induction false} ContentMatchesUnfiltered(s: string, q: string, occs: seq<nat>, snippetLength: nat)
    requires forall k :: 0 <= k < |occs| ==> occs[k] + |q| <= |s|
    ensures |ContentMatches(s, q, occs, [], snippetLength)| == |occs|
    ensures forall k :: 0 <= k < |occs| ==> ContentMatches(s, q, occs, [], snippetLength)[k] == ContentMatchAt(s, q, occs[k], snippetLength)
    decreases |occs|
  {
    if occs != [] {
      var n := |occs| - 1;
      ContentMatchesUnfiltered(s, q, occs[..n], snippetLength);
      assert !InsideSome(occs[n], occs[n] + |q|, []);
      var init := ContentMatches(s, q, occs[..n], [], snippetLength);
      assert ContentMatches(s, q, occs, [], snippetLength) == init + [ContentMatchAt(s, q, occs[n], snippetLength)];
      forall k | 0 <= k < n
        ensures ContentMatches(s, q, occs, [], snippetLength)[k] == ContentMatchAt(s, q, occs[k], snippetLength)
      {
        assert occs[..n][k] == occs[k];
      }
    }
  }

  /** A body match is an occurrence that lies within no heading match. */
  lemma {:induction false} ContentMatchesSound(s: string, q: string, occs: seq<nat>, spans: seq<Span>, snippetLength: nat, m: Match)
    requires forall j :: 0 <= j < |occs| ==> occs[j] + |q| <= |s|
    requires m in ContentMatches(s, q, occs, spans, snippetLength)
    ensures m.kind == Content && m.pos in occs && !InsideSome(m.pos, m.pos + |q|, spans)
    ensures m.pos + |q| <= |s| && m == ContentMatchAt(s, q, m.pos, snippetLength)
    decreases |occs|
  {
    var n := |occs| - 1;
    var init := ContentMatches(s, q, occs[..n], spans, snippetLength);
    if m in init {
      ContentMatchesSound(s, q, occs[..n], spans, snippetLength, m);
      assert m.pos in occs[..n];
    }
  }

  /** Every occurrence outside the heading matches yields a body match. */
  lemma {:induction false} ContentMatchesComplete(s: string, q: string, occs: seq<nat>, spans: seq<Span>, snippetLength: nat, k: nat)
    requires forall j :: 0 <= j < |occs| ==> occs[j] + |q| <= |s|
    requires k < |occs| && !InsideSome(occs[k], occs[k] + |q|, spans)
    ensures ContentMatchAt(s, q, occs[k], snippetLength) in ContentMatches(s, q, occs, spans, snippetLength)
    decreases |occs|
  {
    var n := |occs| - 1;
    var init := ContentMatches(s, q, occs[..n], spans, snippetLength);
    var all := ContentMatches(s, q, occs, spans, snippetLength);
    if k < n {
      assert occs[..n][k] == occs[k];
      ContentMatchesComplete(s, q, occs[..n], spans, snippetLength, k);
      assert all == init || all == init + [ContentMatchAt(s, q, occs[n], snippetLength)];
    } else {
      assert all == init + [ContentMatchAt(s, q, occs[n], snippetLength)];
    }
  }

  /** The first body match is that of the first occurrence, when it lies within no heading match. */
  lemma {:induction false} ContentMatchesFirst(s: string, q: string, occs: seq<nat>, spans: seq<Span>, snippetLength: nat)
    requires forall j :: 0 <= j < |occs| ==> occs[j] + |q| <= |s|
    requires occs != [] && !InsideSome(occs[0], occs[0] + |q|, spans)
    ensures ContentMatches(s, q, occs, spans, snippetLength) != []
    ensures ContentMatches(s, q, occs, spans, snippetLength)[0] == ContentMatchAt(s, q, occs[0], snippetLength)
    decreases |occs|
  {
    var n := |occs| - 1;
    if n > 0 {
      assert occs[..n][0] == occs[0];
      ContentMatchesFirst(s, q, occs[..n], spans, snippetLength);
    }
  }

  lemma ContentMatchesStep(s: string, q: string, occs: seq<nat>, spans: seq<Span>, snippetLength: nat, i: nat)
    requires forall j :: 0 <= j < |occs| ==> occs[j] + |q| <= |s|
    requires i < |occs|
    ensures ContentMatches(s, q, occs[..i + 1], spans, snippetLength)
            == ContentMatches(s, q, occs[..i], spans, snippetLength)
               + if InsideSome(occs[i], occs[i] + |q|, spans) then [] else [ContentMatchAt(s, q, occs[i], snippetLength)]
  {
    assert occs[..i + 1][..i] == occs[..i];
  }

  /** `_extract_heading_matches`: the heading matches and their spans. */
  method ExtractHeadingMatches(content: string, query: string) returns (matches: seq<Match>, ranges: seq<Span>)
    ensures ranges == HeadingSpans(content, query)
    ensures ValidSpans(content, ranges) && matches == HeadingMatches(content, ranges)
  {
    var found := HeadingSpans(content, query);
    matches, ranges := CollectHeadingMatches(content, found);
  }

  /** The loop of `_extract_heading_matches` over the matches of the heading
      pattern: one heading match and one range per match, in order. */
  method CollectHeadingMatches(content: string, found: seq<Span>) returns (matches: seq<Match>, ranges: seq<Span>)
    requires ValidSpans(content, found)
    ensures ranges == found && matches == HeadingMatches(content, found)
  {
    matches, ranges := [], [];
    var i := 0;
    while i < |found|
      invariant 0 <= i <= |found|
      invariant ranges == found[..i]
      invariant ValidSpans(content, found[..i]) && matches == HeadingMatches(content, found[..i])
    {
      HeadingMatchesStep(content, found, i);
      matches := matches + [HeadingMatchAt(content, found[i])];
      ranges := ranges + [found[i]];
      i := i + 1;
    }
    assert found[..i] == found;
  }

  /** Taking one more heading span appends its heading match. */
  lemma HeadingMatchesStep(s: string, spans: seq<Span>, i: nat)
    requires ValidSpans(s, spans) && i < |spans|
    ensures ValidSpans(s, spans[..i]) && ValidSpans(s, spans[..i + 1])
    ensures HeadingMatches(s, spans[..i + 1]) == HeadingMatches(s, spans[..i]) + [HeadingMatchAt(s, spans[i])]
  {
    var l, r := HeadingMatches(s, spans[..i + 1]), HeadingMatches(s, spans[..i]) + [HeadingMatchAt(s, spans[i])];
    assert |l| == |r|;
    forall k | 0 <= k < |l| ensures l[k] == r[k] {
      assert l[k] == HeadingMatchAt(s, spans[k]) by { assert spans[..i + 1][k] == spans[k]; }
      if k < i {
        assert r[k] == HeadingMatches(s, spans[..i])[k];
        assert spans[..i][k] == spans[k];
      }
    }
  }

  /** `_extract_content_matches`: the body matches outside the heading spans. */
  method ExtractContentMatches(content: string, query: string, headingRanges: seq<Span>, snippetLength: nat) returns (matches: seq<Match>)
    requires |query| > 0
    ensures matches == ContentMatches(content, query, OccurrencesFrom(content, query, 0), headingRanges, snippetLength)
  {
    var occs := OccurrencesFrom(content, query, 0);
    matches := CollectContentMatches(content, query, occs, headingRanges, snippetLength);
  }

  /** The loop of `_extract_content_matches` over the occurrences of the
      query: a body match for each occurrence outside every heading range. */
  method CollectContentMatches(content: string, query: string, occs: seq<nat>, headingRanges: seq<Span>, snippetLength: nat)
    returns (matches: seq<Match>)
    requires forall j :: 0 <= j < |occs| ==> occs[j] + |query| <= |content|
    ensures matches == ContentMatches(content, query, occs, headingRanges, snippetLength)
  {
    matches := [];
    var i := 0;
    while i < |occs|
      invariant 0 <= i <= |occs|
      invariant matches == ContentMatches(content, query, occs[..i], headingRanges, snippetLength)
    {
      var mStart := occs[i];
      var mEnd := mStart + |query|;
      var isHeading := WithinHeading(mStart, mEnd, headingRanges);
      ContentMatchesStep(content, query, occs, headingRanges, snippetLength, i);
      if !isHeading {
        matches := matches + [ContentMatchAt(content, query, mStart, snippetLength)];
      }
      i := i + 1;
    }
    assert occs[..i] == occs;
  }

  /** The inner loop of `_extract_content_matches`: whether the occurrence
      `[mStart, mEnd)` lies within one of the heading spans. */
  method WithinHeading(mStart: nat, mEnd: nat, headingRanges: seq<Span>) returns (isHeading: bool)
    ensures isHeading <==> InsideSome(mStart, mEnd, headingRanges)
  {
    isHeading := false;
    var j := 0;
    while j < |headingRanges|
      invariant 0 <= j <= |headingRanges|
      invariant forall k :: 0 <= k < j ==> !(mStart >= headingRanges[k].start && mEnd <= headingRanges[k].end)
    {
      if mStart >= headingRanges[j].start && mEnd <= headingRanges[j].end {
        isHeading := true;
        break;
      }
      j := j + 1;
    }
  }

  // ------------------------------------------------ ranking and snippets

  /** `_determine_rank`: 1 for a filename match, otherwise 2 when some match
      is a heading match, otherwise 3. */
  function DetermineRank(filenameMatch: bool, matches: seq<Match>): (r: Rank)
    ensures r == 1 <==> filenameMatch
    ensures r == 2 <==> !filenameMatch && exists m :: m in matches && m.kind == Heading
  {
    if filenameMatch then 1
    else if exists m :: m in matches && m.kind == Heading then 2
    else 3
  }

  /** The first match at the smallest position: what sorting the matches
      stably by position and taking the first one yields. */
  function EarliestIndex(ms: seq<Match>): (i: nat)
    requires |ms| > 0
    ensures i < |ms|
    ensures forall j :: 0 <= j < |ms| ==> ms[i].pos <= ms[j].pos
    ensures forall j :: 0 <= j < i ==> ms[j].pos > ms[i].pos
    decreases |ms|
  {
    if |ms| == 1 then 0
    else
      var k := EarliestIndex(ms[..|ms| - 1]);
      if ms[|ms| - 1].pos < ms[k].pos then |ms| - 1 else k
  }

  /** `_get_best_snippet`: the snippet of the earliest match; without
      matches, the start of the file, cut at `snippetLength` characters and
      marked with "..." when it is longer. */
  function BestSnippet(content: string, matches: seq<Match>, snippetLength: nat): (r: string)
    ensures |matches| > 0 ==> exists i :: 0 <= i < |matches| && r == matches[i].snippet
                                          && forall j :: 0 <= j < |matches| ==> matches[i].pos <= matches[j].pos
    ensures |matches| == 0 && |content| <= snippetLength ==> r == content
    ensures |matches| == 0 && |content| > snippetLength ==>
              |r| == snippetLength + 3 && r[..snippetLength] == content[..snippetLength] && r[snippetLength..] == "..."
  {
    if |matches| > 0 then matches[EarliestIndex(matches)].snippet
    else if |content| > snippetLength then content[..snippetLength] + "..."
    else content
  }

  /** A body occurrence never precedes the heading match that contains it. */
  lemma EarliestIsHeadingOnTies(hs: seq<Match>, cs: seq<Match>)
    requires |hs| > 0
    requires forall k :: 0 <= k < |hs| ==> hs[k].kind == Heading
    ensures (hs + cs)[EarliestIndex(hs + cs)].kind == Heading
            || forall k :: 0 <= k < |hs| ==> hs[k].pos > (hs + cs)[EarliestIndex(hs + cs)].pos
  {
    var all := hs + cs;
    var i := EarliestIndex(all);
    if i >= |hs| {
      forall k | 0 <= k < |hs| ensures hs[k].pos > all[i].pos {
        assert all[k] == hs[k];
      }
    }
  }

  // ------------------------------------------------ one file

  /** The relative path of a walked file, as `str(path.relative_to(root))`. */
  function DisplayPath(f: WalkFile): string {
    PathString(RelPath(f))
  }

  /** The result one walked file contributes, if any: files with an
      unsupported extension and files that cannot be read are skipped; a
      file is reported when the query is in its relative path (ignoring
      case) or when it has heading or body matches. */
  function FileResult(scfg: SearchConfig, extensions: seq<string>, query: string, f: WalkFile): (r: Option<SearchResult>)
    requires |query| > 0
    ensures r.Some? ==> EndsWithAny(f.name, extensions) && f.readable && r.value.path == DisplayPath(f)
  {
    if !EndsWithAny(f.name, extensions) || !f.readable then None
    else
      var path := DisplayPath(f);
      var filenameMatch := IsSubstring(Lower(query), Lower(path));
      var spans := HeadingSpans(f.content, query);
      var all := HeadingMatches(f.content, spans)
                 + ContentMatches(f.content, query, OccurrencesFrom(f.content, query, 0), spans, scfg.snippetLength);
      if |all| > 0 || filenameMatch then
        Some(SearchResult(DetermineRank(filenameMatch, all), path, BestSnippet(f.content, all, scfg.snippetLength)))
      else None
  }

  /** A file has a heading or body match exactly when the query occurs in
      its text, ignoring case. */
  lemma HasMatchesIff(s: string, q: string, snippetLength: nat)
    requires |q| > 0
    ensures var spans := HeadingSpans(s, q);
            |HeadingMatches(s, spans) + ContentMatches(s, q, OccurrencesFrom(s, q, 0), spans, snippetLength)| > 0
            <==> exists i :: MatchesAt(s, q, i)
  {
    var spans := HeadingSpans(s, q);
    var cms := ContentMatches(s, q, OccurrencesFrom(s, q, 0), spans, snippetLength);
    assert |HeadingMatches(s, spans) + cms| == |spans| + |cms|;
    if |spans| > 0 || |cms| > 0 {
      HasMatchesSound(s, q, snippetLength);
    } else if exists i :: MatchesAt(s, q, i) {
      HasMatchesComplete(s, q, snippetLength);
    }
  }

  /** A heading or body match lies over an occurrence of the query. */
  lemma HasMatchesSound(s: string, q: string, snippetLength: nat)
    requires |q| > 0
    requires |HeadingSpans(s, q)| > 0 || |ContentMatches(s, q, OccurrencesFrom(s, q, 0), HeadingSpans(s, q), snippetLength)| > 0
    ensures exists i :: MatchesAt(s, q, i)
  {
    var spans := HeadingSpans(s, q);
    var occs := OccurrencesFrom(s, q, 0);
    if |spans| > 0 {
      HeadingSpanMeaning(s, q, 0, spans[0]);
    } else {
      var cms := ContentMatches(s, q, occs, spans, snippetLength);
      ContentMatchesSound(s, q, occs, spans, snippetLength, cms[0]);
      var j :| 0 <= j < |occs| && occs[j] == cms[0].pos;
      assert MatchesAt(s, q, cms[0].pos);
    }
  }

  /** An occurrence of the query yields a heading or a body match. */
  lemma HasMatchesComplete(s: string, q: string, snippetLength: nat)
    requires |q| > 0 && exists i :: MatchesAt(s, q, i)
    ensures |HeadingSpans(s, q)| > 0 || |ContentMatches(s, q, OccurrencesFrom(s, q, 0), HeadingSpans(s, q), snippetLength)| > 0
  {
    var spans := HeadingSpans(s, q);
    var occs := OccurrencesFrom(s, q, 0);
    if spans == [] {
      var i :| MatchesAt(s, q, i);
      OccurrencesComplete(s, q, 0, i);
      assert !InsideSome(occs[0], occs[0] + |q|, spans);
      ContentMatchesComplete(s, q, occs, spans, snippetLength, 0);
    }
  }

  /** A file contributes a result exactly when it is supported and readable
      and the query occurs, ignoring case, in its relative path or in its text. */
  lemma FileResultIff(scfg: SearchConfig, extensions: seq<string>, query: string, f: WalkFile)
    requires |query| > 0
    ensures FileResult(scfg, extensions, query, f).Some?
            <==> EndsWithAny(f.name, extensions) && f.readable
                 && ((exists i :: MatchesAt(DisplayPath(f), query, i)) || exists i :: MatchesAt(f.content, query, i))
    ensures FileResult(scfg, extensions, query, f).Some? ==> FileResult(scfg, extensions, query, f).value.path == DisplayPath(f)
  {
    HasMatchesIff(f.content, query, scfg.snippetLength);
    SubstringOfLowerIff(query, DisplayPath(f));
  }

  /** The rank says where the query was found: 1 exactly when it is in the
      path, 2 exactly when it is not but some heading line matches. */
  lemma FileRankMeaning(scfg: SearchConfig, extensions: seq<string>, query: string, f: WalkFile)
    requires |query| > 0 && FileResult(scfg, extensions, query, f).Some?
    ensures var r := FileResult(scfg, extensions, query, f).value;
            && (r.rank == 1 <==> exists i :: MatchesAt(DisplayPath(f), query, i))
            && (r.rank == 2 <==> !(exists i :: MatchesAt(DisplayPath(f), query, i)) && HeadingSpans(f.content, query) != [])
  {
    SubstringOfLowerIff(query, DisplayPath(f));
    var spans := HeadingSpans(f.content, query);
    var hms := HeadingMatches(f.content, spans);
    var cms := ContentMatches(f.content, query, OccurrencesFrom(f.content, query, 0), spans, scfg.snippetLength);
    var all := hms + cms;
    if exists m: Match :: m in all && m.kind == Heading {
      var m: Match :| m in all && m.kind == Heading;
      if m in cms {
        ContentMatchesSound(f.content, query, OccurrencesFrom(f.content, query, 0), spans, scfg.snippetLength, m);
      }
    }
    if spans != [] {
      assert all[0] == hms[0];
    }
  }

  /** A file whose path does not hold the query but one of whose lines the
      heading pattern matches is ranked 2. */
  lemma HeadingLineRanksTwo(scfg: SearchConfig, extensions: seq<string>, query: string, f: WalkFile, p: nat)
    requires |query| > 0 && FileResult(scfg, extensions, query, f).Some?
    requires !(exists i :: MatchesAt(DisplayPath(f), query, i))
    requires p <= |f.content| && HeadingAt(f.content, query, p).Some?
    ensures FileResult(scfg, extensions, query, f).value.rank == 2
  {
    HeadingSpansComplete(f.content, query, 0, p);
    FileRankMeaning(scfg, extensions, query, f);
  }

  // ------------------------------------------------ all files

  /** The results of the walked files, file by file. */
  function FileResults(scfg: SearchConfig, extensions: seq<string>, query: string, walk: seq<WalkFile>): (os: seq<Option<SearchResult>>)
    requires |query| > 0
    ensures |os| == |walk|
    ensures forall k :: 0 <= k < |walk| ==> os[k] == FileResult(scfg, extensions, query, walk[k])
  {
    seq(|walk|, k requires 0 <= k < |walk| => FileResult(scfg, extensions, query, walk[k]))
  }

  /** The results that are there, in order. */
  function Present(os: seq<Option<SearchResult>>): seq<SearchResult>
    decreases |os|
  {
    if os == [] then []
    else Present(os[..|os| - 1]) + (if os[|os| - 1].Some? then [os[|os| - 1].value] else [])
  }

  lemma {:induction false} PresentMember(os: seq<Option<SearchResult>>, r: SearchResult)
    ensures r in Present(os) <==> exists k :: 0 <= k < |os| && os[k] == Some(r)
    decreases |os|
  {
    if os != [] {
      var n := |os| - 1;
      PresentMember(os[..n], r);
      if exists k :: 0 <= k < |os| && os[k] == Some(r) {
        var k :| 0 <= k < |os| && os[k] == Some(r);
        if k < n {
          assert os[..n][k] == os[k];
        }
      }
      if exists k :: 0 <= k < n && os[..n][k] == Some(r) {
        var k :| 0 <= k < n && os[..n][k] == Some(r);
        assert os[k] == os[..n][k];
      }
    }
  }

  /** The results of all walked files, in walk order. */
  function CollectResults(scfg: SearchConfig, extensions: seq<string>, query: string, walk: seq<WalkFile>): seq<SearchResult>
    requires |query| > 0
  {
    Present(FileResults(scfg, extensions, query, walk))
  }

  /** The results of one rank, in their original order. */
  function WithRank(rs: seq<SearchResult>, k: Rank): seq<SearchResult>
    decreases |rs|
  {
    if rs == [] then []
    else WithRank(rs[..|rs| - 1], k) + (if rs[|rs| - 1].rank == k then [rs[|rs| - 1]] else [])
  }

  /** `results.sort(key=lambda x: x.rank)`: ranks take only the values 1, 2
      and 3, so the stable sort is the concatenation of the three groups,
      each in its original order. */
  function SortByRank(rs: seq<SearchResult>): (r: seq<SearchResult>)
    ensures |r| == |rs|
  {
    WithRankMultiset(rs);
    assert |multiset(rs)| == |multiset(WithRank(rs, 1))| + |multiset(WithRank(rs, 2))| + |multiset(WithRank(rs, 3))|;
    WithRank(rs, 1) + WithRank(rs, 2) + WithRank(rs, 3)
  }

  predicate SortedByRank(rs: seq<SearchResult>) {
    forall i, j :: 0 <= i < j < |rs| ==> rs[i].rank <= rs[j].rank
  }

  lemma {:induction false} WithRankMembers(rs: seq<SearchResult>, k: Rank)
    ensures forall x :: x in WithRank(rs, k) ==> x in rs && x.rank == k
    decreases |rs|
  {
    if rs != [] {
      WithRankMembers(rs[..|rs| - 1], k);
    }
  }

  lemma {:induction false} WithRankAll(rs: seq<SearchResult>, k: Rank)
    ensures (forall x :: x in rs ==> x.rank == k) ==> WithRank(rs, k) == rs
    ensures (forall x :: x in rs ==> x.rank != k) ==> WithRank(rs, k) == []
    decreases |rs|
  {
    if rs != [] {
      var n := |rs| - 1;
      WithRankAll(rs[..n], k);
      assert rs == rs[..n] + [rs[n]];
    }
  }

  lemma {:induction false} WithRankAppend(a: seq<SearchResult>, b: seq<SearchResult>, k: Rank)
    ensures WithRank(a + b, k) == WithRank(a, k) + WithRank(b, k)
    decreases |b|
  {
    if b != [] {
      var n := |b| - 1;
      assert (a + b)[..|a + b| - 1] == a + b[..n];
      WithRankAppend(a, b[..n], k);
    } else {
      assert a + b == a;
    }
  }

  lemma {:induction false} WithRankMultiset(rs: seq<SearchResult>)
    ensures multiset(rs) == multiset(WithRank(rs, 1)) + multiset(WithRank(rs, 2)) + multiset(WithRank(rs, 3))
    decreases |rs|
  {
    if rs != [] {
      var n := |rs| - 1;
      WithRankMultiset(rs[..n]);
      assert multiset(rs) == multiset(rs[..n]) + multiset{rs[n]} by {
        assert rs == rs[..n] + [rs[n]];
      }
      WithRankLast(rs, 1);
      WithRankLast(rs, 2);
      WithRankLast(rs, 3);
    }
  }

  lemma WithRankLast(rs: seq<SearchResult>, k: Rank)
    requires rs != []
    ensures var n := |rs| - 1;
            multiset(WithRank(rs, k)) == multiset(WithRank(rs[..n], k)) + if rs[n].rank == k then multiset{rs[n]} else multiset{}
  {
  }

  /** The rank sort puts every rank-1 result before every rank-2 result
      before every rank-3 result. */
  lemma SortByRankSorted(rs: seq<SearchResult>)
    ensures SortedByRank(SortByRank(rs))
  {
    var a, b, c := WithRank(rs, 1), WithRank(rs, 2), WithRank(rs, 3);
    WithRankMembers(rs, 1);
    WithRankMembers(rs, 2);
    WithRankMembers(rs, 3);
    var out := a + b + c;
    forall i, j | 0 <= i < j < |out| ensures out[i].rank <= out[j].rank {
      if i < |a| {
        assert out[i] in a;
      } else if j >= |a| + |b| {
        assert out[j] in c;
      } else {
        assert out[i] in b && out[j] in b;
      }
    }
  }

  /** The rank sort loses and adds nothing. */
  lemma SortByRankPermutation(rs: seq<SearchResult>)
    ensures multiset(SortByRank(rs)) == multiset(rs)
  {
    WithRankMultiset(rs);
  }

  lemma WithRankOfWithRank(rs: seq<SearchResult>, j: Rank, k: Rank)
    ensures WithRank(WithRank(rs, j), k) == if j == k then WithRank(rs, j) else []
  {
    WithRankMembers(rs, j);
    WithRankAll(WithRank(rs, j), k);
  }

  /** The rank sort is stable: results of equal rank keep their walk order. */
  lemma SortByRankStable(rs: seq<SearchResult>, k: Rank)
    ensures WithRank(SortByRank(rs), k) == WithRank(rs, k)
  {
    var a, b, c := WithRank(rs, 1), WithRank(rs, 2), WithRank(rs, 3);
    WithRankAppend(a + b, c, k);
    WithRankAppend(a, b, k);
    WithRankOfWithRank(rs, 1, k);
    WithRankOfWithRank(rs, 2, k);
    WithRankOfWithRank(rs, 3, k);
  }

  /** `results[:max_results]`. */
  function Take(rs: seq<SearchResult>, n: nat): (r: seq<SearchResult>)
    ensures |r| <= n && r <= rs
    ensures |rs| <= n ==> r == rs
  {
    if |rs| <= n then rs else rs[..n]
  }

  /** `search(query)`: the root must exist, then the query must be
      non-empty; the results of all walked files, sorted by rank and cut to
      `maxResults`. */
  function SearchSpec(scfg: SearchConfig, extensions: seq<string>, docs: DocsTree, query: string): (r: Result<seq<SearchResult>, KlipperDocsError>)
    ensures r.Success? <==> docs.present && query != ""
    ensures !docs.present ==> r.error == NotAvailable()
    ensures r.Success? ==> |r.value| <= scfg.maxResults
  {
    if !docs.present then Failure(NotAvailable())
    else if query == "" then Failure(QueryEmpty())
    else Success(Take(SortByRank(CollectResults(scfg, extensions, query, WalkRoot(docs))), scfg.maxResults))
  }

  /** `SearchEngine.search`. */
  method Search(scfg: SearchConfig, extensions: seq<string>, docs: DocsTree, query: string) returns (r: Result<seq<SearchResult>, KlipperDocsError>)
    ensures r == SearchSpec(scfg, extensions, docs, query)
  {
    if !docs.present {
      return Failure(NotAvailable());
    }
    if query == "" {
      return Failure(QueryEmpty());
    }
    var walk := WalkRoot(docs);
    var results := [];
    var i := 0;
    while i < |walk|
      invariant 0 <= i <= |walk|
      invariant results == CollectResults(scfg, extensions, query, walk[..i])
    {
      var found := SearchFile(scfg, extensions, query, walk[i]);
      CollectResultsStep(scfg, extensions, query, walk, i);
      if found.Some? {
        results := results + [found.value];
      }
      i := i + 1;
    }
    assert walk[..i] == walk;
    return Success(Take(SortByRank(results), scfg.maxResults));
  }

  /** The body of the loop of `search` over the walked files: the result of one file, if any. */
  method SearchFile(scfg: SearchConfig, extensions: seq<string>, query: string, f: WalkFile) returns (found: Option<SearchResult>)
    requires |query| > 0
    ensures found == FileResult(scfg, extensions, query, f)
  {
    found := None;
    if EndsWithAny(f.name, extensions) && f.readable {
      var relPath := DisplayPath(f);
      var filenameMatch := IsSubstring(Lower(query), Lower(relPath));
      var headingMatches, headingRanges := ExtractHeadingMatches(f.content, query);
      var contentMatches := ExtractContentMatches(f.content, query, headingRanges, scfg.snippetLength);
      var allMatches := headingMatches + contentMatches;
      if |allMatches| > 0 || filenameMatch {
        var rank := DetermineRank(filenameMatch, allMatches);
        var snippet := BestSnippet(f.content, allMatches, scfg.snippetLength);
        found := Some(SearchResult(rank, relPath, snippet));
      }
    }
  }

  /** Taking one more walked file appends its result, if it has one. */
  lemma CollectResultsStep(scfg: SearchConfig, extensions: seq<string>, query: string, walk: seq<WalkFile>, i: nat)
    requires |query| > 0 && i < |walk|
    ensures var o := FileResult(scfg, extensions, query, walk[i]);
            CollectResults(scfg, extensions, query, walk[..i + 1])
            == CollectResults(scfg, extensions, query, walk[..i]) + (if o.Some? then [o.value] else [])
  {
    var os := FileResults(scfg, extensions, query, walk[..i + 1]);
    assert os[..i] == FileResults(scfg, extensions, query, walk[..i]);
    assert os[i] == FileResult(scfg, extensions, query, walk[i]);
  }

  /** A successful search returns at most `maxResults` results, best rank first. */
  lemma SearchSortedAndCapped(scfg: SearchConfig, extensions: seq<string>, docs: DocsTree, query: string)
    requires docs.present && query != ""
    ensures var r := SearchSpec(scfg, extensions, docs, query);
            r.Success? && |r.value| <= scfg.maxResults && SortedByRank(r.value)
  {
    var sorted := SortByRank(CollectResults(scfg, extensions, query, WalkRoot(docs)));
    SortByRankSorted(CollectResults(scfg, extensions, query, WalkRoot(docs)));
    var out := Take(sorted, scfg.maxResults);
    forall i, j | 0 <= i < j < |out| ensures out[i].rank <= out[j].rank {
      assert out[i] == sorted[i] && out[j] == sorted[j];
    }
  }

  /** Every result a search returns is the result of one of the walked files. */
  lemma SearchSound(scfg: SearchConfig, extensions: seq<string>, docs: DocsTree, query: string, x: SearchResult)
    requires docs.present && query != ""
    requires x in SearchSpec(scfg, extensions, docs, query).value
    ensures exists k :: 0 <= k < |WalkRoot(docs)| && FileResult(scfg, extensions, query, WalkRoot(docs)[k]) == Some(x)
  {
    var os := FileResults(scfg, extensions, query, WalkRoot(docs));
    var all := Present(os);
    SortByRankPermutation(all);
    assert x in SortByRank(all);
    assert x in multiset(all);
    PresentMember(os, x);
  }

  /** When no more files match than the cap allows, no file's result is dropped. */
  lemma SearchComplete(scfg: SearchConfig, extensions: seq<string>, docs: DocsTree, query: string, k: nat)
    requires docs.present && query != ""
    requires |CollectResults(scfg, extensions, query, WalkRoot(docs))| <= scfg.maxResults
    requires k < |WalkRoot(docs)| && FileResult(scfg, extensions, query, WalkRoot(docs)[k]).Some?
    ensures FileResult(scfg, extensions, query, WalkRoot(docs)[k]).value in SearchSpec(scfg, extensions, docs, query).value
  {
    var os := FileResults(scfg, extensions, query, WalkRoot(docs));
    var all := Present(os);
    SortByRankPermutation(all);
    var x := os[k].value;
    PresentMember(os, x);
    assert x in multiset(SortByRank(all));
  }

  // ------------------------------------------------ formatting

  /** The block one result is shown as. */
  function ResultBlock(r: SearchResult): string {
    "## " + r.path + "\n" + r.snippet + "\n"
  }

  function ResultBlocks(rs: seq<SearchResult>): (bs: seq<string>)
    ensures |bs| == |rs|
    ensures forall k :: 0 <= k < |rs| ==> bs[k] == ResultBlock(rs[k])
  {
    seq(|rs|, k requires 0 <= k < |rs| => ResultBlock(rs[k]))
  }

  /** The text `format_results` produces. */
  function FormattedResults(rs: seq<SearchResult>): string {
    if rs == [] then NO_RESULTS else Join(ResultBlocks(rs), "\n")
  }

  /** `format_results`: one block per result, separated by blank lines, or
      the no-results message. */
  method FormatResults(results: seq<SearchResult>) returns (text: string)
    ensures text == FormattedResults(results)
  {
    if |results| == 0 {
      return NO_RESULTS;
    }
    var output := [];
    var i := 0;
    while i < |results|
      invariant 0 <= i <= |results|
      invariant output == ResultBlocks(results[..i])
    {
      output := output + [ResultBlock(results[i])];
      i := i + 1;
    }
    assert results[..i] == results;
    return Join(output, "\n");
  }

  /** The no-results message appears exactly when there are no results:
      otherwise the text opens with the first result's heading line. */
  lemma FormattedResultsShape(rs: seq<SearchResult>)
    ensures rs == [] ==> FormattedResults(rs) == NO_RESULTS
    ensures rs != [] ==> StartsWith(FormattedResults(rs), "## " + rs[0].path + "\n")
    ensures rs != [] ==> FormattedResults(rs) != NO_RESULTS
  {
    if rs != [] {
      var bs := ResultBlocks(rs);
      var head := "## " + rs[0].path + "\n";
      var text := Join(bs, "\n");
      assert text == bs[0] || (|bs| > 1 && text == bs[0] + "\n" + Join(bs[1..], "\n"));
      assert bs[0] == head + (rs[0].snippet + "\n");
      assert text[..|head|] == head;
      assert text[0] == '#' && text[1] == '#';
      assert NO_RESULTS[0] == 'N';
    }
  }

  /** Adding a result appends a blank line and its block. */
  lemma FormattedResultsSnoc(rs: seq<SearchResult>, r: SearchResult)
    requires rs != []
    ensures FormattedResults(rs + [r]) == FormattedResults(rs) + "\n" + ResultBlock(r)
  {
    assert ResultBlocks(rs + [r]) == ResultBlocks(rs) + [ResultBlock(r)];
    JoinSnoc(ResultBlocks(rs), ResultBlock(r), "\n");
  }
}
