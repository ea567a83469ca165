/** String operations of Python that the documentation server relies on:
    `str.isspace`, `str.strip`, `str.join`, `str.startswith`/`endswith`,
    substring tests, slicing with Python's index clamping, and decimal
    rendering of integers. Case-insensitive comparison lower-cases ASCII
    letters only. */
module Text {

  /** The characters for which Python's `str.isspace()` holds; the regex
      class `\s` of a `str` pattern matches the same characters. */
  predicate IsSpace(c: char) {
    c == ' ' || ('\t' <= c <= '\r') || ('\U{1C}' <= c <= '\U{1F}') || c == '\U{85}'
    || c == '\U{A0}' || c == '\U{1680}' || ('\U{2000}' <= c <= '\U{200A}')
    || c == '\U{2028}' || c == '\U{2029}' || c == '\U{202F}' || c == '\U{205F}'
    || c == '\U{3000}'
  }

  function LowerChar(c: char): char {
    if 'A' <= c <= 'Z' then (c as int + 32) as char else c
  }

  /** ASCII lower-casing, position by position. */
  function Lower(s: string): (r: string)
    ensures |r| == |s|
    ensures forall i :: 0 <= i < |s| ==> r[i] == LowerChar(s[i])
  {
    seq(|s|, i requires 0 <= i < |s| => LowerChar(s[i]))
  }

  /** `needle` occurs verbatim in `hay` starting at position `i`. */
  predicate OccursAt(needle: string, hay: string, i: int) {
    0 <= i <= |hay| - |needle| && hay[i..i + |needle|] == needle
  }

  /** Python's `needle in hay` for strings. */
  predicate IsSubstring(needle: string, hay: string) {
    exists i :: 0 <= i <= |hay| - |needle| && OccursAt(needle, hay, i)
  }

  /** A case-insensitive occurrence of `q` that starts at position `i` of `s`. */
  predicate MatchesAt(s: string, q: string, i: int) {
    0 <= i && i + |q| <= |s| && forall k :: 0 <= k < |q| ==> LowerChar(s[i + k]) == LowerChar(q[k])
  }

  /** `q.lower() in s.lower()` is the same test as a case-insensitive occurrence. */
  lemma SubstringOfLowerIff(q: string, s: string)
    ensures IsSubstring(Lower(q), Lower(s)) <==> exists i :: MatchesAt(s, q, i)
  {
    var lq, ls := Lower(q), Lower(s);
    if IsSubstring(lq, ls) {
      var i :| 0 <= i <= |ls| - |lq| && OccursAt(lq, ls, i);
      assert |ls| == |s| && |lq| == |q|;
      forall k | 0 <= k < |q| ensures LowerChar(s[i + k]) == LowerChar(q[k]) {
        assert ls[i..i + |lq|][k] == lq[k];
      }
      assert MatchesAt(s, q, i);
    }
    if i :| MatchesAt(s, q, i) {
      assert ls[i..i + |lq|] == lq;
      assert OccursAt(lq, ls, i);
    }
  }

  predicate StartsWith(s: string, prefix: string) {
    |prefix| <= |s| && s[..|prefix|] == prefix
  }

  predicate EndsWith(s: string, suffix: string) {
    |suffix| <= |s| && s[|s| - |suffix|..] == suffix
  }

  /** A concatenation starts with its left part and ends with its right part. */
  lemma ConcatEnds(a: string, b: string)
    ensures StartsWith(a + b, a) && EndsWith(a + b, b)
  {
    assert (a + b)[..|a|] == a;
    assert (a + b)[|a + b| - |b|..] == b;
  }

  /** Python's `s.endswith(suffixes)` with a tuple of suffixes. */
  predicate EndsWithAny(s: string, suffixes: seq<string>) {
    exists k :: 0 <= k < |suffixes| && EndsWith(s, suffixes[k])
  }

  /** First index at or after `i` that is not whitespace (or `|s|`). */
  function SkipSpaces(s: string, i: nat): (j: nat)
    requires i <= |s|
    ensures i <= j <= |s|
    decreases |s| - i
  {
    if i < |s| && IsSpace(s[i]) then SkipSpaces(s, i + 1) else i
  }

  /** `SkipSpaces` skips whitespace only, and all of it. */
  lemma {:induction false} SkipSpacesMeaning(s: string, i: nat)
    requires i <= |s|
    ensures var j := SkipSpaces(s, i);
            (forall k :: i <= k < j ==> IsSpace(s[k])) && (j == |s| || !IsSpace(s[j]))
    decreases |s| - i
  {
    if i < |s| && IsSpace(s[i]) {
      SkipSpacesMeaning(s, i + 1);
    }
  }

  /** Moves `hi` down past trailing whitespace, never below `lo`. */
  function TrimEnd(s: string, lo: nat, hi: nat): (j: nat)
    requires lo <= hi <= |s|
    ensures lo <= j <= hi
    decreases hi
  {
    if lo < hi && IsSpace(s[hi - 1]) then TrimEnd(s, lo, hi - 1) else hi
  }

  /** `TrimEnd` cuts whitespace only, and all of it down to `lo`. */
  lemma {:induction false} TrimEndMeaning(s: string, lo: nat, hi: nat)
    requires lo <= hi <= |s|
    ensures var j := TrimEnd(s, lo, hi);
            (forall k :: j <= k < hi ==> IsSpace(s[k])) && (j == lo || !IsSpace(s[j - 1]))
    decreases hi
  {
    if lo < hi && IsSpace(s[hi - 1]) {
      TrimEndMeaning(s, lo, hi - 1);
    }
  }

  /** Python's `s.strip()`: the infix left after cutting the leading and the
      trailing whitespace. */
  function Strip(s: string): string {
    var a := SkipSpaces(s, 0);
    s[a..TrimEnd(s, a, |s|)]
  }

  /** What `Strip` keeps: an infix of `s` with only whitespace cut away on
      either side, that neither starts nor ends with whitespace. */
  lemma StripMeaning(s: string)
    ensures var r := Strip(s);
            && (exists a, b :: 0 <= a <= b <= |s| && r == s[a..b]
                               && (forall k :: 0 <= k < a ==> IsSpace(s[k]))
                               && (forall k :: b <= k < |s| ==> IsSpace(s[k])))
            && (r == [] || (!IsSpace(r[0]) && !IsSpace(r[|r| - 1])))
  {
    var a := SkipSpaces(s, 0);
    var b := TrimEnd(s, a, |s|);
    SkipSpacesMeaning(s, 0);
    TrimEndMeaning(s, a, |s|);
    var r := s[a..b];
    assert Strip(s) == r;
    assert a < b ==> !IsSpace(s[a]);
    assert r != [] ==> r[0] == s[a] && r[|r| - 1] == s[b - 1];
    assert 0 <= a <= b <= |s| && r == s[a..b]
           && (forall k :: 0 <= k < a ==> IsSpace(s[k]))
           && (forall k :: b <= k < |s| ==> IsSpace(s[k]));
  }

  /** Python's `sep.join(parts)`. */
  function Join(parts: seq<string>, sep: string): string
    decreases |parts|
  {
    if |parts| == 0 then ""
    else if |parts| == 1 then parts[0]
    else parts[0] + sep + Join(parts[1..], sep)
  }

  /** Appending one more part to a non-empty join adds the separator and the part. */
  lemma {:induction false} JoinSnoc(parts: seq<string>, x: string, sep: string)
    requires |parts| > 0
    ensures Join(parts + [x], sep) == Join(parts, sep) + sep + x
    decreases |parts|
  {
    if |parts| == 1 {
      assert parts + [x] == [parts[0], x];
      assert Join([x], sep) == x;
    } else {
      assert (parts + [x])[1..] == parts[1..] + [x];
      JoinSnoc(parts[1..], x, sep);
    }
  }

  /** Splitting at every occurrence of `sep`; the pieces between separators. */
  function Split(s: string, sep: char): (r: seq<string>)
    ensures |r| >= 1
    decreases |s|
  {
    if |s| == 0 then [""]
    else
      var rest := Split(s[1..], sep);
      if s[0] == sep then [""] + rest else [[s[0]] + rest[0]] + rest[1..]
  }

  /** Joining the pieces with the separator gives back the original string. */
  lemma {:induction false} JoinSplit(s: string, sep: char)
    ensures Join(Split(s, sep), [sep]) == s
    decreases |s|
  {
    if |s| > 0 {
      var rest := Split(s[1..], sep);
      JoinSplit(s[1..], sep);
      if s[0] == sep {
        assert Split(s, sep) == [""] + rest;
        assert ([""] + rest)[1..] == rest;
      } else {
        var r := Split(s, sep);
        assert r == [[s[0]] + rest[0]] + rest[1..];
        if |rest| == 1 {
          assert r == [[s[0]] + rest[0]];
        } else {
          assert r[1..] == rest[1..];
          assert Join(rest, [sep]) == rest[0] + [sep] + Join(rest[1..], [sep]);
        }
      }
    }
  }

  lemma {:induction false} SplitNoSep(x: string, sep: char)
    requires forall k :: 0 <= k < |x| ==> x[k] != sep
    ensures Split(x, sep) == [x]
    decreases |x|
  {
    if |x| > 0 {
      SplitNoSep(x[1..], sep);
      assert [x[0]] + x[1..] == x;
    }
  }

  lemma {:induction false} SplitCons(x: string, y: string, sep: char)
    requires forall k :: 0 <= k < |x| ==> x[k] != sep
    ensures Split(x + [sep] + y, sep) == [x] + Split(y, sep)
    decreases |x|
  {
    var s := x + [sep] + y;
    if |x| == 0 {
      assert s[0] == sep && s[1..] == y;
    } else {
      assert s[1..] == x[1..] + [sep] + y;
      SplitCons(x[1..], y, sep);
      assert [x[0]] + x[1..] == x;
    }
  }

  /** Splitting a join of separator-free pieces gives the pieces back. */
  lemma {:induction false} SplitJoin(parts: seq<string>, sep: char)
    requires |parts| >= 1
    requires forall i, k :: 0 <= i < |parts| && 0 <= k < |parts[i]| ==> parts[i][k] != sep
    ensures Split(Join(parts, [sep]), sep) == parts
    decreases |parts|
  {
    if |parts| == 1 {
      SplitNoSep(parts[0], sep);
    } else {
      SplitJoin(parts[1..], sep);
      SplitCons(parts[0], Join(parts[1..], [sep]), sep);
      assert [parts[0]] + parts[1..] == parts;
    }
  }

  /** A join whose first piece is not empty starts with that piece's first character. */
  lemma JoinFirstChar(parts: seq<string>, sep: string)
    requires |parts| >= 1 && |parts[0]| >= 1
    ensures |Join(parts, sep)| >= 1 && Join(parts, sep)[0] == parts[0][0]
  {
  }

  /** A join opens with its first part. */
  lemma JoinStartsWithFirst(parts: seq<string>, sep: string)
    requires |parts| >= 1
    ensures StartsWith(Join(parts, sep), parts[0])
  {
    if |parts| > 1 {
      ConcatEnds(parts[0], sep + Join(parts[1..], sep));
      assert Join(parts, sep) == parts[0] + (sep + Join(parts[1..], sep));
    }
  }

  function DigitChar(d: nat): char
    requires d < 10
  {
    "0123456789"[d]
  }

  /** Decimal digits of `n`, most significant first, without leading zeros. */
  function NatToString(n: nat): (r: string)
    ensures |r| >= 1
    ensures forall k :: 0 <= k < |r| ==> '0' <= r[k] <= '9'
    decreases n
  {
    if n < 10 then [DigitChar(n)] else NatToString(n / 10) + [DigitChar(n % 10)]
  }

  /** Python's `str(n)` for an integer. */
  function IntToString(n: int): string {
    if n < 0 then "-" + NatToString(-n) else NatToString(n)
  }

  /** Reading a string of decimal digits as a number. */
  function DigitsValue(s: string): nat
    requires forall k :: 0 <= k < |s| ==> '0' <= s[k] <= '9'
    decreases |s|
  {
    if |s| == 0 then 0 else DigitsValue(s[..|s| - 1]) * 10 + (s[|s| - 1] as int - '0' as int)
  }

  /** Decimal rendering loses nothing: reading the digits back gives `n`. */
  lemma {:induction false} NatToStringRoundTrip(n: nat)
    ensures DigitsValue(NatToString(n)) == n
    decreases n
  {
    var r := NatToString(n);
    if n >= 10 {
      NatToStringRoundTrip(n / 10);
      assert r[..|r| - 1] == NatToString(n / 10);
    }
  }

  /** Python's normalisation of one slice bound against a length. */
  function ClampIndex(i: int, len: nat): (r: nat)
    ensures r <= len
    ensures 0 <= i <= len ==> r == i
  {
    if i < 0 then (if i + len < 0 then 0 else i + len) else if i > len then len else i
  }

  /** Python's `s[start:stop]` (step 1), including negative and out-of-range bounds. */
  function PySlice<T>(s: seq<T>, start: int, stop: int): seq<T> {
    var lo, hi := ClampIndex(start, |s|), ClampIndex(stop, |s|);
    if lo < hi then s[lo..hi] else []
  }

  /** For a non-negative start and a non-negative width, the slice holds the
      `max(0, min(width, |s| - start))` elements that follow `start`. */
  lemma PySliceFrom<T>(s: seq<T>, start: int, width: int)
    requires 0 <= start && 0 <= width
    ensures |PySlice(s, start, start + width)| == if start >= |s| then 0 else if width < |s| - start then width else |s| - start
    ensures start < |s| ==> PySlice(s, start, start + width) == s[start..if start + width < |s| then start + width else |s|]
  {
  }

  /** Two adjacent slices of widths `a` and `b` make up the slice of width `a + b`. */
  lemma PySliceAdjacent<T>(s: seq<T>, start: nat, a: nat, b: nat)
    ensures PySlice(s, start, start + a) + PySlice(s, start + a, start + a + b) == PySlice(s, start, start + (a + b))
  {
    var n := |s|;
    var x := if start < n then start else n;
    var y := if start + a < n then start + a else n;
    var z := if start + a + b < n then start + a + b else n;
    assert ClampIndex(start, n) == x && ClampIndex(start + a, n) == y && ClampIndex(start + a + b, n) == z;
    assert PySlice(s, start, start + a) == s[x..y];
    assert PySlice(s, start + a, start + a + b) == s[y..z];
    assert PySlice(s, start, start + (a + b)) == s[x..z];
    assert s[x..y] + s[y..z] == s[x..z];
  }
}
