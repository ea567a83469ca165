/** The order in which the tree listing shows a directory's entries:
    Python's stable `sorted(entries, key=lambda x: (not x.is_dir(), x.name.lower()))`,
    followed by dropping the entries whose names start with ".". */
module EntryOrder {
  import opened Text
  import opened FileTree

  /** Python's `a <= b` on strings: lexicographic by code point, a proper
      prefix before the longer string. */
  predicate StrLe(a: string, b: string)
    decreases |a|
  {
    a == [] || (b != [] && (a[0] < b[0] || (a[0] == b[0] && StrLe(a[1..], b[1..]))))
  }

  lemma {:induction false} StrLeTotal(a: string, b: string)
    ensures StrLe(a, b) || StrLe(b, a)
    decreases |a|
  {
    if a != [] && b != [] && a[0] == b[0] {
      StrLeTotal(a[1..], b[1..]);
    }
  }

  lemma {:induction false} StrLeTrans(a: string, b: string, c: string)
    requires StrLe(a, b) && StrLe(b, c)
    ensures StrLe(a, c)
    decreases |a|
  {
    if a != [] && b != [] && c != [] && a[0] == b[0] && b[0] == c[0] {
      StrLeTrans(a[1..], b[1..], c[1..]);
    }
  }

  /** `key(a) <= key(b)` for the key `(not is_dir, lower-cased name)`:
      directories before files, then by lower-cased name. */
  predicate KeyLe(a: Entry, b: Entry) {
    (a.Dir? && b.File?) || (a.Dir? == b.Dir? && StrLe(Lower(a.name), Lower(b.name)))
  }

  lemma KeyLeTotal(a: Entry, b: Entry)
    ensures KeyLe(a, b) || KeyLe(b, a)
  {
    StrLeTotal(Lower(a.name), Lower(b.name));
  }

  lemma KeyLeTrans(a: Entry, b: Entry, c: Entry)
    requires KeyLe(a, b) && KeyLe(b, c)
    ensures KeyLe(a, c)
  {
    if a.Dir? == b.Dir? && b.Dir? == c.Dir? {
      StrLeTrans(Lower(a.name), Lower(b.name), Lower(c.name));
    }
  }

  predicate SortedByKey(s: seq<Entry>) {
    forall i, j :: 0 <= i < j < |s| ==> KeyLe(s[i], s[j])
  }

  /** Inserts `x` in front of the first entry whose key is not smaller, so
      that `x` stays ahead of entries with an equal key that came after it. */
  function Insert(x: Entry, s: seq<Entry>): (r: seq<Entry>)
    ensures multiset(r) == multiset(s) + multiset{x}
    decreases |s|
  {
    if s == [] || KeyLe(x, s[0]) then [x] + s
    else
      assert s == [s[0]] + s[1..];
      [s[0]] + Insert(x, s[1..])
  }

  lemma {:induction false} InsertSorted(x: Entry, s: seq<Entry>)
    requires SortedByKey(s)
    ensures SortedByKey(Insert(x, s))
    decreases |s|
  {
    var r := Insert(x, s);
    if s == [] || KeyLe(x, s[0]) {
      forall i, j | 0 <= i < j < |r| ensures KeyLe(r[i], r[j]) {
        if i == 0 && j > 1 {
          KeyLeTrans(x, s[0], s[j - 1]);
        }
      }
    } else {
      var t := Insert(x, s[1..]);
      InsertSorted(x, s[1..]);
      KeyLeTotal(x, s[0]);
      forall j | 0 <= j < |t| ensures KeyLe(s[0], t[j]) {
        assert t[j] in multiset(t);
        assert t[j] in multiset(s[1..]) + multiset{x};
        if t[j] != x {
          assert t[j] in s[1..];
          var k :| 0 <= k < |s[1..]| && s[1..][k] == t[j];
          assert s[k + 1] == t[j];
        }
      }
      assert r == [s[0]] + t;
    }
  }

  /** Python's stable `sorted` with the key above, as an insertion sort. */
  function SortEntries(s: seq<Entry>): (r: seq<Entry>)
    ensures multiset(r) == multiset(s)
    ensures SortedByKey(r)
    decreases |s|
  {
    if s == [] then []
    else
      var rest := SortEntries(s[1..]);
      InsertSorted(s[0], rest);
      assert s == [s[0]] + s[1..];
      Insert(s[0], rest)
  }

  /** `a` and `b` have equal sort keys: both directories or both files, with
      the same lower-cased name (such as the files "README.md" and "readme.md"). */
  predicate SameKey(a: Entry, b: Entry) {
    KeyLe(a, b) && KeyLe(b, a)
  }

  /** The entries of `s` whose key equals the key of `x`, in their order in `s`. */
  function KeyClass(s: seq<Entry>, x: Entry): (r: seq<Entry>)
    decreases |s|
  {
    if s == [] then [] else (if SameKey(s[0], x) then [s[0]] else []) + KeyClass(s[1..], x)
  }

  lemma {:induction false} KeyClassAppend(a: seq<Entry>, b: seq<Entry>, x: Entry)
    ensures KeyClass(a + b, x) == KeyClass(a, x) + KeyClass(b, x)
    decreases |a|
  {
    if a != [] {
      var h := if SameKey(a[0], x) then [a[0]] else [];
      assert (a + b)[0] == a[0] && (a + b)[1..] == a[1..] + b;
      assert KeyClass(a + b, x) == h + KeyClass(a[1..] + b, x);
      KeyClassAppend(a[1..], b, x);
      assert KeyClass(a, x) == h + KeyClass(a[1..], x);
    } else {
      assert a + b == b;
    }
  }

  lemma KeyClassSingle(e: Entry, x: Entry)
    ensures KeyClass([e], x) == if SameKey(e, x) then [e] else []
  {
    assert [e][1..] == [];
    assert KeyClass([], x) == [];
  }

  /** Inserting `a` in front of the entries with a key not smaller than its
      own never passes an entry with the same key as `a`. */
  lemma {:induction false} InsertKeyClass(a: Entry, t: seq<Entry>, x: Entry)
    ensures KeyClass(Insert(a, t), x) == KeyClass([a] + t, x)
    decreases |t|
  {
    if t != [] && !KeyLe(a, t[0]) {
      var ha := if SameKey(a, x) then [a] else [];
      var h0 := if SameKey(t[0], x) then [t[0]] else [];
      var r := Insert(a, t[1..]);
      InsertKeyClass(a, t[1..], x);
      assert ([t[0]] + r)[0] == t[0] && ([t[0]] + r)[1..] == r;
      assert KeyClass(Insert(a, t), x) == h0 + KeyClass(r, x);
      assert ([a] + t[1..])[0] == a && ([a] + t[1..])[1..] == t[1..];
      assert KeyClass(r, x) == ha + KeyClass(t[1..], x);
      assert ([a] + t)[0] == a && ([a] + t)[1..] == t;
      assert KeyClass([a] + t, x) == ha + KeyClass(t, x);
      assert KeyClass(t, x) == h0 + KeyClass(t[1..], x);
      if SameKey(a, x) && SameKey(t[0], x) {
        KeyLeTrans(a, x, t[0]);
        assert false;
      }
      SwapAroundEmpty(h0, ha, KeyClass(t[1..], x));
    }
  }

  lemma SwapAroundEmpty(p: seq<Entry>, q: seq<Entry>, k: seq<Entry>)
    requires p == [] || q == []
    ensures p + (q + k) == q + (p + k)
  {
    if p == [] {
      assert p + (q + k) == q + k == q + (p + k);
    } else {
      assert p + (q + k) == p + k == q + (p + k);
    }
  }

  /** The sort is stable: the entries of one key class come out in their input order. */
  lemma {:induction false} SortEntriesStable(s: seq<Entry>, x: Entry)
    ensures KeyClass(SortEntries(s), x) == KeyClass(s, x)
    decreases |s|
  {
    if s != [] {
      SortEntriesStable(s[1..], x);
      InsertKeyClass(s[0], SortEntries(s[1..]), x);
      KeyClassAppend([s[0]], SortEntries(s[1..]), x);
      KeyClassAppend([s[0]], s[1..], x);
      assert s == [s[0]] + s[1..];
    }
  }

  predicate IsHidden(e: Entry) {
    StartsWith(e.name, ".")
  }

  /** `[e for e in entries if not e.name.startswith(".")]`. */
  function Visible(s: seq<Entry>): (r: seq<Entry>)
    ensures forall e :: e in r ==> e in s && !IsHidden(e)
    decreases |s|
  {
    if s == [] then []
    else if IsHidden(s[|s| - 1]) then Visible(s[..|s| - 1])
    else Visible(s[..|s| - 1]) + [s[|s| - 1]]
  }

  /** How many copies of `e` survive the filter. */
  lemma {:induction false} VisibleCount(s: seq<Entry>, e: Entry)
    ensures multiset(Visible(s))[e] == if IsHidden(e) then 0 else multiset(s)[e]
    decreases |s|
  {
    if s != [] {
      VisibleCount(s[..|s| - 1], e);
      assert s == s[..|s| - 1] + [s[|s| - 1]];
    }
  }

  /** Filtering commutes with reordering: equal multisets stay equal. */
  lemma VisiblePermutation(a: seq<Entry>, b: seq<Entry>)
    requires multiset(a) == multiset(b)
    ensures multiset(Visible(a)) == multiset(Visible(b))
  {
    forall e ensures multiset(Visible(a))[e] == multiset(Visible(b))[e] {
      VisibleCount(a, e);
      VisibleCount(b, e);
    }
  }

  /** Keeps a subsequence, in order: filtering a sorted sequence leaves it sorted. */
  lemma {:induction false} VisibleSorted(s: seq<Entry>)
    requires SortedByKey(s)
    ensures SortedByKey(Visible(s))
    decreases |s|
  {
    if s != [] {
      var init := s[..|s| - 1];
      assert SortedByKey(init) by {
        forall i, j | 0 <= i < j < |init| ensures KeyLe(init[i], init[j]) {
          assert init[i] == s[i] && init[j] == s[j];
        }
      }
      VisibleSorted(init);
      var v := Visible(init);
      if !IsHidden(s[|s| - 1]) {
        forall i | 0 <= i < |v| ensures KeyLe(v[i], s[|s| - 1]) {
          assert v[i] in init;
          var k :| 0 <= k < |init| && init[k] == v[i];
          assert s[k] == v[i];
        }
      }
    }
  }

  lemma {:induction false} VisibleAppend(a: seq<Entry>, b: seq<Entry>)
    ensures Visible(a + b) == Visible(a) + Visible(b)
    decreases |b|
  {
    if b == [] {
      assert a + b == a;
    } else {
      var init := b[..|b| - 1];
      assert (a + b)[..|a + b| - 1] == a + init;
      assert (a + b)[|a + b| - 1] == b[|b| - 1];
      VisibleAppend(a, init);
    }
  }

  /** Dropping hidden entries and keeping one key class can be done in either order. */
  lemma {:induction false} VisibleKeyClass(s: seq<Entry>, x: Entry)
    ensures KeyClass(Visible(s), x) == Visible(KeyClass(s, x))
    decreases |s|
  {
    if s != [] {
      var init, last := s[..|s| - 1], s[|s| - 1];
      var shown := if IsHidden(last) then [] else [last];
      calc {
        KeyClass(Visible(s), x);
        { assert Visible(s) == Visible(init) + shown; }
        KeyClass(Visible(init) + shown, x);
        { KeyClassAppend(Visible(init), shown, x); }
        KeyClass(Visible(init), x) + KeyClass(shown, x);
        { VisibleKeyClass(init, x); VisibleKeyClassSingle(last, x); }
        Visible(KeyClass(init, x)) + Visible(KeyClass([last], x));
        { VisibleAppend(KeyClass(init, x), KeyClass([last], x)); }
        Visible(KeyClass(init, x) + KeyClass([last], x));
        { assert s == init + [last]; KeyClassAppend(init, [last], x); }
        Visible(KeyClass(s, x));
      }
    }
  }

  lemma VisibleKeyClassSingle(e: Entry, x: Entry)
    ensures KeyClass(if IsHidden(e) then [] else [e], x) == Visible(KeyClass([e], x))
  {
    KeyClassSingle(e, x);
    assert Visible([]) == [];
    if !IsHidden(e) {
      assert [e][..0] == [];
      assert Visible([e]) == Visible([]) + [e];
    } else {
      assert Visible([e]) == Visible([]);
    }
  }
}
