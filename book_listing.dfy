/**
 * The pure parts of listing books: the case-insensitive filter on title, author and genre, and
 * the page arithmetic (skip `(page - 1) * limit`, take `limit`, `ceil(count / limit)` pages).
 */
module BookListing {
  import opened Js
  import opened BookModel

  // ---------------------------------------------------------------- case-insensitive search

  /** Case folding of the `i` option, on ASCII letters. */
  function FoldChar(c: char): char {
    if 'A' <= c <= 'Z' then (c as int + 32) as char else c
  }

  function Fold(s: string): (r: string)
    ensures |r| == |s|
    ensures forall i :: 0 <= i < |s| ==> r[i] == FoldChar(s[i])
  {
    seq(|s|, i requires 0 <= i < |s| => FoldChar(s[i]))
  }

  /** `pattern` occurs in `text` at position `at`, ignoring case. */
  predicate OccursAt(text: string, pattern: string, at: nat) {
    at + |pattern| <= |text| && Fold(text[at..at + |pattern|]) == Fold(pattern)
  }

  /** An unanchored case-insensitive match of `pattern` in `text`, tried position by position. */
  predicate ContainsIgnoreCase(text: string, pattern: string)
    decreases |text|
  {
    OccursAt(text, pattern, 0) || (text != [] && ContainsIgnoreCase(text[1..], pattern))
  }

  /** The scan finds a match exactly when the pattern occurs somewhere in the text. */
  lemma {:induction false} ContainsIgnoreCaseIff(text: string, pattern: string)
    ensures ContainsIgnoreCase(text, pattern) <==> exists at: nat :: OccursAt(text, pattern, at)
    decreases |text|
  {
    if text != [] {
      ContainsIgnoreCaseIff(text[1..], pattern);
      forall at: nat
        ensures OccursAt(text[1..], pattern, at) <==> OccursAt(text, pattern, at + 1)
      {
        if at + |pattern| <= |text[1..]| {
          assert text[1..][at..at + |pattern|] == text[at + 1..at + 1 + |pattern|];
        }
      }
      if exists at: nat :: OccursAt(text, pattern, at) {
        var at: nat :| OccursAt(text, pattern, at);
        if at > 0 {
          assert OccursAt(text[1..], pattern, at - 1);
        }
      }
    } else {
      if exists at: nat :: OccursAt(text, pattern, at) {
        var at: nat :| OccursAt(text, pattern, at);
        assert at == 0;
      }
    }
  }

  /** Whether a text matches depends on the pattern only up to case. */
  lemma CaseOfPatternIrrelevant(text: string, p: string, q: string)
    requires Fold(p) == Fold(q)
    ensures ContainsIgnoreCase(text, p) <==> ContainsIgnoreCase(text, q)
  {
    ContainsIgnoreCaseIff(text, p);
    ContainsIgnoreCaseIff(text, q);
    assert forall at: nat :: OccursAt(text, p, at) <==> OccursAt(text, q, at);
  }

  /** Every text matches a search for itself. */
  lemma ContainsItself(text: string)
    ensures ContainsIgnoreCase(text, text)
  {
    assert text[0..|text|] == text;
    assert OccursAt(text, text, 0);
  }

  /** A title "Test Book" matches the search "test". */
  lemma TestBookMatchesTest()
    ensures ContainsIgnoreCase("Test Book", "test")
  {
    var text := "Test Book";
    assert Fold(text[0..4]) == "test" == Fold("test");
    assert OccursAt(text, "test", 0);
  }

  // ---------------------------------------------------------------- the filter

  /** The query object: a pattern for each path the request set, `None` where it set none. */
  datatype Filter = Filter(title: Option<string>, author: Option<string>, genre: Option<string>)

  const NoFilter := Filter(None, None, None)

  /** An unset pattern imposes nothing; a set one must match. */
  predicate Admits(pattern: Option<string>, value: string) {
    pattern.Some? ==> ContainsIgnoreCase(value, pattern.value)
  }

  predicate Matches(b: Book, f: Filter) {
    Admits(f.title, b.title) && Admits(f.author, b.author) && Admits(f.genre, b.genre)
  }

  /** The records of `s` the filter matches, in the order of `s` (as `SelectSubsequence` states). */
  function Select(s: seq<StoredBook>, f: Filter): (r: seq<StoredBook>)
    ensures |r| <= |s|
    ensures forall e :: e in r <==> e in s && Matches(e.book, f)
  {
    if s == [] then []
    else
      var last := s[|s| - 1];
      Select(s[..|s| - 1], f) + (if Matches(last.book, f) then [last] else [])
  }

  /** With no filter set every record is listed, in store order. */
  lemma {:induction false} SelectNoFilter(s: seq<StoredBook>)
    ensures Select(s, NoFilter) == s
  {
    if s != [] {
      SelectNoFilter(s[..|s| - 1]);
    }
  }

  /**
   * Selecting from a list with one more record at its end keeps that record last when it matches.
   * With `Select([], f) == []` this determines the result and its order.
   */
  lemma SelectSnoc(p: seq<StoredBook>, e: StoredBook, f: Filter)
    ensures Select(p + [e], f) == Select(p, f) + (if Matches(e.book, f) then [e] else [])
  {
    assert (p + [e])[..|p + [e]| - 1] == p;
  }

  /**
   * `r` is read off `s` at the strictly increasing positions `idx`: each record taken matches the
   * filter, and every record of `s` that matches is taken.
   */
  ghost predicate TakenAt(s: seq<StoredBook>, f: Filter, r: seq<StoredBook>, idx: seq<nat>) {
    && |idx| == |r|
    && (forall k :: 0 <= k < |idx| ==> idx[k] < |s| && r[k] == s[idx[k]] && Matches(r[k].book, f))
    && (forall k, l :: 0 <= k < l < |idx| ==> idx[k] < idx[l])
    && (forall j :: 0 <= j < |s| && Matches(s[j].book, f) ==> j in idx)
  }

  /** The positions of the records of `s` that the filter matches, in increasing order. */
  function MatchingPositions(s: seq<StoredBook>, f: Filter): seq<nat> {
    if s == [] then []
    else MatchingPositions(s[..|s| - 1], f) + (if Matches(s[|s| - 1].book, f) then [|s| - 1] else [])
  }

  /** The selection is the subsequence of the matching records: none dropped, none reordered. */
  lemma {:induction false} SelectSubsequence(s: seq<StoredBook>, f: Filter)
    ensures TakenAt(s, f, Select(s, f), MatchingPositions(s, f))
    decreases |s|
  {
    if s != [] {
      var p, e := s[..|s| - 1], s[|s| - 1];
      assert s == p + [e];
      SelectSubsequence(p, f);
      SelectSnoc(p, e, f);
      TakenAtSnoc(p, e, f, Select(p, f), MatchingPositions(p, f));
    }
  }

  /** One more record at the end of `s` is taken, at position `|p|`, exactly when it matches. */
  lemma TakenAtSnoc(p: seq<StoredBook>, e: StoredBook, f: Filter, r: seq<StoredBook>, idx: seq<nat>)
    requires TakenAt(p, f, r, idx)
    ensures Matches(e.book, f) ==> TakenAt(p + [e], f, r + [e], idx + [|p|])
    ensures !Matches(e.book, f) ==> TakenAt(p + [e], f, r, idx)
  {
    var s := p + [e];
    if Matches(e.book, f) {
      var r', idx' := r + [e], idx + [|p|];
      forall k | 0 <= k < |idx'|
        ensures idx'[k] < |s| && r'[k] == s[idx'[k]] && Matches(r'[k].book, f)
      {
        if k < |idx| {
          assert idx'[k] == idx[k] && r'[k] == r[k] && s[idx[k]] == p[idx[k]];
        }
      }
      forall k, l | 0 <= k < l < |idx'|
        ensures idx'[k] < idx'[l]
      {
        if l < |idx| {
          assert idx'[k] == idx[k] && idx'[l] == idx[l];
        } else {
          assert idx'[k] == idx[k];
        }
      }
      forall j | 0 <= j < |s| && Matches(s[j].book, f)
        ensures j in idx'
      {
        if j < |p| {
          assert s[j] == p[j];
          assert j in idx;
        } else {
          assert idx'[|idx|] == j;
        }
      }
    } else {
      forall k | 0 <= k < |idx|
        ensures idx[k] < |s| && r[k] == s[idx[k]]
      {
        assert s[idx[k]] == p[idx[k]];
      }
      forall j | 0 <= j < |s| && Matches(s[j].book, f)
        ensures j in idx
      {
        assert j < |p| && s[j] == p[j];
      }
    }
  }

  /** A book matches all three patterns exactly when it matches each of them. */
  lemma MatchesSplit(b: Book, t: Option<string>, a: Option<string>, g: Option<string>)
    ensures Matches(b, Filter(t, a, g))
        <==> Matches(b, Filter(t, None, None)) && Matches(b, Filter(None, a, None)) && Matches(b, Filter(None, None, g))
  {
  }

  /** Set filters combine conjunctively: filtering by all three is filtering by each in turn. */
  lemma {:induction false} SelectConjunctive(s: seq<StoredBook>, t: Option<string>, a: Option<string>, g: Option<string>)
    ensures Select(s, Filter(t, a, g))
         == Select(Select(Select(s, Filter(t, None, None)), Filter(None, a, None)), Filter(None, None, g))
  {
    if s != [] {
      var p, e := s[..|s| - 1], s[|s| - 1];
      assert s == p + [e];
      var f, ft, fa, fg := Filter(t, a, g), Filter(t, None, None), Filter(None, a, None), Filter(None, None, g);
      SelectConjunctive(p, t, a, g);
      var st := Select(p, ft);
      var sa := Select(st, fa);
      var sg := Select(sa, fg);
      assert Select(p, f) == sg;
      SelectSnoc(p, e, ft);
      SelectSnoc(p, e, f);
      MatchesSplit(e.book, t, a, g);
      if !Matches(e.book, ft) {
        assert Select(s, ft) == st;
      } else if !Matches(e.book, fa) {
        assert Select(s, ft) == st + [e];
        SelectSnoc(st, e, fa);
        assert Select(st + [e], fa) == sa;
      } else if !Matches(e.book, fg) {
        assert Select(s, ft) == st + [e];
        SelectSnoc(st, e, fa);
        assert Select(st + [e], fa) == sa + [e];
        SelectSnoc(sa, e, fg);
        assert Select(sa + [e], fg) == sg;
      } else {
        assert Select(s, ft) == st + [e];
        SelectSnoc(st, e, fa);
        assert Select(st + [e], fa) == sa + [e];
        SelectSnoc(sa, e, fg);
        assert Select(sa + [e], fg) == sg + [e];
      }
    }
  }

  /** A list in which nothing matches selects nothing. */
  lemma {:induction false} SelectNone(s: seq<StoredBook>, f: Filter)
    requires forall j :: 0 <= j < |s| ==> !Matches(s[j].book, f)
    ensures Select(s, f) == []
  {
    if s != [] {
      SelectNone(s[..|s| - 1], f);
    }
  }

  /** No record before `s[i]` matches, and `s[i]` does: it heads the selection. */
  lemma {:induction false} SelectFirst(s: seq<StoredBook>, f: Filter, i: nat)
    requires i < |s| && Matches(s[i].book, f)
    requires forall j :: 0 <= j < i ==> !Matches(s[j].book, f)
    ensures Select(s, f) != [] && Select(s, f)[0] == s[i]
    decreases |s|
  {
    if i == |s| - 1 {
      SelectNone(s[..|s| - 1], f);
    } else {
      SelectFirst(s[..|s| - 1], f, i);
    }
  }

  /** The query object `getBooks` builds: a path is constrained only when its parameter is truthy. */
  function QueryFilter(title: Option<string>, author: Option<string>, genre: Option<string>): (f: Filter)
    ensures f.title.Some? <==> TruthyString(title)
    ensures f.author.Some? <==> TruthyString(author)
    ensures f.genre.Some? <==> TruthyString(genre)
  {
    Filter(if TruthyString(title) then title else None,
           if TruthyString(author) then author else None,
           if TruthyString(genre) then genre else None)
  }

  /**
   * A book passes the request's filter exactly when it contains, ignoring case, each truthy
   * parameter in the corresponding path; an unset or empty parameter imposes nothing.
   */
  lemma QueryFilterMatches(b: Book, title: Option<string>, author: Option<string>, genre: Option<string>)
    ensures Matches(b, QueryFilter(title, author, genre)) <==>
      && (TruthyString(title) ==> ContainsIgnoreCase(b.title, title.value))
      && (TruthyString(author) ==> ContainsIgnoreCase(b.author, author.value))
      && (TruthyString(genre) ==> ContainsIgnoreCase(b.genre, genre.value))
  {
  }

  /** The book the request searches by its own title comes first, if no earlier book matches. */
  lemma SearchByTitleFindsItFirst(s: seq<StoredBook>, i: nat, limit: nat)
    requires i < |s| && s[i].book.title != "" && limit >= 1
    requires forall j :: 0 <= j < i ==> !ContainsIgnoreCase(s[j].book.title, s[i].book.title)
    ensures Paginate(Select(s, QueryFilter(Some(s[i].book.title), None, None)), 0, limit)[0] == s[i]
  {
    var f := QueryFilter(Some(s[i].book.title), None, None);
    ContainsItself(s[i].book.title);
    SelectFirst(s, f, i);
  }

  /** A collection holding one book: searching for its title lists it, on one page. */
  lemma SearchOneBookByTitle(e: StoredBook)
    ensures Select([e], QueryFilter(Some(e.book.title), None, None)) == [e]
    ensures Paginate([e], Skip(DefaultPage, DefaultLimit), DefaultLimit) == [e]
    ensures CeilDiv(1, DefaultLimit) == 1
  {
    ContainsItself(e.book.title);
    assert [e][..0] == [];
  }

  // ---------------------------------------------------------------- paging

  const DefaultPage := 1
  const DefaultLimit := 10

  function Min(a: nat, b: nat): nat {
    if a <= b then a else b
  }

  /** `(page - 1) * limit`: how many matching records come before the page. */
  function Skip(page: nat, limit: nat): nat
    requires page >= 1
  {
    (page - 1) * limit
  }

  /** `.skip(skip).limit(limit)`: at most `limit` records, those at positions `skip` onwards. */
  function Paginate<T>(s: seq<T>, skip: nat, limit: nat): (r: seq<T>)
    ensures |r| <= limit
    ensures skip >= |s| ==> r == []
    ensures skip < |s| ==> |r| == Min(limit, |s| - skip)
    ensures forall i :: 0 <= i < |r| ==> skip + i < |s| && r[i] == s[skip + i]
  {
    if skip >= |s| then [] else s[skip..Min(skip + limit, |s|)]
  }

  /** `Math.ceil(count / limit)`: the fewest pages of `limit` records that hold `count` records. */
  function CeilDiv(count: nat, limit: nat): (pages: nat)
    requires limit >= 1
    ensures count <= pages * limit
    ensures pages == 0 || (pages - 1) * limit < count
  {
    var q := count / limit;
    if count % limit == 0 then q else q + 1
  }

  lemma MulMonotonic(a: nat, b: nat, c: nat)
    requires a <= b
    ensures a * c <= b * c
  {
  }

  /** A page holds records exactly when it is one of the first `totalPages` pages. */
  lemma PageEmptyIffBeyondTotal<T>(s: seq<T>, page: nat, limit: nat)
    requires page >= 1 && limit >= 1
    ensures Paginate(s, Skip(page, limit), limit) == [] <==> page > CeilDiv(|s|, limit)
  {
    var k := CeilDiv(|s|, limit);
    if page > k {
      MulMonotonic(k, page - 1, limit);
    } else {
      MulMonotonic(page - 1, k - 1, limit);
    }
  }

  /** The first `n` pages, one after the other. */
  function FirstPages<T>(s: seq<T>, limit: nat, n: nat): seq<T> {
    if n == 0 then [] else FirstPages(s, limit, n - 1) + Paginate(s, Skip(n, limit), limit)
  }

  lemma {:induction false} FirstPagesArePrefix<T>(s: seq<T>, limit: nat, n: nat)
    ensures FirstPages(s, limit, n) == s[..Min(n * limit, |s|)]
  {
    if n > 0 {
      FirstPagesArePrefix(s, limit, n - 1);
      var skip := (n - 1) * limit;
      assert skip + limit == n * limit;
      PageIsSlice(s, skip, limit);
      PrefixThenSlice(s, Min(skip, |s|), Min(skip + limit, |s|));
    }
  }

  /** A page is the slice of `s` between `skip` and `skip + limit`, both cut off at the end of `s`. */
  lemma PageIsSlice<T>(s: seq<T>, skip: nat, limit: nat)
    ensures Paginate(s, skip, limit) == s[Min(skip, |s|)..Min(skip + limit, |s|)]
  {
  }

  lemma PrefixThenSlice<T>(s: seq<T>, a: nat, b: nat)
    requires a <= b <= |s|
    ensures s[..a] + s[a..b] == s[..b]
  {
  }

  /** Pages 1 to `totalPages`, read in turn, list every matching record once, in order. */
  lemma PagesCoverAll<T>(s: seq<T>, limit: nat)
    requires limit >= 1
    ensures FirstPages(s, limit, CeilDiv(|s|, limit)) == s
  {
    FirstPagesArePrefix(s, limit, CeilDiv(|s|, limit));
  }

  /** 25 matching records with the default limit: 3 pages, a full first page and an empty fourth. */
  lemma TwentyFiveRecords<T>(s: seq<T>)
    requires |s| == 25
    ensures CeilDiv(|s|, DefaultLimit) == 3
    ensures |Paginate(s, Skip(DefaultPage, DefaultLimit), DefaultLimit)| == 10
    ensures Paginate(s, Skip(4, DefaultLimit), DefaultLimit) == []
  {
  }
}
