/**
 * The query side of the command-line tool: keyword search over the stored
 * papers (`grep`), its ranking by year and venue, keyword parsing, the
 * missing-abstract listing and the dispatch of `main`.
 */
module Query {
  import opened Wrappers
  import opened Text
  import opened Db

  /** The venues the ranking knows, in ascending rank. */
  const Conferences: seq<string> := ["NDSS", "IEEE S&P", "USENIX", "CCS", "IEEE EuroS&P", "RAID",
                                     "ESORICS", "ACSAC", "AsiaCCS", "PETS"]

  // ---------------------------------------------------------------------------
  // Filtering
  // ---------------------------------------------------------------------------

  /** The elements of `s` that satisfy `f`, in their order in `s`. */
  function FilterBy<T>(s: seq<T>, f: T -> bool): (r: seq<T>)
    ensures |r| <= |s|
    ensures forall i :: 0 <= i < |r| ==> f(r[i])
  {
    if s == [] then [] else (if f(s[0]) then [s[0]] else []) + FilterBy(s[1..], f)
  }

  /** Filtering keeps exactly the elements that pass, each as often as it occurs. */
  lemma {:induction false} FilterByCount<T>(s: seq<T>, f: T -> bool, x: T)
    ensures multiset(FilterBy(s, f))[x] == if f(x) then multiset(s)[x] else 0
  {
    if s != [] {
      FilterByCount(s[1..], f, x);
      assert s == [s[0]] + s[1..];
      assert multiset(s) == multiset{s[0]} + multiset(s[1..]);
    }
  }

  lemma FilterByMember<T>(s: seq<T>, f: T -> bool, x: T)
    ensures x in FilterBy(s, f) <==> x in s && f(x)
  {
    FilterByCount(s, f, x);
    assert x in FilterBy(s, f) <==> x in multiset(FilterBy(s, f));
    assert x in s <==> x in multiset(s);
  }

  /** Filtering distributes over concatenation. */
  lemma {:induction false} FilterByAppend<T>(a: seq<T>, b: seq<T>, f: T -> bool)
    ensures FilterBy(a + b, f) == FilterBy(a, f) + FilterBy(b, f)
  {
    if a == [] {
      assert a + b == b;
    } else {
      var h := if f(a[0]) then [a[0]] else [];
      FilterByAppend(a[1..], b, f);
      assert a + b == [a[0]] + (a[1..] + b);
      assert [a[0]] + a[1..] == a;
      FilterByCons(a[0], a[1..] + b, f);
      FilterByCons(a[0], a[1..], f);
      AppendAssoc(h, FilterBy(a[1..], f), FilterBy(b, f));
    }
  }

  /** Filters that agree on every element select the same elements. */
  lemma {:induction false} FilterByCongruent<T>(s: seq<T>, f: T -> bool, g: T -> bool)
    requires forall i :: 0 <= i < |s| ==> f(s[i]) == g(s[i])
    ensures FilterBy(s, f) == FilterBy(s, g)
  {
    if s != [] {
      FilterByCongruent(s[1..], f, g);
    }
  }

  /** A filter every element passes keeps the whole sequence. */
  lemma {:induction false} FilterByAll<T>(s: seq<T>, f: T -> bool)
    requires forall i :: 0 <= i < |s| ==> f(s[i])
    ensures FilterBy(s, f) == s
  {
    if s != [] {
      FilterByAll(s[1..], f);
      assert [s[0]] + s[1..] == s;
    }
  }

  /**
   * SQLite `LIKE` without an escape character: `%` matches any run of
   * characters, `_` exactly one, and other characters match up to ASCII case.
   */
  predicate Like(pattern: string, s: string)
    decreases |pattern| + |s|
  {
    if pattern == [] then s == []
    else if pattern[0] == '%' then Like(pattern[1..], s) || (s != [] && Like(pattern, s[1..]))
    else if s == [] then false
    else if pattern[0] == '_' then Like(pattern[1..], s[1..])
    else LowerChar(pattern[0]) == LowerChar(s[0]) && Like(pattern[1..], s[1..])
  }

  /** SQLAlchemy's `column.icontains(k)`: `lower(column) LIKE '%' || lower(k) || '%'`. */
  predicate ILike(field: string, keyword: string) {
    Like("%" + AsciiLower(keyword) + "%", AsciiLower(field))
  }

  /** No `LIKE` wildcard. */
  predicate Plain(k: string) { '%' !in k && '_' !in k }

  /** Fixed by ASCII lower-casing. */
  predicate Lowered(s: string) { forall i :: 0 <= i < |s| ==> LowerChar(s[i]) == s[i] }

  lemma AsciiLowerLowered(s: string)
    ensures Lowered(AsciiLower(s))
    ensures Plain(s) ==> Plain(AsciiLower(s))
  {
    var l := AsciiLower(s);
    assert forall i :: 0 <= i < |s| ==> s[i] in s;
    assert forall i :: 0 <= i < |l| ==> l[i] == '%' ==> s[i] == '%';
    assert forall i :: 0 <= i < |l| ==> l[i] == '_' ==> s[i] == '_';
  }

  lemma {:induction false} LikeAnything(s: string)
    ensures Like("%", s)
  {
    if s != [] {
      LikeAnything(s[1..]);
    }
  }

  /** A plain, lower-case pattern followed by `%` matches a lower-case text exactly when it is a prefix of it. */
  lemma {:induction false} LikePrefix(p: string, s: string)
    requires Plain(p) && Lowered(p) && Lowered(s)
    ensures Like(p + "%", s) <==> p <= s
  {
    if p == [] {
      assert p + "%" == "%";
      LikeAnything(s);
    } else {
      assert (p + "%")[1..] == p[1..] + "%";
      assert p[0] in p;
      if s != [] {
        LikePrefix(p[1..], s[1..]);
        assert p <= s <==> p[0] == s[0] && p[1..] <= s[1..];
      }
    }
  }

  /** A leading `%` lets the rest of the pattern match any suffix. */
  lemma {:induction false} LikeLeadingPercent(q: string, s: string)
    ensures Like("%" + q, s) <==> exists i :: 0 <= i <= |s| && Like(q, s[i..])
  {
    assert ("%" + q)[1..] == q;
    assert s[0..] == s;
    if s != [] {
      LikeLeadingPercent(q, s[1..]);
      assert forall i :: 1 <= i <= |s| ==> s[i..] == s[1..][i - 1..];
      if exists i :: 0 <= i <= |s| && Like(q, s[i..]) {
        var i :| 0 <= i <= |s| && Like(q, s[i..]);
        if i > 0 {
          assert Like(q, s[1..][i - 1..]);
        }
      }
    }
  }

  /**
   * A keyword without `%` or `_` is found exactly when its lower-case form
   * occurs in the lower-case field.
   */
  lemma ILikeContains(field: string, k: string)
    requires Plain(k)
    ensures ILike(field, k) <==> Contains(AsciiLower(field), AsciiLower(k))
  {
    var lf, lk := AsciiLower(field), AsciiLower(k);
    AsciiLowerLowered(field);
    AsciiLowerLowered(k);
    assert "%" + lk + "%" == "%" + (lk + "%");
    LikeLeadingPercent(lk + "%", lf);
    forall i | 0 <= i <= |lf|
      ensures Like(lk + "%", lf[i..]) <==> OccursAt(lf, lk, i)
    {
      LikePrefix(lk, lf[i..]);
    }
  }

  /** `%` and `_` in a keyword act as wildcards: "a_c" finds "ABC" although "abc" does not contain "a_c". */
  lemma KeywordWildcard()
    ensures ILike("ABC", "a_c")
    ensures !Contains("abc", "a_c")
  {
    assert AsciiLower("ABC") == "abc";
    assert "%" + AsciiLower("a_c") + "%" == "%a_c%";
    assert Like("", "") && Like("%", "");
    assert Like("c%", "c") by { assert "c%"[1..] == "%" && "c"[1..] == ""; }
    assert Like("_c%", "bc") by { assert "_c%"[1..] == "c%" && "bc"[1..] == "c"; }
    assert Like("a_c%", "abc") by { assert "a_c%"[1..] == "_c%" && "abc"[1..] == "bc"; }
    assert Like("%a_c%", "abc") by { assert "%a_c%"[1..] == "a_c%"; }
    forall i | 0 <= i <= 3 ensures !OccursAt("abc", "a_c", i) {
      assert "abc"[i..] == ["abc"[0], "abc"[1], "abc"[2]][i..];
    }
  }

  /** `or_(title.icontains(k), abstract.icontains(k))`, for every keyword. */
  predicate Matches(p: Paper, keywords: seq<string>) {
    forall j :: 0 <= j < |keywords| ==> ILike(p.title, keywords[j]) || ILike(p.abstractText, keywords[j])
  }

  function Matching(keywords: seq<string>): Paper -> bool {
    p => Matches(p, keywords)
  }

  /** `session.query(Paper).filter(*constraints).all()`, in storage order. */
  function Search(store: seq<Paper>, keywords: seq<string>): (r: seq<Paper>)
    ensures forall i :: 0 <= i < |r| ==> Matches(r[i], keywords)
  {
    FilterBy(store, Matching(keywords))
  }

  /** A paper is found exactly when it is stored and every keyword occurs in its title or its abstract. */
  lemma SearchFinds(store: seq<Paper>, keywords: seq<string>, p: Paper)
    ensures p in Search(store, keywords) <==> p in store && Matches(p, keywords)
  {
    FilterByMember(store, Matching(keywords), p);
  }

  /** Without keywords the search returns every stored paper. */
  lemma SearchNoKeywords(store: seq<Paper>)
    ensures Search(store, []) == store
  {
    FilterByAll(store, Matching([]));
  }

  /**
   * Each keyword must occur within one field: a keyword that straddles the
   * end of the title and the start of the abstract is not found.
   */
  lemma PerFieldMatching()
    ensures var p := Paper(1, "NDSS", 2020, "ab", "", "cd", None);
      && !Matches(p, ["bc"])
      && Contains(p.title + p.abstractText, "bc")
  {
    var p := Paper(1, "NDSS", 2020, "ab", "", "cd", None);
    assert AsciiLower("ab") == "ab" && AsciiLower("cd") == "cd" && AsciiLower("bc") == "bc";
    ILikeContains("ab", "bc");
    ILikeContains("cd", "bc");
    forall i | 0 <= i <= 2 ensures !OccursAt("ab", "bc", i) {
      assert "ab"[i..] == ["ab"[0], "ab"[1]][i..];
    }
    forall i | 0 <= i <= 2 ensures !OccursAt("cd", "bc", i) {
      assert "cd"[i..] == ["cd"[0], "cd"[1]][i..];
    }
    assert !ILike(p.title, ["bc"][0]) && !ILike(p.abstractText, ["bc"][0]);
    assert OccursAt(p.title + p.abstractText, "bc", 1) by {
      assert p.title + p.abstractText == "abcd";
    }
  }

  // ---------------------------------------------------------------------------
  // Ranking
  // ---------------------------------------------------------------------------

  /** `xs.index(x)`: the first position of `x`, or `ValueError`. */
  function IndexIn(xs: seq<string>, x: string): (r: Result<nat>)
    ensures r.Ok? ==> r.value < |xs| && xs[r.value] == x && forall j :: 0 <= j < r.value ==> xs[j] != x
    ensures r.Err? <==> x !in xs
    ensures r.Err? ==> r.error == ValueError
  {
    if xs == [] then Err(ValueError)
    else if xs[0] == x then Ok(0)
    else
      var i :- IndexIn(xs[1..], x);
      Ok(i + 1)
  }

  /** The rank of a known venue. */
  function Venue(c: string): (r: nat)
    requires c in Conferences
    ensures r < |Conferences| && Conferences[r] == c
  {
    IndexIn(Conferences, c).value
  }

  /**
   * `paper.year + CONFERENCES.index(paper.conference)/10`, scaled by ten.
   * Papers from unknown venues never reach the sort, so they get key 0 here.
   */
  function Key(p: Paper): int {
    if p.conference in Conferences then 10 * p.year + Venue(p.conference) else 0
  }

  /** The integer key orders papers exactly as the fractional key `year + index/10` does. */
  lemma KeyMatchesFraction(p: Paper, q: Paper)
    requires p.conference in Conferences && q.conference in Conferences
    ensures Key(p) <= Key(q) <==>
      p.year as real + Venue(p.conference) as real / 10.0 <= q.year as real + Venue(q.conference) as real / 10.0
  {
  }

  /** Later years rank first; within a year, the venue later in the list ranks first. */
  lemma KeyOrder(p: Paper, q: Paper)
    requires p.conference in Conferences && q.conference in Conferences
    ensures Key(p) > Key(q) <==>
      p.year > q.year || (p.year == q.year && Venue(p.conference) > Venue(q.conference))
  {
  }

  /** Equal keys mean the same year and the same venue. */
  lemma KeyInjective(p: Paper, q: Paper)
    requires p.conference in Conferences && q.conference in Conferences
    ensures Key(p) == Key(q) <==> p.year == q.year && p.conference == q.conference
  {
    if Key(p) == Key(q) {
      assert p.year == q.year;
      assert Conferences[Venue(p.conference)] == p.conference;
    }
  }

  /** In the same year a PETS paper precedes an NDSS paper. */
  lemma PetsBeforeNdss(p: Paper, q: Paper)
    requires p.conference == "PETS" && q.conference == "NDSS" && p.year == q.year
    ensures Key(p) > Key(q)
  {
    assert Conferences[9] == "PETS" && Conferences[0] == "NDSS";
    assert forall j :: 0 <= j < 9 ==> Conferences[j] != "PETS";
  }

  /** Descending by `key`. */
  predicate Descending<T>(s: seq<T>, key: T -> int) {
    forall i, j :: 0 <= i < j < |s| ==> key(s[i]) >= key(s[j])
  }

  /** Places `x` after every element whose key is at least its own. */
  function Insert<T>(x: T, t: seq<T>, key: T -> int): (r: seq<T>)
    ensures multiset(r) == multiset(t) + multiset{x}
    ensures |r| == |t| + 1
    ensures r[0] == x || (t != [] && r[0] == t[0])
  {
    if t == [] then [x]
    else if key(t[0]) >= key(x) then
      assert t == [t[0]] + t[1..];
      [t[0]] + Insert(x, t[1..], key)
    else [x] + t
  }

  /** Inserting an element no larger than a bound into elements no larger than it stays below the bound. */
  lemma {:induction false} InsertBounded<T>(x: T, t: seq<T>, key: T -> int, b: int)
    requires key(x) <= b && forall i :: 0 <= i < |t| ==> key(t[i]) <= b
    ensures forall i :: 0 <= i < |t| + 1 ==> key(Insert(x, t, key)[i]) <= b
  {
    if t != [] && key(t[0]) >= key(x) {
      InsertBounded(x, t[1..], key, b);
      var r' := Insert(x, t[1..], key);
      assert Insert(x, t, key) == [t[0]] + r';
    }
  }

  lemma {:induction false} InsertDescending<T>(x: T, t: seq<T>, key: T -> int)
    requires Descending(t, key)
    ensures Descending(Insert(x, t, key), key)
  {
    var r := Insert(x, t, key);
    if t == [] {
    } else if key(t[0]) >= key(x) {
      InsertDescending(x, t[1..], key);
      InsertBounded(x, t[1..], key, key(t[0]));
      var r' := Insert(x, t[1..], key);
      assert r == [t[0]] + r';
      assert forall j :: 1 <= j < |r| ==> r[j] == r'[j - 1];
    } else {
      assert r == [x] + t;
      assert forall j :: 1 <= j < |r| ==> r[j] == t[j - 1];
    }
  }

  function KeyIs<T>(key: T -> int, k: int): T -> bool {
    x => key(x) == k
  }

  /** Insertion keeps elements of equal key in the order they were inserted. */
  lemma {:induction false} InsertStable<T>(x: T, t: seq<T>, key: T -> int, k: int)
    requires Descending(t, key)
    ensures FilterBy(Insert(x, t, key), KeyIs(key, k)) == FilterBy(t, KeyIs(key, k)) + FilterBy([x], KeyIs(key, k))
  {
    var f := KeyIs(key, k);
    if t == [] {
      assert FilterBy(t, f) == [];
    } else if key(t[0]) >= key(x) {
      var t' := t[1..];
      DescendingTail(t, key);
      InsertStable(x, t', key, k);
      InsertStableBehind(x, t, key, k);
    } else {
      InsertStableAhead(x, t, key, k);
    }
  }

  lemma DescendingTail<T>(t: seq<T>, key: T -> int)
    requires Descending(t, key) && t != []
    ensures Descending(t[1..], key)
  {
    assert forall i :: 0 <= i < |t| - 1 ==> t[1..][i] == t[i + 1];
  }

  /** The step where `x` goes behind the first element. */
  lemma InsertStableBehind<T>(x: T, t: seq<T>, key: T -> int, k: int)
    requires t != [] && key(t[0]) >= key(x)
    requires FilterBy(Insert(x, t[1..], key), KeyIs(key, k)) == FilterBy(t[1..], KeyIs(key, k)) + FilterBy([x], KeyIs(key, k))
    ensures FilterBy(Insert(x, t, key), KeyIs(key, k)) == FilterBy(t, KeyIs(key, k)) + FilterBy([x], KeyIs(key, k))
  {
    var f := KeyIs(key, k);
    var h := if f(t[0]) then [t[0]] else [];
    FilterInsertBehind(x, t, key, f);
    assert FilterBy(t, f) == h + FilterBy(t[1..], f);
    AppendAssoc(h, FilterBy(t[1..], f), FilterBy([x], f));
  }

  lemma FilterInsertBehind<T>(x: T, t: seq<T>, key: T -> int, f: T -> bool)
    requires t != [] && key(t[0]) >= key(x)
    ensures FilterBy(Insert(x, t, key), f) == (if f(t[0]) then [t[0]] else []) + FilterBy(Insert(x, t[1..], key), f)
  {
    assert Insert(x, t, key) == [t[0]] + Insert(x, t[1..], key);
    FilterByCons(t[0], Insert(x, t[1..], key), f);
  }

  lemma AppendAssoc<T>(a: seq<T>, b: seq<T>, c: seq<T>)
    ensures a + (b + c) == (a + b) + c
  {
  }

  lemma FilterByCons<T>(x: T, s: seq<T>, f: T -> bool)
    ensures FilterBy([x] + s, f) == (if f(x) then [x] else []) + FilterBy(s, f)
  {
    assert ([x] + s)[1..] == s;
  }

  /** The step where `x` goes in front of all elements, which then all have smaller keys. */
  lemma InsertStableAhead<T>(x: T, t: seq<T>, key: T -> int, k: int)
    requires Descending(t, key)
    requires t != [] && key(t[0]) < key(x)
    ensures FilterBy(Insert(x, t, key), KeyIs(key, k)) == FilterBy(t, KeyIs(key, k)) + FilterBy([x], KeyIs(key, k))
  {
    var f := KeyIs(key, k);
    assert Insert(x, t, key) == [x] + t;
    FilterByAppend([x], t, f);
    if key(x) == k {
      assert forall i :: 0 <= i < |t| ==> key(t[i]) <= key(t[0]) < k;
      FilterByNoneOf(t, f);
    } else {
      assert !f(x);
      assert FilterBy([x], f) == [];
    }
  }

  lemma {:induction false} FilterByNoneOf<T>(s: seq<T>, f: T -> bool)
    requires forall i :: 0 <= i < |s| ==> !f(s[i])
    ensures FilterBy(s, f) == []
  {
    if s != [] {
      FilterByNoneOf(s[1..], f);
    }
  }

  /** Python's `sorted(s, key=key, reverse=True)`: descending, stable, by insertion of each element in turn. */
  function SortDesc<T>(s: seq<T>, key: T -> int): (r: seq<T>)
    ensures multiset(r) == multiset(s)
    ensures Descending(r, key)
  {
    if s == [] then []
    else
      var t := SortDesc(s[..|s| - 1], key);
      InsertDescending(s[|s| - 1], t, key);
      assert s == s[..|s| - 1] + [s[|s| - 1]];
      Insert(s[|s| - 1], t, key)
  }

  /** Elements with equal keys keep their relative order. */
  lemma {:induction false} SortStable<T>(s: seq<T>, key: T -> int, k: int)
    ensures FilterBy(SortDesc(s, key), KeyIs(key, k)) == FilterBy(s, KeyIs(key, k))
  {
    if s != [] {
      var init, last := s[..|s| - 1], s[|s| - 1];
      SortDescSnoc(s, key, init, last);
      SortStable(init, key, k);
      InsertStable(last, SortDesc(init, key), key, k);
      FilterByAppend(init, [last], KeyIs(key, k));
    }
  }

  lemma SortDescSnoc<T>(s: seq<T>, key: T -> int, init: seq<T>, last: T)
    requires s != [] && init == s[..|s| - 1] && last == s[|s| - 1]
    ensures s == init + [last]
    ensures SortDesc(s, key) == Insert(last, SortDesc(init, key), key)
    ensures Descending(SortDesc(init, key), key)
  {
  }

  /**
   * `grep(keywords)`: the matching papers, latest year first and, within a
   * year, later venues of `CONFERENCES` first; `ValueError` when a matching
   * paper's venue is not in `CONFERENCES`.
   */
  function Grep(store: seq<Paper>, keywords: seq<string>): (r: Result<seq<Paper>>)
    ensures r.Err? ==> r.error == ValueError
  {
    var found := Search(store, keywords);
    if forall i :: 0 <= i < |found| ==> found[i].conference in Conferences then
      Ok(SortDesc(found, Key))
    else
      Err(ValueError)
  }

  /** `grep` fails exactly when a matching paper comes from a venue the ranking does not know. */
  lemma GrepFails(store: seq<Paper>, keywords: seq<string>)
    ensures Grep(store, keywords).Err? <==>
      exists p :: p in store && Matches(p, keywords) && p.conference !in Conferences
  {
    var found := Search(store, keywords);
    if Grep(store, keywords).Err? {
      var i :| 0 <= i < |found| && found[i].conference !in Conferences;
      SearchFinds(store, keywords, found[i]);
    }
    if exists p :: p in store && Matches(p, keywords) && p.conference !in Conferences {
      var p :| p in store && Matches(p, keywords) && p.conference !in Conferences;
      SearchFinds(store, keywords, p);
      var i :| 0 <= i < |found| && found[i] == p;
    }
  }

  /** A matching WWW paper makes the whole query fail. */
  lemma GrepFailsOnWww(store: seq<Paper>, keywords: seq<string>, p: Paper)
    requires p in store && Matches(p, keywords) && p.conference == "WWW"
    ensures Grep(store, keywords) == Err(ValueError)
  {
    GrepFails(store, keywords);
  }

  /** Sorting neither adds, drops nor duplicates a paper. */
  lemma GrepPermutes(store: seq<Paper>, keywords: seq<string>)
    requires Grep(store, keywords).Ok?
    ensures multiset(Grep(store, keywords).value) == multiset(Search(store, keywords))
  {
  }

  /** Later years first; in the same year, venues later in `CONFERENCES` first. */
  lemma GrepOrder(store: seq<Paper>, keywords: seq<string>)
    requires Grep(store, keywords).Ok?
    ensures var r := Grep(store, keywords).value;
      forall i, j :: 0 <= i < j < |r| ==>
        && r[i].conference in Conferences && r[j].conference in Conferences
        && r[i].year >= r[j].year
        && (r[i].year == r[j].year ==> Venue(r[i].conference) >= Venue(r[j].conference))
  {
    var found := Search(store, keywords);
    var r := SortDesc(found, Key);
    assert Grep(store, keywords).value == r;
    forall i | 0 <= i < |r|
      ensures r[i].conference in Conferences
    {
      assert r[i] in multiset(found);
      var k :| 0 <= k < |found| && found[k] == r[i];
    }
    KeyDescending(r);
  }

  /** A key-descending list of known venues runs by year, then by venue, downwards. */
  lemma KeyDescending(r: seq<Paper>)
    requires forall i :: 0 <= i < |r| ==> r[i].conference in Conferences
    requires Descending(r, Key)
    ensures forall i, j :: 0 <= i < j < |r| ==>
      r[i].year >= r[j].year && (r[i].year == r[j].year ==> Venue(r[i].conference) >= Venue(r[j].conference))
  {
    forall i, j | 0 <= i < j < |r|
      ensures r[i].year >= r[j].year
      ensures r[i].year == r[j].year ==> Venue(r[i].conference) >= Venue(r[j].conference)
    {
      KeyOrder(r[j], r[i]);
    }
  }

  /** Papers of one year and one venue, in their order. */
  function Slot(year: int, conference: string): Paper -> bool {
    (p: Paper) => p.year == year && p.conference == conference
  }

  /** Papers of the same year and venue come out in the order the store holds them. */
  lemma GrepStable(store: seq<Paper>, keywords: seq<string>, year: int, conference: string)
    requires Grep(store, keywords).Ok? && conference in Conferences
    ensures FilterBy(Grep(store, keywords).value, Slot(year, conference))
         == FilterBy(Search(store, keywords), Slot(year, conference))
  {
    var found := Search(store, keywords);
    var r := Grep(store, keywords).value;
    var q := Paper(0, conference, year, "", "", "", None);
    assert forall i :: 0 <= i < |found| ==> found[i] in found;
    assert forall i :: 0 <= i < |r| ==> r[i] in multiset(found);
    forall i | 0 <= i < |found| ensures Slot(year, conference)(found[i]) == KeyIs(Key, Key(q))(found[i]) {
      KeyInjective(found[i], q);
    }
    forall i | 0 <= i < |r| ensures Slot(year, conference)(r[i]) == KeyIs(Key, Key(q))(r[i]) {
      KeyInjective(r[i], q);
    }
    FilterByCongruent(found, Slot(year, conference), KeyIs(Key, Key(q)));
    FilterByCongruent(r, Slot(year, conference), KeyIs(Key, Key(q)));
    SortStable(found, Key, Key(q));
  }

  // ---------------------------------------------------------------------------
  // Keywords, the missing-abstract listing and the command line
  // ---------------------------------------------------------------------------

  /** `[x.strip() for x in k.split(',')]`. */
  function ParseKeywords(k: string): (r: seq<string>)
    ensures |r| == Count(k, ',') + 1
    ensures forall i :: 0 <= i < |r| ==> ',' !in r[i] && (r[i] == [] || (!IsSpace(r[i][0]) && !IsSpace(r[i][|r[i]| - 1])))
  {
    var parts := Split(k, ',');
    SplitShape(k, ',');
    var r := seq(|parts|, i requires 0 <= i < |parts| => Strip(parts[i]));
    assert forall i :: 0 <= i < |r| ==> ',' !in r[i] by {
      forall i | 0 <= i < |r| ensures ',' !in r[i] {
        NoCharInContained(parts[i], r[i], ',');
      }
    }
    r
  }

  lemma NoCharInContained(s: string, t: string, c: char)
    requires Contains(s, t) && c !in s
    ensures c !in t
  {
    var i :| 0 <= i <= |s| && OccursAt(s, t, i);
    assert forall j :: 0 <= j < |t| ==> t[j] == s[i + j];
  }

  lemma StripPlain(s: string)
    requires forall i :: 0 <= i < |s| ==> !IsSpace(s[i])
    ensures Strip(s) == s
  {
  }

  /** Without whitespace in the option, the keywords joined by commas give the option back. */
  lemma ParseKeywordsJoin(k: string)
    requires forall i :: 0 <= i < |k| ==> !IsSpace(k[i])
    ensures Join(",", ParseKeywords(k)) == k
  {
    var parts := Split(k, ',');
    SplitShape(k, ',');
    forall i | 0 <= i < |parts| ensures Strip(parts[i]) == parts[i] {
      forall j | 0 <= j < |parts[i]| ensures !IsSpace(parts[i][j]) {
        SplitPiecesFromString(k, ',', i, j);
      }
      StripPlain(parts[i]);
    }
    assert ParseKeywords(k) == parts;
    JoinSplit(k, ',');
  }

  /** Every character of a piece of `Split(s, c)` is a character of `s`. */
  lemma {:induction false} SplitPiecesFromString(s: string, c: char, i: int, j: int)
    requires 0 <= i < |Split(s, c)| && 0 <= j < |Split(s, c)[i]|
    ensures Split(s, c)[i][j] in s
  {
    var rest := Split(s[1..], c);
    if s[0] == c {
      SplitPiecesFromString(s[1..], c, i - 1, j);
    } else if i == 0 && j == 0 {
    } else if i == 0 {
      SplitPiecesFromString(s[1..], c, 0, j - 1);
    } else {
      SplitPiecesFromString(s[1..], c, i, j);
    }
  }

  /** Each keyword with whitespace `pre[i]` before it and `post[i]` after it. */
  function Reframed(pre: seq<string>, keywords: seq<string>, post: seq<string>): seq<string>
    requires |pre| == |keywords| == |post|
  {
    seq(|keywords|, i requires 0 <= i < |keywords| => pre[i] + keywords[i] + post[i])
  }

  /**
   * The keywords are the comma-separated pieces of the option with the
   * whitespace around each one removed: putting that whitespace back and
   * joining with commas gives the option. With the contract of
   * `ParseKeywords` and `StripFramed`, this fixes every keyword.
   */
  lemma ParseKeywordsExact(k: string)
    ensures exists pre: seq<string>, post: seq<string> ::
      && |pre| == |ParseKeywords(k)| == |post|
      && (forall i :: 0 <= i < |pre| ==> AllSpace(pre[i]) && AllSpace(post[i]))
      && Join(",", Reframed(pre, ParseKeywords(k), post)) == k
  {
    var parts := Split(k, ',');
    var r := ParseKeywords(k);
    ParseKeywordsStrips(k, parts, r);
    var pre, post := Unstripped(parts, r);
    ReframedJoin(k, pre, r, post);
  }

  lemma ParseKeywordsStrips(k: string, parts: seq<string>, r: seq<string>)
    requires parts == Split(k, ',') && r == ParseKeywords(k)
    ensures |r| == |parts| && forall i :: 0 <= i < |r| ==> r[i] == Strip(parts[i])
  {
  }

  lemma ReframedJoin(k: string, pre: seq<string>, r: seq<string>, post: seq<string>)
    requires |pre| == |r| == |post|
    requires Reframed(pre, r, post) == Split(k, ',')
    ensures Join(",", Reframed(pre, r, post)) == k
  {
    JoinSplit(k, ',');
  }

  /** The whitespace `strip()` took off each of `parts`. */
  lemma Unstripped(parts: seq<string>, r: seq<string>) returns (pre: seq<string>, post: seq<string>)
    requires |r| == |parts| && forall i :: 0 <= i < |r| ==> r[i] == Strip(parts[i])
    ensures |pre| == |r| == |post|
    ensures forall i :: 0 <= i < |pre| ==> AllSpace(pre[i]) && AllSpace(post[i])
    ensures Reframed(pre, r, post) == parts
  {
    pre := seq(|parts|, i requires 0 <= i < |parts| => StripHead(parts[i]));
    post := seq(|parts|, i requires 0 <= i < |parts| => StripTail(parts[i]));
    forall i | 0 <= i < |parts|
      ensures AllSpace(pre[i]) && AllSpace(post[i]) && pre[i] + r[i] + post[i] == parts[i]
    {
      StripPieces(parts[i]);
    }
  }

  /** Keyword parsing always yields at least one keyword, so the "no keyword" warning branch is never taken. */
  lemma ParseKeywordsNonEmpty(k: string)
    ensures |ParseKeywords(k)| >= 1
  {
  }

  function MissingAbstract(): Paper -> bool {
    (p: Paper) => p.abstractText == ""
  }

  /** `list_missing_abstract`: the papers whose abstract is the empty string, in storage order. */
  function ListMissingAbstract(store: seq<Paper>): (r: seq<Paper>)
    ensures forall i :: 0 <= i < |r| ==> r[i].abstractText == ""
  {
    FilterBy(store, MissingAbstract())
  }

  /** Every stored paper with an empty abstract is listed, as often as it is stored, and no other. */
  lemma ListMissingAbstractExact(store: seq<Paper>, p: Paper)
    ensures multiset(ListMissingAbstract(store))[p] == if p.abstractText == "" then multiset(store)[p] else 0
  {
    FilterByCount(store, MissingAbstract(), p);
  }

  /** The options `main` reads. */
  datatype Options = Options(
    keywords: string,            // -k
    buildDb: bool,               // --build-db
    abstracts: bool,             // --abstracts
    loadAbstracts: bool,         // --load-abstracts
    listMissingAbstract: bool)   // --list-missing-abstract

  /** What `main` ends up doing. */
  datatype Outcome =
    | ListedMissing(papers: seq<Paper>)
    | Shown(keywords: seq<string>, papers: seq<Paper>, withAbstracts: bool)
    | Built
    | Idle

  /**
   * `main()` as written: the listing wins, then a non-empty `-k`, then
   * `--build-db`, whose call `build_db(args.load_abstracts)` passes an
   * argument to a function that takes none.
   */
  function RunAsWritten(opts: Options, dbExists: bool, store: seq<Paper>): (r: Result<Outcome>)
    ensures opts.listMissingAbstract ==> r == Ok(ListedMissing(ListMissingAbstract(store)))
    ensures !opts.listMissingAbstract && opts.keywords == "" && opts.buildDb ==> r == Err(TypeError)
  {
    if opts.listMissingAbstract then Ok(ListedMissing(ListMissingAbstract(store)))
    else if opts.keywords != "" then GrepCommand(opts, dbExists, store)
    else if opts.buildDb then Err(TypeError)
    else Ok(Idle)
  }

  /** `main()` with the build call made as `build_db()`. */
  function Run(opts: Options, dbExists: bool, store: seq<Paper>): (r: Result<Outcome>)
    ensures opts.listMissingAbstract ==> r == Ok(ListedMissing(ListMissingAbstract(store)))
    ensures !opts.listMissingAbstract && opts.keywords == "" ==> r == Ok(if opts.buildDb then Built else Idle)
    ensures r.Err? ==> !opts.listMissingAbstract && opts.keywords != ""
  {
    if opts.listMissingAbstract then Ok(ListedMissing(ListMissingAbstract(store)))
    else if opts.keywords != "" then GrepCommand(opts, dbExists, store)
    else if opts.buildDb then Ok(Built)
    else Ok(Idle)
  }

  /** The `-k` branch: the database file must exist, then `grep` runs on the parsed keywords. */
  function GrepCommand(opts: Options, dbExists: bool, store: seq<Paper>): (r: Result<Outcome>)
    requires opts.keywords != ""
    ensures !dbExists ==> r == Err(AssertionError)
    ensures r.Ok? ==> r.value.Shown? && |r.value.keywords| >= 1 && r.value.withAbstracts == opts.abstracts
  {
    if !dbExists then Err(AssertionError)
    else
      var keywords := ParseKeywords(opts.keywords);
      var papers :- Grep(store, keywords);
      Ok(Shown(keywords, papers, opts.abstracts))
  }

  /** `--build-db` alone raises `TypeError` as written; with the call fixed it builds the database. */
  lemma BuildDbCallMismatch(opts: Options, dbExists: bool, store: seq<Paper>)
    requires opts.buildDb && !opts.listMissingAbstract && opts.keywords == ""
    ensures RunAsWritten(opts, dbExists, store) == Err(TypeError)
    ensures Run(opts, dbExists, store) == Ok(Built)
  {
  }

  /** The fix changes nothing but the `--build-db` branch. */
  lemma RunAgreesElsewhere(opts: Options, dbExists: bool, store: seq<Paper>)
    requires !(opts.buildDb && !opts.listMissingAbstract && opts.keywords == "")
    ensures RunAsWritten(opts, dbExists, store) == Run(opts, dbExists, store)
  {
  }
}
