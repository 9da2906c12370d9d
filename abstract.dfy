/**
 * Abstract extraction: finding the publisher link of a listing entry, the
 * per-publisher extractors and their text post-processing, and the map from
 * venue to extractor.
 *
 * The web and the browser are parameters. A `Web` gives, for a URL, what
 * `requests.get` returns as seen through the HTML parser; a `Browser` gives
 * what the Selenium code reads from the rendered page.
 */
module Abstract {
  import opened Wrappers
  import opened Text
  import Url
  import Query

  // ---------------------------------------------------------------------------
  // Inputs
  // ---------------------------------------------------------------------------

  /** The element that follows the text node matching `Abstract:`, and the paragraph around it, as text. */
  datatype Label = Label(nextText: Option<string>, parentParagraph: Option<string>)

  /** The sibling after an `<h3>` heading matching `Abstract`, as text. */
  datatype Heading = Heading(nextSibling: Option<string>)

  /** A fetched page: status code, final URL after redirects, and the elements the extractors look up. */
  datatype Page = Page(
    status: int,
    finalUrl: string,
    paperData: Option<seq<string>>,       // texts of the `<p>`s in `div.paper-data`
    abstractLabel: Option<Label>,         // `find(string=re.compile("Abstract:"))`
    abstractHeading: Option<Heading>,     // `find('h3', string=re.compile("Abstract"))`
    abstractSection: Option<seq<string>>) // texts of the `<p>`s in `section[data-title=Abstract]`

  datatype Fetch = Unreachable | Fetched(page: Page)

  /** What the browser code reads after waiting for the page: nothing in time, or the element's text if present. */
  datatype Rendered = TimedOut | Loaded(text: Option<string>)

  type Web = string -> Fetch
  type Browser = string -> Rendered

  /** The `li.ee` item of a listing entry and its first link. */
  datatype Link = NoEeItem | NoAnchor | Anchor(href: Option<string>)

  /** `requests.get(url)` followed by `assert r.status_code == 200`. */
  function Get(web: Web, url: string): (r: Result<Page>)
    ensures r.Ok? ==> web(url) == Fetched(r.value) && r.value.status == 200
    ensures r.Err? ==> r.error in {RequestException, AssertionError}
  {
    match web(url)
    case Unreachable => Err(RequestException)
    case Fetched(p) => if p.status != 200 then Err(AssertionError) else Ok(p)
  }

  /** Reading an attribute of what `find` returned: `AttributeError` on `None`. */
  function Found<T>(o: Option<T>): (r: Result<T>)
    ensures o.Some? ==> r == Ok(o.value)
    ensures o.None? ==> r == Err(AttributeError)
  {
    match o
    case None => Err(AttributeError)
    case Some(v) => Ok(v)
  }

  /** `driver.get(url)`, the wait, and `find_element(...).text`. */
  function Render(browser: Browser, url: string): (r: Result<string>)
    ensures r.Ok? <==> browser(url).Loaded? && browser(url).text.Some?
    ensures r.Ok? ==> r.value == browser(url).text.value
  {
    match browser(url)
    case TimedOut => Err(TimeoutException)
    case Loaded(None) => Err(NoSuchElementException)
    case Loaded(Some(t)) => Ok(t)
  }

  // ---------------------------------------------------------------------------
  // NDSS
  // ---------------------------------------------------------------------------

  /** `t.strip() == ''`: by the contract of `Strip`, exactly when `t` is whitespace only. */
  predicate Blank(t: string) { AllSpace(t) }

  /** Non-empty, and neither end is whitespace: what `strip()` returns for a non-blank text. */
  predicate Trimmed(t: string) {
    t != [] && !IsSpace(t[0]) && !IsSpace(t[|t| - 1])
  }

  /**
   * The paragraphs the filter lets through, stripped: non-blank and without
   * the first author's name. `authors[0]` is only evaluated for a non-blank
   * paragraph, so an empty author list raises `IndexError` exactly when
   * some paragraph is non-blank.
   */
  function Candidates(texts: seq<string>, authors: seq<string>): (r: Result<seq<string>>)
    ensures r.Err? ==> r.error == IndexError
    ensures r.Ok? ==> |r.value| <= |texts|
  {
    if texts == [] then Ok([])
    else Pass(Candidates(texts[..|texts| - 1], authors), texts[|texts| - 1], authors)
  }

  /** The filter applied to one more paragraph `t`. */
  function Pass(prev: Result<seq<string>>, t: string, authors: seq<string>): (r: Result<seq<string>>)
    ensures r.Err? ==> r.error == IndexError || r == prev
    ensures r.Ok? ==> prev.Ok? && |r.value| <= |prev.value| + 1
  {
    if prev.Err? || Blank(t) then prev
    else if authors == [] then Err(IndexError)
    else if Contains(t, authors[0]) then prev
    else Ok(prev.value + [Strip(t)])
  }

  /** Every paragraph kept is stripped, non-empty and free of the first author's name. */
  lemma {:induction false} CandidatesClean(texts: seq<string>, authors: seq<string>)
    requires Candidates(texts, authors).Ok?
    ensures forall k :: 0 <= k < |Candidates(texts, authors).value| ==> Clean(Candidates(texts, authors).value[k], authors)
  {
    if texts != [] {
      var init, t := texts[..|texts| - 1], texts[|texts| - 1];
      CandidatesClean(init, authors);
      var prev := Candidates(init, authors).value;
      if !Blank(t) && authors != [] && !Contains(t, authors[0]) {
        NoAuthorInStripped(t, authors[0]);
        assert Candidates(texts, authors).value == prev + [Strip(t)];
      } else {
        assert Candidates(texts, authors).value == prev;
      }
    }
  }

  /** Stripped, non-empty and free of the first author's name. */
  predicate Clean(c: string, authors: seq<string>) {
    Trimmed(c) && authors != [] && !Contains(c, authors[0])
  }

  lemma NoAuthorInStripped(t: string, name: string)
    requires !Contains(t, name)
    ensures !Contains(Strip(t), name)
  {
    if Contains(Strip(t), name) {
      ContainsTransitive(t, Strip(t), name);
    }
  }

  /** `Candidates` one paragraph further on. */
  lemma CandidatesSnoc(texts: seq<string>, t: string, authors: seq<string>)
    ensures Candidates(texts + [t], authors) == Pass(Candidates(texts, authors), t, authors)
  {
    assert (texts + [t])[..|texts|] == texts;
  }

  /** `ap_list` fails only on an empty author list, and then exactly when some paragraph is non-blank. */
  lemma {:induction false} CandidatesFail(texts: seq<string>, authors: seq<string>)
    ensures Candidates(texts, authors).Err? <==> authors == [] && exists k :: 0 <= k < |texts| && !Blank(texts[k])
  {
    if texts != [] {
      var init, t := texts[..|texts| - 1], texts[|texts| - 1];
      assert texts == init + [t];
      CandidatesFail(init, authors);
      CandidatesSnoc(init, t, authors);
      if exists k :: 0 <= k < |init| && !Blank(init[k]) {
        var k :| 0 <= k < |init| && !Blank(init[k]);
        assert texts[k] == init[k];
      }
      if exists k :: 0 <= k < |texts| && !Blank(texts[k]) {
        var k :| 0 <= k < |texts| && !Blank(texts[k]);
        if k < |init| {
          assert init[k] == texts[k];
        }
      }
    }
  }

  /** The NDSS filter on one paragraph: non-blank and without the first author's name. */
  function Qualifies(authors: seq<string>): string -> bool {
    t => authors != [] && !Blank(t) && !Contains(t, authors[0])
  }

  /** Each text stripped, in the same order. */
  function StripEach(texts: seq<string>): seq<string> {
    seq(|texts|, k requires 0 <= k < |texts| => Strip(texts[k]))
  }

  lemma StripEachAppend(a: seq<string>, b: seq<string>)
    ensures StripEach(a + b) == StripEach(a) + StripEach(b)
  {
    assert forall k :: 0 <= k < |a| ==> (a + b)[k] == a[k];
    assert forall k :: |a| <= k < |a| + |b| ==> (a + b)[k] == b[k - |a|];
  }

  /**
   * When the filter does not fail, it keeps exactly the paragraphs that
   * qualify, stripped, in page order: `Query.FilterBy` gives membership
   * both ways and order.
   */
  lemma {:induction false} CandidatesSelect(texts: seq<string>, authors: seq<string>)
    ensures Candidates(texts, authors).Ok? ==>
      Candidates(texts, authors).value == StripEach(Query.FilterBy(texts, Qualifies(authors)))
  {
    if texts != [] && Candidates(texts, authors).Ok? {
      var init, t := texts[..|texts| - 1], texts[|texts| - 1];
      var f := Qualifies(authors);
      assert texts == init + [t];
      CandidatesSelect(init, authors);
      var prev := Candidates(init, authors).value;
      Query.FilterByAppend(init, [t], f);
      assert Query.FilterBy([t], f) == if f(t) then [t] else [] by {
        assert [t][1..] == [];
      }
      StripEachAppend(Query.FilterBy(init, f), Query.FilterBy([t], f));
      if f(t) {
        assert Candidates(texts, authors).value == prev + [Strip(t)];
      } else {
        assert Candidates(texts, authors).value == prev;
      }
    }
  }

  /** The paragraphs the filter keeps are stripped page paragraphs, in page order. */
  lemma {:induction false} CandidatesInOrder(texts: seq<string>, authors: seq<string>)
    requires Candidates(texts, authors).Ok?
    ensures Subsequence(Candidates(texts, authors).value, StripEach(texts))
  {
    if texts != [] {
      var init, t := texts[..|texts| - 1], texts[|texts| - 1];
      CandidatesInOrder(init, authors);
      var prev := Candidates(init, authors).value;
      var c := Candidates(texts, authors).value;
      var all := StripEach(texts);
      assert all[..|all| - 1] == StripEach(init);
      assert all[|all| - 1] == Strip(t);
      if c != prev {
        assert c == prev + [Strip(t)];
        assert c[..|c| - 1] == prev;
      }
    }
  }

  /** Leaving out elements twice is leaving out elements once. */
  lemma {:induction false} SubsequenceTransitive(a: seq<string>, b: seq<string>, c: seq<string>)
    requires Subsequence(a, b) && Subsequence(b, c)
    ensures Subsequence(a, c)
    decreases |c|
  {
    if a != [] {
      var c' := c[..|c| - 1];
      if Subsequence(b, c') {
        SubsequenceTransitive(a, b, c');
      } else {
        var b' := b[..|b| - 1];
        if a[|a| - 1] == b[|b| - 1] && Subsequence(a[..|a| - 1], b') {
          SubsequenceTransitive(a[..|a| - 1], b', c');
        } else {
          SubsequenceTransitive(a, b', c');
        }
      }
    }
  }

  /** Some already-kept paragraph contains `x`. */
  predicate Covered(kept: seq<string>, x: string) {
    exists m :: 0 <= m < |kept| && Contains(kept[m], x)
  }

  /** The de-duplication: each paragraph is kept unless an already-kept one contains it. */
  function Dedup(c: seq<string>): (r: seq<string>)
    ensures |r| <= |c|
  {
    if c == [] then []
    else
      var kept := Dedup(c[..|c| - 1]);
      if Covered(kept, c[|c| - 1]) then kept else kept + [c[|c| - 1]]
  }

  /** `Dedup` one paragraph further on. */
  lemma DedupSnoc(c: seq<string>, x: string)
    ensures Dedup(c + [x]) == if Covered(Dedup(c), x) then Dedup(c) else Dedup(c) + [x]
  {
    assert (c + [x])[..|c|] == c;
  }

  /** The NDSS paragraph list for a `paper-data` block. */
  function NdssParagraphs(texts: seq<string>, authors: seq<string>): Result<seq<string>> {
    var c :- Candidates(texts, authors);
    Ok(Dedup(c))
  }

  /** The inner `for ... else` over `ap_list[:i]`: whether some earlier paragraph contains `ap`. */
  method AlreadyKept(prev: seq<string>, ap: string) returns (found: bool)
    ensures found == Covered(prev, ap)
  {
    found := false;
    var j := 0;
    while j < |prev|
      invariant 0 <= j <= |prev|
      invariant forall m :: 0 <= m < j ==> !Contains(prev[m], ap)
    {
      if Contains(prev[j], ap) {
        return true;
      }
      j := j + 1;
    }
  }

  /** One turn of the loop: `ap` is appended unless one of `ap_list[:i]` contains it. */
  method KeepUnlessCovered(apList: seq<string>, i: int, ghost passed: seq<string>, ap: string) returns (next: seq<string>)
    requires apList == Dedup(passed) && i == |passed|
    ensures next == Dedup(passed + [ap])
  {
    DedupSnoc(passed, ap);
    // `ap_list[:i]`: Python clamps the slice to the list, which is never longer than `i`
    var upto := if i < |apList| then i else |apList|;
    assert apList[..upto] == apList;
    var found := AlreadyKept(apList[..upto], ap);
    next := if found then apList else apList + [ap];
  }

  /**
   * The loop of `AbstractNDSS.get_abstract_from_publisher`: it walks the
   * paragraph texts, numbers the ones the filter lets through with `i`, and
   * appends a stripped paragraph unless one of `ap_list[:i]` contains it.
   */
  method SelectParagraphs(texts: seq<string>, authors: seq<string>) returns (r: Result<seq<string>>)
    ensures r == NdssParagraphs(texts, authors)
  {
    var apList: seq<string> := [];
    var i := 0;
    ghost var passed: seq<string> := [];
    for k := 0 to |texts|
      invariant Candidates(texts[..k], authors) == Ok(passed)
      invariant i == |passed|
      invariant apList == Dedup(passed)
    {
      var x := texts[k];
      assert texts[..k + 1] == texts[..k] + [x];
      CandidatesSnoc(texts[..k], x, authors);
      if !Blank(x) {
        if authors == [] {
          assert !Blank(texts[k]);
          CandidatesFail(texts, authors);
          return Err(IndexError);
        }
        if !Contains(x, authors[0]) {
          var ap := Strip(x);
          apList := KeepUnlessCovered(apList, i, passed, ap);
          i := i + 1;
          passed := passed + [ap];
        }
      }
    }
    assert texts[..|texts|] == texts;
    return Ok(apList);
  }

  /** The first paragraph that passes the filter is always kept. */
  lemma {:induction false} DedupKeepsFirst(c: seq<string>)
    requires c != []
    ensures Dedup(c) != [] && Dedup(c)[0] == c[0]
  {
    if |c| > 1 {
      DedupKeepsFirst(c[..|c| - 1]);
    }
  }

  /** `a` is `b` with some elements left out. */
  predicate Subsequence(a: seq<string>, b: seq<string>)
    decreases |b|
  {
    if a == [] then true
    else if b == [] then false
    else (a[|a| - 1] == b[|b| - 1] && Subsequence(a[..|a| - 1], b[..|b| - 1])) || Subsequence(a, b[..|b| - 1])
  }

  /** Kept paragraphs appear in their document order. */
  lemma {:induction false} DedupInOrder(c: seq<string>)
    ensures Subsequence(Dedup(c), c)
  {
    if c != [] {
      var init := c[..|c| - 1];
      DedupInOrder(init);
      var kept := Dedup(init);
      if !Covered(kept, c[|c| - 1]) {
        assert (kept + [c[|c| - 1]])[..|kept|] == kept;
      }
    }
  }

  /** Every paragraph that passes the filter is contained in some kept one. */
  lemma {:induction false} DedupCovers(c: seq<string>)
    ensures forall k :: 0 <= k < |c| ==> Covered(Dedup(c), c[k])
  {
    if c != [] {
      var init := c[..|c| - 1];
      DedupCovers(init);
      var kept := Dedup(init);
      var last := c[|c| - 1];
      forall k | 0 <= k < |c| ensures Covered(Dedup(c), c[k]) {
        if k < |c| - 1 {
          assert c[k] == init[k];
          var m :| 0 <= m < |kept| && Contains(kept[m], c[k]);
          assert Dedup(c)[m] == kept[m];
        } else if !Covered(kept, last) {
          ContainsSelf(last);
          assert Dedup(c)[|kept|] == last;
        }
      }
    }
  }

  /** No kept paragraph is contained in a paragraph kept before it. */
  lemma {:induction false} DedupNoLaterInEarlier(c: seq<string>)
    ensures forall m, n :: 0 <= m < n < |Dedup(c)| ==> !Contains(Dedup(c)[m], Dedup(c)[n])
  {
    if c != [] {
      var init := c[..|c| - 1];
      DedupNoLaterInEarlier(init);
      var kept := Dedup(init);
      var x := c[|c| - 1];
      if !Covered(kept, x) {
        var d := kept + [x];
        assert Dedup(c) == d;
        forall m, n | 0 <= m < n < |d| ensures !Contains(d[m], d[n]) {
          assert d[m] == kept[m];
          if n < |kept| {
            assert d[n] == kept[n];
            assert !Contains(kept[m], kept[n]);
          } else {
            assert d[n] == x;
            assert !Contains(kept[m], x);
          }
        }
      }
    }
  }

  /** Every kept paragraph is one of the paragraphs that passed the filter. */
  lemma {:induction false} DedupFrom(c: seq<string>)
    ensures forall m :: 0 <= m < |Dedup(c)| ==> Dedup(c)[m] in c
  {
    if c != [] {
      var init := c[..|c| - 1];
      DedupFrom(init);
      assert forall x :: x in init ==> x in c;
    }
  }

  /** The NDSS abstract's paragraphs appear in page order, each a stripped page paragraph. */
  lemma NdssInPageOrder(texts: seq<string>, authors: seq<string>)
    requires NdssParagraphs(texts, authors).Ok?
    ensures Subsequence(NdssParagraphs(texts, authors).value, StripEach(texts))
  {
    var c := Candidates(texts, authors).value;
    DedupInOrder(c);
    CandidatesInOrder(texts, authors);
    SubsequenceTransitive(Dedup(c), c, StripEach(texts));
  }

  /**
   * NDSS: with a `paper-data` block, the kept paragraphs joined by newlines;
   * otherwise the text of the element after the `Abstract:` label.
   */
  function Ndss(web: Web, url: string, authors: seq<string>): Result<string> {
    var page :- Get(web, url);
    match page.paperData
    case Some(texts) =>
      var kept :- NdssParagraphs(texts, authors);
      Ok(Join("\n", kept))
    case None =>
      var marker :- Found(page.abstractLabel);
      Found(marker.nextText)
  }

  // ---------------------------------------------------------------------------
  // IEEE
  // ---------------------------------------------------------------------------

  datatype IeeeSite = ComputerOrg | Xplore

  /** The host dispatch of `AbstractIEEE.get_abstract_from_publisher`. */
  function IeeeRoute(url: string): (r: Result<IeeeSite>)
    ensures r == Ok(ComputerOrg) <==> Url.Parse(url).Ok? && Url.Parse(url).value.netloc == Url.IeeeHost
    ensures r == Ok(Xplore) <==> Url.Parse(url).Ok? && Url.Parse(url).value.netloc == Url.DoiHost
    ensures r.Err? && Url.Parse(url).Ok? ==> r.error == NotImplementedError
    ensures Url.Parse(url).Err? ==> r == Err(ValueError)
  {
    var p :- Url.Parse(url);
    if p.netloc == Url.IeeeHost then Ok(ComputerOrg)
    else if p.netloc == Url.DoiHost then Ok(Xplore)
    else Err(NotImplementedError)
  }

  const AbstractMarker: string := "Abstract:\n"
  const ShowLessMarker: string := "\n(Show Less)"

  /** The text trimming of `_get_abstract_from_ieeexplore`. */
  function TrimXplore(text: string): (r: string)
    ensures Contains(text, r)
  {
    var i := IndexOf(text, AbstractMarker);
    var t := if i >= 0 then text[i + |AbstractMarker|..] else text;
    var j := IndexOf(t, ShowLessMarker);
    var r := if j >= 0 then t[..j] else t;
    assert Contains(text, t) by { ContainsSlice(text, |text| - |t|, |text|); assert text[|text| - |t|..|text|] == t; }
    assert Contains(t, r) by { ContainsSlice(t, 0, |r|); assert t[0..|r|] == r; }
    ContainsTransitive(text, t, r);
    r
  }

  /** Text holding neither marker is returned unchanged. */
  lemma TrimXploreUnmarked(text: string)
    requires !Contains(text, AbstractMarker) && !Contains(text, ShowLessMarker)
    ensures TrimXplore(text) == text
  {
    IndexOfContains(text, AbstractMarker);
    IndexOfContains(text, ShowLessMarker);
  }

  /**
   * Between a header ending in the first `Abstract:` line and the first
   * `(Show Less)` line, exactly the body is kept.
   */
  lemma TrimXploreFramed(header: string, body: string, footer: string)
    requires !Contains(header, AbstractMarker) && !Contains(body, ShowLessMarker)
    ensures TrimXplore(header + AbstractMarker + body + ShowLessMarker + footer) == body
  {
    var text := header + AbstractMarker + body + ShowLessMarker + footer;
    var rest := body + ShowLessMarker + footer;
    assert text == header + AbstractMarker + rest;
    assert forall d :: 1 <= d < |AbstractMarker| ==> AbstractMarker[d] != AbstractMarker[0];
    FirstOccurrenceAfter(header, AbstractMarker, rest);
    assert text[|header| + |AbstractMarker|..] == rest;
    assert forall d :: 1 <= d < |ShowLessMarker| ==> ShowLessMarker[d] != ShowLessMarker[0];
    FirstOccurrenceAfter(body, ShowLessMarker, footer);
    assert rest[..|body|] == body;
  }

  /** Without a `(Show Less)` line, everything after the first `Abstract:` line is kept. */
  lemma TrimXploreLabelOnly(header: string, body: string)
    requires !Contains(header, AbstractMarker) && !Contains(body, ShowLessMarker)
    ensures TrimXplore(header + AbstractMarker + body) == body
  {
    assert forall d :: 1 <= d < |AbstractMarker| ==> AbstractMarker[d] != AbstractMarker[0];
    FirstOccurrenceAfter(header, AbstractMarker, body);
    assert (header + AbstractMarker + body)[|header| + |AbstractMarker|..] == body;
    IndexOfContains(body, ShowLessMarker);
  }

  /** Without an `Abstract:` line, everything before the first `(Show Less)` line is kept. */
  lemma TrimXploreShowLessOnly(body: string, footer: string)
    requires !Contains(body + ShowLessMarker + footer, AbstractMarker) && !Contains(body, ShowLessMarker)
    ensures TrimXplore(body + ShowLessMarker + footer) == body
  {
    IndexOfContains(body + ShowLessMarker + footer, AbstractMarker);
    assert forall d :: 1 <= d < |ShowLessMarker| ==> ShowLessMarker[d] != ShowLessMarker[0];
    FirstOccurrenceAfter(body, ShowLessMarker, footer);
    assert (body + ShowLessMarker + footer)[..|body|] == body;
  }

  /** `AbstractIEEE.get_abstract_from_publisher`: `NotImplementedError` for any other host. */
  function Ieee(browser: Browser, url: string): Result<string> {
    var site :- IeeeRoute(url);
    var target :- Url.UpdateUrl(url);
    var text :- Render(browser, target);
    match site
    case ComputerOrg => Ok(text)
    case Xplore => Ok(TrimXplore(text))
  }

  /** On both routed hosts `update_url` leaves the URL alone, so the browser loads the publisher URL itself. */
  lemma IeeeLoadsPublisherUrl(url: string)
    requires IeeeRoute(url).Ok?
    ensures Url.UpdateUrl(url) == Ok(url)
  {
    Url.UpdateUrlKeepsIeeeHosts(url);
  }

  // ---------------------------------------------------------------------------
  // USENIX, ACM, Springer, PETS
  // ---------------------------------------------------------------------------

  /** USENIX: the element after the `Abstract:` label, or else the sibling after the `Abstract` heading, stripped. */
  function Usenix(web: Web, url: string): Result<string> {
    var page :- Get(web, url);
    var text :-
      match page.abstractLabel
      case Some(marker) => Found(marker.nextText)
      case None =>
        var heading :- Found(page.abstractHeading);
        Found(heading.nextSibling);
    Ok(Strip(text))
  }

  /** The USENIX text comes back stripped, whichever of the two places it was found in. */
  lemma UsenixStripped(web: Web, url: string)
    requires Usenix(web, url).Ok?
    ensures Usenix(web, url).value == [] || Trimmed(Usenix(web, url).value)
  {
  }

  const AcmNoAbstract: string := "No abstract available."

  /** `text.removeprefix('Abstract').strip()`, with ACM's placeholder turned into the empty string. */
  function AcmClean(text: string): (r: string)
    ensures r != AcmNoAbstract
    ensures r == [] || (!IsSpace(r[0]) && !IsSpace(r[|r| - 1]))
  {
    var a := Strip(RemovePrefix(text, "Abstract"));
    if a == AcmNoAbstract then "" else a
  }

  /**
   * After the word `Abstract` and whitespace, a text with no whitespace at
   * either end comes back as it is, except the placeholder, which becomes "".
   */
  lemma AcmCleanFramed(ws: string, body: string, trailing: string)
    requires AllSpace(ws) && AllSpace(trailing)
    requires body == [] || Trimmed(body)
    ensures AcmClean("Abstract" + ws + body + trailing) == if body == AcmNoAbstract then "" else body
  {
    var t := "Abstract" + ws + body + trailing;
    assert t == "Abstract" + (ws + body + trailing);
    assert RemovePrefix(t, "Abstract") == ws + body + trailing;
    StripFramed(ws, body, trailing);
  }

  /**
   * A text that does not start with the word `Abstract` is only stripped,
   * and the placeholder becomes "".
   */
  lemma AcmCleanUnlabelled(ws: string, body: string, trailing: string)
    requires !("Abstract" <= ws + body + trailing)
    requires AllSpace(ws) && AllSpace(trailing)
    requires body == [] || Trimmed(body)
    ensures AcmClean(ws + body + trailing) == if body == AcmNoAbstract then "" else body
  {
    StripFramed(ws, body, trailing);
  }

  /** The page's placeholder, alone, gives "". */
  lemma AcmNoAbstractEmpty()
    ensures AcmClean(AcmNoAbstract) == ""
  {
    var body := AcmNoAbstract;
    assert "" + body + "" == body;
    assert body[0] == 'N' && body[|body| - 1] == '.';
    assert !("Abstract" <= body) by { assert "Abstract"[0] != body[0]; }
    AcmCleanUnlabelled("", body, "");
  }

  /**
   * `removeprefix` runs before `strip`: the word `Abstract` stays when
   * whitespace comes before it.
   */
  lemma AcmLabelAfterSpace()
    ensures AcmClean(" Abstract x") == "Abstract x"
  {
    var body := "Abstract x";
    assert body[0] == 'A' && body[|body| - 1] == 'x';
    assert AllSpace(" ") && AllSpace("");
    assert " " + body + "" == " Abstract x";
    assert (" " + body + "")[0] == ' ';
    AcmCleanUnlabelled(" ", body, "");
  }

  /** ACM: the rendered `#abstract` text, cleaned. */
  function Acm(browser: Browser, url: string): Result<string> {
    var text :- Render(browser, url);
    Ok(AcmClean(text))
  }

  /** The non-blank paragraphs, stripped. */
  function SpringerParts(paragraphs: seq<string>): (r: seq<string>)
    ensures |r| <= |paragraphs|
  {
    if paragraphs == [] then []
    else
      var init := SpringerParts(paragraphs[..|paragraphs| - 1]);
      var last := paragraphs[|paragraphs| - 1];
      if Blank(last) then init else init + [Strip(last)]
  }

  /** The Springer filter: `x.text.strip() != ''`. */
  function NonBlank(): string -> bool {
    t => !Blank(t)
  }

  /** Exactly the non-blank paragraphs are kept, stripped and in page order. */
  lemma {:induction false} SpringerPartsSelect(paragraphs: seq<string>)
    ensures SpringerParts(paragraphs) == StripEach(Query.FilterBy(paragraphs, NonBlank()))
  {
    if paragraphs != [] {
      var init, t := paragraphs[..|paragraphs| - 1], paragraphs[|paragraphs| - 1];
      var f := NonBlank();
      assert paragraphs == init + [t];
      SpringerPartsSelect(init);
      Query.FilterByAppend(init, [t], f);
      assert Query.FilterBy([t], f) == if f(t) then [t] else [] by {
        assert [t][1..] == [];
      }
      StripEachAppend(Query.FilterBy(init, f), Query.FilterBy([t], f));
    }
  }

  /** The Springer parts are stripped page paragraphs, in page order. */
  lemma {:induction false} SpringerInOrder(paragraphs: seq<string>)
    ensures Subsequence(SpringerParts(paragraphs), StripEach(paragraphs))
  {
    if paragraphs != [] {
      var init, t := paragraphs[..|paragraphs| - 1], paragraphs[|paragraphs| - 1];
      SpringerInOrder(init);
      var r := SpringerParts(paragraphs);
      var all := StripEach(paragraphs);
      assert all[..|all| - 1] == StripEach(init);
      assert all[|all| - 1] == Strip(t);
      if !Blank(t) {
        assert r[..|r| - 1] == SpringerParts(init);
      }
    }
  }

  /** Every Springer paragraph kept is stripped and non-empty. */
  lemma {:induction false} SpringerPartsTrimmed(paragraphs: seq<string>)
    ensures forall k :: 0 <= k < |SpringerParts(paragraphs)| ==> Trimmed(SpringerParts(paragraphs)[k])
  {
    if paragraphs != [] {
      SpringerPartsTrimmed(paragraphs[..|paragraphs| - 1]);
    }
  }

  /** `AbstractSpringer.extract_abstract`: the non-blank paragraphs of the abstract section, stripped, one per line. */
  function Springer(section: Option<seq<string>>): Result<string> {
    var paragraphs :- Found(section);
    Ok(Join("\n", SpringerParts(paragraphs)))
  }

  lemma {:induction false} SpringerPartsNoNewline(paragraphs: seq<string>)
    requires forall k :: 0 <= k < |paragraphs| ==> '\n' !in paragraphs[k]
    ensures forall k :: 0 <= k < |SpringerParts(paragraphs)| ==> '\n' !in SpringerParts(paragraphs)[k]
  {
    if paragraphs != [] {
      SpringerPartsNoNewline(paragraphs[..|paragraphs| - 1]);
      NotInStrip(paragraphs[|paragraphs| - 1], '\n');
    }
  }

  /** Splitting the Springer abstract at newlines gives back its paragraphs, when they hold no newline. */
  lemma SpringerLines(paragraphs: seq<string>)
    requires forall k :: 0 <= k < |paragraphs| ==> '\n' !in paragraphs[k]
    requires SpringerParts(paragraphs) != []
    ensures Split(Springer(Some(paragraphs)).value, '\n') == SpringerParts(paragraphs)
  {
    SpringerPartsNoNewline(paragraphs);
    SplitJoin(SpringerParts(paragraphs), '\n');
  }

  const PetsLabel: string := "Abstract:"

  /** `lstrip('Abstract:')` takes a character set: the whole leading run of `A`, `b`, `s`, `t`, `r`, `a`, `c` and `:` goes, then `strip()`. */
  function PetsClean(text: string): string {
    Strip(LStripChars(text, PetsLabel))
  }

  /** Any leading run of label characters is dropped, up to the first character outside the label. */
  lemma PetsCleanRun(run: string, rest: string)
    requires forall k :: 0 <= k < |run| ==> run[k] in PetsLabel
    requires rest == [] || rest[0] !in PetsLabel
    ensures PetsClean(run + rest) == Strip(rest)
  {
    LStripCharsPrefix(run, rest, PetsLabel);
  }

  /** The label goes and a stripped text after it is kept, unless that text starts with a label character. */
  lemma PetsCleanLabel(body: string)
    requires body == [] || (Trimmed(body) && body[0] !in PetsLabel)
    ensures PetsClean(PetsLabel + body) == body
  {
    PetsCleanRun(PetsLabel, body);
    StripKeeps(body);
  }

  lemma {:induction false} LStripCharsPrefix(run: string, rest: string, chars: string)
    requires forall k :: 0 <= k < |run| ==> run[k] in chars
    requires rest == [] || rest[0] !in chars
    ensures LStripChars(run + rest, chars) == rest
  {
    if run != [] {
      var s := run + rest;
      assert s[0] == run[0];
      assert s[1..] == run[1..] + rest;
      forall k | 0 <= k < |run[1..]|
        ensures run[1..][k] in chars
      {
        assert run[1..][k] == run[k + 1];
      }
      LStripCharsPrefix(run[1..], rest, chars);
    } else {
      assert run + rest == rest;
    }
  }

  /**
   * The set also eats the start of a word: a word made of label characters
   * right after the label (such as "attacks" or "abstracts") is lost with it.
   */
  lemma PetsEatsWord(word: string, rest: string)
    requires forall k :: 0 <= k < |word| ==> word[k] in PetsLabel
    requires rest == [] || rest[0] !in PetsLabel
    ensures PetsClean(PetsLabel + word + rest) == Strip(rest)
  {
    LabelRun(word);
    PetsCleanRun(PetsLabel + word, rest);
  }

  lemma LabelRun(word: string)
    requires forall k :: 0 <= k < |word| ==> word[k] in PetsLabel
    ensures forall k :: 0 <= k < |PetsLabel + word| ==> (PetsLabel + word)[k] in PetsLabel
  {
    var run := PetsLabel + word;
    assert forall k :: 0 <= k < |PetsLabel| ==> run[k] == PetsLabel[k];
    assert forall k :: |PetsLabel| <= k < |run| ==> run[k] == word[k - |PetsLabel|];
  }

  /** PETS: a Springer page is read as Springer; otherwise the paragraph around the `Abstract:` label. */
  function Pets(web: Web, url: string): Result<string> {
    var page :- Get(web, url);
    if Contains(page.finalUrl, "springer.com") then Springer(page.abstractSection)
    else
      var marker :- Found(page.abstractLabel);
      var text :- Found(marker.parentParagraph);
      Ok(PetsClean(text))
  }

  // ---------------------------------------------------------------------------
  // Dispatch and get_abstract
  // ---------------------------------------------------------------------------

  datatype Extractor = NdssExtractor | IeeeExtractor | UsenixExtractor | AcmExtractor | SpringerExtractor | PetsExtractor

  /** `Abstracts`: the extractor for each venue. */
  const Abstracts: map<string, Extractor> := map[
    "NDSS" := NdssExtractor,
    "IEEE S&P" := IeeeExtractor,
    "USENIX" := UsenixExtractor,
    "CCS" := AcmExtractor,
    "IEEE EuroS&P" := IeeeExtractor,
    "ACSAC" := IeeeExtractor,
    "RAID" := AcmExtractor,
    "ESORICS" := SpringerExtractor,
    "AsiaCCS" := AcmExtractor,
    "PETS" := PetsExtractor,
    "WWW" := AcmExtractor]

  /**
   * Every venue the search can rank has an extractor; `WWW` has one too,
   * although the search cannot rank its papers.
   */
  lemma AbstractsCoverConferences()
    ensures forall c :: c in Query.Conferences ==> c in Abstracts
    ensures "WWW" in Abstracts && "WWW" !in Query.Conferences
  {
  }

  /** The three IEEE venues share one extractor. */
  lemma AbstractsIeee()
    ensures "IEEE S&P" in Abstracts && Abstracts["IEEE S&P"] == IeeeExtractor
    ensures "IEEE EuroS&P" in Abstracts && Abstracts["IEEE EuroS&P"] == IeeeExtractor
    ensures "ACSAC" in Abstracts && Abstracts["ACSAC"] == IeeeExtractor
  {
  }

  /** The four ACM venues share one extractor. */
  lemma AbstractsAcm()
    ensures "CCS" in Abstracts && Abstracts["CCS"] == AcmExtractor
    ensures "RAID" in Abstracts && Abstracts["RAID"] == AcmExtractor
    ensures "AsiaCCS" in Abstracts && Abstracts["AsiaCCS"] == AcmExtractor
    ensures "WWW" in Abstracts && Abstracts["WWW"] == AcmExtractor
  {
  }

  /** `get_abstract_from_publisher` of each extractor. */
  function FromPublisher(e: Extractor, url: string, authors: seq<string>, web: Web, browser: Browser): Result<string> {
    match e
    case NdssExtractor => Ndss(web, url, authors)
    case IeeeExtractor => Ieee(browser, url)
    case UsenixExtractor => Usenix(web, url)
    case AcmExtractor => Acm(browser, url)
    case SpringerExtractor =>
      var page :- Get(web, url);
      Springer(page.abstractSection)
    case PetsExtractor => Pets(web, url)
  }

  predicate IsFileUrl(url: string) {
    EndsWith(url, ".pdf") || EndsWith(url, ".zip")
  }

  /** Where `get_publisher_url` succeeds: an `<a>` inside the `li.ee` item. */
  predicate HasAnchor(link: Link) { link.Anchor? }

  /** The extractor's result on a non-file URL, with any exception turned into "". */
  function Extracted(e: Extractor, url: string, authors: seq<string>, web: Web, browser: Browser): string {
    if IsFileUrl(url) then ""
    else
      var res := FromPublisher(e, url, authors, web, browser);
      if res.Ok? then res.value else ""
  }

  /**
   * `get_abstract` as written: a missing `li.ee` or `<a>` gives "", but an
   * `<a>` without `href` hands `None` to `.endswith` outside the `try`,
   * which raises `AttributeError` to the caller.
   */
  function GetAbstractAsWritten(e: Extractor, link: Link, authors: seq<string>, web: Web, browser: Browser): (r: Result<string>)
    ensures r.Err? <==> link == Anchor(None)
  {
    if !HasAnchor(link) then Ok("")
    else if link.href.None? then Err(AttributeError)
    else Ok(Extracted(e, link.href.value, authors, web, browser))
  }

  /** `get_abstract` with a missing `href` treated like a missing link: it never raises. */
  function GetAbstract(e: Extractor, link: Link, authors: seq<string>, web: Web, browser: Browser): (r: string)
    ensures !(link.Anchor? && link.href.Some?) ==> r == ""
    ensures link.Anchor? && link.href.Some? && IsFileUrl(link.href.value) ==> r == ""
  {
    if HasAnchor(link) && link.href.Some? then Extracted(e, link.href.value, authors, web, browser) else ""
  }

  /** The corrected `get_abstract` differs from the written one only where that one raises. */
  lemma GetAbstractFixesHref(e: Extractor, link: Link, authors: seq<string>, web: Web, browser: Browser)
    ensures GetAbstractAsWritten(e, link, authors, web, browser).Ok? ==>
      GetAbstractAsWritten(e, link, authors, web, browser).value == GetAbstract(e, link, authors, web, browser)
    ensures link == Anchor(None) ==>
      GetAbstractAsWritten(e, link, authors, web, browser) == Err(AttributeError) && GetAbstract(e, link, authors, web, browser) == ""
  {
  }

  /** A link to a PDF or ZIP file gives "" whatever the web and the browser hold. */
  lemma GetAbstractSkipsFiles(e: Extractor, url: string, authors: seq<string>, web: Web, browser: Browser)
    requires IsFileUrl(url)
    ensures GetAbstract(e, Anchor(Some(url)), authors, web, browser) == ""
  {
  }

  /** A non-empty abstract comes from a successful extraction at a link that is not a file. */
  lemma GetAbstractSource(e: Extractor, link: Link, authors: seq<string>, web: Web, browser: Browser)
    requires GetAbstract(e, link, authors, web, browser) != ""
    ensures link.Anchor? && link.href.Some? && !IsFileUrl(link.href.value)
    ensures FromPublisher(e, link.href.value, authors, web, browser) == Ok(GetAbstract(e, link, authors, web, browser))
  {
  }

  /** Any failure of the extractor gives "". */
  lemma GetAbstractSwallows(e: Extractor, url: string, authors: seq<string>, web: Web, browser: Browser)
    requires FromPublisher(e, url, authors, web, browser).Err?
    ensures GetAbstract(e, Anchor(Some(url)), authors, web, browser) == ""
  {
  }

  /** An IEEE link on any host but the two IEEE ones gives "". */
  lemma IeeeOtherHost(url: string, authors: seq<string>, web: Web, browser: Browser)
    requires Url.Parse(url).Ok? && Url.Parse(url).value.netloc !in {Url.IeeeHost, Url.DoiHost}
    ensures FromPublisher(IeeeExtractor, url, authors, web, browser) == Err(NotImplementedError)
    ensures GetAbstract(IeeeExtractor, Anchor(Some(url)), authors, web, browser) == ""
  {
    assert IeeeRoute(url) == Err(NotImplementedError);
    GetAbstractSwallows(IeeeExtractor, url, authors, web, browser);
  }
}
