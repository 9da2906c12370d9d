/**
 * The crawler of `build_db.py`: dblp listings are read conference by
 * conference and year by year, and each listed paper is stored unless a
 * record with the same conference, year and title is already there.
 *
 * The database is a sequence of `Paper` records in insertion order; dblp is
 * a parameter that maps a listing URL to what `requests.get` and the HTML
 * parser give for it.
 */
module Crawl {
  import opened Wrappers
  import opened Text
  import opened Db

  /** `CONFERENCES`: the venues `build_db` crawls, in this order. */
  const Conferences: seq<string> := ["NDSS", "IEEE S&P", "USENIX", "CCS"]

  /** `NAME_MAP`: the dblp identifier of each venue. */
  const NameMap: map<string, string> := map["NDSS" := "ndss", "IEEE S&P" := "sp", "USENIX" := "uss", "CCS" := "ccs"]

  /** The first year `build_db` asks for. */
  const FirstYear: int := 2000

  /** The dblp table of contents of one venue and year. */
  function ListingUrl(conf: string, year: int): string {
    "https://dblp.org/db/conf/" + conf + "/" + conf + IntToString(year) + ".html"
  }

  /** One `li.inproceedings` of a listing: its `span.title` text (absent when the span is missing) and its author names. */
  datatype Entry = Entry(title: Option<string>, authors: seq<string>)

  /** What `requests.get` returns for a listing: nothing at all, or a status code and the parsed entries. */
  datatype Listing = Unreachable | Listing(status: int, entries: seq<Entry>)

  type Dblp = string -> Listing

  /** What `get_papers` logs: `cnt`, and whether the warning about a failed listing was written. */
  datatype Report = Report(count: nat, failed: bool)

  // ---------------------------------------------------------------------------
  // The store
  // ---------------------------------------------------------------------------

  /** The columns `paper_exist` filters on. */
  type Key = (string, int, string)

  function KeyOf(p: Paper): Key {
    (p.conference, p.year, p.title)
  }

  /** `paper_exist`: some stored record has this conference, year and title. */
  predicate HasKey(papers: seq<Paper>, key: Key) {
    exists i :: 0 <= i < |papers| && KeyOf(papers[i]) == key
  }

  /** No two records share a conference, year and title. */
  predicate UniqueKeys(papers: seq<Paper>) {
    forall i, j :: 0 <= i < j < |papers| ==> KeyOf(papers[i]) != KeyOf(papers[j])
  }

  /** No two records share an id. */
  predicate UniqueIds(papers: seq<Paper>) {
    forall i, j :: 0 <= i < j < |papers| ==> papers[i].id != papers[j].id
  }

  /** The largest id in a non-empty store. */
  function MaxId(papers: seq<Paper>): (r: int)
    requires papers != []
    ensures forall i :: 0 <= i < |papers| ==> papers[i].id <= r
    ensures exists i :: 0 <= i < |papers| && papers[i].id == r
  {
    if |papers| == 1 then papers[0].id
    else
      var m := MaxId(papers[1..]);
      assert forall i :: 1 <= i < |papers| ==> papers[i] == papers[1..][i - 1];
      if papers[0].id >= m then papers[0].id else m
  }

  /** The id SQLite gives a row inserted without one: one more than the largest, or 1 in an empty table. */
  function NextId(papers: seq<Paper>): (r: int)
    ensures forall i :: 0 <= i < |papers| ==> papers[i].id < r
    ensures papers == [] ==> r == 1
  {
    if papers == [] then 1 else MaxId(papers) + 1
  }

  /** The record `save_paper` adds: the authors joined with ", ", and no url. */
  function NewRecord(papers: seq<Paper>, conf: string, year: int, title: string, authors: seq<string>, abstractText: string): Paper {
    Paper(NextId(papers), conf, year, title, Join(", ", authors), abstractText, None)
  }

  /** Lines 54-55 of `get_papers`: save the entry unless its key is already stored. */
  function Insert(papers: seq<Paper>, conf: string, year: int, title: string, authors: seq<string>): seq<Paper> {
    if HasKey(papers, (conf, year, title)) then papers
    else papers + [NewRecord(papers, conf, year, title, authors, "")]
  }

  /**
   * The loop of `get_papers` over a listing's entries: each entry is saved
   * unless present and counted; an entry without a title raises
   * `AttributeError`, which ends the loop and is logged as a failure.
   */
  function Process(papers: seq<Paper>, conf: string, year: int, entries: seq<Entry>): (seq<Paper>, Report)
    decreases |entries|
  {
    if entries == [] then (papers, Report(0, false))
    else if entries[0].title.None? then (papers, Report(0, true))
    else
      var next := Insert(papers, conf, year, entries[0].title.value, entries[0].authors);
      var (last, report) := Process(next, conf, year, entries[1..]);
      (last, Report(report.count + 1, report.failed))
  }

  /** The entries the loop gets through: all of them up to the first one without a title. */
  function Processed(entries: seq<Entry>): (r: seq<Entry>)
    ensures |r| <= |entries| && r == entries[..|r|]
    ensures forall k :: 0 <= k < |r| ==> r[k].title.Some?
    ensures |r| < |entries| ==> entries[|r|].title.None?
  {
    if entries == [] || entries[0].title.None? then []
    else [entries[0]] + Processed(entries[1..])
  }

  /** `get_papers(name, year)`: `KeyError` for a venue without a dblp identifier, otherwise the store and the report. */
  function Crawl(papers: seq<Paper>, name: string, year: int, dblp: Dblp): Result<(seq<Paper>, Report)> {
    if name !in NameMap then Err(KeyError)
    else
      var listing := dblp(ListingUrl(NameMap[name], year));
      if listing.Unreachable? || listing.status != 200 then Ok((papers, Report(0, true)))
      else Ok(Process(papers, name, year, listing.entries))
  }

  /** `get_papers` over a list of (venue, year) pairs in order. */
  function CrawlAll(papers: seq<Paper>, schedule: seq<(string, int)>, dblp: Dblp): Result<seq<Paper>> {
    if schedule == [] then Ok(papers)
    else
      var before :- CrawlAll(papers, schedule[..|schedule| - 1], dblp);
      var (name, year) := schedule[|schedule| - 1];
      var crawled :- Crawl(before, name, year, dblp);
      Ok(crawled.0)
  }

  /** The first `count` years from 2000 on, for one venue. */
  function Span(conf: string, count: nat): seq<(string, int)> {
    seq(count, j => (conf, FirstYear + j))
  }

  /** The length of `range(2000, current_year + 1)`. */
  function YearCount(currentYear: int): nat {
    if currentYear >= FirstYear then currentYear - FirstYear + 1 else 0
  }

  /** `range(2000, current_year + 1)` for one venue. */
  function Years(conf: string, currentYear: int): seq<(string, int)> {
    Span(conf, YearCount(currentYear))
  }

  /** The (venue, year) pairs `build_db` visits for the given venues. */
  function ScheduleOf(confs: seq<string>, currentYear: int): seq<(string, int)> {
    if confs == [] then []
    else ScheduleOf(confs[..|confs| - 1], currentYear) + Years(confs[|confs| - 1], currentYear)
  }

  /** The order in which `build_db` visits venues and years. */
  function Schedule(currentYear: int): seq<(string, int)> {
    ScheduleOf(Conferences, currentYear)
  }

  // ---------------------------------------------------------------------------
  // The database object
  // ---------------------------------------------------------------------------

  /** The `paper` table, its rows in insertion order. */
  class PaperStore {
    var papers: seq<Paper>

    constructor(initial: seq<Paper>)
      ensures papers == initial
    {
      papers := initial;
    }

    /** `paper_exist`: authors and abstract take no part in the lookup. */
    function PaperExist(conf: string, year: int, title: string, authors: seq<string>, abstractText: string): (b: bool)
      reads this
      ensures b <==> exists i :: 0 <= i < |papers| && papers[i].conference == conf && papers[i].year == year && papers[i].title == title
    {
      HasKey(papers, (conf, year, title))
    }

    /** `save_paper`: one new row, with the next id. */
    method SavePaper(conf: string, year: int, title: string, authors: seq<string>, abstractText: string)
      modifies this
      ensures papers == old(papers) + [NewRecord(old(papers), conf, year, title, authors, abstractText)]
    {
      papers := papers + [NewRecord(papers, conf, year, title, authors, abstractText)];
    }

    /** `get_papers`: the listing loop, with its counter and its `try`. */
    method GetPapers(name: string, year: int, dblp: Dblp) returns (res: Result<Report>)
      modifies this
      ensures Crawl(old(papers), name, year, dblp) == if res.Ok? then Ok((papers, res.value)) else Err(res.error)
      ensures res.Err? ==> papers == old(papers)
    {
      var cnt := 0;
      if name !in NameMap {
        return Err(KeyError);
      }
      var conf := NameMap[name];
      var listing := dblp(ListingUrl(conf, year));
      if listing.Unreachable? || listing.status != 200 {
        return Ok(Report(0, true));
      }
      var entries := listing.entries;
      ghost var start := papers;
      for k := 0 to |entries|
        invariant var (last, report) := Process(papers, name, year, entries[k..]);
          Process(start, name, year, entries) == (last, Report(cnt + report.count, report.failed))
      {
        ProcessStep(papers, name, year, entries, k);
        var entry := entries[k];
        if entry.title.None? {
          return Ok(Report(cnt, true));
        }
        var title := entry.title.value;
        var found := PaperExist(name, year, title, entry.authors, "");
        if !found {
          SavePaper(name, year, title, entry.authors, "");
        }
        cnt := cnt + 1;
      }
      return Ok(Report(cnt, false));
    }

    /** The year loop of `build_db` for one venue, continuing a crawl that began at `start`. */
    method CrawlVenue(conf: string, dblp: Dblp, currentYear: int, ghost start: seq<Paper>, ghost done: seq<(string, int)>)
      requires conf in NameMap
      requires CrawlAll(start, done, dblp) == Ok(papers)
      modifies this
      ensures CrawlAll(start, done + Years(conf, currentYear), dblp) == Ok(papers)
    {
      var count := YearCount(currentYear);
      assert done + Span(conf, 0) == done;
      for k := 0 to count
        invariant CrawlAll(start, done + Span(conf, k), dblp) == Ok(papers)
      {
        ghost var before := papers;
        var report := GetPapers(conf, FirstYear + k, dblp);
        YearStep(start, done, before, conf, k, dblp);
      }
    }

    /** `build_db`: every venue of `CONFERENCES`, every year from 2000 to the current one. */
    method BuildDb(dblp: Dblp, currentYear: int)
      modifies this
      ensures CrawlAll(old(papers), Schedule(currentYear), dblp) == Ok(papers)
    {
      ghost var start := papers;
      for ci := 0 to |Conferences|
        invariant CrawlAll(start, ScheduleOf(Conferences[..ci], currentYear), dblp) == Ok(papers)
      {
        CrawlVenue(Conferences[ci], dblp, currentYear, start, ScheduleOf(Conferences[..ci], currentYear));
        assert Conferences[..ci + 1][..ci] == Conferences[..ci];
      }
      assert Conferences[..|Conferences|] == Conferences;
    }
  }

  // ---------------------------------------------------------------------------
  // Unfolding steps
  // ---------------------------------------------------------------------------

  /** One entry of the loop, read off the remaining entries. */
  lemma ProcessStep(papers: seq<Paper>, conf: string, year: int, entries: seq<Entry>, k: nat)
    requires k < |entries|
    ensures entries[k].title.None? ==> Process(papers, conf, year, entries[k..]) == (papers, Report(0, true))
    ensures entries[k].title.Some? ==>
      var next := Insert(papers, conf, year, entries[k].title.value, entries[k].authors);
      var (last, report) := Process(next, conf, year, entries[k + 1..]);
      Process(papers, conf, year, entries[k..]) == (last, Report(report.count + 1, report.failed))
  {
    assert entries[k..][1..] == entries[k + 1..];
  }

  /** One more year of one venue. */
  lemma YearStep(papers: seq<Paper>, done: seq<(string, int)>, before: seq<Paper>, conf: string, count: nat, dblp: Dblp)
    requires CrawlAll(papers, done + Span(conf, count), dblp) == Ok(before)
    requires conf in NameMap
    ensures CrawlAll(papers, done + Span(conf, count + 1), dblp) == Ok(Crawl(before, conf, FirstYear + count, dblp).value.0)
  {
    assert done + Span(conf, count + 1) == done + Span(conf, count) + [(conf, FirstYear + count)];
    CrawlAllStep(papers, done + Span(conf, count), before, conf, FirstYear + count, dblp);
  }

  /** `CrawlAll` one pair further on. */
  lemma CrawlAllStep(papers: seq<Paper>, done: seq<(string, int)>, before: seq<Paper>, name: string, year: int, dblp: Dblp)
    requires CrawlAll(papers, done, dblp) == Ok(before)
    requires name in NameMap
    ensures CrawlAll(papers, done + [(name, year)], dblp) == Ok(Crawl(before, name, year, dblp).value.0)
  {
    assert (done + [(name, year)])[..|done|] == done;
  }

  // ---------------------------------------------------------------------------
  // One listing
  // ---------------------------------------------------------------------------

  /** A store that holds a key keeps holding it once records are appended. */
  lemma HasKeyExtends(papers: seq<Paper>, more: seq<Paper>, key: Key)
    requires papers <= more && HasKey(papers, key)
    ensures HasKey(more, key)
  {
    var i :| 0 <= i < |papers| && KeyOf(papers[i]) == key;
    assert more[i] == papers[i];
  }

  /** Records already in the table are never changed or removed by a listing. */
  lemma {:induction false} ProcessKeepsRecords(papers: seq<Paper>, conf: string, year: int, entries: seq<Entry>)
    ensures papers <= Process(papers, conf, year, entries).0
    decreases |entries|
  {
    if entries != [] && entries[0].title.Some? {
      var next := Insert(papers, conf, year, entries[0].title.value, entries[0].authors);
      ProcessKeepsRecords(next, conf, year, entries[1..]);
    }
  }

  /** `cnt` counts every entry the loop gets through, and the warning is logged exactly when an entry has no title. */
  lemma {:induction false} ProcessCount(papers: seq<Paper>, conf: string, year: int, entries: seq<Entry>)
    ensures Process(papers, conf, year, entries).1 == Report(|Processed(entries)|, |Processed(entries)| < |entries|)
    decreases |entries|
  {
    if entries != [] && entries[0].title.Some? {
      var next := Insert(papers, conf, year, entries[0].title.value, entries[0].authors);
      ProcessCount(next, conf, year, entries[1..]);
    }
  }

  /** After `Insert` the key is stored, whether it was there before or not. */
  lemma InsertHasKey(papers: seq<Paper>, conf: string, year: int, title: string, authors: seq<string>)
    ensures HasKey(Insert(papers, conf, year, title, authors), (conf, year, title))
  {
    if !HasKey(papers, (conf, year, title)) {
      var next := Insert(papers, conf, year, title, authors);
      assert KeyOf(next[|papers|]) == (conf, year, title);
    }
  }

  /** After a listing, every entry the loop got through is in the table. */
  lemma {:induction false} ProcessCovers(papers: seq<Paper>, conf: string, year: int, entries: seq<Entry>)
    ensures forall k :: 0 <= k < |Processed(entries)| ==>
      HasKey(Process(papers, conf, year, entries).0, (conf, year, entries[k].title.value))
    decreases |entries|
  {
    if entries != [] && entries[0].title.Some? {
      var title := entries[0].title.value;
      var next := Insert(papers, conf, year, title, entries[0].authors);
      var last := Process(next, conf, year, entries[1..]).0;
      assert Process(papers, conf, year, entries).0 == last;
      assert |Processed(entries)| == 1 + |Processed(entries[1..])|;
      InsertHasKey(papers, conf, year, title, entries[0].authors);
      ProcessKeepsRecords(next, conf, year, entries[1..]);
      HasKeyExtends(next, last, (conf, year, title));
      ProcessCovers(next, conf, year, entries[1..]);
      forall k | 1 <= k < |Processed(entries)|
        ensures HasKey(last, (conf, year, entries[k].title.value))
      {
        assert entries[k] == entries[1..][k - 1];
      }
    }
  }

  /** A listing whose entries are all present already leaves the table as it is. */
  lemma {:induction false} ProcessNoop(papers: seq<Paper>, conf: string, year: int, entries: seq<Entry>)
    requires forall k :: 0 <= k < |Processed(entries)| ==> HasKey(papers, (conf, year, entries[k].title.value))
    ensures Process(papers, conf, year, entries).0 == papers
    decreases |entries|
  {
    if entries != [] && entries[0].title.Some? {
      assert HasKey(papers, (conf, year, entries[0].title.value));
      forall k | 0 <= k < |Processed(entries[1..])|
        ensures HasKey(papers, (conf, year, entries[1..][k].title.value))
      {
        assert entries[1..][k] == entries[k + 1];
      }
      ProcessNoop(papers, conf, year, entries[1..]);
    }
  }

  /** Reading the same listing twice stores nothing the second time. */
  lemma ProcessIdempotent(papers: seq<Paper>, conf: string, year: int, entries: seq<Entry>)
    ensures var once := Process(papers, conf, year, entries);
      Process(once.0, conf, year, entries) == once
  {
    var once := Process(papers, conf, year, entries);
    ProcessCovers(papers, conf, year, entries);
    ProcessNoop(once.0, conf, year, entries);
    ProcessCount(papers, conf, year, entries);
    ProcessCount(once.0, conf, year, entries);
  }

  /** `paper_exist` before `save_paper` keeps (conference, year, title) unique. */
  lemma InsertUnique(papers: seq<Paper>, conf: string, year: int, title: string, authors: seq<string>)
    ensures UniqueKeys(papers) ==> UniqueKeys(Insert(papers, conf, year, title, authors))
    ensures UniqueIds(papers) ==> UniqueIds(Insert(papers, conf, year, title, authors))
  {
    var next := Insert(papers, conf, year, title, authors);
    if !HasKey(papers, (conf, year, title)) {
      forall i | 0 <= i < |papers|
        ensures KeyOf(papers[i]) != KeyOf(next[|papers|]) && papers[i].id < next[|papers|].id
      {
      }
    }
  }

  /** No listing creates a second record for a key, even one that lists a title twice, and ids stay unique. */
  lemma {:induction false} ProcessUnique(papers: seq<Paper>, conf: string, year: int, entries: seq<Entry>)
    ensures UniqueKeys(papers) ==> UniqueKeys(Process(papers, conf, year, entries).0)
    ensures UniqueIds(papers) ==> UniqueIds(Process(papers, conf, year, entries).0)
    decreases |entries|
  {
    if entries != [] && entries[0].title.Some? {
      InsertUnique(papers, conf, year, entries[0].title.value, entries[0].authors);
      var next := Insert(papers, conf, year, entries[0].title.value, entries[0].authors);
      ProcessUnique(next, conf, year, entries[1..]);
    }
  }

  /** A new record comes from one of the processed entries, has the venue and year asked for, its authors joined with ", ", an empty abstract and no url. */
  predicate FromEntry(p: Paper, conf: string, year: int, entries: seq<Entry>) {
    p.conference == conf && p.year == year && p.abstractText == "" && p.url == None &&
    exists k :: 0 <= k < |Processed(entries)| && p.title == entries[k].title.value && p.authors == Join(", ", entries[k].authors)
  }

  /** The record `Insert` may add is built from the entry it was given. */
  lemma InsertFromEntry(papers: seq<Paper>, conf: string, year: int, entries: seq<Entry>)
    requires entries != [] && entries[0].title.Some?
    ensures var next := Insert(papers, conf, year, entries[0].title.value, entries[0].authors);
      forall i :: |papers| <= i < |next| ==> FromEntry(next[i], conf, year, entries)
  {
    assert |Processed(entries)| > 0;
  }

  /** A record built from a later entry is built from an entry of the whole listing. */
  lemma FromLaterEntry(p: Paper, conf: string, year: int, entries: seq<Entry>)
    requires entries != [] && entries[0].title.Some?
    requires FromEntry(p, conf, year, entries[1..])
    ensures FromEntry(p, conf, year, entries)
  {
    var k :| 0 <= k < |Processed(entries[1..])| && p.title == entries[1..][k].title.value && p.authors == Join(", ", entries[1..][k].authors);
    assert entries[1..][k] == entries[k + 1];
    assert |Processed(entries)| == 1 + |Processed(entries[1..])|;
  }

  /** Every record a listing adds is built from one of its entries. */
  lemma {:induction false} ProcessNewRecords(papers: seq<Paper>, conf: string, year: int, entries: seq<Entry>)
    ensures var last := Process(papers, conf, year, entries).0;
      forall i :: |papers| <= i < |last| ==> FromEntry(last[i], conf, year, entries)
    decreases |entries|
  {
    if entries != [] && entries[0].title.Some? {
      var next := Insert(papers, conf, year, entries[0].title.value, entries[0].authors);
      var last := Process(next, conf, year, entries[1..]).0;
      assert last == Process(papers, conf, year, entries).0;
      ProcessNewRecords(next, conf, year, entries[1..]);
      ProcessKeepsRecords(next, conf, year, entries[1..]);
      InsertFromEntry(papers, conf, year, entries);
      forall i | |papers| <= i < |last|
        ensures FromEntry(last[i], conf, year, entries)
      {
        if i < |next| {
          assert last[i] == next[i];
        } else {
          FromLaterEntry(last[i], conf, year, entries);
        }
      }
    }
  }

  // ---------------------------------------------------------------------------
  // One venue and year, and the whole crawl
  // ---------------------------------------------------------------------------

  /** `get_papers` raises only for a venue missing from `NAME_MAP`; a listing that cannot be fetched changes nothing and is logged. */
  lemma CrawlOutcome(papers: seq<Paper>, name: string, year: int, dblp: Dblp)
    ensures Crawl(papers, name, year, dblp).Err? <==> name !in NameMap
    ensures name in NameMap && (dblp(ListingUrl(NameMap[name], year)).Unreachable? || dblp(ListingUrl(NameMap[name], year)).status != 200) ==>
      Crawl(papers, name, year, dblp) == Ok((papers, Report(0, true)))
  {
  }

  /** One `get_papers` keeps earlier records and keeps keys and ids unique. */
  lemma CrawlKeeps(papers: seq<Paper>, name: string, year: int, dblp: Dblp)
    requires Crawl(papers, name, year, dblp).Ok?
    ensures var after := Crawl(papers, name, year, dblp).value.0;
      papers <= after && (UniqueKeys(papers) ==> UniqueKeys(after)) && (UniqueIds(papers) ==> UniqueIds(after))
  {
    var listing := dblp(ListingUrl(NameMap[name], year));
    if listing.Listing? && listing.status == 200 {
      ProcessKeepsRecords(papers, name, year, listing.entries);
      ProcessUnique(papers, name, year, listing.entries);
    }
  }

  /** A crawl never touches records it did not add, and never duplicates a key or an id. */
  lemma {:induction false} CrawlAllKeeps(papers: seq<Paper>, schedule: seq<(string, int)>, dblp: Dblp)
    requires CrawlAll(papers, schedule, dblp).Ok?
    ensures var after := CrawlAll(papers, schedule, dblp).value;
      papers <= after && (UniqueKeys(papers) ==> UniqueKeys(after)) && (UniqueIds(papers) ==> UniqueIds(after))
    decreases |schedule|
  {
    if schedule != [] {
      var before := CrawlAll(papers, schedule[..|schedule| - 1], dblp);
      CrawlAllKeeps(papers, schedule[..|schedule| - 1], dblp);
      var (name, year) := schedule[|schedule| - 1];
      CrawlKeeps(before.value, name, year, dblp);
    }
  }

  /** A crawl over known venues always finishes: a failed listing ends only its own venue and year. */
  lemma {:induction false} CrawlAllOk(papers: seq<Paper>, schedule: seq<(string, int)>, dblp: Dblp)
    requires forall i :: 0 <= i < |schedule| ==> schedule[i].0 in NameMap
    ensures CrawlAll(papers, schedule, dblp).Ok?
    decreases |schedule|
  {
    if schedule != [] {
      CrawlAllOk(papers, schedule[..|schedule| - 1], dblp);
    }
  }

  /** The schedule only names the venues it was built from. */
  lemma {:induction false} ScheduleNames(confs: seq<string>, currentYear: int)
    ensures forall i :: 0 <= i < |ScheduleOf(confs, currentYear)| ==> ScheduleOf(confs, currentYear)[i].0 in confs
    decreases |confs|
  {
    if confs != [] {
      var init := confs[..|confs| - 1];
      ScheduleNames(init, currentYear);
      var s := ScheduleOf(confs, currentYear);
      forall i | 0 <= i < |s|
        ensures s[i].0 in confs
      {
        if i < |ScheduleOf(init, currentYear)| {
          assert s[i].0 in init;
        } else {
          assert s[i].0 == confs[|confs| - 1];
        }
      }
    }
  }

  /** `build_db` never raises: every venue of `CONFERENCES` has a dblp identifier. */
  lemma BuildDbNeverFails(papers: seq<Paper>, currentYear: int, dblp: Dblp)
    ensures CrawlAll(papers, Schedule(currentYear), dblp).Ok?
  {
    ScheduleNames(Conferences, currentYear);
    CrawlAllOk(papers, Schedule(currentYear), dblp);
  }

  /** `build_db` visits the venues in the order of `CONFERENCES`, each for all its years before the next. */
  lemma ScheduleOrder(currentYear: int)
    ensures Schedule(currentYear) ==
      Years("NDSS", currentYear) + Years("IEEE S&P", currentYear) + Years("USENIX", currentYear) + Years("CCS", currentYear)
  {
    var y := currentYear;
    assert ["NDSS"][..0] == [];
    assert ScheduleOf(["NDSS"], y) == Years("NDSS", y);
    assert ["NDSS", "IEEE S&P"][..1] == ["NDSS"];
    assert ScheduleOf(["NDSS", "IEEE S&P"], y) == Years("NDSS", y) + Years("IEEE S&P", y);
    assert ["NDSS", "IEEE S&P", "USENIX"][..2] == ["NDSS", "IEEE S&P"];
    assert ScheduleOf(["NDSS", "IEEE S&P", "USENIX"], y) == Years("NDSS", y) + Years("IEEE S&P", y) + Years("USENIX", y);
    assert Conferences[..3] == ["NDSS", "IEEE S&P", "USENIX"];
  }

  /** Each venue is asked for exactly the years from 2000 to the current one. */
  lemma YearsCover(conf: string, currentYear: int, year: int)
    ensures (conf, year) in Years(conf, currentYear) <==> FirstYear <= year <= currentYear
  {
    if FirstYear <= year <= currentYear {
      assert Years(conf, currentYear)[year - FirstYear] == (conf, year);
    }
  }
}
