# top4grep in Dafny

top4grep collects the papers of the top security venues into a SQLite
database and lets you search it by keyword from the command line. It has
three parts, and this project models the core of each with the network,
the HTML parser, the browser and the database replaced by plain values:

- **The crawler** (`build_db.py`), in `builddb.dfy`, module `Crawl`. It reads
  the dblp table of contents of each venue and year. Every listed paper is
  stored unless a record with the same conference, year and title is
  already there. The `paper` table is a class, `PaperStore`, whose field is
  a sequence of records in insertion order. `GetPapers` and `BuildDb` are
  methods with loops, proved against the specification functions
  `Process`, `Crawl` and `CrawlAll`. The lemmas about those functions prove:
  - no key is ever duplicated;
  - records already stored are never touched;
  - a second pass over a listing stores nothing;
  - the counter counts every processed entry;
  - a failed listing ends only its own venue and year.
- **The search** (`__main__.py`), in `query.dfy`, module `Query`:
  - the keyword filter, with SQLAlchemy's `icontains`, i.e. SQLite's
    `lower(x) LIKE '%k%'`, where `%` and `_` in a keyword stay wildcards;
  - the ranking by year and then by position in `CONFERENCES`, with its
    `ValueError` for an unranked venue such as WWW;
  - keyword parsing, the missing-abstract listing, and the dispatch of `main`.
- **The abstract extractors** (`abstract.py`), in `abstract.dfy`, module
  `Abstract`. A fetched page is a `Page` value holding what the parser would
  find on it; a browser is a function from URL to rendered text. The module
  models:
  - `get_abstract`: the file-URL short cut, and every failure becoming ""
    (corrected; see "## Findings");
  - the NDSS paragraph filter and de-duplication loop, as a method;
  - the IEEE host dispatch and the `update_url` rewrite;
  - the Xplore marker trimming;
  - the ACM, Springer and PETS post-processing;
  - the `Abstracts` map.

  `update_url` rests on a model of Python's `urllib.parse.urlparse` and
  `urlunparse` in `url.dfy`, module `Url`. That model follows the Python
  library of releases 3.12.0 to 3.12.8, which is not part of this
  repository. It includes the check 3.12 makes on a bracketed host
  (`_check_bracketed_host`), which
  raises `ValueError` unless the host is an IPv6 or IPvFuture address. Which
  texts `ipaddress` accepts as addresses is modelled in `ipaddress.dfy`,
  module `IpAddress`.
- **The record** (`db.py`), in `db.dfy`, module `Db`: the `Paper` fields,
  the table name and `__repr__`.

Where the system's design description and the code differ, the model
follows the code:
- A keyword must occur in the title or in the abstract, each on its own,
  not in their concatenation.
- There is no fuzzy (stemmed) matching.
- There is no fallback metadata service, and no retry or back-off.
- There is no backfill-only year selection.
- The crawler never fetches abstracts and never updates a stored record.
- `update_url` does not always keep the path unchanged: `urlunparse` puts a
  "/" before a relative path once there is a host, and `Url.UpdateUrlRehosts`
  states exactly that.

`text.dfy` (module `Text`) models the Python string operations the code
relies on: `strip`, `lstrip(chars)`, `removeprefix`, `find`, `in`, `split`,
`join`, ASCII lower-casing and `str(int)`. `wrappers.dfy` holds `Option`,
`Result` and the Python exceptions the code can raise.

## Model

| member | source | states |
|---|---|---|
| Db.TableName | top4grep/db.py:5-7 | the table name is the class name with ASCII letters lower-cased character by character (see "## Left out") |
| Db.PaperTableName | top4grep/db.py:5-7 | the `Paper` class is stored in table `paper` |
| Db.PadRight | top4grep/db.py:21 | `:8s` pads with spaces to at least the width, keeps the text as a prefix, never truncates |
| Db.Repr | top4grep/db.py:20-21 | `__repr__`; its contract is stated by the rows `Db.ReprLayout`, `Db.ReprYear` and `Db.ReprDistinguishesYear` |
| Db.ReprLayout | top4grep/db.py:20-21 | `repr` is the decimal year, ": ", the conference padded to `max(8, len)`, " - ", the title, with every piece at its exact offsets |
| Db.ReprYear | top4grep/db.py:21 | the year is recovered from the text before the first colon of `repr` |
| Db.ReprDistinguishesYear | top4grep/db.py:20-21 | two records that display alike have the same year |
| Text.Strip | top4grep/abstract.py:63 | `strip()` returns a piece of its input whose ends are not whitespace, and is empty exactly for an all-whitespace input |
| Text.StripPieces | top4grep/abstract.py:63 | the input is whitespace, then the stripped text, then whitespace: `strip()` removes only whitespace, and only at the ends |
| Text.StripFramed | top4grep/abstract.py:63 | whitespace around a text whose ends are not whitespace strips to exactly that text, so together with `StripPieces` the result of `strip()` is fixed |
| Text.StripIdempotent | top4grep/abstract.py:63 | stripping twice equals stripping once |
| Text.JoinSplit | top4grep/__main__.py:75 | joining the pieces of `split(c)` with `c` gives the string back |
| Text.SplitJoin | top4grep/abstract.py:194 | splitting a join of separator-free pieces gives the pieces back |
| Text.IntToStringRoundTrip | top4grep/db.py:21 | `str(year)` has a sign exactly for negative years and parses back to the year |
| Query.Like | top4grep/__main__.py:22 | SQLite's `LIKE`; its contract is stated by the rows `Query.KeywordWildcard` and `Query.ILikeContains` |
| Query.ILike | top4grep/__main__.py:22 | `icontains`; its contract is stated by the row `Query.ILikeContains` |
| Query.Matches | top4grep/__main__.py:22-25 | the `or_` of the two fields for every keyword; its contract is stated by the rows `Query.SearchFinds` and `Query.PerFieldMatching` |
| Query.ILikeContains | top4grep/__main__.py:22 | for a keyword without `%` or `_`, `icontains` holds exactly when the lower-cased field contains the lower-cased keyword |
| Query.KeywordWildcard | top4grep/__main__.py:22 | `_` in a keyword matches any character, so "a_c" finds "ABC" |
| Query.Search | top4grep/__main__.py:22-25 | every paper returned matches every keyword |
| Query.SearchFinds | top4grep/__main__.py:22-25 | a paper is returned exactly when it is stored and every keyword is in its title or in its abstract |
| Query.SearchNoKeywords | top4grep/__main__.py:22-25 | with no keyword every stored paper is returned, in order |
| Query.PerFieldMatching | top4grep/__main__.py:22 | containment is per field: a keyword that spans title and abstract does not match |
| Query.Key | top4grep/__main__.py:28 | the sort key; its contract is stated by the rows `Query.KeyMatchesFraction`, `Query.KeyOrder`, `Query.KeyInjective` and `Query.PetsBeforeNdss` |
| Query.IndexIn | top4grep/__main__.py:28 | `list.index` gives the first position of the value, and `ValueError` exactly when it is absent |
| Query.KeyMatchesFraction | top4grep/__main__.py:28 | the integer key `10*year + index` orders papers exactly as the key `year + index/10` over the reals does |
| Query.KeyOrder | top4grep/__main__.py:28 | a larger key means a later year, or the same year and a later venue in `CONFERENCES` |
| Query.KeyInjective | top4grep/__main__.py:28 | equal keys mean the same year and the same venue |
| Query.PetsBeforeNdss | top4grep/__main__.py:28 | in the same year a PETS paper ranks above an NDSS paper |
| Query.SortDesc | top4grep/__main__.py:28 | `sorted(reverse=True)` returns a permutation of its input, descending by key |
| Query.SortStable | top4grep/__main__.py:28 | elements with equal keys keep their input order |
| Query.Grep | top4grep/__main__.py:20-29 | `grep` fails only with `ValueError` |
| Query.GrepFails | top4grep/__main__.py:28 | `grep` fails exactly when some matching paper's venue is not in `CONFERENCES` |
| Query.GrepFailsOnWww | top4grep/__main__.py:28 | a matching WWW paper makes the whole query fail |
| Query.GrepPermutes | top4grep/__main__.py:25-28 | the result holds exactly the matching papers, each as often as stored |
| Query.GrepOrder | top4grep/__main__.py:28 | later years come first; within a year the venue later in `CONFERENCES` comes first |
| Query.GrepStable | top4grep/__main__.py:28 | papers of the same year and venue keep their storage order |
| Query.ParseKeywords | top4grep/__main__.py:75 | one keyword per comma plus one, none containing a comma or starting or ending with whitespace |
| Query.ParseKeywordsExact | top4grep/__main__.py:75 | each keyword is its comma-separated piece of the option minus whitespace at both ends: putting that whitespace back and joining with commas gives the option |
| Query.ParseKeywordsJoin | top4grep/__main__.py:75 | for an option without whitespace, the keywords joined by commas give the option back |
| Query.ParseKeywordsNonEmpty | top4grep/__main__.py:75-79 | parsing always gives at least one keyword, so the "no keyword" warning is never reached |
| Query.ListMissingAbstract | top4grep/__main__.py:53-57 | every listed paper has an empty abstract |
| Query.ListMissingAbstractExact | top4grep/__main__.py:55 | every stored paper with an empty abstract is listed as often as it is stored, and no other |
| Query.RunAsWritten | top4grep/__main__.py:59-87 | `--list-missing-abstract` wins over the other options; `--build-db` alone raises `TypeError` |
| Query.Run | top4grep/__main__.py:59-87 | with the call made as `build_db()`, `--build-db` alone builds the database, and only the `-k` branch can fail |
| Query.GrepCommand | top4grep/__main__.py:73-84 | `-k` without a database file raises `AssertionError`; on success it shows at least one keyword and honours `--abstracts` |
| Query.BuildDbCallMismatch | top4grep/__main__.py:85-87 | the written call fails with `TypeError` where the corrected one builds the database |
| Query.RunAgreesElsewhere | top4grep/__main__.py:69-87 | apart from `--build-db`, the written and the corrected `main` behave the same |
| IpAddress.BracketedHostOk | top4grep/abstract.py:80 | `_check_bracketed_host` of `urlparse`; its contract is stated by the rows `IpAddress.NoSeparatorRefused`, `IpAddress.NotAnAddress`, `IpAddress.LoopbackAccepted` and `IpAddress.IPv4Refused`, and it decides when `Url.Parse` fails |
| Url.Parse | top4grep/abstract.py:80 | `urlparse` gives well-formed parts holding the URL's network location, and fails, always with `ValueError`, exactly when the brackets of that location are unbalanced or enclose something other than an IPv6 or IPvFuture address |
| Url.ParseRefusesNonAddress | top4grep/abstract.py:80 | "http://[abc]/x" raises `ValueError` |
| IpAddress.NoSeparatorRefused | top4grep/abstract.py:80 | a bracketed host without `.` or `:` that does not start with `v` is refused |
| IpAddress.NotAnAddress | top4grep/abstract.py:80 | the bracketed host "abc" is refused |
| IpAddress.LoopbackAccepted | top4grep/abstract.py:80 | the bracketed host "::1" is accepted |
| IpAddress.IPv4Refused | top4grep/abstract.py:80 | the bracketed host "127.0.0.1" is refused, because it is an IPv4 address |
| Url.Unparse | top4grep/abstract.py:85 | `urlunparse`; its contract is stated by the rows `Url.ParseUnparse` and `Url.RehostRoundTrip` |
| Url.ParseUnparse | top4grep/abstract.py:84-85 | `urlparse` reads back what `urlunparse` writes for parts with a host, with the path rooted |
| Url.RehostRoundTrip | top4grep/abstract.py:84-85 | replacing the host of well-formed parts and writing them out reads back as the same parts with the new host |
| Url.UpdateUrl | top4grep/abstract.py:79-88 | `update_url`; its contract is stated by the rows `Url.UpdateUrlKeepsIeeeHosts`, `Url.UpdateUrlRehosts`, `Url.UpdateUrlIdempotent` and `Url.UpdateUrlFails` |
| Url.UpdateUrlKeepsIeeeHosts | top4grep/abstract.py:83-88 | a URL on "doi.ieeecomputersociety.org" or "doi.org" is returned unchanged |
| Url.UpdateUrlRehosts | top4grep/abstract.py:83-86 | for another host, the result parses to the same scheme, path, params, query and fragment on "doi.ieeecomputersociety.org", with a relative path rooted |
| Url.UpdateUrlIdempotent | top4grep/abstract.py:79-88 | applying `update_url` twice equals applying it once |
| Url.UpdateUrlFails | top4grep/abstract.py:80 | `update_url` fails exactly when `urlparse` does |
| Url.IeeeHostOk | top4grep/abstract.py:81 | the computer.org host is a valid, non-empty network location |
| Abstract.Get | top4grep/abstract.py:53-54 | a fetch succeeds only with status 200; otherwise `RequestException` or `AssertionError` |
| Abstract.Found | top4grep/abstract.py:42-43 | a missing element raises `AttributeError`, a present one is used |
| Abstract.Render | top4grep/abstract.py:169-174 | the browser step succeeds exactly when the page loads and has the element, and gives its text |
| Abstract.Ndss | top4grep/abstract.py:51-73 | the NDSS extractor; with a `paper-data` block it joins `Abstract.NdssParagraphs` with newlines; its failures are those of the rows `Abstract.Get`, `Abstract.Found` and `Abstract.Candidates` |
| Abstract.NdssParagraphs | top4grep/abstract.py:59-69 | the filter followed by the de-duplication; its contract is stated by the rows `Abstract.CandidatesSelect`, `Abstract.SelectParagraphs`, the `Abstract.Dedup` rows and `Abstract.NdssInPageOrder` |
| Abstract.Candidates | top4grep/abstract.py:59 | the filter fails only with `IndexError` |
| Abstract.CandidatesSelect | top4grep/abstract.py:59-63 | when it succeeds, the filter gives exactly the paragraphs that are not blank and do not contain the first author's name, in page order, each stripped |
| Abstract.CandidatesInOrder | top4grep/abstract.py:59-63 | the stripped paragraphs that pass are a subsequence of the page's stripped paragraphs |
| Abstract.CandidatesClean | top4grep/abstract.py:59-63 | every paragraph that passes is stripped, non-empty and free of the first author's name |
| Abstract.NoAuthorInStripped | top4grep/abstract.py:59-63 | stripping cannot bring an author's name in |
| Abstract.CandidatesFail | top4grep/abstract.py:59 | the filter raises exactly when the author list is empty and some paragraph is not blank |
| Abstract.Dedup | top4grep/abstract.py:61-68 | de-duplication keeps no more paragraphs than it is given |
| Abstract.AlreadyKept | top4grep/abstract.py:64-66 | the inner loop finds exactly whether some kept paragraph contains the new one |
| Abstract.KeepUnlessCovered | top4grep/abstract.py:64-68 | one outer step: `ap_list[:i]` is all of `ap_list`, and the step extends the de-duplication by one paragraph |
| Abstract.SelectParagraphs | top4grep/abstract.py:59-69 | the loop computes the filter followed by the de-duplication, including the `IndexError` |
| Abstract.DedupKeepsFirst | top4grep/abstract.py:61-68 | the first qualifying paragraph is always kept |
| Abstract.DedupInOrder | top4grep/abstract.py:61-68 | the kept paragraphs are a subsequence of the candidates, so they keep the candidates' order |
| Abstract.NdssInPageOrder | top4grep/abstract.py:59-69 | the NDSS paragraphs are a subsequence of the page's stripped paragraphs |
| Abstract.DedupCovers | top4grep/abstract.py:61-68 | every dropped paragraph is contained in some kept one |
| Abstract.DedupNoLaterInEarlier | top4grep/abstract.py:61-68 | no kept paragraph contains a later kept one |
| Abstract.DedupFrom | top4grep/abstract.py:61-68 | every kept paragraph is one of the candidates |
| Abstract.Ieee | top4grep/abstract.py:90-145 | the IEEE extractor; its contract is stated by the rows `Abstract.IeeeRoute`, `Abstract.IeeeLoadsPublisherUrl`, `Abstract.IeeeOtherHost`, `Abstract.Render` and the `Abstract.TrimXplore` rows |
| Abstract.IeeeRoute | top4grep/abstract.py:133-142 | host "doi.ieeecomputersociety.org" goes to computer.org and "doi.org" to Xplore, each exactly; any other host raises `NotImplementedError`, and a URL that `urlparse` refuses raises its `ValueError` |
| Abstract.IeeeLoadsPublisherUrl | top4grep/abstract.py:90-94 | on both routed hosts `update_url` is the identity, so the browser loads the publisher URL |
| Abstract.IeeeOtherHost | top4grep/abstract.py:137-142 | another host raises `NotImplementedError`, and `get_abstract` turns it into "" |
| Abstract.TrimXplore | top4grep/abstract.py:123-126 | the trimmed text is a piece of the rendered text |
| Abstract.TrimXploreUnmarked | top4grep/abstract.py:123-126 | text with neither marker is unchanged |
| Abstract.TrimXploreLabelOnly | top4grep/abstract.py:123-124 | with a label and no "\n(Show Less)" after it, everything up to and including the first "Abstract:\n" is dropped |
| Abstract.TrimXploreShowLessOnly | top4grep/abstract.py:125-126 | without a label, everything from the first "\n(Show Less)" on is dropped |
| Abstract.TrimXploreFramed | top4grep/abstract.py:123-126 | everything up to the first "Abstract:\n" and from the next "\n(Show Less)" on is dropped |
| Abstract.Usenix | top4grep/abstract.py:149-161 | the USENIX extractor; its contract is stated by the row `Abstract.UsenixStripped` |
| Abstract.UsenixStripped | top4grep/abstract.py:156-161 | the USENIX text comes back stripped |
| Abstract.Acm | top4grep/abstract.py:165-181 | the ACM extractor: the rendered text, cleaned; its contract is stated by the row `Abstract.Render` and the `Abstract.AcmClean` rows |
| Abstract.AcmClean | top4grep/abstract.py:174-179 | the result is never the placeholder and is stripped |
| Abstract.AcmCleanUnlabelled | top4grep/abstract.py:174-179 | text that does not start with "Abstract" is only stripped, and becomes "" exactly when it strips to "No abstract available." |
| Abstract.AcmNoAbstractEmpty | top4grep/abstract.py:177-178 | "No abstract available." becomes "" |
| Abstract.AcmLabelAfterSpace | top4grep/abstract.py:174 | a label after leading whitespace is kept: " Abstract x" becomes "Abstract x" |
| Abstract.AcmCleanFramed | top4grep/abstract.py:174-179 | one leading "Abstract" and the surrounding whitespace go; exactly "No abstract available." becomes "" |
| Abstract.SpringerParts | top4grep/abstract.py:193-194 | no more parts than paragraphs; `Abstract.SpringerPartsSelect` gives its exact value |
| Abstract.SpringerPartsSelect | top4grep/abstract.py:193-194 | the parts are exactly the non-blank paragraphs, in page order, each stripped |
| Abstract.SpringerInOrder | top4grep/abstract.py:193-194 | the parts are a subsequence of the stripped paragraphs |
| Abstract.SpringerPartsTrimmed | top4grep/abstract.py:193-194 | every part is stripped and non-empty |
| Abstract.SpringerPartsNoNewline | top4grep/abstract.py:193-194 | parts of newline-free paragraphs are newline-free |
| Abstract.Springer | top4grep/abstract.py:184-194 | the Springer extractor; its contract is stated by the rows `Abstract.Found` and `Abstract.SpringerLines` |
| Abstract.SpringerLines | top4grep/abstract.py:194 | the Springer abstract's lines are exactly its non-blank stripped paragraphs |
| Abstract.Pets | top4grep/abstract.py:197-207 | the PETS extractor: a springer.com page goes to `Abstract.Springer`, any other to `Abstract.PetsClean` of the label's paragraph |
| Abstract.PetsClean | top4grep/abstract.py:207 | `lstrip('Abstract:').strip()`; its contract is stated by the rows `Abstract.PetsCleanRun`, `Abstract.PetsCleanLabel` and `Abstract.PetsEatsWord` |
| Abstract.PetsCleanRun | top4grep/abstract.py:207 | `lstrip('Abstract:')` drops any leading run of the characters A, b, s, t, r, a, c and ":" |
| Abstract.PetsCleanLabel | top4grep/abstract.py:207 | a label followed by a text that starts outside that set leaves the text |
| Abstract.PetsEatsWord | top4grep/abstract.py:207 | a word made of label characters right after the label is lost with it |
| Abstract.AbstractsCoverConferences | top4grep/abstract.py:216-227 | every ranked venue has an extractor; WWW has one but cannot be ranked |
| Abstract.AbstractsIeee | top4grep/abstract.py:216-227 | IEEE S&P, IEEE EuroS&P and ACSAC share the IEEE extractor |
| Abstract.AbstractsAcm | top4grep/abstract.py:216-227 | CCS, RAID, AsiaCCS and WWW share the ACM extractor |
| Abstract.FromPublisher | top4grep/abstract.py:33-34 | the call of each extractor's `get_abstract_from_publisher`; its contract is stated by the rows `Abstract.GetAbstractSource` and the `Abstract.Abstracts` rows |
| Abstract.Extracted | top4grep/abstract.py:30-39 | the file-URL short cut and the `except Exception`; its contract is stated by the rows `Abstract.GetAbstractSkipsFiles` and `Abstract.GetAbstractSwallows` |
| Abstract.GetAbstractAsWritten | top4grep/abstract.py:21-39 | as written, `get_abstract` raises exactly when the link has no `href` |
| Abstract.GetAbstract | top4grep/abstract.py:21-39 | corrected: without a publisher URL, or with a file URL, the abstract is "" rather than an exception |
| Abstract.GetAbstractFixesHref | top4grep/abstract.py:24-32 | the corrected `get_abstract` agrees with the written one wherever that one returns, and gives "" where it raises |
| Abstract.GetAbstractSkipsFiles | top4grep/abstract.py:30-32 | a publisher URL ending in ".pdf" or ".zip" gives "" |
| Abstract.GetAbstractSource | top4grep/abstract.py:33-36 | a non-empty abstract comes from the extractor, called on a non-file publisher URL |
| Abstract.GetAbstractSwallows | top4grep/abstract.py:33-39 | any exception from the extractor gives "" |
| Crawl.NextId | top4grep/build_db.py:26-30 | a new row's id is larger than every stored id, and 1 in an empty table |
| Crawl.Processed | top4grep/build_db.py:49-56 | the loop gets through the entries up to the first one without a title |
| Crawl.PaperStore.PaperExist | top4grep/build_db.py:33-37 | the lookup is on conference, year and title only |
| Crawl.PaperStore.SavePaper | top4grep/build_db.py:26-31 | one new row: next id, authors joined with ", ", no url; nothing else changes |
| Crawl.PaperStore.GetPapers | top4grep/build_db.py:39-60 | the loop leaves the store and the count that `Crawl` specifies; only an unknown venue raises, before any change |
| Crawl.PaperStore.CrawlVenue | top4grep/build_db.py:65-66 | the year loop continues the crawl with every year from 2000 to the current one |
| Crawl.PaperStore.BuildDb | top4grep/build_db.py:63-66 | the nested loop leaves the store that crawling the whole schedule specifies |
| Crawl.Insert | top4grep/build_db.py:53-55 | insert-if-absent; its contract is stated by the rows `Crawl.InsertHasKey` and `Crawl.InsertUnique` |
| Crawl.Process | top4grep/build_db.py:49-58 | the loop over a listing's entries; its contract is stated by the `Crawl.Process` rows and `Crawl.Processed` |
| Crawl.Crawl | top4grep/build_db.py:39-60 | `get_papers`; its contract is stated by the rows `Crawl.CrawlOutcome` and `Crawl.CrawlKeeps`, and `Crawl.PaperStore.GetPapers` is proved against it |
| Crawl.CrawlAll | top4grep/build_db.py:63-66 | `get_papers` over a schedule; its contract is stated by the rows `Crawl.CrawlAllKeeps` and `Crawl.CrawlAllOk`, and `Crawl.PaperStore.BuildDb` is proved against it |
| Crawl.Schedule | top4grep/build_db.py:64-65 | the order of `build_db`'s loops; its contract is stated by the rows `Crawl.ScheduleOrder` and `Crawl.YearsCover` |
| Crawl.InsertHasKey | top4grep/build_db.py:54-55 | after insert-if-absent the key is stored |
| Crawl.InsertUnique | top4grep/build_db.py:53-55 | insert-if-absent keeps keys and ids unique |
| Crawl.ProcessKeepsRecords | top4grep/build_db.py:49-56 | records already stored are never modified or removed |
| Crawl.ProcessCount | top4grep/build_db.py:49-58 | `cnt` counts every processed entry, inserted or skipped, and the warning is logged exactly when an entry lacks a title |
| Crawl.ProcessCovers | top4grep/build_db.py:49-56 | every processed entry's key is stored afterwards |
| Crawl.ProcessNoop | top4grep/build_db.py:53-55 | a listing whose keys are all stored changes nothing |
| Crawl.ProcessIdempotent | top4grep/build_db.py:49-56 | processing the same listing twice stores nothing the second time and counts the same |
| Crawl.ProcessUnique | top4grep/build_db.py:49-55 | no listing creates a second record for a key, even one that lists a title twice |
| Crawl.ProcessNewRecords | top4grep/build_db.py:49-55 | every new record has the venue and year asked for, a processed entry's title and its authors joined with ", ", an empty abstract and no url |
| Crawl.CrawlOutcome | top4grep/build_db.py:39-58 | only a venue missing from `NAME_MAP` raises; an unreachable or non-200 listing changes nothing and logs the warning |
| Crawl.CrawlKeeps | top4grep/build_db.py:39-58 | one venue-year keeps earlier records and keeps keys and ids unique |
| Crawl.CrawlAllKeeps | top4grep/build_db.py:63-66 | the whole crawl keeps earlier records and keeps keys and ids unique |
| Crawl.CrawlAllOk | top4grep/build_db.py:63-66 | a crawl over known venues goes on past failed listings to the end |
| Crawl.BuildDbNeverFails | top4grep/build_db.py:63-66 | `build_db` never raises: every venue of `CONFERENCES` has a dblp identifier |
| Crawl.ScheduleOrder | top4grep/build_db.py:64-65 | the venues are visited in list order, each for all its years before the next |
| Crawl.YearsCover | top4grep/build_db.py:65 | each venue is visited for exactly the years 2000 to the current one |

## Left out

- HTTP, HTML parsing and the browser are inputs. A `Web` function maps a URL
  to a `Page`, a `Browser` function maps a URL to rendered text, and a `Dblp`
  function maps a listing URL to its status and entries. BeautifulSoup,
  Selenium, `WebDriverWait`, the view-all click and the driver's start and
  quit are not modelled.
- The `time.sleep(2)` cool-downs and all logging are timing or output only.
  `get_papers`'s count and warning are returned as a `Report`.
- SQLAlchemy engines and sessions: the table is a sequence in insertion
  order, read back in that order.
- The clock: `datetime.now().year` is the `currentYear` parameter of `BuildDb`.
  `build_db.py:65` reads the clock again for each venue, so a crawl that runs
  across New Year could give later venues one more year. The model uses one
  year for the whole crawl.
- Where the database lives is not modelled. `build_db.py` opens `papers.db`
  in the working directory, while `__main__.py` and `__init__.py` use the
  package's `papers.db`. Importing the package runs `create_all` on that
  file (`__init__.py:11-12`), which creates it. So the `AssertionError` of
  `__main__.py:74` cannot fire in practice. `Query.GrepCommand` keeps the
  branch, with whether the file exists as an input.
- `show_papers` and its ANSI colouring, and argparse itself: these are
  terminal output. `main` is modelled on an `Options` value.
- Floating point: the sort key is the integer `10*year + index`, which
  `Query.KeyMatchesFraction` relates to the key over the reals.
- `AbstractIEEE.has_abstract_sibling`: nothing calls it.
- The NDSS and USENIX fallbacks through `html.find(string=...)` and
  `get_text(separator='\n')`: the text those calls return is a field of
  `Page`.
- Url.Parse: the check of `_checknetloc` that a non-ASCII network location
  keeps its `/`, `?`, `#`, `@` and `:` under NFKC normalisation is not
  modelled, because Unicode normalisation is not. Later 3.12 releases also
  refuse a network location with text before `[` or with something other
  than a `:port` after `]` (`_check_bracketed_netloc`), such as
  "http://a[::1]/". The model follows 3.12.0 to 3.12.8 and accepts it.
- Db.TableName: `str.lower()` lower-cases all of Unicode, while the model
  lower-cases ASCII letters only. The two agree on `Paper`, the only table.
- Crawl.NextId: SQLite's random row id after the largest possible id is not
  modelled; ids are unbounded integers.

## Findings

| source | as written | input that shows it | evidently intended | confidence | as-written member | corrected member |
|---|---|---|---|---|---|---|
| top4grep/abstract.py:30 | `publisher_url.endswith(...)` runs outside both `try` blocks, so an `<a>` without `href` passes `None` on and raises `AttributeError` to the caller | a `li.ee` item whose `<a>` has no `href` attribute | `get_abstract` returns "" whenever no publisher URL is found | not executed | Abstract.GetAbstractAsWritten | Abstract.GetAbstract |
| top4grep/__main__.py:87 | `build_db(args.load_abstracts)` calls a function that takes no arguments, which raises `TypeError` | `--build-db` without `-k` or `--list-missing-abstract` | `build_db()` builds the database | not executed | Query.RunAsWritten | Query.Run |
