/** The stored paper record (the `paper` table) and its one-line display. */
module Db {
  import opened Wrappers
  import opened Text

  /**
   * A row of the `paper` table. `id` is the integer primary key; `url` is
   * never written by the crawler and may be NULL.
   */
  datatype Paper = Paper(
    id: int,
    conference: string,
    year: int,
    title: string,
    authors: string,
    abstractText: string,  // the `abstract` column
    url: Option<string>)

  /** `__tablename__`: the lower-cased class name. */
  function TableName(className: string): (r: string)
    ensures |r| == |className|
    ensures forall i :: 0 <= i < |r| ==> r[i] == LowerChar(className[i])
  {
    AsciiLower(className)
  }

  const PaperTable: string := TableName("Paper")

  /** The `paper` table takes its name from the record class. */
  lemma PaperTableName()
    ensures PaperTable == "paper"
  {
    var t := PaperTable;
    assert t[0] == LowerChar('P');
  }

  /** Format spec `:Ws` on a string: left-aligned, padded with spaces to at least `w` characters, never truncated. */
  function PadRight(s: string, w: nat): (r: string)
    ensures |r| == if |s| < w then w else |s|
    ensures s <= r
    ensures forall i :: |s| <= i < |r| ==> r[i] == ' '
  {
    if |s| < w then s + seq(w - |s|, _ => ' ') else s
  }

  /** `Paper.__repr__`: `"{year}: {conference:8s} - {title}"`. */
  function Repr(p: Paper): string {
    IntToString(p.year) + ": " + PadRight(p.conference, 8) + " - " + p.title
  }

  /** Width of the conference column: eight characters, or the whole name when it is longer. */
  function ConferenceWidth(conference: string): nat {
    if |conference| < 8 then 8 else |conference|
  }

  /**
   * The display is the decimal year, `": "`, the conference padded with
   * spaces to its column width, `" - "` and the title; nothing is cut.
   */
  lemma ReprLayout(p: Paper)
    ensures var r, y, w := Repr(p), IntToString(p.year), ConferenceWidth(p.conference);
      && |r| == |y| + 2 + w + 3 + |p.title|
      && r[..|y|] == y
      && r[|y|..|y| + 2] == ": "
      && r[|y| + 2..|y| + 2 + |p.conference|] == p.conference
      && (forall i :: |y| + 2 + |p.conference| <= i < |y| + 2 + w ==> r[i] == ' ')
      && r[|y| + 2 + w..|y| + 5 + w] == " - "
      && r[|y| + 5 + w..] == p.title
  {
    var y := IntToString(p.year);
    var f := PadRight(p.conference, 8);
    var r := Repr(p);
    assert r == y + ": " + f + " - " + p.title;
    assert r[..|y|] == y;
    assert r[|y|..|y| + 2] == ": ";
    assert r[|y| + 2..|y| + 2 + |f|] == f;
    assert f[..|p.conference|] == p.conference;
    assert r[|y| + 2 + |f|..|y| + 5 + |f|] == " - ";
    assert r[|y| + 5 + |f|..] == p.title;
  }

  /** Optional sign and decimal digits: what `int(s)` accepts from `str(n)`. */
  predicate IsIntText(s: string) {
    && |s| >= 1
    && (s[0] == '-' ==> |s| >= 2)
    && forall i :: (if s[0] == '-' then 1 else 0) <= i < |s| ==> IsDigit(s[i])
  }

  /** Reading a display back: the integer before the first colon, if there is one. */
  function ReadYear(display: string): Option<int> {
    var i := IndexOf(display, ":");
    if i > 0 && IsIntText(display[..i]) then Some(ParseInt(display[..i])) else None
  }

  /** The year is read back from the text before the first colon. */
  lemma ReprYear(p: Paper)
    ensures ReadYear(Repr(p)) == Some(p.year)
  {
    var y := IntToString(p.year);
    var r := Repr(p);
    ReprLayout(p);
    IntToStringRoundTrip(p.year);
    assert forall k :: 0 <= k < |y| ==> y[k] == '-' || IsDigit(y[k]);
    assert OccursAt(r, ":", |y|) by { assert r[|y|..][..1] == ":"; }
    forall k | 0 <= k < |y|
      ensures !OccursAt(r, ":", k)
    {
      assert r[k] == y[k];
    }
    assert IndexOf(r, ":") == |y|;
  }

  /** Records with different years never display alike. */
  lemma ReprDistinguishesYear(p: Paper, q: Paper)
    requires Repr(p) == Repr(q)
    ensures p.year == q.year
  {
    ReprYear(p);
    ReprYear(q);
  }
}
