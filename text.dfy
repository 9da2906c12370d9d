/** Python `str` operations used by top4grep, on `string = seq<char>`. */
module Text {

  /** Python's `str.isspace()` for one character (Unicode whitespace, as CPython defines it). */
  predicate IsSpace(c: char) {
    || c == ' '
    || ('\t' <= c <= '\r')
    || ('\U{1C}' <= c <= '\U{1F}')
    || c == '\U{85}' || c == '\U{A0}' || c == '\U{1680}'
    || ('\U{2000}' <= c <= '\U{200A}')
    || c == '\U{2028}' || c == '\U{2029}' || c == '\U{202F}' || c == '\U{205F}' || c == '\U{3000}'
  }

  predicate AllSpace(s: string) {
    forall i :: 0 <= i < |s| ==> IsSpace(s[i])
  }

  predicate IsAsciiLetter(c: char) {
    ('a' <= c <= 'z') || ('A' <= c <= 'Z')
  }

  predicate IsDigit(c: char) {
    '0' <= c <= '9'
  }

  predicate EndsWith(s: string, suffix: string) {
    |suffix| <= |s| && s[|s| - |suffix|..] == suffix
  }

  // ---------------------------------------------------------------------------
  // Substring search: `pat in s` and `s.find(pat)`
  // ---------------------------------------------------------------------------

  /** `pat` occurs in `s` starting at index `i`. */
  predicate OccursAt(s: string, pat: string, i: int) {
    0 <= i <= |s| && pat <= s[i..]
  }

  /** Python's `pat in s`. */
  predicate Contains(s: string, pat: string) {
    exists i :: 0 <= i <= |s| && OccursAt(s, pat, i)
  }

  lemma OccursShift(s: string, pat: string, i: int)
    requires |s| > 0 && i >= 0
    ensures OccursAt(s[1..], pat, i) <==> OccursAt(s, pat, i + 1)
  {
    if 0 <= i <= |s| - 1 {
      assert s[1..][i..] == s[i + 1..];
    }
  }

  /** Python's `s.find(pat)`: the first index at which `pat` occurs, or -1. */
  function IndexOf(s: string, pat: string): (r: int)
    ensures r == -1 || OccursAt(s, pat, r)
    ensures forall i :: 0 <= i && (r == -1 || i < r) ==> !OccursAt(s, pat, i)
    decreases |s|
  {
    if pat <= s then 0
    else if s == [] then -1
    else
      var k := IndexOf(s[1..], pat);
      assert s[0..] == s;
      assert forall i :: 1 <= i ==> (OccursAt(s, pat, i) <==> OccursAt(s[1..], pat, i - 1)) by {
        forall i | 1 <= i ensures OccursAt(s, pat, i) <==> OccursAt(s[1..], pat, i - 1) {
          OccursShift(s, pat, i - 1);
        }
      }
      if k == -1 then -1 else k + 1
  }

  lemma IndexOfContains(s: string, pat: string)
    ensures Contains(s, pat) <==> IndexOf(s, pat) >= 0
  {
    var k := IndexOf(s, pat);
    if k >= 0 {
      assert OccursAt(s, pat, k);
    }
  }

  /** Every string contains itself. */
  lemma ContainsSelf(s: string)
    ensures Contains(s, s)
  {
    assert OccursAt(s, s, 0);
  }

  /** A substring of a substring is a substring. */
  lemma ContainsTransitive(a: string, b: string, c: string)
    requires Contains(a, b) && Contains(b, c)
    ensures Contains(a, c)
  {
    var i :| 0 <= i <= |a| && OccursAt(a, b, i);
    var j :| 0 <= j <= |b| && OccursAt(b, c, j);
    assert a[i + j..][..|c|] == b[j..][..|c|];
    assert OccursAt(a, c, i + j);
  }

  /**
   * A marker whose first character does not recur in it is first found right
   * after a prefix that does not contain it.
   */
  lemma FirstOccurrenceAfter(pre: string, m: string, rest: string)
    requires m != [] && !Contains(pre, m)
    requires forall d :: 1 <= d < |m| ==> m[d] != m[0]
    ensures IndexOf(pre + m + rest, m) == |pre|
  {
    var s := pre + m + rest;
    assert s[|pre|..][..|m|] == m;
    assert OccursAt(s, m, |pre|);
    forall k | 0 <= k < |pre|
      ensures !OccursAt(s, m, k)
    {
      if k + |m| <= |pre| {
        assert s[k..][..|m|] == pre[k..][..|m|];
        assert OccursAt(s, m, k) ==> OccursAt(pre, m, k);
      } else {
        var d := |pre| - k;
        assert s[|pre|] == m[0];
        assert s[k..][d] == m[0];
      }
    }
  }

  /** `s[a..b]` is a substring of `s`. */
  lemma ContainsSlice(s: string, a: int, b: int)
    requires 0 <= a <= b <= |s|
    ensures Contains(s, s[a..b])
  {
    assert s[a..b] <= s[a..];
    assert OccursAt(s, s[a..b], a);
  }

  /** Python's `s.find(c, start)` for one character: first index `>= start` holding `c`, or -1. */
  function FindChar(s: string, c: char, start: nat): (r: int)
    ensures r == -1 || (start <= r < |s| && s[r] == c)
    ensures forall i :: start <= i < |s| && (r == -1 || i < r) ==> s[i] != c
    decreases |s| - start
  {
    if start >= |s| then -1
    else if s[start] == c then start
    else FindChar(s, c, start + 1)
  }

  /** Python's `s.rfind(c)` for one character: last index holding `c`, or -1. */
  function RFindChar(s: string, c: char): (r: int)
    ensures -1 <= r < |s|
    ensures r == -1 || s[r] == c
    ensures forall i :: r < i < |s| ==> s[i] != c
  {
    if s == [] then -1
    else if s[|s| - 1] == c then |s| - 1
    else RFindChar(s[..|s| - 1], c)
  }

  /** The first index holding any of `cs`, or `|s|` when there is none. */
  function FindAny(s: string, cs: set<char>): (r: nat)
    ensures r <= |s|
    ensures r < |s| ==> s[r] in cs
    ensures forall i :: 0 <= i < r ==> s[i] !in cs
  {
    if s == [] then 0
    else if s[0] in cs then 0
    else 1 + FindAny(s[1..], cs)
  }

  // ---------------------------------------------------------------------------
  // Stripping
  // ---------------------------------------------------------------------------

  /** The number of whitespace characters `s` starts with. */
  function LeadingSpaces(s: string): (n: nat)
    ensures n <= |s|
    ensures forall i :: 0 <= i < n ==> IsSpace(s[i])
    ensures n < |s| ==> !IsSpace(s[n])
  {
    if s == [] || !IsSpace(s[0]) then 0
    else
      var m := LeadingSpaces(s[1..]);
      assert forall i :: 1 <= i < m + 1 ==> s[i] == s[1..][i - 1];
      m + 1
  }

  /** The length of `s` without the whitespace it ends with. */
  function TrailingStart(s: string): (n: nat)
    ensures n <= |s|
    ensures forall i :: n <= i < |s| ==> IsSpace(s[i])
    ensures n > 0 ==> !IsSpace(s[n - 1])
  {
    if s == [] || !IsSpace(s[|s| - 1]) then |s|
    else
      var m := TrailingStart(s[..|s| - 1]);
      assert forall i :: m <= i < |s| - 1 ==> s[i] == s[..|s| - 1][i];
      m
  }

  /** Python's `s.lstrip()`. */
  function LStrip(s: string): (r: string)
    ensures |r| <= |s| && r == s[|s| - |r|..]
    ensures AllSpace(s[..|s| - |r|])
    ensures r == [] || !IsSpace(r[0])
    ensures r == [] <==> AllSpace(s)
  {
    var n := LeadingSpaces(s);
    assert forall i :: 0 <= i < n ==> s[..n][i] == s[i];
    s[n..]
  }

  /** Python's `s.rstrip()`. */
  function RStrip(s: string): (r: string)
    ensures |r| <= |s| && r == s[..|r|]
    ensures AllSpace(s[|r|..])
    ensures r == [] || !IsSpace(r[|r| - 1])
    ensures r == [] <==> AllSpace(s)
  {
    var n := TrailingStart(s);
    assert forall i :: n <= i < |s| ==> s[n..][i - n] == s[i];
    s[..n]
  }

  /**
   * Python's `s.strip()`: no whitespace at either end, a substring of `s`,
   * empty exactly when `s` is all whitespace. `StripPieces` and
   * `StripFramed` show that whitespace is all it removes, which fixes the
   * result.
   */
  function Strip(s: string): (r: string)
    ensures r == [] || (!IsSpace(r[0]) && !IsSpace(r[|r| - 1]))
    ensures Contains(s, r)
    ensures r == [] <==> AllSpace(s)
  {
    var l := LStrip(s);
    var r := RStrip(l);
    StripEmpty(s, l, r);
    StripContained(s, l, r);
    r
  }

  lemma StripEmpty(s: string, l: string, r: string)
    requires l == LStrip(s) && r == RStrip(l)
    ensures r == [] <==> AllSpace(s)
  {
    if l != [] {
      assert !IsSpace(l[0]);
    }
  }

  lemma StripContained(s: string, l: string, r: string)
    requires l == LStrip(s) && r == RStrip(l)
    ensures Contains(s, r)
  {
    var n := |s| - |l|;
    assert r == s[n..n + |r|];
    ContainsSlice(s, n, n + |r|);
  }

  lemma {:induction false} StripIdempotent(s: string)
    ensures Strip(Strip(s)) == Strip(s)
  {
    var t := Strip(s);
    assert LStrip(t) == t;
    assert RStrip(t) == t;
  }

  /** Stripping adds no character. */
  lemma NotInStrip(s: string, c: char)
    requires c !in s
    ensures c !in Strip(s)
  {
    var l := LStrip(s);
    assert c !in l;
    assert c !in RStrip(l);
  }

  /** Stripping whitespace around a text whose ends are not whitespace gives the text. */
  lemma StripFramed(ws: string, body: string, trailing: string)
    requires AllSpace(ws) && AllSpace(trailing)
    requires body == [] || (!IsSpace(body[0]) && !IsSpace(body[|body| - 1]))
    ensures Strip(ws + body + trailing) == body
  {
    var s := ws + body + trailing;
    if body == [] {
      assert s == ws + trailing;
      assert AllSpace(s);
    } else {
      assert s == ws + (body + trailing);
      LStripFramed(ws, body + trailing);
      RStripFramed(body, trailing);
    }
  }

  /** Leading whitespace before a non-whitespace character is all that `lstrip()` removes. */
  lemma LStripFramed(ws: string, s: string)
    requires AllSpace(ws) && s != [] && !IsSpace(s[0])
    ensures LStrip(ws + s) == s
  {
    var t := ws + s;
    var r := LStrip(t);
    assert t[|ws|] == s[0];
    assert |t| - |r| <= |ws| by {
      assert AllSpace(t[..|t| - |r|]);
      assert !IsSpace(t[|ws|]);
    }
    assert |t| - |r| >= |ws| by {
      assert forall i :: 0 <= i < |ws| ==> IsSpace(t[i]);
      assert r == [] || !IsSpace(t[|t| - |r|]);
    }
    assert r == t[|ws|..];
  }

  /** Trailing whitespace after a non-whitespace character is all that `rstrip()` removes. */
  lemma RStripFramed(s: string, ws: string)
    requires AllSpace(ws) && s != [] && !IsSpace(s[|s| - 1])
    ensures RStrip(s + ws) == s
  {
    var t := s + ws;
    var r := RStrip(t);
    assert t[|s| - 1] == s[|s| - 1];
    assert |r| >= |s| by {
      assert AllSpace(t[|r|..]);
      assert !IsSpace(t[|s| - 1]);
    }
    assert |r| <= |s| by {
      assert forall i :: |s| <= i < |t| ==> IsSpace(t[i]);
      assert r == [] || !IsSpace(t[|r| - 1]);
    }
    assert r == t[..|s|];
  }

  /** The whitespace `strip()` removes from the front of `s`. */
  function StripHead(s: string): string {
    s[..|s| - |LStrip(s)|]
  }

  /** The whitespace `strip()` removes from the back of `s`. */
  function StripTail(s: string): string {
    LStrip(s)[|Strip(s)|..]
  }

  /** `s` is its stripped text with the removed whitespace put back on either side. */
  lemma StripPieces(s: string)
    ensures StripHead(s) + Strip(s) + StripTail(s) == s
    ensures AllSpace(StripHead(s))
    ensures AllSpace(StripTail(s))
  {
    var l := LStrip(s);
    var r := RStrip(l);
    assert Strip(s) == r;
    LStripRStripPieces(s, l, r);
  }

  lemma LStripRStripPieces(s: string, l: string, r: string)
    requires l == LStrip(s) && r == RStrip(l)
    ensures s[..|s| - |l|] + r + l[|r|..] == s
    ensures AllSpace(s[..|s| - |l|]) && AllSpace(l[|r|..])
  {
    var n := |s| - |l|;
    assert s == s[..n] + l;
    assert l == r + l[|r|..];
  }

  /** Text that neither starts nor ends with whitespace is left as it is. */
  lemma StripKeeps(s: string)
    requires s == [] || (!IsSpace(s[0]) && !IsSpace(s[|s| - 1]))
    ensures Strip(s) == s
  {
  }

  /** Python's `s.lstrip(chars)`: drops the longest leading run of characters that occur in `chars`. */
  function LStripChars(s: string, chars: string): (r: string)
    ensures |r| <= |s| && r == s[|s| - |r|..]
    ensures forall i :: 0 <= i < |s| - |r| ==> s[i] in chars
    ensures r == [] || r[0] !in chars
  {
    if s != [] && s[0] in chars then LStripChars(s[1..], chars) else s
  }

  /** Python's `s.removeprefix(prefix)`. */
  function RemovePrefix(s: string, prefix: string): (r: string)
    ensures prefix <= s ==> prefix + r == s
    ensures !(prefix <= s) ==> r == s
  {
    if prefix <= s then s[|prefix|..] else s
  }

  // ---------------------------------------------------------------------------
  // Join and split
  // ---------------------------------------------------------------------------

  /** Python's `sep.join(parts)`. */
  function Join(sep: string, parts: seq<string>): string
  {
    if parts == [] then ""
    else if |parts| == 1 then parts[0]
    else parts[0] + sep + Join(sep, parts[1..])
  }

  /** Python's `s.split(c)` for a one-character separator. */
  function Split(s: string, c: char): (r: seq<string>)
    ensures |r| >= 1
  {
    if s == [] then [""]
    else
      var rest := Split(s[1..], c);
      if s[0] == c then [""] + rest else [[s[0]] + rest[0]] + rest[1..]
  }

  function Count(s: string, c: char): nat {
    if s == [] then 0 else (if s[0] == c then 1 else 0) + Count(s[1..], c)
  }

  /** Splitting yields one more piece than there are separators, and no piece holds the separator. */
  lemma {:induction false} SplitShape(s: string, c: char)
    ensures |Split(s, c)| == Count(s, c) + 1
    ensures forall k :: 0 <= k < |Split(s, c)| ==> c !in Split(s, c)[k]
  {
    if s != [] {
      SplitShape(s[1..], c);
    }
  }

  /** Joining the pieces with the separator gives back the string. */
  lemma {:induction false} JoinSplit(s: string, c: char)
    ensures Join([c], Split(s, c)) == s
  {
    if s != [] {
      var rest := Split(s[1..], c);
      JoinSplit(s[1..], c);
      if s[0] == c {
        assert Join([c], [""] + rest) == [c] + Join([c], rest);
      } else {
        JoinHead(c, s[0], rest);
      }
      assert [s[0]] + s[1..] == s;
    }
  }

  /** Putting a character in front of the first piece puts it in front of the join. */
  lemma JoinHead(c: char, h: char, parts: seq<string>)
    requires |parts| >= 1
    ensures Join([c], [[h] + parts[0]] + parts[1..]) == [h] + Join([c], parts)
  {
    if |parts| == 1 {
      assert [[h] + parts[0]] + parts[1..] == [[h] + parts[0]];
    } else {
      JoinUnfoldHead(c, h, parts);
      AppendAssoc4([h], parts[0], [c], Join([c], parts[1..]));
    }
  }

  lemma JoinUnfoldHead(c: char, h: char, parts: seq<string>)
    requires |parts| > 1
    ensures Join([c], [[h] + parts[0]] + parts[1..]) == ([h] + parts[0]) + [c] + Join([c], parts[1..])
  {
    var q := [[h] + parts[0]] + parts[1..];
    assert q[1..] == parts[1..];
  }

  lemma AppendAssoc4(a: string, b: string, d: string, e: string)
    ensures (a + b) + d + e == a + (b + d + e)
  {
  }

  /** Splitting a join of separator-free pieces gives back the pieces. */
  lemma {:induction false} SplitJoin(parts: seq<string>, c: char)
    requires |parts| >= 1
    requires forall k :: 0 <= k < |parts| ==> c !in parts[k]
    ensures Split(Join([c], parts), c) == parts
  {
    if |parts| == 1 {
      SplitNoSeparator(parts[0], c);
    } else {
      SplitJoin(parts[1..], c);
      SplitAfterPiece(parts[0], Join([c], parts[1..]), c);
      assert [parts[0]] + parts[1..] == parts;
    }
  }

  lemma {:induction false} SplitNoSeparator(s: string, c: char)
    requires c !in s
    ensures Split(s, c) == [s]
  {
    if s != [] {
      SplitNoSeparator(s[1..], c);
      assert [s[0]] + s[1..] == s;
    }
  }

  lemma {:induction false} SplitAfterPiece(p: string, t: string, c: char)
    requires c !in p
    ensures Split(p + [c] + t, c) == [p] + Split(t, c)
  {
    if p == [] {
      assert ([c] + t)[1..] == t;
    } else {
      SplitAfterPiece(p[1..], t, c);
      var u := p + [c] + t;
      assert u[1..] == p[1..] + [c] + t;
      assert u[0] == p[0] && p[0] != c;
      var rest := Split(u[1..], c);
      assert rest[0] == p[1..] && rest[1..] == Split(t, c);
      assert [p[0]] + p[1..] == p;
    }
  }

  // ---------------------------------------------------------------------------
  // Case folding and integers
  // ---------------------------------------------------------------------------

  function LowerChar(c: char): char {
    if 'A' <= c <= 'Z' then (c as int + 32) as char else c
  }

  /** ASCII-only lower-casing, as SQLite's built-in `lower()` does. */
  function AsciiLower(s: string): (r: string)
    ensures |r| == |s|
    ensures forall i :: 0 <= i < |s| ==> r[i] == LowerChar(s[i])
  {
    seq(|s|, i requires 0 <= i < |s| => LowerChar(s[i]))
  }

  function DigitChar(d: int): char
    requires 0 <= d < 10
  {
    ('0' as int + d) as char
  }

  /** Decimal digits of a natural number, most significant first, no leading zero. */
  function NatToString(n: nat): (r: string)
    ensures |r| >= 1 && forall i :: 0 <= i < |r| ==> IsDigit(r[i])
    ensures |r| > 1 ==> r[0] != '0'
  {
    if n < 10 then [DigitChar(n)] else NatToString(n / 10) + [DigitChar(n % 10)]
  }

  /** Python's `str(n)` for an `int`. */
  function IntToString(n: int): (r: string)
    ensures |r| >= 1 && (r[0] == '-' <==> n < 0)
    ensures r[0] == '-' ==> |r| >= 2
    ensures forall i :: (if r[0] == '-' then 1 else 0) <= i < |r| ==> IsDigit(r[i])
  {
    if n < 0 then "-" + NatToString(-n) else NatToString(n)
  }

  /** The value of a string of decimal digits. */
  function DigitsValue(s: string): nat
    requires forall i :: 0 <= i < |s| ==> IsDigit(s[i])
  {
    if s == [] then 0
    else
      assert IsDigit(s[|s| - 1]);
      10 * DigitsValue(s[..|s| - 1]) + (s[|s| - 1] as int - '0' as int)
  }

  /** Python's `int(s)` on the output of `str(n)`. */
  function ParseInt(s: string): int
    requires |s| >= 1
    requires s[0] == '-' ==> |s| >= 2
    requires forall i :: (if s[0] == '-' then 1 else 0) <= i < |s| ==> IsDigit(s[i])
  {
    if s[0] == '-' then -(DigitsValue(s[1..]) as int) else DigitsValue(s)
  }

  lemma {:induction false} NatToStringValue(n: nat)
    ensures DigitsValue(NatToString(n)) == n
  {
    if n >= 10 {
      NatToStringValue(n / 10);
      var r := NatToString(n);
      assert r[..|r| - 1] == NatToString(n / 10);
    }
  }

  /** `str` then `int` is the identity on integers. */
  lemma IntToStringRoundTrip(n: int)
    ensures var s := IntToString(n); s[0] == '-' <==> n < 0
    ensures ParseInt(IntToString(n)) == n
  {
    NatToStringValue(if n < 0 then -n else n);
    if n < 0 {
      assert IntToString(n)[1..] == NatToString(-n);
    }
  }
}
