/**
 * Whether Python's `ipaddress.ip_address` (CPython 3.12) accepts a text as
 * an IPv4 or an IPv6 address, and the IPvFuture pattern of
 * `urllib.parse._check_bracketed_host`. Only acceptance matters to `urlsplit`,
 * so the address value is not computed.
 */
module IpAddress {
  import opened Wrappers
  import opened Text

  /** `_HEX_DIGITS`. */
  predicate IsHexDigit(c: char) {
    IsDigit(c) || ('a' <= c <= 'f') || ('A' <= c <= 'F')
  }

  /** `IPv4Address._parse_octet` succeeds: one to three ASCII digits, no leading zero, at most 255. */
  predicate OctetOk(s: string) {
    && 1 <= |s| <= 3
    && (forall i :: 0 <= i < |s| ==> IsDigit(s[i]))
    && (s == "0" || s[0] != '0')
    && DigitsValue(s) <= 255
  }

  /** `IPv4Address(s)` succeeds: no `/`, and four valid octets separated by dots. */
  predicate IsIPv4(s: string) {
    && '/' !in s
    && s != ""
    && |Split(s, '.')| == 4
    && (forall k :: 0 <= k < 4 ==> OctetOk(Split(s, '.')[k]))
  }

  /** `IPv6Address._parse_hextet` succeeds: one to four hexadecimal digits (`int('', 16)` fails too). */
  predicate HextetOk(s: string) {
    1 <= |s| <= 4 && forall i :: 0 <= i < |s| ==> IsHexDigit(s[i])
  }

  /** `_split_scope_id`: the address before `%`, or nothing for an empty scope or a second `%`. */
  function WithoutScope(s: string): (r: Option<string>)
    ensures '%' !in s ==> r == Some(s)
  {
    if '%' !in s then Some(s)
    else
      var i := FindChar(s, '%', 0);
      assert i >= 0 by {
        var j :| 0 <= j < |s| && s[j] == '%';
      }
      var scope := s[i + 1..];
      if scope == "" || '%' in scope then None else Some(s[..i])
  }

  /**
   * A last part holding `.` must be an IPv4 address, and then stands for two
   * hextets. Any two valid hextets do here: only acceptance is modelled.
   */
  function ExpandIPv4Tail(parts: seq<string>): Option<seq<string>>
    requires parts != []
  {
    var last := parts[|parts| - 1];
    if '.' !in last then Some(parts)
    else if IsIPv4(last) then Some(parts[..|parts| - 1] + ["0", "0"])
    else None
  }

  /** The indices from `i` up to `len(parts) - 2` holding an empty part: each is a `::`. */
  function EmptyFrom(parts: seq<string>, i: nat): (r: seq<nat>)
    ensures forall k :: 0 <= k < |r| ==> i <= r[k] < |parts| - 1 && parts[r[k]] == ""
    decreases |parts| - i
  {
    if i + 1 >= |parts| then []
    else (if parts[i] == "" then [i] else []) + EmptyFrom(parts, i + 1)
  }

  /**
   * With one `::` at `skip`: an empty first or last part must belong to it,
   * at least one hextet must be left out, and the hextets before and after
   * it must parse.
   */
  predicate SkippedOk(parts: seq<string>, skip: nat)
    requires 1 <= skip < |parts| - 1
  {
    var hi := if parts[0] == "" then skip - 1 else skip;
    var lo := if parts[|parts| - 1] == "" then |parts| - skip - 2 else |parts| - skip - 1;
    && (parts[0] == "" ==> hi == 0)
    && (parts[|parts| - 1] == "" ==> lo == 0)
    && hi + lo <= 7
    && (forall i :: 0 <= i < hi ==> HextetOk(parts[i]))
    && (forall i :: |parts| - lo <= i < |parts| ==> HextetOk(parts[i]))
  }

  /** Without `::`: exactly eight hextets, all of which parse. */
  predicate UnskippedOk(parts: seq<string>) {
    |parts| == 8 && forall i :: 0 <= i < 8 ==> HextetOk(parts[i])
  }

  /** The checks of `IPv6Address._ip_int_from_string` once an IPv4 suffix is expanded. */
  predicate PartsOk(parts: seq<string>) {
    && 3 <= |parts| <= 9
    && var skips := EmptyFrom(parts, 1);
       && |skips| <= 1
       && if |skips| == 1 then SkippedOk(parts, skips[0]) else UnskippedOk(parts)
  }

  /** `IPv6Address(s)` succeeds. */
  predicate IsIPv6(s: string) {
    && '/' !in s
    && WithoutScope(s).Some?
    && var a := WithoutScope(s).value;
       && a != ""
       && |Split(a, ':')| >= 3
       && ExpandIPv4Tail(Split(a, ':')).Some?
       && PartsOk(ExpandIPv4Tail(Split(a, ':')).value)
  }

  /**
   * `re.match(r"\Av[a-fA-F0-9]+\..+\Z", host)`: `v`, hexadecimal digits up
   * to the first dot, and at least one character after it, none a newline.
   */
  predicate IsIPvFuture(host: string) {
    var dot := FindChar(host, '.', 1);
    && "v" <= host
    && dot >= 2
    && (forall i :: 1 <= i < dot ==> IsHexDigit(host[i]))
    && dot + 1 < |host|
    && (forall i :: dot < i < |host| ==> host[i] != '\n')
  }

  /**
   * `_check_bracketed_host` passes: a host starting with `v` must be an
   * IPvFuture address; any other must be an IPv6 address, because
   * `ip_address` tries IPv4 first and an IPv4 address is refused.
   */
  predicate BracketedHostOk(host: string) {
    if "v" <= host then IsIPvFuture(host) else !IsIPv4(host) && IsIPv6(host)
  }

  /**
   * Text without `.` or `:` is neither an IPv4 address (fewer than four
   * octets) nor an IPv6 address (fewer than three parts), so unless it is an
   * IPvFuture candidate it is refused.
   */
  lemma NoSeparatorRefused(h: string)
    requires !("v" <= h) && '.' !in h && ':' !in h
    ensures !BracketedHostOk(h)
  {
    SplitNoSeparator(h, '.');
    if WithoutScope(h).Some? {
      var a := WithoutScope(h).value;
      assert ':' !in a by {
        if '%' in h {
          var i := FindChar(h, '%', 0);
          assert a == h[..i];
        }
      }
      SplitNoSeparator(a, ':');
    }
  }

  /** `[abc]` is refused. */
  lemma NotAnAddress()
    ensures !BracketedHostOk("abc")
  {
    var h := "abc";
    assert h[0] != 'v';
    assert '.' !in h && ':' !in h;
    NoSeparatorRefused(h);
  }

  /** The IPv6 loopback `::1` is accepted between brackets. */
  lemma LoopbackAccepted()
    ensures BracketedHostOk("::1")
  {
    var h := "::1";
    assert h[0] != 'v';
    assert '%' !in h && '/' !in h;
    var parts := LoopbackParts();
    assert EmptyFrom(parts, 2) == [];
    assert EmptyFrom(parts, 1) == [1];
    assert HextetOk(parts[2]);
  }

  lemma LoopbackParts() returns (parts: seq<string>)
    ensures parts == ["", "", "1"] && Split("::1", ':') == parts
    ensures ExpandIPv4Tail(parts) == Some(parts)
  {
    parts := ["", "", "1"];
    SplitNoSeparator("1", ':');
    SplitAfterPiece("", ":1", ':');
    SplitAfterPiece("", "1", ':');
    assert "" + [':'] + ":1" == "::1";
    assert "" + [':'] + "1" == ":1";
    assert '.' !in parts[2];
  }

  /** An IPv4 address between brackets is refused: `[127.0.0.1]`. */
  lemma IPv4Refused()
    ensures !BracketedHostOk("127.0.0.1")
  {
    var h := "127.0.0.1";
    assert h[0] != 'v';
    assert '/' !in h;
    var octets := LoopbackOctets();
    OctetsOk(octets);
  }

  lemma LoopbackOctets() returns (octets: seq<string>)
    ensures octets == ["127", "0", "0", "1"] && Split("127.0.0.1", '.') == octets
  {
    var a, t := "127", "0.0.1";
    assert a + ['.'] + t == "127.0.0.1";
    SplitAfterPiece(a, t, '.');
    LowOctets();
    octets := [a] + Split(t, '.');
  }

  lemma LowOctets()
    ensures Split("0.0.1", '.') == ["0", "0", "1"]
  {
    assert "0" + ['.'] + "0.1" == "0.0.1";
    assert "0" + ['.'] + "1" == "0.1";
    SplitAfterPiece("0", "0.1", '.');
    SplitAfterPiece("0", "1", '.');
    SplitNoSeparator("1", '.');
  }

  lemma OctetsOk(octets: seq<string>)
    requires octets == ["127", "0", "0", "1"]
    ensures forall k :: 0 <= k < 4 ==> OctetOk(octets[k])
  {
    assert DigitsValue("127") == 127 by {
      assert "127"[..2] == "12" && "12"[..1] == "1" && "1"[..0] == "";
    }
    assert DigitsValue("0") == 0 by { assert "0"[..0] == ""; }
    assert DigitsValue("1") == 1 by { assert "1"[..0] == ""; }
  }
}
