/**
 * The two GLib string routines whose exact behaviour decides how an attribute blob
 * decodes: g_strsplit (with max_tokens 0) and g_ascii_strtoull (base 10), the latter
 * as the C library's strtoull implements it on a glibc system.
 */
module GLib {
  import opened Wrappers
  import opened Bytes

  /** Index of the first occurrence of c in s. */
  function IndexOf(s: string, c: char): (r: Option<nat>)
    ensures r.Some? ==> r.value < |s| && s[r.value] == c && c !in s[..r.value]
    ensures r.None? ==> c !in s
  {
    if s == [] then None
    else if s[0] == c then Some(0)
    else match IndexOf(s[1..], c)
      case None => None
      case Some(i) => Some(i + 1)
  }

  /** The pieces of s between occurrences of sep, empty pieces included. */
  function SplitOn(s: string, sep: char): (r: seq<string>)
    ensures |r| >= 1
    decreases |s|
  {
    match IndexOf(s, sep)
    case None => [s]
    case Some(i) => [s[..i]] + SplitOn(s[i + 1..], sep)
  }

  /** g_strsplit(s, sep, 0): no pieces at all for the empty string. */
  function StrSplit(s: string, sep: char): seq<string>
  {
    if s == "" then [] else SplitOn(s, sep)
  }

  /** Joining the pieces with the separator gives back the string. */
  function Join(pieces: seq<string>, sep: char): string
    requires |pieces| >= 1
  {
    if |pieces| == 1 then pieces[0] else pieces[0] + [sep] + Join(pieces[1..], sep)
  }

  lemma {:induction false} SplitOnJoin(s: string, sep: char)
    ensures Join(SplitOn(s, sep), sep) == s
    decreases |s|
  {
    match IndexOf(s, sep)
    case None =>
    case Some(i) =>
      var rest := SplitOn(s[i + 1..], sep);
      SplitOnJoin(s[i + 1..], sep);
      var pieces := [s[..i]] + rest;
      assert SplitOn(s, sep) == pieces;
      assert pieces[0] == s[..i] && pieces[1..] == rest;
      calc {
        Join(pieces, sep);
        s[..i] + [sep] + Join(rest, sep);
        s[..i] + [sep] + s[i + 1..];
        { assert s == s[..i] + [sep] + s[i + 1..]; }
        s;
      }
  }

  lemma {:induction false} SplitOnPiecesFree(s: string, sep: char, k: nat)
    requires k < |SplitOn(s, sep)|
    ensures sep !in SplitOn(s, sep)[k]
    decreases |s|
  {
    match IndexOf(s, sep)
    case None =>
    case Some(i) =>
      var rest := SplitOn(s[i + 1..], sep);
      assert SplitOn(s, sep) == [s[..i]] + rest;
      if k > 0 {
        SplitOnPiecesFree(s[i + 1..], sep, k - 1);
        assert SplitOn(s, sep)[k] == rest[k - 1];
      }
  }

  /** The first piece is the text before the first separator; there is a second piece iff sep occurs. */
  lemma SplitOnHead(s: string, sep: char)
    ensures |SplitOn(s, sep)| >= 2 <==> sep in s
    ensures sep !in s ==> SplitOn(s, sep) == [s]
    ensures sep in s ==> exists i :: 0 <= i < |s| && s[i] == sep && sep !in s[..i] &&
                                     SplitOn(s, sep)[0] == s[..i] &&
                                     SplitOn(s, sep)[1] == SplitOn(s[i + 1..], sep)[0]
  {
  }

  /** A first piece free of the separator splits off on its own. */
  lemma SplitOnPrefix(k: string, sep: char, t: string)
    requires sep !in k
    ensures SplitOn(k + [sep] + t, sep) == [k] + SplitOn(t, sep)
  {
    var s := k + [sep] + t;
    assert s[|k|] == sep;
    assert s[..|k|] == k && s[|k| + 1..] == t;
  }

  predicate IsSpace(c: char) { c == ' ' || c == '\t' || c == '\n' || c == '\U{0B}' || c == '\U{0C}' || c == '\r' }

  predicate IsDigit(c: char) { '0' <= c <= '9' }

  /** The longest prefix of s made of decimal digits. */
  function DigitPrefix(s: string): (r: string)
    ensures |r| <= |s| && r == s[..|r|]
    ensures forall k :: 0 <= k < |r| ==> IsDigit(r[k])
    ensures |r| < |s| ==> !IsDigit(s[|r|])
  {
    if s != [] && IsDigit(s[0]) then [s[0]] + DigitPrefix(s[1..]) else []
  }

  /** The number a string of decimal digits denotes. */
  function DecimalValue(d: string): nat
    requires forall k :: 0 <= k < |d| ==> IsDigit(d[k])
  {
    if d == [] then 0
    else
      assert IsDigit(d[|d| - 1]);
      DecimalValue(d[..|d| - 1]) * 10 + (d[|d| - 1] as int - '0' as int)
  }

  function SkipSpaces(s: string): (r: string)
    ensures |r| <= |s| && r == s[|s| - |r|..]
    ensures r != [] ==> !IsSpace(r[0])
  {
    if s != [] && IsSpace(s[0]) then SkipSpaces(s[1..]) else s
  }

  const U64_MAX: nat := U64_LIMIT - 1

  /**
   * g_ascii_strtoull(s, &end, 10), returning None when no digit is consumed (end == s):
   * leading white space and one sign are skipped, the digits that follow are read,
   * anything after them is ignored; a value beyond 64 bits yields U64_MAX, and a minus
   * sign negates modulo 2^64.
   */
  function StrToU64(s: string): (r: Option<nat>)
    ensures r.Some? ==> r.value <= U64_MAX
  {
    var t := SkipSpaces(s);
    var neg := t != [] && t[0] == '-';
    var u := if t != [] && (t[0] == '-' || t[0] == '+') then t[1..] else t;
    var d := DigitPrefix(u);
    if d == [] then None
    else
      var v := DecimalValue(d);
      if v > U64_MAX then Some(U64_MAX)
      else if neg then Some((U64_LIMIT - v) % U64_LIMIT)
      else Some(v)
  }

  lemma {:induction false} DecimalValueAppend(d: string, rest: string)
    requires forall k :: 0 <= k < |d| ==> IsDigit(d[k])
    requires rest == [] || !IsDigit(rest[0])
    ensures DigitPrefix(d + rest) == d
  {
    if d != [] {
      assert (d + rest)[1..] == d[1..] + rest;
      DecimalValueAppend(d[1..], rest);
      assert d == [d[0]] + d[1..];
    } else {
      assert d + rest == rest;
    }
  }

  /** Digits followed by anything that does not start with a digit read as those digits alone. */
  lemma StrToU64DigitsThenText(d: string, rest: string)
    requires d != [] && forall k :: 0 <= k < |d| ==> IsDigit(d[k])
    requires rest == [] || !IsDigit(rest[0])
    requires DecimalValue(d) <= U64_MAX
    ensures StrToU64(d + rest) == Some(DecimalValue(d))
  {
    var s := d + rest;
    assert s[0] == d[0];
    assert !IsSpace(s[0]);
    assert SkipSpaces(s) == s;
    assert s[0] != '-' && s[0] != '+';
    DecimalValueAppend(d, rest);
    assert DigitPrefix(s) == d;
  }
}
