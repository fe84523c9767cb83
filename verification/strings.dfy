/**
 Text helpers the hub's reports are built from: the separator-join, the
 "append every part followed by a separator" shape a builder loop produces,
 and the whitespace trimming of Java's `String.trim`.
 */
module Strings {

  /** `parts` with `sep` between neighbours, nothing before the first part or after the last. */
  function Join(sep: string, parts: seq<string>): string
  {
    if |parts| == 0 then ""
    else if |parts| == 1 then parts[0]
    else parts[0] + sep + Join(sep, parts[1..])
  }

  /** Every part followed by `sep`, the last one included: the contents of a
      builder after a loop that appends `part` and then `sep` for each part. */
  function Terminated(sep: string, parts: seq<string>): (r: string)
    ensures |parts| > 0 ==> |r| >= |sep| && r[|r| - |sep|..] == sep
    ensures |parts| == 0 ==> r == ""
  {
    if |parts| == 0 then ""
    else
      var rest := Terminated(sep, parts[1..]);
      var r := parts[0] + sep + rest;
      assert r[|r| - |sep|..] == sep by {
        if |parts| > 1 { SuffixKept(parts[0] + sep, rest, |sep|); } else { SuffixKept(parts[0], sep, |sep|); }
      }
      r
  }

  /** The last `n` characters of `y` are still the last `n` after text is put in front. */
  lemma SuffixKept(x: string, y: string, n: nat)
    requires n <= |y|
    ensures |x + y| >= n && (x + y)[|x + y| - n..] == y[|y| - n..]
  {
  }

  /** Appending a separator after every part is the clean join with one separator left over. */
  lemma {:induction false} TerminatedIsJoin(sep: string, parts: seq<string>)
    requires |parts| > 0
    ensures Terminated(sep, parts) == Join(sep, parts) + sep
  {
    if |parts| > 1 {
      TerminatedIsJoin(sep, parts[1..]);
    }
  }

  /** Joining one more part at the end adds one separator and the part, and keeps the rest. */
  lemma {:induction false} JoinSnoc(sep: string, parts: seq<string>, last: string)
    requires |parts| > 0
    ensures Join(sep, parts + [last]) == Join(sep, parts) + sep + last
  {
    if |parts| == 1 {
      assert parts + [last] == [parts[0], last];
    } else {
      assert (parts + [last])[1..] == parts[1..] + [last];
      JoinSnoc(sep, parts[1..], last);
    }
  }

  /** The characters `String.trim` strips from either end: every code point up to and including the space. */
  predicate IsTrimmable(c: char)
  {
    c <= ' '
  }

  /** Drops trailing trimmable characters. */
  function TrimEnd(s: string): (r: string)
    ensures |r| <= |s| && r == s[..|r|]
    ensures |r| > 0 ==> !IsTrimmable(r[|r| - 1])
    ensures forall i :: |r| <= i < |s| ==> IsTrimmable(s[i])
  {
    if |s| > 0 && IsTrimmable(s[|s| - 1]) then TrimEnd(s[..|s| - 1]) else s
  }

  /** Drops leading trimmable characters. */
  function TrimStart(s: string): (r: string)
    ensures |r| <= |s| && r == s[|s| - |r|..]
    ensures |r| > 0 ==> !IsTrimmable(r[0])
    ensures forall i :: 0 <= i < |s| - |r| ==> IsTrimmable(s[i])
  {
    if |s| > 0 && IsTrimmable(s[0]) then TrimStart(s[1..]) else s
  }

  /** `r` is the infix of `s` starting at `a`, and everything around it is trimmable. */
  ghost predicate IsInfixAmidTrimmable(s: string, a: int, r: string)
  {
    && 0 <= a <= a + |r| <= |s|
    && r == s[a..a + |r|]
    && (forall i :: 0 <= i < a ==> IsTrimmable(s[i]))
    && (forall i :: a + |r| <= i < |s| ==> IsTrimmable(s[i]))
  }

  /** Java's `String.trim`: the longest infix of `s` that neither starts nor ends
      with a trimmable character, found by cutting trimmable characters off
      both ends. */
  function Trim(s: string): (r: string)
    ensures |r| > 0 ==> !IsTrimmable(r[0]) && !IsTrimmable(r[|r| - 1])
    ensures exists a :: IsInfixAmidTrimmable(s, a, r)
  {
    var e := TrimEnd(s);
    InfixAmidTrimmable(s, e, TrimStart(e));
    TrimStart(e)
  }

  /** A prefix of `s` followed only by trimmable characters, cut down to a suffix
      preceded only by trimmable characters, is an infix of `s` amid trimmable characters. */
  lemma InfixAmidTrimmable(s: string, e: string, r: string)
    requires |e| <= |s| && e == s[..|e|]
    requires forall i :: |e| <= i < |s| ==> IsTrimmable(s[i])
    requires |r| <= |e| && r == e[|e| - |r|..]
    requires forall i :: 0 <= i < |e| - |r| ==> IsTrimmable(e[i])
    ensures IsInfixAmidTrimmable(s, |e| - |r|, r)
  {
    var a := |e| - |r|;
    assert r == s[a..a + |r|];
    assert forall i :: 0 <= i < a ==> IsTrimmable(s[i]) by {
      assert forall i :: 0 <= i < a ==> s[i] == e[i];
    }
  }

  /** A trimmable character appended at the end is exactly what trimming removes again. */
  lemma TrimEndDropsTrimmable(s: string, c: char)
    requires IsTrimmable(c)
    ensures TrimEnd(s + [c]) == TrimEnd(s)
  {
    assert (s + [c])[..|s|] == s;
  }

  /* ---------------- cancellation and quote splitting ---------------- */

  /** In `x + "\"" + y` with no quote in `x`, the first quote sits right after `x`. */
  lemma FirstQuoteAfter(x: string, y: string)
    requires '"' !in x
    ensures (x + "\"" + y)[|x|] == '"'
    ensures forall i :: 0 <= i < |x| ==> (x + "\"" + y)[i] != '"'
  {
  }

  /** Around the first quote a string splits one way only. */
  lemma SplitAtFirstQuote(x: string, y: string, x2: string, y2: string)
    requires '"' !in x && '"' !in x2
    requires x + "\"" + y == x2 + "\"" + y2
    ensures x == x2 && y == y2
  {
    var s := x + "\"" + y;
    FirstQuoteAfter(x, y);
    FirstQuoteAfter(x2, y2);
    assert |x| == |x2|;
    assert x == s[..|x|] == x2;
    assert y == s[|x| + 1..] == y2;
  }

  /** A common prefix can be cancelled. */
  lemma CancelPrefix(p: string, a: string, b: string)
    requires p + a == p + b
    ensures a == b
  {
    assert a == (p + a)[|p|..];
  }

  /** A common suffix can be cancelled. */
  lemma CancelSuffix(a: string, b: string, q: string)
    requires a + q == b + q
    ensures a == b
  {
    assert a == (a + q)[..|a|];
    assert b == (b + q)[..|b|];
  }
}
