/**
  The handful of Python `str` operations the application relies on:
  `strip()` with no argument, `split(sep)` with a one-character separator,
  `sep.join(parts)` and `startswith(prefix)`.
 */
module PyStr {

  /** Python's `str.isspace` for one character: the ASCII controls 9..13 and
      28..31, the space, NEL, NO-BREAK SPACE and the Unicode space separators. */
  predicate IsSpace(c: char)
  {
    || '\U{0009}' <= c <= '\U{000D}'
    || '\U{001C}' <= c <= '\U{0020}'
    || c == '\U{0085}' || c == '\U{00A0}' || c == '\U{1680}'
    || '\U{2000}' <= c <= '\U{200A}'
    || c == '\U{2028}' || c == '\U{2029}' || c == '\U{202F}'
    || c == '\U{205F}' || c == '\U{3000}'
  }

  predicate AllSpace(s: string)
  {
    forall i | 0 <= i < |s| :: IsSpace(s[i])
  }

  /** Neither end of `s` is whitespace: the shape of anything `strip()` returns. */
  predicate EdgeFree(s: string)
  {
    |s| == 0 || (!IsSpace(s[0]) && !IsSpace(s[|s| - 1]))
  }

  /** Number of whitespace characters at the front of `s`. */
  function LeadingSpaces(s: string): (n: nat)
    ensures n <= |s|
    ensures forall i | 0 <= i < n :: IsSpace(s[i])
    ensures n < |s| ==> !IsSpace(s[n])
  {
    if |s| > 0 && IsSpace(s[0]) then 1 + LeadingSpaces(s[1..]) else 0
  }

  /** Number of whitespace characters at the back of `s`. */
  function TrailingSpaces(s: string): (n: nat)
    ensures n <= |s|
    ensures forall i | |s| - n <= i < |s| :: IsSpace(s[i])
    ensures n < |s| ==> !IsSpace(s[|s| - n - 1])
  {
    if |s| > 0 && IsSpace(s[|s| - 1]) then 1 + TrailingSpaces(s[..|s| - 1]) else 0
  }

  /** The first `n` characters of `s` are whitespace and the next is not:
      then `n` is the leading-whitespace count. */
  lemma LeadingSpacesExact(s: string, n: nat)
    requires n <= |s|
    requires forall i | 0 <= i < n :: IsSpace(s[i])
    requires n < |s| ==> !IsSpace(s[n])
    ensures LeadingSpaces(s) == n
  {
  }

  lemma TrailingSpacesExact(s: string, n: nat)
    requires n <= |s|
    requires forall i | |s| - n <= i < |s| :: IsSpace(s[i])
    requires n < |s| ==> !IsSpace(s[|s| - n - 1])
    ensures TrailingSpaces(s) == n
  {
  }

  /** Python's `s.strip()`: `s` without its leading and trailing whitespace.
      What is removed is whitespace, what remains has no whitespace at either
      end, and it sits in `s` right after the leading whitespace. */
  function Strip(s: string): (r: string)
    ensures |r| <= |s|
    ensures EdgeFree(r)
    ensures LeadingSpaces(s) + |r| <= |s|
    ensures s == s[..LeadingSpaces(s)] + r + s[LeadingSpaces(s) + |r|..]
    ensures AllSpace(s[LeadingSpaces(s) + |r|..])
  {
    var a := LeadingSpaces(s);
    var t := s[a..];
    var b := TrailingSpaces(t);
    var r := t[..|t| - b];
    assert s[a + |r|..] == t[|t| - b..];
    assert |r| > 0 ==> r[0] == s[a] && r[|r| - 1] == t[|t| - b - 1];
    assert s == s[..a] + r + s[a + |r|..];
    r
  }

  /** The characterisation of `strip()`: whatever whitespace surrounds a
      string with no whitespace at its ends, `strip()` recovers that string. */
  lemma {:induction false} StripPadded(a: string, r: string, b: string)
    requires AllSpace(a) && AllSpace(b) && EdgeFree(r)
    ensures Strip(a + r + b) == r
  {
    var s := a + r + b;
    if |r| == 0 {
      assert s == a + b;
      assert s[..|s|] == s;
      LeadingSpacesExact(s, |s|);
      assert s[|s|..] == [];
    } else {
      assert s[..|a|] == a;
      assert s[|a|] == r[0];
      LeadingSpacesExact(s, |a|);
      var t := s[|a|..];
      assert t == r + b;
      assert t[|t| - |b|..] == b;
      assert t[|t| - |b| - 1] == r[|r| - 1];
      TrailingSpacesExact(t, |b|);
      assert t[..|t| - |b|] == r;
    }
  }

  lemma AllSpaceConcat(a: string, b: string)
    requires AllSpace(a) && AllSpace(b)
    ensures AllSpace(a + b)
  {
  }

  lemma Regroup(a: string, p: string, r: string, q: string, b: string)
    ensures a + (p + r + q) + b == (a + p) + r + (q + b)
  {
  }

  /** `strip()` ignores any extra whitespace around its argument. */
  lemma {:induction false} StripIgnoresPadding(a: string, s: string, b: string)
    requires AllSpace(a) && AllSpace(b)
    ensures Strip(a + s + b) == Strip(s)
  {
    var r := Strip(s);
    var n := LeadingSpaces(s);
    var p := s[..n];
    var q := s[n + |r|..];
    assert s == p + r + q;
    assert AllSpace(p);
    AllSpaceConcat(a, p);
    AllSpaceConcat(q, b);
    Regroup(a, p, r, q, b);
    StripPadded(a + p, r, q + b);
  }

  /** `strip()` is idempotent. */
  lemma {:induction false} StripIdempotent(s: string)
    ensures Strip(Strip(s)) == Strip(s)
  {
    var r := Strip(s);
    assert [] + r + [] == r;
    StripPadded([], r, []);
  }

  /** Python's `s.startswith(prefix)`. */
  function StartsWith(s: string, prefix: string): (b: bool)
    ensures b <==> |prefix| <= |s| && forall i | 0 <= i < |prefix| :: s[i] == prefix[i]
  {
    |prefix| <= |s| && s[..|prefix|] == prefix
  }

  /** Python's `sep.join(parts)` for a one-character separator. */
  function Join(parts: seq<string>, sep: char): (s: string)
    requires |parts| >= 1
    decreases |parts|
  {
    if |parts| == 1 then parts[0] else parts[0] + [sep] + Join(parts[1..], sep)
  }

  /** Position of the first `c` in `s`. */
  function IndexOf(s: string, c: char): (i: nat)
    requires c in s
    ensures i < |s| && s[i] == c
    ensures forall k | 0 <= k < i :: s[k] != c
  {
    if s[0] == c then 0 else 1 + IndexOf(s[1..], c)
  }

  /** Python's `s.split(sep)` for a one-character separator: at least one
      part, no part contains the separator, and joining the parts with the
      separator gives `s` back. */
  function Split(s: string, sep: char): (parts: seq<string>)
    ensures |parts| >= 1
    ensures forall i | 0 <= i < |parts| :: sep !in parts[i]
    ensures Join(parts, sep) == s
    decreases |s|
  {
    if sep in s then
      var i := IndexOf(s, sep);
      var rest := Split(s[i + 1..], sep);
      var parts := [s[..i]] + rest;
      assert parts[1..] == rest;
      assert sep !in s[..i];
      assert s == s[..i] + [sep] + s[i + 1..];
      parts
    else
      [s]
  }

  /** The other round trip: splitting a join of separator-free parts gives
      the parts back. */
  lemma {:induction false} SplitJoin(parts: seq<string>, sep: char)
    requires |parts| >= 1
    requires forall i | 0 <= i < |parts| :: sep !in parts[i]
    ensures Split(Join(parts, sep), sep) == parts
    decreases |parts|
  {
    if |parts| > 1 {
      var s := Join(parts, sep);
      var p := parts[0];
      assert s == p + [sep] + Join(parts[1..], sep);
      assert s[|p|] == sep;
      assert s[..|p|] == p;
      assert sep in s;
      var i := IndexOf(s, sep);
      assert forall k | 0 <= k < |p| :: s[k] == p[k];
      assert i == |p|;
      assert s[i + 1..] == Join(parts[1..], sep);
      SplitJoin(parts[1..], sep);
      assert parts == [p] + parts[1..];
    } else {
      assert sep !in parts[0];
    }
  }

  /** The last part of a join is what follows the last separator. */
  lemma {:induction false} JoinEndsWithLast(parts: seq<string>, sep: char)
    requires |parts| >= 1
    ensures var s, l := Join(parts, sep), parts[|parts| - 1];
      |l| <= |s| && s[|s| - |l|..] == l && (|parts| > 1 ==> |l| < |s| && s[|s| - |l| - 1] == sep)
    decreases |parts|
  {
    if |parts| > 1 {
      JoinEndsWithLast(parts[1..], sep);
      var s := Join(parts, sep);
      var t := Join(parts[1..], sep);
      var l := parts[|parts| - 1];
      assert s == parts[0] + [sep] + t;
      assert s[|s| - |l|..] == t[|t| - |l|..];
      if |parts| == 2 {
        assert t == l;
        assert s[|s| - |l| - 1] == sep;
      } else {
        assert s[|s| - |l| - 1] == t[|t| - |l| - 1];
      }
    }
  }
}
