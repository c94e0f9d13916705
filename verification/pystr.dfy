/**
 * The few Python `str` operations the telemetry parser relies on:
 * `str.isspace` per character, `str.strip()`, `str.startswith`,
 * `str.split(sep)`, `sep.join(parts)` and `str.split(sep, 1)`.
 * Strings are sequences of Unicode scalar values, as Python's `str` is
 * (after UTF-8 decoding there are no surrogates).
 */
module PyStr {

  /** Python's `str.isspace()` on one character: the characters whose
      bidirectional class is WS, B or S, or whose category is Zs. */
  predicate IsSpace(c: char)
    ensures IsSpace(c) ==> c != '|' && c != '=' && c != 'T'
  {
    || '\t' <= c <= '\r'
    || '\U{1C}' <= c <= ' '
    || c == '\U{85}' || c == '\U{A0}' || c == '\U{1680}'
    || '\U{2000}' <= c <= '\U{200A}'
    || c == '\U{2028}' || c == '\U{2029}' || c == '\U{202F}'
    || c == '\U{205F}' || c == '\U{3000}'
  }

  /** `s.startswith(p)`: `s` is `p` followed by the rest of `s`. */
  predicate StartsWith(s: string, p: string)
    ensures StartsWith(s, p) <==> |p| <= |s| && s == p + s[|p|..]
  {
    |p| <= |s| && s[..|p|] == p
  }

  /** `s.lstrip()`: drops the longest all-whitespace prefix. */
  function StripLeft(s: string): (r: string)
    ensures |r| <= |s| && r == s[|s| - |r|..]
    ensures forall k | 0 <= k < |s| - |r| :: IsSpace(s[k])
    ensures r != [] ==> !IsSpace(r[0])
  {
    if s != [] && IsSpace(s[0]) then StripLeft(s[1..]) else s
  }

  /** `s.rstrip()`: drops the longest all-whitespace suffix. */
  function StripRight(s: string): (r: string)
    ensures |r| <= |s| && r == s[..|r|]
    ensures forall k | |r| <= k < |s| :: IsSpace(s[k])
    ensures r != [] ==> !IsSpace(r[|r| - 1])
  {
    if s != [] && IsSpace(s[|s| - 1]) then StripRight(s[..|s| - 1]) else s
  }

  /** `s.strip()`: a slice of `s` that neither starts nor ends with
      whitespace, all of `s` outside it being whitespace. */
  function Strip(s: string): (r: string)
    ensures |r| <= |s|
    ensures r != [] ==> !IsSpace(r[0]) && !IsSpace(r[|r| - 1])
    ensures exists i | 0 <= i <= |s| - |r| :: StrippedAt(s, r, i)
  {
    var l := StripLeft(s);
    var r := StripRight(l);
    assert StrippedAt(s, r, |s| - |l|);
    r
  }

  /** `r` is the slice of `s` starting at `i`, and everything of `s`
      before and after that slice is whitespace. */
  predicate StrippedAt(s: string, r: string, i: nat)
    requires i + |r| <= |s|
  {
    && r == s[i..i + |r|]
    && (forall k | 0 <= k < i :: IsSpace(s[k]))
    && (forall k | i + |r| <= k < |s| :: IsSpace(s[k]))
  }

  /** A string whose ends are not whitespace is left alone by `strip()`. */
  lemma StripKeeps(s: string)
    requires s != [] ==> !IsSpace(s[0]) && !IsSpace(s[|s| - 1])
    ensures Strip(s) == s
  {
  }

  /** `strip()` is idempotent, so stripping an already stripped body again
      (as the parser does with the body the ingest route has stripped)
      changes nothing. */
  lemma StripIdempotent(s: string)
    ensures Strip(Strip(s)) == Strip(s)
  {
    StripKeeps(Strip(s));
  }

  /** Stripping cannot cut into a prefix that starts and ends with
      non-whitespace characters. */
  lemma StripKeepsPrefix(s: string, p: string)
    requires StartsWith(s, p) && p != []
    requires !IsSpace(p[0]) && !IsSpace(p[|p| - 1])
    ensures StartsWith(Strip(s), p)
  {
    var l := StripLeft(s);
    assert l == s;
    var r := StripRight(l);
    assert !IsSpace(s[|p| - 1]);
    assert |p| <= |r|;
    assert r[..|p|] == s[..|p|];
  }

  /** `sep.join(parts)`: the first part, then for each further part the
      separator and that part. */
  function Join(parts: seq<string>, sep: char): (r: string)
    ensures parts == [] ==> r == ""
    ensures parts != [] ==> |parts[0]| <= |r| && r[..|parts[0]|] == parts[0]
    ensures |parts| > 1 ==> |parts[0]| < |r| && r[|parts[0]|] == sep
  {
    if parts == [] then ""
    else if |parts| == 1 then parts[0]
    else parts[0] + [sep] + Join(parts[1..], sep)
  }

  /** `s.split(sep)`: the pieces between occurrences of `sep`. There is
      always at least one piece, no piece contains `sep`, and joining the
      pieces with `sep` gives back `s`. */
  function Split(s: string, sep: char): (r: seq<string>)
    ensures |r| >= 1
    ensures forall i | 0 <= i < |r| :: sep !in r[i]
    ensures Join(r, sep) == s
  {
    if s == [] then [""]
    else
      var rest := Split(s[1..], sep);
      if s[0] == sep then
        assert [""] + rest == [""] + rest[..];
        [""] + rest
      else
        var r := [[s[0]] + rest[0]] + rest[1..];
        assert r[1..] == rest[1..];
        assert |rest| > 1 ==> Join(rest, sep) == rest[0] + [sep] + Join(rest[1..], sep);
        assert s == [s[0]] + s[1..];
        r
  }

  /** Splitting a string that starts with a separator-free piece and a
      separator yields that piece first. */
  lemma {:induction false} SplitAfterPiece(a: string, sep: char, t: string)
    requires sep !in a
    ensures Split(a + [sep] + t, sep) == [a] + Split(t, sep)
  {
    if a == [] {
      assert a + [sep] + t == [sep] + t;
      assert ([sep] + t)[1..] == t;
    } else {
      var s := a + [sep] + t;
      assert s[0] == a[0];
      assert s[1..] == a[1..] + [sep] + t;
      SplitAfterPiece(a[1..], sep, t);
      assert [a[0]] + a[1..] == a;
    }
  }

  /** A separator-free string is a single piece. */
  lemma {:induction false} SplitSingle(a: string, sep: char)
    requires sep !in a
    ensures Split(a, sep) == [a]
  {
    if a != [] {
      SplitSingle(a[1..], sep);
      assert [a[0]] + a[1..] == a;
    }
  }

  /** `split` undoes `join` when no part contains the separator. */
  lemma {:induction false} SplitJoin(parts: seq<string>, sep: char)
    requires |parts| >= 1
    requires forall i | 0 <= i < |parts| :: sep !in parts[i]
    ensures Split(Join(parts, sep), sep) == parts
  {
    if |parts| == 1 {
      SplitSingle(parts[0], sep);
    } else {
      SplitJoin(parts[1..], sep);
      SplitAfterPiece(parts[0], sep, Join(parts[1..], sep));
      assert [parts[0]] + parts[1..] == parts;
    }
  }

  /** The joined string ends with the last part. */
  lemma {:induction false} JoinEndsWithLast(parts: seq<string>, sep: char)
    requires |parts| >= 1
    ensures var j := Join(parts, sep); var last := parts[|parts| - 1];
      |last| <= |j| && j[|j| - |last|..] == last
  {
    if |parts| > 1 {
      JoinEndsWithLast(parts[1..], sep);
      var rest := Join(parts[1..], sep);
      var last := parts[|parts| - 1];
      assert parts[1..][|parts[1..]| - 1] == last;
      var j := parts[0] + [sep] + rest;
      assert j[|j| - |last|..] == rest[|rest| - |last|..];
    }
  }

  /** `s.split(sep, 1)` on a string that contains `sep`: the text before
      the FIRST `sep`, which is separator-free, and everything after it. */
  function SplitOnce(s: string, sep: char): (r: (string, string))
    requires sep in s
    ensures sep !in r.0
    ensures r.0 + [sep] + r.1 == s
  {
    if s[0] == sep then ("", s[1..])
    else
      var tail := SplitOnce(s[1..], sep);
      assert s == [s[0]] + s[1..];
      ([s[0]] + tail.0, tail.1)
  }

  /** A separator-free head followed by the separator is split off exactly,
      whatever the rest contains (further separators included). */
  lemma {:induction false} SplitOnceExact(k: string, sep: char, v: string)
    requires sep !in k
    ensures sep in k + [sep] + v
    ensures SplitOnce(k + [sep] + v, sep) == (k, v)
  {
    var s := k + [sep] + v;
    assert s[|k|] == sep;
    if k != [] {
      assert s[1..] == k[1..] + [sep] + v;
      SplitOnceExact(k[1..], sep, v);
      assert [k[0]] + k[1..] == k;
    }
  }
}
