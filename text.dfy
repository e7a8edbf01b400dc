/**
 * The few Python `str` operations the modelled code relies on:
 * `isspace`, `lstrip`, `strip`, `endswith`, `in`/`find`, `split(sep)` and ASCII `lower`.
 */
module Text {
  import opened Wrappers

  /** Python's `str.isspace()` for one character (the Unicode whitespace set). */
  predicate IsSpace(c: char) {
    c == ' ' || ('\t' <= c <= '\r') || ('\U{1c}' <= c <= '\U{1f}')
    || c == '\U{85}' || c == '\U{a0}' || c == '\U{1680}'
    || ('\U{2000}' <= c <= '\U{200a}') || c == '\U{2028}' || c == '\U{2029}'
    || c == '\U{202f}' || c == '\U{205f}' || c == '\U{3000}'
  }

  /** `s.lstrip()`: the longest suffix of `s` that does not start with whitespace. */
  function LStrip(s: string): (r: string)
    ensures |r| <= |s| && r == s[|s| - |r|..]
    ensures r == [] || !IsSpace(r[0])
    ensures forall k :: 0 <= k < |s| - |r| ==> IsSpace(s[k])
  {
    if |s| > 0 && IsSpace(s[0]) then LStrip(s[1..]) else s
  }

  /** A leading whitespace character is removed by `lstrip`. */
  lemma LStripSpace(c: char, t: string)
    requires IsSpace(c)
    ensures LStrip([c] + t) == LStrip(t)
  {
    assert ([c] + t)[1..] == t;
  }

  /** `s.rstrip()`: the longest prefix of `s` that does not end with whitespace. */
  function RStrip(s: string): (r: string)
    ensures |r| <= |s| && r == s[..|r|]
    ensures r == [] || !IsSpace(r[|r| - 1])
    ensures forall k :: |r| <= k < |s| ==> IsSpace(s[k])
  {
    if |s| > 0 && IsSpace(s[|s| - 1]) then RStrip(s[..|s| - 1]) else s
  }

  /** `s.strip()`. */
  function Strip(s: string): string {
    RStrip(LStrip(s))
  }

  predicate StartsWith(s: string, prefix: string) {
    |prefix| <= |s| && s[..|prefix|] == prefix
  }

  /** `s.endswith(suffix)`. */
  predicate EndsWith(s: string, suffix: string) {
    |suffix| <= |s| && s[|s| - |suffix|..] == suffix
  }

  /** `pat` occurs in `s` starting at index `i`. */
  predicate OccursAt(s: string, pat: string, i: int) {
    0 <= i && i + |pat| <= |s| && s[i..i + |pat|] == pat
  }

  /** The first index at or after `from` where `pat` occurs in `s`, if any. */
  function FindFrom(s: string, pat: string, from: nat): (r: Option<nat>)
    requires from <= |s|
    ensures r.Some? ==> from <= r.value && OccursAt(s, pat, r.value)
    ensures r.Some? ==> forall j :: from <= j < r.value ==> !OccursAt(s, pat, j)
    ensures r.None? ==> forall j :: from <= j <= |s| ==> !OccursAt(s, pat, j)
    decreases |s| - from
  {
    if OccursAt(s, pat, from) then Some(from)
    else if from == |s| then None
    else FindFrom(s, pat, from + 1)
  }

  /** Whether `pat` occurs at `j` depends only on the first `len` characters when it ends by then. */
  lemma OccursAtPrefix(s: string, t: string, pat: string, j: nat, len: nat)
    requires j + |pat| <= len <= |s| && len <= |t| && s[..len] == t[..len]
    ensures OccursAt(s, pat, j) == OccursAt(t, pat, j)
  {
    assert s[j..j + |pat|] == s[..len][j..j + |pat|];
    assert t[j..j + |pat|] == t[..len][j..j + |pat|];
  }

  /** A first occurrence is found at the same place in any text that agrees up to its end. */
  lemma {:induction false} FindFromPrefix(s: string, t: string, pat: string, from: nat, i: nat)
    requires from <= i && i + |pat| <= |s| && i + |pat| <= |t| && s[..i + |pat|] == t[..i + |pat|]
    requires FindFrom(s, pat, from) == Some(i)
    ensures FindFrom(t, pat, from) == Some(i)
    decreases i - from
  {
    OccursAtPrefix(s, t, pat, from, i + |pat|);
    if from < i {
      FindFromPrefix(s, t, pat, from + 1, i);
    }
  }

  /** Keeping the text up to and including the first occurrence and replacing the rest keeps that occurrence first. */
  lemma FindAfterReplacingRest(s: string, pat: string, i: nat, rest: string)
    requires Find(s, pat) == Some(i)
    ensures Find(s[..i] + pat + rest, pat) == Some(i)
  {
    var t := s[..i] + pat + rest;
    assert s[..i + |pat|] == s[..i] + s[i..i + |pat|];
    assert t[..i + |pat|] == s[..i] + pat;
    FindFromPrefix(s, t, pat, 0, i);
  }

  /** `s.find(pat)`, with the "not found" case as `None`; `pat in s` is `Find(s, pat).Some?`. */
  function Find(s: string, pat: string): Option<nat> {
    FindFrom(s, pat, 0)
  }

  /** Glue the parts back together with `sep` between neighbours (`sep.join(parts)`). */
  function JoinWith(parts: seq<string>, sep: char): string {
    if |parts| == 0 then ""
    else if |parts| == 1 then parts[0]
    else parts[0] + [sep] + JoinWith(parts[1..], sep)
  }

  /**
   * `s.split(sep)` for a one-character separator: the only list of pieces, none holding `sep`,
   * that joined by `sep` gives back `s`.
   */
  function Split(s: string, sep: char): (parts: seq<string>)
    ensures |parts| >= 1
    ensures forall k :: 0 <= k < |parts| ==> sep !in parts[k]
    ensures JoinWith(parts, sep) == s
  {
    if s == [] then [""]
    else
      var rest := Split(s[1..], sep);
      if s[0] == sep then [""] + rest
      else
        assert JoinWith([[s[0]] + rest[0]] + rest[1..], sep) == [s[0]] + JoinWith(rest, sep) by {
          if |rest| > 1 {
            assert ([[s[0]] + rest[0]] + rest[1..])[1..] == rest[1..];
          }
        }
        [[s[0]] + rest[0]] + rest[1..]
  }

  /** Splitting a piece without separators off the front. */
  lemma {:induction false} SplitCons(a: string, sep: char, b: string)
    requires sep !in a
    ensures Split(a + [sep] + b, sep) == [a] + Split(b, sep)
  {
    if a == [] {
      assert a + [sep] + b == [sep] + b;
    } else {
      var s := a + [sep] + b;
      assert s[0] == a[0] && a[0] != sep;
      assert s[1..] == a[1..] + [sep] + b;
      SplitCons(a[1..], sep, b);
      assert [a[0]] + a[1..] == a;
    }
  }

  /** A string without separators splits into itself alone. */
  lemma {:induction false} SplitNoSeparator(a: string, sep: char)
    requires sep !in a
    ensures Split(a, sep) == [a]
  {
    if a != [] {
      SplitNoSeparator(a[1..], sep);
    }
  }

  /** ASCII part of Python's `str.lower()`. */
  function LowerChar(c: char): (r: char)
    ensures 'A' <= c <= 'Z' ==> 'a' <= r <= 'z' && r as int == c as int + 32
    ensures !('A' <= c <= 'Z') ==> r == c
  {
    if 'A' <= c <= 'Z' then (c as int - 'A' as int + 'a' as int) as char else c
  }

  function Lower(s: string): (r: string)
    ensures |r| == |s|
    ensures forall k :: 0 <= k < |s| ==> r[k] == LowerChar(s[k])
  {
    seq(|s|, k requires 0 <= k < |s| => LowerChar(s[k]))
  }
}
