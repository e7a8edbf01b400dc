/**
 * The text and number work of the release script: reading and rewriting the version in the
 * application's window title, choosing the next semantic version, and putting a new entry at
 * the top of the changelog. Reading and writing files, the clock, the prompt for release notes
 * and the git commands are left to the caller: file contents, today's date and the message are
 * parameters.
 */
module Release {
  import opened Wrappers
  import Text
  import Digits

  /*
   * The window title. Both regular expressions of the script start with the title call up to the
   * application name; `update_version_in_file` then accepts an optional ` v<version>` and the
   * closing `")`, and `get_current_version` requires the version.
   */

  /** `self.root.title("Star Trail Generator`, the fixed start of every match. */
  const TitleHead: string := "self.root.title(\"Star Trail Generator"
  /** `")`, the fixed end of every match. */
  const TitleTail: string := "\")"
  /** ` v`, what introduces the version inside the title. */
  const VersionMark: string := " v"
  /** What `get_current_version` answers when the title carries no version: `1.0.0`. */
  const DefaultVersion: string := VersionString(Version(1, 0, 0))

  /** The title call naming `version`: the text every match is replaced by. */
  function TitleWith(version: string): string {
    TitleHead + VersionMark + version + TitleTail
  }

  /** Length of the longest prefix of `s` without a double quote: what `[^"]+` takes greedily. */
  function NonQuoteRun(s: string): (n: nat)
    ensures n <= |s|
    ensures forall k :: 0 <= k < n ==> s[k] != '"'
    ensures n < |s| ==> s[n] == '"'
  {
    if s == [] || s[0] == '"' then 0 else 1 + NonQuoteRun(s[1..])
  }

  /**
   * The length of the match of `(self\.root\.title\("Star Trail Generator)( v[^"]+)?("\))` at the
   * very start of `x`, if there is one. The greedy `[^"]+` can only be followed by `"` where it
   * stops, so no other split of the optional group matches.
   */
  function TitleMatch(x: string): (r: Option<nat>)
    ensures r.Some? ==> Text.StartsWith(x, TitleHead) && |TitleHead| + |TitleTail| <= r.value <= |x|
  {
    if !Text.StartsWith(x, TitleHead) then None
    else
      var rest := x[|TitleHead|..];
      if Text.StartsWith(rest, VersionMark) then
        var n := NonQuoteRun(rest[2..]);
        if n > 0 && Text.StartsWith(rest[2 + n..], TitleTail) then Some(|TitleHead| + 2 + n + 2) else None
      else if Text.StartsWith(rest, TitleTail) then Some(|TitleHead| + 2)
      else None
  }

  /**
   * Group 1 of `self\.root\.title\("Star Trail Generator v([^"]+)"\)` matched at the very start
   * of `x`, if that pattern matches there.
   */
  function VersionAt(x: string): (r: Option<string>)
    ensures r.Some? ==> TitleMatch(x).Some? && |r.value| > 0 && '"' !in r.value
  {
    if !Text.StartsWith(x, TitleHead + VersionMark) then None
    else
      var n := NonQuoteRun(x[|TitleHead| + 2..]);
      if n > 0 && Text.StartsWith(x[|TitleHead| + 2 + n..], TitleTail) then
        assert x[..|TitleHead|] == (TitleHead + VersionMark)[..|TitleHead|];
        assert x[|TitleHead|..][..2] == VersionMark;
        assert x[|TitleHead|..][2..] == x[|TitleHead| + 2..];
        var v := x[|TitleHead| + 2..|TitleHead| + 2 + n];
        assert forall k :: 0 <= k < |v| ==> v[k] == x[|TitleHead| + 2..][k];
        Some(v)
      else None
  }

  /** `re.search`: the first position at or after `from` where the version pattern matches. */
  function SearchVersion(content: string, from: nat): (r: Option<string>)
    requires from <= |content|
    ensures r.None? <==> forall j :: from <= j <= |content| ==> VersionAt(content[j..]).None?
    ensures r.Some? ==> |r.value| > 0 && '"' !in r.value
    decreases |content| - from
  {
    match VersionAt(content[from..])
    case Some(v) => Some(v)
    case None => if from == |content| then None else SearchVersion(content, from + 1)
  }

  /** `get_current_version` on the application's source text. */
  function CurrentVersion(content: string): (version: string)
    ensures |version| > 0 && '"' !in version
    ensures (forall j :: 0 <= j <= |content| ==> VersionAt(content[j..]).None?) ==> version == DefaultVersion
  {
    match SearchVersion(content, 0)
    case Some(v) => v
    case None => DefaultVersion
  }

  /**
   * `update_version_in_file` on the source text: `re.sub` replaces every match, scanning left to
   * right and resuming after each replaced match, by the title naming `version`.
   */
  function UpdateTitle(content: string, version: string): (r: string)
    decreases |content|
  {
    if content == [] then []
    else
      match TitleMatch(content)
      case Some(n) => TitleWith(version) + UpdateTitle(content[n..], version)
      case None => [content[0]] + UpdateTitle(content[1..], version)
  }

  /** The first position at or after `from` where the title pattern matches. */
  function FirstTitle(content: string, from: nat): (r: Option<nat>)
    requires from <= |content|
    ensures r.Some? ==> from <= r.value < |content| && TitleMatch(content[r.value..]).Some?
    ensures forall j :: from <= j < (if r.Some? then r.value else |content|) ==> TitleMatch(content[j..]).None?
    decreases |content| - from
  {
    if from == |content| then None
    else if TitleMatch(content[from..]).Some? then Some(from)
    else FirstTitle(content, from + 1)
  }

  /** The characters of the fixed title start that the proofs below rely on. */
  lemma TitleHeadFacts()
    ensures |TitleHead| == 37 && TitleHead[0] == 's' && TitleHead[16] == '"'
    ensures forall k :: 1 <= k < |TitleHead| ==> TitleHead[k] != 's'
  {
  }

  /** Two strings equal on their first `len` characters agree on starting with a pattern no longer than that. */
  lemma StartsWithPrefix(x: string, y: string, len: nat, pat: string)
    requires |pat| <= len <= |x| && len <= |y| && x[..len] == y[..len]
    ensures Text.StartsWith(x, pat) == Text.StartsWith(y, pat)
  {
    assert x[..|pat|] == x[..len][..|pat|] && y[..|pat|] == y[..len][..|pat|];
  }

  /** The greedy run stops at the same place in two strings that agree up to a quote. */
  lemma {:induction false} NonQuoteRunPrefix(s: string, t: string, q: nat)
    requires q < |s| && q < |t| && s[..q + 1] == t[..q + 1] && s[q] == '"'
    ensures NonQuoteRun(s) == NonQuoteRun(t) <= q
    decreases q
  {
    assert s[0] == s[..q + 1][0] && t[0] == t[..q + 1][0];
    if q > 0 && s[0] != '"' {
      assert s[1..][..q] == s[..q + 1][1..] && t[1..][..q] == t[..q + 1][1..];
      NonQuoteRunPrefix(s[1..], t[1..], q - 1);
    }
  }

  /**
   * Whether the title pattern matches at the start of a string is decided by the text up to a
   * double quote past the title start and the character after it.
   */
  lemma MatchDecidedByPrefix(x: string, y: string, p: nat)
    requires |TitleHead| <= p && p + 2 <= |x| && p + 2 <= |y|
    requires x[..p + 2] == y[..p + 2] && x[p] == '"'
    ensures TitleMatch(x) == TitleMatch(y)
  {
    var h := |TitleHead|;
    StartsWithPrefix(x, y, p + 2, TitleHead);
    if Text.StartsWith(x, TitleHead) {
      var rx, ry := x[h..], y[h..];
      var len := p + 2 - h;
      assert rx[..len] == x[..p + 2][h..] == y[..p + 2][h..] == ry[..len];
      StartsWithPrefix(rx, ry, len, VersionMark);
      StartsWithPrefix(rx, ry, len, TitleTail);
      if Text.StartsWith(rx, VersionMark) {
        VersionDecidedByPrefix(rx, ry, p - h);
      }
    }
  }

  /**
   * After ` v`, the version run and the closing `")` are decided by the text up to a double
   * quote at `q` and the character after it.
   */
  lemma VersionDecidedByPrefix(rx: string, ry: string, q: nat)
    requires q + 2 <= |rx| && q + 2 <= |ry| && rx[..q + 2] == ry[..q + 2] && rx[q] == '"'
    requires Text.StartsWith(rx, VersionMark)
    ensures NonQuoteRun(rx[2..]) == NonQuoteRun(ry[2..])
    ensures var n := NonQuoteRun(rx[2..]);
      2 + n <= |rx| && 2 + n <= |ry| && Text.StartsWith(rx[2 + n..], TitleTail) == Text.StartsWith(ry[2 + n..], TitleTail)
  {
    var len := q + 2;
    assert q >= 2 by { assert rx[..2] == VersionMark; }
    var sx, sy := rx[2..], ry[2..];
    assert sx[..q - 1] == sy[..q - 1] by {
      assert sx[..q - 1] == rx[..len][2..q + 1];
      assert sy[..q - 1] == ry[..len][2..q + 1];
    }
    assert sx[q - 2] == '"';
    NonQuoteRunPrefix(sx, sy, q - 2);
    var n := NonQuoteRun(sx);
    DropAgree(rx, ry, 2 + n, len);
    StartsWithPrefix(rx[2 + n..], ry[2 + n..], len - 2 - n, TitleTail);
  }

  /** Two strings that agree on their first `len` characters still agree after dropping `o` of them. */
  lemma DropAgree(x: string, y: string, o: nat, len: nat)
    requires o <= len <= |x| && len <= |y| && x[..len] == y[..len]
    ensures x[o..][..len - o] == y[o..][..len - o]
  {
    assert x[o..][..len - o] == x[..len][o..];
    assert y[o..][..len - o] == y[..len][o..];
  }

  /** A title call starting at a later position `k` is never hidden inside an earlier one. */
  lemma HeadsDoNotOverlap(y: string, k: nat)
    requires 1 <= k <= |y| && Text.StartsWith(y, TitleHead) && Text.StartsWith(y[k..], TitleHead)
    ensures k >= |TitleHead|
  {
    TitleHeadFacts();
    assert y[k] == 's' by { assert y[k..][0] == y[k]; }
    assert forall j :: 0 <= j < |TitleHead| ==> y[j] == TitleHead[j] by {
      forall j | 0 <= j < |TitleHead| ensures y[j] == TitleHead[j] {
        assert y[..|TitleHead|][j] == y[j];
      }
    }
  }

  /**
   * Replacing text after position `k` by another title call cannot create a match at position 0
   * where there was none.
   */
  lemma NoMatchKept(x: string, y: string, k: nat)
    requires 1 <= k <= |x| && k <= |y| && x[..k] == y[..k]
    requires Text.StartsWith(x[k..], TitleHead) && Text.StartsWith(y[k..], TitleHead)
    requires TitleMatch(x).None?
    ensures TitleMatch(y).None?
  {
    if Text.StartsWith(y, TitleHead) {
      HeadsDoNotOverlap(y, k);
      TitleHeadFacts();
      var p := k + 16;
      assert x[..p + 2] == y[..p + 2] by {
        assert x[..p + 2] == x[..k] + x[k..][..18];
        assert y[..p + 2] == y[..k] + y[k..][..18];
        assert x[k..][..18] == TitleHead[..18] == y[k..][..18];
      }
      assert x[p] == x[k..][..|TitleHead|][16];
      MatchDecidedByPrefix(x, y, p);
    }
  }

  /** The replacement text matches again, in full, and names the version it was built with. */
  lemma TitleWithMatches(version: string, rest: string)
    requires |version| > 0 && '"' !in version
    ensures TitleMatch(TitleWith(version) + rest) == Some(|TitleWith(version)|)
    ensures VersionAt(TitleWith(version) + rest) == Some(version)
  {
    var x := TitleWith(version) + rest;
    TitleParts(TitleHead, VersionMark, version, TitleTail, rest);
    NonQuoteRunUpTo(version, TitleTail + rest);
    Regroup(version, TitleTail, rest);
  }

  /** Where each part of a five-part text starts and ends, seen from the text and from its suffixes. */
  lemma TitleParts(head: string, mark: string, v: string, tail: string, rest: string)
    ensures var x := head + mark + v + tail + rest;
      var h, m := |head|, |mark|;
      x[..h] == head && x[..h + m] == head + mark && x[h..][..m] == mark &&
      x[h..][m..] == v + tail + rest && x[h + m..] == v + tail + rest &&
      x[h..][m + |v|..][..|tail|] == tail && x[h + m + |v|..][..|tail|] == tail &&
      x[h + m..h + m + |v|] == v
  {
    var x := head + mark + v + tail + rest;
    var h, m := |head|, |mark|;
    assert x == head + (mark + (v + (tail + rest)));
    assert x[h..] == mark + (v + (tail + rest));
    assert x[h..][m..] == v + (tail + rest);
    assert x[h..][m + |v|..] == tail + rest;
  }

  /** The greedy run over a text without quotes followed by a quote covers exactly that text. */
  lemma NonQuoteRunUpTo(v: string, t: string)
    requires '"' !in v && |t| > 0 && t[0] == '"'
    ensures NonQuoteRun(v + t) == |v|
  {
    var s := v + t;
    assert s[|v|] == '"';
    assert forall k :: 0 <= k < |v| ==> s[k] == v[k];
  }

  /**
   * The texts the title pattern `(self\.root\.title\("Star Trail Generator)( v[^"]+)?("\))`
   * matches in full: the bare title call, or the call naming a non-empty version without quotes.
   */
  predicate IsTitle(m: string) {
    m == TitleHead + TitleTail ||
    (|TitleHead| + 4 < |m| && '"' !in m[|TitleHead| + 2..|m| - 2] && m == TitleWith(m[|TitleHead| + 2..|m| - 2]))
  }

  /**
   * `TitleMatch` is the regular expression: it answers `n` exactly when the first `n` characters
   * are a title text, so it answers `None` exactly when no prefix is one.
   */
  lemma TitleMatchIff(x: string, n: nat)
    requires n <= |x|
    ensures TitleMatch(x) == Some(n) <==> IsTitle(x[..n])
  {
    if IsTitle(x[..n]) {
      TitleMatchComplete(x, n);
    }
    if TitleMatch(x) == Some(n) {
      TitleMatchSound(x);
    }
  }

  /** A text that starts with neither the bare nor the versioned title call is not matched. */
  lemma NoTitleNoMatch(x: string)
    requires forall n :: 0 <= n <= |x| ==> !IsTitle(x[..n])
    ensures TitleMatch(x).None?
  {
    if TitleMatch(x).Some? {
      TitleMatchSound(x);
    }
  }

  /** A text that starts with a title text is matched over exactly that title text. */
  lemma TitleMatchComplete(x: string, n: nat)
    requires n <= |x| && IsTitle(x[..n])
    ensures TitleMatch(x) == Some(n)
  {
    var h, m := |TitleHead|, x[..n];
    assert x == m + x[n..];
    if m == TitleHead + TitleTail {
      BareTitleMatches(x[n..]);
    } else {
      TitleWithMatches(m[h + 2..n - 2], x[n..]);
    }
  }

  /** What the title pattern matches is a title text. */
  lemma TitleMatchSound(x: string)
    requires TitleMatch(x).Some?
    ensures IsTitle(x[..TitleMatch(x).value])
  {
    var h := |TitleHead|;
    if Text.StartsWith(x[h..], VersionMark) {
      VersionedMatchSound(x);
    } else {
      BareMatchSound(x);
    }
  }

  /** A match whose parenthesis opens a quote covers a title naming the quoted text. */
  lemma VersionedMatchSound(x: string)
    requires TitleMatch(x).Some? && Text.StartsWith(x[|TitleHead|..], VersionMark)
    ensures IsTitle(x[..TitleMatch(x).value])
  {
    var h, n := |TitleHead|, TitleMatch(x).value;
    var rest := x[h..];
    assert x[..h] == TitleHead && x[h..h + 2] == rest[..2];
    var k := NonQuoteRun(rest[2..]);
    var v := x[h + 2..h + 2 + k];
    assert v == rest[2..][..k];
    assert x[h + 2 + k..n] == rest[2 + k..][..2];
    Concat4(x, TitleHead, VersionMark, v, TitleTail);
    VersionedTitle(x[..n], v);
  }

  /** A match whose parenthesis does not open a quote is the bare title call. */
  lemma BareMatchSound(x: string)
    requires TitleMatch(x).Some? && !Text.StartsWith(x[|TitleHead|..], VersionMark)
    ensures x[..TitleMatch(x).value] == TitleHead + TitleTail
  {
    var h := |TitleHead|;
    var rest := x[h..];
    assert x[..h] == TitleHead && x[h..h + 2] == rest[..2];
    Concat4(x, TitleHead, [], [], TitleTail);
    assert TitleHead + [] + [] + TitleTail == TitleHead + TitleTail;
  }

  /** The title call naming a non-empty version without quotes is a title text. */
  lemma VersionedTitle(m: string, v: string)
    requires m == TitleWith(v) && |v| > 0 && '"' !in v
    ensures IsTitle(m)
  {
    TitleParts(TitleHead, VersionMark, v, TitleTail, []);
    assert m + [] == m;
  }

  /** The bare title call matches in full. */
  lemma BareTitleMatches(rest: string)
    ensures TitleMatch(TitleHead + TitleTail + rest) == Some(|TitleHead| + 2)
  {
    var x := TitleHead + TitleTail + rest;
    var h := |TitleHead|;
    assert x[..h] == TitleHead;
    assert x[h..][..2] == TitleTail;
    assert TitleTail[0] != VersionMark[0];
  }

  /**
   * `VersionAt` is group 1 of the version pattern: it answers `v` exactly when the text starts
   * with the title call naming `v`, a non-empty version without quotes.
   */
  lemma VersionAtIff(x: string, v: string)
    ensures VersionAt(x) == Some(v) <==> |v| > 0 && '"' !in v && Text.StartsWith(x, TitleWith(v))
  {
    if |v| > 0 && '"' !in v && Text.StartsWith(x, TitleWith(v)) {
      var n := |TitleWith(v)|;
      assert x == TitleWith(v) + x[n..];
      TitleWithMatches(v, x[n..]);
    }
    if VersionAt(x) == Some(v) {
      VersionAtSound(x);
    }
  }

  /** The version read from a text is the one named by the title call it starts with. */
  lemma VersionAtSound(x: string)
    requires VersionAt(x).Some?
    ensures Text.StartsWith(x, TitleWith(VersionAt(x).value))
  {
    var h, v := |TitleHead|, VersionAt(x).value;
    var k := NonQuoteRun(x[h + 2..]);
    assert x[..h] == (TitleHead + VersionMark)[..h] && x[h..h + 2] == (TitleHead + VersionMark)[h..];
    assert x[h + 2 + k..h + 4 + k] == x[h + 2 + k..][..2];
    Concat4(x, TitleHead, VersionMark, v, TitleTail);
  }

  /** A text that starts with four given parts in a row starts with their concatenation. */
  lemma Concat4<T>(x: seq<T>, a: seq<T>, b: seq<T>, c: seq<T>, d: seq<T>)
    requires |a| + |b| + |c| + |d| <= |x|
    requires x[..|a|] == a && x[|a|..|a| + |b|] == b
    requires x[|a| + |b|..|a| + |b| + |c|] == c && x[|a| + |b| + |c|..|a| + |b| + |c| + |d|] == d
    ensures x[..|a| + |b| + |c| + |d|] == a + b + c + d
  {
  }

  /** Positions before the first match are copied unchanged. */
  lemma {:induction false} UpdateTitleSkip(content: string, version: string, i: nat)
    requires i <= |content|
    requires forall j :: 0 <= j < i ==> TitleMatch(content[j..]).None?
    ensures UpdateTitle(content, version) == content[..i] + UpdateTitle(content[i..], version)
    decreases i
  {
    if i > 0 {
      assert TitleMatch(content[0..]).None? && content[0..] == content;
      assert forall j :: 0 <= j < i - 1 ==> TitleMatch(content[1..][j..]).None? by {
        forall j | 0 <= j < i - 1 ensures TitleMatch(content[1..][j..]).None? {
          assert content[1..][j..] == content[j + 1..];
        }
      }
      UpdateTitleSkip(content[1..], version, i - 1);
      ConsPrefix(content, i - 1, UpdateTitle(content[i..], version));
    }
  }

  /** A text without the title pattern anywhere is left as it is. */
  lemma UpdateTitleNoMatch(content: string, version: string)
    requires FirstTitle(content, 0).None?
    ensures UpdateTitle(content, version) == content
  {
    UpdateTitleSkip(content, version, |content|);
    assert content[..|content|] == content;
  }

  /** The substitution up to and including the first match. */
  lemma UpdateTitleFirst(content: string, version: string, i: nat, n: nat)
    requires FirstTitle(content, 0) == Some(i) && TitleMatch(content[i..]) == Some(n)
    ensures UpdateTitle(content, version) == content[..i] + (TitleWith(version) + UpdateTitle(content[i + n..], version))
  {
    UpdateTitleSkip(content, version, i);
    assert content[i..][n..] == content[i + n..];
    Regroup(content[..i], TitleWith(version), UpdateTitle(content[i + n..], version));
  }

  /** The title naming any version starts with the fixed title start. */
  lemma TitleWithStarts(version: string, tail: string)
    ensures Text.StartsWith(TitleWith(version) + tail, TitleHead)
  {
    assert (TitleWith(version) + tail)[..|TitleHead|] == TitleHead;
  }

  /** Cutting a text at `i` and putting `mid` after the cut: seen from `j`, the first `i - j` characters are kept. */
  lemma SpliceAt(content: string, i: nat, mid: string, j: nat)
    requires j <= i <= |content|
    ensures (content[..i] + mid)[j..][..i - j] == content[j..][..i - j]
    ensures (content[..i] + mid)[j..][i - j..] == mid
    ensures content[j..][i - j..] == content[i..]
  {
  }

  /**
   * A text that starts no title match still starts none when everything from a later title
   * call on is replaced by the title naming some version.
   */
  lemma SpliceKeepsNoMatch(content: string, i: nat, version: string, tail: string, j: nat)
    requires j < i < |content| && TitleMatch(content[i..]).Some? && TitleMatch(content[j..]).None?
    ensures TitleMatch((content[..i] + (TitleWith(version) + tail))[j..]).None?
  {
    var mid := TitleWith(version) + tail;
    SpliceAt(content, i, mid, j);
    TitleWithStarts(version, tail);
    NoMatchKept(content[j..], (content[..i] + mid)[j..], i - j);
  }

  /** Regrouping a concatenation of three. */
  lemma Regroup<T>(a: seq<T>, w: seq<T>, r: seq<T>)
    ensures a + w + r == a + (w + r)
  {
  }

  /** After a character that starts no match, the substitution of the rest starts no match either. */
  lemma UpdateTitleKeepsNoMatch(s: string, version: string)
    requires |s| > 0 && TitleMatch(s).None?
    ensures TitleMatch([s[0]] + UpdateTitle(s[1..], version)).None?
  {
    var t := s[1..];
    match FirstTitle(t, 0)
    case None =>
      UpdateTitleNoMatch(t, version);
      assert [s[0]] + t == s;
    case Some(i) =>
      var n := TitleMatch(t[i..]).value;
      var tail := UpdateTitle(t[i + n..], version);
      var w := TitleWith(version);
      UpdateTitleFirst(t, version, i, n);
      ConsPrefix(s, i, w + tail);
      SpliceKeepsNoMatch(s, i + 1, version, tail, 0);
      assert (s[..i + 1] + (w + tail))[0..] == s[..i + 1] + (w + tail);
  }

  /** The head of a text put back in front of a prefix of its rest. */
  lemma ConsPrefix<T>(s: seq<T>, i: nat, x: seq<T>)
    requires i < |s|
    ensures [s[0]] + (s[1..][..i] + x) == s[..i + 1] + x
    ensures s[1..][i..] == s[i + 1..]
  {
    assert [s[0]] + s[1..][..i] == s[..i + 1];
    Regroup([s[0]], s[1..][..i], x);
  }

  /** Applying the title substitution twice with the same version gives the text of applying it once. */
  lemma {:induction false} UpdateTitleIdempotent(content: string, version: string)
    requires |version| > 0 && '"' !in version
    ensures UpdateTitle(UpdateTitle(content, version), version) == UpdateTitle(content, version)
    decreases |content|
  {
    if content != [] {
      match TitleMatch(content)
      case Some(n) =>
        var rest := UpdateTitle(content[n..], version);
        TitleWithMatches(version, rest);
        assert (TitleWith(version) + rest)[|TitleWith(version)|..] == rest;
        UpdateTitleIdempotent(content[n..], version);
      case None =>
        var rest := UpdateTitle(content[1..], version);
        UpdateTitleKeepsNoMatch(content, version);
        assert ([content[0]] + rest)[1..] == rest;
        UpdateTitleIdempotent(content[1..], version);
    }
  }

  /** `re.search` finds the first position where the pattern matches. */
  lemma {:induction false} SearchVersionFinds(content: string, from: nat, i: nat, version: string)
    requires from <= i <= |content|
    requires forall j :: from <= j < i ==> VersionAt(content[j..]).None?
    requires VersionAt(content[i..]) == Some(version)
    ensures SearchVersion(content, from) == Some(version)
    decreases i - from
  {
    if from < i {
      SearchVersionFinds(content, from + 1, i, version);
    }
  }

  /**
   * Reading the version back after writing it: once the title has been rewritten with a version,
   * `get_current_version` returns that version, provided the title call was there at all.
   */
  lemma CurrentVersionAfterUpdate(content: string, version: string)
    requires |version| > 0 && '"' !in version
    requires FirstTitle(content, 0).Some?
    ensures CurrentVersion(UpdateTitle(content, version)) == version
  {
    var i := FirstTitle(content, 0).value;
    var n := TitleMatch(content[i..]).value;
    var tail := UpdateTitle(content[i + n..], version);
    var u := UpdateTitle(content, version);
    UpdateTitleFirst(content, version, i, n);
    SpliceAt(content, i, TitleWith(version) + tail, i);
    assert u[i..] == TitleWith(version) + tail;
    TitleWithMatches(version, tail);
    forall j | 0 <= j < i ensures VersionAt(u[j..]).None? {
      SpliceKeepsNoMatch(content, i, version, tail, j);
    }
    SearchVersionFinds(u, 0, i, version);
  }

  /** The application as shipped: its title call carries no version, so the current version is the default. */
  lemma UnversionedTitle(source: string)
    requires source == TitleHead + TitleTail
    ensures CurrentVersion(source) == DefaultVersion
  {
    var h := |TitleHead|;
    forall j | 0 <= j <= |source| ensures VersionAt(source[j..]).None? {
      if j == 0 {
        assert source[h] == '"';
        assert (TitleHead + VersionMark)[h] == ' ';
      }
    }
  }

  /** The first release writes the version into the untitled title call, where it is then found. */
  lemma UnversionedTitleUpdate(source: string, version: string)
    requires source == TitleHead + TitleTail
    requires |version| > 0 && '"' !in version
    ensures UpdateTitle(source, version) == TitleWith(version)
    ensures CurrentVersion(UpdateTitle(source, version)) == version
  {
    var h := |TitleHead|;
    assert source[..h] == TitleHead;
    assert source[h..] == TitleTail;
    assert TitleMatch(source) == Some(|source|);
    assert source[|source|..] == [];
    assert FirstTitle(source, 0) == Some(0);
    CurrentVersionAfterUpdate(source, version);
  }

  /*
   * Choosing the next version.
   */

  /** A semantic version as three integer fields. */
  datatype Version = Version(major: int, minor: int, patch: int)

  /** The command-line switches that choose the new version. */
  datatype Flags = Flags(major: bool, minor: bool, patch: bool, version: Option<string>)

  /** The script's one fatal error: the current version is not `<int>.<int>.<int>`. */
  datatype ReleaseError = NotSemanticVersion(current: string)

  /** `f"{major}.{minor}.{patch}"`. */
  function VersionString(v: Version): string {
    Digits.IntToString(v.major) + "." + Digits.IntToString(v.minor) + "." + Digits.IntToString(v.patch)
  }

  /** `major, minor, patch = map(int, current.split('.'))`, with its `ValueError` as an error. */
  function ParseVersion(current: string): (r: Result<Version, ReleaseError>)
    ensures r.Ok? ==> var parts := Text.Split(current, '.');
      |parts| == 3 && Digits.ParseInt(parts[0]) == Some(r.value.major)
      && Digits.ParseInt(parts[1]) == Some(r.value.minor) && Digits.ParseInt(parts[2]) == Some(r.value.patch)
    ensures r.Err? ==> r.error == NotSemanticVersion(current)
    ensures (var parts := Text.Split(current, '.');
      |parts| == 3 && Digits.ParseInt(parts[0]).Some? && Digits.ParseInt(parts[1]).Some? && Digits.ParseInt(parts[2]).Some?)
      ==> r.Ok?
  {
    var parts := Text.Split(current, '.');
    if |parts| != 3 then Err(NotSemanticVersion(current))
    else
      match (Digits.ParseInt(parts[0]), Digits.ParseInt(parts[1]), Digits.ParseInt(parts[2]))
      case (Some(major), Some(minor), Some(patch)) => Ok(Version(major, minor, patch))
      case _ => Err(NotSemanticVersion(current))
  }

  /** A formatted version parses back to itself. */
  lemma ParseVersionString(v: Version)
    ensures ParseVersion(VersionString(v)) == Ok(v)
  {
    var a, b, c := Digits.IntToString(v.major), Digits.IntToString(v.minor), Digits.IntToString(v.patch);
    SplitThree(a, b, c);
    Digits.ParseIntOfIntToString(v.major);
    Digits.ParseIntOfIntToString(v.minor);
    Digits.ParseIntOfIntToString(v.patch);
  }

  /** Three numerals joined by dots split back into those three numerals. */
  lemma SplitThree(a: string, b: string, c: string)
    requires forall k :: 0 <= k < |a| ==> Digits.IsDigit(a[k]) || (k == 0 && a[k] == '-')
    requires forall k :: 0 <= k < |b| ==> Digits.IsDigit(b[k]) || (k == 0 && b[k] == '-')
    requires forall k :: 0 <= k < |c| ==> Digits.IsDigit(c[k]) || (k == 0 && c[k] == '-')
    ensures Text.Split(a + "." + b + "." + c, '.') == [a, b, c]
  {
    assert '.' !in a && '.' !in b && '.' !in c;
    Text.SplitNoSeparator(c, '.');
    Text.SplitCons(b, '.', c);
    assert a + "." + b + "." + c == a + ['.'] + (b + ['.'] + c);
    Text.SplitCons(a, '.', b + ['.'] + c);
  }

  /** Semantic-version precedence: major first, then minor, then patch. */
  predicate Precedes(a: Version, b: Version) {
    a.major < b.major || (a.major == b.major && (a.minor < b.minor || (a.minor == b.minor && a.patch < b.patch)))
  }

  /**
   * The `if`/`elif` chain of `main`: `--major` before `--minor` before `--patch`, and a patch
   * bump when no switch is given. The fields below the bumped one start again at 0, and the
   * result comes after the old version in semantic-version precedence.
   */
  function Bump(v: Version, flags: Flags): (r: Version)
    ensures Precedes(v, r)
    ensures flags.major ==> r == Version(v.major + 1, 0, 0)
    ensures !flags.major && flags.minor ==> r == Version(v.major, v.minor + 1, 0)
    ensures !flags.major && !flags.minor ==> r == Version(v.major, v.minor, v.patch + 1)
  {
    if flags.major then Version(v.major + 1, 0, 0)
    else if flags.minor then Version(v.major, v.minor + 1, 0)
    else if flags.patch then Version(v.major, v.minor, v.patch + 1)
    else Version(v.major, v.minor, v.patch + 1)
  }

  /**
   * The new version chosen by `main`: an explicit, non-empty `--version` wins; otherwise the
   * current version must parse, and the new one is its bump written as `<major>.<minor>.<patch>`.
   */
  function NewVersion(current: string, flags: Flags): (r: Result<string, ReleaseError>)
    ensures flags.version.Some? && flags.version.value != "" ==> r == Ok(flags.version.value)
    ensures !(flags.version.Some? && flags.version.value != "") ==>
      (r.Ok? <==> ParseVersion(current).Ok?) &&
      (r.Err? ==> r.error == NotSemanticVersion(current)) &&
      (r.Ok? ==> ParseVersion(r.value) == Ok(Bump(ParseVersion(current).value, flags)))
    ensures !(flags.version.Some? && flags.version.value != "") && r.Ok? ==>
      var v := ParseVersion(current).value;
      (flags.major ==> r.value == Digits.IntToString(v.major + 1) + ".0.0") &&
      (!flags.major && flags.minor ==>
        r.value == Digits.IntToString(v.major) + "." + Digits.IntToString(v.minor + 1) + ".0") &&
      (!flags.major && !flags.minor ==>
        r.value == Digits.IntToString(v.major) + "." + Digits.IntToString(v.minor) + "." + Digits.IntToString(v.patch + 1))
  {
    if flags.version.Some? && flags.version.value != "" then Ok(flags.version.value)
    else
      match ParseVersion(current)
      case Err(e) => Err(e)
      case Ok(v) =>
        ParseVersionString(Bump(v, flags));
        BumpText(v, flags);
        Ok(VersionString(Bump(v, flags)))
  }

  /** The text of a bumped version: the f-string of the branch that `main` takes. */
  lemma BumpText(v: Version, flags: Flags)
    ensures flags.major ==> VersionString(Bump(v, flags)) == Digits.IntToString(v.major + 1) + ".0.0"
    ensures !flags.major && flags.minor ==>
      VersionString(Bump(v, flags)) == Digits.IntToString(v.major) + "." + Digits.IntToString(v.minor + 1) + ".0"
    ensures !flags.major && !flags.minor ==>
      VersionString(Bump(v, flags))
        == Digits.IntToString(v.major) + "." + Digits.IntToString(v.minor) + "." + Digits.IntToString(v.patch + 1)
  {
    if flags.major {
      Digits.IntToStringDigit(0);
      assert VersionString(Version(v.major + 1, 0, 0)) == Digits.IntToString(v.major + 1) + ".0.0";
    } else if flags.minor {
      Digits.IntToStringDigit(0);
      assert VersionString(Version(v.major, v.minor + 1, 0))
        == Digits.IntToString(v.major) + "." + Digits.IntToString(v.minor + 1) + ".0";
    }
  }

  /*
   * The changelog.
   */

  /** The heading the changelog starts with. */
  const ChangelogHeader: string := "# Changelog"

  /** `f"## [v{version}] - {today}\n\n{message}\n\n"`. */
  function ChangelogEntry(version: string, date: string, message: string): (entry: string)
    ensures |entry| > 0 && entry[0] == '#'
  {
    "## [v" + version + "] - " + date + "\n\n" + message + "\n\n"
  }

  /**
   * `update_changelog`: `existing` is the file's text, or None when there is no file. The entry
   * goes right after the first `# Changelog` heading, whose following whitespace gives way to one
   * blank line; a file without the heading gets the entry in front; a missing file is created
   * with the heading and the entry.
   */
  function UpdateChangelog(existing: Option<string>, version: string, date: string, message: string): (r: string)
    ensures existing.None? ==> r == ChangelogHeader + "\n\n" + ChangelogEntry(version, date, message)
    ensures existing.Some? && Text.Find(existing.value, ChangelogHeader).None? ==>
      r == ChangelogEntry(version, date, message) + existing.value
  {
    var entry := ChangelogEntry(version, date, message);
    match existing
    case None => ChangelogHeader + "\n\n" + entry
    case Some(content) =>
      match Text.Find(content, ChangelogHeader)
      case Some(i) =>
        content[..i] + ChangelogHeader + "\n\n" + entry + Text.LStrip(content[i + |ChangelogHeader|..])
      case None => entry + content
  }

  /** The text before the heading, and what follows it once leading whitespace is dropped. */
  function BeforeHeader(content: string): string {
    match Text.Find(content, ChangelogHeader)
    case Some(i) => content[..i]
    case None => content
  }

  function AfterHeader(content: string): string {
    match Text.Find(content, ChangelogHeader)
    case Some(i) => Text.LStrip(content[i + |ChangelogHeader|..])
    case None => []
  }

  /** Where the heading is found first, the updated text keeps it at that place with the new entry right behind. */
  lemma ChangelogHeaderStays(content: string, version: string, date: string, message: string)
    requires Text.Find(content, ChangelogHeader).Some?
    ensures var r := UpdateChangelog(Some(content), version, date, message);
      Text.Find(r, ChangelogHeader) == Text.Find(content, ChangelogHeader) &&
      r == BeforeHeader(content) + ChangelogHeader + "\n\n" + ChangelogEntry(version, date, message) + AfterHeader(content)
  {
    var i := Text.Find(content, ChangelogHeader).value;
    var e := ChangelogEntry(version, date, message);
    var after := Text.LStrip(content[i + |ChangelogHeader|..]);
    var r := UpdateChangelog(Some(content), version, date, message);
    assert r == content[..i] + ChangelogHeader + "\n\n" + e + after;
    RegroupTail(content[..i] + ChangelogHeader, "\n\n", e, after);
    Text.FindAfterReplacingRest(content, ChangelogHeader, i, "\n\n" + e + after);
  }

  /** Regrouping the last three parts of a concatenation. */
  lemma RegroupTail<T>(a: seq<T>, b: seq<T>, c: seq<T>, d: seq<T>)
    ensures a + b + c + d == a + (b + c + d)
  {
  }

  /** Removing leading whitespace stops at the entry's `#`. */
  lemma LStripBlankLines(entry: string, rest: string)
    requires |entry| > 0 && entry[0] == '#'
    ensures Text.LStrip("\n\n" + entry + rest) == entry + rest
  {
    var body := entry + rest;
    Regroup("\n\n", entry, rest);
    assert "\n\n" + body == ['\n'] + (['\n'] + body);
    Text.LStripSpace('\n', ['\n'] + body);
    Text.LStripSpace('\n', body);
    assert body[0] == '#' && !Text.IsSpace('#');
  }

  /** Cutting a three-part text after its first part and after its second. */
  lemma SliceParts<T>(a: seq<T>, b: seq<T>, c: seq<T>)
    ensures (a + b + c)[..|a|] == a && (a + b + c)[|a| + |b|..] == c
  {
  }

  /** Updating a changelog whose heading is followed by an entry puts the new entry in front of it. */
  lemma UpdateInFrontOf(r: string, before: string, e1: string, after: string, version: string, date: string, message: string)
    requires |e1| > 0 && e1[0] == '#'
    requires r == before + ChangelogHeader + "\n\n" + e1 + after
    requires Text.Find(r, ChangelogHeader) == Some(|before|)
    ensures UpdateChangelog(Some(r), version, date, message) ==
      before + ChangelogHeader + "\n\n" + ChangelogEntry(version, date, message) + e1 + after
  {
    var i, h := |before|, |ChangelogHeader|;
    var e2 := ChangelogEntry(version, date, message);
    RegroupTail(before + ChangelogHeader, "\n\n", e1, after);
    SliceParts(before, ChangelogHeader, "\n\n" + e1 + after);
    LStripBlankLines(e1, after);
    assert UpdateChangelog(Some(r), version, date, message) == r[..i] + ChangelogHeader + "\n\n" + e2 + Text.LStrip(r[i + h..]);
    Regroup(before + ChangelogHeader + "\n\n" + e2, e1, after);
  }

  /**
   * Entries come newest first: a second release puts its entry directly under the heading, in
   * front of the previous one, and keeps everything else. This holds from a missing file too.
   */
  lemma ChangelogNewestFirst(existing: Option<string>, v1: string, d1: string, m1: string, v2: string, d2: string, m2: string)
    requires existing.None? || Text.Find(existing.value, ChangelogHeader).Some?
    ensures var before := if existing.None? then "" else BeforeHeader(existing.value);
      var after := if existing.None? then "" else AfterHeader(existing.value);
      UpdateChangelog(Some(UpdateChangelog(existing, v1, d1, m1)), v2, d2, m2) ==
      before + ChangelogHeader + "\n\n" + ChangelogEntry(v2, d2, m2) + ChangelogEntry(v1, d1, m1) + after
  {
    var e1 := ChangelogEntry(v1, d1, m1);
    var r1 := UpdateChangelog(existing, v1, d1, m1);
    if existing.None? {
      var h := |ChangelogHeader|;
      assert r1 == [] + ChangelogHeader + "\n\n" + e1 + [];
      assert Text.Find(r1, ChangelogHeader) == Some(0) by {
        assert r1[0..h] == ChangelogHeader;
      }
      UpdateInFrontOf(r1, [], e1, [], v2, d2, m2);
    } else {
      var content := existing.value;
      ChangelogHeaderStays(content, v1, d1, m1);
      UpdateInFrontOf(r1, BeforeHeader(content), e1, AfterHeader(content), v2, d2, m2);
    }
  }
}
