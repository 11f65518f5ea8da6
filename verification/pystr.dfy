/**
 * The parts of Python's `str` that the answer pipeline relies on, over
 * `string` (a sequence of Unicode code points): `str.isspace`, `str.strip`,
 * the `in` operator on strings, `str.split` with an explicit separator and
 * its inverse `str.join`.
 */
module PyStr {

  /** `c.isspace()`: the ASCII separators and the Unicode space, line and paragraph separators. */
  predicate IsSpace(c: char) {
    ('\t' <= c <= '\r') || ('\U{1C}' <= c <= ' ') || c == '\U{85}' || c == '\U{A0}'
    || c == '\U{1680}' || ('\U{2000}' <= c <= '\U{200A}') || c == '\U{2028}' || c == '\U{2029}'
    || c == '\U{202F}' || c == '\U{205F}' || c == '\U{3000}'
  }

  /** Every character of `s` is whitespace (vacuously so for the empty string). */
  predicate IsBlank(s: string) {
    forall i :: 0 <= i < |s| ==> IsSpace(s[i])
  }

  /** `t` occurs in `s` starting at index `i`. */
  predicate OccursAt(s: string, t: string, i: nat) {
    i + |t| <= |s| && s[i..i + |t|] == t
  }

  /** Python's `t in s` for two strings. */
  predicate Contains(s: string, t: string) {
    exists i :: 0 <= i <= |s| && OccursAt(s, t, i)
  }

  /** Every character after the first of `sep` differs from its first one, so two occurrences never overlap. */
  predicate HeadUnique(sep: string) {
    forall k :: 0 < k < |sep| ==> sep[k] != sep[0]
  }

  /** `s.lstrip()`: drops the leading whitespace. */
  function LStrip(s: string): (r: string)
    ensures |r| <= |s| && r == s[|s| - |r|..]
    ensures IsBlank(s[..|s| - |r|])
    ensures r == [] || !IsSpace(r[0])
    decreases |s|
  {
    if s != [] && IsSpace(s[0]) then LStrip(s[1..]) else s
  }

  /** `s.rstrip()`: drops the trailing whitespace. */
  function RStrip(s: string): (r: string)
    ensures |r| <= |s| && r == s[..|r|]
    ensures IsBlank(s[|r|..])
    ensures r == [] || !IsSpace(r[|r| - 1])
    decreases |s|
  {
    if s != [] && IsSpace(s[|s| - 1]) then
      var r := RStrip(s[..|s| - 1]);
      assert s[|r|..] == s[..|s| - 1][|r|..] + [s[|s| - 1]];
      r
    else
      s
  }

  /** `s.strip()`: a piece of `s` with no whitespace at either end, empty exactly when `s` is blank. */
  function Strip(s: string): (r: string)
    ensures Contains(s, r)
    ensures r == [] <==> IsBlank(s)
    ensures r != [] ==> !IsSpace(r[0]) && !IsSpace(r[|r| - 1])
  {
    StripLocated(s);
    StripEmptyWhenBlank(s);
    RStrip(LStrip(s))
  }

  /** Where the stripped text sits in `s`: right after the leading whitespace. */
  lemma StripLocated(s: string)
    ensures var l := LStrip(s); var r := RStrip(l);
      OccursAt(s, r, |s| - |l|) && (r != [] ==> r[0] == l[0])
  {
    var l := LStrip(s);
    var r := RStrip(l);
    PrefixOfSuffix(s, l, r);
  }

  /** A prefix of a suffix of `s` occurs in `s` where the suffix starts. */
  lemma PrefixOfSuffix(s: string, l: string, r: string)
    requires |l| <= |s| && l == s[|s| - |l|..]
    requires |r| <= |l| && r == l[..|r|]
    ensures OccursAt(s, r, |s| - |l|)
  {
    assert s[|s| - |l|..][..|r|] == s[|s| - |l|..|s| - |l| + |r|];
  }

  /** Stripping leaves nothing exactly when every character is whitespace. */
  lemma StripEmptyWhenBlank(s: string)
    ensures RStrip(LStrip(s)) == [] <==> IsBlank(s)
  {
    var l := LStrip(s);
    var k := |s| - |l|;
    if RStrip(l) == [] {
      assert l[0..] == l;
      assert s[..|s|] == s;
    }
    if IsBlank(s) {
      assert IsBlank(l);
    }
  }

  /** `s.split(sep)`: the pieces between the occurrences of `sep`, found left to right without overlap. */
  function Split(s: string, sep: string): (parts: seq<string>)
    requires sep != []
    ensures parts != []
    decreases |s|
  {
    if |s| < |sep| then [s]
    else if s[..|sep|] == sep then [[]] + Split(s[|sep|..], sep)
    else
      var rest := Split(s[1..], sep);
      [[s[0]] + rest[0]] + rest[1..]
  }

  /** `sep.join(parts)` for a non-empty list of pieces. */
  function Join(parts: seq<string>, sep: string): string
    requires parts != []
  {
    if |parts| == 1 then parts[0] else parts[0] + sep + Join(parts[1..], sep)
  }

  /** `parts[-1]`. */
  function Last(parts: seq<string>): string
    requires parts != []
  {
    parts[|parts| - 1]
  }

  /** `lstrip` removes exactly a blank prefix in front of a piece that starts with a non-space. */
  lemma {:induction false} LStripPadded(pre: string, rest: string)
    requires IsBlank(pre)
    requires rest == [] || !IsSpace(rest[0])
    ensures LStrip(pre + rest) == rest
    decreases |pre|
  {
    if pre != [] {
      assert (pre + rest)[1..] == pre[1..] + rest;
      LStripPadded(pre[1..], rest);
    }
  }

  /** `rstrip` removes exactly a blank suffix behind a piece that ends with a non-space. */
  lemma {:induction false} RStripPadded(rest: string, post: string)
    requires IsBlank(post)
    requires rest == [] || !IsSpace(rest[|rest| - 1])
    ensures RStrip(rest + post) == rest
    decreases |post|
  {
    if post != [] {
      assert (rest + post)[..|rest + post| - 1] == rest + post[..|post| - 1];
      RStripPadded(rest, post[..|post| - 1]);
    }
  }

  /** Stripping removes exactly the blank padding around a piece that starts and ends with a non-space. */
  lemma StripPadded(pre: string, m: string, post: string)
    requires IsBlank(pre) && IsBlank(post)
    requires m == [] || (!IsSpace(m[0]) && !IsSpace(m[|m| - 1]))
    ensures Strip(pre + m + post) == m
  {
    if m == [] {
      assert pre + m + post == pre + post;
      assert IsBlank(pre + post);
    } else {
      assert pre + m + post == pre + (m + post);
      LStripPadded(pre, m + post);
      RStripPadded(m, post);
    }
  }

  /** Where each of six concatenated pieces starts: the first four and the last are located. */
  lemma ConcatLayout(a: string, b: string, c: string, d: string, e: string, f: string)
    ensures OccursAt(a + b + c + d + e + f, a, 0)
    ensures OccursAt(a + b + c + d + e + f, b, |a|)
    ensures OccursAt(a + b + c + d + e + f, c, |a| + |b|)
    ensures OccursAt(a + b + c + d + e + f, d, |a| + |b| + |c|)
    ensures OccursAt(a + b + c + d + e + f, f, |a| + |b| + |c| + |d| + |e|)
  {
    var s := a + b + c + d + e + f;
    assert s[0..|a|] == a;
    assert s[|a|..|a| + |b|] == b;
    assert s[|a| + |b|..|a| + |b| + |c|] == c;
    assert s[|a| + |b| + |c|..|a| + |b| + |c| + |d|] == d;
    assert s[|a| + |b| + |c| + |d| + |e|..] == f;
  }

  /** Containment is transitive: a piece of a piece of `s` is a piece of `s`. */
  lemma ContainsTransitive(s: string, x: string, t: string)
    requires Contains(s, x) && Contains(x, t)
    ensures Contains(s, t)
  {
    var j :| 0 <= j <= |s| && OccursAt(s, x, j);
    var i :| 0 <= i <= |x| && OccursAt(x, t, i);
    forall k | 0 <= k < |t|
      ensures s[i + j..i + j + |t|][k] == t[k]
    {
      assert t[k] == x[i + k] == s[j + (i + k)];
    }
    assert OccursAt(s, t, i + j);
  }

  /** A string that contains `t + u` contains `t`. */
  lemma ContainsPrefixOf(s: string, t: string, u: string)
    requires Contains(s, t + u)
    ensures Contains(s, t)
  {
    var i :| 0 <= i <= |s| && OccursAt(s, t + u, i);
    assert s[i..i + |t|] == (t + u)[..|t|];
    assert OccursAt(s, t, i);
  }

  /** A string lacking the first character of `t` does not contain `t`. */
  lemma MissingHead(s: string, t: string)
    requires t != [] && t[0] !in s
    ensures !Contains(s, t)
  {
  }

  /** Two overlapping occurrences of `sep` make a later character of `sep` repeat its first. */
  lemma OverlapRepeatsHead(s: string, sep: string, a: nat, b: nat)
    requires OccursAt(s, sep, a) && OccursAt(s, sep, b) && a < b < a + |sep|
    ensures sep[b - a] == sep[0]
  {
    assert s[b] == s[b..b + |sep|][0];
    assert s[b] == s[a..a + |sep|][b - a];
  }

  /** Two occurrences of a head-unique separator never overlap. */
  lemma NoOverlap(s: string, sep: string, a: nat, b: nat)
    requires sep != [] && HeadUnique(sep)
    requires OccursAt(s, sep, a) && OccursAt(s, sep, b) && a < b
    ensures a + |sep| <= b
  {
    if b < a + |sep| {
      OverlapRepeatsHead(s, sep, a, b);
    }
  }

  /** An occurrence at `b` lies inside the suffix after an earlier non-overlapping occurrence at `a`. */
  lemma OccursInSuffix(s: string, t: string, a: nat, b: nat)
    requires a <= b && OccursAt(s, t, b)
    ensures Contains(s[a..], t)
  {
    assert s[a..][b - a..b - a + |t|] == s[b..b + |t|];
    assert OccursAt(s[a..], t, b - a);
  }

  /** `sep.join(s.split(sep)) == s`. */
  lemma {:induction false} SplitJoin(s: string, sep: string)
    requires sep != []
    ensures Join(Split(s, sep), sep) == s
    decreases |s|
  {
    var parts := Split(s, sep);
    if |s| < |sep| {
    } else if s[..|sep|] == sep {
      var rest := Split(s[|sep|..], sep);
      SplitJoin(s[|sep|..], sep);
      assert parts[1..] == rest;
      assert s == sep + s[|sep|..];
    } else {
      var rest := Split(s[1..], sep);
      SplitJoin(s[1..], sep);
      assert s == [s[0]] + s[1..];
      if |rest| == 1 {
        assert parts == [[s[0]] + rest[0]];
      } else {
        assert parts[1..] == rest[1..];
        assert Join(rest, sep) == rest[0] + sep + Join(rest[1..], sep);
      }
    }
  }

  /** Joining splits off the last piece behind the last separator. */
  lemma {:induction false} JoinLast(parts: seq<string>, sep: string)
    requires |parts| >= 2
    ensures Join(parts, sep) == Join(parts[..|parts| - 1], sep) + sep + Last(parts)
    decreases |parts|
  {
    if |parts| > 2 {
      JoinLast(parts[1..], sep);
      assert parts[1..][..|parts| - 2] == parts[..|parts| - 1][1..];
    }
  }

  /** No piece that `s.split(sep)` returns contains `sep`; the first one is a prefix of `s`. */
  lemma {:induction false} SplitPiecesFree(s: string, sep: string)
    requires sep != []
    ensures var parts := Split(s, sep);
      |parts[0]| <= |s| && parts[0] == s[..|parts[0]|] && forall k :: 0 <= k < |parts| ==> !Contains(parts[k], sep)
    decreases |s|
  {
    var parts := Split(s, sep);
    if |s| < |sep| {
      assert !Contains(s, sep);
    } else if s[..|sep|] == sep {
      SplitPiecesFree(s[|sep|..], sep);
      assert !Contains([], sep);
      assert forall k :: 1 <= k < |parts| ==> parts[k] == Split(s[|sep|..], sep)[k - 1];
    } else {
      var rest := Split(s[1..], sep);
      SplitPiecesFree(s[1..], sep);
      ExtendedPieceFree(s, sep, rest[0]);
      assert forall k :: 1 <= k < |parts| ==> parts[k] == rest[k];
    }
  }

  /**
   * Putting the first character of `s` in front of a separator-free prefix of
   * `s[1..]` keeps it separator-free when `s` does not start with the separator.
   */
  lemma ExtendedPieceFree(s: string, sep: string, piece: string)
    requires sep != [] && |sep| <= |s| && s[..|sep|] != sep
    requires |piece| < |s| && piece == s[1..][..|piece|] && !Contains(piece, sep)
    ensures var first := [s[0]] + piece; first == s[..|first|] && !Contains(first, sep)
  {
    var first := [s[0]] + piece;
    assert first == s[..|first|];
    forall i | 0 <= i <= |first|
      ensures !OccursAt(first, sep, i)
    {
      if i == 0 {
        assert |sep| <= |first| ==> s[..|sep|] == first[..|sep|];
      } else {
        var j: nat := i - 1;
        assert i + |sep| <= |first| ==> first[i..i + |sep|] == piece[j..j + |sep|];
        assert OccursAt(first, sep, i) ==> OccursAt(piece, sep, j);
      }
    }
  }

  /**
   * The last piece of `s.split(sep)` is free of `sep`; when `s` contains `sep`,
   * it is the suffix of `s` right behind an occurrence of `sep`, otherwise it is `s` itself.
   */
  lemma SplitLast(s: string, sep: string)
    requires sep != []
    ensures var tail := Last(Split(s, sep));
      && !Contains(tail, sep)
      && (!Contains(s, sep) ==> tail == s)
      && (Contains(s, sep) ==>
            |tail| + |sep| <= |s| && tail == s[|s| - |tail|..] && OccursAt(s, sep, |s| - |tail| - |sep|))
  {
    var parts := Split(s, sep);
    SplitJoin(s, sep);
    SplitPiecesFree(s, sep);
    if |parts| == 1 {
      assert Last(parts) == Join(parts, sep) == s;
    } else {
      JoinLast(parts, sep);
      var front := Join(parts[..|parts| - 1], sep);
      assert s == front + sep + Last(parts);
      assert s[|front|..|front| + |sep|] == sep;
      assert OccursAt(s, sep, |front|);
    }
  }

  /**
   * When `c` has no occurrence of a head-unique `sep`, the last piece of
   * `(p + sep + c).split(sep)` is `c`, whatever `p` holds.
   */
  lemma LastAfterFinalSeparator(p: string, sep: string, c: string)
    requires sep != [] && HeadUnique(sep) && !Contains(c, sep)
    ensures Last(Split(p + sep + c, sep)) == c
  {
    var s := p + sep + c;
    var b := |p|;
    assert s[b..b + |sep|] == sep;
    assert OccursAt(s, sep, b);
    assert c == s[b + |sep|..];
    SplitLast(s, sep);
    var tail := Last(Split(s, sep));
    assert Contains(s, sep);
    var a: nat := |s| - |tail| - |sep|;
    assert tail == s[a + |sep|..];
    LastOccurrenceUnique(s, sep, a, b);
  }

  /** A head-unique separator has at most one occurrence with no further occurrence behind it. */
  lemma LastOccurrenceUnique(s: string, sep: string, a: nat, b: nat)
    requires sep != [] && HeadUnique(sep)
    requires OccursAt(s, sep, a) && !Contains(s[a + |sep|..], sep)
    requires OccursAt(s, sep, b) && !Contains(s[b + |sep|..], sep)
    ensures a == b
  {
    if a < b {
      LaterOccurrenceInSuffix(s, sep, a, b);
    } else if b < a {
      LaterOccurrenceInSuffix(s, sep, b, a);
    }
  }

  /** Of two occurrences of a head-unique separator, the later one lies in the suffix behind the earlier. */
  lemma LaterOccurrenceInSuffix(s: string, sep: string, a: nat, b: nat)
    requires sep != [] && HeadUnique(sep)
    requires OccursAt(s, sep, a) && OccursAt(s, sep, b) && a < b
    ensures Contains(s[a + |sep|..], sep)
  {
    NoOverlap(s, sep, a, b);
    OccursInSuffix(s, sep, a + |sep|, b);
  }
}
