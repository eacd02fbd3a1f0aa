/**
 * The Python `str` operations that the skill extractor and the handler rely on,
 * over `string` (a sequence of Unicode characters):
 * `split(sep, 1)` with a multi-character separator, `split(c)` with a one-character
 * separator, `strip()` and `replace(a, b)` with one-character arguments.
 */
module Strings {
  import opened Wrappers

  // ---------------------------------------------------------------------------
  // Searching for a substring
  // ---------------------------------------------------------------------------

  /** `pat` occurs in `s` starting at index `i`. */
  predicate OccursAt(s: string, pat: string, i: nat) {
    i + |pat| <= |s| && s[i..i + |pat|] == pat
  }

  /** Python's `pat in s`. */
  predicate Contains(s: string, pat: string) {
    exists i: nat :: i <= |s| && OccursAt(s, pat, i)
  }

  /** `i` is the leftmost occurrence of `pat` in `s`. */
  predicate IsFirst(s: string, pat: string, i: nat) {
    OccursAt(s, pat, i) && forall j: nat :: j < i ==> !OccursAt(s, pat, j)
  }

  /** Leftmost occurrence of `pat` in `s` at or after `from`. */
  function FindFrom(s: string, pat: string, from: nat): (r: Option<nat>)
    requires from <= |s|
    ensures r.Some? ==> from <= r.value && OccursAt(s, pat, r.value)
    ensures r.Some? ==> forall j: nat :: from <= j < r.value ==> !OccursAt(s, pat, j)
    ensures r.None? ==> forall j: nat :: from <= j ==> !OccursAt(s, pat, j)
    decreases |s| - from
  {
    if OccursAt(s, pat, from) then Some(from)
    else if from == |s| then None
    else FindFrom(s, pat, from + 1)
  }

  /** Python's `s.find(pat)`, with `None` for -1. */
  function Find(s: string, pat: string): (r: Option<nat>)
    ensures r.Some? ==> IsFirst(s, pat, r.value)
    ensures r.None? <==> !Contains(s, pat)
  {
    FindFrom(s, pat, 0)
  }

  // ---------------------------------------------------------------------------
  // s.split(sep, 1)
  // ---------------------------------------------------------------------------

  /**
   * Python's `s.split(sep, 1)`: the whole of `s` when `sep` does not occur,
   * otherwise the text before and after the FIRST occurrence of `sep`.
   */
  function SplitOnce(s: string, sep: string): (r: seq<string>)
    requires sep != []
    ensures |r| == 1 || |r| == 2
    ensures |r| == 1 <==> !Contains(s, sep)
    ensures |r| == 1 ==> r[0] == s
    ensures |r| == 2 ==> s == r[0] + sep + r[1] && IsFirst(s, sep, |r[0]|)
  {
    match Find(s, sep)
    case None => [s]
    case Some(i) =>
      assert s == s[..i] + sep + s[i + |sep|..] by {
        assert s[i..i + |sep|] == sep;
        assert s == s[..i] + s[i..i + |sep|] + s[i + |sep|..];
      }
      [s[..i], s[i + |sep|..]]
  }

  // ---------------------------------------------------------------------------
  // s.split(c) for a one-character separator, and its inverse
  // ---------------------------------------------------------------------------

  /** Number of occurrences of `c` in `s`. */
  function Count(s: string, c: char): nat {
    if s == [] then 0 else (if s[0] == c then 1 else 0) + Count(s[1..], c)
  }

  /** Python's `c.join(parts)`. */
  function Join(parts: seq<string>, c: char): string
    requires |parts| > 0
  {
    if |parts| == 1 then parts[0] else parts[0] + [c] + Join(parts[1..], c)
  }

  /**
   * Python's `s.split(c)`: the pieces between the occurrences of `c`, empty
   * pieces included, so there is always one piece more than there are separators.
   */
  function Split(s: string, c: char): (r: seq<string>)
    ensures |r| == Count(s, c) + 1
    ensures forall k :: 0 <= k < |r| ==> c !in r[k]
    ensures Join(r, c) == s
    decreases |s|
  {
    if s == [] then [[]]
    else
      var rest := Split(s[1..], c);
      if s[0] == c then
        assert s == [c] + s[1..];
        [[]] + rest
      else
        var r := [[s[0]] + rest[0]] + rest[1..];
        assert r[1..] == rest[1..];
        assert s == [s[0]] + s[1..];
        r
  }

  /** Joining one more piece appends the separator and that piece. */
  lemma {:induction false} JoinSnoc(parts: seq<string>, p: string, c: char)
    requires |parts| > 0
    ensures Join(parts + [p], c) == Join(parts, c) + [c] + p
    decreases |parts|
  {
    if |parts| > 1 {
      assert (parts + [p])[1..] == parts[1..] + [p];
      JoinSnoc(parts[1..], p, c);
    }
  }

  /** A text ending in the separator splits into one more, empty, piece. */
  lemma SplitTrailing(s: string, c: char)
    ensures Split(s + [c], c) == Split(s, c) + [[]]
  {
    var parts := Split(s, c) + [[]];
    JoinSnoc(Split(s, c), [], c);
    assert Join(parts, c) == s + [c];
    SplitJoin(parts, c);
  }

  /** A leading separator splits off one empty piece. */
  lemma SplitSeparatorHead(s: string, c: char)
    ensures Split([c] + s, c) == [[]] + Split(s, c)
  {
    assert ([c] + s)[1..] == s;
  }

  /** A leading ordinary character joins the first piece. */
  lemma SplitCharHead(x: char, s: string, c: char)
    requires x != c
    ensures var rest := Split(s, c);
            Split([x] + s, c) == [[x] + rest[0]] + rest[1..]
  {
    assert ([x] + s)[1..] == s;
  }

  /** Splitting undoes joining pieces that do not contain the separator. */
  lemma {:induction false} SplitJoin(parts: seq<string>, c: char)
    requires |parts| > 0
    requires forall k :: 0 <= k < |parts| ==> c !in parts[k]
    ensures Split(Join(parts, c), c) == parts
    decreases |parts|, |parts[0]|
  {
    var p := parts[0];
    if p == [] {
      if |parts| > 1 {
        var s := Join(parts, c);
        assert s == [c] + Join(parts[1..], c);
        SplitSeparatorHead(Join(parts[1..], c), c);
        SplitJoin(parts[1..], c);
        assert parts == [[]] + parts[1..];
      }
    } else {
      var tail := [p[1..]] + parts[1..];
      assert tail[1..] == parts[1..];
      assert Join(parts, c) == [p[0]] + Join(tail, c) by {
        assert p == [p[0]] + p[1..];
        if |parts| > 1 {
          assert Join(tail, c) == p[1..] + [c] + Join(parts[1..], c);
        }
      }
      assert forall k :: 0 <= k < |tail| ==> c !in tail[k] by {
        assert forall x :: x in p[1..] ==> x in p;
      }
      SplitJoin(tail, c);
      SplitCharHead(p[0], Join(tail, c), c);
      assert p == [p[0]] + p[1..];
      assert parts == [p] + parts[1..];
    }
  }

  // ---------------------------------------------------------------------------
  // s.strip()
  // ---------------------------------------------------------------------------

  /** The code point ranges (inclusive) of Unicode white space, as `str.isspace` has them. */
  const SpaceRanges: seq<(int, int)> := [
    (0x09, 0x0D), (0x1C, 0x20), (0x85, 0x85), (0xA0, 0xA0), (0x1680, 0x1680),
    (0x2000, 0x200A), (0x2028, 0x2029), (0x202F, 0x202F), (0x205F, 0x205F), (0x3000, 0x3000)
  ]

  /** `n` lies in one of `ranges`. */
  predicate InRanges(n: int, ranges: seq<(int, int)>) {
    ranges != [] && ((ranges[0].0 <= n <= ranges[0].1) || InRanges(n, ranges[1..]))
  }

  /** Python's `c.isspace()`. */
  predicate IsSpace(c: char) {
    InRanges(c as int, SpaceRanges)
  }

  predicate AllSpace(s: string) {
    forall i :: 0 <= i < |s| ==> IsSpace(s[i])
  }

  /** `s` neither starts nor ends with white space. */
  predicate Trimmed(s: string) {
    s == [] || (!IsSpace(s[0]) && !IsSpace(s[|s| - 1]))
  }

  /** Python's `s.lstrip()`. */
  function LStrip(s: string): (r: string)
    ensures |r| <= |s| && r == s[|s| - |r|..]
    ensures AllSpace(s[..|s| - |r|])
    ensures r == [] || !IsSpace(r[0])
    decreases |s|
  {
    if s != [] && IsSpace(s[0]) then
      var r := LStrip(s[1..]);
      assert s[..|s| - |r|] == [s[0]] + s[1..][..|s| - 1 - |r|];
      r
    else s
  }

  /** Python's `s.rstrip()`. */
  function RStrip(s: string): (r: string)
    ensures |r| <= |s| && r == s[..|r|]
    ensures AllSpace(s[|r|..])
    ensures r == [] || !IsSpace(r[|r| - 1])
    decreases |s|
  {
    if s != [] && IsSpace(s[|s| - 1]) then
      var r := RStrip(s[..|s| - 1]);
      assert s[|r|..] == s[..|s| - 1][|r|..] + [s[|s| - 1]];
      r
    else s
  }

  /**
   * Python's `s.strip()`: `s` without its leading and trailing white space
   * (what `LStrip` and `RStrip` remove is white space only, from one end each).
   */
  function Strip(s: string): (r: string)
    ensures Trimmed(r)
    ensures |r| <= |s|
  {
    RStrip(LStrip(s))
  }

  /** Spaces around a trimmed text are exactly what `Strip` removes. */
  lemma {:induction false} StripSurrounded(pre: string, t: string, post: string)
    requires AllSpace(pre) && AllSpace(post) && Trimmed(t)
    ensures Strip(pre + t + post) == t
  {
    if t == [] {
      assert LStrip(pre + t + post) == [] by {
        assert pre + t + post == (pre + post) + [];
        assert AllSpace(pre + post);
        LStripSpaces(pre + post, []);
      }
    } else {
      assert LStrip(pre + t + post) == t + post by {
        assert pre + t + post == pre + (t + post);
        LStripSpaces(pre, t + post);
      }
      RStripSpaces(t, post);
    }
  }

  lemma {:induction false} LStripSpaces(pre: string, rest: string)
    requires AllSpace(pre)
    requires rest == [] || !IsSpace(rest[0])
    ensures LStrip(pre + rest) == rest
    decreases |pre|
  {
    if pre != [] {
      var s := pre + rest;
      assert LStrip(s) == LStrip(pre[1..] + rest) by {
        assert s[0] == pre[0] && IsSpace(s[0]);
        assert s[1..] == pre[1..] + rest;
      }
      assert AllSpace(pre[1..]) by {
        assert forall i :: 0 <= i < |pre[1..]| ==> pre[1..][i] == pre[i + 1];
      }
      LStripSpaces(pre[1..], rest);
    }
  }

  lemma {:induction false} RStripSpaces(rest: string, post: string)
    requires AllSpace(post)
    requires rest == [] || !IsSpace(rest[|rest| - 1])
    ensures RStrip(rest + post) == rest
    decreases |post|
  {
    if post != [] {
      var s := rest + post;
      assert s[..|s| - 1] == rest + post[..|post| - 1];
      RStripSpaces(rest, post[..|post| - 1]);
    }
  }

  /** Stripping twice is stripping once. */
  lemma StripIdempotent(s: string)
    ensures Strip(Strip(s)) == Strip(s)
  {
    var t := Strip(s);
    assert [] + t + [] == t;
    StripSurrounded([], t, []);
  }

  // ---------------------------------------------------------------------------
  // s.replace(a, b) for one-character arguments
  // ---------------------------------------------------------------------------

  /** Python's `s.replace(a, b)`: every `a` becomes `b`, nothing else changes. */
  function Replace(s: string, a: char, b: char): (r: string)
    ensures |r| == |s|
    ensures forall i :: 0 <= i < |s| ==> r[i] == if s[i] == a then b else s[i]
    decreases |s|
  {
    if s == [] then []
    else [if s[0] == a then b else s[0]] + Replace(s[1..], a, b)
  }
}
