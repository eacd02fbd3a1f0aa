/**
 * The skill extractor (`get_skills`): each feed item is given as the text of its
 * encoded content. From the first `Skills</b>:` marker up to the first `<br />`
 * after it, the comma-separated tokens are percent-decoded, trimmed and appended,
 * item after item, to one flat list. An item without the marker adds nothing.
 */
module Skills {
  import opened Wrappers
  import opened Strings
  import opened Percent
  import opened Seqs

  const Marker: string := "Skills</b>:"
  const LineBreak: string := "<br />"

  /** One entry of the result: `unquote(token).strip()`. */
  function Clean(token: string): (r: string)
    ensures Trimmed(r)
    ensures '%' !in token ==> r == Strip(token)
  {
    Strip(Unquote(token))
  }

  /** The part of the remainder that is kept: up to the first `<br />`, or all of it. */
  function KeptSegment(rest: string): (r: string)
    ensures !Contains(rest, LineBreak) ==> r == rest
    ensures Contains(rest, LineBreak) ==>
              IsFirst(rest, LineBreak, |r|) && rest == r + LineBreak + rest[|r| + |LineBreak|..]
  {
    SplitOnce(rest, LineBreak)[0]
  }

  /**
   * The text an item's skills are read from, or `None` when the item has no
   * marker (the `IndexError` that makes `get_skills` skip the item).
   */
  function SkillsSegment(content: string): (r: Option<string>)
    ensures r.None? <==> !Contains(content, Marker)
  {
    var parts := SplitOnce(content, Marker);
    if |parts| < 2 then None else Some(KeptSegment(parts[1]))
  }

  /** The entries one segment yields: one per comma-separated token, in order. */
  function Tokens(segment: string): (r: seq<string>)
    ensures |r| == Count(segment, ',') + 1
  {
    Map(Clean, Split(segment, ','))
  }

  /** No entry has white space at either end. */
  lemma TokensTrimmed(segment: string)
    ensures forall k :: 0 <= k < |Tokens(segment)| ==> Trimmed(Tokens(segment)[k])
  {
    var tokens := Split(segment, ',');
    forall k | 0 <= k < |tokens| ensures Trimmed(Tokens(segment)[k]) {
      assert Tokens(segment)[k] == Clean(tokens[k]);
    }
  }

  /** What one item adds to the result. */
  function ItemSkills(content: string): (r: seq<string>)
    ensures !Contains(content, Marker) ==> r == []
  {
    match SkillsSegment(content)
    case None => []
    case Some(segment) => Tokens(segment)
  }

  /** The specification of `get_skills`: every item's entries, in item order. */
  function Extract(items: seq<string>): seq<string>
  {
    if items == [] then []
    else Extract(items[..|items| - 1]) + ItemSkills(items[|items| - 1])
  }

  /**
   * `get_skills`: nested loops over the items and over each item's tokens,
   * appending to `result`; an item without the marker is skipped with `continue`.
   * There is no precondition: the extractor never aborts.
   */
  method GetSkills(items: seq<string>) returns (result: seq<string>)
    ensures result == Extract(items)
  {
    result := [];
    for i := 0 to |items|
      invariant result == Extract(items[..i])
    {
      var content := items[i];
      var parts := SplitOnce(content, Marker);
      if |parts| < 2 {
        assert Extract(items[..i + 1]) == result by {
          ExtractStep(items, i);
        }
        continue;
      }
      var skills := parts[1];
      skills := SplitOnce(skills, LineBreak)[0];
      var tokens := Split(skills, ',');
      result := AppendEntries(result, tokens);
      assert result == Extract(items[..i + 1]) by {
        assert ItemSkills(content) == Tokens(skills);
        ExtractStep(items, i);
      }
    }
    assert items[..|items|] == items;
  }

  /**
   * The inner loop of `get_skills`: appends `unquote(token).strip()` for every
   * token, in order, to the list built so far.
   */
  method AppendEntries(result: seq<string>, tokens: seq<string>) returns (extended: seq<string>)
    ensures extended == result + Map(Clean, tokens)
  {
    extended := result;
    for k := 0 to |tokens|
      invariant extended == result + Map(Clean, tokens[..k])
    {
      var skill := Unquote(tokens[k]);
      extended := extended + [Strip(skill)];
      assert Strip(skill) == Clean(tokens[k]);
      MapSnoc(Clean, result, tokens, k);
    }
    assert tokens[..|tokens|] == tokens;
  }

  lemma ExtractStep(items: seq<string>, i: nat)
    requires i < |items|
    ensures Extract(items[..i + 1]) == Extract(items[..i]) + ItemSkills(items[i])
  {
    assert items[..i + 1][..i] == items[..i];
  }

  // ---------------------------------------------------------------------------
  // Properties of the extractor
  // ---------------------------------------------------------------------------

  /** The result for a feed is the results for its parts, concatenated in order. */
  lemma {:induction false} ExtractAppend(a: seq<string>, b: seq<string>)
    ensures Extract(a + b) == Extract(a) + Extract(b)
    decreases |b|
  {
    if b != [] {
      var b' := b[..|b| - 1];
      assert (a + b)[..|a + b| - 1] == a + b';
      assert (a + b)[|a + b| - 1] == b[|b| - 1];
      ExtractAppend(a, b');
    } else {
      assert a + b == a;
    }
  }

  /** An item without the marker adds nothing, and the items after it still count. */
  lemma SkippedItem(before: seq<string>, content: string, after: seq<string>)
    requires !Contains(content, Marker)
    ensures Extract(before + [content] + after) == Extract(before) + Extract(after)
  {
    var mid := before + [content];
    assert Extract(mid) == Extract(before) by {
      ExtractStep(mid, |before|);
      assert mid[..|before| + 1] == mid && mid[..|before|] == before;
      assert ItemSkills(content) == [];
    }
    ExtractAppend(mid, after);
  }

  /**
   * Only the first marker matters: what follows it, further markers included,
   * is ordinary text, and the segment stops at the first `<br />` after it.
   */
  lemma FirstMarkerOnly(pre: string, post: string)
    requires forall j: nat :: j < |pre| ==> !OccursAt(pre + Marker + post, Marker, j)
    ensures SkillsSegment(pre + Marker + post) == Some(KeptSegment(post))
  {
    var s := pre + Marker + post;
    assert OccursAt(s, Marker, |pre|) by {
      assert s[|pre|..|pre| + |Marker|] == Marker;
    }
    var parts := SplitOnce(s, Marker);
    assert |parts| == 2;
    assert |parts[0]| == |pre| by {
      assert IsFirst(s, Marker, |parts[0]|);
    }
    assert parts[1] == post by {
      assert s[|pre| + |Marker|..] == post;
      assert parts[1] == s[|parts[0]| + |Marker|..];
    }
  }

  /**
   * An item with the marker adds exactly one entry more than its kept segment
   * has commas, each of them `unquote(token).strip()`, empty tokens included.
   */
  lemma ItemEntries(content: string)
    requires Contains(content, Marker)
    ensures var segment := SkillsSegment(content).value;
            var tokens := Split(segment, ',');
            ItemSkills(content) == Tokens(segment)
            && |ItemSkills(content)| == Count(segment, ',') + 1
            && forall k :: 0 <= k < |tokens| ==> ItemSkills(content)[k] == Strip(Unquote(tokens[k]))
  {
  }

  /** A kept segment ending in a comma gives a last entry that is empty. */
  lemma TrailingComma(segment: string)
    ensures var r := Tokens(segment + [',']);
            |r| == |Tokens(segment)| + 1 && r[..|r| - 1] == Tokens(segment) && r[|r| - 1] == []
  {
    var parts := Split(segment, ',');
    TokensTrailing(segment);
    MapLast(Clean, parts, []);
    CleanEmpty();
  }

  lemma TokensTrailing(segment: string)
    ensures Tokens(segment + [',']) == Map(Clean, Split(segment, ',') + [[]])
  {
    SplitTrailing(segment, ',');
  }

  lemma CleanEmpty()
    ensures Clean([]) == []
  {
    assert |Unquote([])| == 0;
  }

  /**
   * A skill written with its characters percent-escaped (`C%2B%2B` for `C++`)
   * cleans back to the skill.
   */
  lemma CleanEncoded(skill: string)
    requires forall i :: 0 <= i < |skill| ==> skill[i] as int < 256
    requires Trimmed(skill)
    ensures Clean(PercentEncode(skill)) == skill
  {
    assert Unquote(PercentEncode(skill)) == skill by {
      UnquoteEncode(skill);
    }
    assert Strip(skill) == skill by {
      assert [] + skill + [] == skill;
      StripSurrounded([], skill, []);
    }
  }

  /** No entry of the result has leading or trailing white space. */
  lemma {:induction false} ExtractTrimmed(items: seq<string>)
    ensures forall k :: 0 <= k < |Extract(items)| ==> Trimmed(Extract(items)[k])
    decreases |items|
  {
    if items != [] {
      ExtractTrimmed(items[..|items| - 1]);
      var last := items[|items| - 1];
      match SkillsSegment(last)
      case None =>
      case Some(segment) => TokensTrimmed(segment);
    }
  }

  /** A feed with no marker anywhere yields the empty list. */
  lemma {:induction false} NoMarkerNoSkills(items: seq<string>)
    requires forall i :: 0 <= i < |items| ==> !Contains(items[i], Marker)
    ensures Extract(items) == []
    decreases |items|
  {
    if items != [] {
      NoMarkerNoSkills(items[..|items| - 1]);
    }
  }
}
