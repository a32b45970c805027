/**
 * The small HTML helpers used on the judge's response pages: dropping
 * angle-bracket tags with a two-state scanner, and pulling the text of the
 * first `<article>` block.
 */
module Extract {
  import opened Wrappers
  import Text

  predicate IsBracket(c: char) {
    c == '<' || c == '>'
  }

  predicate NoBrackets(s: string) {
    forall i :: 0 <= i < |s| ==> !IsBracket(s[i])
  }

  /**
   * The scanner from a given state: `'<'` enters a tag, `'>'` leaves one,
   * any other character is kept only outside a tag.
   */
  function Scan(s: string, inTag: bool): (out: string)
    ensures NoBrackets(out)
    ensures |out| <= |s|
    decreases |s|
  {
    if s == [] then []
    else if s[0] == '<' then Scan(s[1..], true)
    else if s[0] == '>' then Scan(s[1..], false)
    else if !inTag then [s[0]] + Scan(s[1..], inTag)
    else Scan(s[1..], inTag)
  }

  /** The scanner state after reading `s`. */
  function InTagAfter(s: string, inTag: bool): bool
    decreases |s|
  {
    if s == [] then inTag
    else InTagAfter(s[1..], if s[0] == '<' then true else if s[0] == '>' then false else inTag)
  }

  /** `strip_tags`: scan from outside any tag. */
  function StripTags(html: string): (out: string)
    ensures NoBrackets(out)
    ensures |out| <= |html|
  {
    Scan(html, false)
  }

  /** `sub` can be obtained from `s` by deleting characters. */
  predicate IsSubsequence(sub: string, s: string)
    decreases |s|
  {
    if s == [] then sub == []
    else
      || (sub != [] && sub[0] == s[0] && IsSubsequence(sub[1..], s[1..]))
      || IsSubsequence(sub, s[1..])
  }

  /** The scanner only deletes characters: its output is a subsequence of its input. */
  lemma {:induction false} ScanIsSubsequence(s: string, inTag: bool)
    ensures IsSubsequence(Scan(s, inTag), s)
    decreases |s|
  {
    if s != [] {
      var next := if s[0] == '<' then true else if s[0] == '>' then false else inTag;
      ScanIsSubsequence(s[1..], next);
      if !(s[0] == '<' || s[0] == '>' || inTag) {
        assert Scan(s, inTag)[1..] == Scan(s[1..], inTag);
      }
    }
  }

  lemma StripTagsIsSubsequence(html: string)
    ensures IsSubsequence(StripTags(html), html)
  {
    ScanIsSubsequence(html, false);
  }

  /** Outside a tag, text without brackets passes through unchanged. */
  lemma {:induction false} ScanNoBrackets(s: string)
    requires NoBrackets(s)
    ensures Scan(s, false) == s
    decreases |s|
  {
    if s != [] {
      ScanNoBrackets(s[1..]);
    }
  }

  lemma StripTagsNoBrackets(html: string)
    requires NoBrackets(html)
    ensures StripTags(html) == html
  {
    ScanNoBrackets(html);
  }

  /** Stripping twice is stripping once. */
  lemma StripTagsIdempotent(html: string)
    ensures StripTags(StripTags(html)) == StripTags(html)
  {
    ScanNoBrackets(StripTags(html));
  }

  /** The scanner over a concatenation continues from the state the first part leaves. */
  lemma {:induction false} ScanAppend(a: string, b: string, inTag: bool)
    ensures Scan(a + b, inTag) == Scan(a, inTag) + Scan(b, InTagAfter(a, inTag))
    decreases |a|
  {
    if a == [] {
      assert a + b == b;
    } else {
      assert (a + b)[0] == a[0];
      assert (a + b)[1..] == a[1..] + b;
      var next := if a[0] == '<' then true else if a[0] == '>' then false else inTag;
      ScanAppend(a[1..], b, next);
    }
  }

  /** Inside a tag, nothing up to the next `'>'` is output, and the scanner stays in the tag. */
  lemma {:induction false} ScanInsideTag(s: string)
    requires '>' !in s
    ensures Scan(s, true) == [] && InTagAfter(s, true)
    decreases |s|
  {
    if s != [] {
      ScanInsideTag(s[1..]);
    }
  }

  /** A `'<'` through the next `'>'` is dropped and the scanner resumes outside a tag. */
  lemma TagDropped(body: string, inTag: bool)
    requires '>' !in body
    ensures Scan(['<'] + body + ['>'], inTag) == [] && !InTagAfter(['<'] + body + ['>'], inTag)
  {
    ScanAppend(['<'] + body, ['>'], inTag);
    ScanAppend(['<'], body, inTag);
    ScanInsideTag(body);
    InTagAfterAppend(['<'], body, inTag);
    InTagAfterAppend(['<'] + body, ['>'], inTag);
  }

  lemma {:induction false} InTagAfterAppend(a: string, b: string, inTag: bool)
    ensures InTagAfter(a + b, inTag) == InTagAfter(b, InTagAfter(a, inTag))
    decreases |a|
  {
    if a == [] {
      assert a + b == b;
    } else {
      assert (a + b)[0] == a[0];
      assert (a + b)[1..] == a[1..] + b;
      var next := if a[0] == '<' then true else if a[0] == '>' then false else inTag;
      InTagAfterAppend(a[1..], b, next);
    }
  }

  /** A complete tag between two texts disappears and the texts are stripped independently. */
  lemma StripTagsRemovesTag(before: string, body: string, after: string)
    requires !InTagAfter(before, false) && '>' !in body
    ensures StripTags(before + (['<'] + body + ['>']) + after) == StripTags(before) + StripTags(after)
  {
    var tag := ['<'] + body + ['>'];
    ScanAppend(before + tag, after, false);
    ScanAppend(before, tag, false);
    InTagAfterAppend(before, tag, false);
    TagDropped(body, false);
  }

  /** An unclosed `'<'` drops everything after it. */
  lemma StripTagsUnclosed(before: string, rest: string)
    requires '>' !in rest
    ensures StripTags(before + ['<'] + rest) == StripTags(before)
  {
    ScanAppend(before, ['<'] + rest, false);
    assert (['<'] + rest)[1..] == rest;
    ScanInsideTag(rest);
    assert before + ['<'] + rest == before + (['<'] + rest);
  }

  const ArticleOpen: string := "<article"
  const ArticleClose: string := "</article>"

  /**
   * `extract_article_text`: the stripped text from the first `<article`
   * up to, not including, the first `</article>` at or after it; `None`
   * when either is missing.
   */
  function ExtractArticleText(html: string): (r: Option<string>)
    ensures r.None? <==>
              Text.Find(html, ArticleOpen).None? ||
              Text.FindFrom(html, ArticleClose, Text.Find(html, ArticleOpen).value).None?
    ensures r.Some? ==> NoBrackets(r.value)
    ensures r.Some? ==>
              var start := Text.Find(html, ArticleOpen).value;
              r.value == StripTags(html[start..Text.FindFrom(html, ArticleClose, start).value])
  {
    match Text.Find(html, ArticleOpen)
    case None => None
    case Some(start) =>
      Text.FindInSuffix(html, ArticleClose, start);
      match Text.Find(html[start..], ArticleClose)
      case None => None
      case Some(endRel) => Some(StripTags(html[start..start + endRel]))
  }
}
