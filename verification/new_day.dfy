/**
 * The `new` subcommand: pick a template by kind, substitute the year for
 * every `{YEAR}`, and write `crates/aoc{year}/src/bin/d{day:02}.rs` unless
 * that file already exists.
 */
module NewDay {
  import opened Wrappers
  import Text
  import Paths

  datatype TemplateKind = Minimal | Buffered | Streaming | Fast

  /** The four template texts; their contents are opaque to this model. */
  datatype Templates = Templates(minimal: string, buffered: string, streaming: string, fast: string)

  predicate DistinctTemplates(t: Templates) {
    && t.minimal != t.buffered && t.minimal != t.streaming && t.minimal != t.fast
    && t.buffered != t.streaming && t.buffered != t.fast && t.streaming != t.fast
  }

  /** Each kind selects its own template. */
  function TemplateFor(kind: TemplateKind, t: Templates): string {
    match kind
    case Minimal => t.minimal
    case Buffered => t.buffered
    case Streaming => t.streaming
    case Fast => t.fast
  }

  /** Distinct templates are never confused: different kinds give different texts. */
  lemma TemplateForInjective(t: Templates, k1: TemplateKind, k2: TemplateKind)
    requires DistinctTemplates(t)
    ensures TemplateFor(k1, t) == TemplateFor(k2, t) <==> k1 == k2
  {
  }

  // ---------------------------------------------------------------------
  // `str::replace`
  // ---------------------------------------------------------------------

  /** `str::replace`: every non-overlapping occurrence, left to right, becomes `rep`. */
  function Replace(s: string, pat: string, rep: string): (r: string)
    requires pat != []
    decreases |s|
  {
    match Text.Find(s, pat)
    case None => s
    case Some(i) => s[..i] + rep + Replace(s[i + |pat|..], pat, rep)
  }

  /** The text between the occurrences `Replace` rewrites. */
  function Split(s: string, pat: string): (pieces: seq<string>)
    requires pat != []
    ensures |pieces| >= 1
    ensures forall k :: 0 <= k < |pieces| ==> !Text.Contains(pieces[k], pat)
    decreases |s|
  {
    match Text.Find(s, pat)
    case None => [s]
    case Some(i) =>
      Text.NothingBeforeFirst(s, pat, i);
      [s[..i]] + Split(s[i + |pat|..], pat)
  }

  /** The pieces put back together with `sep` between consecutive ones. */
  function JoinWith(pieces: seq<string>, sep: string): string
    requires |pieces| >= 1
  {
    if |pieces| == 1 then pieces[0] else pieces[0] + sep + JoinWith(pieces[1..], sep)
  }

  /** Splitting at the first occurrence: the first piece, then the pieces of the rest. */
  lemma SplitFirst(s: string, pat: string, i: nat)
    requires pat != [] && Text.Find(s, pat) == Some(i)
    ensures Split(s, pat) == [s[..i]] + Split(s[i + |pat|..], pat)
    ensures s == s[..i] + pat + s[i + |pat|..]
  {
    assert s[i..i + |pat|] == pat;
    assert s == s[..i] + s[i..i + |pat|] + s[i + |pat|..];
  }

  /** Joining the pieces with the pattern gives the original text back. */
  lemma {:induction false} SplitJoinRoundTrip(s: string, pat: string)
    requires pat != []
    ensures JoinWith(Split(s, pat), pat) == s
    decreases |s|
  {
    match Text.Find(s, pat)
    case None =>
    case Some(i) =>
      var rest := s[i + |pat|..];
      SplitFirst(s, pat, i);
      SplitJoinRoundTrip(rest, pat);
      assert Split(s, pat)[1..] == Split(rest, pat);
  }

  /**
   * Text outside the occurrences is preserved in order: `Replace` is the
   * pieces joined with the replacement.
   */
  lemma {:induction false} ReplaceJoinsPieces(s: string, pat: string, rep: string)
    requires pat != []
    ensures JoinWith(Split(s, pat), rep) == Replace(s, pat, rep)
    decreases |s|
  {
    match Text.Find(s, pat)
    case None =>
    case Some(i) =>
      var rest := s[i + |pat|..];
      SplitFirst(s, pat, i);
      ReplaceJoinsPieces(rest, pat, rep);
      assert Split(s, pat)[1..] == Split(rest, pat);
  }

  /**
   * Each of the occurrences between the pieces changes the length by
   * `|rep| - |pat|`, and nothing else changes it.
   */
  lemma {:induction false} ReplaceLength(s: string, pat: string, rep: string)
    requires pat != []
    ensures |Replace(s, pat, rep)| == |s| + (|Split(s, pat)| - 1) * (|rep| - |pat|)
    decreases |s|
  {
    match Text.Find(s, pat)
    case None =>
    case Some(i) =>
      var rest := s[i + |pat|..];
      ReplaceLength(rest, pat, rep);
      ReplaceFirstLengths(s, pat, rep, i);
      LengthStep(i, |pat|, |rep|, |rest|, |Replace(rest, pat, rep)|, |Split(rest, pat)| - 1);
  }

  /** The lengths involved in replacing the first occurrence, at `i`. */
  lemma ReplaceFirstLengths(s: string, pat: string, rep: string, i: nat)
    requires pat != [] && Text.Find(s, pat) == Some(i)
    ensures i + |pat| <= |s|
    ensures |Replace(s, pat, rep)| == i + |rep| + |Replace(s[i + |pat|..], pat, rep)|
    ensures |s| == i + |pat| + |s[i + |pat|..]|
    ensures |Split(s, pat)| == 1 + |Split(s[i + |pat|..], pat)|
  {
    SplitFirst(s, pat, i);
  }

  /** One more replaced occurrence adds one more `q - p` to the length. */
  lemma LengthStep(i: int, p: int, q: int, restLen: int, restOut: int, n: int)
    requires restOut == restLen + n * (q - p)
    ensures i + q + restOut == (i + p + restLen) + (n + 1) * (q - p)
  {
  }

  /** No character of `a` occurs in `b`. */
  predicate DisjointChars(a: string, b: string) {
    forall i, j :: 0 <= i < |a| && 0 <= j < |b| ==> a[i] != b[j]
  }

  /**
   * Gluing two texts free of `pat` around a non-empty text that shares no
   * character with `pat` cannot create an occurrence of `pat`.
   */
  lemma NoOccurrenceAcross(a: string, mid: string, b: string, pat: string)
    requires pat != [] && mid != [] && DisjointChars(mid, pat)
    requires !Text.Contains(a, pat) && !Text.Contains(b, pat)
    ensures !Text.Contains(a + mid + b, pat)
  {
    var s := a + mid + b;
    forall j: int
      ensures !Text.OccursAt(s, pat, j)
    {
      if j < 0 || j + |pat| > |s| {
      } else if j + |pat| <= |a| {
        NotInLeft(a, mid + b, pat, j);
        assert s == a + (mid + b);
      } else if j >= |a| + |mid| {
        NotInRight(a + mid, b, pat, j);
      } else {
        NotOverMiddle(a, mid, b, pat, j);
      }
    }
  }

  /** An occurrence wholly inside `a` would be an occurrence in `a`. */
  lemma NotInLeft(a: string, rest: string, pat: string, j: int)
    requires 0 <= j && j + |pat| <= |a| && !Text.Contains(a, pat)
    ensures !Text.OccursAt(a + rest, pat, j)
  {
    assert (a + rest)[j..j + |pat|] == a[j..j + |pat|];
    assert !Text.OccursAt(a, pat, j);
  }

  /** An occurrence wholly inside `b` would be an occurrence in `b`. */
  lemma NotInRight(front: string, b: string, pat: string, j: int)
    requires |front| <= j && j + |pat| <= |front| + |b| && !Text.Contains(b, pat)
    ensures !Text.OccursAt(front + b, pat, j)
  {
    var k := j - |front|;
    assert (front + b)[j..j + |pat|] == b[k..k + |pat|];
    assert !Text.OccursAt(b, pat, k);
  }

  /** A window that overlaps `mid` holds a character `pat` does not have. */
  lemma NotOverMiddle(a: string, mid: string, b: string, pat: string, j: int)
    requires pat != [] && mid != [] && DisjointChars(mid, pat)
    requires 0 <= j < |a| + |mid| && |a| < j + |pat| <= |a| + |mid| + |b|
    ensures !Text.OccursAt(a + mid + b, pat, j)
  {
    var s := a + mid + b;
    var m := if j >= |a| then j else |a|;
    assert s[m] == mid[m - |a|];
    assert s[j..j + |pat|][m - j] == s[m];
    assert mid[m - |a|] != pat[m - j];
  }

  /** When the replacement shares no character with the pattern, no occurrence survives. */
  lemma {:induction false} ReplaceRemovesAll(s: string, pat: string, rep: string)
    requires pat != [] && rep != [] && DisjointChars(rep, pat)
    ensures !Text.Contains(Replace(s, pat, rep), pat)
    decreases |s|
  {
    match Text.Find(s, pat)
    case None =>
    case Some(i) =>
      var rest := s[i + |pat|..];
      ReplaceRemovesAll(rest, pat, rep);
      Text.NothingBeforeFirst(s, pat, i);
      NoOccurrenceAcross(s[..i], rep, Replace(rest, pat, rep), pat);
  }

  // ---------------------------------------------------------------------
  // Generating a day
  // ---------------------------------------------------------------------

  const YearPlaceholder: string := "{YEAR}"

  /** The generated source: the template with the decimal year for every `{YEAR}`. */
  function Render(template: string, year: nat): (contents: string)
    ensures !Text.Contains(contents, YearPlaceholder)
    ensures JoinWith(Split(template, YearPlaceholder), Text.NatToString(year)) == contents
  {
    var digits := Text.NatToString(year);
    assert DisjointChars(digits, YearPlaceholder) by {
      forall i, j | 0 <= i < |digits| && 0 <= j < |YearPlaceholder|
        ensures digits[i] != YearPlaceholder[j]
      {
        assert Text.IsDigit(digits[i]);
      }
    }
    ReplaceRemovesAll(template, YearPlaceholder, digits);
    ReplaceJoinsPieces(template, YearPlaceholder, digits);
    Replace(template, YearPlaceholder, digits)
  }

  datatype NewDayError = DayExists(day: nat, path: Paths.Path)

  /**
   * `new_day`: refuses when the day's file exists, and otherwise adds that
   * file with the rendered template, leaving every other file alone.
   */
  function CreateDay(fs: Paths.FileSystem, year: nat, day: nat, kind: TemplateKind, t: Templates)
    : (r: Result<Paths.FileSystem, NewDayError>)
    ensures r.Failure? <==> Paths.DayFilePath(year, day) in fs
    ensures r.Failure? ==> r.error.path == Paths.DayFilePath(year, day)
    ensures r.Success? ==> r.value.Keys == fs.Keys + {Paths.DayFilePath(year, day)}
    ensures r.Success? ==> r.value[Paths.DayFilePath(year, day)] == Render(TemplateFor(kind, t), year)
    ensures r.Success? ==> forall p :: p in fs ==> r.value[p] == fs[p]
  {
    var path := Paths.DayFilePath(year, day);
    if path in fs then Failure(DayExists(day, path))
    else Success(fs[path := Render(TemplateFor(kind, t), year)])
  }
}
