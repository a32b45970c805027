/**
 * The handful of Rust `str` operations the workspace helper and the
 * puzzle solvers rely on, over strings modelled as `seq<char>`:
 * `trim`, `starts_with` / `strip_prefix` / `strip_suffix`, `find`,
 * `lines`, decimal `to_string`, `{:02}` padding and integer `parse`.
 */
module Text {
  import opened Wrappers

  // ---------------------------------------------------------------------
  // Whitespace and trimming
  // ---------------------------------------------------------------------

  /** Unicode White_Space, the set `str::trim` removes from both ends. */
  predicate IsWhitespace(c: char) {
    var n := c as int;
    || n == 0x20 || 0x09 <= n <= 0x0D || n == 0x85 || n == 0xA0 || n == 0x1680
    || 0x2000 <= n <= 0x200A || n == 0x2028 || n == 0x2029 || n == 0x202F
    || n == 0x205F || n == 0x3000
  }

  /** `str::trim_start`: drops the longest whitespace prefix. */
  function TrimStart(s: string): (r: string)
    ensures |r| <= |s| && r == s[|s| - |r|..]
    ensures forall i :: 0 <= i < |s| - |r| ==> IsWhitespace(s[i])
    ensures r == [] || !IsWhitespace(r[0])
  {
    if s != [] && IsWhitespace(s[0]) then TrimStart(s[1..]) else s
  }

  /** `str::trim_end`: drops the longest whitespace suffix. */
  function TrimEnd(s: string): (r: string)
    ensures |r| <= |s| && r == s[..|r|]
    ensures forall i :: |r| <= i < |s| ==> IsWhitespace(s[i])
    ensures r == [] || !IsWhitespace(r[|r| - 1])
  {
    if s != [] && IsWhitespace(s[|s| - 1]) then TrimEnd(s[..|s| - 1]) else s
  }

  predicate AllWhitespace(s: string) {
    forall i :: 0 <= i < |s| ==> IsWhitespace(s[i])
  }

  /** A prefix of a suffix of `s` is a slice of `s`, and what follows it is the rest of `s`. */
  lemma SliceOfSuffix(s: string, k: nat, t: string, r: string)
    requires k <= |s| && t == s[k..] && |r| <= |t| && r == t[..|r|]
    ensures k + |r| <= |s| && r == s[k..k + |r|] && s[k + |r|..] == t[|r|..]
  {
  }

  /**
   * Cutting a whitespace prefix of length `k` and then a whitespace suffix
   * keeps one slice of `s` with only whitespace on either side.
   */
  lemma TrimmedSlice(s: string, k: nat, t: string, r: string)
    requires k <= |s| && t == s[k..] && forall i :: 0 <= i < k ==> IsWhitespace(s[i])
    requires |r| <= |t| && r == t[..|r|] && forall i :: |r| <= i < |t| ==> IsWhitespace(t[i])
    ensures k <= |s| - |r| && r == s[k..k + |r|]
    ensures AllWhitespace(s[..k]) && AllWhitespace(s[k + |r|..])
  {
    SliceOfSuffix(s, k, t, r);
    assert AllWhitespace(s[..k]) by {
      forall i | 0 <= i < k ensures IsWhitespace(s[..k][i]) {
        assert s[..k][i] == s[i];
      }
    }
    assert AllWhitespace(t[|r|..]) by {
      forall i | 0 <= i < |t| - |r| ensures IsWhitespace(t[|r|..][i]) {
        assert t[|r|..][i] == t[|r| + i];
      }
    }
  }

  /**
   * `str::trim`: the result is a slice of `s` with only whitespace cut off
   * on either side, and it neither starts nor ends with whitespace.
   */
  function Trim(s: string): (r: string)
    ensures |r| <= |s|
    ensures exists k :: 0 <= k <= |s| - |r| && r == s[k..k + |r|]
                        && AllWhitespace(s[..k]) && AllWhitespace(s[k + |r|..])
    ensures r == [] || (!IsWhitespace(r[0]) && !IsWhitespace(r[|r| - 1]))
  {
    var t := TrimStart(s);
    var r := TrimEnd(t);
    TrimmedSlice(s, |s| - |t|, t, r);
    r
  }

  /** A string that already starts and ends with non-whitespace is its own trim. */
  lemma TrimIdentity(s: string)
    requires s != [] && !IsWhitespace(s[0]) && !IsWhitespace(s[|s| - 1])
    ensures Trim(s) == s
  {
  }

  // ---------------------------------------------------------------------
  // Prefixes, suffixes and searching
  // ---------------------------------------------------------------------

  predicate StartsWith(s: string, prefix: string) {
    |prefix| <= |s| && s[..|prefix|] == prefix
  }

  predicate EndsWith(s: string, suffix: string) {
    |suffix| <= |s| && s[|s| - |suffix|..] == suffix
  }

  /** `str::strip_prefix`. */
  function StripPrefix(s: string, prefix: string): (r: Option<string>)
    ensures r.Some? <==> StartsWith(s, prefix)
    ensures r.Some? ==> s == prefix + r.value
  {
    if StartsWith(s, prefix) then Some(s[|prefix|..]) else None
  }

  /** `str::strip_suffix`. */
  function StripSuffix(s: string, suffix: string): (r: Option<string>)
    ensures r.Some? <==> EndsWith(s, suffix)
    ensures r.Some? ==> s == r.value + suffix
  {
    if EndsWith(s, suffix) then Some(s[..|s| - |suffix|]) else None
  }

  lemma StripPrefixOfConcat(prefix: string, rest: string)
    ensures StripPrefix(prefix + rest, prefix) == Some(rest)
  {
    assert (prefix + rest)[..|prefix|] == prefix;
    assert (prefix + rest)[|prefix|..] == rest;
  }

  lemma StripSuffixOfConcat(rest: string, suffix: string)
    ensures StripSuffix(rest + suffix, suffix) == Some(rest)
  {
    assert (rest + suffix)[|rest|..] == suffix;
    assert (rest + suffix)[..|rest|] == rest;
  }

  /** `pat` occurs in `s` starting at index `i`. */
  predicate OccursAt(s: string, pat: string, i: int) {
    0 <= i && i + |pat| <= |s| && s[i..i + |pat|] == pat
  }

  /** The first occurrence of `pat` at or after `from`. */
  function FindFrom(s: string, pat: string, from: nat): (r: Option<nat>)
    ensures r.Some? ==> from <= r.value && OccursAt(s, pat, r.value)
    ensures r.Some? ==> forall j :: from <= j < r.value ==> !OccursAt(s, pat, j)
    ensures r.None? ==> forall j :: from <= j ==> !OccursAt(s, pat, j)
    decreases |s| - from
  {
    if from + |pat| > |s| then None
    else if s[from..from + |pat|] == pat then Some(from)
    else FindFrom(s, pat, from + 1)
  }

  /** `str::find`: the index of the first occurrence of `pat`, if any. */
  function Find(s: string, pat: string): (r: Option<nat>)
    ensures r.Some? ==> OccursAt(s, pat, r.value)
    ensures r.Some? ==> forall j :: 0 <= j < r.value ==> !OccursAt(s, pat, j)
    ensures r.None? <==> forall j :: !OccursAt(s, pat, j)
  {
    FindFrom(s, pat, 0)
  }

  /** `str::contains`. */
  predicate Contains(s: string, pat: string) {
    Find(s, pat).Some?
  }

  /** Any occurrence makes `Contains` true, and `Find` reports one no later. */
  lemma OccurrenceIsFound(s: string, pat: string, i: int)
    requires OccursAt(s, pat, i)
    ensures Contains(s, pat) && Find(s, pat).value <= i
  {
  }

  /** An occurrence inside a slice is an occurrence of the whole string. */
  lemma OccursInConcat(a: string, b: string, c: string, pat: string)
    requires Contains(b, pat)
    ensures Contains(a + b + c, pat)
  {
    var i := Find(b, pat).value;
    var s := a + b + c;
    assert s[|a| + i..|a| + i + |pat|] == b[i..i + |pat|];
    OccurrenceIsFound(s, pat, |a| + i);
  }

  /** The text before the first occurrence contains no occurrence. */
  lemma NothingBeforeFirst(s: string, pat: string, i: nat)
    requires pat != [] && Find(s, pat) == Some(i)
    ensures i <= |s| && !Contains(s[..i], pat)
  {
    forall j | OccursAt(s[..i], pat, j)
      ensures false
    {
      assert s[..i][j..j + |pat|] == s[j..j + |pat|];
      assert OccursAt(s, pat, j);
    }
  }

  /** Occurrences in a suffix are occurrences in the whole string, shifted. */
  lemma OccursInSuffix(s: string, pat: string, k: nat, j: int)
    requires k <= |s|
    ensures OccursAt(s[k..], pat, j) <==> j >= 0 && OccursAt(s, pat, k + j)
  {
    if 0 <= j && j + |pat| <= |s| - k {
      assert s[k..][j..j + |pat|] == s[k + j..k + j + |pat|];
    }
  }

  /** Searching a suffix finds the first occurrence at or after where the suffix starts. */
  lemma FindInSuffix(s: string, pat: string, k: nat)
    requires k <= |s|
    ensures Find(s[k..], pat).None? <==> FindFrom(s, pat, k).None?
    ensures Find(s[k..], pat).Some? ==> k + Find(s[k..], pat).value == FindFrom(s, pat, k).value
  {
    forall j | true
      ensures OccursAt(s[k..], pat, j) <==> j >= 0 && OccursAt(s, pat, k + j)
    {
      OccursInSuffix(s, pat, k, j);
    }
    match FindFrom(s, pat, k)
    case None =>
    case Some(m) =>
      assert OccursAt(s[k..], pat, m - k);
  }

  // ---------------------------------------------------------------------
  // Lines
  // ---------------------------------------------------------------------

  /** The index of the first `'\n'` at or after `from`, or `|s|` if none. */
  function LineEnd(s: string, from: nat): (r: nat)
    requires from <= |s|
    ensures from <= r <= |s|
    ensures r < |s| ==> s[r] == '\n'
    ensures forall j :: from <= j < r ==> s[j] != '\n'
    decreases |s| - from
  {
    if from == |s| || s[from] == '\n' then from else LineEnd(s, from + 1)
  }

  /** Removes one `'\r'` that ended a `"\r\n"` terminator. */
  function StripCarriageReturn(line: string): string {
    if line != [] && line[|line| - 1] == '\r' then line[..|line| - 1] else line
  }

  /**
   * `str::lines`: split at `'\n'`; a line terminated by `"\r\n"` loses the
   * `'\r'`; the final line terminator is optional, so no empty last line is
   * produced by a trailing `'\n'`, and the empty string has no lines.
   */
  function Lines(s: string): (r: seq<string>)
    ensures forall k :: 0 <= k < |r| ==> '\n' !in r[k]
    ensures s == [] <==> r == []
    decreases |s|
  {
    if s == [] then []
    else
      var i := LineEnd(s, 0);
      if i == |s| then [s]
      else [StripCarriageReturn(s[..i])] + Lines(s[i + 1..])
  }

  /** The lines put back together with a `'\n'` between consecutive ones. */
  function JoinLines(lines: seq<string>): string {
    if lines == [] then []
    else if |lines| == 1 then lines[0]
    else lines[0] + "\n" + JoinLines(lines[1..])
  }

  /** The optional final terminator that `Lines` does not turn into an empty line. */
  function TrailingNewline(s: string): string {
    if s != [] && s[|s| - 1] == '\n' then "\n" else ""
  }

  /** A text with a line break: its first line, the break, and the lines of the rest. */
  lemma LinesFirst(s: string, i: nat)
    requires '\r' !in s && i == LineEnd(s, 0) && i < |s|
    ensures Lines(s) == [s[..i]] + Lines(s[i + 1..])
    ensures s == s[..i] + "\n" + s[i + 1..]
  {
    assert s[..i] == [] || s[..i][|s[..i]| - 1] == s[i - 1];
    assert s[i] == '\n';
    assert [s[i]] == "\n";
    assert s == s[..i] + [s[i]] + s[i + 1..];
  }

  /** A text without a line break is its own single line, with no terminator. */
  lemma LinesJoinNoBreak(s: string)
    requires s != [] && LineEnd(s, 0) == |s|
    ensures JoinLines(Lines(s)) + TrailingNewline(s) == s
  {
    assert s[|s| - 1] != '\n';
  }

  /** A text whose only line break is its last character: one line and the terminator. */
  lemma LinesJoinFinalBreak(s: string, i: nat)
    requires '\r' !in s && i == LineEnd(s, 0) && i == |s| - 1
    ensures JoinLines(Lines(s)) + TrailingNewline(s) == s
  {
    LinesFirst(s, i);
    assert s[i + 1..] == [];
    assert Lines(s) == [s[..i]];
    assert s == s[..i] + "\n";
  }

  /** The first line, a break, then the rest put back together by the same rule. */
  lemma LinesJoinBreak(s: string, i: nat)
    requires '\r' !in s && i == LineEnd(s, 0) && i < |s| - 1
    requires JoinLines(Lines(s[i + 1..])) + TrailingNewline(s[i + 1..]) == s[i + 1..]
    ensures JoinLines(Lines(s)) + TrailingNewline(s) == s
  {
    var first, rest := s[..i], s[i + 1..];
    LinesFirst(s, i);
    var tail := JoinLines(Lines(rest));
    assert Lines(rest) != [];
    assert JoinLines(Lines(s)) == first + "\n" + tail;
    assert TrailingNewline(rest) == TrailingNewline(s);
    ConcatAssoc(first + "\n", tail, TrailingNewline(s));
  }

  lemma ConcatAssoc(a: string, b: string, c: string)
    ensures (a + b) + c == a + (b + c)
  {
  }

  /** In `a + "\n" + b` with no break inside `a`, the first line ends right after `a`. */
  lemma LineEndOfJoin(a: string, b: string)
    requires '\n' !in a
    ensures LineEnd(a + "\n" + b, 0) == |a|
  {
    var s := a + "\n" + b;
    var r := LineEnd(s, 0);
    assert s[|a|] == '\n';
    assert forall j :: 0 <= j < |a| ==> s[j] == a[j];
  }

  /** A non-empty line with no line break in it and no carriage return at its end. */
  predicate PlainLine(line: string) {
    line != [] && '\n' !in line && line[|line| - 1] != '\r'
  }

  /**
   * Lines that are non-empty, hold no `'\n'` and do not end in `'\r'`
   * come back unchanged from `Lines` once joined with `'\n'`.
   */
  lemma {:induction false} LinesOfJoin(lines: seq<string>)
    requires forall k :: 0 <= k < |lines| ==> PlainLine(lines[k])
    ensures Lines(JoinLines(lines)) == lines
    decreases |lines|
  {
    if |lines| == 1 {
      assert LineEnd(lines[0], 0) == |lines[0]|;
    } else if |lines| > 1 {
      var rest := JoinLines(lines[1..]);
      assert JoinLines(lines) == lines[0] + "\n" + rest;
      LinesOfBreak(lines[0], rest);
      LinesOfJoin(lines[1..]);
    }
  }

  /** A plain line followed by a break is the first line, and the rest splits on its own. */
  lemma LinesOfBreak(a: string, b: string)
    requires PlainLine(a)
    ensures Lines(a + "\n" + b) == [a] + Lines(b)
  {
    var s := a + "\n" + b;
    LineEndOfJoin(a, b);
    assert s[..|a|] == a;
    assert s[|a| + 1..] == b;
  }

  /**
   * Without carriage returns, the lines joined by `'\n'`, followed by the
   * final terminator when there was one, give the text back.
   */
  lemma {:induction false} LinesJoin(s: string)
    requires '\r' !in s
    ensures JoinLines(Lines(s)) + TrailingNewline(s) == s
    decreases |s|
  {
    if s != [] {
      var i := LineEnd(s, 0);
      if i == |s| {
        LinesJoinNoBreak(s);
      } else if i == |s| - 1 {
        LinesJoinFinalBreak(s, i);
      } else {
        assert '\r' !in s[i + 1..];
        LinesJoin(s[i + 1..]);
        LinesJoinBreak(s, i);
      }
    }
  }

  // ---------------------------------------------------------------------
  // Decimal numbers
  // ---------------------------------------------------------------------

  const U8Max: int := 0xFF
  const U32Max: int := 0xFFFF_FFFF
  const I32Min: int := -0x8000_0000
  const I32Max: int := 0x7FFF_FFFF

  predicate IsDigit(c: char) {
    '0' <= c <= '9'
  }

  predicate AllDigits(s: string) {
    forall i :: 0 <= i < |s| ==> IsDigit(s[i])
  }

  function DigitValue(c: char): (d: nat)
    requires IsDigit(c)
    ensures d < 10
  {
    c as int - '0' as int
  }

  function DigitChar(d: nat): (c: char)
    requires d < 10
    ensures IsDigit(c) && DigitValue(c) == d
  {
    ('0' as int + d) as char
  }

  /** A non-empty run of ASCII digits. */
  predicate Decimal(s: string) {
    s != [] && AllDigits(s)
  }

  /** The base-10 value of a string of ASCII digits, most significant first. */
  function DigitsValue(s: string): nat
    requires AllDigits(s)
  {
    if s == [] then 0 else DigitsValue(s[..|s| - 1]) * 10 + DigitValue(s[|s| - 1])
  }

  /** Leading zeros do not change a decimal value. */
  lemma {:induction false} LeadingZero(s: string)
    requires AllDigits(s)
    ensures AllDigits(['0'] + s) && DigitsValue(['0'] + s) == DigitsValue(s)
  {
    if s != [] {
      assert (['0'] + s)[..|s|] == ['0'] + s[..|s| - 1];
      LeadingZero(s[..|s| - 1]);
    }
  }

  /** `to_string` of a non-negative integer: canonical decimal digits. */
  function NatToString(n: nat): (r: string)
    ensures |r| >= 1 && AllDigits(r)
    ensures DigitsValue(r) == n
    ensures r[0] == '0' ==> n == 0 && r == "0"
  {
    if n < 10 then [DigitChar(n)]
    else
      var r := NatToString(n / 10) + [DigitChar(n % 10)];
      assert r[..|r| - 1] == NatToString(n / 10);
      r
  }

  /** `to_string` of a signed integer: a `'-'` before the magnitude when negative. */
  function IntToString(n: int): (r: string)
    ensures |r| >= 1
    ensures n < 0 ==> r == ['-'] + NatToString(-n)
    ensures n >= 0 ==> r == NatToString(n)
  {
    if n < 0 then ['-'] + NatToString(-n) else NatToString(n)
  }

  /** `format!("{:02}", n)`: at least two digits, zero-padded on the left. */
  function Pad2(n: nat): (r: string)
    ensures |r| >= 2 && AllDigits(r) && DigitsValue(r) == n
    ensures n < 10 ==> |r| == 2
    ensures n >= 10 ==> r == NatToString(n)
  {
    var digits := NatToString(n);
    if n < 10 then
      LeadingZero(digits);
      ['0'] + digits
    else digits
  }

  /**
   * Rust's `parse::<uN>()`: an optional `'+'`, then at least one ASCII
   * digit and nothing else, with a value no larger than `max`.
   */
  function ParseUnsigned(s: string, max: nat): (r: Option<nat>)
    ensures r.Some? ==> r.value <= max
    ensures r.Some? <==> (Decimal(s) && DigitsValue(s) <= max)
                         || (s != [] && s[0] == '+' && Decimal(s[1..]) && DigitsValue(s[1..]) <= max)
    ensures r.Some? && Decimal(s) ==> r.value == DigitsValue(s)
    ensures r.Some? && s[0] == '+' ==> r.value == DigitsValue(s[1..])
  {
    var digits := if s != [] && s[0] == '+' then s[1..] else s;
    if digits == [] || !AllDigits(digits) then None
    else if DigitsValue(digits) <= max then Some(DigitsValue(digits))
    else None
  }

  /**
   * Rust's `parse::<iN>()`: an optional `'+'` or `'-'`, then at least one
   * ASCII digit and nothing else, with a value in `[min, max]`.
   */
  function ParseSigned(s: string, min: int, max: int): (r: Option<int>)
    ensures r.Some? ==> min <= r.value <= max
    ensures r.Some? <==> (Decimal(s) && min <= DigitsValue(s) <= max)
                         || (s != [] && s[0] == '+' && Decimal(s[1..]) && min <= DigitsValue(s[1..]) <= max)
                         || (s != [] && s[0] == '-' && Decimal(s[1..]) && min <= -(DigitsValue(s[1..]) as int) <= max)
    ensures r.Some? && Decimal(s) ==> r.value == DigitsValue(s)
    ensures r.Some? && s[0] == '+' ==> r.value == DigitsValue(s[1..])
    ensures r.Some? && s[0] == '-' ==> r.value == -(DigitsValue(s[1..]) as int)
  {
    var negative := s != [] && s[0] == '-';
    var digits := if s != [] && (s[0] == '+' || s[0] == '-') then s[1..] else s;
    if digits == [] || !AllDigits(digits) then None
    else
      var magnitude: int := DigitsValue(digits);
      var v := if negative then -magnitude else magnitude;
      if min <= v <= max then Some(v) else None
  }

  function ParseU8(s: string): Option<nat> { ParseUnsigned(s, U8Max) }
  function ParseU32(s: string): Option<nat> { ParseUnsigned(s, U32Max) }
  function ParseI32(s: string): Option<int> { ParseSigned(s, I32Min, I32Max) }

  /** Every in-range number's canonical decimal text parses back to it. */
  lemma ParseUnsignedRoundTrip(n: nat, max: nat)
    requires n <= max
    ensures ParseUnsigned(NatToString(n), max) == Some(n)
  {
  }

  /** Signed round trip, negative numbers included. */
  lemma ParseSignedRoundTrip(n: int, min: int, max: int)
    requires min <= n <= max
    ensures ParseSigned(IntToString(n), min, max) == Some(n)
  {
    var s := IntToString(n);
    if n < 0 {
      assert s[1..] == NatToString(-n);
    }
  }

  /** `{:02}` padding parses back as an unsigned number. */
  lemma ParsePad2(n: nat, max: nat)
    requires n <= max
    ensures ParseUnsigned(Pad2(n), max) == Some(n)
  {
  }
}
