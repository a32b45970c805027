/**
 * The decision logic of the `solve` subcommand: which binary it runs,
 * what it reads back from the solver's output, and what the user's
 * choice of part leads to.
 */
module Solve {
  import opened Wrappers
  import Text
  import Paths

  /** The build profile. */
  datatype RunMode = Debug | Release

  /** `d{day:02}`: the binary that `cargo build --bin` produces for a day. */
  function BinaryName(day: nat): string {
    Paths.DayStem(day)
  }

  /** The binary built for a day is the one compiled from the file `new` creates. */
  lemma BinaryMatchesSourceFile(day: nat)
    ensures Paths.DayFileName(day) == BinaryName(day) + ".rs"
    ensures Text.StripSuffix(Paths.DayFileName(day), ".rs") == Some(BinaryName(day))
  {
    Text.StripSuffixOfConcat(BinaryName(day), ".rs");
  }

  /** The profile directory under `target`. */
  function Profile(mode: RunMode): string {
    if mode == Release then "release" else "debug"
  }

  /** `target/<profile>/<bin>` for any binary name. */
  function TargetPath(mode: RunMode, bin: string): Paths.Path {
    Paths.Join(Paths.Join("target", Profile(mode)), bin)
  }

  /** `target/release/<bin>` or `target/debug/<bin>`. */
  function TargetBinary(mode: RunMode, day: nat): Paths.Path {
    TargetPath(mode, BinaryName(day))
  }

  /** The profile directory decides the prefix and the binary name is what follows it. */
  lemma TargetPathLayout(mode: RunMode, bin: string)
    ensures mode == Release <==> Text.StartsWith(TargetPath(mode, bin), "target/release/")
    ensures mode == Debug <==> Text.StartsWith(TargetPath(mode, bin), "target/debug/")
    ensures Text.StripPrefix(TargetPath(mode, bin), if mode == Release then "target/release/" else "target/debug/")
            == Some(bin)
  {
    var prefix := if mode == Release then "target/release/" else "target/debug/";
    assert TargetPath(mode, bin) == prefix + bin;
    Text.StripPrefixOfConcat(prefix, bin);
    assert TargetPath(mode, bin)[7] == prefix[7];
  }

  /** Release builds are looked up under `target/release`, debug builds under `target/debug`. */
  lemma TargetBinaryLayout(mode: RunMode, day: nat)
    ensures mode == Release <==> Text.StartsWith(TargetBinary(mode, day), "target/release/")
    ensures mode == Debug <==> Text.StartsWith(TargetBinary(mode, day), "target/debug/")
    ensures Text.StripPrefix(TargetBinary(mode, day), if mode == Release then "target/release/" else "target/debug/")
            == Some(BinaryName(day))
  {
    TargetPathLayout(mode, BinaryName(day));
  }

  const Part1Marker: string := "Part 1:"
  const Part2Marker: string := "Part 2:"

  /** The trimmed text after `marker` on `line`. */
  function AnswerOn(line: string, marker: string): string
    requires Text.StartsWith(line, marker)
  {
    Text.Trim(line[|marker|..])
  }

  /** No line with index in `lo..hi` starts with `marker`. */
  ghost predicate Unmarked(lines: seq<string>, lo: nat, hi: nat, marker: string)
    requires hi <= |lines|
  {
    forall j :: lo <= j < hi ==> !Text.StartsWith(lines[j], marker)
  }

  /** The index of the last of the first `n` lines that starts with `marker`, if any. */
  function LastMarked(lines: seq<string>, n: nat, marker: string): (r: Option<nat>)
    requires n <= |lines|
    ensures r.None? <==> Unmarked(lines, 0, n, marker)
    ensures r.Some? ==> r.value < n && Text.StartsWith(lines[r.value], marker)
                        && Unmarked(lines, r.value + 1, n, marker)
  {
    if n == 0 then None
    else if Text.StartsWith(lines[n - 1], marker) then Some(n - 1)
    else LastMarked(lines, n - 1, marker)
  }

  /** The answer of the last of the first `n` lines that starts with `marker`. */
  function AnswerAmong(lines: seq<string>, n: nat, marker: string): Option<string>
    requires n <= |lines|
  {
    match LastMarked(lines, n, marker)
    case None => None
    case Some(i) => Some(AnswerOn(lines[i], marker))
  }

  /** The answer on the last line starting with `marker`; `None` when no line does. */
  function LastAnswerOf(lines: seq<string>, marker: string): (a: Option<string>)
    ensures a.None? <==> Unmarked(lines, 0, |lines|, marker)
    ensures a.Some? ==> exists i :: 0 <= i < |lines| && Text.StartsWith(lines[i], marker)
                         && a.value == AnswerOn(lines[i], marker) && Unmarked(lines, i + 1, |lines|, marker)
  {
    AnswerAmong(lines, |lines|, marker)
  }

  /** One line of the scan: a line starting with `marker` replaces the answer with the trimmed rest of the line. */
  function UpdateAnswer(line: string, marker: string, answer: Option<string>): (r: Option<string>)
    ensures r == if Text.StartsWith(line, marker) then Some(AnswerOn(line, marker)) else answer
  {
    match Text.StripPrefix(line, marker)
    case Some(rest) => Some(Text.Trim(rest))
    case None => answer
  }

  /** Reading one more line updates the last answer as the scan does. */
  lemma AnswerAmongStep(lines: seq<string>, k: nat, marker: string)
    requires k < |lines|
    ensures AnswerAmong(lines, k + 1, marker) == UpdateAnswer(lines[k], marker, AnswerAmong(lines, k, marker))
  {
  }

  /**
   * The output scan: every line starting with `Part 1:` or `Part 2:`
   * overwrites that part's answer with its trimmed remainder.
   */
  method ScanOutput(text: string) returns (part1: Option<string>, part2: Option<string>)
    ensures part1 == LastAnswerOf(Text.Lines(text), Part1Marker)
    ensures part2 == LastAnswerOf(Text.Lines(text), Part2Marker)
  {
    part1, part2 := ScanLines(Text.Lines(text));
  }

  /** The scan over the output already split into lines. */
  method ScanLines(lines: seq<string>) returns (part1: Option<string>, part2: Option<string>)
    ensures part1 == LastAnswerOf(lines, Part1Marker)
    ensures part2 == LastAnswerOf(lines, Part2Marker)
  {
    part1, part2 := None, None;
    var k := 0;
    while k < |lines|
      invariant 0 <= k <= |lines|
      invariant part1 == AnswerAmong(lines, k, Part1Marker)
      invariant part2 == AnswerAmong(lines, k, Part2Marker)
    {
      var line := lines[k];
      AnswerAmongStep(lines, k, Part1Marker);
      AnswerAmongStep(lines, k, Part2Marker);
      part1 := UpdateAnswer(line, Part1Marker, part1);
      part2 := UpdateAnswer(line, Part2Marker, part2);
      k := k + 1;
    }
  }

  /** What the session does after the prompt. */
  datatype Decision = Skip | Submit(part: nat, answer: string)

  datatype SolveError = InvalidSelection(choice: string) | MissingOutput(part: nat)

  /**
   * The choice dispatch: `1` or `2` submits that part's detected answer,
   * an empty line skips, anything else is rejected; the choice is trimmed
   * first, and a part with no detected answer is an error.
   */
  function Choose(input: string, part1: Option<string>, part2: Option<string>): (r: Result<Decision, SolveError>)
    ensures r == Success(Skip) <==> Text.Trim(input) == ""
    ensures r.Success? && r.value.Submit? <==>
              (Text.Trim(input) == "1" && part1.Some?) || (Text.Trim(input) == "2" && part2.Some?)
    ensures r.Success? && r.value.Submit? ==>
              (r.value.part == 1 && Some(r.value.answer) == part1) || (r.value.part == 2 && Some(r.value.answer) == part2)
    ensures r.Failure? && r.error.InvalidSelection? <==> Text.Trim(input) !in {"1", "2", ""}
    ensures r.Failure? && r.error.MissingOutput? ==>
              (r.error.part == 1 && part1.None?) || (r.error.part == 2 && part2.None?)
    ensures Text.Trim(input) == "1" ==>
              r == (if part1.Some? then Success(Submit(1, part1.value)) else Failure(MissingOutput(1)))
    ensures Text.Trim(input) == "2" ==>
              r == (if part2.Some? then Success(Submit(2, part2.value)) else Failure(MissingOutput(2)))
  {
    var choice := Text.Trim(input);
    if choice == "1" then
      match part1
      case Some(answer) => Success(Submit(1, answer))
      case None => Failure(MissingOutput(1))
    else if choice == "2" then
      match part2
      case Some(answer) => Success(Submit(2, answer))
      case None => Failure(MissingOutput(2))
    else if choice == "" then Success(Skip)
    else Failure(InvalidSelection(choice))
  }
}
