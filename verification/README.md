# Advent-of-Code workspace helper and solvers, modelled in Dafny

This project models the pure logic of a Rust workspace for Advent-of-Code-style puzzles. It has two parts.

**The puzzle solvers.**
- Day 1 is a 100-position dial. The dial starts at 50 and moves by `L<n>` / `R<n>` rotations. The model counts how many moves land on 0 and how many ticks pass through 0.
- Day 4 is a grid of paper rolls. A roll with fewer than four neighbouring rolls is accessible. The model removes all accessible rolls at once, round after round, until none is left.

**The `aocctl` helper's decision logic.**
- It strips HTML tags and extracts the `<article>` text.
- It detects the latest `aocYYYY` crate and the latest `dNN.rs` day.
- `new` names the day file and substitutes `{YEAR}` into the template.
- `init` inserts the workspace member.
- `solve` scans the solver output for `Part 1:` / `Part 2:` and dispatches on the user's choice.
- It resolves the input file path.

Strings are `seq<char>`. The file system is a map from each existing file's path to its contents, or a set of existing paths. A directory listing is a `seq<string>`, or `None` when the directory is missing. Interactive input and a solver's captured output are plain string parameters.

Files, one module each:
- `wrappers.dfy`: `Option` and `Result`.
- `text.dfy` (`Text`): the Rust `str` behaviour the code relies on. This covers Unicode `trim`, `find`, `lines` (including `\r\n`), `strip_prefix` / `strip_suffix`, decimal `to_string`, `{:02}`, and `parse::<u8/u32/i32>` (an optional sign, then ASCII digits, then a range check).
- `paths.dfy` (`Paths`): the workspace layout `crates/aoc{year}/src/bin/d{day:02}.rs`.
- `dial.dfy` (`Dial`): `crates/aoc2025/src/bin/d01.rs`.
- `rolls.dfy` (`Rolls`): `crates/aoc2025/src/bin/d04.rs`.
- `extract.dfy` (`Extract`): `crates/aocctl/src/utils/extract.rs`.
- `detect.dfy` (`Detect`): `crates/aocctl/src/utils/detect.rs`.
- `new_day.dfy` (`NewDay`): `crates/aocctl/src/commands/new.rs`.
- `init_year.dfy` (`InitYear`): `crates/aocctl/src/commands/init.rs`.
- `solve.dfy` (`Solve`): the output scan, the choice dispatch and the binary path of `crates/aocctl/src/commands/solve.rs`.
- `input_path.dfy` (`InputPath`): `crates/aocctl/src/utils/input.rs`.

Two behaviours of the day-1 code that are easy to miss:
- The distance is parsed as a signed `i32`, so `R+5` and `L-5` are accepted.
- A zero-length move that starts at 0 counts as a landing for part 1, because `part1` tests the position after the move. It adds no crossing for part 2.

## Model

| member | source | states |
|---|---|---|
| Text.Trim | crates/aoc2025/src/bin/d01.rs:23 | the result is one slice of the input with only Unicode whitespace before and after it, and it neither starts nor ends with whitespace |
| Text.Lines | crates/aoc2025/src/bin/d01.rs:46 | no line contains a newline; only the empty text has no lines |
| Text.LinesJoin | crates/aoc2025/src/bin/d01.rs:46 | for text without carriage returns, the lines joined by newlines, plus the final newline if the text had one, give the text back |
| Text.LinesOfJoin | crates/aoc2025/src/bin/d01.rs:46 | non-empty lines with no newline and no trailing carriage return, joined by newlines, split back into the same lines |
| Text.LinesOfBreak | crates/aoc2025/src/bin/d01.rs:46 | a plain line followed by a newline becomes the first line, and the rest is split on its own |
| Text.Find | crates/aocctl/src/utils/extract.rs:27 | `Some(i)` is an occurrence with no earlier occurrence; `None` exactly when there is no occurrence anywhere |
| Text.FindInSuffix | crates/aocctl/src/utils/extract.rs:28 | searching `s[k..]` finds the first occurrence at or after `k`, shifted by `k` |
| Text.NatToString | crates/aocctl/src/commands/new.rs:61 | the decimal text is non-empty, all digits, has no leading zero unless it is "0", and reads back as the number |
| Text.Pad2 | crates/aocctl/src/commands/new.rs:49 | `{:02}` gives at least two digits that read back as the number: exactly two below 10, and the plain decimal text from 10 on |
| Text.ParseUnsigned | crates/aocctl/src/utils/detect.rs:31-35 | accepts exactly an optional `+` followed by at least one ASCII digit and nothing else, with a value at most the maximum, and returns that value |
| Text.ParseSigned | crates/aoc2025/src/bin/d01.rs:34-37 | accepts exactly an optional `+` or `-` followed by at least one ASCII digit and nothing else, with a signed value in range, and returns that signed value |
| Text.ParseSignedRoundTrip | crates/aoc2025/src/bin/d01.rs:34-37 | every in-range integer's text, with its minus sign, parses back to the integer |
| Dial.ParseRotation | crates/aoc2025/src/bin/d01.rs:22-40 | `Empty` exactly when the trimmed line is empty; `InvalidDirection` exactly when the first character is not L/l/R/r, carrying its first UTF-8 byte; `InvalidDistance` exactly when the direction is valid but the rest does not parse as an i32; on success the direction comes from the first character and the distance is what the rest parses to |
| Dial.ParseLetterDistance | crates/aoc2025/src/bin/d01.rs:22-39 | any direction letter followed by an i32's decimal text parses to that direction and distance |
| Dial.ParseRotationText | crates/aoc2025/src/bin/d01.rs:22-39 | `R<n>` / `L<n>` parses to that rotation for every i32 `n`, negative ones included |
| Dial.ParseLowerCase | crates/aoc2025/src/bin/d01.rs:28-30 | `r<n>` / `l<n>` parse the same as the upper-case forms |
| Dial.ParsedRotationsComplete | crates/aoc2025/src/bin/d01.rs:44-48 | no line is dropped exactly when every line parses, and then the i-th rotation is the i-th line's |
| Dial.MappedSuccesses | crates/aoc2025/src/bin/d01.rs:47 | `filter_map(ok)` keeps every element exactly when every element maps to a success, and then keeps them in place |
| Dial.ParsedRotationLines | crates/aoc2025/src/bin/d01.rs:44-48 | the written lines of any i32 rotations parse back to those rotations |
| Dial.RotationsRoundTrip | crates/aoc2025/src/bin/d01.rs:44-48 | writing any i32 rotations one per line and reading the text back gives the same rotations in order |
| Dial.ParsedSingleLine | crates/aoc2025/src/bin/d01.rs:47 | a line contributes its rotation if it parses and nothing otherwise |
| Dial.ParsedRotationsAppend | crates/aoc2025/src/bin/d01.rs:44-48 | parsing a concatenation of line lists concatenates the results, so input order is kept |
| Dial.MalformedLineDropped | crates/aoc2025/src/bin/d01.rs:44-48 | inserting an unparsable line anywhere leaves the parsed rotations unchanged |
| Dial.Apply | crates/aoc2025/src/bin/d01.rs:51-54 | the new position is in [0,100) and congruent mod 100 to the old position plus the signed distance |
| Dial.FullTurn | crates/aoc2025/src/bin/d01.rs:52-53 | a move of 100 either way leaves every position unchanged |
| Dial.PositionStep | crates/aoc2025/src/bin/d01.rs:50-54 | one fold step takes the position after k moves, computed as 50 plus the net displacement mod 100, to the position after k+1 moves |
| Dial.CountLandings | crates/aoc2025/src/bin/d01.rs:50-59 | the fold counts exactly the moves after which the position, 50 plus the net displacement mod 100, is 0 |
| Dial.Part1 | crates/aoc2025/src/bin/d01.rs:43-62 | part 1 is the number of moves whose resulting position, from 50 plus the net displacement, is exactly 0 |
| Dial.TruncDiv | crates/aoc2025/src/bin/d01.rs:95 | Rust's `/` rounds toward zero: the remainder has the dividend's sign and is smaller than the divisor, including for a negative distance |
| Dial.StepsToZero | crates/aoc2025/src/bin/d01.rs:86-89 | the distance to the first 0 is in [0,100), is 0 exactly when the dial starts on 0, and a move of that many ticks in that direction ends on 0 |
| Dial.CountZeroCrossings | crates/aoc2025/src/bin/d01.rs:84-99 | for a non-negative distance the count is between 0 and distance/100 + 1 |
| Dial.CrossingsFirstTick | crates/aoc2025/src/bin/d01.rs:84-99 | the closed form equals "does the first tick land on 0" plus the closed form from the next position with one step fewer |
| Dial.CrossingsMatchWalk | crates/aoc2025/src/bin/d01.rs:84-99 | for start in [0,100) and steps >= 0, the closed form equals the number of single ticks in [1, steps] that land on 0, and the walk ends at `Apply`'s position |
| Dial.ZeroLengthMove | crates/aoc2025/src/bin/d01.rs:92-97 | a zero-length move crosses 0 no times |
| Dial.CrossingExamples | crates/aoc2025/src/bin/d01.rs:94-97 | moving right exactly to 0 crosses once; 200 ticks right from 0 crosses twice |
| Dial.FoldExamples | crates/aoc2025/src/bin/d01.rs:50-79 | `L50` lands once and crosses once; `R10, R90` moves 50 to 60 to 50, crossing once without landing |
| Dial.TickSimulationSplit | crates/aoc2025/src/bin/d01.rs:71-79 | the per-move closed-form crossings of a prefix, plus a tick-by-tick simulation of the remaining moves, equal the tick-by-tick simulation of the whole input |
| Dial.CrossingsAreTicks | crates/aoc2025/src/bin/d01.rs:64-82 | with non-negative distances, the closed-form crossings summed over the whole input equal a tick-by-tick count of landings on 0 |
| Dial.SumCrossings | crates/aoc2025/src/bin/d01.rs:70-79 | the fold adds each move's closed-form crossings, taken from the position before that move |
| Dial.Part2 | crates/aoc2025/src/bin/d01.rs:64-82 | part 2 sums each move's crossings from its pre-move position; for non-negative distances this equals a tick-by-tick simulation of the whole input |
| Rolls.ParseGrid | crates/aoc2025/src/bin/d04.rs:19-23 | one row per line, with no newline in a row; for text without carriage returns the rows joined by newlines give the input back |
| Rolls.DirectionsComplete | crates/aoc2025/src/bin/d04.rs:90-99 | every king-move offset other than (0,0) is one of the eight directions |
| Rolls.SeenAllIsAdjacent | crates/aoc2025/src/bin/d04.rs:103-116 | looking in the eight directions sees exactly the in-bounds roll cells adjacent to the cell |
| Rolls.SeenStep | crates/aoc2025/src/bin/d04.rs:103-116 | each direction reaches a cell no earlier direction reached, so the count grows by one exactly when that cell is an in-bounds roll |
| Rolls.CountAdjacentRolls | crates/aoc2025/src/bin/d04.rs:83-119 | the count is the number of in-bounds `@` cells adjacent to the cell, at most 8, never counting the cell itself; every read is in bounds on a grid whose rows cover the first row's width |
| Rolls.RowMajorCardinality | crates/aoc2025/src/bin/d04.rs:64-81 | a strictly row-major list has no duplicates: as many members as elements |
| Rolls.AccessibleListed | crates/aoc2025/src/bin/d04.rs:64-81 | a row-major list that holds exactly the accessible rolls has the accessible set as its members and the set's size as its length |
| Rolls.FindAccessibleRolls | crates/aoc2025/src/bin/d04.rs:64-81 | the result is exactly the set of `@` cells with fewer than 4 adjacent rolls, in strict row-major order |
| Rolls.PartOne | crates/aoc2025/src/bin/d04.rs:18-30 | part 1 is the number of accessible rolls in the parsed grid |
| Rolls.RemoveRolls | crates/aoc2025/src/bin/d04.rs:53-56 | the listed cells become `.`, every other cell is unchanged, and the shape is kept |
| Rolls.AccessibleAreRolls | crates/aoc2025/src/bin/d04.rs:71-72 | only roll cells are accessible |
| Rolls.ClearingRemovesRolls | crates/aoc2025/src/bin/d04.rs:53-58 | clearing a set of rolls removes exactly those from the roll set, so the roll count drops by their number |
| Rolls.RoundPreserves | crates/aoc2025/src/bin/d04.rs:46-59 | a round, computed on the whole grid before anything is removed, keeps the grid derived from the start only by clearing rolls, and lowers the roll count by the number of accessible rolls |
| Rolls.ClearedUnique | crates/aoc2025/src/bin/d04.rs:53-56 | clearing a set of cells has one outcome, whatever order the cells are cleared in |
| Rolls.ClearAccessibleShrinks | crates/aoc2025/src/bin/d04.rs:46-59 | a round with an accessible roll lowers the roll count by the number of accessible rolls |
| Rolls.Erode | crates/aoc2025/src/bin/d04.rs:32-62 | the rounds, each clearing all accessible rolls of the whole grid at once, end on a grid with no accessible roll and no more rolls than the start |
| Rolls.RemovedCountIsDifference | crates/aoc2025/src/bin/d04.rs:32-62 | the accessible counts summed over the rounds equal the initial minus the final roll count |
| Rolls.PartTwo | crates/aoc2025/src/bin/d04.rs:32-62 | the final grid is the one the rounds end on and the total is the sum of the rounds' accessible counts; no accessible roll is left; the total is the initial minus the final roll count; cells only change from `@` to `.`; the total is at least part 1 |
| Extract.Scan | crates/aocctl/src/utils/extract.rs:11-18 | the scanner's output has no `<` or `>` and is no longer than its input |
| Extract.StripTags | crates/aocctl/src/utils/extract.rs:7-21 | the output of `strip_tags` contains neither bracket |
| Extract.ScanIsSubsequence | crates/aocctl/src/utils/extract.rs:11-18 | the scanner only deletes characters: its output is a subsequence of its input |
| Extract.StripTagsIsSubsequence | crates/aocctl/src/utils/extract.rs:7-21 | `strip_tags`'s output is a subsequence of the HTML |
| Extract.ScanNoBrackets | crates/aocctl/src/utils/extract.rs:15 | outside a tag, bracket-free text passes through unchanged |
| Extract.StripTagsNoBrackets | crates/aocctl/src/utils/extract.rs:7-21 | text with no brackets is returned unchanged |
| Extract.StripTagsIdempotent | crates/aocctl/src/utils/extract.rs:7-21 | stripping twice equals stripping once |
| Extract.ScanAppend | crates/aocctl/src/utils/extract.rs:11-18 | scanning a concatenation scans the second part from the state the first part leaves |
| Extract.InTagAfterAppend | crates/aocctl/src/utils/extract.rs:13-14 | the state after a concatenation is the state after the second part started from the first part's final state |
| Extract.ScanInsideTag | crates/aocctl/src/utils/extract.rs:13-16 | inside a tag, text without `>` produces nothing and the scanner stays in the tag |
| Extract.TagDropped | crates/aocctl/src/utils/extract.rs:12-16 | a `<` through the next `>` produces nothing and leaves the scanner outside a tag |
| Extract.StripTagsRemovesTag | crates/aocctl/src/utils/extract.rs:12-16 | a complete tag between two texts disappears, and the two texts are stripped independently |
| Extract.StripTagsUnclosed | crates/aocctl/src/utils/extract.rs:12-16 | an unclosed `<` drops everything after it |
| Extract.ExtractArticleText | crates/aocctl/src/utils/extract.rs:26-31 | `None` exactly when `<article` is absent or no `</article>` occurs at or after its first occurrence; otherwise the stripped text from the first `<article` up to the next `</article>`, with no brackets |
| Detect.ParsedValues | crates/aocctl/src/utils/detect.rs:29-35 | the accepted values are exactly those parsed from some entry, and every entry that parses contributes |
| Detect.Maximum | crates/aocctl/src/utils/detect.rs:36 | `None` exactly for no values; otherwise a member that is at least every value |
| Detect.YearOfEntry | crates/aocctl/src/utils/detect.rs:31-35 | an entry names a year exactly when it is `aoc` followed by a u32-parsable suffix, and the year is that suffix |
| Detect.DayOfEntry | crates/aocctl/src/utils/detect.rs:55-60 | an entry names a day exactly when it is `d`, a u8-parsable number, then `.rs`, and the day is that number |
| Detect.Latest | crates/aocctl/src/utils/detect.rs:29-36 | `None` exactly when `parse` accepts no name; otherwise a value some name parses to that is at least every accepted value |
| Detect.DetectLatestYear | crates/aocctl/src/utils/detect.rs:23-39 | `None` exactly when `crates` is missing or no entry names a year; otherwise one entry's year that is at least every entry's year |
| Detect.DetectLatestDay | crates/aocctl/src/utils/detect.rs:45-64 | `None` exactly when `src/bin` is missing or no entry names a day; otherwise one entry's day that is at least every entry's day |
| Detect.ResolveYear | crates/aocctl/src/utils/detect.rs:9-17 | an explicit year is returned whatever the listing; without one it fails exactly when no year is detected, and otherwise returns the detected one |
| Detect.DayFileNameRoundTrip | crates/aocctl/src/utils/detect.rs:55-60 | for every u8 day, the file name `new` generates reads back as that day |
| Detect.CrateNameRoundTrip | crates/aocctl/src/utils/detect.rs:31-35 | for every u32 year, the crate directory name `aoc{year}` reads back as that year |
| Detect.DayNameExamples | crates/aocctl/src/utils/detect.rs:55-60 | `d1.rs` and `d01.rs` both mean day 1; `d256.rs` and `d1.txt` are ignored |
| NewDay.TemplateForInjective | crates/aocctl/src/commands/new.rs:54-59 | when the four templates differ, different kinds select different templates |
| NewDay.Split | crates/aocctl/src/commands/new.rs:61 | the text between the placeholder occurrences: at least one piece, and no piece contains the placeholder |
| NewDay.SplitFirst | crates/aocctl/src/commands/new.rs:61 | the text is its part before the first occurrence, then the pattern, then the rest |
| NewDay.SplitJoinRoundTrip | crates/aocctl/src/commands/new.rs:61 | the pieces joined with the pattern give back the template |
| NewDay.ReplaceJoinsPieces | crates/aocctl/src/commands/new.rs:61 | `replace` is the same pieces joined with the replacement, so text outside the placeholders is kept in order |
| NewDay.ReplaceLength | crates/aocctl/src/commands/new.rs:61 | each occurrence between the pieces changes the length by the replacement's length minus the pattern's, and nothing else changes it |
| NewDay.NoOccurrenceAcross | crates/aocctl/src/commands/new.rs:61 | gluing a non-empty text with no character of the pattern between two pattern-free texts creates no occurrence |
| NewDay.ReplaceRemovesAll | crates/aocctl/src/commands/new.rs:61 | when the replacement shares no character with the pattern, no occurrence survives |
| NewDay.Render | crates/aocctl/src/commands/new.rs:61 | the generated contents contain no `{YEAR}`, and are the template's pieces joined with the decimal year |
| NewDay.CreateDay | crates/aocctl/src/commands/new.rs:42-66 | fails exactly when `crates/aoc{year}/src/bin/d{day:02}.rs` exists, writing nothing; otherwise adds only that file, with the rendered template |
| InitYear.InsertMember | crates/aocctl/src/commands/init.rs:54-72 | unchanged if the quoted member is present or `members = [` is missing; otherwise the entry is inserted right after the first `members = [`, with the text around it preserved and the length grown by exactly the entry's length; afterwards the member is present |
| InitYear.InsertMemberIdempotent | crates/aocctl/src/commands/init.rs:58-63 | a second insertion changes nothing |
| InitYear.PathsDistinct | crates/aocctl/src/commands/init.rs:35-56 | the crate manifest, `lib.rs` and the workspace manifest are three different files |
| InitYear.WriteIfAbsent | crates/aocctl/src/commands/init.rs:49-52 | `lib.rs` is written only when missing: an existing file keeps its contents, and no other file changes |
| InitYear.UpdateWorkspace | crates/aocctl/src/commands/init.rs:54-72 | only the workspace manifest changes, to `InsertMember` of its contents, and only when it exists |
| InitYear.InitFiles | crates/aocctl/src/commands/init.rs:35-72 | for three distinct paths: the manifest is overwritten, `lib.rs` is kept or created, the workspace gets the member, and nothing else changes |
| InitYear.Init | crates/aocctl/src/commands/init.rs:11-76 | the crate manifest is always written; an existing `src/lib.rs` is kept, and a missing one is written with the fixed stdin-reader text; the workspace manifest gets the member insertion; no other file changes |
| Solve.BinaryMatchesSourceFile | crates/aocctl/src/commands/solve.rs:22 | the binary name `d{day:02}` is the day's source file name without `.rs` |
| Solve.TargetPathLayout | crates/aocctl/src/commands/solve.rs:43-47 | for any binary name, the release path starts with `target/release/` and the debug path with `target/debug/`, and the name is what follows that prefix |
| Solve.TargetBinaryLayout | crates/aocctl/src/commands/solve.rs:43-47 | release mode resolves to `target/release/<bin>` and debug mode to `target/debug/<bin>` |
| Solve.UpdateAnswer | crates/aocctl/src/commands/solve.rs:79-84 | a line starting with the marker replaces the answer with its trimmed remainder; any other line keeps the answer |
| Solve.LastMarked | crates/aocctl/src/commands/solve.rs:78-85 | the index found is a marked line with no marked line after it; `None` exactly when no line is marked |
| Solve.LastAnswerOf | crates/aocctl/src/commands/solve.rs:75-85 | `None` exactly when no output line starts with the marker; otherwise the trimmed remainder of a marked line after which no line is marked |
| Solve.AnswerAmongStep | crates/aocctl/src/commands/solve.rs:78-85 | reading one more line with `strip_prefix` and `trim` moves from the last answer among k lines to the last answer among k+1 lines |
| Solve.ScanLines | crates/aocctl/src/commands/solve.rs:78-85 | the forward scan over the lines ends with each part equal to the answer of the last line carrying that part's marker |
| Solve.ScanOutput | crates/aocctl/src/commands/solve.rs:75-85 | the forward scan ends with each part equal to the answer of the last line carrying that part's marker, which the backward reference definition finds |
| Solve.Choose | crates/aocctl/src/commands/solve.rs:93-107 | the trimmed choice `1` submits part 1's answer and `2` part 2's, each failing with that part's number if no answer was detected; an empty choice skips; anything else is an invalid selection |
| InputPath.ResolveInputPath | crates/aocctl/src/utils/input.rs:13-40 | for `puzzle`, the day's file is preferred, then `input.txt`, else an error; any other input succeeds exactly when that path exists; a success always names an existing path |
| InputPath.SpecificIsNotGeneric | crates/aocctl/src/utils/input.rs:16-19 | the day's input file and the shared one are different paths |

## Left out

- Command-line parsing and dispatch (`lib.rs`, `main.rs`, `commands.rs`) are not modelled. They are clap-derived and their behaviour is in the library.
- The HTTP code (`utils/http.rs`, `commands/input.rs`, `commands/submit.rs`, `commands/status.rs`) is not modelled. This includes the session cookie lookup and URL encoding.
- The subprocess half of `solve.rs` and `run.rs` is not modelled: building with cargo, checking that the built binary exists, piping the input file, and capturing output. `open.rs` (browser launch) is also left out. The captured output text and the typed choice are parameters of `Solve.ScanOutput` and `Solve.Choose`.
- Printing, timing with `Instant`, `f64` seconds and `list_templates` are not modelled; they are output only.
- The template texts in `templates.rs` are opaque strings in a `NewDay.Templates` value; their contents are not modelled.
- Directory creation (`create_dir_all`) and I/O errors from `read_dir`, `read_to_string` and `write` are not modelled. The file system is a map of files only, so directories are implicit. `new_day` creates the `src/bin` directory even when it then refuses; this is not visible in the model.
- Directory entries that fail to read, and non-UTF-8 file names (`to_string_lossy`), are not modelled. A listing is a sequence of names.
- Path normalisation (`PathBuf::from`, `exists` on directories and symlinks) is not modelled. A path exists when its exact string is in the set or map.
- Rust `find` returns byte offsets and strings are UTF-8 bytes. The model indexes characters, which gives the same slices.
- Dial.Part1: uses unbounded integers. The source's i32 position and count would overflow for distances within 100 of the i32 limits, or for over 2^31 landings.
- Dial.Part2: uses unbounded integers, as `Dial.Part1` does. `steps - steps_to_zero` and the running sum would overflow i32 near the limits.
- Dial.CrossingsMatchWalk: holds only for non-negative distances. The parser also accepts negative ones, such as `L-60`, and for those the closed form does not count ticks. `Dial.Part2` states the tick-walk equality only when every distance is non-negative.
- Rolls.PartOne: requires that no row is shorter than the first row, because the source panics by indexing out of bounds on such a grid. `Rolls.PartTwo` and `Rolls.FindAccessibleRolls` have the same requirement.
- Rolls.PartTwo: also returns the final grid, so that its contract can describe it. The source returns only the total.
- NewDay.Replace: requires a non-empty pattern. The source only replaces `{YEAR}`.
