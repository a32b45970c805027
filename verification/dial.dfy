/**
 * The 100-position dial of day 1: rotations are parsed one per line,
 * folded over a dial that starts at 50, and two statistics are reported —
 * how many moves end on 0 (part 1) and how many ticks touch 0 (part 2,
 * computed per move in closed form).
 */
module Dial {
  import opened Wrappers
  import Text

  const DialSize: int := 100
  const StartPosition: int := 50

  datatype Direction = Right | Left

  /** A direction and a distance; the parser accepts any `i32` distance. */
  datatype Rotation = Rotation(direction: Direction, distance: int)

  datatype ParseRotationError =
    | Empty
    | InvalidDirection(byte: nat)
    | InvalidDistance

  predicate IsPosition(p: int) {
    0 <= p < DialSize
  }

  // ---------------------------------------------------------------------
  // Parsing
  // ---------------------------------------------------------------------

  /** The first byte of the UTF-8 encoding of `c`. */
  function LeadingUtf8Byte(c: char): (b: nat)
    ensures b < 0x100
    ensures c as int < 0x80 ==> b == c as int
    ensures c as int >= 0x80 ==> b >= 0xC0
  {
    var n := c as int;
    if n < 0x80 then n
    else if n < 0x800 then 0xC0 + n / 0x40
    else if n < 0x1_0000 then 0xE0 + n / 0x1000
    else 0xF0 + n / 0x4_0000
  }

  /** The direction a leading character selects, case-insensitively. */
  function DirectionOf(c: char): Option<Direction> {
    if c == 'L' || c == 'l' then Some(Left)
    else if c == 'R' || c == 'r' then Some(Right)
    else None
  }

  /**
   * `Rotation::from_str`: trim the line, take its first byte as the
   * direction and parse the rest as an `i32`.
   */
  function ParseRotation(line: string): (r: Result<Rotation, ParseRotationError>)
    ensures r.Success? ==> Text.I32Min <= r.value.distance <= Text.I32Max
    ensures r == Failure(Empty) <==> Text.Trim(line) == []
    ensures r.Failure? && r.error.InvalidDirection? <==>
              Text.Trim(line) != [] && DirectionOf(Text.Trim(line)[0]).None?
    ensures r.Failure? && r.error.InvalidDirection? ==>
              r.error.byte == LeadingUtf8Byte(Text.Trim(line)[0])
    ensures r.Success? ==> r.value.direction == DirectionOf(Text.Trim(line)[0]).value
    ensures r == Failure(InvalidDistance) <==>
              Text.Trim(line) != [] && DirectionOf(Text.Trim(line)[0]).Some?
              && Text.ParseI32(Text.Trim(line)[1..]).None?
    ensures r.Success? ==> Text.ParseI32(Text.Trim(line)[1..]) == Some(r.value.distance)
  {
    var buffer := Text.Trim(line);
    if buffer == [] then Failure(Empty)
    else
      match DirectionOf(buffer[0])
      case None => Failure(InvalidDirection(LeadingUtf8Byte(buffer[0])))
      case Some(direction) =>
        match Text.ParseI32(buffer[1..])
        case None => Failure(InvalidDistance)
        case Some(distance) => Success(Rotation(direction, distance))
  }

  /** The text of a rotation as the puzzle input writes it: `R<n>` or `L<n>`. */
  function RotationText(rot: Rotation): string {
    (if rot.direction == Right then "R" else "L") + Text.IntToString(rot.distance)
  }

  /** A direction letter followed by the decimal text of an `i32` parses to that rotation. */
  lemma ParseLetterDistance(letter: char, rot: Rotation)
    requires DirectionOf(letter) == Some(rot.direction)
    requires Text.I32Min <= rot.distance <= Text.I32Max
    ensures ParseRotation([letter] + Text.IntToString(rot.distance)) == Success(rot)
  {
    var digits := Text.IntToString(rot.distance);
    var s := [letter] + digits;
    assert s[1..] == digits;
    assert s[|s| - 1] == digits[|digits| - 1];
    Text.TrimIdentity(s);
    Text.ParseSignedRoundTrip(rot.distance, Text.I32Min, Text.I32Max);
  }

  /** Every `i32` rotation, signed distances included, parses back from its text. */
  lemma ParseRotationText(rot: Rotation)
    requires Text.I32Min <= rot.distance <= Text.I32Max
    ensures ParseRotation(RotationText(rot)) == Success(rot)
  {
    ParseLetterDistance(if rot.direction == Right then 'R' else 'L', rot);
  }

  /** Lower-case direction letters are accepted too. */
  lemma ParseLowerCase(rot: Rotation)
    requires Text.I32Min <= rot.distance <= Text.I32Max
    ensures ParseRotation((if rot.direction == Right then "r" else "l") + Text.IntToString(rot.distance))
            == Success(rot)
  {
    ParseLetterDistance(if rot.direction == Right then 'r' else 'l', rot);
  }

  /** `filter_map(Result::ok)`: the values of the successful results, in order. */
  function Successes<T, E>(results: seq<Result<T, E>>): (vs: seq<T>)
    ensures |vs| <= |results|
  {
    if results == [] then []
    else (if results[0].Success? then [results[0].value] else []) + Successes(results[1..])
  }

  /** When every result succeeds, nothing is dropped and each value keeps its position. */
  lemma {:induction false} SuccessesOfAll<T, E>(results: seq<Result<T, E>>)
    requires forall i :: 0 <= i < |results| ==> results[i].Success?
    ensures |Successes(results)| == |results|
    ensures forall i :: 0 <= i < |results| ==> Successes(results)[i] == results[i].value
  {
    if results != [] {
      var tail := results[1..];
      assert forall i :: 0 <= i < |tail| ==> tail[i] == results[i + 1];
      SuccessesOfAll(tail);
      assert Successes(results) == [results[0].value] + Successes(tail);
    }
  }

  /** A failure anywhere makes the values fewer than the results. */
  lemma {:induction false} SuccessesDropFailure<T, E>(results: seq<Result<T, E>>, k: nat)
    requires k < |results| && results[k].Failure?
    ensures |Successes(results)| < |results|
  {
    var tail := results[1..];
    if k == 0 {
      assert Successes(results) == Successes(tail);
    } else {
      assert tail[k - 1] == results[k];
      SuccessesDropFailure(tail, k - 1);
    }
  }

  /** Filtering distributes over concatenation. */
  lemma {:induction false} SuccessesAppend<T, E>(a: seq<Result<T, E>>, b: seq<Result<T, E>>)
    ensures Successes(a + b) == Successes(a) + Successes(b)
  {
    if a == [] {
      assert a + b == b;
    } else {
      assert (a + b)[0] == a[0];
      assert (a + b)[1..] == a[1..] + b;
      SuccessesAppend(a[1..], b);
    }
  }

  /** `f` applied to each element, in order. */
  function Map<A, B>(f: A -> B, xs: seq<A>): seq<B> {
    seq(|xs|, i requires 0 <= i < |xs| => f(xs[i]))
  }

  lemma MapAppend<A, B>(f: A -> B, a: seq<A>, b: seq<A>)
    ensures Map(f, a + b) == Map(f, a) + Map(f, b)
  {
    forall i | 0 <= i < |a| + |b| ensures Map(f, a + b)[i] == (Map(f, a) + Map(f, b))[i] {
      if i >= |a| {
        assert (a + b)[i] == b[i - |a|];
      }
    }
  }

  /** Nothing is dropped from the mapped results exactly when every element maps to a success. */
  lemma MappedSuccesses<A, T, E>(f: A -> Result<T, E>, xs: seq<A>)
    ensures |Successes(Map(f, xs))| == |xs| <==> forall i :: 0 <= i < |xs| ==> f(xs[i]).Success?
    ensures |Successes(Map(f, xs))| == |xs| ==>
              forall i :: 0 <= i < |xs| ==> Successes(Map(f, xs))[i] == f(xs[i]).value
  {
    var results := Map(f, xs);
    if forall i :: 0 <= i < |xs| ==> f(xs[i]).Success? {
      SuccessesOfAll(results);
    } else {
      var k :| 0 <= k < |xs| && f(xs[k]).Failure?;
      SuccessesDropFailure(results, k);
    }
  }

  /** Every line parsed, in input order. */
  function ParseLines(lines: seq<string>): seq<Result<Rotation, ParseRotationError>> {
    Map(ParseRotation, lines)
  }

  /** The rotations of the lines that parse, in input order; the others are dropped. */
  function ParsedRotations(lines: seq<string>): (rots: seq<Rotation>)
    ensures |rots| <= |lines|
  {
    Successes(ParseLines(lines))
  }

  /** No line is dropped exactly when every line parses, and then each line gives its own rotation. */
  lemma ParsedRotationsComplete(lines: seq<string>)
    ensures |ParsedRotations(lines)| == |lines| <==>
              forall i :: 0 <= i < |lines| ==> ParseRotation(lines[i]).Success?
    ensures |ParsedRotations(lines)| == |lines| ==>
              forall i :: 0 <= i < |lines| ==> ParsedRotations(lines)[i] == ParseRotation(lines[i]).value
  {
    MappedSuccesses(ParseRotation, lines);
  }

  /** A single line contributes its rotation when it parses and nothing otherwise. */
  lemma ParsedSingleLine(line: string)
    ensures ParsedRotations([line]) ==
              if ParseRotation(line).Success? then [ParseRotation(line).value] else []
  {
    assert ParseLines([line]) == [ParseRotation(line)];
  }

  /** Parsing distributes over concatenated line lists. */
  lemma ParsedRotationsAppend(a: seq<string>, b: seq<string>)
    ensures ParsedRotations(a + b) == ParsedRotations(a) + ParsedRotations(b)
  {
    MapAppend(ParseRotation, a, b);
    SuccessesAppend(ParseLines(a), ParseLines(b));
  }

  /** A malformed line anywhere in the input has no effect on the parsed rotations. */
  lemma MalformedLineDropped(a: seq<string>, bad: string, b: seq<string>)
    requires ParseRotation(bad).Failure?
    ensures ParsedRotations(a + [bad] + b) == ParsedRotations(a + b)
  {
    ParsedRotationsAppend(a + [bad], b);
    ParsedRotationsAppend(a, [bad]);
    ParsedSingleLine(bad);
    assert ParsedRotations(a + [bad]) == ParsedRotations(a);
    ParsedRotationsAppend(a, b);
  }

  /** The rotations of a whole puzzle input. */
  function Rotations(input: string): seq<Rotation> {
    ParsedRotations(Text.Lines(input))
  }

  /** A rotation's text is non-empty, one line, and ends in a digit. */
  lemma RotationTextIsLine(rot: Rotation)
    ensures Text.PlainLine(RotationText(rot))
    ensures Text.IsDigit(RotationText(rot)[|RotationText(rot)| - 1])
  {
    var digits := Text.IntToString(rot.distance);
    var s := RotationText(rot);
    if rot.distance < 0 {
      assert digits[1..] == Text.NatToString(-rot.distance);
    }
    assert forall k :: 1 <= k < |s| ==> s[k] == digits[k - 1];
    assert s[|s| - 1] == digits[|digits| - 1];
  }

  /** The puzzle-input lines of a sequence of rotations. */
  function RotationLines(rots: seq<Rotation>): (lines: seq<string>)
    ensures |lines| == |rots|
    ensures forall i :: 0 <= i < |rots| ==> lines[i] == RotationText(rots[i])
  {
    if rots == [] then [] else [RotationText(rots[0])] + RotationLines(rots[1..])
  }

  /** Every line of the written input parses back to its rotation. */
  lemma ParsedRotationLines(rots: seq<Rotation>)
    requires forall i :: 0 <= i < |rots| ==> Text.I32Min <= rots[i].distance <= Text.I32Max
    ensures ParsedRotations(RotationLines(rots)) == rots
  {
    var lines := RotationLines(rots);
    forall i | 0 <= i < |lines| ensures ParseRotation(lines[i]) == Success(rots[i]) {
      ParseRotationText(rots[i]);
    }
    ParsedRotationsComplete(lines);
  }

  /**
   * Writing any `i32` rotations one per line and reading the text back
   * gives the same rotations, in order.
   */
  lemma RotationsRoundTrip(rots: seq<Rotation>)
    requires forall i :: 0 <= i < |rots| ==> Text.I32Min <= rots[i].distance <= Text.I32Max
    ensures Rotations(Text.JoinLines(RotationLines(rots))) == rots
  {
    RotationLinesSplit(rots);
    ParsedRotationLines(rots);
  }

  /** The written rotations split back into exactly their lines. */
  lemma RotationLinesSplit(rots: seq<Rotation>)
    ensures Text.Lines(Text.JoinLines(RotationLines(rots))) == RotationLines(rots)
  {
    var lines := RotationLines(rots);
    forall k | 0 <= k < |lines| ensures Text.PlainLine(lines[k]) {
      RotationTextIsLine(rots[k]);
    }
    Text.LinesOfJoin(lines);
  }

  // ---------------------------------------------------------------------
  // Moving the dial
  // ---------------------------------------------------------------------

  /** The signed displacement of a rotation: Right is positive. */
  function Offset(rot: Rotation): int {
    if rot.direction == Right then rot.distance else -rot.distance
  }

  /** One move: `rem_euclid` of the shifted position (Dafny's `%` is Euclidean). */
  function Apply(p: int, rot: Rotation): (q: int)
    ensures IsPosition(q)
    ensures (p + Offset(rot) - q) % DialSize == 0
  {
    match rot.direction
    case Left => (p - rot.distance) % DialSize
    case Right => (p + rot.distance) % DialSize
  }

  /** A full turn in either direction leaves the dial where it was. */
  lemma FullTurn(p: int, direction: Direction)
    requires IsPosition(p)
    ensures Apply(p, Rotation(direction, DialSize)) == p
  {
  }

  /** The sum of the signed displacements of the first `k` rotations. */
  function NetOffset(rots: seq<Rotation>, k: nat): int
    requires k <= |rots|
  {
    if k == 0 then 0 else NetOffset(rots, k - 1) + Offset(rots[k - 1])
  }

  /** The dial position after the first `k` moves, from the accumulated displacement. */
  function PositionAfter(rots: seq<Rotation>, k: nat): (p: int)
    requires k <= |rots|
    ensures IsPosition(p)
  {
    (StartPosition + NetOffset(rots, k)) % DialSize
  }

  /** How many of the first `k` moves end exactly on 0. */
  function Landings(rots: seq<Rotation>, k: nat): nat
    requires k <= |rots|
  {
    if k == 0 then 0
    else Landings(rots, k - 1) + (if PositionAfter(rots, k) == 0 then 1 else 0)
  }

  /** Reducing before adding does not change a Euclidean remainder. */
  lemma ModAdd(a: int, b: int)
    ensures (a % DialSize + b) % DialSize == (a + b) % DialSize
  {
    var q := a / DialSize;
    assert a == q * DialSize + a % DialSize;
    assert a % DialSize + b == (a + b) + (-q) * DialSize;
    ModShift(a + b, -q);
  }

  lemma ModShift(x: int, q: int)
    ensures (x + q * DialSize) % DialSize == x % DialSize
  {
  }

  /** Applying move `k` to the position after `k` moves gives the position after `k + 1`. */
  lemma PositionStep(rots: seq<Rotation>, k: nat)
    requires k < |rots|
    ensures Apply(PositionAfter(rots, k), rots[k]) == PositionAfter(rots, k + 1)
  {
    ModAdd(StartPosition + NetOffset(rots, k), Offset(rots[k]));
  }

  /**
   * Part 1: fold the moves over the dial from 50 and count the moves whose
   * resulting position is exactly 0.
   */
  method Part1(input: string) returns (count: nat)
    ensures count == Landings(Rotations(input), |Rotations(input)|)
  {
    count := CountLandings(Rotations(input));
  }

  /** The fold of part 1 over already parsed moves. */
  method CountLandings(rots: seq<Rotation>) returns (count: nat)
    ensures count == Landings(rots, |rots|)
  {
    var position := StartPosition;
    count := 0;
    var i := 0;
    while i < |rots|
      invariant 0 <= i <= |rots|
      invariant position == PositionAfter(rots, i)
      invariant count == Landings(rots, i)
    {
      PositionStep(rots, i);
      position := Apply(position, rots[i]);
      if position == 0 {
        count := count + 1;
      }
      i := i + 1;
    }
  }

  // ---------------------------------------------------------------------
  // Zero crossings
  // ---------------------------------------------------------------------

  /** Rust's integer `/`, which truncates toward zero. */
  function TruncDiv(a: int, b: int): (q: int)
    requires b > 0
    ensures a >= 0 ==> 0 <= a - q * b < b
    ensures a < 0 ==> -b < a - q * b <= 0
  {
    if a >= 0 then a / b else -((-a) / b)
  }

  /** Ticks from `start` to the first 0 in the direction of travel (0 when already there). */
  function StepsToZero(start: int, direction: Direction): (n: int)
    requires IsPosition(start)
    ensures IsPosition(n)
    ensures n == 0 <==> start == 0
    ensures Apply(start, Rotation(direction, n)) == 0
  {
    match direction
    case Right => (DialSize - start) % DialSize
    case Left => start
  }

  /**
   * `count_zero_crossings`: how often a move of `steps` ticks from `start`
   * touches 0, in closed form — every 100 ticks when starting on 0,
   * otherwise once on first arrival plus once per further full turn.
   */
  function CountZeroCrossings(start: int, direction: Direction, steps: int): (n: int)
    requires IsPosition(start)
    ensures steps >= 0 ==> 0 <= n <= steps / DialSize + 1
  {
    var stepsToZero := StepsToZero(start, direction);
    var remaining := steps - stepsToZero;
    if stepsToZero == 0 then TruncDiv(steps, DialSize)
    else if remaining >= 0 then 1 + remaining / DialSize
    else 0
  }

  /** One tick of the dial. */
  function Tick(p: int, direction: Direction): (q: int)
    requires IsPosition(p)
    ensures IsPosition(q)
  {
    match direction
    case Right => (p + 1) % DialSize
    case Left => (p - 1) % DialSize
  }

  datatype Walked = Walked(end: int, zeros: nat)

  /** Turns the dial `n` single ticks from `p`, counting the ticks that land on 0. */
  function Walk(p: int, direction: Direction, n: nat): (w: Walked)
    requires IsPosition(p)
    ensures IsPosition(w.end)
    decreases n
  {
    if n == 0 then Walked(p, 0)
    else
      var q := Tick(p, direction);
      var rest := Walk(q, direction, n - 1);
      Walked(rest.end, rest.zeros + (if q == 0 then 1 else 0))
  }

  /** The closed form peels off one tick exactly as the tick walk does. */
  lemma CrossingsFirstTick(p: int, direction: Direction, n: int)
    requires IsPosition(p) && n >= 1
    ensures CountZeroCrossings(p, direction, n)
            == (if Tick(p, direction) == 0 then 1 else 0)
               + CountZeroCrossings(Tick(p, direction), direction, n - 1)
  {
    var q := Tick(p, direction);
    if direction == Right {
      if p == 0 {
        assert q == 1 && StepsToZero(q, direction) == 99;
        if n >= 100 {
          assert n / 100 == 1 + (n - 100) / 100;
        }
      } else if p == 99 {
        assert q == 0;
      } else {
        assert q == p + 1;
        assert StepsToZero(p, direction) == 100 - p;
        assert StepsToZero(q, direction) == 99 - p;
      }
    } else {
      if p == 0 {
        assert q == 99;
        if n >= 100 {
          assert n / 100 == 1 + (n - 100) / 100;
        }
      } else if p == 1 {
        assert q == 0;
      } else {
        assert q == p - 1;
      }
    }
  }

  /**
   * For a non-negative distance the closed form agrees with turning the
   * dial tick by tick: it counts exactly the ticks `k` in `[1, steps]`
   * after which the dial reads 0, and the walk ends where `Apply` puts it.
   */
  lemma {:induction false} CrossingsMatchWalk(p: int, direction: Direction, steps: nat)
    requires IsPosition(p)
    ensures Walk(p, direction, steps).zeros == CountZeroCrossings(p, direction, steps)
    ensures Walk(p, direction, steps).end == Apply(p, Rotation(direction, steps))
    decreases steps
  {
    if steps > 0 {
      var q := Tick(p, direction);
      CrossingsFirstTick(p, direction, steps);
      CrossingsMatchWalk(q, direction, steps - 1);
      if direction == Right {
        ModAdd(p + 1, steps - 1);
      } else {
        ModAdd(p - 1, -(steps - 1));
      }
    }
  }

  /** Reaching 0 exactly once, and passing it twice in two full turns from 0. */
  lemma CrossingExamples(p: int)
    requires 0 < p < DialSize
    ensures CountZeroCrossings(p, Right, DialSize - p) == 1
    ensures CountZeroCrossings(0, Right, 200) == 2
  {
  }

  /** From 50, `L50` lands on 0 once; `R10, R90` passes 0 once without landing. */
  lemma FoldExamples()
    ensures var rots := [Rotation(Left, 50)];
            Landings(rots, 1) == 1 && Crossings(rots, 1) == 1
    ensures var rots := [Rotation(Right, 10), Rotation(Right, 90)];
            PositionAfter(rots, 1) == 60 && PositionAfter(rots, 2) == 50
            && Landings(rots, 2) == 0 && Crossings(rots, 2) == 1
  {
  }

  /** A move of length 0 touches 0 no times. */
  lemma ZeroLengthMove(p: int, direction: Direction)
    requires IsPosition(p)
    ensures CountZeroCrossings(p, direction, 0) == 0
  {
  }

  /** The closed-form crossings of the first `k` moves, each taken from its pre-move position. */
  function Crossings(rots: seq<Rotation>, k: nat): int
    requires k <= |rots|
  {
    if k == 0 then 0
    else
      var rot := rots[k - 1];
      Crossings(rots, k - 1) + CountZeroCrossings(PositionAfter(rots, k - 1), rot.direction, rot.distance)
  }

  predicate NonNegativeDistances(rots: seq<Rotation>) {
    forall i :: 0 <= i < |rots| ==> rots[i].distance >= 0
  }

  /** Turns the dial through every move one tick at a time, counting ticks on 0. */
  function TickSimulation(p: int, rots: seq<Rotation>): nat
    requires IsPosition(p) && NonNegativeDistances(rots)
    decreases |rots|
  {
    if rots == [] then 0
    else
      var w := Walk(p, rots[0].direction, rots[0].distance);
      w.zeros + TickSimulation(w.end, rots[1..])
  }

  /**
   * The crossings of the first `k` moves plus the tick simulation of the
   * remaining moves, started from the position after `k` moves, is the tick
   * simulation of the whole sequence.
   */
  lemma {:induction false} TickSimulationSplit(rots: seq<Rotation>, k: nat)
    requires k <= |rots| && NonNegativeDistances(rots)
    ensures NonNegativeDistances(rots[k..])
    ensures Crossings(rots, k) + TickSimulation(PositionAfter(rots, k), rots[k..])
            == TickSimulation(StartPosition, rots)
    decreases k
  {
    if k == 0 {
      assert rots[0..] == rots;
    } else {
      TickSimulationSplit(rots, k - 1);
      var rot := rots[k - 1];
      CrossingsMatchWalk(PositionAfter(rots, k - 1), rot.direction, rot.distance);
      PositionStep(rots, k - 1);
      assert rots[k - 1..][1..] == rots[k..];
    }
  }

  /** With non-negative distances, the closed-form count over all moves is the tick-by-tick count. */
  lemma CrossingsAreTicks(rots: seq<Rotation>)
    requires NonNegativeDistances(rots)
    ensures Crossings(rots, |rots|) == TickSimulation(StartPosition, rots)
  {
    TickSimulationSplit(rots, |rots|);
    assert rots[|rots|..] == [];
  }

  /** The fold of part 2 over already parsed moves. */
  method SumCrossings(rots: seq<Rotation>) returns (count: int)
    ensures count == Crossings(rots, |rots|)
  {
    var position := StartPosition;
    count := 0;
    var i := 0;
    while i < |rots|
      invariant 0 <= i <= |rots|
      invariant position == PositionAfter(rots, i)
      invariant count == Crossings(rots, i)
    {
      var crossings := CountZeroCrossings(position, rots[i].direction, rots[i].distance);
      PositionStep(rots, i);
      position := Apply(position, rots[i]);
      count := count + crossings;
      i := i + 1;
    }
  }

  /**
   * Part 2: fold the moves over the dial from 50, adding the crossings of
   * each move computed from the position before it.
   */
  method Part2(input: string) returns (count: int)
    ensures count == Crossings(Rotations(input), |Rotations(input)|)
    ensures NonNegativeDistances(Rotations(input)) ==>
              count == TickSimulation(StartPosition, Rotations(input))
  {
    var rots := Rotations(input);
    count := SumCrossings(rots);
    if NonNegativeDistances(rots) {
      CrossingsAreTicks(rots);
    }
  }
}
