/**
 * Resolving the input file a day is run on. The word `puzzle` means the
 * day's own input file, falling back to the year's shared one; any other
 * word is taken as a path. `existing` is the set of paths that exist.
 */
module InputPath {
  import opened Wrappers
  import Text
  import Paths

  const PuzzleWord: string := "puzzle"

  /** `inputs/{year}`. */
  function InputsDir(year: nat): Paths.Path {
    Paths.Join("inputs", Text.NatToString(year))
  }

  /** `inputs/{year}/d{day:02}.txt`. */
  function SpecificInput(year: nat, day: nat): Paths.Path {
    Paths.Join(InputsDir(year), Paths.DayStem(day) + ".txt")
  }

  /** `inputs/{year}/input.txt`. */
  function GenericInput(year: nat): Paths.Path {
    Paths.Join(InputsDir(year), "input.txt")
  }

  datatype InputError =
    | NoPuzzleInput(specific: Paths.Path, generic: Paths.Path)
    | MissingFile(path: Paths.Path)

  /** `resolve_input_path`. */
  function ResolveInputPath(year: nat, day: nat, input: string, existing: set<Paths.Path>)
    : (r: Result<Paths.Path, InputError>)
    ensures r.Success? ==> r.value in existing
    ensures input == PuzzleWord && SpecificInput(year, day) in existing ==>
              r == Success(SpecificInput(year, day))
    ensures input == PuzzleWord && SpecificInput(year, day) !in existing && GenericInput(year) in existing ==>
              r == Success(GenericInput(year))
    ensures input == PuzzleWord ==>
              (r.Failure? <==> SpecificInput(year, day) !in existing && GenericInput(year) !in existing)
    ensures input != PuzzleWord ==> (r.Success? <==> input in existing)
    ensures input != PuzzleWord && r.Success? ==> r.value == input
  {
    if input == PuzzleWord then
      var specific := SpecificInput(year, day);
      var generic := GenericInput(year);
      if specific in existing then Success(specific)
      else if generic in existing then Success(generic)
      else Failure(NoPuzzleInput(specific, generic))
    else if input !in existing then Failure(MissingFile(input))
    else Success(input)
  }

  /** A day's own input file and the shared one are different paths. */
  lemma SpecificIsNotGeneric(year: nat, day: nat)
    ensures SpecificInput(year, day) != GenericInput(year)
  {
    var dir := InputsDir(year);
    assert SpecificInput(year, day)[|dir| + 1] == 'd';
    assert GenericInput(year)[|dir| + 1] == 'i';
  }
}
