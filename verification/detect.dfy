/**
 * Detecting the latest year crate and the latest day binary from the
 * names found in a directory listing. A listing is `None` when the
 * directory does not exist.
 */
module Detect {
  import opened Wrappers
  import Text
  import Paths

  /** The values of the names that `parse` accepts, in listing order. */
  function ParsedValues(names: seq<string>, parse: string -> Option<nat>): (xs: seq<nat>)
    ensures forall k :: 0 <= k < |xs| ==> exists i :: 0 <= i < |names| && parse(names[i]) == Some(xs[k])
    ensures forall i :: 0 <= i < |names| && parse(names[i]).Some? ==> parse(names[i]).value in xs
    ensures xs == [] <==> forall i :: 0 <= i < |names| ==> parse(names[i]).None?
  {
    if names == [] then []
    else
      var rest := ParsedValues(names[1..], parse);
      assert forall k :: 0 <= k < |rest| ==> exists i :: 0 <= i < |names| && parse(names[i]) == Some(rest[k]) by {
        forall k | 0 <= k < |rest|
          ensures exists i :: 0 <= i < |names| && parse(names[i]) == Some(rest[k])
        {
          var i :| 0 <= i < |names[1..]| && parse(names[1..][i]) == Some(rest[k]);
          assert names[i + 1] == names[1..][i];
        }
      }
      assert forall i :: 1 <= i < |names| ==> names[i] == names[1..][i - 1];
      match parse(names[0])
      case Some(v) => [v] + rest
      case None => rest
  }

  /** `Iterator::max`: the largest element, or `None` for an empty sequence. */
  function Maximum(xs: seq<nat>): (m: Option<nat>)
    ensures m.None? <==> xs == []
    ensures m.Some? ==> m.value in xs && forall k :: 0 <= k < |xs| ==> xs[k] <= m.value
  {
    if xs == [] then None
    else
      match Maximum(xs[1..])
      case None => Some(xs[0])
      case Some(m) => Some(if xs[0] >= m then xs[0] else m)
  }

  /** A `crates` entry `aoc<n>` names year `n` when `n` parses as a `u32`. */
  function YearOfEntry(name: string): (y: Option<nat>)
    ensures y.Some? <==> Text.StartsWith(name, "aoc") && Text.ParseU32(name[3..]).Some?
    ensures y.Some? ==> y == Text.ParseU32(name[3..]) && y.value <= Text.U32Max
  {
    match Text.StripPrefix(name, "aoc")
    case None => None
    case Some(suffix) => Text.ParseU32(suffix)
  }

  /** A `src/bin` entry `d<n>.rs` names day `n` when `n` parses as a `u8`. */
  function DayOfEntry(name: string): (d: Option<nat>)
    ensures d.Some? <==>
              |name| >= 4 && Text.StartsWith(name, "d") && Text.EndsWith(name, ".rs")
              && Text.ParseU8(name[1..|name| - 3]).Some?
    ensures d.Some? ==> d == Text.ParseU8(name[1..|name| - 3]) && d.value <= Text.U8Max
  {
    match Text.StripPrefix(name, "d")
    case None => None
    case Some(rest) =>
      match Text.StripSuffix(rest, ".rs")
      case None => None
      case Some(num) =>
        assert num == name[1..|name| - 3];
        Text.ParseU8(num)
  }

  /** The largest value `parse` gives any of the names, if it accepts one. */
  function Latest(names: seq<string>, parse: string -> Option<nat>): (m: Option<nat>)
    ensures m.None? <==> forall i :: 0 <= i < |names| ==> parse(names[i]).None?
    ensures m.Some? ==> exists i :: 0 <= i < |names| && parse(names[i]) == m
    ensures m.Some? ==> forall i :: 0 <= i < |names| && parse(names[i]).Some? ==>
              parse(names[i]).value <= m.value
  {
    var xs := ParsedValues(names, parse);
    var m := Maximum(xs);
    assert m.Some? ==> exists k :: 0 <= k < |xs| && xs[k] == m.value;
    m
  }

  /** `detect_latest_year`: the largest year among the `crates` entries. */
  function DetectLatestYear(crates: Option<seq<string>>): (y: Option<nat>)
    ensures y.None? <==>
              crates.None? || forall i :: 0 <= i < |crates.value| ==> YearOfEntry(crates.value[i]).None?
    ensures y.Some? ==> exists i :: 0 <= i < |crates.value| && YearOfEntry(crates.value[i]) == y
    ensures y.Some? ==> forall i :: 0 <= i < |crates.value| && YearOfEntry(crates.value[i]).Some? ==>
              YearOfEntry(crates.value[i]).value <= y.value
  {
    match crates
    case None => None
    case Some(names) => Latest(names, YearOfEntry)
  }

  /** `detect_latest_day`: the largest day among the `src/bin` entries. */
  function DetectLatestDay(bin: Option<seq<string>>): (d: Option<nat>)
    ensures d.None? <==>
              bin.None? || forall i :: 0 <= i < |bin.value| ==> DayOfEntry(bin.value[i]).None?
    ensures d.Some? ==> exists i :: 0 <= i < |bin.value| && DayOfEntry(bin.value[i]) == d
    ensures d.Some? ==> forall i :: 0 <= i < |bin.value| && DayOfEntry(bin.value[i]).Some? ==>
              DayOfEntry(bin.value[i]).value <= d.value
  {
    match bin
    case None => None
    case Some(names) => Latest(names, DayOfEntry)
  }

  datatype DetectError = NoYearCrates

  /** `resolve_year`: an explicit year wins; otherwise the latest detected one. */
  function ResolveYear(global: Option<nat>, crates: Option<seq<string>>): (r: Result<nat, DetectError>)
    ensures global.Some? ==> r == Success(global.value)
    ensures global.None? ==> (r.Failure? <==> DetectLatestYear(crates).None?)
    ensures global.None? && r.Success? ==> Some(r.value) == DetectLatestYear(crates)
  {
    match global
    case Some(y) => Success(y)
    case None =>
      match DetectLatestYear(crates)
      case None => Failure(NoYearCrates)
      case Some(y) => Success(y)
  }

  /** The name `new` generates for a day is read back as that day. */
  lemma DayFileNameRoundTrip(day: nat)
    requires day <= Text.U8Max
    ensures DayOfEntry(Paths.DayFileName(day)) == Some(day)
  {
    var name := Paths.DayFileName(day);
    var pad := Text.Pad2(day);
    assert name == "d" + pad + ".rs";
    assert name[1..|name| - 3] == pad;
    Text.ParsePad2(day, Text.U8Max);
  }

  /** The crate directory `init` creates for a year is detected as that year. */
  lemma CrateNameRoundTrip(year: nat)
    requires year <= Text.U32Max
    ensures YearOfEntry(Paths.CrateName(year)) == Some(year)
  {
    var digits := Text.NatToString(year);
    Text.StripPrefixOfConcat("aoc", digits);
    Text.ParseUnsignedRoundTrip(year, Text.U32Max);
  }

  /** Both padded and unpadded names denote the day; numbers above 255 are ignored. */
  lemma DayNameExamples()
    ensures DayOfEntry("d1.rs") == Some(1)
    ensures DayOfEntry("d01.rs") == Some(1)
    ensures DayOfEntry("d256.rs") == None
    ensures DayOfEntry("d1.txt") == None
  {
    assert "d1.rs"[1..2] == "1";
    assert "d01.rs"[1..3] == "01";
    assert "d256.rs"[1..4] == "256";
    assert Text.DigitsValue("256") == 256 by {
      assert "256"[..2] == "25" && "25"[..1] == "2";
    }
    assert Text.DigitsValue("01") == 1 by {
      assert "01"[..1] == "0";
    }
  }
}
