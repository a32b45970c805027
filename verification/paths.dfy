/**
 * The workspace layout the CLI commands agree on, with paths as plain
 * `/`-separated strings and the file system as the map from each existing
 * file's path to its contents.
 */
module Paths {
  import Text

  type Path = string

  /** The files that exist, with their contents. Directories are implicit. */
  type FileSystem = map<Path, string>

  /** `Path::join` of a relative component. */
  function Join(base: Path, name: string): Path {
    base + "/" + name
  }

  /** `aoc{year}`: the package name of a year crate. */
  function CrateName(year: nat): string {
    "aoc" + Text.NatToString(year)
  }

  /** `crates/aoc{year}`. */
  function CrateDir(year: nat): Path {
    Join("crates", CrateName(year))
  }

  /** `crates/aoc{year}/src/bin`. */
  function BinDir(year: nat): Path {
    Join(CrateDir(year), "src/bin")
  }

  /** `d{day:02}`: the name of a day's binary. */
  function DayStem(day: nat): string {
    "d" + Text.Pad2(day)
  }

  /** `d{day:02}.rs`: the name of a day's source file. */
  function DayFileName(day: nat): string {
    DayStem(day) + ".rs"
  }

  /** `crates/aoc{year}/src/bin/d{day:02}.rs`. */
  function DayFilePath(year: nat, day: nat): Path {
    Join(BinDir(year), DayFileName(day))
  }
}
