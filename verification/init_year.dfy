/**
 * The `init` subcommand: write the year crate's manifest, write its
 * `src/lib.rs` only when absent, and add the crate to the workspace
 * `members` array when the workspace manifest exists and lacks it.
 */
module InitYear {
  import Text
  import Paths

  const MembersKey: string := "members = ["
  const WorkspaceManifest: Paths.Path := "Cargo.toml"

  /** `"crates/aoc{year}"`, quotes included. */
  function MemberLine(year: nat): string {
    "\"crates/" + Paths.CrateName(year) + "\""
  }

  /** The text inserted right after `members = [`. */
  function MemberEntry(year: nat): string {
    "\n    " + MemberLine(year) + ","
  }

  /**
   * The workspace manifest after `init`: unchanged when it already names
   * the crate or has no `members = [`, otherwise with the member entry
   * inserted right after the first `members = [`.
   */
  function InsertMember(contents: string, year: nat): (r: string)
    ensures Text.Contains(contents, MemberLine(year)) ==> r == contents
    ensures !Text.Contains(contents, MembersKey) ==> r == contents
    ensures !Text.Contains(contents, MemberLine(year)) && Text.Contains(contents, MembersKey) ==>
              var at := Text.Find(contents, MembersKey).value + |MembersKey|;
              && at <= |contents|
              && r == contents[..at] + MemberEntry(year) + contents[at..]
              && |r| == |contents| + |MemberEntry(year)|
    ensures Text.Contains(contents, MembersKey) ==> Text.Contains(r, MemberLine(year))
  {
    if Text.Contains(contents, MemberLine(year)) then contents
    else
      match Text.Find(contents, MembersKey)
      case None => contents
      case Some(idx) =>
        var at := idx + |MembersKey|;
        var r := contents[..at] + MemberEntry(year) + contents[at..];
        assert MemberEntry(year) == "\n    " + MemberLine(year) + ",";
        Text.OccurrenceIsFound(MemberLine(year), MemberLine(year), 0);
        Text.OccursInConcat("\n    ", MemberLine(year), ",", MemberLine(year));
        Text.OccursInConcat(contents[..at], MemberEntry(year), contents[at..], MemberLine(year));
        r
  }

  /** Running `init` twice adds the member once. */
  lemma InsertMemberIdempotent(contents: string, year: nat)
    ensures InsertMember(InsertMember(contents, year), year) == InsertMember(contents, year)
  {
  }

  /** The year crate's `Cargo.toml`. */
  function CrateManifest(year: nat): string {
    "[package]\nname = \"" + Paths.CrateName(year) + "\"\nversion = \"0.1.0\"\nedition = \"2024\"\n\n[dependencies]\n"
  }

  /** The `src/lib.rs` that `init` writes when the crate has none: the shared stdin reader. */
  const LibRs: string :=
    "use std::io::{self, Read};\n" +
    "\n" +
    "/// Read all data from standard input into a string.\n" +
    "///\n" +
    "/// This is a small helper used by the generated day binaries.\n" +
    "pub (crate) fn read_input() -> String {\n" +
    "    let mut s = String::new();\n" +
    "    io::stdin().read_to_string(&mut s).expect(\"failed to read stdin\");\n" +
    "    s\n" +
    "}\n"

  function CrateManifestPath(year: nat): Paths.Path {
    Paths.Join(Paths.CrateDir(year), "Cargo.toml")
  }

  function LibPath(year: nat): Paths.Path {
    Paths.Join(Paths.Join(Paths.CrateDir(year), "src"), "lib.rs")
  }

  /** The three files `init` may write are different files. */
  lemma PathsDistinct(year: nat)
    ensures CrateManifestPath(year) != LibPath(year)
    ensures CrateManifestPath(year) != WorkspaceManifest
    ensures LibPath(year) != WorkspaceManifest
  {
    var dir := Paths.CrateDir(year);
    assert CrateManifestPath(year)[|dir| + 1] == 'C';
    assert LibPath(year)[|dir| + 1] == 's';
  }

  /** Writes `contents` to `path` unless a file is already there. */
  function WriteIfAbsent(fs: Paths.FileSystem, path: Paths.Path, contents: string): (r: Paths.FileSystem)
    ensures r.Keys == fs.Keys + {path}
    ensures r[path] == if path in fs then fs[path] else contents
    ensures forall p :: p in fs && p != path ==> r[p] == fs[p]
  {
    if path in fs then fs else fs[path := contents]
  }

  /** Adds the year's member to the workspace manifest, when there is one. */
  function UpdateWorkspace(fs: Paths.FileSystem, year: nat): (r: Paths.FileSystem)
    ensures r.Keys == fs.Keys
    ensures WorkspaceManifest in fs ==> r[WorkspaceManifest] == InsertMember(fs[WorkspaceManifest], year)
    ensures forall p :: p in fs && p != WorkspaceManifest ==> r[p] == fs[p]
  {
    if WorkspaceManifest in fs then fs[WorkspaceManifest := InsertMember(fs[WorkspaceManifest], year)]
    else fs
  }

  /**
   * The three writes of `init_year` with the paths and the generated
   * manifest as parameters: the manifest is always written, `lib.rs` only
   * when absent, and the workspace manifest gets the member.
   */
  function InitFiles(fs: Paths.FileSystem, manifestPath: Paths.Path, manifest: string,
                     libPath: Paths.Path, libRs: string, year: nat): (r: Paths.FileSystem)
    requires manifestPath != libPath && manifestPath != WorkspaceManifest && libPath != WorkspaceManifest
    ensures r.Keys == fs.Keys + {manifestPath, libPath}
    ensures r[manifestPath] == manifest
    ensures r[libPath] == if libPath in fs then fs[libPath] else libRs
    ensures WorkspaceManifest in fs ==> r[WorkspaceManifest] == InsertMember(fs[WorkspaceManifest], year)
    ensures forall p :: p in fs && p != manifestPath && p != libPath && p != WorkspaceManifest ==> r[p] == fs[p]
  {
    UpdateWorkspace(WriteIfAbsent(fs[manifestPath := manifest], libPath, libRs), year)
  }

  /**
   * `init_year` on a file system: the crate manifest is always written,
   * the fixed `lib.rs` text only when that file is absent, the workspace manifest is updated by
   * `InsertMember` when it exists, and no other file changes.
   */
  function Init(fs: Paths.FileSystem, year: nat): (r: Paths.FileSystem)
    ensures r.Keys == fs.Keys + {CrateManifestPath(year), LibPath(year)}
    ensures r[CrateManifestPath(year)] == CrateManifest(year)
    ensures LibPath(year) in fs ==> r[LibPath(year)] == fs[LibPath(year)]
    ensures LibPath(year) !in fs ==> r[LibPath(year)] == LibRs
    ensures WorkspaceManifest in fs ==> r[WorkspaceManifest] == InsertMember(fs[WorkspaceManifest], year)
    ensures forall p :: p in fs && p != CrateManifestPath(year) && p != LibPath(year) && p != WorkspaceManifest ==>
              r[p] == fs[p]
  {
    PathsDistinct(year);
    InitFiles(fs, CrateManifestPath(year), CrateManifest(year), LibPath(year), LibRs, year)
  }
}
