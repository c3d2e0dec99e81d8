/** The decision policy of `main`: the pre-flight checks, the ordering, the
    list file, and which of the two ffmpeg commands run, with the process
    exit code. The filesystem and the subprocesses are inputs: whether the
    `--input-dir` path exists (`Path.exists()`, true for a regular file as
    well), what the glob returned, how a path resolves to an
    absolute POSIX path, and the exit status each command would return. */
module Assemble {
  import opened Wrappers
  import NaturalSort
  import Manifest

  /** The two ffmpeg invocations: the stream copy and the re-encode. */
  datatype Command = Copy | Reencode

  /** The exit status a command returns in this run. */
  function StatusOf(c: Command, rcCopy: int, rcReencode: int): int
  {
    match c
    case Copy => rcCopy
    case Reencode => rcReencode
  }

  /** `Path(f).resolve().as_posix()` for each file, in order. */
  function Resolved(files: seq<string>, resolve: string -> string): (r: seq<string>)
    ensures |r| == |files|
    ensures forall i :: 0 <= i < |files| ==> r[i] == resolve(files[i])
  {
    if files == [] then [] else [resolve(files[0])] + Resolved(files[1..], resolve)
  }

  /** One run of the script. `order` is the assembly order it prints,
      `manifest` the list file it writes (if any), `commands` the ffmpeg
      commands it runs, in order, and `exitCode` the process exit status. */
  method Run(dirExists: bool, globbed: seq<string>, resolve: string -> string,
             reencode: bool, rcCopy: int, rcReencode: int)
    returns (order: seq<string>, manifest: Option<string>, commands: seq<Command>, exitCode: int)
    // a missing --input-dir path stops the run with status 2, before anything else
    ensures !dirExists ==> exitCode == 2 && order == [] && manifest == None && commands == []
    // no matching file stops the run with status 3, before any list file or command
    ensures dirExists && globbed == [] ==>
      exitCode == 3 && order == [] && manifest == None && commands == []
    // otherwise the files are assembled in natural order from one list file
    ensures dirExists && globbed != [] ==>
      order == NaturalSort.SortFiles(globbed) &&
      manifest == Some(Manifest.ManifestText(Resolved(order, resolve)))
    // the copy is tried first unless re-encoding is forced; a failed copy falls back
    ensures dirExists && globbed != [] ==>
      commands == (if reencode then [Reencode] else if rcCopy == 0 then [Copy] else [Copy, Reencode])
    // forcing the re-encode never runs the copy
    ensures reencode ==> Copy !in commands
    // a list file is written exactly when a command runs
    ensures manifest.Some? <==> commands != []
    // once the re-encode runs, its own status decides: 1 on failure, 0 on success
    ensures Reencode in commands ==> exitCode == (if rcReencode != 0 then 1 else 0)
    // success is exactly: some command ran and the last one succeeded
    ensures exitCode == 0 <==>
      commands != [] && StatusOf(commands[|commands| - 1], rcCopy, rcReencode) == 0
  {
    order, manifest, commands := [], None, [];
    if !dirExists {
      exitCode := 2;
      return;
    }
    order := NaturalSort.SortFiles(globbed);
    if order == [] {
      assert |globbed| == |multiset(globbed)| == |multiset(order)| == 0;
      exitCode := 3;
      return;
    }
    var text := Manifest.BuildListFile(Resolved(order, resolve));
    manifest := Some(text);
    if !reencode {
      commands := commands + [Copy];
      var rc := rcCopy;
      if rc == 0 {
        exitCode := 0;
        return;
      }
    }
    commands := commands + [Reencode];
    var rc2 := rcReencode;
    if rc2 != 0 {
      exitCode := 1;
      return;
    }
    exitCode := 0;
  }
}
