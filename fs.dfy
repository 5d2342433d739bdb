/**
  The filesystem as implant.go sees it: what `os.Stat` reports for a path and
  what `ioutil.ReadFile` returns. One snapshot serves both calls.
*/
module Fs {
  import opened Wrappers
  import opened Hex

  /** The entry `os.Stat` finds at a path (Stat follows symbolic links). */
  datatype Entry =
    | Directory
      /** `contents` is None when reading fails although the stat succeeded (no read permission). */
    | RegularFile(contents: Option<seq<byte>>)
      /** A device, pipe or socket: neither a directory nor a regular file. */
    | Special

  /** Paths with no entry are those whose stat fails. */
  type FileSystem = map<string, Entry>

  /** The outcome of `os.Stat`, as far as implant.go inspects it. */
  datatype StatOutcome = Missing | Dir | Regular | Other

  function Stat(fs: FileSystem, path: string): (st: StatOutcome)
    ensures st == Missing <==> path !in fs
    ensures st == Dir <==> path in fs && fs[path] == Directory
    ensures st == Regular <==> path in fs && fs[path].RegularFile?
  {
    if path !in fs then Missing
    else match fs[path]
      case Directory => Dir
      case RegularFile(_) => Regular
      case Special => Other
  }

  /** `ioutil.ReadFile`: the whole file, or None on any failure. */
  function ReadFile(fs: FileSystem, path: string): (data: Option<seq<byte>>)
    ensures data.Some? ==> Stat(fs, path) == Regular
  {
    if path in fs && fs[path].RegularFile? then fs[path].contents else None
  }
}
