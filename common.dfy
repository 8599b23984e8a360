/** Shared vocabulary of the bulk file tool: C-string conventions, paths,
    the operation mode, one unit of work (Task) and the run-wide counters. */
module Common {

  datatype Option<+T> = None | Some(value: T)

  /** The string terminator of C; the strings of the model never contain it. */
  const Nul: char := '\0'

  /** The POSIX path separator (the Windows build is not modelled). */
  const PathSep: char := '/'

  /** A C string: a character sequence with no terminator inside it. */
  predicate NulFree(s: string) {
    forall i :: 0 <= i < |s| ==> s[i] != Nul
  }

  /** The path `dir/name`, as the source builds it with "%s/%s". */
  function Join(dir: string, name: string): (r: string)
    ensures |r| == |dir| + 1 + |name|
    ensures r[..|dir|] == dir && r[|dir|] == PathSep && r[|dir| + 1..] == name
  {
    dir + [PathSep] + name
  }

  /** The operation selected on the command line; fixed for the whole run. */
  datatype Mode = Delete | Copy | Move | Count | Organize

  /** One unit of work: the source path, the destination (absent in delete
      mode), and the bare file name (present only in organize mode). */
  datatype Task = Task(src: string, dst: Option<string>, filename: Option<string>)

  /** The four progress counters shared by the walker, the workers and the
      copy engine. Atomic in the source; plain fields here. */
  class Counters {
    var totalFiles: nat
    var totalBytes: nat
    var processedFiles: nat
    var processedBytes: int

    constructor ()
      ensures totalFiles == 0 && totalBytes == 0
      ensures processedFiles == 0 && processedBytes == 0
    {
      totalFiles, totalBytes := 0, 0;
      processedFiles, processedBytes := 0, 0;
    }
  }
}
