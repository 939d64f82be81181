/**
 * The two java.nio.file.Files mutations the swap uses, over an abstract
 * filesystem that maps each regular file's path to its content. Which
 * operations fail is decided by the environment: every path in `faults` is
 * one whose deletion or copy throws an IOException.
 */
module Files {
  import opened Wrappers
  import opened Paths

  type Content = seq<bv8>

  type FileSystem = map<Path, Content>

  /**
   * Every exception the two `try` blocks of the swap catch: the
   * NullPointerException a null artifact raises, as well as the IOExceptions
   * of the file operations themselves.
   */
  datatype IoError = NullPointer | NoSuchFile | AccessDenied

  /** `Files.deleteIfExists(path)`: a missing path is not an error. */
  function DeleteIfExists(fs: FileSystem, path: Path, faults: set<Path>): (r: Result<FileSystem, IoError>)
    ensures r.Err? <==> path in faults
    ensures r.Ok? ==> path !in r.value
    ensures r.Ok? ==> forall p :: p != path ==> (p in r.value <==> p in fs) && (p in fs ==> r.value[p] == fs[p])
  {
    if path in faults then Err(AccessDenied) else Ok(fs - {path})
  }

  /**
   * `Files.copy(source, target, REPLACE_EXISTING)`: the target ends up with the
   * source's content whether or not it existed. A missing source throws
   * NoSuchFileException.
   */
  function Copy(fs: FileSystem, source: Path, target: Path, faults: set<Path>): (r: Result<FileSystem, IoError>)
    ensures r.Err? <==> source !in fs || source in faults || target in faults
    ensures r.Ok? ==> target in r.value && r.value[target] == fs[source]
    ensures r.Ok? ==> forall p :: p != target ==> (p in r.value <==> p in fs) && (p in fs ==> r.value[p] == fs[p])
  {
    if source !in fs then Err(NoSuchFile)
    else if source in faults || target in faults then Err(AccessDenied)
    else Ok(fs[target := fs[source]])
  }
}
