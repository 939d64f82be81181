/**
 * Absolute filesystem paths as sequences of name components; the empty
 * sequence is the root. Normalisation (`toAbsolutePath`) is taken as done.
 */
module Paths {
  import opened Wrappers

  type Path = seq<string>

  /**
   * `p.getFileName().toString()`. The root has no file name (Java returns
   * null); the empty string stands for it here and can never pass the
   * plugin filter, which needs a dot.
   */
  function FileName(p: Path): string {
    if |p| == 0 then "" else p[|p| - 1]
  }

  /** The directory holding `p`. */
  function Parent(p: Path): Path {
    if |p| == 0 then [] else p[..|p| - 1]
  }

  /**
   * `newPluginPath(destDir, file)`: the file's own name placed directly under
   * `destDir`. A null `file`, or the root (whose file name is null), makes the
   * Java code throw a NullPointerException: `None` here.
   */
  function NewPluginPath(destDir: Path, file: Option<Path>): (r: Option<Path>)
    ensures r.None? <==> file.None? || |file.value| == 0
    ensures r.Some? ==> Parent(r.value) == destDir && FileName(r.value) == FileName(file.value)
  {
    match file
    case None => None
    case Some(f) => if |f| == 0 then None else Some(destDir + [FileName(f)])
  }

  /** Two files land on the same destination exactly when their names agree. */
  lemma NewPluginPathInjective(destDir: Path, a: Path, b: Path)
    requires |a| > 0 && |b| > 0
    ensures NewPluginPath(destDir, Some(a)) == NewPluginPath(destDir, Some(b)) <==> FileName(a) == FileName(b)
  {
    if NewPluginPath(destDir, Some(a)) == NewPluginPath(destDir, Some(b)) {
      assert FileName(NewPluginPath(destDir, Some(a)).value) == FileName(a);
    }
  }
}
