/**
 * `getPluginFile`: pick the first artifact of a plugin in a directory walk.
 * The walk itself (`Files.walk`) is an input: its order, and whether it
 * failed, are decided by the filesystem, which this model does not see.
 */
module PluginLocator {
  import opened Wrappers
  import opened JavaStrings
  import opened Paths

  /** One element of a directory walk, with the result of `Files.isDirectory`. */
  datatype Entry = Entry(path: Path, isDirectory: bool)

  /**
   * What `Files.walk(dir)` delivers: every entry in traversal order, an
   * IOException while opening the start directory, or an I/O error met while
   * the stream is consumed (Java wraps that one in an UncheckedIOException).
   */
  datatype Walk = Listed(entries: seq<Entry>) | StartFailed | TraversalFailed

  /**
   * The outcome of one `getPluginFile` call: it returns a path or null, or the
   * UncheckedIOException escapes it, because only IOException is caught.
   */
  datatype Lookup = Returned(file: Option<Path>) | Escaped

  /** Reference definition of the packaged-artifact extension test. */
  predicate HasJarExtension(fileName: string) {
    |fileName| >= 5 && EqualsIgnoreCase(fileName[|fileName| - 4..], ".jar")
  }

  /** Reference definition: the conditions an artifact's file name must meet. */
  ghost predicate QualifiesAsPlugin(fileName: string, name: string) {
    && HasJarExtension(fileName)
    && StartsWith(fileName, name)
    && !(exists i :: OccursAt(fileName, "javadoc", i))
    && !(exists i :: OccursAt(fileName, "sources", i))
  }

  /** The filter lambda of `getPluginFile`, check by check. */
  function IsPluginFileName(fileName: string, name: string): (r: bool)
    ensures r <==> QualifiesAsPlugin(fileName, name)
  {
    ExtensionTestEquivalent(fileName);
    var extensionIndex := LastIndexOf(fileName, '.');
    if extensionIndex <= 0 then false
    else if !EqualsIgnoreCase(fileName[extensionIndex..], ".jar") then false
    else if !StartsWith(fileName, name) then false
    else if Contains(fileName, "javadoc") then false
    else !Contains(fileName, "sources")
  }

  /** Only ASCII capitals are folded, so nothing else lowers to a dot or a letter of "jar". */
  lemma LowerOfNonLetter(c: char, d: char)
    requires ToLowerAscii(c) == d && !('a' <= d <= 'z')
    ensures c == d
  {
  }

  /**
   * The extension test (last dot after index 0, suffix from it equal to ".jar"
   * ignoring case) is the same as "at least five characters, the last four
   * being .jar ignoring case", because "jar" holds no dot.
   */
  lemma ExtensionTestEquivalent(fileName: string)
    ensures var k := LastIndexOf(fileName, '.');
            (k > 0 && EqualsIgnoreCase(fileName[k..], ".jar")) <==> HasJarExtension(fileName)
  {
    var k := LastIndexOf(fileName, '.');
    var n := |fileName|;
    if HasJarExtension(fileName) {
      assert ToLowerAscii(fileName[n - 4..][0]) == '.';
      LowerOfNonLetter(fileName[n - 4], '.');
      assert fileName[n - 4] == '.';
      forall j | n - 4 < j < n
        ensures fileName[j] != '.'
      {
        assert ToLowerAscii(fileName[n - 4..][j - (n - 4)]) in "jar";
      }
      assert k == n - 4;
    }
  }

  /** Whether a walk entry is a candidate: not a directory, and its name passes the filter. */
  predicate Accepts(e: Entry, name: string) {
    !e.isDirectory && IsPluginFileName(FileName(e.path), name)
  }

  /** Entry `i` is the first entry of the walk that `keep` accepts. */
  predicate FirstKept(entries: seq<Entry>, keep: Entry -> bool, i: int) {
    && 0 <= i < |entries|
    && keep(entries[i])
    && forall j :: 0 <= j < i ==> !keep(entries[j])
  }

  /** Entry `i` is the first candidate of the walk. */
  predicate FirstAccepted(entries: seq<Entry>, name: string, i: int) {
    FirstKept(entries, e => Accepts(e, name), i)
  }

  /** `stream.filter(keep).toList()`, keeping the paths, in walk order. */
  function KeptPaths(entries: seq<Entry>, keep: Entry -> bool): (r: seq<Path>)
    ensures |r| == 0 <==> forall i :: 0 <= i < |entries| ==> !keep(entries[i])
    ensures |r| > 0 ==> exists i :: FirstKept(entries, keep, i) && entries[i].path == r[0]
    ensures forall p :: p in r ==> exists i :: 0 <= i < |entries| && keep(entries[i]) && entries[i].path == p
    decreases |entries|
  {
    if |entries| == 0 then []
    else
      var rest := KeptPaths(entries[1..], keep);
      KeptPathsStep(entries, keep, rest);
      if keep(entries[0]) then [entries[0].path] + rest else rest
  }

  /** How the kept paths of a walk follow from those of its tail. */
  lemma KeptPathsStep(entries: seq<Entry>, keep: Entry -> bool, rest: seq<Path>)
    requires |entries| > 0
    requires |rest| == 0 <==> forall i :: 0 <= i < |entries| - 1 ==> !keep(entries[1..][i])
    requires |rest| > 0 ==> exists i :: FirstKept(entries[1..], keep, i) && entries[1..][i].path == rest[0]
    requires forall p :: p in rest ==> exists i :: 0 <= i < |entries| - 1 && keep(entries[1..][i]) && entries[1..][i].path == p
    ensures var r := if keep(entries[0]) then [entries[0].path] + rest else rest;
            && (|r| == 0 <==> forall i :: 0 <= i < |entries| ==> !keep(entries[i]))
            && (|r| > 0 ==> exists i :: FirstKept(entries, keep, i) && entries[i].path == r[0])
            && (forall p :: p in r ==> exists i :: 0 <= i < |entries| && keep(entries[i]) && entries[i].path == p)
  {
    var tail := entries[1..];
    assert forall i :: 0 <= i < |tail| ==> tail[i] == entries[i + 1];
    forall p | p in rest
      ensures exists i :: 0 <= i < |entries| && keep(entries[i]) && entries[i].path == p
    {
      var i :| 0 <= i < |tail| && keep(tail[i]) && tail[i].path == p;
      assert entries[i + 1] == tail[i];
    }
    if keep(entries[0]) {
      assert FirstKept(entries, keep, 0);
    } else if |rest| > 0 {
      var i :| FirstKept(tail, keep, i) && tail[i].path == rest[0];
      assert FirstKept(entries, keep, i + 1);
    } else {
      forall i | 0 <= i < |entries|
        ensures !keep(entries[i])
      {
        if i > 0 {
          assert entries[i] == tail[i - 1];
        }
      }
    }
  }

  /**
   * `getPluginFile(dir, name)` given the walk of `dir`: the first candidate,
   * null when there is none or the walk could not start, and an escaping
   * exception when the walk failed part-way.
   */
  function GetPluginFile(walk: Walk, name: string): (r: Lookup)
    ensures r.Escaped? <==> walk.TraversalFailed?
    ensures r == Returned(None) <==>
              walk.StartFailed? ||
              (walk.Listed? && forall i :: 0 <= i < |walk.entries| ==> !Accepts(walk.entries[i], name))
    ensures r.Returned? && r.file.Some? ==>
              walk.Listed? &&
              exists i :: FirstAccepted(walk.entries, name, i) && walk.entries[i].path == r.file.value
  {
    match walk
    case StartFailed => Returned(None)
    case TraversalFailed => Escaped
    case Listed(entries) =>
      var results := KeptPaths(entries, e => Accepts(e, name));
      if |results| > 0 then Returned(Some(results[0])) else Returned(None)
  }

  /**
   * A returned artifact is a non-directory entry of the walk whose file name
   * qualifies, and no earlier entry of the walk qualifies.
   */
  lemma FoundFileQualifies(walk: Walk, name: string, p: Path)
    requires GetPluginFile(walk, name) == Returned(Some(p))
    ensures walk.Listed?
    ensures exists i :: 0 <= i < |walk.entries| && walk.entries[i] == Entry(p, false)
    ensures QualifiesAsPlugin(FileName(p), name)
  {
    var i :| FirstAccepted(walk.entries, name, i) && walk.entries[i].path == p;
    assert Accepts(walk.entries[i], name);
    assert walk.entries[i] == Entry(p, false);
  }

  /** With exactly one qualifying entry in the walk, its path is what the lookup returns. */
  lemma SoleCandidateIsReturned(entries: seq<Entry>, name: string, k: int)
    requires 0 <= k < |entries| && Accepts(entries[k], name)
    requires forall j :: 0 <= j < |entries| && j != k ==> !Accepts(entries[j], name)
    ensures GetPluginFile(Listed(entries), name) == Returned(Some(entries[k].path))
  {
    var r := GetPluginFile(Listed(entries), name);
    assert r != Returned(None);
    var i :| FirstAccepted(entries, name, i) && entries[i].path == r.file.value;
    if i != k {
      assert !Accepts(entries[i], name);
    }
  }
}

