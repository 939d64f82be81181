/**
 * Running the swap again. When no I/O fails and the lookups return the same
 * old and new artifacts, a second run leaves the live directory exactly as
 * the first one did: its deletions remove what is already gone (or what the
 * first run installed, which it installs again), and its copies write the
 * same content to the same destinations.
 */
module Rerun {
  import opened Wrappers
  import opened Paths
  import Files
  import opened ServerTester

  /**
   * The artifacts can be installed without a fault-free run failing: each
   * lookup found a file, the files exist, none of them is an old artifact
   * that the removal phase deletes, none lies in the destination directory,
   * and their names are distinct.
   */
  predicate Installable(fs: Files.FileSystem, dir: Path, olds: seq<Option<Path>>, news: seq<Option<Path>>) {
    && DistinctNames(news)
    && forall i :: 0 <= i < |news| ==>
         && news[i].Some? && |news[i].value| > 0
         && news[i].value in fs
         && news[i].value !in Located(olds)
         && Parent(news[i].value) != dir
  }

  /** `p` is the destination of none of the artifacts. */
  ghost predicate NoTarget(dir: Path, news: seq<Option<Path>>, p: Path) {
    forall i :: 0 <= i < |news| ==> NewPluginPath(dir, news[i]) != Some(p)
  }

  /** The live directory after a fault-free removal phase followed by a fault-free installation phase. */
  function Swap(fs: Files.FileSystem, dir: Path, olds: seq<Option<Path>>, news: seq<Option<Path>>): Files.FileSystem {
    CopyAll(DeleteAll(fs, olds, {}).fs, dir, news, {}).fs
  }

  /**
   * `r` is what the swap makes of `fs`: every artifact sits at its destination
   * with its content from `fs`; any other path survives, unchanged, exactly
   * when it existed and was not an old artifact.
   */
  ghost predicate SwappedFrom(fs: Files.FileSystem, dir: Path, olds: seq<Option<Path>>, news: seq<Option<Path>>, r: Files.FileSystem)
    requires Installable(fs, dir, olds, news)
  {
    && (forall i :: 0 <= i < |news| ==>
          var target := NewPluginPath(dir, news[i]).value;
          target in r && r[target] == fs[news[i].value])
    && (forall p :: NoTarget(dir, news, p) ==>
          (p in r <==> p in fs && p !in Located(olds)) && (p in r ==> r[p] == fs[p]))
  }

  /** The fault-free swap of installable artifacts completes, with the state `SwappedFrom` describes. */
  lemma SwapResult(fs: Files.FileSystem, dir: Path, olds: seq<Option<Path>>, news: seq<Option<Path>>)
    requires Installable(fs, dir, olds, news)
    ensures !DeleteAll(fs, olds, {}).failed
    ensures !CopyAll(DeleteAll(fs, olds, {}).fs, dir, news, {}).failed
    ensures SwappedFrom(fs, dir, olds, news, Swap(fs, dir, olds, news))
  {
    var deletion := DeleteAll(fs, olds, {});
    var copying := CopyAll(deletion.fs, dir, news, {});
    InstallPhaseCompletes(fs, olds, deletion.fs, dir, news, copying);
  }

  /**
   * The installation phase over what the removal phase left: with no faults
   * and every artifact present outside the destination directory, it
   * completes and yields the swapped state.
   */
  lemma InstallPhaseCompletes(fs: Files.FileSystem, olds: seq<Option<Path>>, removed: Files.FileSystem,
                              dir: Path, news: seq<Option<Path>>, copying: Phase)
    requires Installable(fs, dir, olds, news)
    requires removed == fs - Located(olds)
    requires |copying.trace| <= |news|
    requires forall i :: 0 <= i < |copying.trace| ==> InstallOf(dir, news[i], copying.trace[i])
    requires copying.failed ==> |copying.trace| < |news| && Install(copying.fs, dir, news[|copying.trace|], {}).Err?
    requires !copying.failed ==> |copying.trace| == |news|
    requires forall p :: p !in Targets(copying.trace) ==> (p in copying.fs <==> p in removed) && (p in removed ==> copying.fs[p] == removed[p])
    requires InstalledFromSources(removed, copying)
    ensures !copying.failed
    ensures SwappedFrom(fs, dir, olds, news, copying.fs)
  {
    TargetsOfInstallations(dir, news, copying.trace);
    forall k | 0 <= k < |news|
      ensures Install(copying.fs, dir, news[k], {}).Ok?
    {
      assert news[k].value !in Targets(copying.trace);
    }
    forall i | 0 <= i < |news|
      ensures NewPluginPath(dir, news[i]).value in copying.fs
      ensures copying.fs[NewPluginPath(dir, news[i]).value] == fs[news[i].value]
    {
      assert InstallOf(dir, news[i], copying.trace[i]);
    }
  }

  /** The installations of `trace` write into `dir`, and only at the artifacts' destinations. */
  lemma TargetsOfInstallations(dir: Path, news: seq<Option<Path>>, trace: seq<Action>)
    requires |trace| <= |news|
    requires forall i :: 0 <= i < |trace| ==> InstallOf(dir, news[i], trace[i])
    ensures forall p :: p in Targets(trace) ==> Parent(p) == dir
    ensures forall p :: NoTarget(dir, news, p) ==> p !in Targets(trace)
  {
    forall p | p in Targets(trace)
      ensures Parent(p) == dir && !NoTarget(dir, news, p)
    {
      var a :| a in trace && a.Installed? && a.target == p;
      var i :| 0 <= i < |trace| && trace[i] == a;
      assert InstallOf(dir, news[i], a);
      assert NewPluginPath(dir, news[i]) == Some(p);
    }
  }

  /**
   * Swapping the same artifacts again changes nothing: the first swap leaves
   * them installable, and the second reproduces the first one's state.
   */
  lemma SwapIdempotent(fs: Files.FileSystem, dir: Path, olds: seq<Option<Path>>, news: seq<Option<Path>>)
    requires Installable(fs, dir, olds, news)
    ensures Installable(Swap(fs, dir, olds, news), dir, olds, news)
    ensures Swap(Swap(fs, dir, olds, news), dir, olds, news) == Swap(fs, dir, olds, news)
  {
    var once := Swap(fs, dir, olds, news);
    SwapResult(fs, dir, olds, news);
    SwappedKeepsInstallable(fs, dir, olds, news, once);
    var twice := Swap(once, dir, olds, news);
    SwapResult(once, dir, olds, news);
    SwappedTwice(fs, dir, olds, news, once, twice);
  }

  /** The swapped state still holds every artifact, with its content, so they remain installable. */
  lemma SwappedKeepsInstallable(fs: Files.FileSystem, dir: Path, olds: seq<Option<Path>>, news: seq<Option<Path>>,
                                once: Files.FileSystem)
    requires Installable(fs, dir, olds, news) && SwappedFrom(fs, dir, olds, news, once)
    ensures Installable(once, dir, olds, news)
    ensures forall i :: 0 <= i < |news| ==> once[news[i].value] == fs[news[i].value]
  {
    forall i | 0 <= i < |news|
      ensures news[i].value in once && once[news[i].value] == fs[news[i].value]
    {
      SourceIsNoTarget(dir, news, i);
    }
  }

  /** Swapping a swapped state reproduces it. */
  lemma SwappedTwice(fs: Files.FileSystem, dir: Path, olds: seq<Option<Path>>, news: seq<Option<Path>>,
                     once: Files.FileSystem, twice: Files.FileSystem)
    requires Installable(fs, dir, olds, news) && SwappedFrom(fs, dir, olds, news, once)
    requires Installable(once, dir, olds, news) && SwappedFrom(once, dir, olds, news, twice)
    requires forall i :: 0 <= i < |news| ==> once[news[i].value] == fs[news[i].value]
    ensures twice == once
  {
    forall p
      ensures (p in twice <==> p in once) && (p in once ==> twice[p] == once[p])
    {
      if !NoTarget(dir, news, p) {
        var i :| 0 <= i < |news| && NewPluginPath(dir, news[i]) == Some(p);
        assert twice[p] == once[news[i].value];
      }
    }
  }

  /** An artifact outside the destination directory is no artifact's destination. */
  lemma SourceIsNoTarget(dir: Path, news: seq<Option<Path>>, k: int)
    requires 0 <= k < |news| && news[k].Some? && Parent(news[k].value) != dir
    ensures NoTarget(dir, news, news[k].value)
  {
    forall i | 0 <= i < |news| && NewPluginPath(dir, news[i]).Some?
      ensures NewPluginPath(dir, news[i]).value != news[k].value
    {
      assert Parent(NewPluginPath(dir, news[i]).value) == dir;
    }
  }

  /**
   * A fault-free run whose lookups return installable artifacts launches the
   * server, and its filesystem is the swap of the old artifacts for the new.
   */
  lemma FaultFreeRunSwaps(w: World, names: seq<string>)
    requires |w.oldWalks| == |names| && |w.newWalks| == |names| && w.faults == {}
    requires LookupAll(w.oldWalks, names).Resolved? && LookupAll(w.newWalks, names).Resolved?
    requires Installable(w.fs, w.pluginsDir, LookupAll(w.oldWalks, names).files, LookupAll(w.newWalks, names).files)
    ensures Run(w, names).outcome == ServerLaunched
    ensures Run(w, names).fs
            == Swap(w.fs, w.pluginsDir, LookupAll(w.oldWalks, names).files, LookupAll(w.newWalks, names).files)
  {
    SwapResult(w.fs, w.pluginsDir, LookupAll(w.oldWalks, names).files, LookupAll(w.newWalks, names).files);
  }

  /**
   * Running `main` twice in succession, against lookups that return the same
   * artifacts and with no I/O failing, leaves the filesystem as one run left it.
   */
  lemma RerunChangesNothing(w: World, names: seq<string>)
    requires |w.oldWalks| == |names| && |w.newWalks| == |names| && w.faults == {}
    requires LookupAll(w.oldWalks, names).Resolved? && LookupAll(w.newWalks, names).Resolved?
    requires Installable(w.fs, w.pluginsDir, LookupAll(w.oldWalks, names).files, LookupAll(w.newWalks, names).files)
    ensures Run(w.(fs := Run(w, names).fs), names).outcome == ServerLaunched
    ensures Run(w.(fs := Run(w, names).fs), names).fs == Run(w, names).fs
  {
    var olds := LookupAll(w.oldWalks, names).files;
    var news := LookupAll(w.newWalks, names).files;
    FaultFreeRunSwaps(w, names);
    SwapIdempotent(w.fs, w.pluginsDir, olds, news);
    FaultFreeRunSwaps(w.(fs := Run(w, names).fs), names);
  }
}
