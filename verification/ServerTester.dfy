/**
 * The swap that `ServerTester.main` performs before launching the server:
 * look up every managed plugin's old artifact in the live `plugins`
 * directory, delete those artifacts, look up every plugin's freshly built
 * artifact in its build directory, and copy each one into `plugins`.
 * The server is launched only when all of that completed.
 */
module ServerTester {
  import opened Wrappers
  import opened JavaStrings
  import opened Paths
  import Files
  import opened PluginLocator

  /** The managed plugins, in the order `main` handles them. */
  const ManagedPlugins: seq<string> :=
    ["NexusCore", "NexusHub", "NexusMaps", "NexusSurvivalGames", "StarChat", "StarCore", "StarItems"]

  /**
   * Everything the run depends on besides its own logic: the filesystem, the
   * live plugins directory, the walk each lookup sees (one per managed plugin,
   * for the old and for the new artifact), and the paths whose I/O fails.
   */
  datatype World = World(
    fs: Files.FileSystem,
    pluginsDir: Path,
    oldWalks: seq<Walk>,
    newWalks: seq<Walk>,
    faults: set<Path>)

  /** A filesystem mutation that took place. */
  datatype Action = Removed(path: Path) | Installed(source: Path, target: Path)

  /** Where the run stopped. */
  datatype Outcome =
    | LookupEscaped   // an UncheckedIOException left a lookup and ended `main`
    | DeleteFailed    // caught at the deletion `try`; `main` returned
    | CopyFailed      // caught at the copy `try`; `main` returned
    | ServerLaunched  // control reached the server launch

  datatype RunResult = RunResult(fs: Files.FileSystem, trace: seq<Action>, outcome: Outcome)

  /** The progress of one of the two mutation phases. */
  datatype Phase = Phase(fs: Files.FileSystem, trace: seq<Action>, failed: bool)

  /** `deleteIfExists(path)`: nothing to do for null; otherwise `Files.deleteIfExists`. */
  function DeleteIfExists(fs: Files.FileSystem, path: Option<Path>, faults: set<Path>): (r: Result<Files.FileSystem, Files.IoError>)
    ensures path.None? ==> r == Ok(fs)
    ensures r.Err? <==> path.Some? && path.value in faults
    ensures r.Ok? && path.Some? ==> path.value !in r.value
    ensures r.Ok? ==> forall p :: path != Some(p) ==> (p in r.value <==> p in fs) && (p in fs ==> r.value[p] == fs[p])
  {
    match path
    case None => Ok(fs)
    case Some(p) => Files.DeleteIfExists(fs, p, faults)
  }

  /**
   * `Files.copy(file, newPluginPath(dir, file), REPLACE_EXISTING)`: install one
   * new artifact under its own file name. A null artifact fails already inside
   * `newPluginPath`.
   */
  function Install(fs: Files.FileSystem, dir: Path, file: Option<Path>, faults: set<Path>): (r: Result<Files.FileSystem, Files.IoError>)
    ensures file.None? ==> r == Err(Files.NullPointer)
    ensures r.Err? <==>
              || NewPluginPath(dir, file).None?
              || file.value !in fs
              || file.value in faults
              || NewPluginPath(dir, file).value in faults
    ensures r.Ok? ==>
              var target := NewPluginPath(dir, file).value;
              && target in r.value && r.value[target] == fs[file.value]
              && forall p :: p != target ==> (p in r.value <==> p in fs) && (p in fs ==> r.value[p] == fs[p])
  {
    match NewPluginPath(dir, file)
    case None => Err(Files.NullPointer)
    case Some(target) => Files.Copy(fs, file.value, target, faults)
  }

  /** Every path among `files` that is not null. */
  function Located(files: seq<Option<Path>>): (r: set<Path>)
    ensures forall p :: p in r <==> exists i :: 0 <= i < |files| && files[i] == Some(p)
  {
    set i | 0 <= i < |files| && files[i].Some? :: files[i].value
  }

  /** The located path that comes first decomposes a nonempty list. */
  lemma LocatedCons(files: seq<Option<Path>>)
    requires |files| > 0
    ensures Located(files) == (if files[0].Some? then {files[0].value} else {}) + Located(files[1..])
  {
    var head := if files[0].Some? then {files[0].value} else {};
    forall p | p in Located(files)
      ensures p in head + Located(files[1..])
    {
      var i :| 0 <= i < |files| && files[i] == Some(p);
      if i > 0 {
        assert files[1..][i - 1] == files[i];
      }
    }
    forall p | p in Located(files[1..])
      ensures p in Located(files)
    {
      var i :| 0 <= i < |files[1..]| && files[1..][i] == Some(p);
      assert files[i + 1] == Some(p);
    }
  }

  /** Deletion `k` is the first one that throws. */
  predicate FirstFaulty(olds: seq<Option<Path>>, faults: set<Path>, k: int) {
    && 0 <= k < |olds|
    && olds[k].Some? && olds[k].value in faults
    && forall i :: 0 <= i < k && olds[i].Some? ==> olds[i].value !in faults
  }

  /** Every action of `trace` removes a located path among `olds`. */
  predicate RemovalsAmong(olds: seq<Option<Path>>, trace: seq<Action>) {
    forall a :: a in trace ==> a.Removed? && a.path in Located(olds)
  }

  /** Every located path among `olds` has a removal recorded in `trace`. */
  predicate RemovedAll(olds: seq<Option<Path>>, trace: seq<Action>) {
    forall p :: p in Located(olds) ==> Removed(p) in trace
  }

  /**
   * The seven `deleteIfExists` calls inside one `try`: the first exception
   * stops the rest, and the deletions made before it stay made.
   */
  function DeleteAll(fs: Files.FileSystem, olds: seq<Option<Path>>, faults: set<Path>): (r: Phase)
    ensures forall a :: a in r.trace ==> a.Removed? && a.path in Located(olds)
    ensures !r.failed <==> forall i :: 0 <= i < |olds| && olds[i].Some? ==> olds[i].value !in faults
    ensures !r.failed ==> r.fs == fs - Located(olds) && RemovedAll(olds, r.trace)
    ensures r.failed ==> exists k :: FirstFaulty(olds, faults, k) && r.fs == fs - Located(olds[..k])
                                     && RemovedAll(olds[..k], r.trace) && RemovalsAmong(olds[..k], r.trace)
    decreases |olds|
  {
    if |olds| == 0 then Phase(fs, [], false)
    else
      match DeleteIfExists(fs, olds[0], faults)
      case Err(_) =>
        assert FirstFaulty(olds, faults, 0) && fs - Located(olds[..0]) == fs && RemovedAll(olds[..0], []) && RemovalsAmong(olds[..0], []);
        Phase(fs, [], true)
      case Ok(fs1) =>
        var rest := DeleteAll(fs1, olds[1..], faults);
        DeleteAllStep(fs, olds, faults, fs1, rest);
        Phase(rest.fs, (if olds[0].Some? then [Removed(olds[0].value)] else []) + rest.trace, rest.failed)
  }

  /**
   * Every removal the phase records took place: its path is not one whose
   * deletion throws, and it is gone afterwards, whether or not the phase failed.
   */
  lemma RecordedRemovalsTookPlace(fs: Files.FileSystem, olds: seq<Option<Path>>, faults: set<Path>)
    ensures forall a :: a in DeleteAll(fs, olds, faults).trace ==>
              a.path !in faults && a.path !in DeleteAll(fs, olds, faults).fs
  {
    var r := DeleteAll(fs, olds, faults);
    if r.failed {
      var k :| FirstFaulty(olds, faults, k) && r.fs == fs - Located(olds[..k])
               && RemovedAll(olds[..k], r.trace) && RemovalsAmong(olds[..k], r.trace);
      forall a | a in r.trace
        ensures a.path !in faults && a.path !in r.fs
      {
        var i :| 0 <= i < k && olds[..k][i] == Some(a.path);
        assert olds[i] == Some(a.path);
      }
    }
  }

  /** How a successful first deletion combines with the deletion of the rest. */
  lemma DeleteAllStep(fs: Files.FileSystem, olds: seq<Option<Path>>, faults: set<Path>, fs1: Files.FileSystem, rest: Phase)
    requires |olds| > 0
    requires DeleteIfExists(fs, olds[0], faults) == Ok(fs1)
    requires forall a :: a in rest.trace ==> a.Removed? && a.path in Located(olds[1..])
    requires !rest.failed <==> forall i :: 0 <= i < |olds| - 1 && olds[1..][i].Some? ==> olds[1..][i].value !in faults
    requires !rest.failed ==> rest.fs == fs1 - Located(olds[1..]) && RemovedAll(olds[1..], rest.trace)
    requires rest.failed ==> exists k :: FirstFaulty(olds[1..], faults, k) && rest.fs == fs1 - Located(olds[1..][..k])
                                         && RemovedAll(olds[1..][..k], rest.trace) && RemovalsAmong(olds[1..][..k], rest.trace)
    ensures var trace := (if olds[0].Some? then [Removed(olds[0].value)] else []) + rest.trace;
            forall a :: a in trace ==> a.Removed? && a.path in Located(olds)
    ensures !rest.failed <==> forall i :: 0 <= i < |olds| && olds[i].Some? ==> olds[i].value !in faults
    ensures var trace := (if olds[0].Some? then [Removed(olds[0].value)] else []) + rest.trace;
            !rest.failed ==> rest.fs == fs - Located(olds) && RemovedAll(olds, trace)
    ensures var trace := (if olds[0].Some? then [Removed(olds[0].value)] else []) + rest.trace;
            rest.failed ==> exists k :: FirstFaulty(olds, faults, k) && rest.fs == fs - Located(olds[..k])
                                        && RemovedAll(olds[..k], trace) && RemovalsAmong(olds[..k], trace)
  {
    DeletedHead(fs, olds[0], faults, fs1);
    LocatedCons(olds);
    assert forall i :: 0 <= i < |olds| - 1 ==> olds[1..][i] == olds[i + 1];
    if rest.failed {
      var k :| FirstFaulty(olds[1..], faults, k) && rest.fs == fs1 - Located(olds[1..][..k])
               && RemovedAll(olds[1..][..k], rest.trace) && RemovalsAmong(olds[1..][..k], rest.trace);
      DeleteStepFailed(fs, olds, faults, fs1, rest, k);
    } else {
      RemovedAllCons(olds, rest.trace);
    }
  }

  /** Recording the first removal in front of the rest's keeps every located path recorded. */
  lemma RemovedAllCons(olds: seq<Option<Path>>, rest: seq<Action>)
    requires |olds| > 0 && RemovedAll(olds[1..], rest)
    ensures RemovedAll(olds, (if olds[0].Some? then [Removed(olds[0].value)] else []) + rest)
  {
    LocatedCons(olds);
  }

  /** A successful `deleteIfExists` removes exactly its own path. */
  lemma DeletedHead(fs: Files.FileSystem, path: Option<Path>, faults: set<Path>, fs1: Files.FileSystem)
    requires DeleteIfExists(fs, path, faults) == Ok(fs1)
    ensures fs1 == fs - (if path.Some? then {path.value} else {})
  {
  }

  /** A failure at index `k` of the rest is the first failure, at `k + 1`, of the whole. */
  lemma DeleteStepFailed(fs: Files.FileSystem, olds: seq<Option<Path>>, faults: set<Path>, fs1: Files.FileSystem,
                         rest: Phase, k: int)
    requires |olds| > 0 && !(olds[0].Some? && olds[0].value in faults)
    requires fs1 == fs - (if olds[0].Some? then {olds[0].value} else {})
    requires FirstFaulty(olds[1..], faults, k) && rest.fs == fs1 - Located(olds[1..][..k])
    requires RemovedAll(olds[1..][..k], rest.trace) && RemovalsAmong(olds[1..][..k], rest.trace)
    ensures FirstFaulty(olds, faults, k + 1) && rest.fs == fs - Located(olds[..k + 1])
    ensures RemovedAll(olds[..k + 1], (if olds[0].Some? then [Removed(olds[0].value)] else []) + rest.trace)
    ensures RemovalsAmong(olds[..k + 1], (if olds[0].Some? then [Removed(olds[0].value)] else []) + rest.trace)
  {
    assert forall i :: 0 <= i < |olds| - 1 ==> olds[1..][i] == olds[i + 1];
    LocatedCons(olds[..k + 1]);
    assert olds[..k + 1][1..] == olds[1..][..k];
    assert olds[..k + 1][0] == olds[0];
    RemovedAllCons(olds[..k + 1], rest.trace);
  }

  /** The destinations written by the installations of a trace. */
  function Targets(trace: seq<Action>): (r: set<Path>)
    ensures forall p :: p in r <==> exists a :: a in trace && a.Installed? && a.target == p
  {
    set a | a in trace && a.Installed? :: a.target
  }

  /** The installation a successful copy of `file` records. */
  predicate InstallOf(dir: Path, file: Option<Path>, a: Action) {
    file.Some? && |file.value| > 0 && a == Installed(file.value, NewPluginPath(dir, file).value)
  }

  /**
   * The seven `Files.copy` calls inside one `try`: the first exception, a null
   * artifact included, stops the remaining copies.
   */
  function CopyAll(fs: Files.FileSystem, dir: Path, news: seq<Option<Path>>, faults: set<Path>): (r: Phase)
    ensures |r.trace| <= |news|
    ensures !r.failed ==> |r.trace| == |news|
    ensures forall i :: 0 <= i < |r.trace| ==> InstallOf(dir, news[i], r.trace[i])
    ensures r.failed ==> |r.trace| < |news| && Install(r.fs, dir, news[|r.trace|], faults).Err?
    ensures forall p :: p in Targets(r.trace) ==> p in r.fs
    ensures forall p :: p !in Targets(r.trace) ==> (p in r.fs <==> p in fs) && (p in fs ==> r.fs[p] == fs[p])
    ensures DistinctNames(news) ==> InstalledFromSources(fs, r)
    decreases |news|
  {
    if |news| == 0 then Phase(fs, [], false)
    else
      match Install(fs, dir, news[0], faults)
      case Err(_) => Phase(fs, [], true)
      case Ok(fs1) =>
        var rest := CopyAll(fs1, dir, news[1..], faults);
        var first := Installed(news[0].value, NewPluginPath(dir, news[0]).value);
        CopyAllStepTrace(dir, news, first, rest.trace);
        CopyAllStepFrame(fs, fs1, rest.fs, first, rest.trace);
        CopyAllStepContent(fs, fs1, dir, news, first, rest);
        assert rest.failed ==> news[1..][|rest.trace|] == news[|rest.trace| + 1] by {
          if rest.failed {
            assert news[1..][|rest.trace|] == news[|rest.trace| + 1];
          }
        }
        Phase(rest.fs, [first] + rest.trace, rest.failed)
  }

  /** The recorded installations line up with the artifacts after one more in front. */
  lemma CopyAllStepTrace(dir: Path, news: seq<Option<Path>>, first: Action, rest: seq<Action>)
    requires |news| > 0 && InstallOf(dir, news[0], first)
    requires |rest| <= |news| - 1
    requires forall i :: 0 <= i < |rest| ==> InstallOf(dir, news[1..][i], rest[i])
    ensures forall i :: 0 <= i < |rest| + 1 ==> InstallOf(dir, news[i], ([first] + rest)[i])
  {
    forall i | 0 <= i < |rest| + 1
      ensures InstallOf(dir, news[i], ([first] + rest)[i])
    {
      if i > 0 {
        assert news[1..][i - 1] == news[i];
      }
    }
  }

  /** Every installation of the phase left its target holding its source's content from before the phase. */
  predicate InstalledFromSources(before: Files.FileSystem, r: Phase) {
    forall i :: 0 <= i < |r.trace| ==>
      && r.trace[i].Installed?
      && r.trace[i].source in before
      && r.trace[i].target in r.fs
      && r.fs[r.trace[i].target] == before[r.trace[i].source]
  }

  /** One copy followed by the rest installs the sources' original content, when names are distinct. */
  lemma CopyAllStepContent(fs: Files.FileSystem, fs1: Files.FileSystem, dir: Path, news: seq<Option<Path>>,
                           first: Action, rest: Phase)
    requires |news| > 0 && InstallOf(dir, news[0], first)
    requires first.source in fs && first.target in fs1 && fs1[first.target] == fs[first.source]
    requires forall p :: p != first.target ==> (p in fs1 <==> p in fs) && (p in fs ==> fs1[p] == fs[p])
    requires |rest.trace| <= |news| - 1
    requires forall i :: 0 <= i < |rest.trace| ==> InstallOf(dir, news[1..][i], rest.trace[i])
    requires forall p :: p !in Targets(rest.trace) ==> (p in rest.fs <==> p in fs1) && (p in fs1 ==> rest.fs[p] == fs1[p])
    requires DistinctNames(news[1..]) ==> InstalledFromSources(fs1, rest)
    ensures DistinctNames(news) ==> InstalledFromSources(fs, Phase(rest.fs, [first] + rest.trace, rest.failed))
  {
    if DistinctNames(news) {
      var tail := news[1..];
      assert forall i :: 0 <= i < |rest.trace| ==> tail[i] == news[i + 1];
      assert DistinctNames(tail);
      FirstTargetUntouched(dir, news, first, rest.trace);
      var trace := [first] + rest.trace;
      forall i | 0 <= i < |trace|
        ensures trace[i].Installed? && trace[i].source in fs && trace[i].target in rest.fs
        ensures rest.fs[trace[i].target] == fs[trace[i].source]
      {
        if i > 0 {
          var a := rest.trace[i - 1];
          assert trace[i] == a;
          assert a.source != first.target;
        }
      }
    }
  }

  /** One copy followed by the rest changes the filesystem only at their targets. */
  lemma CopyAllStepFrame(fs: Files.FileSystem, fs1: Files.FileSystem, fs2: Files.FileSystem, first: Action, rest: seq<Action>)
    requires first.Installed?
    requires first.target in fs1
    requires forall p :: p != first.target ==> (p in fs1 <==> p in fs) && (p in fs ==> fs1[p] == fs[p])
    requires forall p :: p in Targets(rest) ==> p in fs2
    requires forall p :: p !in Targets(rest) ==> (p in fs2 <==> p in fs1) && (p in fs1 ==> fs2[p] == fs1[p])
    ensures forall p :: p in Targets([first] + rest) ==> p in fs2
    ensures forall p :: p !in Targets([first] + rest) ==> (p in fs2 <==> p in fs) && (p in fs ==> fs2[p] == fs[p])
  {
    assert Targets([first] + rest) == {first.target} + Targets(rest);
  }

  /** Number of installations in a trace. */
  function InstalledCount(trace: seq<Action>): nat {
    if |trace| == 0 then 0
    else (if trace[0].Installed? then 1 else 0) + InstalledCount(trace[1..])
  }

  /** Lookups of several plugins in a row: the first escaping exception ends them. */
  datatype Lookups = Resolved(files: seq<Option<Path>>) | Interrupted

  /**
   * Consecutive lookups: the first escaping exception ends them, otherwise
   * each yields its path or null. Lookups have no side effects, so the ones
   * after an escape are never observed.
   */
  function Collect(lookups: seq<Lookup>): (r: Lookups)
    ensures r.Resolved? <==> forall i :: 0 <= i < |lookups| ==> !lookups[i].Escaped?
    ensures r.Resolved? ==> |r.files| == |lookups| && forall i :: 0 <= i < |lookups| ==> lookups[i] == Returned(r.files[i])
    decreases |lookups|
  {
    if |lookups| == 0 then Resolved([])
    else
      match lookups[0]
      case Escaped => Interrupted
      case Returned(file) =>
        var rest := Collect(lookups[1..]);
        assert forall i :: 0 <= i < |lookups| - 1 ==> lookups[1..][i] == lookups[i + 1];
        match rest
        case Interrupted => Interrupted
        case Resolved(files) => Resolved([file] + files)
  }

  /** One `getPluginFile` call per plugin, in order. */
  function LookupAll(walks: seq<Walk>, names: seq<string>): (r: Lookups)
    requires |walks| == |names|
    ensures r.Resolved? ==> |r.files| == |names|
  {
    Collect(seq(|names|, i requires 0 <= i < |names| => GetPluginFile(walks[i], names[i])))
  }

  /**
   * The lookups complete unless one of them escapes, and then each plugin gets
   * what its own `getPluginFile` call returned.
   */
  lemma LookupAllResolves(walks: seq<Walk>, names: seq<string>)
    requires |walks| == |names|
    ensures LookupAll(walks, names).Resolved? <==>
              forall i :: 0 <= i < |names| ==> !GetPluginFile(walks[i], names[i]).Escaped?
    ensures LookupAll(walks, names).Resolved? ==>
              forall i :: 0 <= i < |names| ==> GetPluginFile(walks[i], names[i]) == Returned(LookupAll(walks, names).files[i])
  {
    var lookups := seq(|names|, i requires 0 <= i < |names| => GetPluginFile(walks[i], names[i]));
    assert forall i :: 0 <= i < |names| ==> lookups[i] == GetPluginFile(walks[i], names[i]);
  }

  /** Installations in a trace, counted. */
  lemma {:induction false} InstalledCountAppend(a: seq<Action>, b: seq<Action>)
    ensures InstalledCount(a + b) == InstalledCount(a) + InstalledCount(b)
    decreases |a|
  {
    if |a| == 0 {
      assert a + b == b;
    } else {
      assert (a + b)[1..] == a[1..] + b;
      InstalledCountAppend(a[1..], b);
    }
  }

  /** A trace of removals installs nothing. */
  lemma {:induction false} RemovalsInstallNothing(t: seq<Action>)
    requires forall a :: a in t ==> a.Removed?
    ensures InstalledCount(t) == 0
    decreases |t|
  {
    if |t| > 0 {
      assert t[0] in t;
      assert forall a :: a in t[1..] ==> a in t;
      RemovalsInstallNothing(t[1..]);
    }
  }

  /** A trace of installations counts its length. */
  lemma {:induction false} InstallationsCountLength(t: seq<Action>)
    requires forall a :: a in t ==> a.Installed?
    ensures InstalledCount(t) == |t|
    decreases |t|
  {
    if |t| > 0 {
      assert t[0] in t;
      assert forall a :: a in t[1..] ==> a in t;
      InstallationsCountLength(t[1..]);
    }
  }

  /** No removal in `trace` comes after an installation. */
  predicate RemovalsFirst(trace: seq<Action>) {
    forall i, j :: 0 <= i < j < |trace| && trace[i].Installed? ==> trace[j].Installed?
  }

  /** Removals followed by installations keep every removal first. */
  lemma RemovalsThenInstallations(removals: seq<Action>, installations: seq<Action>)
    requires forall a :: a in removals ==> a.Removed?
    requires forall a :: a in installations ==> a.Installed?
    ensures RemovalsFirst(removals + installations)
  {
    var t := removals + installations;
    forall i, j | 0 <= i < j < |t|
      ensures t[i].Installed? ==> t[j].Installed?
    {
      if j < |removals| {
        assert t[i] == removals[i] && t[i] in removals;
      } else {
        assert t[j] == installations[j - |removals|] && t[j] in installations;
      }
    }
  }

  /** A trace of removals alone. */
  lemma RemovalsOnly(removals: seq<Action>)
    requires forall a :: a in removals ==> a.Removed?
    ensures RemovalsFirst(removals)
    ensures InstalledCount(removals) == 0
  {
    RemovalsInstallNothing(removals);
    forall i | 0 <= i < |removals|
      ensures removals[i].Removed?
    {
      assert removals[i] in removals;
    }
  }

  /** The removal phase's trace followed by the installation phase's. */
  lemma InstallationsCounted(removals: seq<Action>, installations: seq<Action>)
    requires forall a :: a in removals ==> a.Removed?
    requires forall a :: a in installations ==> a.Installed?
    ensures RemovalsFirst(removals + installations)
    ensures InstalledCount(removals + installations) == |installations|
  {
    RemovalsInstallNothing(removals);
    InstallationsCountLength(installations);
    InstalledCountAppend(removals, installations);
    RemovalsThenInstallations(removals, installations);
  }

  /**
   * Lines 53-96 of `main`: old lookups, deletions, new lookups, copies, and the
   * point where the server would be launched.
   */
  function Run(w: World, names: seq<string>): (r: RunResult)
    requires |w.oldWalks| == |names| && |w.newWalks| == |names|
    ensures RemovalsFirst(r.trace)
    ensures LookupAll(w.oldWalks, names).Interrupted? ==> r == RunResult(w.fs, [], LookupEscaped)
    ensures r.outcome == LookupEscaped || r.outcome == DeleteFailed ==> forall a :: a in r.trace ==> a.Removed?
    ensures r.outcome == DeleteFailed ==> forall p :: p in r.fs ==> p in w.fs && r.fs[p] == w.fs[p]
    ensures r.outcome == CopyFailed ==> InstalledCount(r.trace) < |names|
    ensures r.outcome == ServerLaunched ==> InstalledCount(r.trace) == |names|
  {
    match LookupAll(w.oldWalks, names)
    case Interrupted => RunResult(w.fs, [], LookupEscaped)
    case Resolved(olds) =>
      var deletion := DeleteAll(w.fs, olds, w.faults);
      RemovalsOnly(deletion.trace);
      if deletion.failed then
        RunResult(deletion.fs, deletion.trace, DeleteFailed)
      else
        match LookupAll(w.newWalks, names)
        case Interrupted => RunResult(deletion.fs, deletion.trace, LookupEscaped)
        case Resolved(news) =>
          var copying := CopyAll(deletion.fs, w.pluginsDir, news, w.faults);
          InstallationsCounted(deletion.trace, copying.trace);
          RunResult(copying.fs, deletion.trace + copying.trace, if copying.failed then CopyFailed else ServerLaunched)
  }

  /**
   * Once the removal phase has got through, every located old artifact has
   * its removal in the run's trace, whatever happens afterwards.
   */
  lemma CompletedDeletionRemovesAll(w: World, names: seq<string>)
    requires |w.oldWalks| == |names| && |w.newWalks| == |names|
    requires LookupAll(w.oldWalks, names).Resolved? && Run(w, names).outcome != DeleteFailed
    ensures RemovedAll(LookupAll(w.oldWalks, names).files, Run(w, names).trace)
  {
    var deletion := DeleteAll(w.fs, LookupAll(w.oldWalks, names).files, w.faults);
    assert !deletion.failed;
    assert RemovedAll(LookupAll(w.oldWalks, names).files, deletion.trace);
  }

  /** No plugin name is a prefix of another's. */
  predicate PrefixFree(names: seq<string>) {
    forall i, j :: 0 <= i < |names| && 0 <= j < |names| && i != j ==> !StartsWith(names[i], names[j])
  }

  /** The seven managed plugins can never claim the same artifact name. */
  lemma ManagedPluginsPrefixFree()
    ensures PrefixFree(ManagedPlugins)
  {
    var names := ManagedPlugins;
    // The first and sixth characters tell the seven names apart.
    assert names[0][0] == 'N' && names[0][5] == 'C';
    assert names[1][0] == 'N' && names[1][5] == 'H';
    assert names[2][0] == 'N' && names[2][5] == 'M';
    assert names[3][0] == 'N' && names[3][5] == 'S';
    assert names[4][0] == 'S' && names[4][5] == 'h';
    assert names[5][0] == 'S' && names[5][5] == 'o';
    assert names[6][0] == 'S' && names[6][5] == 't';
  }

  /** The located artifacts have pairwise distinct file names. */
  predicate DistinctNames(files: seq<Option<Path>>) {
    forall i, j :: 0 <= i < j < |files| && files[i].Some? && files[j].Some? ==>
      FileName(files[i].value) != FileName(files[j].value)
  }

  /**
   * Artifacts found for plugins whose names are prefix-free have distinct file
   * names: each name starts with its own plugin's name.
   */
  lemma FoundArtifactsDistinct(walks: seq<Walk>, names: seq<string>)
    requires |walks| == |names| && PrefixFree(names)
    requires LookupAll(walks, names).Resolved?
    ensures DistinctNames(LookupAll(walks, names).files)
  {
    var files := LookupAll(walks, names).files;
    LookupAllResolves(walks, names);
    forall i, j | 0 <= i < j < |files| && files[i].Some? && files[j].Some?
      ensures FileName(files[i].value) != FileName(files[j].value)
    {
      FoundFileQualifies(walks[i], names[i], files[i].value);
      FoundFileQualifies(walks[j], names[j], files[j].value);
      if FileName(files[i].value) == FileName(files[j].value) {
        CommonPrefixes(FileName(files[i].value), names[i], names[j]);
        assert false;
      }
    }
  }

  /** A later installation neither writes nor reads the first one's target. */
  lemma FirstTargetUntouched(dir: Path, news: seq<Option<Path>>, first: Action, rest: seq<Action>)
    requires |news| > 0 && DistinctNames(news) && InstallOf(dir, news[0], first)
    requires |rest| <= |news| - 1
    requires forall i :: 0 <= i < |rest| ==> InstallOf(dir, news[i + 1], rest[i])
    ensures first.target !in Targets(rest)
    ensures forall k :: 0 <= k < |rest| ==> rest[k].Installed? && rest[k].source != first.target
  {
    assert FileName(first.target) == FileName(news[0].value);
    forall k | 0 <= k < |rest|
      ensures rest[k].source != first.target && rest[k].target != first.target
    {
      assert InstallOf(dir, news[k + 1], rest[k]);
      assert FileName(rest[k].target) == FileName(news[k + 1].value);
    }
  }

  /**
   * A completed installation phase puts each artifact, under its own file
   * name, in the directory, with the content it had before the phase.
   */
  lemma CompletedCopyAll(fs: Files.FileSystem, dir: Path, news: seq<Option<Path>>, faults: set<Path>)
    requires DistinctNames(news)
    requires !CopyAll(fs, dir, news, faults).failed
    ensures var r := CopyAll(fs, dir, news, faults);
            forall i :: 0 <= i < |news| ==>
              var a := r.trace[i];
              && a.Installed?
              && news[i] == Some(a.source)
              && Parent(a.target) == dir
              && FileName(a.target) == FileName(a.source)
              && a.source in fs
              && a.target in r.fs && r.fs[a.target] == fs[a.source]
  {
    var r := CopyAll(fs, dir, news, faults);
    forall i | 0 <= i < |news|
      ensures r.trace[i].target in r.fs
    {
      assert InstallOf(dir, news[i], r.trace[i]);
    }
  }

  /** What a launched run installed, stated over its two mutation phases. */
  predicate InstalledEachPlugin(w: World, news: seq<Option<Path>>, r: RunResult) {
    && |news| <= |r.trace|
    && forall i :: 0 <= i < |news| ==>
         var a := r.trace[|r.trace| - |news| + i];
         && a.Installed?
         && news[i] == Some(a.source)
         && Parent(a.target) == w.pluginsDir
         && FileName(a.target) == FileName(a.source)
         && a.source in w.fs
         && a.target in r.fs && r.fs[a.target] == w.fs[a.source]
  }

  /**
   * Every located old artifact was removed, and unless a new artifact was
   * installed at the same path, it is absent at the end.
   */
  predicate OldArtifactsGone(olds: seq<Option<Path>>, r: RunResult) {
    forall p :: p in Located(olds) ==> Removed(p) in r.trace && (p !in Targets(r.trace) ==> p !in r.fs)
  }

  /** The launched-run installations, from the facts the two phases establish. */
  lemma LaunchedPhasesInstall(w: World, olds: seq<Option<Path>>, deletion: Phase,
                              news: seq<Option<Path>>, copying: Phase)
    requires deletion.fs == w.fs - Located(olds)
    requires !copying.failed && |copying.trace| == |news|
    requires forall i :: 0 <= i < |copying.trace| ==> InstallOf(w.pluginsDir, news[i], copying.trace[i])
    requires InstalledFromSources(deletion.fs, copying)
    ensures InstalledEachPlugin(w, news, RunResult(copying.fs, deletion.trace + copying.trace, ServerLaunched))
  {
    var r := RunResult(copying.fs, deletion.trace + copying.trace, ServerLaunched);
    forall i | 0 <= i < |news|
      ensures var a := r.trace[|r.trace| - |news| + i];
              && a.Installed?
              && news[i] == Some(a.source)
              && Parent(a.target) == w.pluginsDir
              && FileName(a.target) == FileName(a.source)
              && a.source in w.fs
              && a.target in r.fs && r.fs[a.target] == w.fs[a.source]
    {
      var a := copying.trace[i];
      assert r.trace[|r.trace| - |news| + i] == a;
      assert InstallOf(w.pluginsDir, news[i], a);
      assert a.source in deletion.fs && r.fs[a.target] == deletion.fs[a.source];
    }
  }

  /** The launched-run removals, from the facts the two phases establish. */
  lemma LaunchedPhasesRemove(olds: seq<Option<Path>>, fs: Files.FileSystem, deletion: Phase, copying: Phase)
    requires deletion.fs == fs - Located(olds) && RemovedAll(olds, deletion.trace)
    requires forall a :: a in deletion.trace ==> a.Removed?
    requires forall p :: p !in Targets(copying.trace) ==> (p in copying.fs <==> p in deletion.fs)
    ensures OldArtifactsGone(olds, RunResult(copying.fs, deletion.trace + copying.trace, ServerLaunched))
  {
    var r := RunResult(copying.fs, deletion.trace + copying.trace, ServerLaunched);
    assert Targets(r.trace) == Targets(copying.trace) by {
      forall p | p in Targets(r.trace)
        ensures p in Targets(copying.trace)
      {
        var a :| a in r.trace && a.Installed? && a.target == p;
        assert a !in deletion.trace;
      }
    }
  }

  /**
   * A run that reaches the server launch has installed, for every plugin, the
   * artifact its lookup in the build directory returned, under its own file name directly in the
   * plugins directory, with the content that artifact had before the run;
   * every located old artifact was removed, and is gone unless a new one
   * took its path.
   */
  lemma LaunchedRunInstallsNewArtifacts(w: World, names: seq<string>)
    requires |w.oldWalks| == |names| && |w.newWalks| == |names| && PrefixFree(names)
    requires Run(w, names).outcome == ServerLaunched
    ensures LookupAll(w.newWalks, names).Resolved?
    ensures InstalledEachPlugin(w, LookupAll(w.newWalks, names).files, Run(w, names))
    ensures LookupAll(w.oldWalks, names).Resolved?
    ensures OldArtifactsGone(LookupAll(w.oldWalks, names).files, Run(w, names))
  {
    var olds := LookupAll(w.oldWalks, names).files;
    var deletion := DeleteAll(w.fs, olds, w.faults);
    var news := LookupAll(w.newWalks, names).files;
    FoundArtifactsDistinct(w.newWalks, names);
    var copying := CopyAll(deletion.fs, w.pluginsDir, news, w.faults);
    assert Run(w, names) == RunResult(copying.fs, deletion.trace + copying.trace, ServerLaunched);
    LaunchedPhasesInstall(w, olds, deletion, news, copying);
    LaunchedPhasesRemove(olds, w.fs, deletion, copying);
  }

  /**
   * The code looks up the new artifacts only after deleting the old ones, so
   * a missing new artifact (null) still costs the live directory the old
   * artifact of that plugin: the copy of that null throws and `main`
   * returns, after at most the copies of the plugins before it.
   */
  lemma MissingNewArtifactStillDeletesOld(w: World, names: seq<string>, k: int, stale: Path)
    requires |w.oldWalks| == |names| && |w.newWalks| == |names| && PrefixFree(names)
    requires 0 <= k < |names|
    requires LookupAll(w.oldWalks, names).Resolved?
    requires LookupAll(w.oldWalks, names).files[k] == Some(stale)
    requires !DeleteAll(w.fs, LookupAll(w.oldWalks, names).files, w.faults).failed
    requires LookupAll(w.newWalks, names).Resolved?
    requires LookupAll(w.newWalks, names).files[k] == None
    ensures Run(w, names).outcome == CopyFailed
    ensures stale !in Run(w, names).fs
    ensures InstalledCount(Run(w, names).trace) <= k
  {
    var olds := LookupAll(w.oldWalks, names).files;
    var deletion := DeleteAll(w.fs, olds, w.faults);
    var news := LookupAll(w.newWalks, names).files;
    var copying := CopyAll(deletion.fs, w.pluginsDir, news, w.faults);
    NullArtifactStopsCopies(deletion.fs, w.pluginsDir, news, w.faults, k);
    assert Run(w, names) == RunResult(copying.fs, deletion.trace + copying.trace, CopyFailed);
    LocatedRemoved(w.fs, olds, deletion.fs, k, stale);
    EarlierTargetsSpareOld(w, names, k, stale, copying.trace);
    InstallationsCounted(deletion.trace, copying.trace);
  }

  /** A completed removal phase has removed every located artifact, the one at `k` among them. */
  lemma LocatedRemoved(fs: Files.FileSystem, olds: seq<Option<Path>>, removed: Files.FileSystem, k: int, stale: Path)
    requires 0 <= k < |olds| && olds[k] == Some(stale) && removed == fs - Located(olds)
    ensures stale !in removed
  {
    assert stale in Located(olds);
  }

  /**
   * A null artifact at index `k` fails the installation phase, which by then
   * has installed at most the artifacts before `k`.
   */
  lemma NullArtifactStopsCopies(fs: Files.FileSystem, dir: Path, news: seq<Option<Path>>, faults: set<Path>, k: int)
    requires 0 <= k < |news| && news[k].None?
    ensures CopyAll(fs, dir, news, faults).failed
    ensures |CopyAll(fs, dir, news, faults).trace| <= k
    ensures forall a :: a in CopyAll(fs, dir, news, faults).trace ==> a.Installed?
  {
    var r := CopyAll(fs, dir, news, faults);
    assert forall i :: 0 <= i < |r.trace| ==> news[i].Some? && r.trace[i].Installed?;
  }

  /**
   * With prefix-free plugin names, copying the new artifacts of the plugins
   * before `k` never writes back the old artifact of plugin `k`: each file
   * name starts with its own plugin's name.
   */
  lemma EarlierTargetsSpareOld(w: World, names: seq<string>, k: int, stale: Path, trace: seq<Action>)
    requires |w.oldWalks| == |names| && |w.newWalks| == |names| && PrefixFree(names)
    requires 0 <= k < |names|
    requires LookupAll(w.oldWalks, names).Resolved? && LookupAll(w.oldWalks, names).files[k] == Some(stale)
    requires LookupAll(w.newWalks, names).Resolved?
    requires |trace| <= k
    requires forall i :: 0 <= i < |trace| ==> InstallOf(w.pluginsDir, LookupAll(w.newWalks, names).files[i], trace[i])
    ensures stale !in Targets(trace)
  {
    var news := LookupAll(w.newWalks, names).files;
    LookupAllResolves(w.oldWalks, names);
    LookupAllResolves(w.newWalks, names);
    FoundFileQualifies(w.oldWalks[k], names[k], stale);
    forall j | 0 <= j < |trace|
      ensures trace[j].target != stale
    {
      assert InstallOf(w.pluginsDir, news[j], trace[j]);
      assert FileName(trace[j].target) == FileName(news[j].value);
      FoundFileQualifies(w.newWalks[j], names[j], news[j].value);
      if FileName(news[j].value) == FileName(stale) {
        CommonPrefixes(FileName(stale), names[j], names[k]);
        assert false;
      }
    }
  }

  /** A null first artifact stops the installation phase before it changes anything. */
  lemma NullArtifactCopiesNothing(fs: Files.FileSystem, dir: Path, news: seq<Option<Path>>, faults: set<Path>)
    requires |news| > 0 && news[0].None?
    ensures CopyAll(fs, dir, news, faults) == Phase(fs, [], true)
  {
  }

  /**
   * The new artifacts are looked up only after every deletion succeeded: when
   * a deletion fails, the build directories' walks play no part in the run.
   */
  lemma DeleteFailureIgnoresNewWalks(w: World, names: seq<string>, newWalks: seq<Walk>)
    requires |w.oldWalks| == |names| && |w.newWalks| == |names| && |newWalks| == |names|
    requires Run(w, names).outcome == DeleteFailed
    ensures Run(w.(newWalks := newWalks), names) == Run(w, names)
  {
  }
}

