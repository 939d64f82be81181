# ServerTester: plugin artifact swap

ServerTester is a developer tool for a Minecraft server. Before it starts the
server, it replaces each managed plugin's jar in the server's `plugins`
directory with the freshly built jar from that plugin's build directory. The
managed plugins are NexusCore, NexusHub, NexusMaps, NexusSurvivalGames,
StarChat, StarCore and StarItems. This project models that swap and proves
properties of the model. It has three parts:

- **The plugin locator** (`getPluginFile`). It walks a directory and keeps the
  regular files whose name passes the artifact filter. It returns the first
  such file in walk order, or null. The filter has four conditions:
  - the last `.` comes after index 0;
  - the extension from that dot is `.jar`, ignoring case;
  - the name starts with the plugin name, case-sensitively;
  - the name contains neither `javadoc` nor `sources`.
- **The path and delete helpers.**
  - `newPluginPath` places a file's own name directly under the destination
    directory.
  - `deleteIfExists` ignores null and does not fail on a missing file.
- **The swap in `main`**, in this order:
  1. look up the seven old artifacts in `plugins`;
  2. delete them, where the first exception returns from `main`;
  3. look up the seven new artifacts in their build directories;
  4. copy each into `plugins` with replace-existing, where the first
     exception returns from `main`;
  5. only then is the server launched.

Modules:

| file | module | contents |
|---|---|---|
| Wrappers.dfy | `Wrappers` | `Option`, `Result` |
| JavaStrings.dfy | `JavaStrings` | `lastIndexOf`, `startsWith`, `contains` and `equalsIgnoreCase` over `seq<char>` |
| Paths.dfy | `Paths` | paths as sequences of name components; `getFileName`; `newPluginPath` |
| Files.dfy | `Files` | the filesystem as `map<Path, seq<bv8>>`; `Files.deleteIfExists` and `Files.copy` with replace-existing |
| PluginLocator.dfy | `PluginLocator` | the walk, the filename filter with a reference definition, and `getPluginFile` |
| ServerTester.dfy | `ServerTester` | `deleteIfExists`, one copy, the two phases, the lookups, and `Run`, the whole of lines 53-96 of `main` |
| Rerun.dfy | `Rerun` | running the swap a second time with no I/O failing |
| LocatorExamples.dfy | `LocatorExamples` | the filter and the lookup on concrete file names |

### How the environment is modelled

- **The walk.** The directory walk is an input of type `Walk`:
  - `Listed(entries)`: the entries in walk order, each a path plus a
    directory flag;
  - `StartFailed`: `Files.walk` threw `IOException` while opening the start
    directory, which `getPluginFile` catches before returning null;
  - `TraversalFailed`: an error while the stream was consumed. Java raises
    that as `UncheckedIOException`, which the `catch (IOException e)` does not
    catch. It leaves `getPluginFile` (`Lookup.Escaped`) and, because the
    lookups in `main` sit outside any `try`, it also ends `main`
    (`Outcome.LookupEscaped`).
- **Java's null** is `None`.
- **`newPluginPath` of null or of the root** is `None`: in Java it throws a
  `NullPointerException`, and the copy `try` catches it.
- **Which I/O fails** is decided by `faults: set<Path>`. A deletion or copy
  that touches a path in the set throws an `IOException`.
- **A copy whose source does not exist** fails with `NoSuchFile`, as
  `Files.copy` does.
- **The trace.** A run records its filesystem mutations in order (`Removed`,
  `Installed`), so that properties about ordering can be stated.
- **The plugin names** are a parameter of `Run`. `ServerTester.ManagedPlugins`
  holds the seven names in source order.

## Behaviour worth knowing

Three consequences of how `main` is written:

- **Traversal errors end the program.** Only a failure to open the start
  directory is caught inside `getPluginFile`. An I/O error while the walk is
  being consumed escapes `getPluginFile` and `main` alike (`Run` with
  `LookupEscaped`); any deletions already made stay made.
- **A missing new artifact is found too late.** The new artifacts are looked
  up only after the old ones were deleted. A null new artifact at position
  `k` then makes its copy throw, so the run stops after at most `k` copies,
  and that plugin's old artifact is already gone
  (`ServerTester.MissingNewArtifactStillDeletesOld`).
- **Deletions are not undone.** The deletions run one after another inside a
  single `try`. When one throws, those before it stay made
  (`ServerTester.DeleteAll`, with a failure at the first faulty index `k`).

## Model

All source paths are relative to the repository root.

| member | source | states |
|---|---|---|
| JavaStrings.LastIndexOf | src/main/java/com/thenexusreborn/servertester/ServerTester.java:128 | the result is -1 or an index holding the character, and no later index holds it |
| JavaStrings.Contains | src/main/java/com/thenexusreborn/servertester/ServerTester.java:143-147 | `contains` is true exactly when the string occurs at some index |
| JavaStrings.StartsWith | src/main/java/com/thenexusreborn/servertester/ServerTester.java:139 | definition: Java's `startsWith`, the prefix is no longer than the string and equals its first characters |
| JavaStrings.EqualsIgnoreCase | src/main/java/com/thenexusreborn/servertester/ServerTester.java:135 | definition: equal length and equal characters after ASCII lower-casing, which is what `equalsIgnoreCase` does when the extension is compared with `".jar"` |
| JavaStrings.CommonPrefixes | src/main/java/com/thenexusreborn/servertester/ServerTester.java:139 | two prefixes of one name are prefixes of each other |
| PluginLocator.Accepts | src/main/java/com/thenexusreborn/servertester/ServerTester.java:126-127 | definition: an entry is a candidate when it is not a directory and its file name passes the name filter, the two chained `filter` calls |
| PluginLocator.IsPluginFileName | src/main/java/com/thenexusreborn/servertester/ServerTester.java:127-148 | the filter accepts a file name exactly when the reference conditions hold: it ends in `.jar` ignoring case with at least one character before it, starts with the plugin name, and contains neither `javadoc` nor `sources` |
| PluginLocator.ExtensionTestEquivalent | src/main/java/com/thenexusreborn/servertester/ServerTester.java:128-137 | "last dot after index 0 and the suffix from it is `.jar` ignoring case" holds exactly when "length at least 5 and the last four characters are `.jar` ignoring case" |
| PluginLocator.KeptPaths | src/main/java/com/thenexusreborn/servertester/ServerTester.java:126-148 | the filtered list is empty exactly when no entry is kept; its head is the path of the first kept entry; every element is a kept entry's path |
| PluginLocator.GetPluginFile | src/main/java/com/thenexusreborn/servertester/ServerTester.java:124-158 | an exception escapes exactly when the traversal failed; null exactly when the walk could not start or no regular file qualifies; otherwise the first qualifying entry in walk order |
| PluginLocator.FoundFileQualifies | src/main/java/com/thenexusreborn/servertester/ServerTester.java:126-151 | a returned path is a non-directory entry of the walk whose file name meets the reference conditions |
| PluginLocator.SoleCandidateIsReturned | src/main/java/com/thenexusreborn/servertester/ServerTester.java:148-151 | when exactly one entry qualifies, the lookup returns its path |
| Paths.FileName | src/main/java/com/thenexusreborn/servertester/ServerTester.java:127 | definition: the last name component, as `getFileName` gives it here and at line 121; the root, which has none, gives `""` where Java's `getFileName` gives null, which never matters because the root is a directory and directories are skipped at line 126 |
| Paths.NewPluginPath | src/main/java/com/thenexusreborn/servertester/ServerTester.java:120-122 | fails exactly for null or a path without a file name; otherwise the result lies directly in the destination directory and has the source's file name |
| Paths.NewPluginPathInjective | src/main/java/com/thenexusreborn/servertester/ServerTester.java:120-122 | two files go to the same destination exactly when their file names agree |
| Files.DeleteIfExists | src/main/java/com/thenexusreborn/servertester/ServerTester.java:117 | fails exactly on a faulty path; a missing path is no error; afterwards the path is absent and every other path is unchanged |
| Files.Copy | src/main/java/com/thenexusreborn/servertester/ServerTester.java:85-91 | fails exactly when the source is missing or a path is faulty; afterwards the target holds the source's content and every other path is unchanged |
| ServerTester.DeleteIfExists | src/main/java/com/thenexusreborn/servertester/ServerTester.java:112-118 | null leaves the filesystem unchanged and cannot fail; otherwise exactly that path is removed and nothing else changes |
| ServerTester.Install | src/main/java/com/thenexusreborn/servertester/ServerTester.java:85-91 | fails for a null artifact, a missing source or a faulty path, and only then; otherwise the new plugin path holds the artifact's content and nothing else changes |
| ServerTester.DeleteAll | src/main/java/com/thenexusreborn/servertester/ServerTester.java:62-74 | every recorded action removes a located old artifact; the phase fails exactly when some located path is faulty; on success every located path is gone, its removal recorded, and nothing else changed; on failure exactly the paths before the first faulty one are gone, and the trace records their removals and no others |
| ServerTester.RecordedRemovalsTookPlace | src/main/java/com/thenexusreborn/servertester/ServerTester.java:62-74 | every removal the phase records happened: its path does not throw on deletion and is absent afterwards, on success and on failure alike |
| ServerTester.CopyAll | src/main/java/com/thenexusreborn/servertester/ServerTester.java:84-96 | the i-th recorded action installs the i-th artifact at its new plugin path; a failure stops at the first artifact whose copy fails, with no later copy; every target exists; non-target paths are unchanged; with distinct file names each target holds its source's original content |
| ServerTester.CompletedCopyAll | src/main/java/com/thenexusreborn/servertester/ServerTester.java:84-91 | a completed phase put every artifact, under its own name, directly in the destination, with the content it had before the phase |
| ServerTester.Collect | src/main/java/com/thenexusreborn/servertester/ServerTester.java:54-60 | consecutive lookups complete exactly when none escapes, and then yield each lookup's own result |
| ServerTester.LookupAll | src/main/java/com/thenexusreborn/servertester/ServerTester.java:54-60 | definition: one `getPluginFile` call per plugin, in order; its contract gives one result per plugin, and `ServerTester.LookupAllResolves` states what each result is |
| ServerTester.LookupAllResolves | src/main/java/com/thenexusreborn/servertester/ServerTester.java:76-82 | the seven lookups complete exactly when no `getPluginFile` escapes, and each plugin gets its own call's result |
| ServerTester.Run | src/main/java/com/thenexusreborn/servertester/ServerTester.java:53-96 | every removal precedes every installation; an escaping old lookup changes nothing; a lookup escape or a deletion failure installs nothing; a deletion failure only removes files; a copy failure installs fewer than all plugins; a launch installs all of them |
| ServerTester.CompletedDeletionRemovesAll | src/main/java/com/thenexusreborn/servertester/ServerTester.java:62-74 | once the removal phase has got through, the run's trace records the removal of every located old artifact, whatever the later phases do |
| ServerTester.ManagedPlugins | src/main/java/com/thenexusreborn/servertester/ServerTester.java:54-60 | definition: the seven plugin names, in the order `main` looks them up, deletes and copies them |
| ServerTester.ManagedPluginsPrefixFree | src/main/java/com/thenexusreborn/servertester/ServerTester.java:54-60 | no managed plugin name is a prefix of another |
| ServerTester.FoundArtifactsDistinct | src/main/java/com/thenexusreborn/servertester/ServerTester.java:76-82 | for prefix-free plugin names, the located artifacts have pairwise distinct file names, so no copy overwrites another |
| ServerTester.LaunchedRunInstallsNewArtifacts | src/main/java/com/thenexusreborn/servertester/ServerTester.java:53-96 | when the server is launched, each plugin's located build artifact is in `plugins` under its own name with its pre-run content, and every located old artifact was removed and is gone unless a new artifact took its path |
| ServerTester.MissingNewArtifactStillDeletesOld | src/main/java/com/thenexusreborn/servertester/ServerTester.java:62-95 | for prefix-free plugin names, a null new artifact at any position `k` makes the run end in a copy failure with at most `k` installations, and that plugin's old artifact, deleted before the lookup, is absent at the end |
| ServerTester.NullArtifactStopsCopies | src/main/java/com/thenexusreborn/servertester/ServerTester.java:84-95 | a null artifact at position `k` fails the copy phase after at most the `k` copies before it |
| ServerTester.EarlierTargetsSpareOld | src/main/java/com/thenexusreborn/servertester/ServerTester.java:54-91 | for prefix-free plugin names, no copy of an earlier plugin's new artifact writes to the path of plugin `k`'s old artifact |
| ServerTester.NullArtifactCopiesNothing | src/main/java/com/thenexusreborn/servertester/ServerTester.java:84-95 | a null first artifact fails the copy phase before any change |
| ServerTester.DeleteFailureIgnoresNewWalks | src/main/java/com/thenexusreborn/servertester/ServerTester.java:62-82 | after a deletion failure the build directories' walks do not affect the run |
| Rerun.SwapResult | src/main/java/com/thenexusreborn/servertester/ServerTester.java:62-91 | with no faults and installable artifacts both phases complete; each artifact is at its destination with its original content; every other path survives, unchanged, exactly when it existed and was not an old artifact |
| Rerun.SwapIdempotent | src/main/java/com/thenexusreborn/servertester/ServerTester.java:62-91 | swapping the same artifacts again reproduces the state after the first swap |
| Rerun.FaultFreeRunSwaps | src/main/java/com/thenexusreborn/servertester/ServerTester.java:53-96 | a fault-free run with installable artifacts launches the server and leaves the swapped state |
| Rerun.RerunChangesNothing | src/main/java/com/thenexusreborn/servertester/ServerTester.java:53-96 | a second fault-free run with the same lookups launches again and leaves the filesystem as the first left it |
| LocatorExamples.ReleaseJarAccepted | src/main/java/com/thenexusreborn/servertester/ServerTester.java:127-148 | `StarChat-2.0.jar` is a StarChat artifact |
| LocatorExamples.SourcesJarRejected | src/main/java/com/thenexusreborn/servertester/ServerTester.java:147 | `StarChat-2.0-sources.jar` is rejected |
| LocatorExamples.JavadocJarRejected | src/main/java/com/thenexusreborn/servertester/ServerTester.java:143-145 | `NexusCore-2.0-javadoc.jar` is rejected |
| LocatorExamples.PrefixIsCaseSensitive | src/main/java/com/thenexusreborn/servertester/ServerTester.java:139-141 | `nexuscore-1.1.jar` is not a NexusCore artifact |
| LocatorExamples.ExtensionIgnoresCase | src/main/java/com/thenexusreborn/servertester/ServerTester.java:133-137 | `StarCore.JAR` is a StarCore artifact |
| LocatorExamples.DotAtStartRejected | src/main/java/com/thenexusreborn/servertester/ServerTester.java:128-131 | `.jar` is rejected because its only dot is at index 0 |
| LocatorExamples.DirectoriesAndBundlesSkipped | src/main/java/com/thenexusreborn/servertester/ServerTester.java:126-151 | only file names are examined: a plugin-named directory and a rejected bundle before the release jar do not shadow it |
| LocatorExamples.SourcesParentIgnored | src/main/java/com/thenexusreborn/servertester/ServerTester.java:126-127 | a non-directory entry whose file name passes the filter is a candidate even inside a directory named `sources`, because only the last path component is examined |

## Left out

- Properties file creation, resource copying and loading (lines 11-42): these
  are I/O and classpath resources. The build directories and the server
  directory are inputs of the model.
- Placeholder substitution with `File.separator` and `user.home` (lines
  44-51): a chain of `String.replace` calls over environment lookups.
- The server launch, `inheritIO` and `waitFor` (lines 98-109): these control
  an external process. The model stops at `Outcome.ServerLaunched`.
- The real `Files.walk` order and `toAbsolutePath` normalisation. The walk
  is an input, and paths are taken as already absolute and normalised.
- The walks are not derived from the filesystem map. A walk that reports a
  file the map lacks is allowed, and then its copy fails with `NoSuchFile`.
- `Files.isDirectory` is the walk entry's flag. Symbolic links and
  special files are not modelled.
- Full Unicode `equalsIgnoreCase`: case folding is ASCII only. The only
  string compared ignoring case is the extension against `.jar`.
- Console output and stack traces.
- The kind of I/O failure: `faults` says which paths fail, not why.
  Partial writes inside one `Files.copy` are not modelled; a copy either
  completes or leaves the filesystem unchanged.
- Concurrent changes to the directories while the tool runs.
- ServerTester.LookupAll: its own contract states only the number of
  results. What each result is lives in `ServerTester.LookupAllResolves`.
- Rerun.RerunChangesNothing: stated for a second run whose lookups return the
  same artifacts as the first. In the real tool the second run's walk of
  `plugins` would see the newly installed jars; the walks are inputs here.
  Nor is the real tool idempotent across runs when `plugins` holds two
  matching versions of one plugin, say `NexusCore-1.0.jar` and
  `NexusCore-0.9.jar`: the first run deletes only the one its walk finds
  first, and the second run's walk may find the leftover one and delete it
  too.
