/** Concrete file names run through the plugin filter and the lookup. */
module LocatorExamples {
  import opened Wrappers
  import opened JavaStrings
  import opened Paths
  import opened PluginLocator

  /** A string lacking any one character of `t` does not contain `t`. */
  lemma AbsentByCharacter(s: string, t: string, k: int)
    requires 0 <= k < |t| && t[k] !in s
    ensures !(exists i :: OccursAt(s, t, i))
  {
    forall i | 0 <= i
      ensures !OccursAt(s, t, i)
    {
      if i + |t| <= |s| {
        assert s[i..i + |t|][k] == s[i + k] && s[i + k] in s;
      }
    }
  }

  /** `StarChat-2.0.jar` is an artifact of StarChat. */
  lemma ReleaseJarAccepted()
    ensures IsPluginFileName("StarChat-2.0.jar", "StarChat")
  {
    ReleaseJarQualifies();
  }

  /** The reference conditions hold for `StarChat-2.0.jar`: neither forbidden word can occur, as each lacks a character of the name. */
  lemma ReleaseJarQualifies()
    ensures QualifiesAsPlugin("StarChat-2.0.jar", "StarChat")
  {
    var f := "StarChat-2.0.jar";
    assert !(exists i :: OccursAt(f, "javadoc", i)) by {
      assert 'v' !in f;
      AbsentByCharacter(f, "javadoc", 2);
    }
    assert !(exists i :: OccursAt(f, "sources", i)) by {
      assert 's' !in f;
      AbsentByCharacter(f, "sources", 0);
    }
    assert HasJarExtension(f);
    assert StartsWith(f, "StarChat");
  }

  /** `StarChat-2.0-sources.jar` is a source bundle, never an artifact. */
  lemma SourcesJarRejected()
    ensures !IsPluginFileName("StarChat-2.0-sources.jar", "StarChat")
  {
    assert OccursAt("StarChat-2.0-sources.jar", "sources", 13);
  }

  /** `NexusCore-2.0-javadoc.jar` is a documentation bundle, never an artifact. */
  lemma JavadocJarRejected()
    ensures !IsPluginFileName("NexusCore-2.0-javadoc.jar", "NexusCore")
  {
    assert OccursAt("NexusCore-2.0-javadoc.jar", "javadoc", 14);
  }

  /** The name prefix is matched case-sensitively. */
  lemma PrefixIsCaseSensitive()
    ensures !IsPluginFileName("nexuscore-1.1.jar", "NexusCore")
  {
    assert "nexuscore-1.1.jar"[..9][0] == 'n';
  }

  /** The extension is matched ignoring case. */
  lemma ExtensionIgnoresCase()
    ensures IsPluginFileName("StarCore.JAR", "StarCore")
  {
    UpperCaseExtensionQualifies();
  }

  /** The reference conditions hold for `StarCore.JAR`: neither forbidden word can occur, as each lacks a character of the name. */
  lemma UpperCaseExtensionQualifies()
    ensures QualifiesAsPlugin("StarCore.JAR", "StarCore")
  {
    var f := "StarCore.JAR";
    assert !(exists i :: OccursAt(f, "javadoc", i)) by {
      assert 'j' !in f;
      AbsentByCharacter(f, "javadoc", 0);
    }
    assert !(exists i :: OccursAt(f, "sources", i)) by {
      assert 's' !in f;
      AbsentByCharacter(f, "sources", 0);
    }
    assert HasJarExtension(f);
    assert StartsWith(f, "StarCore");
  }

  /** A bare ".jar" suffix is not enough: the dot must not open the name. */
  lemma DotAtStartRejected()
    ensures !IsPluginFileName(".jar", "")
  {
  }

  /**
   * Only the file name is examined, and directories are never returned: a
   * directory named like a plugin, followed by a rejected bundle and then the
   * release jar, yields the release jar.
   */
  lemma DirectoriesAndBundlesSkipped(dir: Path, name: string, bundle: string, release: string)
    requires |dir| > 0 && IsPluginFileName(FileName(dir), name)
    requires !IsPluginFileName(bundle, name) && IsPluginFileName(release, name)
    ensures GetPluginFile(Listed([Entry(dir, true), Entry(dir + [bundle], false), Entry(dir + [release], false)]), name)
            == Returned(Some(dir + [release]))
  {
    var entries := [Entry(dir, true), Entry(dir + [bundle], false), Entry(dir + [release], false)];
    assert FileName(entries[1].path) == bundle;
    assert FileName(entries[2].path) == release;
    SoleCandidateIsReturned(entries, name, 2);
  }

  /**
   * Only the last path component is filtered: an artifact inside a directory
   * named `sources` is still a candidate.
   */
  lemma SourcesParentIgnored(parent: Path, fileName: string, name: string)
    requires IsPluginFileName(fileName, name)
    ensures Accepts(Entry(parent + ["sources"] + [fileName], false), name)
  {
    assert FileName(parent + ["sources"] + [fileName]) == fileName;
  }
}
