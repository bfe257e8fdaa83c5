/**
 * The records DeserializeXMLToVersionInfo and DeserializeXMLToPatchInfo return,
 * and the normalisation both apply once XmlSerializer has produced a record.
 * The XML parsing itself is not part of this model: each class is built from
 * already-parsed fields, and NormaliseAfterParse is the rest of the function.
 */
module Manifest {

  import opened Platform
  import opened Paths
  import opened Wildcards
  import opened Versions

  /** Expected signature of one file of a version. */
  datatype VersionItem = VersionItem(path: string, fileSize: int, md5Hash: string)

  /** One entry of a patch's file list; its diff instructions are not modelled. */
  datatype PatchItem = PatchItem(path: string)

  datatype PatchRenamedItem = PatchRenamedItem(beforePath: string, afterPath: string)

  /** The implicit ignore pattern appended to every manifest: version-marker files anywhere. */
  function VersionHolderPattern(settings: Settings): string
  {
    "*" + settings.versionHolderPostfix
  }

  class VersionInfo<V(==,!new)> {
    var files: seq<VersionItem>
    var ignoredPaths: seq<string>
    var ignoredPathsRegex: array<Regex>
    var patches: seq<IncrementalPatch<V>>

    /** A record as the serializer yields it; IgnoredPathsRegex is not serialised. */
    constructor (files: seq<VersionItem>, ignoredPaths: seq<string>, patches: seq<IncrementalPatch<V>>)
      ensures this.files == files && this.ignoredPaths == ignoredPaths && this.patches == patches
      ensures fresh(ignoredPathsRegex) && ignoredPathsRegex.Length == 0
    {
      this.files := files;
      this.ignoredPaths := ignoredPaths;
      this.patches := patches;
      ignoredPathsRegex := new Regex[0];
    }

    /**
     * DeserializeXMLToVersionInfo after parsing: drop invalid patches, sort the
     * rest, rewrite every file path to the primary separator, append the implicit
     * ignore pattern and compile one matcher per ignore pattern.
     */
    method NormaliseAfterParse(settings: Settings, scheme: VersionScheme<V>)
      requires IsTotalPreorder(scheme.compare)
      modifies this`patches, this`files, this`ignoredPaths, this`ignoredPathsRegex
      ensures patches == SortPatches(scheme, RemoveInvalidPatches(scheme, old(patches)))
      ensures |files| == |old(files)|
      ensures forall i :: 0 <= i < |files| ==>
                files[i] == old(files[i]).(path := NormalisePath(settings, old(files[i]).path))
      ensures ignoredPaths == old(ignoredPaths) + [VersionHolderPattern(settings)]
      ensures fresh(ignoredPathsRegex) && ignoredPathsRegex.Length == |ignoredPaths|
      ensures forall i :: 0 <= i < |ignoredPaths| ==>
                ignoredPathsRegex[i] == WildcardToRegex(NormalisePath(settings, ignoredPaths[i]))
    {
      RemoveAndSortPatches(scheme);
      NormaliseFilePaths(settings);
      ignoredPaths := ignoredPaths + [VersionHolderPattern(settings)];
      CompileIgnoredPaths(settings);
    }

    /** `Patches.RemoveAll(...)` followed by `Patches.Sort(IncrementalPatchComparison)`. */
    method RemoveAndSortPatches(scheme: VersionScheme<V>)
      requires IsTotalPreorder(scheme.compare)
      modifies this`patches
      ensures patches == SortPatches(scheme, RemoveInvalidPatches(scheme, old(patches)))
    {
      patches := RemoveInvalidPatches(scheme, patches);
      patches := SortPatches(scheme, patches);
    }

    /** The index loop that rewrites `item.Path` of every VersionItem. */
    method NormaliseFilePaths(settings: Settings)
      modifies this`files
      ensures |files| == |old(files)|
      ensures forall i :: 0 <= i < |files| ==>
                files[i] == old(files[i]).(path := NormalisePath(settings, old(files[i]).path))
    {
      var i := 0;
      while i < |files|
        invariant 0 <= i <= |files| == |old(files)|
        invariant forall k :: 0 <= k < i ==>
                    files[k] == old(files[k]).(path := NormalisePath(settings, old(files[k]).path))
        invariant forall k :: i <= k < |files| ==> files[k] == old(files[k])
      {
        var item := files[i];
        files := files[i := item.(path := NormalisePath(settings, item.path))];
        i := i + 1;
      }
    }

    /** `IgnoredPathsRegex = new Regex[IgnoredPaths.Count]` and the loop that fills it. */
    method CompileIgnoredPaths(settings: Settings)
      modifies this`ignoredPathsRegex
      ensures fresh(ignoredPathsRegex) && ignoredPathsRegex.Length == |ignoredPaths|
      ensures forall i :: 0 <= i < |ignoredPaths| ==>
                ignoredPathsRegex[i] == WildcardToRegex(NormalisePath(settings, ignoredPaths[i]))
    {
      var regexes := new Regex[|ignoredPaths|];
      var i := 0;
      while i < |ignoredPaths|
        invariant 0 <= i <= |ignoredPaths| == regexes.Length
        invariant forall k :: 0 <= k < i ==> regexes[k] == WildcardToRegex(NormalisePath(settings, ignoredPaths[k]))
      {
        regexes[i] := WildcardToRegex(NormalisePath(settings, ignoredPaths[i]));
        i := i + 1;
      }
      ignoredPathsRegex := regexes;
    }
  }

  class PatchInfo<V> {
    var fromVersion: V
    var toVersion: V
    var files: seq<PatchItem>
    var renamedFiles: seq<PatchRenamedItem>

    constructor (fromVersion: V, toVersion: V, files: seq<PatchItem>, renamedFiles: seq<PatchRenamedItem>)
      ensures this.fromVersion == fromVersion && this.toVersion == toVersion
      ensures this.files == files && this.renamedFiles == renamedFiles
    {
      this.fromVersion := fromVersion;
      this.toVersion := toVersion;
      this.files := files;
      this.renamedFiles := renamedFiles;
    }

    /** DeserializeXMLToPatchInfo after parsing: both paths of every rename, then every file path. */
    method NormaliseAfterParse(settings: Settings)
      modifies this`renamedFiles, this`files
      ensures |renamedFiles| == |old(renamedFiles)|
      ensures forall i :: 0 <= i < |renamedFiles| ==>
                renamedFiles[i] == PatchRenamedItem(NormalisePath(settings, old(renamedFiles[i]).beforePath),
                                                    NormalisePath(settings, old(renamedFiles[i]).afterPath))
      ensures |files| == |old(files)|
      ensures forall i :: 0 <= i < |files| ==> files[i] == PatchItem(NormalisePath(settings, old(files[i]).path))
    {
      NormaliseRenamedPaths(settings);
      NormaliseFilePaths(settings);
    }

    method NormaliseRenamedPaths(settings: Settings)
      modifies this`renamedFiles
      ensures |renamedFiles| == |old(renamedFiles)|
      ensures forall i :: 0 <= i < |renamedFiles| ==>
                renamedFiles[i] == PatchRenamedItem(NormalisePath(settings, old(renamedFiles[i]).beforePath),
                                                    NormalisePath(settings, old(renamedFiles[i]).afterPath))
    {
      var i := 0;
      while i < |renamedFiles|
        invariant 0 <= i <= |renamedFiles| == |old(renamedFiles)|
        invariant forall k :: 0 <= k < i ==>
                    renamedFiles[k] == PatchRenamedItem(NormalisePath(settings, old(renamedFiles[k]).beforePath),
                                                        NormalisePath(settings, old(renamedFiles[k]).afterPath))
        invariant forall k :: i <= k < |renamedFiles| ==> renamedFiles[k] == old(renamedFiles[k])
      {
        var renamedItem := renamedFiles[i];
        renamedItem := renamedItem.(beforePath := NormalisePath(settings, renamedItem.beforePath));
        renamedItem := renamedItem.(afterPath := NormalisePath(settings, renamedItem.afterPath));
        renamedFiles := renamedFiles[i := renamedItem];
        i := i + 1;
      }
    }

    method NormaliseFilePaths(settings: Settings)
      modifies this`files
      ensures |files| == |old(files)|
      ensures forall i :: 0 <= i < |files| ==> files[i] == PatchItem(NormalisePath(settings, old(files[i]).path))
    {
      var i := 0;
      while i < |files|
        invariant 0 <= i <= |files| == |old(files)|
        invariant forall k :: 0 <= k < i ==> files[k] == PatchItem(NormalisePath(settings, old(files[k]).path))
        invariant forall k :: i <= k < |files| ==> files[k] == old(files[k])
      {
        var patchItem := files[i];
        files := files[i := patchItem.(path := NormalisePath(settings, patchItem.path))];
        i := i + 1;
      }
    }

    /** PatchVersion of a PatchInfo: the same name as for an incremental patch. */
    function PatchVersion(scheme: VersionScheme<V>): (r: string)
      reads this
      ensures r == Versions.PatchVersion(scheme, IncrementalPatch(fromVersion, toVersion))
    {
      VersionPairName(scheme.toText(fromVersion), scheme.toText(toVersion))
    }
  }

  /**
   * The implicit pattern, after the separator rewrite and compilation, accepts
   * exactly the newline-free paths ending with the (rewritten) version-holder
   * postfix, in any directory. It requires a postfix without wildcard
   * characters, and an alternative separator that is not `*`.
   */
  lemma VersionHolderFilesAreIgnored(settings: Settings, path: string)
    requires settings.altDirectorySeparator != '*'
    requires IsLiteralPattern(NormalisePath(settings, settings.versionHolderPostfix))
    requires '\n' !in path
    ensures var postfix := NormalisePath(settings, settings.versionHolderPostfix);
            (IsMatch(WildcardToRegex(NormalisePath(settings, VersionHolderPattern(settings))), path)
             <==> |postfix| <= |path| && path[|path| - |postfix|..] == postfix)
  {
    var postfix := NormalisePath(settings, settings.versionHolderPostfix);
    ReplaceCharAppend("*", settings.versionHolderPostfix, settings.altDirectorySeparator, settings.directorySeparator);
    assert NormalisePath(settings, "*") == "*";
    StarSuffixPattern(postfix, path);
  }
}
