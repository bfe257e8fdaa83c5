# SimplePatchTool patch utilities in Dafny

A model of `PatchUtils`, the static helper class at the centre of SimplePatchTool,
a tool that keeps an installed copy of a versioned file tree up to date by applying
incremental patches. The model covers:

- the file-equivalence check (`MatchesSignature`). The MD5 digest itself is a parameter. Its hex formatting is modelled.
- the normalisation applied to a freshly parsed `VersionInfo` or `PatchInfo`: invalid patches dropped, patches sorted, separators rewritten, the version-holder pattern added, ignore patterns compiled.
- wildcard patterns and their matching (`WildcardToRegex`, `PathMatchesPattern`).
- the patch naming helpers (`PatchVersion`, `PatchVersionBrief`).
- the string helpers (`GetPathWithTrailingSeparatorChar`, `TryParseIntSimple`, `IsProjectNameValid`, `GetGoogleDriveDownloadLinkFromUrl`).
- `MoveFile`, `MoveDirectory` and `MergeDirectories` over an in-memory directory tree.

Modules, one per concern:

| file | module | contents |
|---|---|---|
| wrappers.dfy | `Wrappers` | `Option` |
| platform.dfy | `Platform` | `Settings`: `Path.DirectorySeparatorChar`, `Path.AltDirectorySeparatorChar`, `PatchParameters.FileHashCheckSizeLimit` and `PatchParameters.VERSION_HOLDER_FILENAME_POSTFIX`, all parameters |
| paths.dfy | `Paths` | `string.Replace(char, char)`, separator normalisation, trailing separator |
| wildcards.dfy | `Wildcards` | the compiled wildcard regex as tokens, its matcher, an independent reference semantics, `PathMatchesPattern` |
| signatures.dfy | `Signatures` | `Md5Hash` formatting and both `MatchesSignature` overloads |
| versions.dfy | `Versions` | abstract `VersionCode`, `IncrementalPatch`, the `RemoveAll` filter, `IncrementalPatchComparison`, the sort, patch names |
| manifest.dfy | `Manifest` | classes `VersionInfo` and `PatchInfo` with the post-parse normalisation as methods that update their fields |
| texthelpers.dfy | `TextHelpers` | `TryParseIntSimple` with 32-bit wrap-around, `IsProjectNameValid`, `GetGoogleDriveDownloadLinkFromUrl` |
| filetree.dfy | `FileTree` | the directory tree, `Get`/`Put`/`Remove`, the overlay a merge produces, and their algebra |
| filesystem.dfy | `FileSystem` | class `FileSystem` whose `root` the move and merge methods update, loop by loop |

`VersionCode` is abstract. A `VersionScheme<V>` supplies `CompareTo`, `IsValid` and
`ToString`. Where ordering matters, `CompareTo` is required to be a total preorder.
Separators and `PatchParameters` constants are fields of `Settings`.

Two behaviours of the code that are easy to miss:
- `MatchesSignature` compares the lower-case digest text with `==`. An expected hash holding an upper-case letter therefore never matches a file small enough to be hashed (`Signatures.UpperCaseDigestNeverMatches`).
- In the compiled .NET pattern, `?` and `*` do not match `'\n'`, and `$` also matches just before a final `'\n'`. `Wildcards.IsMatch` models both (`Wildcards.WildcardToRegexCorrect`).

## Model

| member | source | states |
|---|---|---|
| Paths.ReplaceChar | SimplePatchToolCore/Utilities/PatchUtils.cs:115 | `Replace(old, new)` keeps the length, rewrites exactly the occurrences of `old`, and leaves none when the two characters differ |
| Paths.ReplaceCharUndo | SimplePatchToolCore/Utilities/PatchUtils.cs:115 | replacing `a` by `b` and then `b` by `a` restores a string that had no `b` |
| Paths.NormalisePathSpec | SimplePatchToolCore/Utilities/PatchUtils.cs:111-116 | separator normalisation keeps length and every other character, puts the primary separator where the alternative was, and leaves no alternative separator |
| Paths.NormalisePathIdempotent | SimplePatchToolCore/Utilities/PatchUtils.cs:111-116 | normalising twice equals normalising once |
| Paths.GetPathWithTrailingSeparatorChar | SimplePatchToolCore/Utilities/PatchUtils.cs:322-329 | the result ends in a separator; a path already ending in either separator is unchanged; otherwise exactly one primary separator is appended |
| Paths.TrailingSeparatorIdempotent | SimplePatchToolCore/Utilities/PatchUtils.cs:322-329 | applying it twice equals applying it once |
| Paths.TrailingSeparatorExtends | SimplePatchToolCore/Utilities/PatchUtils.cs:322-329 | the input is a prefix of the result, which is at most one character longer |
| Wildcards.WildcardToRegex | SimplePatchToolCore/Utilities/PatchUtils.cs:415-418 | the escaped pattern with `\?` and `\*` rewritten has one token per pattern character |
| Wildcards.MatchedSplitsIntoPieces | SimplePatchToolCore/Utilities/PatchUtils.cs:415-418 | every string the token matcher accepts splits into pieces fitting the pattern: `?` one non-newline character, `*` a newline-free run, others themselves |
| Wildcards.PiecesAreMatched | SimplePatchToolCore/Utilities/PatchUtils.cs:415-418 | conversely, every such split is accepted by the token matcher |
| Wildcards.WildcardToRegexCorrect | SimplePatchToolCore/Utilities/PatchUtils.cs:415-418 | the compiled matcher accepts `s` iff `s`, or `s` without one final newline, is matched by the wildcard semantics |
| Wildcards.MatcherOnNewlineFreePaths | SimplePatchToolCore/Utilities/PatchUtils.cs:415-418 | on newline-free strings the matcher is exactly the wildcard semantics |
| Wildcards.StarMatchesEveryRun | SimplePatchToolCore/Utilities/PatchUtils.cs:415-418 | `*` alone matches exactly the newline-free strings |
| Wildcards.LiteralTokensMatch | SimplePatchToolCore/Utilities/PatchUtils.cs:415-418 | a pattern without `?` or `*` matches only itself |
| Wildcards.StarSuffixPattern | SimplePatchToolCore/Utilities/PatchUtils.cs:415-418 | `*` followed by a literal accepts a newline-free string iff it ends with that literal |
| Wildcards.PathMatchesPattern | SimplePatchToolCore/Utilities/PatchUtils.cs:63-72 | true iff some pattern of the list matches the path; false for an empty list |
| Signatures.DashesRemoved | SimplePatchToolCore/Utilities/PatchUtils.cs:41 | `BitConverter.ToString` followed by `Replace("-", "")` is the plain upper-case hex of the digest |
| Signatures.HexLowered | SimplePatchToolCore/Utilities/PatchUtils.cs:41 | `ToLowerInvariant` turns upper-case hex into lower-case hex |
| Signatures.Md5HashIsLowerHex | SimplePatchToolCore/Utilities/PatchUtils.cs:35-44 | `Md5Hash` is the lower-case hex of the digest: two characters per digest byte, each a lower-case hex digit |
| Signatures.MatchesSignature | SimplePatchToolCore/Utilities/PatchUtils.cs:46-52 | a match implies equal length, and, at or below the size limit, equal digest text |
| Signatures.LengthMismatchNeverMatches | SimplePatchToolCore/Utilities/PatchUtils.cs:46-52 | a length different from the expected size never matches, whatever the hash |
| Signatures.EqualLengthMatches | SimplePatchToolCore/Utilities/PatchUtils.cs:46-52 | with equal length it matches iff the size exceeds the limit or the digest text equals the expected hash |
| Signatures.LargeFilesSkipContent | SimplePatchToolCore/Utilities/PatchUtils.cs:46-52 | above the limit any two files of the expected size match, whatever their content |
| Signatures.UpperCaseDigestNeverMatches | SimplePatchToolCore/Utilities/PatchUtils.cs:35-52 | an expected hash with an upper-case letter never matches a file at or below the limit |
| Signatures.MatchesSignatureOfFile | SimplePatchToolCore/Utilities/PatchUtils.cs:54-61 | the two-file overload implies equal lengths |
| Signatures.OverloadsAgree | SimplePatchToolCore/Utilities/PatchUtils.cs:46-61 | the two-file overload is the size-and-hash overload given the other file's length and hash |
| Signatures.MatchesSignatureOfFileReflexiveSymmetric | SimplePatchToolCore/Utilities/PatchUtils.cs:54-61 | every file matches itself, and the two-file check is symmetric |
| Versions.RemoveInvalidPatches | SimplePatchToolCore/Utilities/PatchUtils.cs:108 | `RemoveAll`: as a multiset, each patch with valid versions and `To > From` keeps its count and every other patch is gone |
| Versions.PatchComparisonMeaning | SimplePatchToolCore/Utilities/PatchUtils.cs:164-172 | one patch sorts before another iff its From is lower, or the Froms are equal and its To is higher |
| Versions.PatchComparisonIsTotalPreorder | SimplePatchToolCore/Utilities/PatchUtils.cs:164-172 | over a total preorder on versions the comparison is itself a total preorder, so the sort is well defined |
| Versions.PatchTransitive | SimplePatchToolCore/Utilities/PatchUtils.cs:164-172 | the comparison is transitive |
| Versions.PatchAntisymmetric | SimplePatchToolCore/Utilities/PatchUtils.cs:164-172 | a patch after another puts the other before it |
| Versions.Insert | SimplePatchToolCore/Utilities/PatchUtils.cs:109 | one insertion step adds exactly the new patch to the multiset |
| Versions.InsertKeepsSorted | SimplePatchToolCore/Utilities/PatchUtils.cs:109 | one insertion step keeps a sorted list sorted |
| Versions.SortPatches | SimplePatchToolCore/Utilities/PatchUtils.cs:109 | `Sort(IncrementalPatchComparison)`: a permutation of its input, and sorted by the comparison |
| Versions.NormalisedPatchList | SimplePatchToolCore/Utilities/PatchUtils.cs:108-109 | after filter and sort the list is the retained patches as a multiset, each has To > From, Froms ascend, and equal Froms have descending Tos |
| Versions.SortedPairOrder | SimplePatchToolCore/Utilities/PatchUtils.cs:164-172 | two patches in comparison order have Froms in order and, on equal Froms, Tos in reverse order |
| Versions.SplitAtFirstJoins | SimplePatchToolCore/Utilities/PatchUtils.cs:74-82 | splitting a patch name at its first separator gives two parts that rejoin to the name |
| Versions.VersionPairNameRoundTrip | SimplePatchToolCore/Utilities/PatchUtils.cs:79-82 | the `From__To` name built from dotted version texts splits back into the two texts with `_` turned back into `.` |
| Versions.PatchVersionInjective | SimplePatchToolCore/Utilities/PatchUtils.cs:79-82 | two patches with the same `PatchVersion` name have the same From and To texts |
| Versions.PatchVersionBriefRoundTrip | SimplePatchToolCore/Utilities/PatchUtils.cs:74-77 | the brief `From_To` name splits back into the two version texts when From has no `_` |
| Manifest.VersionInfo.constructor | SimplePatchToolCore/Utilities/PatchUtils.cs:105 | a parsed record holds the given files, ignored paths and patches, with no compiled patterns yet |
| Manifest.VersionInfo.NormaliseAfterParse | SimplePatchToolCore/Utilities/PatchUtils.cs:106-122 | patches become the sorted valid ones; each file path is separator-normalised; the version-holder pattern is appended to the ignored paths; a fresh array holds, for each ignored path, the matcher of its normalised form |
| Manifest.VersionInfo.RemoveAndSortPatches | SimplePatchToolCore/Utilities/PatchUtils.cs:108-109 | the patch list becomes the sorted list of retained patches |
| Manifest.VersionInfo.NormaliseFilePaths | SimplePatchToolCore/Utilities/PatchUtils.cs:111-116 | each file keeps its size and hash, and its path is normalised |
| Manifest.VersionInfo.CompileIgnoredPaths | SimplePatchToolCore/Utilities/PatchUtils.cs:119-121 | the array has one matcher per ignored path, entry i compiled from normalised path i |
| Manifest.PatchInfo.NormaliseAfterParse | SimplePatchToolCore/Utilities/PatchUtils.cs:143-158 | both paths of each renamed item and the path of each patch item are separator-normalised, and the list lengths are unchanged |
| Manifest.PatchInfo.NormaliseRenamedPaths | SimplePatchToolCore/Utilities/PatchUtils.cs:146-151 | `BeforePath` and `AfterPath` of every renamed item are normalised |
| Manifest.PatchInfo.NormaliseFilePaths | SimplePatchToolCore/Utilities/PatchUtils.cs:153-157 | every patch item's path is normalised |
| Manifest.PatchInfo.PatchVersion | SimplePatchToolCore/Utilities/PatchUtils.cs:84-87 | the name of a patch record is the name of the incremental patch with the same versions |
| Manifest.VersionHolderFilesAreIgnored | SimplePatchToolCore/Utilities/PatchUtils.cs:118-121 | the pattern added at parse time ignores exactly the newline-free paths ending with the normalised version-holder postfix |
| TextHelpers.TryParseIntSimple | SimplePatchToolCore/Utilities/PatchUtils.cs:393-413 | succeeds iff the string is non-empty and is digits after an optional `-`; the result is then the signed value modulo 2^32; on failure it is the wrapped value of the digits before the first non-digit, not negated |
| TextHelpers.SignEdgeCases | SimplePatchToolCore/Utilities/PatchUtils.cs:393-413 | `""` is rejected, `"-"` is accepted as 0, and every string starting with `+`, `"+"` included, is rejected |
| TextHelpers.ShortIntsAreExact | SimplePatchToolCore/Utilities/PatchUtils.cs:393-413 | up to nine digits the result is the exact signed decimal value |
| TextHelpers.ParsesIntToDecimal | SimplePatchToolCore/Utilities/PatchUtils.cs:393-413 | every 32-bit int, `int.MinValue` included, is accepted from its decimal text and read back as itself |
| TextHelpers.Wrap32Step | SimplePatchToolCore/Utilities/PatchUtils.cs:406 | wrapping `result * 10 + digit` at each step is wrapping once at the end |
| TextHelpers.Wrap32Negate | SimplePatchToolCore/Utilities/PatchUtils.cs:409-410 | negating a wrapped value and wrapping again is wrapping the negation |
| TextHelpers.IsProjectNameValid | SimplePatchToolCore/Utilities/PatchUtils.cs:378-391 | true iff the name is non-empty and every character is an ASCII letter or digit |
| TextHelpers.IndexOf | SimplePatchToolCore/Utilities/PatchUtils.cs:426 | the first occurrence at or after `from`: it occurs there and nowhere before, or -1 when it occurs nowhere |
| TextHelpers.IndexOfChar | SimplePatchToolCore/Utilities/PatchUtils.cs:431 | the first position at or after `from` holding the character, or -1 when there is none |
| TextHelpers.GetGoogleDriveDownloadLinkFromUrl | SimplePatchToolCore/Utilities/PatchUtils.cs:424-453 | the result is empty exactly when `id=` is not found past the start and `file/d/` is not found |
| TextHelpers.IdLinkForm | SimplePatchToolCore/Utilities/PatchUtils.cs:426-434 | a url `prefix + "id=" + id + rest`, with a non-empty prefix holding no `id=`, an id without `&`, and a rest that is empty or starts with `&`, yields the download link of that id |
| TextHelpers.IdAfterOtherParameterForm | SimplePatchToolCore/Utilities/PatchUtils.cs:426-434 | `https://drive.google.com/open?authuser=0&id=FILEID` yields FILEID: an earlier query parameter does not disturb the search |
| TextHelpers.FileIdLinkForm | SimplePatchToolCore/Utilities/PatchUtils.cs:435-450 | a url `host + "file/d/" + id + tail` that starts with `id=` or holds none, with a host holding no `file/d/`, yields the id ended by the next `/`, else by the next `?`, else by the end of the url |
| TextHelpers.FileIdEndAt | SimplePatchToolCore/Utilities/PatchUtils.cs:443-449 | the id after `file/d/` ends exactly where the `/`, then `?`, then end-of-url rule says |
| TextHelpers.DriveLinkShapes | SimplePatchToolCore/Utilities/PatchUtils.cs:424-453 | every non-empty result is the download link of an id, and the url has the shape of `IdLinkForm` or of `FileIdLinkForm` around that id; with those two lemmas this states the id of every accepted url |
| TextHelpers.IdBranchShape | SimplePatchToolCore/Utilities/PatchUtils.cs:426-434 | a url with `id=` past its start splits as `IdLinkForm` describes, and the result is the link of that id |
| TextHelpers.FileIdBranchShape | SimplePatchToolCore/Utilities/PatchUtils.cs:435-450 | a url with no `id=` past its start but with `file/d/` splits as `FileIdLinkForm` describes, and the result is the link of that id |
| TextHelpers.OpenLinkForm | SimplePatchToolCore/Utilities/PatchUtils.cs:420-421 | `drive.google.com/open?id=FILEID`, with or without `https://`, yields the download link of FILEID |
| TextHelpers.FileLinkForm | SimplePatchToolCore/Utilities/PatchUtils.cs:420-422 | `drive.google.com/file/d/FILEID/view?usp=sharing`, with or without `https://`, yields the download link of FILEID |
| TextHelpers.DownloadLinkForm | SimplePatchToolCore/Utilities/PatchUtils.cs:420-423 | `drive.google.com/uc?id=FILEID&export=download`, with or without `https://`, yields its own download link |
| TextHelpers.FileLinkQueryForm | SimplePatchToolCore/Utilities/PatchUtils.cs:443-449 | `drive.google.com/file/d/FILEID?usp=sharing`, with or without `https://`, yields FILEID: the `?` ends the id when no `/` follows |
| TextHelpers.FileLinkBareForm | SimplePatchToolCore/Utilities/PatchUtils.cs:443-449 | `drive.google.com/file/d/FILEID`, with or without `https://`, yields FILEID: the id runs to the end of the url |
| FileTree.GetPut | SimplePatchToolCore/Utilities/PatchUtils.cs:228-251 | after a node is placed at a path, the path holds it |
| FileTree.GetPutOther | SimplePatchToolCore/Utilities/PatchUtils.cs:228-251 | placing a node changes no path outside its own line |
| FileTree.GetRemove | SimplePatchToolCore/Utilities/PatchUtils.cs:228-259 | after deleting a path nothing is there |
| FileTree.GetRemoveOther | SimplePatchToolCore/Utilities/PatchUtils.cs:228-259 | deleting a path changes no path outside its own line |
| FileTree.PutCommute | SimplePatchToolCore/Utilities/PatchUtils.cs:261-280 | writes to disjoint subtrees commute |
| FileTree.RemovePutCommute | SimplePatchToolCore/Utilities/PatchUtils.cs:228-240 | deleting one existing subtree and writing a disjoint one commute, so copy-then-delete and move leave the same tree |
| FileTree.OverlayGetFile | SimplePatchToolCore/Utilities/PatchUtils.cs:261-280 | without kind clashes, the merged tree holds a file at a relative path iff `from` holds it there, or `from` has nothing there and `to` holds it |
| FileTree.MergeCopiesFromFiles | SimplePatchToolCore/Utilities/PatchUtils.cs:261-280 | every file of `from` is at the same relative path of the merged tree with `from`'s content |
| FileTree.MergeKeepsToOnlyFiles | SimplePatchToolCore/Utilities/PatchUtils.cs:261-280 | every file only in `to` is unchanged by the merge |
| FileTree.MergeAddsNoOtherFile | SimplePatchToolCore/Utilities/PatchUtils.cs:261-280 | each file of the merged tree comes from `from`, or from `to` where `from` has nothing |
| FileTree.OverlayOntoEmpty | SimplePatchToolCore/Utilities/PatchUtils.cs:242-251 | merging into an empty directory yields the source directory |
| FileTree.MoveLands | SimplePatchToolCore/Utilities/PatchUtils.cs:228-251 | after a move the target holds the moved node, the source holds nothing, and every path outside both is unchanged |
| FileTree.MoveIsMergeIntoEmpty | SimplePatchToolCore/Utilities/PatchUtils.cs:242-259 | renaming a directory onto a missing target leaves the same tree as merging it into an empty directory there |
| FileTree.FileMoveIsApart | SimplePatchToolCore/Utilities/PatchUtils.cs:228-240 | under MoveFile's preconditions the source and target paths lie in disjoint subtrees |
| FileTree.MergedAll | SimplePatchToolCore/Utilities/PatchUtils.cs:261-280 | once every name of `from` has been handled, `to` holds the overlay and `from` the residue |
| FileTree.FileCopyStep | SimplePatchToolCore/Utilities/PatchUtils.cs:263-268 | copying one file of `from` into `to` extends the overlay by that name and leaves `from` as it was |
| FileTree.DirMergeStep | SimplePatchToolCore/Utilities/PatchUtils.cs:274-276 | merging a colliding subdirectory extends the overlay and the residue by that name |
| FileTree.DirMoveStep | SimplePatchToolCore/Utilities/PatchUtils.cs:277-278 | moving a non-colliding subdirectory puts it whole into `to` and takes it out of `from` |
| FileSystem.FileSystem.constructor | SimplePatchToolCore/Utilities/PatchUtils.cs:228-280 | the filesystem holds the given tree |
| FileSystem.FileSystem.MoveFile | SimplePatchToolCore/Utilities/PatchUtils.cs:228-240 | both branches, copy-overwrite-delete onto a file and create-parents-then-move otherwise, leave the file at `to` and nothing at `from` |
| FileSystem.FileSystem.MoveDirectory | SimplePatchToolCore/Utilities/PatchUtils.cs:242-251 | onto an existing directory it is the merge; otherwise the whole tree is renamed to `to` |
| FileSystem.FileSystem.MergeDirectories | SimplePatchToolCore/Utilities/PatchUtils.cs:253-259 | `to` becomes the overlay of `from` onto `to`, and `from` is deleted |
| FileSystem.FileSystem.MergeInto | SimplePatchToolCore/Utilities/PatchUtils.cs:261-280 | the recursive merge leaves `to` holding the overlay and `from` holding what was not moved |
| FileSystem.FileSystem.CopyFiles | SimplePatchToolCore/Utilities/PatchUtils.cs:263-268 | the files loop copies each file of `from` into `to` with overwrite and leaves `from` unchanged |
| FileSystem.FileSystem.MergeSubdirectories | SimplePatchToolCore/Utilities/PatchUtils.cs:270-279 | the subdirectories loop completes the overlay and leaves the residue in `from` |
| FileSystem.FileSystem.MergeSubdirectory | SimplePatchToolCore/Utilities/PatchUtils.cs:272-278 | one subdirectory is merged into a same-named directory of `to`, or moved whole when there is none |

## Left out

- XML serialisation and deserialisation (`SerializeVersionInfoToXML`, `DeserializeXMLToVersionInfo`, `SerializePatchInfoToXML`, `DeserializeXMLToPatchInfo` as parsers): a foreign `XmlSerializer` call. Only the normalisation applied to an already parsed record is modelled. A `null` parse result, which the source returns unchanged, is not modelled.
- The MD5 algorithm and the file stream behind `Md5Hash`: a library call. The digest is a parameter function of the file's bytes.
- `ElapsedSeconds`, `ToKilobytes`, `ToMegabytes`: floating-point formatting.
- `CheckWriteAccessToFolder`: operating-system permission probing with swallowed exceptions.
- `GetCurrentExecutablePath`, `GetNumberOfRunningProcesses`: process enumeration.
- `GetVersionInfoFromPath`, `GetPatchInfoFromPath`, `GetVersion`, `SetVersion`: thin wrappers that read or write one file.
- The incremental-patch chain resolver is not part of this model; PatchUtils only sorts the list it uses.
- `PatchParameters`, `VersionCode` and the platform separator characters are not in PatchUtils. They are parameters (`Platform.Settings`, `Versions.VersionScheme`).
- Exceptions from the filesystem calls and partial failure of a merge are not modelled. The move and merge methods require the conditions under which the source does not throw: the source exists with the right kind; no file lies above a target whose parents are created; no file/directory kind clash between `from` and `to`; `from` and `to` in disjoint subtrees. FileSystem.FileSystem.MergeDirectories requires `to` to exist as a directory: given an empty `from` and a missing `to` the source only deletes `from`; its one caller (`MoveDirectory`, PatchUtils.cs:245) checks that `to` exists first. Concurrent access is not modelled.
- Object identity of list items is not modelled. `VersionItem`, `PatchItem` and `PatchRenamedItem` are values in sequences, and the loops that assign `item.Path` replace the element.
- Paths in the merge are sequences of names rather than strings. The `GetPathWithTrailingSeparatorChar` call inside `MergeDirectories`, and the appended `DirectorySeparatorChar`, only build string paths, so they are not needed there.
- `FileInfo.Name` and directory listing order are not modelled: the loops take names from a set in any order.
- Versions.SortPatches: `List.Sort` is an unstable sort, so patches that compare equal may end in any order. The model is an insertion sort, and its contract states only permutation and sortedness, which hold for any such order.
- Signatures.ToLowerInvariant: lowers ASCII letters only. Hex digests only contain ASCII.
- TextHelpers.IndexOf: ordinal comparison. The source's `string.IndexOf(string)` is culture-sensitive and can differ on control characters (under ICU `'\0'` is ignored and `"\r\n"` is one unit, so `"\r\n".IndexOf("\n")` is -1) and outside ASCII.
- TextHelpers.IsProjectNameValid: a `null` name, which the source rejects, has no counterpart because Dafny strings are never null.
- Wildcards.WildcardToRegex: the .NET regex compiler is not modelled. The compiled pattern is a token list with a matcher that follows .NET's behaviour for `.`, `.*`, `^` and `$`. Its own contract states only the token count; what the matcher accepts is stated by `Wildcards.WildcardToRegexCorrect`.
- TextHelpers.GetGoogleDriveDownloadLinkFromUrl: a `null` url, which the source dereferences, is not modelled.
- TextHelpers.GetGoogleDriveDownloadLinkFromUrl: its own contract states only when the result is empty; the id it extracts is stated by `TextHelpers.IdLinkForm`, `TextHelpers.FileIdLinkForm` and `TextHelpers.DriveLinkShapes`.
- TextHelpers.TryParseIntSimple: a `null` string, for which the source returns false, has no counterpart because Dafny strings are never null.
- Paths.GetPathWithTrailingSeparatorChar: requires a non-empty path. On `""` the source's `path[path.Length - 1]` throws `IndexOutOfRangeException`, which is not modelled.
- Wildcards.TokensMatch, Wildcards.WildcardToRegexCorrect: a Dafny `char` is a Unicode scalar value, while a .NET string is a sequence of UTF-16 code units and `.` consumes one code unit. A character outside the Basic Multilingual Plane is one character here and two in the source, so `"a?b"` accepts `"a😀b"` in the model but not in the source.
- FileTree, FileSystem: names compare exactly. On a case-insensitive file system (the Windows and macOS defaults) `Directory.Exists` and `CopyTo` fold case, so the source merges a subdirectory `Sub` of `from` into `sub` of `to`, where the model moves it beside `sub`.
