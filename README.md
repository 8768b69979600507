# Stringlate repository handler, modelled in Dafny

Stringlate keeps each translation repository in a local root directory named after its git URL.
`RepoHandler` is the handle for one of those roots. It has three jobs:

- It keeps the list of locale names (`mLocales`) and creates and deletes locale stores.
- It runs the sync: clone the upstream repository into a scratch directory, scan the clone for
  Android `values` resource files, then copy them in. Copying routes each found path with a locale
  pattern. Default-locale files become the default baseline and get their remote paths recorded.
  Translated files are merged into `<locale>/strings.xml` under one of two policies: keep-changes
  or take-upstream.
- It derives strings from the URL: the root's name (`getId`), display names, the sort order of
  repositories, and the GitHub `owner/repo` pair.

The model is split into one module per concern:

| file | module | what it holds |
|---|---|---|
| `wrappers.dfy` | `Wrappers` | `Option` and `Result` |
| `ordered_map.dfy` | `OrderedMap` | insertion-ordered maps keyed by string: lookup, insert-or-replace, removal |
| `resources.dfy` | `Resources` | the resource store (id -> content and modified flag) and the per-file merge loop of `copyResources` |
| `locale_pattern.dfy` | `LocalePattern` | a hand-written recogniser for `res/values(?:-([\w-]+))?/.+?\.xml` and for the stricter `strings\.xml` variant, with `Matcher.find()` semantics |
| `java_string.dfy` | `JavaString` | the `java.lang.String` operations used: UTF-16 `compareTo`, `indexOf`, `lastIndexOf`, `endsWith` and `replace` |
| `repo_id.dfy` | `RepoId` | `String.hashCode` (32-bit wrapping) and `Integer.toHexString` |
| `repo_url.dfy` | `RepoUrl` | `toString()`, `toString(true)`, `compareTo`, and the `OWNER_REPO` recogniser with `isGitHubRepository` and `toOwnerRepo` |
| `locale_list.dfy` | `LocaleList` | sorting locales by display name, and `ArrayList.remove` |
| `repo_disk.dfy` | `RepoDisk` | the files under a root, and `copyResources` as a fold over the found files |
| `repo_handler.dfy` | `Repo` | the `RepoHandler` class: its state, its imperative operations and the three-stage sync |

On-disk state is a map from directory name to directory. A directory is an ordered list of
(file name, parsed store) pairs, in listing order. A file is identified with the store it parses
to. The remote-path table of the settings is a map from file name to path. Whatever the model
cannot see is a parameter:

- the transport results (clone succeeded, the files the scan found, the root deleted, a store saved);
- `ResourcesParser.cleanXml` and `ResourcesParser.applyTemplate`;
- `LocaleString.getDisplay`;
- the filename-comment header.

A few behaviours are easy to miss, so they are stated here. Each is modelled as the code has it:

- `hasLocale` asks whether `<locale>/strings.xml` is a file. `loadLocales` lists directories.
- `createLocale` appends to `mLocales` without sorting it again.
- `delete()` removes the root but leaves `mLocales` as it was.
- The `default` directory holds the default baseline. A path routed to a locale named `default`
  is merged into `default/strings.xml`, so the properties of the baseline require that no path
  routes there.
- In the `git@github.com:` alternative of `OWNER_REPO` the dot is not escaped. It accepts any
  character except a line terminator.
- Without `"://"`, `toString()` starts at index 2.
- `mergeDefaultTemplate` reads `files[0]` without checking that the array is non-empty. The model
  states this as a precondition.

The code routes every found path with the locale pattern through `find()`, so a match can start
anywhere in the path.

## Model

Source paths are relative to the repository root. The numbers are lines of `RepoHandler.java`.

| member | source | states |
|---|---|---|
| OrderedMap.Put | src/app/src/main/java/io/github/lonamiwebs/stringlate/utilities/RepoHandler.java:355-364 | `addTag` inserts or replaces by id. The id then maps to the new tag, every other id keeps its tag, ids stay unique, and a new id is appended at the end. |
| OrderedMap.PutReplacesInPlace | src/app/src/main/java/io/github/lonamiwebs/stringlate/utilities/RepoHandler.java:355-364 | Adding an existing id overwrites its first binding where it stands. Every other position keeps its binding. |
| Resources.MergeInto | src/app/src/main/java/io/github/lonamiwebs/stringlate/utilities/RepoHandler.java:352-365 | The merge loop over one fetched file gives the left fold `MergeTags`, under either policy. |
| Resources.KeepChangesPreservesModified | src/app/src/main/java/io/github/lonamiwebs/stringlate/utilities/RepoHandler.java:352-359 | Under keep-changes, an id the saved store marks as modified keeps its tag whatever is fetched. |
| Resources.KeepChangesTakesFresh | src/app/src/main/java/io/github/lonamiwebs/stringlate/utilities/RepoHandler.java:352-359 | Under keep-changes, an unmodified id is updated as under take-upstream, provided the fetched tags carry no modified flag. |
| Resources.TakeUpstreamLastWins | src/app/src/main/java/io/github/lonamiwebs/stringlate/utilities/RepoHandler.java:360-365 | Under take-upstream, a fetched id gets its last fetched definition. Any other id keeps its saved tag. |
| Resources.MergeKeys | src/app/src/main/java/io/github/lonamiwebs/stringlate/utilities/RepoHandler.java:352-365 | After a merge, the ids are the saved ids together with the fetched ids. |
| Resources.MergeKeepsUnique | src/app/src/main/java/io/github/lonamiwebs/stringlate/utilities/RepoHandler.java:352-365 | Merging keeps ids unique. |
| Resources.MergeTagsAppend | src/app/src/main/java/io/github/lonamiwebs/stringlate/utilities/RepoHandler.java:340-368 | One load-merge-save per file, each reading back the previous result, equals one merge of all the files' tags concatenated. |
| Resources.LastDef | src/app/src/main/java/io/github/lonamiwebs/stringlate/utilities/RepoHandler.java:360-365 | The last definition of an id in a fetched sequence exists exactly when the id is fetched. |
| LocalePattern.MatchAtDefault | src/app/src/main/java/io/github/lonamiwebs/stringlate/utilities/RepoHandler.java:108 | At a start index, the recogniser reports the default locale exactly when `res/values/` and the tail match there. |
| LocalePattern.MatchAtLocale | src/app/src/main/java/io/github/lonamiwebs/stringlate/utilities/RepoHandler.java:108 | At a start index, the recogniser reports locale L exactly when `res/values-L/` (L a run of `[\w-]`) and the tail match there. So the group is unique. |
| LocalePattern.MatchAt | src/app/src/main/java/io/github/lonamiwebs/stringlate/utilities/RepoHandler.java:108 | At any start index, a locale result is a non-empty run of `[\w-]`, which is what the capture group can hold. |
| LocalePattern.RouteIsLeftmostMatch | src/app/src/main/java/io/github/lonamiwebs/stringlate/utilities/RepoHandler.java:313-320 | `find()`: a path is skipped exactly when the pattern matches at no index. Otherwise its route is the match at the leftmost index. |
| LocalePattern.RouteOf | src/app/src/main/java/io/github/lonamiwebs/stringlate/utilities/RepoHandler.java:313-339 | `find()` followed by `group(1)`: a locale route names a non-empty run of `[\w-]`. |
| LocalePattern.StrictMatchIsLooseMatch | src/app/src/main/java/io/github/lonamiwebs/stringlate/utilities/RepoHandler.java:119-120 | Wherever the strict `strings.xml` pattern matches, the loose pattern matches with the same group. |
| LocalePattern.RouteOfStringsFile | src/app/src/main/java/io/github/lonamiwebs/stringlate/utilities/RepoHandler.java:313-339 | A `strings.xml` directly under `res/values-L/` routes to locale L under both patterns. This holds whenever no occurrence of `res/values` starts in the directories above it; one that did would be an earlier start for `find()`. |
| LocalePattern.RouteSpanishStrings | src/app/src/main/java/io/github/lonamiwebs/stringlate/utilities/RepoHandler.java:108 | `/tmp/res/values-es/strings.xml` routes to locale `es` under both patterns. |
| LocalePattern.RouteDefaultArrays | src/app/src/main/java/io/github/lonamiwebs/stringlate/utilities/RepoHandler.java:119-120 | `res/values/arrays.xml` is a default file for the loose pattern and is skipped by the strict one. |
| JavaString.CompareToZero | src/app/src/main/java/io/github/lonamiwebs/stringlate/utilities/RepoHandler.java:536-538 | `String.compareTo` over UTF-16 units is zero exactly on equal strings. |
| JavaString.CompareUnitsAntisymmetric | src/app/src/main/java/io/github/lonamiwebs/stringlate/utilities/RepoHandler.java:202-207 | Swapping the operands of `compareTo` negates the result. |
| JavaString.CompareUnitsTransitive | src/app/src/main/java/io/github/lonamiwebs/stringlate/utilities/RepoHandler.java:202-207 | `compareTo` orders strings transitively. |
| JavaString.Utf16Injective | src/app/src/main/java/io/github/lonamiwebs/stringlate/utilities/RepoHandler.java:184 | Distinct strings have distinct UTF-16 encodings, which `hashCode` and `compareTo` read. |
| JavaString.IndexOfFrom | src/app/src/main/java/io/github/lonamiwebs/stringlate/utilities/RepoHandler.java:501 | `indexOf` returns the first occurrence at or after the start index, or -1 when there is none. |
| JavaString.LastIndexOf | src/app/src/main/java/io/github/lonamiwebs/stringlate/utilities/RepoHandler.java:500 | `lastIndexOf` returns the last index holding the character, or -1. |
| JavaString.AfterLast | src/app/src/main/java/io/github/lonamiwebs/stringlate/utilities/RepoHandler.java:508-514 | `substring(lastIndexOf(c) + 1)` is a suffix without `c`. It is the whole string when `c` does not occur, and otherwise starts right after a `c`. |
| JavaString.ReplaceAllFirst | src/app/src/main/java/io/github/lonamiwebs/stringlate/utilities/RepoHandler.java:485 | `replace` substitutes the first occurrence and resumes scanning right after it. |
| JavaString.ReplaceAllAbsent | src/app/src/main/java/io/github/lonamiwebs/stringlate/utilities/RepoHandler.java:485 | `replace` leaves a string without the target unchanged. |
| RepoId.WrappingHash | src/app/src/main/java/io/github/lonamiwebs/stringlate/utilities/RepoHandler.java:184 | `hashCode` (`h = 31*h + c`, wrapping) is a 32-bit value. |
| RepoId.HashIsPolynomialMod | src/app/src/main/java/io/github/lonamiwebs/stringlate/utilities/RepoHandler.java:184 | The wrapping loop equals s[0]·31^(n−1)+…+s[n−1] modulo 2^32. |
| RepoId.HashCode | src/app/src/main/java/io/github/lonamiwebs/stringlate/utilities/RepoHandler.java:184 | `hashCode` read unsigned is below 2^32 and equals s[0]·31^(n−1)+…+s[n−1] modulo 2^32. |
| RepoId.ToHexString | src/app/src/main/java/io/github/lonamiwebs/stringlate/utilities/RepoHandler.java:184 | `toHexString` gives at least one character, and every character is a lower-case hex digit. |
| RepoId.HexRoundTrip | src/app/src/main/java/io/github/lonamiwebs/stringlate/utilities/RepoHandler.java:184 | `toHexString` of a 32-bit value has 1 to 8 lower-case hex digits, has no leading zero unless the value is 0, and parses back to the value. |
| RepoId.Id | src/app/src/main/java/io/github/lonamiwebs/stringlate/utilities/RepoHandler.java:183-185 | A root name has 1 to 8 lower-case hex digits, with no leading zero unless the hash code is 0. |
| RepoId.IdIsHashCode | src/app/src/main/java/io/github/lonamiwebs/stringlate/utilities/RepoHandler.java:183-185 | Two URLs get the same root name exactly when their hash codes are equal. So a URL always maps to the same root. |
| RepoUrl.DisplayName | src/app/src/main/java/io/github/lonamiwebs/stringlate/utilities/RepoHandler.java:495-506 | `toString()` always yields a piece of the URL: the part between the bounds, or the whole URL when `substring` throws. |
| RepoUrl.DisplayNameStripsScheme | src/app/src/main/java/io/github/lonamiwebs/stringlate/utilities/RepoHandler.java:496-506 | `toString()` of scheme + `://` + body is the body without a trailing `.git`. |
| RepoUrl.DisplayNameIgnoresGitSuffix | src/app/src/main/java/io/github/lonamiwebs/stringlate/utilities/RepoHandler.java:500-501 | Appending `.git` to a URL does not change its display name. |
| RepoUrl.DisplayNameWithoutScheme | src/app/src/main/java/io/github/lonamiwebs/stringlate/utilities/RepoHandler.java:496-506 | Without `://`, the display starts at index 2 and a trailing `.git` is cut off. When the end falls before index 2, `substring` throws and the whole URL is shown. |
| RepoUrl.ShortName | src/app/src/main/java/io/github/lonamiwebs/stringlate/utilities/RepoHandler.java:508-514 | `toString(true)` is a suffix of the display name with no `/`. It is the whole display name when that has no `/`, and otherwise starts right after a `/`, so it is the part after the last `/`. |
| RepoUrl.CompareRepos | src/app/src/main/java/io/github/lonamiwebs/stringlate/utilities/RepoHandler.java:536-538 | Two repositories compare equal exactly when their display names are equal. |
| RepoUrl.CompareReposOrder | src/app/src/main/java/io/github/lonamiwebs/stringlate/utilities/RepoHandler.java:536-538 | `compareTo` on repositories is antisymmetric and transitive. |
| RepoUrl.PrefixLength | src/app/src/main/java/io/github/lonamiwebs/stringlate/utilities/RepoHandler.java:61-62 | The prefix found is one that the non-capturing alternative accepts. |
| RepoUrl.OwnerRepo | src/app/src/main/java/io/github/lonamiwebs/stringlate/utilities/RepoHandler.java:61-62 | When `OWNER_REPO` matches, the prefix is one of its alternatives and both groups are non-empty runs of `[\w-]`. |
| RepoUrl.OwnerRepoComplete | src/app/src/main/java/io/github/lonamiwebs/stringlate/utilities/RepoHandler.java:61-62 | Every prefix + owner + `/` + repo + tail that `OWNER_REPO` accepts is recognised, with exactly those groups. |
| RepoUrl.OwnerRepoSound | src/app/src/main/java/io/github/lonamiwebs/stringlate/utilities/RepoHandler.java:61-62 | Every recognised URL has that form, and the groups are the owner and the repository. |
| RepoUrl.SshDotMatchesAnyCharacter | src/app/src/main/java/io/github/lonamiwebs/stringlate/utilities/RepoHandler.java:61-62 | Because the dot is unescaped, `git@github` + any non-line-terminator + `com:owner/repo.git` is a GitHub URL. |
| RepoUrl.ToOwnerRepo | src/app/src/main/java/io/github/lonamiwebs/stringlate/utilities/RepoHandler.java:516-523 | `toOwnerRepo` succeeds exactly when `isGitHubRepository` holds. Otherwise it is the error. |
| RepoUrl.ToOwnerRepoCanonical | src/app/src/main/java/io/github/lonamiwebs/stringlate/utilities/RepoHandler.java:516-523 | The canonical `https://github.com/owner/repo` of a recognised URL gives back the same `owner/repo`. |
| LocaleList.BeforeTotalPreorder | src/app/src/main/java/io/github/lonamiwebs/stringlate/utilities/RepoHandler.java:202-207 | The comparator of `loadLocales` is total and transitive. |
| LocaleList.Insert | src/app/src/main/java/io/github/lonamiwebs/stringlate/utilities/RepoHandler.java:202-207 | Inserting into a sorted list gives a sorted list with one more occurrence of the element. |
| LocaleList.SortByDisplay | src/app/src/main/java/io/github/lonamiwebs/stringlate/utilities/RepoHandler.java:202-207 | `Collections.sort` gives a permutation sorted by display name. |
| LocaleList.SortKeepsEntries | src/app/src/main/java/io/github/lonamiwebs/stringlate/utilities/RepoHandler.java:202-207 | Sorting keeps the number of locales and which locales are listed. |
| LocaleList.RemoveFirst | src/app/src/main/java/io/github/lonamiwebs/stringlate/utilities/RepoHandler.java:233 | `ArrayList.remove` drops one occurrence when present and is the identity otherwise. |
| LocaleList.RemoveFirstSplice | src/app/src/main/java/io/github/lonamiwebs/stringlate/utilities/RepoHandler.java:233 | The entry removed is the first occurrence, and the other entries keep their order. |
| LocaleList.RemoveFirstKeepsSorted | src/app/src/main/java/io/github/lonamiwebs/stringlate/utilities/RepoHandler.java:233 | Removing an entry from a sorted list leaves it sorted. |
| RepoDisk.LoadStore | src/app/src/main/java/io/github/lonamiwebs/stringlate/utilities/RepoHandler.java:131-133 | A locale's store is its `strings.xml`. It is empty when that file is missing. |
| RepoDisk.WriteFile | src/app/src/main/java/io/github/lonamiwebs/stringlate/utilities/RepoHandler.java:328-329 | Writing a file creates its directory if needed and changes no other file or directory. |
| RepoDisk.SaveStore | src/app/src/main/java/io/github/lonamiwebs/stringlate/utilities/RepoHandler.java:368 | After a save, the locale's file exists and loads back as what was saved. Other locales are unchanged. |
| RepoDisk.DeleteFile | src/app/src/main/java/io/github/lonamiwebs/stringlate/utilities/RepoHandler.java:232 | The model's deletion removes only the named file from the on-disk state and leaves its directory and every other file as they were. This is how `Resources.delete()` at line 232 is taken to behave; the method itself is not part of this model. |
| RepoDisk.FileName | src/app/src/main/java/io/github/lonamiwebs/stringlate/utilities/RepoHandler.java:328 | `getName()` is a suffix of the path with no `/`. It is the whole path when that has no `/`, and otherwise starts right after a `/`, so it is the part after the last `/`. |
| RepoDisk.RemotePathRoundTrip | src/app/src/main/java/io/github/lonamiwebs/stringlate/utilities/RepoHandler.java:331-333 | The recorded remote path of `cloneDir/rel` is `rel`, without its leading separator. |
| RepoDisk.ClearDefaults | src/app/src/main/java/io/github/lonamiwebs/stringlate/utilities/RepoHandler.java:305-309 | Before any file is processed, the remote paths are cleared, the default files are deleted and every other directory is kept. |
| RepoDisk.DefaultSource | src/app/src/main/java/io/github/lonamiwebs/stringlate/utilities/RepoHandler.java:320-336 | The file written as `default/<name>` is a found, non-empty, default-routed file with that name. |
| RepoDisk.CopyKeepsWellFormed | src/app/src/main/java/io/github/lonamiwebs/stringlate/utilities/RepoHandler.java:311-371 | Copying never lists a file twice in a directory. |
| RepoDisk.CopySkipsUnmatched | src/app/src/main/java/io/github/lonamiwebs/stringlate/utilities/RepoHandler.java:313-316 | Found files that the pattern does not match change nothing. |
| RepoDisk.CopyLocaleStore | src/app/src/main/java/io/github/lonamiwebs/stringlate/utilities/RepoHandler.java:338-368 | For each locale other than `default`, the store after the copy is the saved store merged with all tags routed to that locale, in processing order. This holds whatever the source files were called. |
| RepoDisk.KeepChangesSyncPreservesEdits | src/app/src/main/java/io/github/lonamiwebs/stringlate/utilities/RepoHandler.java:352-359 | A keep-changes sync keeps every modified entry of every locale. |
| RepoDisk.TakeUpstreamSyncLastWins | src/app/src/main/java/io/github/lonamiwebs/stringlate/utilities/RepoHandler.java:360-365 | After a take-upstream sync, each fetched id holds its last fetched definition across all files of that locale. |
| RepoDisk.CopyLeavesOtherLocales | src/app/src/main/java/io/github/lonamiwebs/stringlate/utilities/RepoHandler.java:311-371 | A locale directory that no found file is routed to keeps exactly its files. |
| RepoDisk.CopyFoldDefaults | src/app/src/main/java/io/github/lonamiwebs/stringlate/utilities/RepoHandler.java:320-336 | While the files are processed, `default/<name>` and its remote path come from the last non-empty default file with that name. |
| RepoDisk.CopyDefaults | src/app/src/main/java/io/github/lonamiwebs/stringlate/utilities/RepoHandler.java:305-336 | After the copy, the default files and their remote paths are exactly those from the non-empty default-routed files found. |
| RepoDisk.CopyHasRemoteUrls | src/app/src/main/java/io/github/lonamiwebs/stringlate/utilities/RepoHandler.java:474-476 | After a copy there are as many default files as remote paths, so `hasRemoteUrls()` holds. |
| RepoDisk.DefaultResourcesLastWins | src/app/src/main/java/io/github/lonamiwebs/stringlate/utilities/RepoHandler.java:382-391 | Mixing the default files gives each id once, with its last definition across the files. |
| Repo.TemplatePathInjective | src/app/src/main/java/io/github/lonamiwebs/stringlate/utilities/RepoHandler.java:135-137 | Distinct file names give distinct `default/<name>` files. |
| Repo.LocaleRemotePathSingle | src/app/src/main/java/io/github/lonamiwebs/stringlate/utilities/RepoHandler.java:485 | A remote path with a single `/values/` maps to the same path under `/values-<locale>/`. |
| Repo.RepoHandler.constructor | src/app/src/main/java/io/github/lonamiwebs/stringlate/utilities/RepoHandler.java:100-112 | The public constructor roots the handle at `repos/<id>`, uses the loose pattern and loads the locales. |
| Repo.RepoHandler.FromRoot | src/app/src/main/java/io/github/lonamiwebs/stringlate/utilities/RepoHandler.java:114-124 | The root constructor uses the strict `strings.xml` pattern and loads the locales. |
| Repo.RepoHandler.LoadLocales | src/app/src/main/java/io/github/lonamiwebs/stringlate/utilities/RepoHandler.java:193-208 | `mLocales` lists every directory of the root once, sorted by display name. |
| Repo.RepoHandler.AnyModified | src/app/src/main/java/io/github/lonamiwebs/stringlate/utilities/RepoHandler.java:162-167 | True exactly when the store of some listed locale has a modified entry. |
| Repo.RepoHandler.CreateLocale | src/app/src/main/java/io/github/lonamiwebs/stringlate/utilities/RepoHandler.java:218-228 | A present locale gives true and changes nothing. A failed save gives false and changes nothing. Otherwise an empty store is saved, the locale is appended, and true is returned. |
| Repo.RepoHandler.DeleteLocale | src/app/src/main/java/io/github/lonamiwebs/stringlate/utilities/RepoHandler.java:230-235 | A missing locale is a no-op. Otherwise the store file is deleted, taking `Resources.delete()` to succeed, and the first list entry is removed. Afterwards the locale has no store file. |
| Repo.RepoHandler.Delete | src/app/src/main/java/io/github/lonamiwebs/stringlate/utilities/RepoHandler.java:173-177 | When the transport reports success, the root and its settings are gone. The result is that report, and `mLocales` is untouched. |
| Repo.RepoHandler.LoadDefaultResources | src/app/src/main/java/io/github/lonamiwebs/stringlate/utilities/RepoHandler.java:382-391 | The nested `addTag` loop gives the take-upstream merge of all default files' tags in listing order. |
| Repo.RepoHandler.LoadResources | src/app/src/main/java/io/github/lonamiwebs/stringlate/utilities/RepoHandler.java:393-395 | A locale's resources are its stored file, or empty when the locale has none. |
| Repo.RepoHandler.ApplyTemplate | src/app/src/main/java/io/github/lonamiwebs/stringlate/utilities/RepoHandler.java:407-411 | Without the locale nothing is written and the result is false. Otherwise the template is rendered with the locale's store. |
| Repo.RepoHandler.ApplyTemplateText | src/app/src/main/java/io/github/lonamiwebs/stringlate/utilities/RepoHandler.java:398-404 | The string form is `""` without the locale or when the rendering fails. Otherwise it is exactly the text the rendering wrote. |
| Repo.RepoHandler.SectionsWithoutLocale | src/app/src/main/java/io/github/lonamiwebs/stringlate/utilities/RepoHandler.java:417-426 | Without a store for the locale, the concatenated document holds only the filename headers. |
| Repo.RepoHandler.MergeDefaultTemplate | src/app/src/main/java/io/github/lonamiwebs/stringlate/utilities/RepoHandler.java:414-431 | With several default files: header, rendering and newline per file, in listing order. With one file: its `applyTemplate` text. Without the locale: only headers, or `""`. |
| Repo.RepoHandler.GetTemplateRemotePaths | src/app/src/main/java/io/github/lonamiwebs/stringlate/utilities/RepoHandler.java:480-489 | One entry per recorded file name, keyed by `default/<name>`. Each value is the remote path with every `/values/` replaced by `/values-<locale>/`. |
| Repo.RepoHandler.ClearDefaultFiles | src/app/src/main/java/io/github/lonamiwebs/stringlate/utilities/RepoHandler.java:305-309 | The first part of the copy clears the remote paths and deletes every default file. Other directories are kept. |
| Repo.RepoHandler.CopyFoundFile | src/app/src/main/java/io/github/lonamiwebs/stringlate/utilities/RepoHandler.java:313-368 | One iteration of the copy loop does exactly what the route of the file's path calls for. |
| Repo.RepoHandler.CopyResources | src/app/src/main/java/io/github/lonamiwebs/stringlate/utilities/RepoHandler.java:299-376 | The imperative copy produces exactly `CopyAll` on the root and the settings, and `hasRemoteUrls()` holds afterwards. The clone is then gone exactly when its deletion is reported to succeed. |
| Repo.RepoHandler.SyncResources | src/app/src/main/java/io/github/lonamiwebs/stringlate/utilities/RepoHandler.java:241-270 | A failed clone reports cloning and then finished(invalid repo, false), and deletes the repository. Otherwise the outcome is that of the scan, and the clone is gone exactly when its deletion is reported to succeed. |
| Repo.RepoHandler.ScanResources | src/app/src/main/java/io/github/lonamiwebs/stringlate/utilities/RepoHandler.java:274-297 | An empty scan deletes the clone and the repository and finishes with (no strings found, false). Otherwise copying runs and the sync finishes with (null, true). The clone is gone exactly when its deletion is reported to succeed. |

## Left out

- The static change-listener list and `notifyRepositoryCountChanged` (lines 68-86) are a process-wide callback side effect.
- `AsyncTask` threading in `cloneRepository` and `scanResources`. The stages run as sequential steps.
- `Context.getString` messages are the `Message` values, and the progress texts are the `Stage` values. `Log` is not modelled.
- `fromBundle`/`toBundle`, `listRepositories`, `getLastLocale`/`setLastLocale` and `getLocales` move data around and decide nothing.
- The `(owner, repository)` constructor, `GitWrapper.getGitUri` and `GitWrapper.buildGitHubUrl` are not part of this model. The public constructor receives the URL already normalised.
- `GitWrapper.cloneRepo`, `deleteRepo` and `searchAndroidResources` are foreign transport code. Their results are parameters: whether the clone succeeded, the files found, and whether the clone and the root were deleted.
- XML parsing and serialisation (`Resources.fromFile`, `save`, `cleanXml`, `applyTemplate`) are not shown. A file is its parsed store, `cleanXml` is a function on stores, and `applyTemplate` is a function returning what it wrote and whether it succeeded.
- Repo.RepoHandler.CopyResources: a failing `Resources.save()` inside the copy is not modelled. Every save there is taken to succeed.
- Repo.RepoHandler.Delete: a deletion that fails halfway is modelled as no deletion. The in-memory settings object is taken to forget the remote paths along with its file.
- Repo.RepoHandler.SyncResources: the deletion before cloning (line 255) is taken to succeed, and a failed clone is taken to leave no scratch directory.
- Repo.RepoHandler.DeleteLocale: `Resources.delete()` is not part of this model. Its result is ignored at line 232, and the model takes it to succeed and to remove exactly the `strings.xml` file, leaving the locale's directory. A deletion that fails is not modelled, and a later `loadLocales` lists the locale again because its directory is still there.
- Repo.RepoHandler.MergeDefaultTemplate: the code reads `files[0]` without checking that the list of default files is non-empty. The method requires `HasDefaultLocale()`, a non-empty default directory, so the `ArrayIndexOutOfBoundsException` that an empty list raises is not modelled.
- Repo.RepoHandler.ApplyTemplate: a template in the listing is taken to be a file, so `template.isFile()` is true.
- Repo.RepoHandler.LoadLocales: the root holds only directories, so the settings file is not listed. `Collections.sort` is stable, but the model states only that the result is a sorted permutation.
- LocaleList.SortByDisplay: stability of the sort is not stated.
- The order in which `listFiles()` and `HashMap` iterate is unspecified. The model takes the default directory's order as given and lets `loadLocales` and `getTemplateRemotePaths` pick keys in any order.
- Characters are Unicode scalar values. Java strings holding unpaired surrogates cannot be represented. `indexOf`, `lastIndexOf` and `substring` count characters here, whereas Java counts UTF-16 units; for a URL with characters outside the Basic Multilingual Plane, the display name can differ (without `://`, Java drops two units, which may be half of one such character).
