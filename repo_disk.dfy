/**
 * The files under a repository's root directory and what `copyResources` does to them.
 * A root holds one directory per locale (`<locale>/strings.xml`) and the `default` directory
 * with the cleaned default resource files, listed in directory order. A file is identified
 * with the resource store it parses to. The remote-path table of the settings maps a default
 * file name to its path inside the cloned repository.
 */
module RepoDisk {
  import opened Wrappers
  import opened OrderedMap
  import opened Resources
  import opened LocalePattern
  import opened JavaString

  const DEFAULT_LOCALE := "default"
  const STRINGS_FILE := "strings.xml"

  /** A directory: file name -> parsed contents, in listing order. */
  type Dir = seq<Binding<Store>>

  /** A root directory: sub-directory name -> directory. */
  type FileSystem = map<string, Dir>

  /** No directory lists a file name twice. */
  predicate WellFormed(fs: FileSystem) {
    forall d | d in fs :: UniqueKeys(fs[d])
  }

  /** The listing of a directory; a missing directory lists nothing. */
  function DirOf(fs: FileSystem, dir: string): Dir {
    if dir in fs then fs[dir] else []
  }

  /** `getDefaultResourcesFiles()`. */
  function DefaultFiles(fs: FileSystem): Dir {
    DirOf(fs, DEFAULT_LOCALE)
  }

  /** `hasLocale(locale)`: `<locale>/strings.xml` is a file. */
  predicate HasLocale(fs: FileSystem, locale: string) {
    locale in fs && STRINGS_FILE in Keys(fs[locale])
  }

  /** `Resources.fromFile(getResourcesFile(locale))`: a missing file loads as an empty store. */
  function LoadStore(fs: FileSystem, locale: string): (s: Store)
    ensures HasLocale(fs, locale) ==> Binding(STRINGS_FILE, s) in fs[locale]
    ensures !HasLocale(fs, locale) ==> s == []
  {
    match Find(DirOf(fs, locale), STRINGS_FILE)
    case Some(st) => st
    case None => []
  }

  /** Writing a file, creating its directory when needed; nothing else changes. */
  function WriteFile(fs: FileSystem, dir: string, name: string, content: Store): (r: FileSystem)
    ensures r.Keys == fs.Keys + {dir}
    ensures Find(r[dir], name) == Some(content)
    ensures forall n :: n != name ==> Find(r[dir], n) == Find(DirOf(fs, dir), n)
    ensures forall d | d in fs && d != dir :: r[d] == fs[d]
    ensures WellFormed(fs) ==> WellFormed(r)
  {
    var listing := Put(DirOf(fs, dir), name, content);
    var r := fs[dir := listing];
    assert r[dir] == listing;
    assert WellFormed(fs) ==> UniqueKeys(DirOf(fs, dir));
    r
  }

  /** `Resources.save()` of a locale's store; loading it back gives what was saved. */
  function SaveStore(fs: FileSystem, locale: string, s: Store): (r: FileSystem)
    ensures HasLocale(r, locale) && LoadStore(r, locale) == s
    ensures forall l :: l != locale ==> LoadStore(r, l) == LoadStore(fs, l)
    ensures WellFormed(fs) ==> WellFormed(r)
  {
    WriteFile(fs, locale, STRINGS_FILE, s)
  }

  /** Deleting a file. The directory that held it stays. */
  function DeleteFile(fs: FileSystem, dir: string, name: string): (r: FileSystem)
    ensures r.Keys == fs.Keys
    ensures dir in fs ==> Find(r[dir], name) == None && forall n :: n != name ==> Find(r[dir], n) == Find(fs[dir], n)
    ensures forall d | d in fs && d != dir :: r[d] == fs[d]
    ensures WellFormed(fs) ==> WellFormed(r)
  {
    if dir in fs then fs[dir := Remove(fs[dir], name)] else fs
  }

  /** A resource file found in the clone: its absolute path and its parsed contents. */
  datatype FoundFile = FoundFile(path: string, res: Store)

  /** The root's files together with the remote-path table of its settings. */
  datatype Disk = Disk(fs: FileSystem, remotePaths: map<string, string>)

  /**
   * `File.getName()`: the path after its last '/'; the whole path when it holds none, otherwise
   * the '/'-free suffix that starts right after a '/'.
   */
  function FileName(path: string): (n: string)
    ensures forall k :: 0 <= k < |n| ==> n[k] != '/'
    ensures EndsWith(path, n)
    ensures '/' !in path ==> n == path
    ensures '/' in path ==> |n| < |path| && path[|path| - |n| - 1] == '/'
  {
    var n := AfterLast(path, '/');
    assert EndsWith(path, n) by { assert n == path[|path| - |n|..]; }
    n
  }

  /** Every found path is longer than the clone directory, as `substring(len + 1)` needs. */
  predicate InsideClone(cloneDir: string, found: seq<FoundFile>) {
    forall i | 0 <= i < |found| :: |cloneDir| < |found[i].path|
  }

  /** The remote path of a cloned file: its absolute path without the clone directory and '/'. */
  function RemotePath(cloneDir: string, path: string): string
    requires |cloneDir| < |path|
  {
    path[|cloneDir| + 1..]
  }

  /** For a file inside the clone directory, the remote path is exactly the part below it. */
  lemma RemotePathRoundTrip(cloneDir: string, rel: string)
    ensures RemotePath(cloneDir, cloneDir + "/" + rel) == rel
  {
    assert (cloneDir + "/" + rel)[|cloneDir| + 1..] == rel;
  }

  /**
   * The first step of copyResources: the remote-path table is cleared and every default
   * file is deleted (the `default` directory itself stays).
   */
  function ClearDefaults(d: Disk): (r: Disk)
    ensures DefaultFiles(r.fs) == [] && r.remotePaths == map[]
    ensures r.fs.Keys == d.fs.Keys
    ensures forall dir | dir in d.fs && dir != DEFAULT_LOCALE :: r.fs[dir] == d.fs[dir]
  {
    Disk(if DEFAULT_LOCALE in d.fs then d.fs[DEFAULT_LOCALE := []] else d.fs, map[])
  }

  /**
   * What copyResources does with one found file, by the route its path takes:
   *  - no match: nothing;
   *  - default locale: a file with entries is written, cleaned by `clean`, as
   *    `default/<name>`, and its remote path is recorded under `<name>`;
   *  - locale L: the saved store of L is merged with the file's entries and saved back.
   */
  function CopyStep(kind: PatternKind, cloneDir: string, clean: Store -> Store, keepChanges: bool,
                    d: Disk, f: FoundFile): Disk
    requires |cloneDir| < |f.path|
  {
    match RouteOf(kind, f.path)
    case Skip => d
    case DefaultLocale =>
      if IsEmpty(f.res) then d
      else
        var name := FileName(f.path);
        Disk(WriteFile(d.fs, DEFAULT_LOCALE, name, clean(f.res)),
             d.remotePaths[name := RemotePath(cloneDir, f.path)])
    case Locale(l) =>
      Disk(SaveStore(d.fs, l, MergeTags(LoadStore(d.fs, l), f.res, keepChanges)), d.remotePaths)
  }

  /** The found files processed in order. */
  function CopyFold(kind: PatternKind, cloneDir: string, clean: Store -> Store, keepChanges: bool,
                    d: Disk, found: seq<FoundFile>): Disk
    requires InsideClone(cloneDir, found)
    decreases |found|
  {
    if found == [] then d
    else
      var last := found[|found| - 1];
      CopyStep(kind, cloneDir, clean, keepChanges,
               CopyFold(kind, cloneDir, clean, keepChanges, d, found[..|found| - 1]), last)
  }

  /** The whole of copyResources on the root and the settings. */
  function CopyAll(kind: PatternKind, cloneDir: string, clean: Store -> Store, keepChanges: bool,
                   d: Disk, found: seq<FoundFile>): Disk
    requires InsideClone(cloneDir, found)
  {
    CopyFold(kind, cloneDir, clean, keepChanges, ClearDefaults(d), found)
  }

  /** All entries fetched for locale `l`, in the order the files were processed. */
  function FetchedFor(kind: PatternKind, found: seq<FoundFile>, l: string): Store
    decreases |found|
  {
    if found == [] then []
    else
      var last := found[|found| - 1];
      FetchedFor(kind, found[..|found| - 1], l) + (if RouteOf(kind, last.path) == Locale(l) then last.res else [])
  }

  /** The last found file that is written as `default/<name>`, if any. */
  function DefaultSource(kind: PatternKind, found: seq<FoundFile>, name: string): (r: Option<FoundFile>)
    ensures r.Some? ==> RouteOf(kind, r.value.path) == DefaultLocale && !IsEmpty(r.value.res) && FileName(r.value.path) == name
    ensures r.Some? ==> r.value in found
    decreases |found|
  {
    if found == [] then None
    else
      var last := found[|found| - 1];
      if RouteOf(kind, last.path) == DefaultLocale && !IsEmpty(last.res) && FileName(last.path) == name then Some(last)
      else
        var r := DefaultSource(kind, found[..|found| - 1], name);
        assert r.Some? ==> r.value in found by {
          if r.Some? {
            var i :| 0 <= i < |found| - 1 && found[..|found| - 1][i] == r.value;
            assert found[i] == r.value;
          }
        }
        r
  }

  /** No found path is routed to a locale named `default`. */
  predicate NoDefaultLocaleRoute(kind: PatternKind, found: seq<FoundFile>) {
    forall i | 0 <= i < |found| :: RouteOf(kind, found[i].path) != Locale(DEFAULT_LOCALE)
  }

  lemma CopyStepKeepsWellFormed(kind: PatternKind, cloneDir: string, clean: Store -> Store, keepChanges: bool,
                                d: Disk, f: FoundFile)
    requires |cloneDir| < |f.path| && WellFormed(d.fs)
    ensures WellFormed(CopyStep(kind, cloneDir, clean, keepChanges, d, f).fs)
  {
  }

  /** copyResources never lists a file twice in a directory. */
  lemma {:induction false} CopyKeepsWellFormed(kind: PatternKind, cloneDir: string, clean: Store -> Store,
                                               keepChanges: bool, d: Disk, found: seq<FoundFile>)
    requires InsideClone(cloneDir, found) && WellFormed(d.fs)
    ensures WellFormed(CopyFold(kind, cloneDir, clean, keepChanges, d, found).fs)
    decreases |found|
  {
    if found != [] {
      var init := found[..|found| - 1];
      CopyKeepsWellFormed(kind, cloneDir, clean, keepChanges, d, init);
      CopyStepKeepsWellFormed(kind, cloneDir, clean, keepChanges,
                              CopyFold(kind, cloneDir, clean, keepChanges, d, init), found[|found| - 1]);
    }
  }

  lemma CopyStepLocale(kind: PatternKind, cloneDir: string, clean: Store -> Store, keepChanges: bool,
                       d: Disk, f: FoundFile, l: string)
    requires |cloneDir| < |f.path| && l != DEFAULT_LOCALE
    ensures LoadStore(CopyStep(kind, cloneDir, clean, keepChanges, d, f).fs, l) ==
      if RouteOf(kind, f.path) == Locale(l) then MergeTags(LoadStore(d.fs, l), f.res, keepChanges)
      else LoadStore(d.fs, l)
  {
    match RouteOf(kind, f.path)
    case Skip =>
    case DefaultLocale =>
      CopyStepDefaultOtherStore(kind, cloneDir, clean, keepChanges, d, f, l);
    case Locale(m) =>
      var r := CopyStep(kind, cloneDir, clean, keepChanges, d, f).fs;
      assert r == SaveStore(d.fs, m, MergeTags(LoadStore(d.fs, m), f.res, keepChanges));
  }

  lemma CopyStepDefaultOtherStore(kind: PatternKind, cloneDir: string, clean: Store -> Store,
                                  keepChanges: bool, d: Disk, f: FoundFile, l: string)
    requires |cloneDir| < |f.path| && l != DEFAULT_LOCALE
    requires RouteOf(kind, f.path) == DefaultLocale
    ensures LoadStore(CopyStep(kind, cloneDir, clean, keepChanges, d, f).fs, l) == LoadStore(d.fs, l)
  {
    if !IsEmpty(f.res) {
      var name := FileName(f.path);
      assert CopyStep(kind, cloneDir, clean, keepChanges, d, f).fs == WriteFile(d.fs, DEFAULT_LOCALE, name, clean(f.res));
      WriteFileKeepsStore(d.fs, DEFAULT_LOCALE, name, clean(f.res), l);
    }
  }

  /** Writing a file into one directory leaves the store of every other locale as it was. */
  lemma WriteFileKeepsStore(fs: FileSystem, dir: string, name: string, content: Store, l: string)
    requires l != dir
    ensures LoadStore(WriteFile(fs, dir, name, content), l) == LoadStore(fs, l)
  {
    var r := WriteFile(fs, dir, name, content);
    if l in fs {
      assert r[l] == fs[l];
    } else {
      assert l !in r.Keys;
    }
    assert DirOf(r, l) == DirOf(fs, l);
  }

  /**
   * For every locale other than `default`, the saved store after copyResources is the store
   * before it merged, under the chosen policy, with all entries fetched for that locale in
   * processing order, each file's merge reading back the previous file's saved result.
   */
  lemma {:induction false} CopyLocaleStore(kind: PatternKind, cloneDir: string, clean: Store -> Store,
                                           keepChanges: bool, d: Disk, found: seq<FoundFile>, l: string)
    requires InsideClone(cloneDir, found) && l != DEFAULT_LOCALE
    ensures LoadStore(CopyAll(kind, cloneDir, clean, keepChanges, d, found).fs, l) ==
      MergeTags(LoadStore(d.fs, l), FetchedFor(kind, found, l), keepChanges)
  {
    assert DirOf(ClearDefaults(d).fs, l) == DirOf(d.fs, l);
    CopyFoldLocaleStore(kind, cloneDir, clean, keepChanges, ClearDefaults(d), found, l);
  }

  lemma {:induction false} CopyFoldLocaleStore(kind: PatternKind, cloneDir: string, clean: Store -> Store,
                                               keepChanges: bool, d: Disk, found: seq<FoundFile>, l: string)
    requires InsideClone(cloneDir, found) && l != DEFAULT_LOCALE
    ensures LoadStore(CopyFold(kind, cloneDir, clean, keepChanges, d, found).fs, l) ==
      MergeTags(LoadStore(d.fs, l), FetchedFor(kind, found, l), keepChanges)
    decreases |found|
  {
    if found != [] {
      var init, last := found[..|found| - 1], found[|found| - 1];
      CopyFoldLocaleStore(kind, cloneDir, clean, keepChanges, d, init, l);
      var mid := CopyFold(kind, cloneDir, clean, keepChanges, d, init);
      CopyStepLocale(kind, cloneDir, clean, keepChanges, mid, last, l);
      var piece := if RouteOf(kind, last.path) == Locale(l) then last.res else [];
      MergeTagsAppend(LoadStore(d.fs, l), FetchedFor(kind, init, l), piece, keepChanges);
      if piece == [] {
        assert FetchedFor(kind, found, l) == FetchedFor(kind, init, l);
      }
    }
  }

  /** Keep-changes sync: every entry the user modified in a locale keeps its content and flag. */
  lemma KeepChangesSyncPreservesEdits(kind: PatternKind, cloneDir: string, clean: Store -> Store,
                                      d: Disk, found: seq<FoundFile>, l: string, id: string)
    requires InsideClone(cloneDir, found) && l != DEFAULT_LOCALE
    requires WasModified(LoadStore(d.fs, l), id)
    ensures Find(LoadStore(CopyAll(kind, cloneDir, clean, true, d, found).fs, l), id) == Find(LoadStore(d.fs, l), id)
  {
    CopyLocaleStore(kind, cloneDir, clean, true, d, found, l);
    KeepChangesPreservesModified(LoadStore(d.fs, l), FetchedFor(kind, found, l), id);
  }

  /**
   * Take-upstream sync: an entry fetched for a locale ends up with its last fetched
   * definition; an entry not fetched keeps its saved tag.
   */
  lemma TakeUpstreamSyncLastWins(kind: PatternKind, cloneDir: string, clean: Store -> Store,
                                 d: Disk, found: seq<FoundFile>, l: string, id: string)
    requires InsideClone(cloneDir, found) && l != DEFAULT_LOCALE
    ensures var fetched := FetchedFor(kind, found, l);
      Find(LoadStore(CopyAll(kind, cloneDir, clean, false, d, found).fs, l), id) ==
        if id in Keys(fetched) then LastDef(fetched, id) else Find(LoadStore(d.fs, l), id)
  {
    CopyLocaleStore(kind, cloneDir, clean, false, d, found, l);
    TakeUpstreamLastWins(LoadStore(d.fs, l), FetchedFor(kind, found, l), id);
  }

  lemma CopyStepOtherDir(kind: PatternKind, cloneDir: string, clean: Store -> Store, keepChanges: bool,
                         d: Disk, f: FoundFile, dir: string)
    requires |cloneDir| < |f.path| && dir != DEFAULT_LOCALE && RouteOf(kind, f.path) != Locale(dir)
    ensures var r := CopyStep(kind, cloneDir, clean, keepChanges, d, f).fs;
      (dir in r <==> dir in d.fs) && (dir in d.fs ==> r[dir] == d.fs[dir])
  {
  }

  /** A locale directory no found file is routed to keeps exactly its files. */
  lemma {:induction false} CopyLeavesOtherLocales(kind: PatternKind, cloneDir: string, clean: Store -> Store,
                                                  keepChanges: bool, d: Disk, found: seq<FoundFile>, dir: string)
    requires InsideClone(cloneDir, found) && dir != DEFAULT_LOCALE
    requires forall i | 0 <= i < |found| :: RouteOf(kind, found[i].path) != Locale(dir)
    ensures var r := CopyFold(kind, cloneDir, clean, keepChanges, d, found).fs;
      (dir in r <==> dir in d.fs) && (dir in d.fs ==> r[dir] == d.fs[dir])
    decreases |found|
  {
    if found != [] {
      var init := found[..|found| - 1];
      CopyLeavesOtherLocales(kind, cloneDir, clean, keepChanges, d, init, dir);
      CopyStepOtherDir(kind, cloneDir, clean, keepChanges,
                       CopyFold(kind, cloneDir, clean, keepChanges, d, init), found[|found| - 1], dir);
    }
  }

  lemma CopyStepDefault(kind: PatternKind, cloneDir: string, clean: Store -> Store, keepChanges: bool,
                        d: Disk, f: FoundFile, name: string)
    requires |cloneDir| < |f.path| && RouteOf(kind, f.path) != Locale(DEFAULT_LOCALE)
    ensures var r := CopyStep(kind, cloneDir, clean, keepChanges, d, f);
      var written := RouteOf(kind, f.path) == DefaultLocale && !IsEmpty(f.res) && FileName(f.path) == name;
      && Find(DefaultFiles(r.fs), name) == (if written then Some(clean(f.res)) else Find(DefaultFiles(d.fs), name))
      && (name in r.remotePaths <==> written || name in d.remotePaths)
      && (written ==> r.remotePaths[name] == RemotePath(cloneDir, f.path))
      && (!written && name in d.remotePaths ==> r.remotePaths[name] == d.remotePaths[name])
  {
    CopyStepDefaultFile(kind, cloneDir, clean, keepChanges, d, f, name);
    CopyStepRemotePath(kind, cloneDir, clean, keepChanges, d, f, name);
  }

  lemma CopyStepDefaultFile(kind: PatternKind, cloneDir: string, clean: Store -> Store, keepChanges: bool,
                            d: Disk, f: FoundFile, name: string)
    requires |cloneDir| < |f.path| && RouteOf(kind, f.path) != Locale(DEFAULT_LOCALE)
    ensures var r := CopyStep(kind, cloneDir, clean, keepChanges, d, f);
      var written := RouteOf(kind, f.path) == DefaultLocale && !IsEmpty(f.res) && FileName(f.path) == name;
      Find(DefaultFiles(r.fs), name) == (if written then Some(clean(f.res)) else Find(DefaultFiles(d.fs), name))
  {
    match RouteOf(kind, f.path)
    case Skip =>
    case DefaultLocale =>
    case Locale(l) =>
      var r := CopyStep(kind, cloneDir, clean, keepChanges, d, f);
      assert DefaultFiles(r.fs) == DefaultFiles(d.fs);
  }

  lemma CopyStepRemotePath(kind: PatternKind, cloneDir: string, clean: Store -> Store, keepChanges: bool,
                           d: Disk, f: FoundFile, name: string)
    requires |cloneDir| < |f.path|
    ensures var r := CopyStep(kind, cloneDir, clean, keepChanges, d, f);
      var written := RouteOf(kind, f.path) == DefaultLocale && !IsEmpty(f.res) && FileName(f.path) == name;
      && (name in r.remotePaths <==> written || name in d.remotePaths)
      && (written ==> r.remotePaths[name] == RemotePath(cloneDir, f.path))
      && (!written && name in d.remotePaths ==> r.remotePaths[name] == d.remotePaths[name])
  {
  }

  /**
   * The default files and remote paths after processing the found files: `default/<name>` is
   * the cleaned contents of the last nonempty default-locale file called `<name>`, and the
   * remote path recorded for `<name>` is that same file's.
   */
  lemma {:induction false} CopyFoldDefaults(kind: PatternKind, cloneDir: string, clean: Store -> Store,
                                            keepChanges: bool, d: Disk, found: seq<FoundFile>, name: string)
    requires InsideClone(cloneDir, found) && NoDefaultLocaleRoute(kind, found)
    ensures var r := CopyFold(kind, cloneDir, clean, keepChanges, d, found);
      var src := DefaultSource(kind, found, name);
      && Find(DefaultFiles(r.fs), name) == (if src.Some? then Some(clean(src.value.res)) else Find(DefaultFiles(d.fs), name))
      && (name in r.remotePaths <==> src.Some? || name in d.remotePaths)
      && (src.Some? ==> r.remotePaths[name] == RemotePath(cloneDir, src.value.path))
    decreases |found|
  {
    if found != [] {
      var init := found[..|found| - 1];
      CopyFoldDefaults(kind, cloneDir, clean, keepChanges, d, init, name);
      CopyStepDefault(kind, cloneDir, clean, keepChanges,
                      CopyFold(kind, cloneDir, clean, keepChanges, d, init), found[|found| - 1], name);
    }
  }

  /**
   * After copyResources, a default file exists exactly for the names some nonempty
   * default-locale file had, and each has a remote path pointing at that file in the clone.
   */
  lemma CopyDefaults(kind: PatternKind, cloneDir: string, clean: Store -> Store,
                     keepChanges: bool, d: Disk, found: seq<FoundFile>, name: string)
    requires InsideClone(cloneDir, found) && NoDefaultLocaleRoute(kind, found)
    ensures var r := CopyAll(kind, cloneDir, clean, keepChanges, d, found);
      var src := DefaultSource(kind, found, name);
      && Find(DefaultFiles(r.fs), name) == (if src.Some? then Some(clean(src.value.res)) else None)
      && (name in r.remotePaths <==> src.Some?)
      && (src.Some? ==> r.remotePaths[name] == RemotePath(cloneDir, src.value.path))
  {
    CopyFoldDefaults(kind, cloneDir, clean, keepChanges, ClearDefaults(d), found, name);
  }

  /**
   * After copyResources on a well-formed root, there are as many default files as remote
   * paths: `hasRemoteUrls()` holds.
   */
  lemma CopyHasRemoteUrls(kind: PatternKind, cloneDir: string, clean: Store -> Store,
                          keepChanges: bool, d: Disk, found: seq<FoundFile>)
    requires InsideClone(cloneDir, found) && NoDefaultLocaleRoute(kind, found) && WellFormed(d.fs)
    ensures var r := CopyAll(kind, cloneDir, clean, keepChanges, d, found);
      |DefaultFiles(r.fs)| == |r.remotePaths|
  {
    var r := CopyAll(kind, cloneDir, clean, keepChanges, d, found);
    var files := DefaultFiles(r.fs);
    forall name ensures name in Keys(files) <==> name in r.remotePaths {
      CopyDefaults(kind, cloneDir, clean, keepChanges, d, found, name);
    }
    assert Keys(files) == r.remotePaths.Keys;
    CopyKeepsWellFormed(kind, cloneDir, clean, keepChanges, ClearDefaults(d), found);
    assert UniqueKeys(files);
    UniqueKeysCount(files);
  }

  /** All entries of the files of a directory, file after file, each in its own order. */
  function Flatten(files: Dir): Store
    decreases |files|
  {
    if files == [] then [] else Flatten(files[..|files| - 1]) + files[|files| - 1].value
  }

  /**
   * `loadDefaultResources()` mixes every default file into one store: an id defined in several
   * files takes its last definition, and each id appears once.
   */
  lemma DefaultResourcesLastWins(files: Dir, id: string)
    ensures var all := Flatten(files);
      var mixed := MergeTags([], all, false);
      && Find(mixed, id) == LastDef(all, id)
      && Keys(mixed) == Keys(all)
      && UniqueKeys(mixed)
  {
    var all := Flatten(files);
    TakeUpstreamLastWins([], all, id);
    MergeKeys([], all, false);
    MergeKeepsUnique([], all, false);
    assert Keys<Tag>([]) == {};
  }

  /** Found files whose paths match no locale pattern leave the root and the settings alone. */
  lemma {:induction false} CopySkipsUnmatched(kind: PatternKind, cloneDir: string, clean: Store -> Store,
                                              keepChanges: bool, d: Disk, found: seq<FoundFile>)
    requires InsideClone(cloneDir, found)
    requires forall i | 0 <= i < |found| :: RouteOf(kind, found[i].path) == Skip
    ensures CopyFold(kind, cloneDir, clean, keepChanges, d, found) == d
    decreases |found|
  {
    if found != [] {
      CopySkipsUnmatched(kind, cloneDir, clean, keepChanges, d, found[..|found| - 1]);
    }
  }
}
