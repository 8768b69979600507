/**
 * `RepoHandler`: the handle of one locally stored translation repository. It owns the files
 * under its root (`fs`), the remote-path table of its settings (`remotePaths`), the list of
 * locale names (`locales`, i.e. `mLocales`) and runs the three-stage sync clone -> scan -> copy.
 * Transport results (clone, scan, deletions, saves), the XML cleaning and templating and the
 * locale display names are parameters.
 */
module Repo {
  import opened Wrappers
  import opened OrderedMap
  import opened Resources
  import opened LocalePattern
  import opened JavaString
  import opened LocaleList
  import opened RepoDisk
  import RepoId

  const BASE_DIR := "repos"

  /** The progress updates of a sync, in the order they are reported. */
  datatype Stage = Cloning | Scanning | Copying

  /** The failure messages a sync may finish with. */
  datatype Message = InvalidRepo | NoStringsFound

  /** What the progress callback receives. */
  datatype Event = Progress(stage: Stage) | Finished(message: Option<Message>, ok: bool)

  /** What `ResourcesParser.applyTemplate` wrote, and whether it reported success. */
  datatype Rendering = Rendering(ok: bool, text: string)

  /** The name of a default file as a path below the root: `default/<name>`. */
  function TemplatePath(name: string): string {
    DEFAULT_LOCALE + "/" + name
  }

  lemma TemplatePathInjective(a: string, b: string)
    ensures TemplatePath(a) == TemplatePath(b) <==> a == b
  {
    assert a == TemplatePath(a)[|DEFAULT_LOCALE| + 1..];
    assert b == TemplatePath(b)[|DEFAULT_LOCALE| + 1..];
  }

  /** The remote path of the template for `locale`: every "/values/" becomes "/values-<locale>/". */
  function LocaleRemotePath(remote: string, locale: string): string {
    ReplaceAll(remote, "/values/", "/values-" + locale + "/")
  }

  /**
   * A remote path with a single "/values/" directory is mapped to the same path under
   * "/values-<locale>/", everything else unchanged.
   */
  lemma LocaleRemotePathSingle(before: string, after: string, locale: string)
    requires forall i :: 0 <= i < |before| ==> !OccursAt(before + "/values/" + after, "/values/", i)
    requires forall i :: !OccursAt(after, "/values/", i)
    ensures LocaleRemotePath(before + "/values/" + after, locale) == before + "/values-" + locale + "/" + after
  {
    ReplaceAllFirst(before, "/values/", after, "/values-" + locale + "/");
    ReplaceAllAbsent(after, "/values/", "/values-" + locale + "/");
  }

  class RepoHandler {
    /** Which locale pattern the handle was built with. */
    const kind: PatternKind
    /** The root directory, relative to the application's files directory. */
    const root: string
    /** `LocaleString.getDisplay`. */
    const display: string -> string
    /** The git URL of the settings. */
    var gitUrl: string
    /** The files under the root. */
    var fs: FileSystem
    /** The remote-path table of the settings: default file name -> path in the clone. */
    var remotePaths: map<string, string>
    /** `mLocales`. */
    var locales: seq<string>
    /** Whether the scratch clone directory is on disk. */
    var cloneDirExists: bool

    ghost predicate Valid()
      reads this
    {
      WellFormed(fs)
    }

    /** What `loadLocales` establishes: every directory of the root once, sorted by display name. */
    ghost predicate LocalesLoaded()
      reads this
    {
      Sorted(display, locales) && |locales| == |fs.Keys| && forall l :: l in locales <==> l in fs
    }

    /** `RepoHandler(context, gitUrl)` on a root whose files and settings are `disk`. */
    constructor (gitUrl: string, display: string -> string, disk: Disk, cloneDirOnDisk: bool)
      requires WellFormed(disk.fs)
      ensures Valid() && LocalesLoaded()
      ensures kind == AnyXml && root == BASE_DIR + "/" + RepoId.Id(gitUrl) && this.display == display
      ensures this.gitUrl == gitUrl && fs == disk.fs && remotePaths == disk.remotePaths
      ensures cloneDirExists == cloneDirOnDisk
    {
      kind := AnyXml;
      root := BASE_DIR + "/" + RepoId.Id(gitUrl);
      this.display := display;
      this.gitUrl := gitUrl;
      fs := disk.fs;
      remotePaths := disk.remotePaths;
      locales := [];
      cloneDirExists := cloneDirOnDisk;
      new;
      LoadLocales();
    }

    /** The private `RepoHandler(context, root)` used when listing the stored repositories. */
    constructor FromRoot(root: string, gitUrl: string, display: string -> string, disk: Disk, cloneDirOnDisk: bool)
      requires WellFormed(disk.fs)
      ensures Valid() && LocalesLoaded()
      ensures kind == StringsXml && this.root == root && this.display == display
      ensures this.gitUrl == gitUrl && fs == disk.fs && remotePaths == disk.remotePaths
      ensures cloneDirExists == cloneDirOnDisk
    {
      kind := StringsXml;
      this.root := root;
      this.display := display;
      this.gitUrl := gitUrl;
      fs := disk.fs;
      remotePaths := disk.remotePaths;
      locales := [];
      cloneDirExists := cloneDirOnDisk;
      new;
      LoadLocales();
    }

    /** `loadLocales()`: every directory under the root, sorted by display name. */
    method LoadLocales()
      modifies this
      ensures LocalesLoaded()
      ensures fs == old(fs) && remotePaths == old(remotePaths) && gitUrl == old(gitUrl)
      ensures cloneDirExists == old(cloneDirExists)
    {
      var pending := fs.Keys;
      var listed: seq<string> := [];
      while pending != {}
        invariant pending <= fs.Keys
        invariant forall l :: l in listed <==> l in fs.Keys - pending
        invariant |listed| + |pending| == |fs.Keys|
        decreases |pending|
      {
        var dir :| dir in pending;
        listed := listed + [dir];
        pending := pending - {dir};
      }
      locales := SortByDisplay(display, listed);
      SortKeepsEntries(display, listed);
    }

    /** `isEmpty()`. */
    predicate IsEmpty()
      reads this
    {
      |locales| == 0
    }

    /** `hasDefaultLocale()`. */
    predicate HasDefaultLocale()
      reads this
    {
      |DefaultFiles(fs)| > 0
    }

    /** `hasRemoteUrls()`: as many default files as recorded remote paths. */
    predicate HasRemoteUrls()
      reads this
    {
      |DefaultFiles(fs)| == |remotePaths|
    }

    /** `anyModified()`: some listed locale's store has a modified entry. */
    method AnyModified() returns (r: bool)
      ensures r <==> exists i :: 0 <= i < |locales| && Resources.AnyModified(LoadStore(fs, locales[i]))
    {
      for i := 0 to |locales|
        invariant forall k :: 0 <= k < i ==> !Resources.AnyModified(LoadStore(fs, locales[k]))
      {
        if Resources.AnyModified(LoadStore(fs, locales[i])) {
          return true;
        }
      }
      return false;
    }

    /** `createLocale(locale)`, where `saveOk` is what `Resources.save()` reports. */
    method CreateLocale(locale: string, saveOk: bool) returns (ok: bool)
      requires Valid()
      modifies this
      ensures Valid()
      ensures old(HasLocale(fs, locale)) ==> ok && fs == old(fs) && locales == old(locales)
      ensures !old(HasLocale(fs, locale)) && !saveOk ==> !ok && fs == old(fs) && locales == old(locales)
      ensures !old(HasLocale(fs, locale)) && saveOk ==>
        ok && fs == SaveStore(old(fs), locale, []) && locales == old(locales) + [locale]
      ensures ok ==> HasLocale(fs, locale)
      ensures remotePaths == old(remotePaths) && gitUrl == old(gitUrl) && cloneDirExists == old(cloneDirExists)
    {
      if HasLocale(fs, locale) {
        return true;
      }
      var resources := LoadStore(fs, locale);
      if !saveOk {
        return false;
      }
      fs := SaveStore(fs, locale, resources);
      locales := locales + [locale];
      return true;
    }

    /** `deleteLocale(locale)`: its store file is deleted and its first list entry removed. */
    method DeleteLocale(locale: string)
      requires Valid()
      modifies this
      ensures Valid()
      ensures !HasLocale(fs, locale)
      ensures old(HasLocale(fs, locale)) ==>
        fs == DeleteFile(old(fs), locale, STRINGS_FILE) && locales == RemoveFirst(old(locales), locale)
      ensures !old(HasLocale(fs, locale)) ==> fs == old(fs) && locales == old(locales)
      ensures remotePaths == old(remotePaths) && gitUrl == old(gitUrl) && cloneDirExists == old(cloneDirExists)
    {
      if HasLocale(fs, locale) {
        fs := DeleteFile(fs, locale, STRINGS_FILE);
        locales := RemoveFirst(locales, locale);
      }
    }

    /**
     * `delete()`: the whole root, settings included, is removed when the transport reports
     * success (`deleted`); the locale list is left as it was.
     */
    method Delete(deleted: bool) returns (ok: bool)
      modifies this
      ensures ok == deleted
      ensures deleted ==> fs == map[] && remotePaths == map[]
      ensures !deleted ==> fs == old(fs) && remotePaths == old(remotePaths)
      ensures locales == old(locales) && gitUrl == old(gitUrl) && cloneDirExists == old(cloneDirExists)
    {
      if deleted {
        fs := map[];
        remotePaths := map[];
      }
      return deleted;
    }

    /** `loadDefaultResources()`: every entry of every default file added in listing order. */
    method LoadDefaultResources() returns (r: Store)
      ensures r == MergeTags([], Flatten(DefaultFiles(fs)), false)
    {
      var files := DefaultFiles(fs);
      r := [];
      for i := 0 to |files|
        invariant r == MergeTags([], Flatten(files[..i]), false)
      {
        // the inner loop adds every tag of the file, which is the merge without keep-changes
        r := MergeInto(r, files[i].value, false);
        MergeDefaultFile(files, i);
      }
      assert files[..|files|] == files;
    }

    static lemma MergeDefaultFile(files: Dir, i: nat)
      requires i < |files|
      ensures MergeTags([], Flatten(files[..i + 1]), false) ==
        MergeTags(MergeTags([], Flatten(files[..i]), false), files[i].value, false)
    {
      assert files[..i + 1][..i] == files[..i];
      MergeTagsAppend([], Flatten(files[..i]), files[i].value, false);
    }

    /** `loadResources(locale)`. */
    function LoadResources(locale: string): (s: Store)
      reads this
      ensures !HasLocale(fs, locale) ==> s == []
      ensures HasLocale(fs, locale) ==> Binding(STRINGS_FILE, s) in fs[locale]
    {
      LoadStore(fs, locale)
    }

    /**
     * `applyTemplate(template, locale, out)`: nothing is written and false is returned when the
     * locale has no store; otherwise the template is rendered with the locale's store.
     */
    function ApplyTemplate(template: Store, locale: string, render: (Store, Store) -> Rendering): (out: Rendering)
      reads this
      ensures !HasLocale(fs, locale) ==> out == Rendering(false, "")
      ensures HasLocale(fs, locale) ==> out == render(template, LoadStore(fs, locale))
    {
      if HasLocale(fs, locale) then render(template, LoadStore(fs, locale)) else Rendering(false, "")
    }

    /** `applyTemplate(template, locale)`: the rendered text on success, "" otherwise. */
    function ApplyTemplateText(template: Store, locale: string, render: (Store, Store) -> Rendering): (text: string)
      reads this
      ensures !HasLocale(fs, locale) ==> text == ""
      ensures HasLocale(fs, locale) && render(template, LoadStore(fs, locale)).ok ==>
        text == render(template, LoadStore(fs, locale)).text
      ensures HasLocale(fs, locale) && !render(template, LoadStore(fs, locale)).ok ==> text == ""
      ensures text != "" ==> ApplyTemplate(template, locale, render).ok
    {
      var out := ApplyTemplate(template, locale, render);
      if out.ok then out.text else ""
    }

    /** The section one default file adds to a merged document: header, rendering, newline. */
    function Section(file: Binding<Store>, locale: string, header: string -> string,
                     render: (Store, Store) -> Rendering): string
      reads this
    {
      header(file.key) + ApplyTemplate(file.value, locale, render).text + "\n"
    }

    /** The sections of `files`, in listing order. */
    function Sections(files: Dir, locale: string, header: string -> string,
                      render: (Store, Store) -> Rendering): string
      reads this
      decreases |files|
    {
      if files == [] then ""
      else Sections(files[..|files| - 1], locale, header, render) + Section(files[|files| - 1], locale, header, render)
    }

    /** The document `mergeDefaultTemplate(locale)` returns. */
    function MergedTemplate(locale: string, header: string -> string, render: (Store, Store) -> Rendering): string
      requires HasDefaultLocale()
      reads this
    {
      var files := DefaultFiles(fs);
      if |files| > 1 then Sections(files, locale, header, render)
      else ApplyTemplateText(files[0].value, locale, render)
    }

    /** The headers alone, one line per file. */
    static function Headers(files: Dir, header: string -> string): string
      decreases |files|
    {
      if files == [] then "" else Headers(files[..|files| - 1], header) + header(files[|files| - 1].key) + "\n"
    }

    /** Without a store for the locale, each section holds only its header. */
    lemma {:induction false} SectionsWithoutLocale(files: Dir, locale: string, header: string -> string,
                                                   render: (Store, Store) -> Rendering)
      requires !HasLocale(fs, locale)
      ensures Sections(files, locale, header, render) == Headers(files, header)
      decreases |files|
    {
      if files != [] {
        SectionsWithoutLocale(files[..|files| - 1], locale, header, render);
      }
    }

    /**
     * `mergeDefaultTemplate(locale)`: with several default files, each file's header, its
     * rendering (whatever was written, even on failure) and a newline, in listing order;
     * with one file, that file's `applyTemplate` text. The default directory must not be empty.
     */
    method MergeDefaultTemplate(locale: string, header: string -> string, render: (Store, Store) -> Rendering)
      returns (out: string)
      requires HasDefaultLocale()
      ensures out == MergedTemplate(locale, header, render)
      ensures !HasLocale(fs, locale) ==> out == if |DefaultFiles(fs)| > 1 then Headers(DefaultFiles(fs), header) else ""
    {
      var files := DefaultFiles(fs);
      if |files| > 1 {
        out := "";
        for i := 0 to |files|
          invariant out == Sections(files[..i], locale, header, render)
        {
          var template := files[i];
          out := out + header(template.key);
          var written := ApplyTemplate(template.value, locale, render);
          out := out + written.text;
          out := out + "\n";
          assert files[..i + 1][..i] == files[..i];
        }
        assert files[..|files|] == files;
      } else {
        out := ApplyTemplateText(files[0].value, locale, render);
      }
      if !HasLocale(fs, locale) && |files| > 1 {
        SectionsWithoutLocale(files, locale, header, render);
      }
    }

    /**
     * `getTemplateRemotePaths(locale)`: one entry per recorded file name, keyed by the default
     * file, holding the remote path with "/values/" replaced by "/values-<locale>/".
     */
    method GetTemplateRemotePaths(locale: string) returns (result: map<string, string>)
      ensures result.Keys == set name | name in remotePaths :: TemplatePath(name)
      ensures forall name | name in remotePaths :: result[TemplatePath(name)] == LocaleRemotePath(remotePaths[name], locale)
    {
      result := map[];
      var pending := remotePaths.Keys;
      while pending != {}
        invariant pending <= remotePaths.Keys
        invariant result.Keys == set name | name in remotePaths.Keys - pending :: TemplatePath(name)
        invariant forall name | name in remotePaths.Keys - pending ::
          result[TemplatePath(name)] == LocaleRemotePath(remotePaths[name], locale)
        decreases |pending|
      {
        var name :| name in pending;
        var remote := LocaleRemotePath(remotePaths[name], locale);
        forall other | other != name ensures TemplatePath(other) != TemplatePath(name) {
          TemplatePathInjective(other, name);
        }
        result := result[TemplatePath(name) := remote];
        pending := pending - {name};
      }
    }

    /** The disk state the sync works on. */
    function OnDisk(): Disk
      reads this
    {
      Disk(fs, remotePaths)
    }

    /**
     * `copyResources`: the remote paths are cleared and the default files deleted one by one,
     * then every found file is routed and written or merged, and the clone is deleted;
     * `cloneDeleted` is what the transport reports for that deletion.
     */
    method CopyResources(cloneDir: string, found: seq<FoundFile>, keepChanges: bool, clean: Store -> Store,
                         cloneDeleted: bool)
      requires Valid() && InsideClone(cloneDir, found)
      modifies this
      ensures Valid()
      ensures OnDisk() == CopyAll(kind, cloneDir, clean, keepChanges, old(OnDisk()), found)
      ensures NoDefaultLocaleRoute(kind, found) ==> HasRemoteUrls()
      ensures cloneDirExists == !cloneDeleted
      ensures locales == old(locales) && gitUrl == old(gitUrl)
    {
      ghost var start := OnDisk();
      ClearDefaultFiles();
      for i := 0 to |found|
        invariant InsideClone(cloneDir, found[..i])
        invariant OnDisk() == CopyFold(kind, cloneDir, clean, keepChanges, ClearDefaults(start), found[..i])
        invariant Valid()
        invariant locales == old(locales) && gitUrl == old(gitUrl)
      {
        assert found[..i + 1][..i] == found[..i];
        CopyFoundFile(cloneDir, found[i], keepChanges, clean);
      }
      assert found[..|found|] == found;
      cloneDirExists := !cloneDeleted;
      if NoDefaultLocaleRoute(kind, found) {
        CopyHasRemoteUrls(kind, cloneDir, clean, keepChanges, start, found);
      }
    }

    /** The first part of copyResources: clear the remote paths, delete the default files one by one. */
    method ClearDefaultFiles()
      requires Valid()
      modifies this
      ensures Valid()
      ensures OnDisk() == ClearDefaults(old(OnDisk()))
      ensures locales == old(locales) && gitUrl == old(gitUrl) && cloneDirExists == old(cloneDirExists)
    {
      ghost var start := fs;
      remotePaths := map[];
      var defaults := DefaultFiles(fs);
      for i := 0 to |defaults|
        invariant fs == if DEFAULT_LOCALE in start then start[DEFAULT_LOCALE := defaults[i..]] else start
        invariant UniqueKeys(defaults[i..])
        invariant remotePaths == map[]
        invariant locales == old(locales) && gitUrl == old(gitUrl) && cloneDirExists == old(cloneDirExists)
      {
        RemoveHead(defaults[i..]);
        assert defaults[i..][1..] == defaults[i + 1..];
        fs := DeleteFile(fs, DEFAULT_LOCALE, defaults[i].key);
      }
      assert defaults[|defaults|..] == [];
    }

    /** The body of the copy loop for one found file, routed by the locale pattern. */
    method CopyFoundFile(cloneDir: string, f: FoundFile, keepChanges: bool, clean: Store -> Store)
      requires Valid() && |cloneDir| < |f.path|
      modifies this
      ensures Valid()
      ensures OnDisk() == CopyStep(kind, cloneDir, clean, keepChanges, old(OnDisk()), f)
      ensures locales == old(locales) && gitUrl == old(gitUrl) && cloneDirExists == old(cloneDirExists)
    {
      CopyStepKeepsWellFormed(kind, cloneDir, clean, keepChanges, OnDisk(), f);
      match RouteOf(kind, f.path) {
        case Skip =>
        case DefaultLocale =>
          if !Resources.IsEmpty(f.res) {
            var name := FileName(f.path);
            fs := WriteFile(fs, DEFAULT_LOCALE, name, clean(f.res));
            remotePaths := remotePaths[name := RemotePath(cloneDir, f.path)];
          }
        case Locale(l) =>
          var oldResources := LoadStore(fs, l);
          var merged := MergeInto(oldResources, f.res, keepChanges);
          fs := SaveStore(fs, l, merged);
      }
    }

    /** The state `delete()` leaves: everything gone when the transport reports success. */
    twostate predicate DeletedAs(deleted: bool)
      reads this
    {
      if deleted then fs == map[] && remotePaths == map[]
      else fs == old(fs) && remotePaths == old(remotePaths)
    }

    /**
     * `syncResources(callback, keepChanges)`, step 1, `cloneRepository`: a failed clone reports
     * "invalid repository" and deletes the repository; otherwise scanning follows.
     * `cloneOk`, `found`, `cloneDeleted` and `deleteOk` are what the transport reports for the
     * clone, the scan, the deletion of the clone and the deletion of the root.
     */
    method SyncResources(keepChanges: bool, cloneDir: string, cloneOk: bool, found: seq<FoundFile>,
                         cloneDeleted: bool, deleteOk: bool, clean: Store -> Store) returns (events: seq<Event>)
      requires Valid() && InsideClone(cloneDir, found)
      modifies this
      ensures Valid()
      ensures !cloneOk ==> events == [Progress(Cloning), Finished(Some(InvalidRepo), false)] && DeletedAs(deleteOk)
      ensures cloneOk && found == [] ==>
        events == [Progress(Cloning), Progress(Scanning), Finished(Some(NoStringsFound), false)] && DeletedAs(deleteOk)
      ensures cloneOk && found != [] ==>
        events == [Progress(Cloning), Progress(Scanning), Progress(Copying), Finished(None, true)] &&
        OnDisk() == CopyAll(kind, cloneDir, clean, keepChanges, old(OnDisk()), found)
      ensures !cloneOk ==> !cloneDirExists
      ensures cloneOk ==> cloneDirExists == !cloneDeleted
      ensures locales == old(locales) && gitUrl == old(gitUrl)
    {
      events := [Progress(Cloning)];
      cloneDirExists := false;
      if !cloneOk {
        events := events + [Finished(Some(InvalidRepo), false)];
        var _ := Delete(deleteOk);
        return;
      }
      cloneDirExists := true;
      var rest := ScanResources(keepChanges, cloneDir, found, cloneDeleted, deleteOk, clean);
      events := events + rest;
    }

    /**
     * Step 2, `scanResources`: no found file deletes the clone and the repository and reports
     * "no strings found"; otherwise copying follows.
     */
    method ScanResources(keepChanges: bool, cloneDir: string, found: seq<FoundFile>, cloneDeleted: bool,
                         deleteOk: bool, clean: Store -> Store) returns (events: seq<Event>)
      requires Valid() && InsideClone(cloneDir, found)
      modifies this
      ensures Valid()
      ensures found == [] ==> events == [Progress(Scanning), Finished(Some(NoStringsFound), false)] && DeletedAs(deleteOk)
      ensures found != [] ==>
        events == [Progress(Scanning), Progress(Copying), Finished(None, true)] &&
        OnDisk() == CopyAll(kind, cloneDir, clean, keepChanges, old(OnDisk()), found)
      ensures cloneDirExists == !cloneDeleted
      ensures locales == old(locales) && gitUrl == old(gitUrl)
    {
      events := [Progress(Scanning)];
      if |found| == 0 {
        cloneDirExists := !cloneDeleted;
        var _ := Delete(deleteOk);
        events := events + [Finished(Some(NoStringsFound), false)];
        return;
      }
      events := events + [Progress(Copying)];
      CopyResources(cloneDir, found, keepChanges, clean, cloneDeleted);
      events := events + [Finished(None, true)];
    }
  }
}
