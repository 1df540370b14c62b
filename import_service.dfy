// The install and uninstall orchestration of src/application/import_service.py: which importer
// a URL goes to, how the files of an archive are placed under the profile's chrome folder, which
// of them get an `@import` directive in userChrome.css, and how an import is toggled or removed
// together with its bundle folder and registry record.
//
// The profile's chrome folder is the state of `ImportService`: the userChrome.css text (None
// when the file does not exist), the set of files below it (paths relative to the chrome folder)
// and the registry's record list.
module ImportService {
  import opened Common
  import opened Strings
  import opened Paths
  import opened Models
  import opened ImportSyntax
  import opened UserChrome
  import Edit = UserChromeEdit
  import FM = FileManager
  import D = Download
  import R = ModRegistry

  // ----- import_from_url -----

  /** The three importers `import_from_url` can hand a URL to. */
  datatype Source = GithubSource | GitlabSource | DirectSource

  /**
   * `import_from_url`'s dispatch: an invalid URL is refused (the method's handler wraps the
   * validation error in its own prefix); otherwise "github.com" anywhere in the URL wins over
   * "gitlab.com", and any other URL is a direct download.
   */
  function UrlSource(url: string): (r: Result<Source>)
    ensures r.Ok? <==> D.ValidateUrl(url)
    ensures r.Err? ==> r.error.kind == ValidationError
    ensures r == Ok(GithubSource) ==> Contains(url, "github.com")
  {
    if !D.ValidateUrl(url) then Fail(ValidationError, "GitLab import failed: Invalid URL: " + url)
    else if Contains(url, "github.com") then Ok(GithubSource)
    else if Contains(url, "gitlab.com") then Ok(GitlabSource)
    else Ok(DirectSource)
  }

  /** The dispatch rule in full: refusal exactly for invalid URLs, then host precedence. */
  lemma UrlSourceRule(url: string)
    ensures UrlSource(url).Err? <==> !D.ValidateUrl(url)
    ensures UrlSource(url) == Ok(GithubSource) <==> D.ValidateUrl(url) && Contains(url, "github.com")
    ensures UrlSource(url) == Ok(GitlabSource) <==>
            D.ValidateUrl(url) && !Contains(url, "github.com") && Contains(url, "gitlab.com")
    ensures UrlSource(url) == Ok(DirectSource) <==>
            D.ValidateUrl(url) && !Contains(url, "github.com") && !Contains(url, "gitlab.com")
  {
  }

  /** Every https URL on github.com reaches the GitHub importer. */
  lemma {:induction false} GithubUrlsGoToGithub(rest: string)
    requires rest == [] || rest[0] == '/'
    ensures UrlSource("https://" + "github.com" + rest) == Ok(GithubSource)
  {
    var url := "https://" + "github.com" + rest;
    D.GithubHostsPlain();
    D.ValidOnHost("github.com", rest);
    assert url[8..18] == "github.com";
    assert At(url, 8, "github.com");
  }

  // ----- _find_main_css_files -----

  /** The stylesheets of an extracted bundle as read: a file missing from the map could not be read as text. */
  type Contents = map<string, string>

  /** `os.path.normpath(os.path.join(os.path.dirname(f), path))`: the file an import of `f` names. */
  function Target(f: string, path: string): string
  {
    NormPath(PathJoin(Dirname(f), path))
  }

  /** The files the imports `es` of `f` name, in order. */
  function TargetsOf(f: string, es: seq<ImportEntry>): (ts: seq<string>)
    ensures |ts| == |es|
  {
    if es == [] then [] else TargetsOf(f, es[..|es| - 1]) + [Target(f, es[|es| - 1].path)]
  }

  /** The `k`-th target is where the `k`-th import of `f` points. */
  lemma {:induction false} TargetsOfAt(f: string, es: seq<ImportEntry>, k: nat)
    requires k < |es|
    ensures TargetsOf(f, es)[k] == Target(f, es[k].path)
  {
    if k < |es| - 1 {
      TargetsOfAt(f, es[..|es| - 1], k);
    }
  }

  /** For each readable stylesheet, the files its imports (as `get_imports` finds them) name. */
  type Refs = map<string, seq<string>>

  function RefsOf(contents: Contents): (refs: Refs)
    ensures forall f :: f in refs <==> f in contents
  {
    map f | f in contents :: TargetsOf(f, Imports(contents[f]))
  }

  /** `f` could be read and one of its imports resolves to `g`. */
  predicate Names(refs: Refs, f: string, g: string)
  {
    f in refs && g in refs[f]
  }

  /** `g` is named by an import of one of the first `n` listed files that could be read. */
  ghost predicate NamedBefore(files: seq<string>, refs: Refs, n: nat, g: string)
    requires n <= |files|
  {
    exists i :: 0 <= i < n && Names(refs, files[i], g)
  }

  /** The listed files among the targets `ts` of one stylesheet's imports. */
  function ListedTargets(ts: seq<string>, files: seq<string>): set<string>
  {
    set t | t in ts && t in files
  }

  /** `imported_by_others` once the first `n` files have been read. */
  function ImportedAmong(files: seq<string>, refs: Refs, n: nat): set<string>
    requires n <= |files|
  {
    if n == 0 then {}
    else
      var f := files[n - 1];
      ImportedAmong(files, refs, n - 1) + (if f in refs then ListedTargets(refs[f], files) else {})
  }

  /** `[f for f in files if f not in out]`. */
  function Keep(files: seq<string>, out: set<string>): (r: seq<string>)
    ensures |r| <= |files|
    ensures forall x :: x in r <==> x in files && x !in out
    decreases |files|
  {
    if files == [] then []
    else
      var last := files[|files| - 1];
      Keep(files[..|files| - 1], out) + (if last in out then [] else [last])
  }

  /** The result of `_find_main_css_files`. */
  function MainFiles(files: seq<string>, refs: Refs): seq<string>
  {
    Keep(files, ImportedAmong(files, refs, |files|))
  }

  /** A file joins `imported_by_others` exactly when it is listed and some read file imports it. */
  lemma {:induction false} ImportedAmongSpec(files: seq<string>, refs: Refs, n: nat, g: string)
    requires n <= |files|
    ensures g in ImportedAmong(files, refs, n) <==> g in files && NamedBefore(files, refs, n, g)
    decreases n
  {
    if n > 0 {
      ImportedAmongSpec(files, refs, n - 1, g);
      var f := files[n - 1];
      assert g in ImportedAmong(files, refs, n) <==>
             g in ImportedAmong(files, refs, n - 1) || (g in files && Names(refs, f, g));
      if NamedBefore(files, refs, n, g) && !NamedBefore(files, refs, n - 1, g) {
        var i :| 0 <= i < n && Names(refs, files[i], g);
        assert i == n - 1;
      }
    }
  }

  /**
   * The main files are exactly the listed files that no readable listed file imports: `g` is kept
   * iff no import of any readable file resolves to it.
   */
  lemma MainFilesSpec(files: seq<string>, refs: Refs, g: string)
    ensures g in MainFiles(files, refs) <==> g in files && !NamedBefore(files, refs, |files|, g)
    ensures |MainFiles(files, refs)| <= |files|
  {
    ImportedAmongSpec(files, refs, |files|, g);
  }

  /**
   * The inner loop of `_find_main_css_files`: of the files one stylesheet's imports resolve to
   * (`TargetsOf`), mark those that are listed.
   */
  method MarkImported(targets: seq<string>, files: seq<string>) returns (marked: set<string>)
    ensures marked == ListedTargets(targets, files)
  {
    marked := {};
    var k := 0;
    while k < |targets|
      invariant k <= |targets|
      invariant marked == ListedTargets(targets[..k], files)
    {
      assert targets[..k + 1] == targets[..k] + [targets[k]];
      if targets[k] in files {
        marked := marked + {targets[k]};
      }
      k := k + 1;
    }
    assert targets[..k] == targets;
  }

  /** `[f for f in css_files if f not in imported_by_others]`. */
  method KeepUnmarked(files: seq<string>, out: set<string>) returns (kept: seq<string>)
    ensures kept == Keep(files, out)
  {
    kept := [];
    var j := 0;
    while j < |files|
      invariant j <= |files|
      invariant kept == Keep(files[..j], out)
    {
      assert files[..j + 1][..j] == files[..j];
      if files[j] !in out {
        kept := kept + [files[j]];
      }
      j := j + 1;
    }
    assert files[..j] == files;
  }

  /**
   * `_find_main_css_files`: collect every listed file some readable file imports, then keep the
   * rest. `refs` is what reading and parsing each file gives (`RefsOf` of the readable contents).
   */
  method FindMainCssFiles(cssFiles: seq<string>, refs: Refs) returns (main: seq<string>)
    ensures main == MainFiles(cssFiles, refs)
  {
    var importedByOthers: set<string> := {};
    var i := 0;
    while i < |cssFiles|
      invariant i <= |cssFiles|
      invariant importedByOthers == ImportedAmong(cssFiles, refs, i)
    {
      var f := cssFiles[i];
      if f in refs {
        var marked := MarkImported(refs[f], cssFiles);
        importedByOthers := importedByOthers + marked;
      }
      i := i + 1;
    }
    main := KeepUnmarked(cssFiles, importedByOthers);
  }


  // ----- _import_extracted_files: placing the files -----

  /** `os.path.relpath(f, d)` for a file found below `d`: what follows `d` and its separator. */
  function RelPath(f: string, d: string): string
  {
    if StartsWith(f, d + "/") then f[|d| + 1..] else f
  }

  /** `rel_path.split(os.path.sep)[0]`. */
  function FirstSegment(p: string): string
  {
    Split(p, '/')[0]
  }

  /** `repo_root_dir`: the common first segment when all relative paths share exactly one. */
  function RootOf(rels: seq<string>): Option<string>
  {
    if |rels| > 0 && forall k :: 0 <= k < |rels| ==> FirstSegment(rels[k]) == FirstSegment(rels[0])
    then Some(FirstSegment(rels[0]))
    else None
  }

  /** A set of one element holds nothing else. */
  lemma {:induction false} SingletonMember(s: set<string>, d: string, x: string)
    requires |s| == 1 && d in s && x in s
    ensures x == d
  {
    assert |s - {d}| == 0;
    assert x in s - {d} || x == d;
  }

  /** The first segments of the first `n` relative paths (`repo_dirs` after `n` rounds). */
  function Segments(rels: seq<string>, n: nat): set<string>
    requires n <= |rels|
  {
    if n == 0 then {} else Segments(rels, n - 1) + {FirstSegment(rels[n - 1])}
  }

  /** `repo_dirs` holds the first segment of each path and nothing else. */
  lemma {:induction false} SegmentsSpec(rels: seq<string>, n: nat)
    requires n <= |rels|
    ensures forall k :: 0 <= k < n ==> FirstSegment(rels[k]) in Segments(rels, n)
    ensures forall d :: d in Segments(rels, n) ==> exists k :: 0 <= k < n && FirstSegment(rels[k]) == d
  {
    if n > 0 {
      SegmentsSpec(rels, n - 1);
      var last := FirstSegment(rels[n - 1]);
      assert Segments(rels, n) == Segments(rels, n - 1) + {last};
      forall d | d in Segments(rels, n) ensures exists k :: 0 <= k < n && FirstSegment(rels[k]) == d {
        if d != last {
          var k :| 0 <= k < n - 1 && FirstSegment(rels[k]) == d;
          assert 0 <= k < n;
        }
      }
    }
  }

  /**
   * For the set of first segments of `rels`: it has exactly one member iff all paths share their
   * first segment, and that member is the root.
   */
  lemma {:induction false} SegmentsSingleton(rels: seq<string>)
    ensures |Segments(rels, |rels|)| == 1 <==> RootOf(rels).Some?
    ensures |Segments(rels, |rels|)| == 1 ==> Segments(rels, |rels|) == {RootOf(rels).value}
  {
    if |Segments(rels, |rels|)| == 1 {
      SingleSegmentRoot(rels);
    }
    if RootOf(rels).Some? {
      RootSegment(rels);
    }
  }

  lemma {:induction false} SingleSegmentRoot(rels: seq<string>)
    requires |Segments(rels, |rels|)| == 1
    ensures RootOf(rels).Some? && Segments(rels, |rels|) == {RootOf(rels).value}
  {
    var dirs := Segments(rels, |rels|);
    SegmentsSpec(rels, |rels|);
    var d :| d in dirs;
    var k0 :| 0 <= k0 < |rels| && FirstSegment(rels[k0]) == d;
    forall k | 0 <= k < |rels| ensures FirstSegment(rels[k]) == d {
      SingletonMember(dirs, d, FirstSegment(rels[k]));
    }
    forall x | x in dirs ensures x == d {
      SingletonMember(dirs, d, x);
    }
    assert RootOf(rels) == Some(d);
  }

  lemma {:induction false} RootSegment(rels: seq<string>)
    requires RootOf(rels).Some?
    ensures Segments(rels, |rels|) == {RootOf(rels).value}
  {
    SegmentsSpec(rels, |rels|);
    assert Segments(rels, |rels|) == {FirstSegment(rels[0])};
  }

  /** The repository-root loop: gather the first segments, and a single one is the root. */
  method RepoRoot(rels: seq<string>) returns (root: Option<string>)
    ensures root == RootOf(rels)
  {
    var repoDirs: set<string> := {};
    var i := 0;
    while i < |rels|
      invariant i <= |rels|
      invariant repoDirs == Segments(rels, i)
    {
      repoDirs := repoDirs + {FirstSegment(rels[i])};
      i := i + 1;
    }
    SegmentsSingleton(rels);
    if |repoDirs| == 1 {
      var d :| d in repoDirs;
      root := Some(d);
    } else {
      root := None;
    }
  }

  /** Dropping the repository root: `os.path.relpath(rel_path, repo_root_dir)` when the path lies below it. */
  function StripRoot(rel: string, root: Option<string>): string
  {
    if root.Some? && root.value != "" && StartsWith(rel, root.value + "/") then rel[|root.value| + 1..] else rel
  }

  /** `FirstSegment(p)` is everything before the first '/' of `p`. */
  lemma {:induction false} FirstSegmentPrefix(p: string)
    requires HasChar(p, '/')
    ensures StartsWith(p, FirstSegment(p) + "/")
  {
    var i := FindChar(p, '/', 0);
    assert Split(p, '/')[0] == p[..i];
    assert (p[..i] + "/") == p[..i + 1];
  }

  /**
   * When every file sits below one wrapper folder (an archive of `repo-main/...`), each path that
   * has a folder loses exactly that wrapper: the wrapper, a '/', and the placed path make it up.
   */
  lemma {:induction false} WrapperStripped(rels: seq<string>, k: nat)
    requires k < |rels| && RootOf(rels).Some? && RootOf(rels).value != ""
    requires HasChar(rels[k], '/')
    ensures rels[k] == RootOf(rels).value + "/" + StripRoot(rels[k], RootOf(rels))
  {
    var w := RootOf(rels).value;
    assert FirstSegment(rels[k]) == w;
    FirstSegmentPrefix(rels[k]);
    assert rels[k] == rels[k][..|w| + 1] + rels[k][|w| + 1..];
  }

  /** The directive path of a placed file: `os.path.join(sanitized_name, rel_path)` with '\' turned into '/'. */
  function ImportPathFor(bundle: string, rel: string): string
  {
    ReplaceChar(PathJoin(bundle, rel), '\\', '/')
  }

  /**
   * Everything an archive installs under a bundle folder has that folder as the first segment of
   * its directive path — the segment `remove_import` later takes as the bundle to delete.
   */
  lemma {:induction false} BundleOwnsImportPath(modName: string, rel: string)
    requires modName != [] && rel != [] && rel[0] != '/'
    ensures ImportPathFor(FM.Sanitized(modName), rel) == FM.Sanitized(modName) + "/" + ReplaceChar(rel, '\\', '/')
    ensures FirstSegment(ImportPathFor(FM.Sanitized(modName), rel)) == FM.Sanitized(modName)
  {
    var b := FM.Sanitized(modName);
    FM.SanitizedClean(modName);
    assert '/' in FM.InvalidChars && '\\' in FM.InvalidChars;
    assert b[|b| - 1] != '/';
    assert PathJoin(b, rel) == b + "/" + rel;
    var u := b + "/" + rel;
    var r := ReplaceChar(rel, '\\', '/');
    forall i | 0 <= i < |u| ensures ReplaceChar(u, '\\', '/')[i] == (b + "/" + r)[i] {
      if i > |b| {
        assert u[i] == rel[i - |b| - 1];
      }
    }
    assert ReplaceChar(u, '\\', '/') == b + "/" + r;
    assert !HasChar(b, '/');
    SplitTwo(b, ReplaceChar(rel, '\\', '/'));
  }

  /** The placement of every listed file: its path below the extraction folder... */
  function RelsOf(cssFiles: seq<string>, extractDir: string): (rels: seq<string>)
    ensures |rels| == |cssFiles|
  {
    if cssFiles == [] then []
    else RelsOf(cssFiles[..|cssFiles| - 1], extractDir) + [RelPath(cssFiles[|cssFiles| - 1], extractDir)]
  }

  /** ...with the common wrapper folder `root` dropped from each... */
  function StripAll(rels: seq<string>, root: Option<string>): (placed: seq<string>)
    ensures |placed| == |rels|
  {
    if rels == [] then [] else StripAll(rels[..|rels| - 1], root) + [StripRoot(rels[|rels| - 1], root)]
  }

  /** ...is its path below the bundle folder. */
  function PlacedOf(cssFiles: seq<string>, extractDir: string): (placed: seq<string>)
    ensures |placed| == |cssFiles|
  {
    StripAll(RelsOf(cssFiles, extractDir), RootOf(RelsOf(cssFiles, extractDir)))
  }

  /** Each listed file is placed at its path below the extraction folder, less the wrapper folder. */
  lemma {:induction false} PlacedOfAt(cssFiles: seq<string>, extractDir: string, i: nat)
    requires i < |cssFiles|
    ensures PlacedOf(cssFiles, extractDir)[i] ==
            StripRoot(RelPath(cssFiles[i], extractDir), RootOf(RelsOf(cssFiles, extractDir)))
  {
    RelsOfAt(cssFiles, extractDir, i);
    StripAllAt(RelsOf(cssFiles, extractDir), RootOf(RelsOf(cssFiles, extractDir)), i);
  }

  /** The `i`-th relative path is the `i`-th file's path below the extraction folder. */
  lemma {:induction false} RelsOfAt(cssFiles: seq<string>, extractDir: string, i: nat)
    requires i < |cssFiles|
    ensures RelsOf(cssFiles, extractDir)[i] == RelPath(cssFiles[i], extractDir)
  {
    if i < |cssFiles| - 1 {
      RelsOfAt(cssFiles[..|cssFiles| - 1], extractDir, i);
    }
  }

  /** Dropping the wrapper folder works path by path. */
  lemma {:induction false} StripAllAt(rels: seq<string>, root: Option<string>, i: nat)
    requires i < |rels|
    ensures StripAll(rels, root)[i] == StripRoot(rels[i], root)
  {
    if i < |rels| - 1 {
      StripAllAt(rels[..|rels| - 1], root, i);
    }
  }

  /** The directive path of each placed file, in order (`imported_files`). */
  function ImportPathsFrom(bundle: string, placed: seq<string>): (r: seq<string>)
    ensures |r| == |placed|
  {
    if placed == [] then []
    else ImportPathsFrom(bundle, placed[..|placed| - 1]) + [ImportPathFor(bundle, placed[|placed| - 1])]
  }

  /** Each recorded path is the directive path of the file placed at the same position. */
  lemma {:induction false} ImportPathsFromAt(bundle: string, placed: seq<string>, i: nat)
    requires i < |placed|
    ensures ImportPathsFrom(bundle, placed)[i] == ImportPathFor(bundle, placed[i])
  {
    if i < |placed| - 1 {
      ImportPathsFromAt(bundle, placed[..|placed| - 1], i);
    }
  }

  /** `imported_files` for the listed files of an extracted archive. */
  function ImportPathsOf(bundle: string, cssFiles: seq<string>, extractDir: string): seq<string>
  {
    ImportPathsFrom(bundle, PlacedOf(cssFiles, extractDir))
  }

  /** Where each placed file is copied to below the chrome folder (`os.path.join(mod_dir, rel_path)`), in order. */
  function TargetsFrom(bundle: string, placed: seq<string>): (r: seq<string>)
    ensures |r| == |placed|
  {
    if placed == [] then []
    else TargetsFrom(bundle, placed[..|placed| - 1]) + [PathJoin(bundle, placed[|placed| - 1])]
  }

  /** Each target is the placed file's path below the bundle folder. */
  lemma {:induction false} TargetsFromAt(bundle: string, placed: seq<string>, i: nat)
    requires i < |placed|
    ensures TargetsFrom(bundle, placed)[i] == PathJoin(bundle, placed[i])
  {
    if i < |placed| - 1 {
      TargetsFromAt(bundle, placed[..|placed| - 1], i);
    }
  }

  /** The files below the chrome folder that copying to the first `n` targets creates. */
  function CopiedSet(targets: seq<string>, n: nat): set<string>
    requires n <= |targets|
  {
    if n == 0 then {} else CopiedSet(targets, n - 1) + {targets[n - 1]}
  }

  /** The copied files are exactly the first `n` targets. */
  lemma {:induction false} CopiedSetSpec(targets: seq<string>, n: nat, x: string)
    requires n <= |targets|
    ensures x in CopiedSet(targets, n) <==> x in targets[..n]
  {
    if n > 0 {
      CopiedSetSpec(targets, n - 1, x);
      assert targets[..n] == targets[..n - 1] + [targets[n - 1]];
    }
  }

  /** The index of the first listed file whose copy fails, or the length when none does. */
  function FirstFailed(cssFiles: seq<string>, copyErrors: map<string, string>, i: nat): (j: nat)
    requires i <= |cssFiles|
    ensures i <= j <= |cssFiles|
    ensures forall k :: i <= k < j ==> cssFiles[k] !in copyErrors
    ensures j < |cssFiles| ==> cssFiles[j] in copyErrors
    decreases |cssFiles| - i
  {
    if i == |cssFiles| || cssFiles[i] in copyErrors then i else FirstFailed(cssFiles, copyErrors, i + 1)
  }

  /** The first failure is the one index with no failure before it. */
  lemma {:induction false} FirstFailedAt(cssFiles: seq<string>, copyErrors: map<string, string>, i: nat, k: nat)
    requires i <= k <= |cssFiles|
    requires forall j :: i <= j < k ==> cssFiles[j] !in copyErrors
    requires k == |cssFiles| || cssFiles[k] in copyErrors
    ensures FirstFailed(cssFiles, copyErrors, i) == k
    decreases k - i
  {
    if i < k {
      FirstFailedAt(cssFiles, copyErrors, i + 1, k);
    }
  }

  // ----- _import_extracted_files: choosing the directives -----

  /** `os.path.basename(f).lower() == 'userchrome.css'`. */
  predicate IsUserChrome(f: string)
  {
    Lower(Basename(f)) == "userchrome.css"
  }

  /** `userchrome_files`, in listing order. */
  function UserChromeFiles(files: seq<string>): (r: seq<string>)
    ensures forall x :: x in r <==> x in files && IsUserChrome(x)
    decreases |files|
  {
    if files == [] then []
    else
      var last := files[|files| - 1];
      UserChromeFiles(files[..|files| - 1]) + (if IsUserChrome(last) then [last] else [])
  }

  /**
   * The listed files that get a directive: the userChrome.css files when there are any, else the
   * files no other listed file imports, else (every file imported by another) all of them.
   */
  function DirectiveFiles(files: seq<string>, contents: Contents): seq<string>
  {
    var uc := UserChromeFiles(files);
    if uc != [] then uc
    else
      var main := MainFiles(files, RefsOf(contents));
      if main != [] then main else files
  }

  /** Without a userChrome.css among the files, the filter is empty. */
  lemma {:induction false} NoUserChromeFiles(files: seq<string>)
    requires forall f :: f in files ==> !IsUserChrome(f)
    ensures UserChromeFiles(files) == []
    decreases |files|
  {
    if files != [] {
      NoUserChromeFiles(files[..|files| - 1]);
    }
  }

  /** With a userChrome.css among the files, exactly those files get a directive. */
  lemma DirectiveUserChrome(files: seq<string>, contents: Contents, g: string)
    requires exists f :: f in files && IsUserChrome(f)
    ensures g in DirectiveFiles(files, contents) <==> g in files && IsUserChrome(g)
  {
    var f :| f in files && IsUserChrome(f);
    assert f in UserChromeFiles(files);
  }

  /** Otherwise, when some file is imported by no other, exactly those files get one. */
  lemma DirectiveMain(files: seq<string>, contents: Contents, g: string)
    requires forall f :: f in files ==> !IsUserChrome(f)
    requires exists f :: f in files && !NamedBefore(files, RefsOf(contents), |files|, f)
    ensures g in DirectiveFiles(files, contents) <==> g in files && !NamedBefore(files, RefsOf(contents), |files|, g)
  {
    MainFilesSpec(files, RefsOf(contents), g);
    var f :| f in files && !NamedBefore(files, RefsOf(contents), |files|, f);
    MainFilesSpec(files, RefsOf(contents), f);
    NoUserChromeFiles(files);
  }

  /** Otherwise every file gets one. */
  lemma DirectiveAll(files: seq<string>, contents: Contents)
    requires forall f :: f in files ==> !IsUserChrome(f)
    requires forall f :: f in files ==> NamedBefore(files, RefsOf(contents), |files|, f)
    ensures DirectiveFiles(files, contents) == files
  {
    if MainFiles(files, RefsOf(contents)) != [] {
      MainFilesSpec(files, RefsOf(contents), MainFiles(files, RefsOf(contents))[0]);
    }
    NoUserChromeFiles(files);
  }

  /** The three cases of the directive choice, each stated as membership. */
  lemma DirectiveFilesSpec(files: seq<string>, contents: Contents, g: string)
    ensures (exists f :: f in files && IsUserChrome(f)) ==>
            (g in DirectiveFiles(files, contents) <==> g in files && IsUserChrome(g))
    ensures (forall f :: f in files ==> !IsUserChrome(f)) &&
            (exists f :: f in files && !NamedBefore(files, RefsOf(contents), |files|, f)) ==>
            (g in DirectiveFiles(files, contents) <==> g in files && !NamedBefore(files, RefsOf(contents), |files|, g))
    ensures (forall f :: f in files ==> !IsUserChrome(f)) &&
            (forall f :: f in files ==> NamedBefore(files, RefsOf(contents), |files|, f)) ==>
            DirectiveFiles(files, contents) == files
  {
    if exists f :: f in files && IsUserChrome(f) {
      DirectiveUserChrome(files, contents, g);
    } else if exists f :: f in files && !NamedBefore(files, RefsOf(contents), |files|, f) {
      DirectiveMain(files, contents, g);
    } else {
      DirectiveAll(files, contents);
    }
  }

  /** The userChrome.css filter as a loop. */
  method FindUserChromeFiles(files: seq<string>) returns (uc: seq<string>)
    ensures uc == UserChromeFiles(files)
  {
    uc := [];
    var j := 0;
    while j < |files|
      invariant j <= |files|
      invariant uc == UserChromeFiles(files[..j])
    {
      assert files[..j + 1][..j] == files[..j];
      if Lower(Basename(files[j])) == "userchrome.css" {
        uc := uc + [files[j]];
      }
      j := j + 1;
    }
    assert files[..j] == files;
  }

  /**
   * The directive paths `_import_extracted_files` hands to `_update_userchrome`, in order: the
   * directive files, placed as every listed file is (the wrapper folder being the one common to all
   * listed files).
   */
  function DirectivePathsOf(bundle: string, cssFiles: seq<string>, extractDir: string, contents: Contents): seq<string>
  {
    var root := RootOf(RelsOf(cssFiles, extractDir));
    ImportPathsFrom(bundle, StripAll(RelsOf(DirectiveFiles(cssFiles, contents), extractDir), root))
  }

  // ----- _update_userchrome -----

  /** What `_update_userchrome` starts from when userChrome.css is missing or empty. */
  const Placeholder: string := "/* UserChrome.css */\n\n"

  /** userChrome.css after `_update_userchrome(import_path)`; it is rewritten only when the import was absent. */
  function WithImport(uc: Option<string>, importPath: string): Option<string>
  {
    var content := if uc.None? || uc.value == "" then Placeholder else uc.value;
    if HasImport(content, importPath) then uc else Some(AddImport(content, importPath))
  }

  /** The placeholder holds no import. */
  lemma PlaceholderEmpty()
    ensures Imports(Placeholder) == []
  {
    assert Placeholder == ['/', '*', ' ', 'U', 's', 'e', 'r', 'C', 'h', 'r', 'o', 'm', 'e', '.', 'c', 's', 's', ' ', '*', '/', '\n', '\n'];
    NoAtNoImports(Placeholder);
  }

  /**
   * After `_update_userchrome(p)` the file exists and holds an import of `p`; a file that already
   * imported `p` is left as it was.
   */
  lemma {:induction false} WithImportHas(uc: Option<string>, importPath: string)
    requires PlainPath(importPath)
    ensures WithImport(uc, importPath).Some?
    ensures HasImport(WithImport(uc, importPath).value, importPath)
    ensures uc.Some? && uc.value != "" && HasImport(uc.value, importPath) ==> WithImport(uc, importPath) == uc
  {
    var content := if uc.None? || uc.value == "" then Placeholder else uc.value;
    if uc.None? || uc.value == "" {
      PlaceholderEmpty();
    }
    AddImportThenHas(content, importPath);
  }

  /** userChrome.css after `_update_userchrome` for each of `ps` in turn. */
  function WithImports(uc: Option<string>, ps: seq<string>): Option<string>
    decreases |ps|
  {
    if ps == [] then uc else WithImport(WithImports(uc, ps[..|ps| - 1]), ps[|ps| - 1])
  }

  /** After a non-empty run of updates the file exists and imports the last path. */
  lemma {:induction false} WithImportsLast(uc: Option<string>, ps: seq<string>)
    requires ps != [] && PlainPath(ps[|ps| - 1])
    ensures WithImports(uc, ps).Some? && HasImport(WithImports(uc, ps).value, ps[|ps| - 1])
  {
    WithImportHas(WithImports(uc, ps[..|ps| - 1]), ps[|ps| - 1]);
  }

  /** The registry's file list after `mod_info.files.append` for each path not yet listed. */
  function AppendAll(s: seq<string>, xs: seq<string>): (r: seq<string>)
    ensures forall y :: y in r <==> y in s || y in xs
    ensures NoDuplicates(s) ==> NoDuplicates(r)
    ensures |r| >= |s| && r[..|s|] == s
    decreases |xs|
  {
    if xs == [] then s
    else
      var prev := AppendAll(s, xs[..|xs| - 1]);
      var r := AppendIfAbsent(prev, xs[|xs| - 1]);
      assert r[..|prev|] == prev;
      assert r[..|s|] == prev[..|s|];
      r
  }

  // ----- remove_import -----

  const NoUserChrome := "No userChrome.css file exists"

  /** The message of a remove or toggle whose path userChrome.css does not import. */
  function NotFound(importPath: string): string
  {
    "Import not found: " + importPath
  }

  /** The message of a removal that deleted the bundle folder. */
  function PurgedMessage(importPath: string): string
  {
    "Successfully removed import and associated files for: " + importPath
  }

  /** The message of a removal that kept the bundle folder for other imports. */
  function RetainedMessage(importPath: string): string
  {
    "Successfully removed import for: " + importPath + " (mod folder retained for remaining imports)"
  }

  /** The chrome folder seen as a whole: userChrome.css, the files below the folder, the registry. */
  datatype Installed = Installed(userChrome: Option<string>, files: set<string>, mods: seq<ModRecord>)

  /** `remaining_imports`: the paths of `es` whose first segment is `modName`. */
  function Remaining(es: seq<ImportEntry>, modName: string): (r: seq<string>)
    ensures |r| <= |es|
    decreases |es|
  {
    if es == [] then []
    else
      var last := es[|es| - 1];
      Remaining(es[..|es| - 1], modName) + (if FirstSegment(last.path) == modName then [last.path] else [])
  }

  /** `remaining_imports` holds exactly the import paths whose first segment is `modName`. */
  lemma {:induction false} RemainingSpec(es: seq<ImportEntry>, modName: string, x: string)
    ensures x in Remaining(es, modName) <==> exists k :: 0 <= k < |es| && es[k].path == x && FirstSegment(x) == modName
    decreases |es|
  {
    if es != [] {
      var init := es[..|es| - 1];
      RemainingSpec(init, modName, x);
      if exists k :: 0 <= k < |es| && es[k].path == x && FirstSegment(x) == modName {
        var k :| 0 <= k < |es| && es[k].path == x && FirstSegment(x) == modName;
        if k < |es| - 1 {
          assert init[k] == es[k];
        }
      }
    }
  }

  /** The files that survive deleting the folder `folder` (`rm -rf` on the chrome folder's `folder`). */
  function OutsideFolder(files: set<string>, folder: string): (r: set<string>)
    ensures forall f :: f in r <==> f in files && FirstSegment(f) != folder
  {
    set f | f in files && FirstSegment(f) != folder
  }

  /**
   * The names whose join onto the chrome folder does not name a folder inside it: "" gives the
   * chrome folder itself (with a trailing '/'), "." the chrome folder, ".." the profile folder.
   */
  predicate AboveBundle(folder: string)
  {
    folder == "" || folder == "." || folder == ".."
  }

  /** The name of userChrome.css inside the chrome folder. */
  const UserChromeName := "userChrome.css"

  /**
   * userChrome.css, now `updated`, once the program has deleted `os.path.join(chrome_dir, folder)`:
   * `rm -rf` removes the chrome folder for "", and refuses "." and ".."; `shutil.rmtree` then
   * empties the chrome folder or the profile folder, failing only on the folder itself. Either
   * way userChrome.css goes, as it does when `folder` is its own name.
   */
  function UserChromeAfterDelete(updated: string, folder: string): Option<string>
  {
    if AboveBundle(folder) || folder == UserChromeName then None else Some(updated)
  }

  /** The chrome files once the program has deleted `os.path.join(chrome_dir, folder)`: none at all for a folder above the bundles. */
  function FilesAfterDelete(files: set<string>, folder: string): set<string>
  {
    if AboveBundle(folder) then {} else OutsideFolder(files, folder)
  }

  /** The chrome files once the corrected removal has deleted the bundle folder `folder`, which a name above the bundles is not. */
  function FilesAfterPurge(files: set<string>, folder: string): set<string>
  {
    if AboveBundle(folder) then files else OutsideFolder(files, folder)
  }

  /** The registry once the records that installed into `folder` are dropped. */
  function DropBundle(ms: seq<ModRecord>, folder: string): (r: seq<ModRecord>)
    ensures forall m :: m in r <==> m in ms && FM.Sanitized(m.name) != folder
    ensures |r| <= |ms|
    decreases |ms|
  {
    if ms == [] then []
    else
      var last := ms[|ms| - 1];
      DropBundle(ms[..|ms| - 1], folder) + (if FM.Sanitized(last.name) != folder then [last] else [])
  }

  /** No import left in `updated` belongs to the bundle of `importPath`, so its folder goes. */
  predicate Purges(updated: string, importPath: string)
  {
    Remaining(Imports(updated), FirstSegment(importPath)) == []
  }

  /**
   * `remove_import(import_path)` as a whole: refused with an unchanged folder when userChrome.css
   * is missing or empty or does not import the path; otherwise the path's lines go, and when no
   * remaining import starts with the same first segment, the bundle folder and the records of the
   * mods installed into it go too.
   */
  function Uninstall(s: Installed, importPath: string): (r: (bool, string, Installed))
    ensures r.0 <==> s.userChrome.Some? && s.userChrome.value != "" && HasImport(s.userChrome.value, importPath)
    ensures !r.0 ==> r.2 == s
    ensures r.0 ==> r.2.userChrome == Some(Edit.RemoveMatchLinesOf(s.userChrome.value, importPath))
  {
    if s.userChrome.None? || s.userChrome.value == "" then (false, NoUserChrome, s)
    else if !HasImport(s.userChrome.value, importPath) then (false, NotFound(importPath), s)
    else Removed(s, importPath, Edit.RemoveMatchLinesOf(s.userChrome.value, importPath))
  }

  /** The outcome of `remove_import` once the directive lines are gone and `updated` is the new text. */
  function Removed(s: Installed, importPath: string, updated: string): (bool, string, Installed)
  {
    var folder := FM.Sanitized(FirstSegment(importPath));
    if Purges(updated, importPath) then
      (true, PurgedMessage(importPath),
       Installed(Some(updated), FilesAfterPurge(s.files, folder), DropBundle(s.mods, folder)))
    else
      (true, RetainedMessage(importPath), Installed(Some(updated), s.files, s.mods))
  }

  /**
   * `remove_import(import_path)` as the program runs it: the text goes through
   * `userchrome_manager.remove_import`, which cuts each match's line with offsets taken from the
   * original text (`UserChromeEdit.RemoveImportOf`). When the bundle is purged, the folder deleted
   * is the join of the chrome folder and the sanitized first segment, whatever that names, and the
   * registry record dropped is the one named like the first segment, whatever the name of the mod
   * that was installed into that folder.
   */
  function UninstallAsWritten(s: Installed, importPath: string): (r: (bool, string, Installed))
    ensures r.0 <==> s.userChrome.Some? && s.userChrome.value != "" && HasImport(s.userChrome.value, importPath)
    ensures !r.0 ==> r.2 == s
    ensures r.0 ==> (var updated := Edit.RemoveImportOf(s.userChrome.value, importPath);
                     var folder := FM.Sanitized(FirstSegment(importPath));
                     r.2.userChrome == if Purges(updated, importPath) then UserChromeAfterDelete(updated, folder) else Some(updated))
  {
    if s.userChrome.None? || s.userChrome.value == "" then (false, NoUserChrome, s)
    else if !HasImport(s.userChrome.value, importPath) then (false, NotFound(importPath), s)
    else RemovedAsWritten(s, importPath, Edit.RemoveImportOf(s.userChrome.value, importPath))
  }

  /** The outcome of `remove_import` as written once `updated` is the new text. */
  function RemovedAsWritten(s: Installed, importPath: string, updated: string): (bool, string, Installed)
  {
    var modName := FirstSegment(importPath);
    var folder := FM.Sanitized(modName);
    if Purges(updated, importPath) then
      (true, PurgedMessage(importPath),
       Installed(UserChromeAfterDelete(updated, folder), FilesAfterDelete(s.files, folder), R.RemoveNamed(s.mods, modName)))
    else
      (true, RetainedMessage(importPath), Installed(Some(updated), s.files, s.mods))
  }

  /**
   * When a removal changes the files at all, it has deleted the whole bundle folder of the path;
   * the program then drops the records named like the path's first segment, the corrected
   * removal every record of a mod installed into the folder.
   */
  lemma UninstallClearsBundle(s: Installed, importPath: string)
    ensures var w := UninstallAsWritten(s, importPath);
            w.0 && w.2.files != s.files ==>
            (forall f :: f in w.2.files ==> FirstSegment(f) != FM.Sanitized(FirstSegment(importPath))) &&
            (forall m :: m in w.2.mods <==> m in s.mods && m.name != FirstSegment(importPath))
    ensures var r := Uninstall(s, importPath);
            r.0 && r.2.files != s.files ==>
            (forall f :: f in r.2.files ==> FirstSegment(f) != FM.Sanitized(FirstSegment(importPath))) &&
            (forall m :: m in r.2.mods ==> FM.Sanitized(m.name) != FM.Sanitized(FirstSegment(importPath)))
  {
    if s.userChrome.Some? && s.userChrome.value != "" && HasImport(s.userChrome.value, importPath) {
      RemovedClearsBundle(s, importPath, Edit.RemoveImportOf(s.userChrome.value, importPath));
      RemovedClearsBundle(s, importPath, Edit.RemoveMatchLinesOf(s.userChrome.value, importPath));
    }
  }

  lemma RemovedClearsBundle(s: Installed, importPath: string, updated: string)
    ensures var w := RemovedAsWritten(s, importPath, updated);
            w.2.files != s.files ==>
            (forall f :: f in w.2.files ==> FirstSegment(f) != FM.Sanitized(FirstSegment(importPath))) &&
            (forall m :: m in w.2.mods <==> m in s.mods && m.name != FirstSegment(importPath))
    ensures var r := Removed(s, importPath, updated);
            r.2.files != s.files ==>
            (forall f :: f in r.2.files ==> FirstSegment(f) != FM.Sanitized(FirstSegment(importPath))) &&
            (forall m :: m in r.2.mods ==> FM.Sanitized(m.name) != FM.Sanitized(FirstSegment(importPath)))
  {
    R.RemoveNamedMembers(s.mods, FirstSegment(importPath));
  }

  /** The registry after dropping a folder's records equals dropping by name, when the two select the same records. */
  lemma {:induction false} DropBundleByName(ms: seq<ModRecord>, folder: string, name: string)
    requires forall m :: m in ms ==> (FM.Sanitized(m.name) == folder <==> m.name == name)
    ensures DropBundle(ms, folder) == R.RemoveNamed(ms, name)
    decreases |ms|
  {
    if ms != [] {
      var front := ms[..|ms| - 1];
      var last := ms[|ms| - 1];
      assert ms == front + [last];
      DropBundleByName(front, folder, name);
      R.RemoveNamedConcat(front, [last], name);
      R.RemoveNamedOne(last, name);
    }
  }

  /**
   * The program's removal and the corrected one agree when the path is matched once, its first
   * segment names a folder inside the chrome folder other than userChrome.css, and the records
   * named like that segment are exactly those installed into its folder.
   */
  lemma {:induction false} UninstallAgrees(s: Installed, importPath: string)
    requires s.userChrome.Some? ==>
               |ExactScan(s.userChrome.value, HitsOf(s.userChrome.value, Normalize(importPath)), 0)| == 1
    requires !AboveBundle(FM.Sanitized(FirstSegment(importPath))) && FM.Sanitized(FirstSegment(importPath)) != UserChromeName
    requires forall m :: m in s.mods ==>
               (FM.Sanitized(m.name) == FM.Sanitized(FirstSegment(importPath)) <==> m.name == FirstSegment(importPath))
    ensures UninstallAsWritten(s, importPath) == Uninstall(s, importPath)
  {
    if s.userChrome.Some? && s.userChrome.value != "" && HasImport(s.userChrome.value, importPath) {
      var updated := Edit.RemoveImportOf(s.userChrome.value, importPath);
      Edit.RemoveSingleAgrees(s.userChrome.value, importPath);
      assert UninstallAsWritten(s, importPath) == RemovedAsWritten(s, importPath, updated);
      assert Uninstall(s, importPath) == Removed(s, importPath, updated);
      RemovedAgrees(s, importPath, updated);
    }
  }

  /** Once the text is updated, the two removals agree on a folder inside the chrome folder whose records carry its name. */
  lemma {:induction false} RemovedAgrees(s: Installed, importPath: string, updated: string)
    requires !AboveBundle(FM.Sanitized(FirstSegment(importPath))) && FM.Sanitized(FirstSegment(importPath)) != UserChromeName
    requires forall m :: m in s.mods ==>
               (FM.Sanitized(m.name) == FM.Sanitized(FirstSegment(importPath)) <==> m.name == FirstSegment(importPath))
    ensures RemovedAsWritten(s, importPath, updated) == Removed(s, importPath, updated)
  {
    DropBundleByName(s.mods, FM.Sanitized(FirstSegment(importPath)), FirstSegment(importPath));
  }

  /**
   * A removal whose updated text names nothing of the bundle deletes the records named like the
   * first segment and the join of the chrome folder and the sanitized segment: for "", "." or
   * ".." that takes userChrome.css and every chrome file, otherwise the files below that name,
   * and userChrome.css too when that is its name.
   */
  lemma UninstallPurging(s: Installed, importPath: string, updated: string)
    requires s.userChrome.Some? && s.userChrome.value != "" && HasImport(s.userChrome.value, importPath)
    requires updated == Edit.RemoveImportOf(s.userChrome.value, importPath) && Purges(updated, importPath)
    ensures var modName := FirstSegment(importPath);
            var folder := FM.Sanitized(modName);
            var w := UninstallAsWritten(s, importPath);
            && w.0 && w.1 == PurgedMessage(importPath) && w.2.mods == R.RemoveNamed(s.mods, modName)
            && (AboveBundle(folder) ==> w.2.userChrome == None && w.2.files == {})
            && (!AboveBundle(folder) ==>
                  w.2.files == OutsideFolder(s.files, folder) &&
                  w.2.userChrome == if folder == UserChromeName then None else Some(updated))
  {
  }

  /** The corrected removal, when nothing of the bundle is left, deletes the folder and the records of mods installed into it. */
  lemma UninstallPurgingCorrected(s: Installed, importPath: string, updated: string)
    requires s.userChrome.Some? && s.userChrome.value != "" && HasImport(s.userChrome.value, importPath)
    requires updated == Edit.RemoveMatchLinesOf(s.userChrome.value, importPath) && Purges(updated, importPath)
    ensures var folder := FM.Sanitized(FirstSegment(importPath));
            Uninstall(s, importPath) ==
            (true, PurgedMessage(importPath), Installed(Some(updated), FilesAfterPurge(s.files, folder), DropBundle(s.mods, folder)))
  {
  }

  /**
   * The corrected removal keeps userChrome.css and deletes no file outside the bundle folder of
   * the path; for a first segment "", "." or ".." it deletes no file at all.
   */
  lemma UninstallKeepsChrome(s: Installed, importPath: string)
    ensures Uninstall(s, importPath).0 ==> Uninstall(s, importPath).2.userChrome.Some?
    ensures forall f :: f in s.files && FirstSegment(f) != FM.Sanitized(FirstSegment(importPath)) ==> f in Uninstall(s, importPath).2.files
    ensures AboveBundle(FM.Sanitized(FirstSegment(importPath))) ==> Uninstall(s, importPath).2.files == s.files
  {
    if s.userChrome.Some? && s.userChrome.value != "" && HasImport(s.userChrome.value, importPath) {
      var updated := Edit.RemoveMatchLinesOf(s.userChrome.value, importPath);
      assert Uninstall(s, importPath) == Removed(s, importPath, updated);
      RemovedKeepsChrome(s, importPath, updated, FM.Sanitized(FirstSegment(importPath)));
    }
  }

  lemma {:induction false} RemovedKeepsChrome(s: Installed, importPath: string, updated: string, folder: string)
    requires folder == FM.Sanitized(FirstSegment(importPath))
    ensures Removed(s, importPath, updated).2.userChrome.Some?
    ensures forall f :: f in s.files && FirstSegment(f) != folder ==> f in Removed(s, importPath, updated).2.files
    ensures AboveBundle(folder) ==> Removed(s, importPath, updated).2.files == s.files
  {
    assert Removed(s, importPath, updated).2.files == if Purges(updated, importPath) then FilesAfterPurge(s.files, folder) else s.files;
  }

  /** Once the import is found, the program's removal is `RemovedAsWritten` of the text it leaves. */
  lemma UninstallFound(s: Installed, importPath: string)
    requires s.userChrome.Some? && s.userChrome.value != "" && HasImport(s.userChrome.value, importPath)
    ensures UninstallAsWritten(s, importPath) == RemovedAsWritten(s, importPath, Edit.RemoveImportOf(s.userChrome.value, importPath))
  {
  }

  /** The mod name `remove_import` reads off a path is its first segment. */
  lemma ModNameOf(importPath: string)
    ensures (if HasChar(importPath, '/') then Split(importPath, '/')[0] else importPath) == FirstSegment(importPath)
  {
    if !HasChar(importPath, '/') {
      SplitOne(importPath);
    }
  }

  /** A removal that leaves other imports of the bundle keeps the folder and the records. */
  lemma UninstallRetaining(s: Installed, importPath: string, updated: string)
    requires s.userChrome.Some? && s.userChrome.value != "" && HasImport(s.userChrome.value, importPath)
    requires updated == Edit.RemoveImportOf(s.userChrome.value, importPath) && !Purges(updated, importPath)
    ensures UninstallAsWritten(s, importPath) == (true, RetainedMessage(importPath), s.(userChrome := Some(updated)))
  {
  }

  /** The corrected removal keeps the folder and the records while other imports of the bundle are left. */
  lemma UninstallRetainingCorrected(s: Installed, importPath: string, updated: string)
    requires s.userChrome.Some? && s.userChrome.value != "" && HasImport(s.userChrome.value, importPath)
    requires updated == Edit.RemoveMatchLinesOf(s.userChrome.value, importPath) && !Purges(updated, importPath)
    ensures Uninstall(s, importPath) == (true, RetainedMessage(importPath), s.(userChrome := Some(updated)))
  {
  }

  /**
   * A directive standing on its own line in a clean stylesheet, with no other directive of the
   * path, is found and removed with its line by both removals, whichever spelling of the path
   * that normalizes to the directive's is asked for.
   */
  lemma {:induction false} OwnLineDirective(a: string, b: string, front: seq<Edit.Piece>, back: seq<Edit.Piece>, importPath: string)
    requires Normalize(Normalize(importPath)) == Normalize(importPath)
    requires PlainPath(Normalize(importPath)) && Edit.NoMark(Normalize(importPath))
    requires a == Edit.Render(front) && b == Edit.Render(back) && Edit.Clean(front) && Edit.Clean(back)
    requires Edit.Lacks(front, Normalize(importPath)) && Edit.Lacks(back, Normalize(importPath))
    requires a == [] || a[|a| - 1] == '\n'
    requires b == [] || b[0] == '\n'
    ensures HasImport(a + Directive(Normalize(importPath)) + b, importPath)
    ensures Edit.RemoveImportOf(a + Directive(Normalize(importPath)) + b, importPath) == a + b
    ensures Edit.RemoveMatchLinesOf(a + Directive(Normalize(importPath)) + b, importPath) == a + b
  {
    OwnLineDirectiveAt(a, b, front, back, importPath, Normalize(importPath), a + Directive(Normalize(importPath)) + b);
  }

  lemma {:induction false} OwnLineDirectiveAt(a: string, b: string, front: seq<Edit.Piece>, back: seq<Edit.Piece>, importPath: string,
                                              np: string, t: string)
    requires np == Normalize(importPath) && Normalize(np) == np && t == a + Directive(np) + b
    requires PlainPath(np) && Edit.NoMark(np)
    requires a == Edit.Render(front) && b == Edit.Render(back) && Edit.Clean(front) && Edit.Clean(back)
    requires Edit.Lacks(front, np) && Edit.Lacks(back, np)
    requires a == [] || a[|a| - 1] == '\n'
    requires b == [] || b[0] == '\n'
    ensures HasImport(t, importPath)
    ensures Edit.RemoveImportOf(t, importPath) == a + b && Edit.RemoveMatchLinesOf(t, importPath) == a + b
  {
    DirectiveAfter(a, Directive(np), b, t);
    DirectiveOnLine(t, |a|, importPath, np);
    assert Edit.Canon(np, true) == Directive(np);
    Edit.RemoveMatchLinesOwnLine(a, b, front, back, importPath, true);
    Edit.RemoveOwnLine(a, b, front, back, importPath, true);
  }

  /** A directive at the start of a line is found under any spelling of its path that normalizes to it. */
  lemma {:induction false} DirectiveOnLine(t: string, x: nat, importPath: string, np: string)
    requires np == Normalize(importPath) && Normalize(np) == np && PlainPath(np)
    requires At(t, x, Directive(np)) && (x == 0 || t[x - 1] == '\n')
    ensures HasImport(t, importPath)
  {
    DirectiveFound(t, x, np);
    SameKey(t, importPath, np);
  }

  /** The middle of `a + d + b` starts where `a` ends, just after the last character of `a`. */
  lemma {:induction false} DirectiveAfter(a: string, d: string, b: string, t: string)
    requires t == a + d + b
    ensures At(t, |a|, d)
    ensures a != [] ==> t[|a| - 1] == a[|a| - 1]
  {
    assert t[|a|..|a| + |d|] == d;
  }

  /** `has_import` compares normalized paths, so a path and its normal form find the same imports. */
  lemma {:induction false} SameKey(t: string, importPath: string, np: string)
    requires np == Normalize(importPath) && Normalize(np) == np
    ensures HasImport(t, np) == HasImport(t, importPath)
  {
  }

  /** Text without '@' or '*' is a clean stylesheet of one free piece with no directive. */
  lemma {:induction false} MarkFreePiece(a: string)
    requires Edit.NoMark(a)
    ensures Edit.Render([Edit.Free(a)]) == a && Edit.Clean([Edit.Free(a)])
    ensures forall np :: Edit.Lacks([Edit.Free(a)], np)
  {
    assert [Edit.Free(a)][1..] == [];
    Edit.NoMarkFree(a);
  }

  /**
   * Removing the only directive of a bundle, on its own line in a file that has no other '@'
   * and no '*', leaves the text around it and purges the bundle. The program deletes the join
   * of the chrome folder and the sanitized first segment, and drops the records named like the
   * segment; the corrected removal deletes only a bundle folder and drops the records of the
   * mods installed into it.
   */
  lemma {:induction false} RemoveLastDirectivePurges(a: string, b: string, importPath: string,
                                                     files: set<string>, mods: seq<ModRecord>)
    requires Normalize(Normalize(importPath)) == Normalize(importPath)
    requires PlainPath(Normalize(importPath)) && Edit.NoMark(Normalize(importPath))
    requires Edit.NoMark(a) && Edit.NoMark(b)
    requires a == [] || a[|a| - 1] == '\n'
    requires b == [] || b[0] == '\n'
    ensures UninstallAsWritten(Installed(Some(a + Directive(Normalize(importPath)) + b), files, mods), importPath) ==
            (true, PurgedMessage(importPath),
             Installed(UserChromeAfterDelete(a + b, FM.Sanitized(FirstSegment(importPath))),
                       FilesAfterDelete(files, FM.Sanitized(FirstSegment(importPath))),
                       R.RemoveNamed(mods, FirstSegment(importPath))))
    ensures Uninstall(Installed(Some(a + Directive(Normalize(importPath)) + b), files, mods), importPath) ==
            (true, PurgedMessage(importPath),
             Installed(Some(a + b), FilesAfterPurge(files, FM.Sanitized(FirstSegment(importPath))),
                       DropBundle(mods, FM.Sanitized(FirstSegment(importPath)))))
  {
    var t := a + Directive(Normalize(importPath)) + b;
    LastDirectiveText(a, b, importPath, t);
    PurgedOutcome(Installed(Some(t), files, mods), importPath, a + b);
  }

  /** The text facts behind `RemoveLastDirectivePurges`: found, removed by both removals, nothing of the bundle left. */
  lemma {:induction false} LastDirectiveText(a: string, b: string, importPath: string, t: string)
    requires Normalize(Normalize(importPath)) == Normalize(importPath)
    requires PlainPath(Normalize(importPath)) && Edit.NoMark(Normalize(importPath))
    requires Edit.NoMark(a) && Edit.NoMark(b)
    requires a == [] || a[|a| - 1] == '\n'
    requires b == [] || b[0] == '\n'
    requires t == a + Directive(Normalize(importPath)) + b
    ensures t != [] && HasImport(t, importPath)
    ensures Edit.RemoveImportOf(t, importPath) == a + b && Edit.RemoveMatchLinesOf(t, importPath) == a + b
    ensures Purges(a + b, importPath)
  {
    MarkFreePiece(a);
    MarkFreePiece(b);
    OwnLineDirective(a, b, [Edit.Free(a)], [Edit.Free(b)], importPath);
    Edit.NoMarkConcat(a, b);
    NoAtNoImports(a + b);
    assert |Directive(Normalize(importPath))| > 0;
  }

  /** Both removals of a path found in the text, once both leave `updated` and nothing of the bundle is left in it. */
  lemma {:induction false} PurgedOutcome(s: Installed, importPath: string, updated: string)
    requires s.userChrome.Some? && s.userChrome.value != [] && HasImport(s.userChrome.value, importPath)
    requires Edit.RemoveImportOf(s.userChrome.value, importPath) == updated
    requires Edit.RemoveMatchLinesOf(s.userChrome.value, importPath) == updated
    requires Purges(updated, importPath)
    ensures UninstallAsWritten(s, importPath) ==
            (true, PurgedMessage(importPath),
             Installed(UserChromeAfterDelete(updated, FM.Sanitized(FirstSegment(importPath))),
                       FilesAfterDelete(s.files, FM.Sanitized(FirstSegment(importPath))),
                       R.RemoveNamed(s.mods, FirstSegment(importPath))))
    ensures Uninstall(s, importPath) ==
            (true, PurgedMessage(importPath),
             Installed(Some(updated), FilesAfterPurge(s.files, FM.Sanitized(FirstSegment(importPath))),
                       DropBundle(s.mods, FM.Sanitized(FirstSegment(importPath)))))
  {
    assert UninstallAsWritten(s, importPath) == RemovedAsWritten(s, importPath, updated);
    assert Uninstall(s, importPath) == Removed(s, importPath, updated);
  }

  /** Removing the directive that is the whole of userChrome.css leaves it empty and purges the bundle. */
  lemma SoleDirectivePurges(p: string, files: set<string>, mods: seq<ModRecord>)
    requires Normalize(Normalize(p)) == Normalize(p) && PlainPath(Normalize(p)) && Edit.NoMark(Normalize(p))
    ensures UninstallAsWritten(Installed(Some(Directive(Normalize(p))), files, mods), p) ==
            (true, PurgedMessage(p),
             Installed(UserChromeAfterDelete("", FM.Sanitized(FirstSegment(p))), FilesAfterDelete(files, FM.Sanitized(FirstSegment(p))),
                       R.RemoveNamed(mods, FirstSegment(p))))
    ensures Uninstall(Installed(Some(Directive(Normalize(p))), files, mods), p) ==
            (true, PurgedMessage(p),
             Installed(Some(""), FilesAfterPurge(files, FM.Sanitized(FirstSegment(p))), DropBundle(mods, FM.Sanitized(FirstSegment(p)))))
    ensures Purges("", p)
  {
    SoleDirectiveAt(p, Directive(Normalize(p)), Installed(Some(Directive(Normalize(p))), files, mods));
  }

  lemma {:induction false} EmptyAround(t: string, e: string)
    requires e == []
    ensures t == e + t + e && e + e == e
  {
  }

  lemma {:induction false} SoleDirectiveAt(p: string, t: string, s: Installed)
    requires Normalize(Normalize(p)) == Normalize(p) && PlainPath(Normalize(p)) && Edit.NoMark(Normalize(p))
    requires t == Directive(Normalize(p)) && s.userChrome == Some(t)
    ensures UninstallAsWritten(s, p) ==
            (true, PurgedMessage(p),
             Installed(UserChromeAfterDelete([], FM.Sanitized(FirstSegment(p))), FilesAfterDelete(s.files, FM.Sanitized(FirstSegment(p))),
                       R.RemoveNamed(s.mods, FirstSegment(p))))
    ensures Uninstall(s, p) ==
            (true, PurgedMessage(p),
             Installed(Some([]), FilesAfterPurge(s.files, FM.Sanitized(FirstSegment(p))), DropBundle(s.mods, FM.Sanitized(FirstSegment(p)))))
    ensures Purges([], p)
  {
    var e: string := [];
    EmptyAround(t, e);
    LastDirectiveText(e, e, p, t);
    assert e + e == e;
    PurgedOutcome(s, p, e);
  }

  // ----- remove_import: a first segment that names no bundle folder -----

  /** The path asked for in the example below, the directive it names, and the chrome folder's files. */
  const DotTarget: string := "x.css"
  const DotPath: string := "./" + DotTarget
  const DotFiles: set<string> := {"x.css", "mod/a.css"}

  /** `DotPath` asks for the directive of `DotTarget`; its first segment is ".", which sanitizing keeps. */
  lemma {:induction false} DotSlashFacts()
    ensures Normalize(DotPath) == DotTarget && Normalize(DotTarget) == DotTarget
    ensures PlainPath(DotTarget) && Edit.NoMark(DotTarget)
    ensures FirstSegment(DotPath) == "." && FM.Sanitized(".") == "." && AboveBundle(".")
  {
    DotNormalize();
    DotSegment();
    DotSanitized();
  }

  lemma {:induction false} DotSanitized()
    ensures FM.Sanitized(".") == "."
  {
    assert '.' !in FM.InvalidChars;
  }

  lemma {:induction false} DotNormalize()
    ensures Normalize(DotPath) == DotTarget && Normalize(DotTarget) == DotTarget
    ensures PlainPath(DotTarget) && Edit.NoMark(DotTarget)
  {
    DotChars();
    DotUnslashed();
    NormalizeClean(DotTarget);
    NormalizeDotSlash(DotTarget);
  }

  /** `DotTarget` holds no quote, parenthesis, newline, '@', '*', backslash or surrounding space. */
  lemma {:induction false} DotChars()
    ensures PlainPath(DotTarget) && Edit.NoMark(DotTarget) && !HasChar(DotTarget, '\\')
    ensures |DotTarget| == 5 && DotTarget[0] == 'x' && !IsSpace(DotTarget[0]) && !IsSpace(DotTarget[4])
  {
    assert DotTarget == ['x', '.', 'c', 's', 's'];
  }

  /** `DotTarget` does not start with "./", and neither does it once backslashes are turned into slashes. */
  lemma {:induction false} DotUnslashed()
    requires !HasChar(DotTarget, '\\') && |DotTarget| == 5 && DotTarget[0] == 'x'
    ensures !StartsWith(DotTarget, "./") && !StartsWith(ReplaceChar(DotTarget, '\\', '/'), "./")
  {
    var r := ReplaceChar(DotTarget, '\\', '/');
    assert r[0] == 'x';
  }

  lemma {:induction false} DotSegment()
    ensures FirstSegment(DotPath) == "."
  {
    assert !HasChar(".", '/');
    SplitTwo(".", DotTarget);
    assert "." + "/" + DotTarget == "./" + DotTarget;
  }

  /**
   * As written: removing "./x.css" from a userChrome.css holding only the directive of x.css
   * deletes `chrome_dir/.`, which `rm -rf` refuses and `shutil.rmtree` empties: userChrome.css
   * and every chrome file are gone, and the success message is returned.
   */
  lemma DotSegmentWipesChrome()
    ensures UninstallAsWritten(Installed(Some(Directive(DotTarget)), DotFiles, []), DotPath) ==
            (true, PurgedMessage(DotPath), Installed(None, {}, []))
  {
    DotSlashFacts();
    SoleDirectivePurges(DotPath, DotFiles, []);
  }

  /** Corrected: the same removal empties userChrome.css and keeps every chrome file. */
  lemma DotSegmentKeepsFiles()
    ensures Uninstall(Installed(Some(Directive(DotTarget)), DotFiles, []), DotPath) ==
            (true, PurgedMessage(DotPath), Installed(Some(""), DotFiles, []))
  {
    DotSlashFacts();
    SoleDirectivePurges(DotPath, DotFiles, []);
  }

  /** The directive path, bundle folder and record of the mod "a:b" installing x.css. */
  const OddPath: string := "a_b/x.css"
  const OddRecord: ModRecord := ModRecord("a:b", None, None, Text(""), [OddPath], map[])

  /** Where `OddPath` and the record of "a:b" live. */
  lemma {:induction false} OddNames()
    ensures FirstSegment(OddPath) == "a_b" && FM.Sanitized("a_b") == "a_b" && FM.Sanitized("a:b") == "a_b"
  {
    OddFolder();
    OddSanitized();
  }

  lemma {:induction false} OddFolder()
    ensures FirstSegment(OddPath) == "a_b"
  {
    assert OddPath == "a_b" + "/" + "x.css";
    assert !HasChar("a_b", '/');
    SplitTwo("a_b", "x.css");
  }

  lemma {:induction false} OddSanitized()
    ensures FM.Sanitized("a_b") == "a_b" && FM.Sanitized("a:b") == "a_b"
  {
    assert 'a' !in FM.InvalidChars && 'b' !in FM.InvalidChars && '_' !in FM.InvalidChars && ':' in FM.InvalidChars;
    assert FM.Sanitized("a:b")[1] == '_';
  }

  /** `OddPath` is a path `add_import` writes as it stands. */
  lemma {:induction false} OddPathPlain()
    ensures Normalize(OddPath) == OddPath && PlainPath(OddPath) && Edit.NoMark(OddPath)
  {
    var p := OddPath;
    OddPathChars();
    assert !StartsWith(p, "./") by {
      assert p[1] != '/';
    }
    NormalizeClean(p);
  }

  /** `OddPath` holds no quote, parenthesis, newline, '@', '*', backslash or surrounding space. */
  lemma {:induction false} OddPathChars()
    ensures PlainPath(OddPath) && Edit.NoMark(OddPath) && !HasChar(OddPath, '\\')
    ensures |OddPath| == 9 && OddPath[1] == '_' && !IsSpace(OddPath[0]) && !IsSpace(OddPath[8])
  {
    assert OddPath == ['a', '_', 'b', '/', 'x', '.', 'c', 's', 's'];
  }

  /** Removing the only directive of `OddPath` empties the file and deletes the folder "a_b". */
  lemma {:induction false} OddUninstall()
    ensures UninstallAsWritten(Installed(Some(Directive(OddPath)), {OddPath}, [OddRecord]), OddPath) ==
            (true, PurgedMessage(OddPath),
             Installed(Some(""), {}, R.RemoveNamed([OddRecord], "a_b")))
    ensures Uninstall(Installed(Some(Directive(OddPath)), {OddPath}, [OddRecord]), OddPath) ==
            (true, PurgedMessage(OddPath),
             Installed(Some(""), {}, DropBundle([OddRecord], "a_b")))
    ensures Purges("", OddPath)
  {
    OddNames();
    OddPathPlain();
    SoleDirectivePurges(OddPath, {OddPath}, [OddRecord]);
    assert !AboveBundle("a_b") && "a_b" != UserChromeName;
    assert OutsideFolder({OddPath}, "a_b") == {};
  }

  /**
   * As written: after removing the only import of the mod "a:b" (installed into the folder
   * "a_b"), the folder is gone but the mod's record stays in the registry.
   */
  lemma RegistryRecordOrphaned()
    ensures var r := UninstallAsWritten(Installed(Some(Directive(OddPath)), {OddPath}, [OddRecord]), OddPath);
            r.0 && r.2.files == {} && r.2.mods == [OddRecord]
  {
    OddNames();
    OddUninstall();
    R.RemoveNamedOne(OddRecord, "a_b");
  }

  /** Corrected: the same removal drops the record of the mod whose folder was deleted. */
  lemma RegistryRecordDropped()
    ensures var r := Uninstall(Installed(Some(Directive(OddPath)), {OddPath}, [OddRecord]), OddPath);
            r.0 && r.2.files == {} && r.2.mods == []
  {
    OddNames();
    OddUninstall();
    assert [OddRecord][..0] == [];
  }

  /**
   * Install and uninstall on the bundle: every path installed for `modName` names, as its first
   * segment, the folder the mod was installed into. The program's removal then drops `modName`'s
   * records exactly when the name needed no sanitizing; the corrected removal always drops them.
   */
  lemma {:induction false} InstalledBundleRemovable(modName: string, rel: string, ms: seq<ModRecord>)
    requires modName != [] && rel != [] && rel[0] != '/'
    ensures var seg := FirstSegment(ImportPathFor(FM.Sanitized(modName), rel));
            && FM.Sanitized(seg) == FM.Sanitized(modName)
            && (FM.Sanitized(modName) == modName ==> forall m :: m in R.RemoveNamed(ms, seg) ==> m.name != modName)
            && (FM.Sanitized(modName) != modName ==> forall m :: m in ms && m.name == modName ==> m in R.RemoveNamed(ms, seg))
            && forall m :: m in DropBundle(ms, FM.Sanitized(seg)) ==> m.name != modName
  {
    BundleOwnsImportPath(modName, rel);
    FM.SanitizedClean(modName);
    R.RemoveNamedMembers(ms, FM.Sanitized(modName));
  }

  // ----- toggle_import -----

  /** The `enabled` flag of the first import from index `i` on whose path satisfies `same`, or false when none does. */
  function EnabledFrom(es: seq<ImportEntry>, same: string -> bool, i: nat): (e: bool)
    requires i <= |es|
    ensures e ==> exists k :: i <= k < |es| && same(es[k].path) && es[k].enabled
    decreases |es| - i
  {
    if i == |es| then false
    else if same(es[i].path) then es[i].enabled
    else EnabledFrom(es, same, i + 1)
  }

  /** The test `toggle_import` applies to each import: its path normalizes to `np`. */
  function SamePath(np: string): string -> bool
  {
    p => Normalize(p) == np
  }

  /** The loop of `toggle_import` that reads the new state off the rewritten file, `same` being its path test. */
  method FindEnabled(es: seq<ImportEntry>, same: string -> bool) returns (enabled: bool)
    ensures enabled == EnabledFrom(es, same, 0)
  {
    var k := 0;
    while k < |es|
      invariant k <= |es|
      invariant EnabledFrom(es, same, k) == EnabledFrom(es, same, 0)
    {
      if same(es[k].path) {
        return es[k].enabled;
      }
      k := k + 1;
    }
    return false;
  }

  /** `toggle_import(import_path)`: (success, message, enabled afterwards, new folder). */
  function Toggle(s: Installed, importPath: string): (r: (bool, string, bool, Installed))
    ensures r.0 <==> s.userChrome.Some? && s.userChrome.value != "" && HasImport(s.userChrome.value, importPath)
    ensures !r.0 ==> r.3 == s && !r.2
    ensures r.3.files == s.files && r.3.mods == s.mods
  {
    if s.userChrome.None? || s.userChrome.value == "" then (false, NoUserChrome, false, s)
    else if !HasImport(s.userChrome.value, importPath) then (false, NotFound(importPath), false, s)
    else
      var updated := Edit.ToggleImport(s.userChrome.value, importPath);
      (true, "Successfully toggled import", EnabledFrom(Imports(updated), SamePath(Normalize(importPath)), 0),
       s.(userChrome := Some(updated)))
  }

  /** Two successful toggles of the same import give back the folder as it was. */
  lemma ToggleTwiceRestores(qs: seq<Edit.Piece>, importPath: string, files: set<string>, mods: seq<ModRecord>)
    requires Edit.Clean(qs) && PlainPath(Normalize(importPath))
    ensures var s := Installed(Some(Edit.Render(qs)), files, mods);
            var t := Toggle(s, importPath);
            t.0 && Toggle(t.3, importPath).0 ==> Toggle(t.3, importPath).3 == s
  {
    Edit.ToggleTwice(qs, importPath);
  }

  // ----- the service -----

  /** The profile's chrome folder, changed in place by the install, remove and toggle operations. */
  class ImportService {
    var userChrome: Option<string>
    var chromeFiles: set<string>
    var mods: seq<ModRecord>

    constructor (userChrome: Option<string>, chromeFiles: set<string>, mods: seq<ModRecord>)
      ensures State() == Installed(userChrome, chromeFiles, mods)
    {
      this.userChrome := userChrome;
      this.chromeFiles := chromeFiles;
      this.mods := mods;
    }

    function State(): Installed
      reads this
    {
      Installed(userChrome, chromeFiles, mods)
    }

    /** `_update_userchrome`: start from the placeholder when needed and add the import when absent. */
    method UpdateUserChrome(importPath: string) returns (ok: bool)
      modifies this
      ensures ok && State() == old(State()).(userChrome := WithImport(old(userChrome), importPath))
    {
      var content := if userChrome.None? || userChrome.value == "" then Placeholder else userChrome.value;
      if !HasImport(content, importPath) {
        userChrome := Some(AddImport(content, importPath));
      }
      ok := true;
    }

    /** `_update_userchrome` for each path in turn. */
    method UpdateUserChromeAll(paths: seq<string>)
      modifies this
      ensures State() == old(State()).(userChrome := WithImports(old(userChrome), paths))
    {
      var k := 0;
      while k < |paths|
        invariant k <= |paths|
        invariant State() == old(State()).(userChrome := WithImports(old(userChrome), paths[..k]))
      {
        assert paths[..k + 1][..k] == paths[..k];
        var _ := UpdateUserChrome(paths[k]);
        k := k + 1;
      }
      assert paths[..k] == paths;
    }

    /**
     * `_import_single_file`: copy the file into the chrome folder under its sanitized name, import
     * that name, and record it for the mod. `copyError` is the failure `copy_file` raises, if any.
     */
    method ImportSingleFile(cssFile: string, modName: string, sourceUrl: string, modInfo: ModInfo?,
                            now: Stamp, copyError: Option<string>)
      returns (ok: bool, message: string, info: ModInfo?)
      modifies this, modInfo
      ensures copyError.Some? ==>
              !ok && message == "Failed to import file: " + copyError.value && info == null &&
              State() == old(State()) && (modInfo != null ==> modInfo.Record() == old(modInfo.Record()))
      ensures copyError.None? ==>
              var name := FM.Sanitized(Basename(cssFile));
              ok && message == "Successfully imported " + Basename(cssFile) && info != null &&
              chromeFiles == old(chromeFiles) + {name} &&
              userChrome == WithImport(old(userChrome), name) &&
              (modInfo == null ==> fresh(info) && info.Record() == ModRecord(modName, Some(sourceUrl), None, now, [name], map[])) &&
              (modInfo != null ==> info == modInfo &&
                                   info.Record() == old(modInfo.Record()).(files := AppendIfAbsent(old(modInfo.files), name))) &&
              mods == R.Upsert(old(mods), info.Record())
    {
      var fileName := Basename(cssFile);
      var sanitizedName := FM.SanitizeFilename(fileName);
      if copyError.Some? {
        return false, "Failed to import file: " + copyError.value, null;
      }
      chromeFiles := chromeFiles + {sanitizedName};
      var _ := UpdateUserChrome(sanitizedName);
      if modInfo == null {
        info := new ModInfo(modName, Some(sourceUrl), None, now, [sanitizedName], map[]);
      } else {
        info := modInfo;
        info.AddFile(sanitizedName);
      }
      mods := R.Upsert(mods, info.Record());
      return true, "Successfully imported " + fileName, info;
    }

    /** Copy one file to `target` below the chrome folder. */
    method CopyFile(target: string)
      modifies this
      ensures chromeFiles == old(chromeFiles) + {target}
      ensures userChrome == old(userChrome) && mods == old(mods)
    {
      chromeFiles := chromeFiles + {target};
    }

    /**
     * The copy loop of `_import_extracted_files`: copy each file to its target, stopping at the
     * first failure, and collect the import paths of the copied files. `targets` and `paths` are
     * what the loop computes for each file (`TargetsFrom` and `ImportPathsFrom`).
     */
    method CopyBundle(cssFiles: seq<string>, targets: seq<string>, paths: seq<string>, copyErrors: map<string, string>)
      returns (failed: Option<string>, imported: seq<string>)
      requires |targets| == |cssFiles| && |paths| == |cssFiles|
      modifies this
      ensures var j := FirstFailed(cssFiles, copyErrors, 0);
              (failed.Some? <==> j < |cssFiles|) &&
              (j < |cssFiles| ==> failed.value == copyErrors[cssFiles[j]]) &&
              chromeFiles == old(chromeFiles) + CopiedSet(targets, j) &&
              userChrome == old(userChrome) && mods == old(mods) &&
              (j == |cssFiles| ==> imported == paths)
    {
      imported := [];
      var k := 0;
      while k < |cssFiles| && cssFiles[k] !in copyErrors
        invariant k <= |cssFiles|
        invariant forall i :: 0 <= i < k ==> cssFiles[i] !in copyErrors
        invariant imported == paths[..k]
        invariant chromeFiles == old(chromeFiles) + CopiedSet(targets, k)
        invariant userChrome == old(userChrome) && mods == old(mods)
      {
        assert paths[..k + 1] == paths[..k] + [paths[k]];
        CopyFile(targets[k]);
        imported := imported + [paths[k]];
        k := k + 1;
      }
      FirstFailedAt(cssFiles, copyErrors, 0, k);
      if k < |cssFiles| {
        return Some(copyErrors[cssFiles[k]]), imported;
      }
      assert paths[..k] == paths;
      return None, imported;
    }

    /** The directive choice of `_import_extracted_files`, as the source computes it. */
    static method SelectDirectiveFiles(cssFiles: seq<string>, contents: Contents) returns (targets: seq<string>)
      ensures targets == DirectiveFiles(cssFiles, contents)
    {
      targets := FindUserChromeFiles(cssFiles);
      if targets == [] {
        targets := FindMainCssFiles(cssFiles, RefsOf(contents));
        if targets == [] {
          targets := cssFiles;
        }
      }
    }

    /**
     * `_import_extracted_files`: place every CSS file of an extracted archive below the mod's
     * sanitized folder (without a common wrapper folder), add the chosen directives, and record the
     * placed paths for the mod. `copyErrors` maps a file to the failure its copy raises.
     */
    method ImportExtractedFiles(cssFiles: seq<string>, extractDir: string, modName: string, sourceUrl: string,
                                modInfo: ModInfo?, contents: Contents, now: Stamp, copyErrors: map<string, string>)
      returns (ok: bool, message: string, info: ModInfo?)
      modifies this, modInfo
      ensures var bundle := FM.Sanitized(modName);
              var j := FirstFailed(cssFiles, copyErrors, 0);
              chromeFiles == old(chromeFiles) + CopiedSet(TargetsFrom(bundle, PlacedOf(cssFiles, extractDir)), j) &&
              (j < |cssFiles| ==>
                 !ok && message == "Failed to import files: " + copyErrors[cssFiles[j]] && info == null &&
                 userChrome == old(userChrome) && mods == old(mods) &&
                 (modInfo != null ==> modInfo.Record() == old(modInfo.Record())))
      ensures var bundle := FM.Sanitized(modName);
              var imported := ImportPathsOf(bundle, cssFiles, extractDir);
              FirstFailed(cssFiles, copyErrors, 0) == |cssFiles| ==>
                 ok && message == "Successfully imported " + IntToString(|cssFiles|) + " files" && info != null &&
                 userChrome == WithImports(old(userChrome), DirectivePathsOf(bundle, cssFiles, extractDir, contents)) &&
                 (modInfo == null ==> fresh(info) && info.Record() == ModRecord(modName, Some(sourceUrl), None, now, imported, map[])) &&
                 (modInfo != null ==> info == modInfo &&
                                      info.Record() == old(modInfo.Record()).(files := AppendAll(old(modInfo.files), imported))) &&
                 mods == R.Upsert(old(mods), info.Record())
    {
      var bundle := FM.SanitizeFilename(modName);
      var placed, paths := PlanBundle(cssFiles, extractDir, bundle, contents);
      var failed, imported := CopyBundle(cssFiles, TargetsFrom(bundle, placed), ImportPathsFrom(bundle, placed), copyErrors);
      if failed.Some? {
        return false, "Failed to import files: " + failed.value, null;
      }
      info := RegisterBundle(paths, modInfo, modName, sourceUrl, now, imported);
      return true, "Successfully imported " + IntToString(|imported|) + " files", info;
    }

    /** The steps of `_import_extracted_files` after a complete copy: the directives, then the registry record. */
    method RegisterBundle(paths: seq<string>, modInfo: ModInfo?, modName: string, sourceUrl: string, now: Stamp,
                          imported: seq<string>)
      returns (info: ModInfo)
      modifies this, modInfo
      ensures userChrome == WithImports(old(userChrome), paths) && chromeFiles == old(chromeFiles)
      ensures modInfo == null ==> fresh(info) && info.Record() == ModRecord(modName, Some(sourceUrl), None, now, imported, map[])
      ensures modInfo != null ==> info == modInfo &&
                                  info.Record() == old(modInfo.Record()).(files := AppendAll(old(modInfo.files), imported))
      ensures mods == R.Upsert(old(mods), info.Record())
    {
      UpdateUserChromeAll(paths);
      info := RecordBundle(modInfo, modName, sourceUrl, now, imported);
      mods := R.Upsert(mods, info.Record());
    }

    /** Where `_import_extracted_files` places each file, and the directive paths it adds. */
    static method PlanBundle(cssFiles: seq<string>, extractDir: string, bundle: string, contents: Contents)
      returns (placed: seq<string>, paths: seq<string>)
      ensures placed == PlacedOf(cssFiles, extractDir)
      ensures paths == DirectivePathsOf(bundle, cssFiles, extractDir, contents)
    {
      var rels := RelsOf(cssFiles, extractDir);
      var root := RepoRoot(rels);
      placed := StripAll(rels, root);
      var targets := SelectDirectiveFiles(cssFiles, contents);
      paths := ImportPathsFrom(bundle, StripAll(RelsOf(targets, extractDir), root));
    }

    /** The registry step of `_import_extracted_files`: a new record, or the placed paths added to the given one. */
    static method RecordBundle(modInfo: ModInfo?, modName: string, sourceUrl: string, now: Stamp, imported: seq<string>)
      returns (info: ModInfo)
      modifies modInfo
      ensures modInfo == null ==> fresh(info) && info.Record() == ModRecord(modName, Some(sourceUrl), None, now, imported, map[])
      ensures modInfo != null ==> info == modInfo &&
                                  info.Record() == old(modInfo.Record()).(files := AppendAll(old(modInfo.files), imported))
    {
      if modInfo == null {
        info := new ModInfo(modName, Some(sourceUrl), None, now, imported, map[]);
      } else {
        info := modInfo;
        var k := 0;
        while k < |imported|
          invariant k <= |imported|
          invariant info.Record() == old(modInfo.Record()).(files := AppendAll(old(modInfo.files), imported[..k]))
        {
          assert imported[..k + 1][..k] == imported[..k];
          info.AddFile(imported[k]);
          k := k + 1;
        }
        assert imported[..k] == imported;
      }
    }

    /** The loop of `remove_import` gathering the imports still in the same bundle. */
    static method RemainingImports(es: seq<ImportEntry>, modName: string) returns (remaining: seq<string>)
      ensures remaining == Remaining(es, modName)
    {
      remaining := [];
      var k := 0;
      while k < |es|
        invariant k <= |es|
        invariant remaining == Remaining(es[..k], modName)
      {
        assert es[..k + 1][..k] == es[..k];
        var imp := es[k];
        var impModName := if HasChar(imp.path, '/') then Split(imp.path, '/')[0] else imp.path;
        assert impModName == FirstSegment(imp.path) by {
          if !HasChar(imp.path, '/') {
            SplitOne(imp.path);
          }
        }
        if impModName == modName {
          remaining := remaining + [imp.path];
        }
        k := k + 1;
      }
      assert es[..k] == es;
    }

    /** `remove_import` as the program runs it (`UninstallAsWritten`). */
    method RemoveImport(importPath: string) returns (ok: bool, message: string)
      modifies this
      ensures (ok, message, State()) == UninstallAsWritten(old(State()), importPath)
    {
      ghost var s0 := State();
      var content := userChrome;
      if content.None? || content.value == "" {
        return false, NoUserChrome;
      }
      if !HasImport(content.value, importPath) {
        return false, NotFound(importPath);
      }
      var updated := Edit.RemoveImport(content.value, importPath);
      UninstallFound(s0, importPath);
      ok, message := WriteRemoval(importPath, updated);
    }

    /**
     * The rest of `remove_import` once the directive lines are cut: write the new text, and when no
     * remaining import starts with the path's first segment, delete that folder and drop the record
     * named like it (`RemovedAsWritten`).
     */
    method WriteRemoval(importPath: string, updated: string) returns (ok: bool, message: string)
      modifies this
      ensures (ok, message, State()) == RemovedAsWritten(old(State()), importPath, updated)
    {
      // The conditional of the source picks the same string either way (`ModNameOf`).
      var modName := FirstSegment(importPath);
      var folder := FM.SanitizeFilename(modName);
      userChrome := Some(updated);
      var imports := GetImports(updated);
      var remaining := RemainingImports(imports, modName);
      if remaining == [] {
        DeleteModDir(folder);
        mods := R.RemoveNamed(mods, modName);
        return true, PurgedMessage(importPath);
      }
      return true, RetainedMessage(importPath);
    }

    /**
     * `rm -rf` of the chrome folder's `folder`, then `shutil.rmtree` when that is refused: the
     * files below it go, and for "", "." or ".." the chrome folder's whole content with them.
     */
    method DeleteModDir(folder: string)
      modifies this
      ensures userChrome == if AboveBundle(folder) || folder == UserChromeName then None else old(userChrome)
      ensures chromeFiles == FilesAfterDelete(old(chromeFiles), folder) && mods == old(mods)
    {
      if AboveBundle(folder) {
        userChrome := None;
        chromeFiles := {};
      } else {
        chromeFiles := OutsideFolder(chromeFiles, folder);
        if folder == UserChromeName {
          userChrome := None;
        }
      }
    }

    /** `toggle_import`: rewrite the file and report whether the import is now enabled. */
    method ToggleImport(importPath: string) returns (ok: bool, message: string, enabled: bool)
      modifies this
      ensures (ok, message, enabled, State()) == Toggle(old(State()), importPath)
    {
      var content := userChrome;
      if content.None? || content.value == "" {
        return false, NoUserChrome, false;
      }
      if !HasImport(content.value, importPath) {
        return false, NotFound(importPath), false;
      }
      var updated := Edit.ToggleImport(content.value, importPath);
      userChrome := Some(updated);
      var imports := GetImports(updated);
      enabled := FindEnabled(imports, SamePath(Normalize(importPath)));
      return true, "Successfully toggled import", enabled;
    }
  }
}
