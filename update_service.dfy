// The update rules of src/application/update_service.py: which checker a registry record goes
// to, how each checker turns the remote answers into an `UpdateInfo`, and the guards of
// `apply_update`. The answers of the GitHub and GitLab APIs and of the HEAD request are
// parameters (`Remote`): the network is not part of this model.
module UpdateService {
  import opened Common
  import opened Strings
  import opened Json
  import opened Models
  import A = Archive
  import GL = GitLab

  // ----- results -----

  /** One changed file as the result lists it. */
  datatype FileChange = FileChange(filename: string, status: string)

  /** `diff_info`: explanatory lines, or the changed files. */
  datatype Diff = Notes(lines: seq<string>) | Files(changes: seq<FileChange>)

  /** The decision part of the result dictionary (`commit_info` and `commit_url` are display only). */
  datatype UpdateInfo = UpdateInfo(hasUpdate: bool, message: string, diff: Diff, sourceType: string)

  /** The result every checker starts from: no update, an empty diff. */
  function NoUpdate(message: string): UpdateInfo
  {
    UpdateInfo(false, message, Files([]), "")
  }

  /** What the remote side answers for one mod. */
  datatype Remote = Remote(
    githubLatest: Result<string>,                     // `get_latest_commit(...)["sha"]`
    githubCompare: Result<seq<(string, string)>>,     // (filename, status) of each changed file
    gitlabProject: Result<Json>,                      // `get_project_info(project_path)['id']`
    gitlabLatest: Result<string>,                     // `get_latest_commit(...)["id"]`
    gitlabCompare: Result<seq<(string, string)>>,     // (old_path, new_path) of each diff
    headers: Result<map<string, string>>)             // `get_url_headers(source_url)`

  // ----- check_for_updates -----

  datatype SourceType = GithubType | GitlabType | DirectType | UnknownType

  /** The `source_type` string the result carries. */
  function SourceName(t: SourceType): string
  {
    match t
    case GithubType => "github"
    case GitlabType => "gitlab"
    case DirectType => "direct"
    case UnknownType => "unknown"
  }

  /** Which checker a record goes to: none without a source URL, then github, gitlab, direct by substring. */
  function SourceOf(url: Option<string>): (t: SourceType)
    ensures t == UnknownType <==> url.None? || url.value == ""
    ensures t == GithubType <==> url.Some? && url.value != "" && Contains(url.value, "github.com")
    ensures t == GitlabType ==> Contains(url.value, "gitlab.com") && !Contains(url.value, "github.com")
  {
    if url.None? || url.value == "" then UnknownType
    else if Contains(url.value, "github.com") then GithubType
    else if Contains(url.value, "gitlab.com") then GitlabType
    else DirectType
  }

  /** The check of one record, tagged with its source type. */
  function CheckMod(m: ModRecord, remote: Remote): (u: UpdateInfo)
    ensures u.sourceType == SourceName(SourceOf(m.sourceUrl))
    ensures SourceOf(m.sourceUrl) == UnknownType ==> u == UpdateInfo(false, "No source URL", Files([]), "unknown")
  {
    match SourceOf(m.sourceUrl)
    case UnknownType => UpdateInfo(false, "No source URL", Files([]), "unknown")
    case GithubType => GithubCheck(m.metadata, m.sourceUrl.value, remote).(sourceType := "github")
    case GitlabType => GitlabCheck(m.metadata, m.sourceUrl.value, remote).(sourceType := "gitlab")
    case DirectType => DirectCheck(m.metadata, remote.headers).(sourceType := "direct")
  }

  /** The check `check_for_updates` runs on one record. */
  function Checker(remote: ModRecord -> Remote): ModRecord -> UpdateInfo
  {
    m => CheckMod(m, remote(m))
  }

  /** The map after the first `n` records: later records overwrite earlier ones of the same name. */
  function Keyed(mods: seq<ModRecord>, check: ModRecord -> UpdateInfo, n: nat): map<string, UpdateInfo>
    requires n <= |mods|
  {
    if n == 0 then map[]
    else Keyed(mods, check, n - 1)[mods[n - 1].name := check(mods[n - 1])]
  }

  /** `results` of `check_for_updates`. */
  function ResultsOf(mods: seq<ModRecord>, remote: ModRecord -> Remote): map<string, UpdateInfo>
  {
    Keyed(mods, Checker(remote), |mods|)
  }

  /** The index of the last of the first `n` records named `name`. */
  function LastNamed(mods: seq<ModRecord>, name: string, n: nat): (i: int)
    requires n <= |mods|
    ensures -1 <= i < n
    ensures i >= 0 ==> mods[i].name == name
    ensures forall j :: i < j < n ==> mods[j].name != name
  {
    if n == 0 then -1
    else if mods[n - 1].name == name then n - 1
    else LastNamed(mods, name, n - 1)
  }

  lemma {:induction false} KeyedSpec(mods: seq<ModRecord>, check: ModRecord -> UpdateInfo, n: nat, name: string)
    requires n <= |mods|
    ensures name in Keyed(mods, check, n) <==> LastNamed(mods, name, n) >= 0
    ensures name in Keyed(mods, check, n) ==> Keyed(mods, check, n)[name] == check(mods[LastNamed(mods, name, n)])
    decreases n
  {
    if n > 0 {
      KeyedSpec(mods, check, n - 1, name);
    }
  }

  /** Every record's name is a key, and its value is the check of the LAST record of that name. */
  lemma ResultsSpec(mods: seq<ModRecord>, remote: ModRecord -> Remote, name: string)
    ensures name in ResultsOf(mods, remote) <==> exists m :: m in mods && m.name == name
    ensures name in ResultsOf(mods, remote) ==>
            var i := LastNamed(mods, name, |mods|);
            ResultsOf(mods, remote)[name] == CheckMod(mods[i], remote(mods[i]))
  {
    KeyedSpec(mods, Checker(remote), |mods|, name);
    var i := LastNamed(mods, name, |mods|);
    if exists m :: m in mods && m.name == name {
      var m :| m in mods && m.name == name;
      var j :| 0 <= j < |mods| && mods[j] == m;
      assert i >= j;
    }
  }

  /** `check_for_updates`: check every registered mod. */
  method CheckForUpdates(mods: seq<ModRecord>, remote: ModRecord -> Remote) returns (results: map<string, UpdateInfo>)
    ensures results == ResultsOf(mods, remote)
  {
    results := CheckAll(mods, Checker(remote));
  }

  /** The loop of `check_for_updates`: `results[mod.name] = check(mod)` for each record in turn. */
  method CheckAll(mods: seq<ModRecord>, check: ModRecord -> UpdateInfo) returns (results: map<string, UpdateInfo>)
    ensures results == Keyed(mods, check, |mods|)
  {
    results := map[];
    var k := 0;
    while k < |mods|
      invariant k <= |mods|
      invariant results == Keyed(mods, check, k)
    {
      var m := mods[k];
      results := results[m.name := check(m)];
      k := k + 1;
    }
  }

  // ----- the change classification shared by both repository checkers -----

  /** Each changed file with whether it counts as a CSS change. */
  type Classified = seq<(FileChange, bool)>

  /** `all_files_changed`. */
  function AllOf(cs: Classified): (r: seq<FileChange>)
    ensures |r| == |cs| && forall k :: 0 <= k < |cs| ==> r[k] == cs[k].0
  {
    seq(|cs|, k requires 0 <= k < |cs| => cs[k].0)
  }

  /** `css_files_changed`, in order. */
  function CssOf(cs: Classified): (r: seq<FileChange>)
    ensures |r| <= |cs|
    ensures forall f :: f in r <==> exists k :: 0 <= k < |cs| && cs[k].1 && cs[k].0 == f
    ensures r == [] <==> forall k :: 0 <= k < |cs| ==> !cs[k].1
    decreases |cs|
  {
    if cs == [] then []
    else
      var last := cs[|cs| - 1];
      var front := CssOf(cs[..|cs| - 1]);
      assert forall k :: 0 <= k < |cs| - 1 ==> cs[..|cs| - 1][k] == cs[k];
      front + (if last.1 then [last.0] else [])
  }

  /** The loop of both checkers that fills `css_files_changed` and `all_files_changed`. */
  method Classify(cs: Classified) returns (css: seq<FileChange>, all: seq<FileChange>)
    ensures css == CssOf(cs) && all == AllOf(cs)
  {
    css, all := [], [];
    var k := 0;
    while k < |cs|
      invariant k <= |cs|
      invariant css == CssOf(cs[..k]) && all == AllOf(cs[..k])
    {
      assert cs[..k + 1][..k] == cs[..k];
      all := all + [cs[k].0];
      if cs[k].1 {
        css := css + [cs[k].0];
      }
      k := k + 1;
    }
    assert cs[..k] == cs;
  }

  /** The names of the changed files that do not end in ".css". */
  function NonCssNames(all: seq<FileChange>): seq<string>
    decreases |all|
  {
    if all == [] then []
    else
      var last := all[|all| - 1];
      NonCssNames(all[..|all| - 1]) + (if A.IsCss(last.filename) then [] else [last.filename])
  }

  /** "No CSS changes (only a, b, c...)": the first three non-CSS names, and "..." past three. */
  function NoCssMessage(all: seq<FileChange>): (m: string)
    ensures StartsWith(m, "No CSS changes (only ") && m[|m| - 1] == ')'
    ensures |NonCssNames(all)| > 3 ==> EndsWith(m, "...)")
  {
    var names := NonCssNames(all);
    "No CSS changes (only " + Join(if |names| > 3 then names[..3] else names, ", ") +
    (if |names| > 3 then "..." else "") + ")"
  }

  const InitialNote := ["Initial version - no previous version to compare"]
  const NoDetailNote := ["Could not retrieve detailed file changes"]
  const NoDetailSuffix := " available (could not check file changes)"
  const NoMeaningfulChanges := "No meaningful changes detected"

  /**
   * What both repository checkers decide once the latest commit `sha` is known: up to date when
   * the stored commit is it, an update when none is stored or the comparison failed, and
   * otherwise an update exactly when some change counts as CSS.
   */
  function Decide(metadata: map<string, Json>, sha: string, comparison: Result<Classified>): (u: UpdateInfo)
    ensures "latest_commit" in metadata && metadata["latest_commit"] == JStr(sha) ==>
            u == NoUpdate("Already up to date (v" + Take(sha, 8) + ")")
    ensures "latest_commit" !in metadata ==>
            u == UpdateInfo(true, "Version " + Take(sha, 8) + " available",
                            Notes(InitialNote), "")
    ensures "latest_commit" in metadata && metadata["latest_commit"] != JStr(sha) && comparison.Err? ==>
            u == UpdateInfo(true, "Version " + Take(sha, 8) + NoDetailSuffix,
                            Notes(NoDetailNote), "")
    ensures "latest_commit" in metadata && metadata["latest_commit"] != JStr(sha) && comparison.Ok? ==>
            (u.hasUpdate <==> exists k :: 0 <= k < |comparison.value| && comparison.value[k].1) &&
            u.diff == Files(if u.hasUpdate then CssOf(comparison.value) else AllOf(comparison.value))
  {
    if "latest_commit" in metadata && metadata["latest_commit"] == JStr(sha) then
      NoUpdate("Already up to date (v" + Take(sha, 8) + ")")
    else if "latest_commit" !in metadata then
      UpdateInfo(true, "Version " + Take(sha, 8) + " available",
                 Notes(InitialNote), "")
    else
      match comparison
      case Err(_) =>
        UpdateInfo(true, "Version " + Take(sha, 8) + NoDetailSuffix,
                   Notes(NoDetailNote), "")
      case Ok(cs) =>
        var css := CssOf(cs);
        var all := AllOf(cs);
        if css != [] then
          UpdateInfo(true, "CSS changes in v" + Take(sha, 8) + " (" + NatToString(|css|) + " CSS files modified)",
                     Files(css), "")
        else
          UpdateInfo(false, if all != [] then NoCssMessage(all) else NoMeaningfulChanges, Files(all), "")
  }

  // ----- _check_github_update -----

  /** Where a GitHub mod is fetched from; the values are whatever the metadata holds. */
  datatype GithubRepo = GithubRepo(owner: Json, repo: Json, branch: Json)

  /** owner, repo and branch from the '/'-separated parts after "github.com/". */
  function RepoFromParts(parts: seq<string>): (r: Result<GithubRepo>)
    ensures r.Err? <==> |parts| < 2
    ensures r.Ok? ==> r.value.owner == JStr(parts[0]) && r.value.repo == JStr(parts[1])
    ensures r.Ok? ==> r.value.branch == JStr(if |parts| > 3 && parts[2] in ["blob", "tree"] then parts[3] else "main")
  {
    if |parts| < 2 then Fail(ValidationError, "Invalid GitHub URL format")
    else
      var branch := if |parts| > 3 && parts[2] in ["blob", "tree"] then parts[3] else "main";
      Ok(GithubRepo(JStr(parts[0]), JStr(parts[1]), JStr(branch)))
  }

  /** The repository a GitHub mod is checked against: from its metadata when typed "github", else from its URL. */
  function GithubTarget(metadata: map<string, Json>, url: string): (r: Result<GithubRepo>)
    ensures r.Err? ==> r.error.kind == ValidationError
    ensures Get(metadata, "type", JNull) == JStr("github") ==>
              (r.Ok? <==> Truthy(Get(metadata, "owner", JNull)) && Truthy(Get(metadata, "repo", JNull)))
    ensures Get(metadata, "type", JNull) != JStr("github") && !Contains(url, "github.com/") ==> r.Err?
  {
    if Get(metadata, "type", JNull) != JStr("github") then
      var i := FindSub(url, "github.com/", 0);
      if i < 0 then Fail(ValidationError, "Failed to parse GitHub URL")
      else RepoFromParts(Split(url[i + 11..], '/'))
    else
      var owner := Get(metadata, "owner", JNull);
      var repo := Get(metadata, "repo", JNull);
      if !(Truthy(owner) && Truthy(repo)) then Fail(ValidationError, "Incomplete GitHub metadata")
      else Ok(GithubRepo(owner, repo, Get(metadata, "branch", JStr("main"))))
  }

  /** A URL of the form `.../owner/repo/tree/branch` names that branch (and `.../blob/branch/...` likewise). */
  lemma {:induction false} TreeUrlBranch(owner: string, repo: string, kind: string, branch: string)
    requires kind in ["blob", "tree"]
    requires !HasChar(owner, '/') && !HasChar(repo, '/') && !HasChar(branch, '/')
    ensures RepoFromParts(Split(Join([owner, repo, kind, branch], "/"), '/')) ==
            Ok(GithubRepo(JStr(owner), JStr(repo), JStr(branch)))
  {
    assert !HasChar(kind, '/') by {
      if kind == "blob" {
        assert kind == ['b', 'l', 'o', 'b'];
      } else {
        assert kind == ['t', 'r', 'e', 'e'];
      }
    }
    var parts := [owner, repo, kind, branch];
    SplitJoin(parts, '/');
  }

  /** The GitHub checker's classification: a change counts when its filename ends in ".css". */
  function GithubClassified(files: seq<(string, string)>): (cs: Classified)
    ensures |cs| == |files|
    ensures forall k :: 0 <= k < |cs| ==> cs[k] == (FileChange(files[k].0, files[k].1), A.IsCss(files[k].0))
  {
    seq(|files|, k requires 0 <= k < |files| => (FileChange(files[k].0, files[k].1), A.IsCss(files[k].0)))
  }

  /** `_check_github_update`. */
  function GithubCheck(metadata: map<string, Json>, url: string, remote: Remote): (u: UpdateInfo)
    ensures u.hasUpdate ==> GithubTarget(metadata, url).Ok? && remote.githubLatest.Ok?
    ensures u.hasUpdate ==> "latest_commit" !in metadata || metadata["latest_commit"] != JStr(remote.githubLatest.value)
  {
    match GithubTarget(metadata, url)
    case Err(e) => NoUpdate(e.message)
    case Ok(_) =>
      match remote.githubLatest
      case Err(e) => NoUpdate("Update check failed: " + e.message)
      case Ok(sha) =>
        Decide(metadata, sha, match remote.githubCompare
                              case Err(e) => Err(e)
                              case Ok(files) => Ok(GithubClassified(files)))
  }

  /**
   * With a stored commit other than the latest and a comparison in hand, a GitHub mod has an
   * update exactly when some changed filename ends in ".css" (any case), and the diff lists the
   * CSS files then, all changed files otherwise.
   */
  lemma GithubCssRule(metadata: map<string, Json>, url: string, remote: Remote)
    requires GithubTarget(metadata, url).Ok? && remote.githubLatest.Ok? && remote.githubCompare.Ok?
    requires "latest_commit" in metadata && metadata["latest_commit"] != JStr(remote.githubLatest.value)
    ensures var files := remote.githubCompare.value;
            var u := GithubCheck(metadata, url, remote);
            (u.hasUpdate <==> exists k :: 0 <= k < |files| && A.IsCss(files[k].0)) &&
            u.diff == Files(if u.hasUpdate then CssOf(GithubClassified(files)) else AllOf(GithubClassified(files)))
  {
    var files := remote.githubCompare.value;
    var cs := GithubClassified(files);
    if exists k :: 0 <= k < |files| && A.IsCss(files[k].0) {
      var k :| 0 <= k < |files| && A.IsCss(files[k].0);
      assert cs[k].1;
    }
  }

  /** A stored commit equal to the latest means no update; no stored commit means an update. */
  lemma GithubStoredCommit(metadata: map<string, Json>, url: string, remote: Remote)
    requires GithubTarget(metadata, url).Ok? && remote.githubLatest.Ok?
    ensures var sha := remote.githubLatest.value;
            ("latest_commit" in metadata && metadata["latest_commit"] == JStr(sha) ==>
               !GithubCheck(metadata, url, remote).hasUpdate) &&
            ("latest_commit" !in metadata ==> GithubCheck(metadata, url, remote).hasUpdate)
  {
  }

  // ----- _check_gitlab_update -----

  /** The status and displayed name of one GitLab diff, from its old and new paths. */
  function DiffStatus(oldPath: string, newPath: string): (f: FileChange)
    ensures oldPath == "/dev/null" ==> f == FileChange(newPath, "added")
    ensures oldPath != "/dev/null" && newPath == "/dev/null" ==> f == FileChange(oldPath, "removed")
    ensures oldPath != "/dev/null" && newPath != "/dev/null" && oldPath != newPath ==>
            f == FileChange(oldPath + " → " + newPath, "renamed")
    ensures oldPath != "/dev/null" && newPath != "/dev/null" && oldPath == newPath ==> f == FileChange(newPath, "modified")
  {
    if oldPath == "/dev/null" then FileChange(newPath, "added")
    else if newPath == "/dev/null" then FileChange(oldPath, "removed")
    else if oldPath != newPath then FileChange(oldPath + " → " + newPath, "renamed")
    else FileChange(newPath, "modified")
  }

  /** A GitLab diff counts as CSS when its displayed name or its new path ends in ".css". */
  predicate GitlabCss(oldPath: string, newPath: string)
  {
    A.IsCss(DiffStatus(oldPath, newPath).filename) || (newPath != "" && A.IsCss(newPath))
  }

  /** A diff whose new path is a stylesheet counts, whatever its status. */
  lemma GitlabNewCssCounts(oldPath: string, newPath: string)
    requires A.IsCss(newPath)
    ensures GitlabCss(oldPath, newPath)
  {
  }

  /** A stylesheet that is deleted counts too: its displayed name is the old path. */
  lemma {:induction false} GitlabRemovedCssCounts(oldPath: string)
    requires A.IsCss(oldPath) && oldPath != "/dev/null"
    ensures GitlabCss(oldPath, "/dev/null")
  {
    assert DiffStatus(oldPath, "/dev/null").filename == oldPath;
  }

  function GitlabClassified(diffs: seq<(string, string)>): (cs: Classified)
    ensures |cs| == |diffs|
    ensures forall k :: 0 <= k < |cs| ==>
              cs[k] == (DiffStatus(diffs[k].0, diffs[k].1), GitlabCss(diffs[k].0, diffs[k].1))
  {
    seq(|diffs|, k requires 0 <= k < |diffs| =>
          (DiffStatus(diffs[k].0, diffs[k].1), GitlabCss(diffs[k].0, diffs[k].1)))
  }

  /** The GitLab project a mod is checked against: its metadata's project id, or the one its URL names. */
  function GitlabTarget(metadata: map<string, Json>, url: string, project: Result<Json>): (r: Result<Json>)
    ensures r.Err? ==> r.error.kind == ValidationError
    ensures Get(metadata, "type", JNull) == JStr("gitlab") ==> (r.Ok? <==> Truthy(Get(metadata, "project_id", JNull)))
    ensures Get(metadata, "type", JNull) != JStr("gitlab") ==> (r.Ok? <==> GL.ParseGitlabUrl(url).Ok? && project.Ok?)
  {
    if Get(metadata, "type", JNull) != JStr("gitlab") then
      match GL.ParseGitlabUrl(url)
      case Err(e) => Fail(ValidationError, "Failed to parse GitLab URL: " + e.message)
      case Ok(_) =>
        match project
        case Err(e) => Fail(ValidationError, "Failed to parse GitLab URL: " + e.message)
        case Ok(id) => Ok(id)
    else
      var id := Get(metadata, "project_id", JNull);
      if !Truthy(id) then Fail(ValidationError, "Incomplete GitLab metadata") else Ok(id)
  }

  /** `_check_gitlab_update`. */
  function GitlabCheck(metadata: map<string, Json>, url: string, remote: Remote): (u: UpdateInfo)
    ensures u.hasUpdate ==> GitlabTarget(metadata, url, remote.gitlabProject).Ok? && remote.gitlabLatest.Ok?
    ensures u.hasUpdate ==> "latest_commit" !in metadata || metadata["latest_commit"] != JStr(remote.gitlabLatest.value)
  {
    match GitlabTarget(metadata, url, remote.gitlabProject)
    case Err(e) => NoUpdate(e.message)
    case Ok(_) =>
      match remote.gitlabLatest
      case Err(e) => NoUpdate("Update check failed: " + e.message)
      case Ok(sha) =>
        Decide(metadata, sha, match remote.gitlabCompare
                              case Err(e) => Err(e)
                              case Ok(diffs) => Ok(GitlabClassified(diffs)))
  }

  /** The GitLab counterpart of `GithubCssRule`, with the GitLab notion of a CSS change. */
  lemma GitlabCssRule(metadata: map<string, Json>, url: string, remote: Remote)
    requires GitlabTarget(metadata, url, remote.gitlabProject).Ok? && remote.gitlabLatest.Ok? && remote.gitlabCompare.Ok?
    requires "latest_commit" in metadata && metadata["latest_commit"] != JStr(remote.gitlabLatest.value)
    ensures var diffs := remote.gitlabCompare.value;
            var u := GitlabCheck(metadata, url, remote);
            (u.hasUpdate <==> exists k :: 0 <= k < |diffs| && GitlabCss(diffs[k].0, diffs[k].1)) &&
            u.diff == Files(if u.hasUpdate then CssOf(GitlabClassified(diffs)) else AllOf(GitlabClassified(diffs)))
  {
    var diffs := remote.gitlabCompare.value;
    var cs := GitlabClassified(diffs);
    if exists k :: 0 <= k < |diffs| && GitlabCss(diffs[k].0, diffs[k].1) {
      var k :| 0 <= k < |diffs| && GitlabCss(diffs[k].0, diffs[k].1);
      assert cs[k].1;
    }
  }

  // ----- _check_direct_update -----

  /** `headers.get(name)` read for truthiness: a missing header is the empty string. */
  function Header(headers: map<string, string>, name: string): string
  {
    if name in headers then headers[name] else ""
  }

  const NoPreviousVersion := "No previous version information available"
  const EtagChanged := "New version available (ETag changed)"
  const LastModifiedChanged := "New version available (Last-Modified changed)"
  const DirectNote := ["Content has changed, but detailed diff information is not available for direct URLs"]

  /** `_check_direct_update`: compare the stored ETag, then the stored Last-Modified, with the current headers. */
  function DirectCheck(metadata: map<string, Json>, headers: Result<map<string, string>>): (u: UpdateInfo)
    ensures !Truthy(Get(metadata, "etag", JNull)) && !Truthy(Get(metadata, "last_modified", JNull)) ==>
              u == NoUpdate(NoPreviousVersion)
    ensures u.hasUpdate ==> headers.Ok? && u.diff == Notes(DirectNote) && u.message in {EtagChanged, LastModifiedChanged}
  {
    var etag := Get(metadata, "etag", JNull);
    var lastModified := Get(metadata, "last_modified", JNull);
    if !(Truthy(etag) || Truthy(lastModified)) then NoUpdate(NoPreviousVersion)
    else
      match headers
      case Err(e) => NoUpdate("Update check failed: " + e.message)
      case Ok(h) =>
        var newEtag := Header(h, "ETag");
        var newLastModified := Header(h, "Last-Modified");
        var note := Notes(DirectNote);
        if Truthy(etag) && newEtag != "" && etag != JStr(newEtag) then
          UpdateInfo(true, EtagChanged, note, "")
        else if Truthy(lastModified) && newLastModified != "" && lastModified != JStr(newLastModified) then
          UpdateInfo(true, LastModifiedChanged, note, "")
        else NoUpdate("Already up to date")
  }

  /**
   * The direct-URL rule: an update exactly when something was stored, the headers were read,
   * and a stored ETag or Last-Modified differs from a present header of that name.
   */
  lemma DirectRule(metadata: map<string, Json>, headers: Result<map<string, string>>)
    ensures var etag := Get(metadata, "etag", JNull);
            var lastModified := Get(metadata, "last_modified", JNull);
            DirectCheck(metadata, headers).hasUpdate <==>
              headers.Ok? &&
              ((Truthy(etag) && Header(headers.value, "ETag") != "" && etag != JStr(Header(headers.value, "ETag"))) ||
               (Truthy(lastModified) && Header(headers.value, "Last-Modified") != "" &&
                lastModified != JStr(Header(headers.value, "Last-Modified"))))
  {
  }

  // ----- apply_update -----

  /**
   * The guards of `apply_update`: the registry lookup, the source URL, and the check for the
   * mod's source. `Ok(t)` means the `_apply_*` step for source `t` runs; any `Err` returns
   * before any file is touched.
   */
  function ApplyGuard(name: string, mod: Option<ModRecord>, remote: Remote): (r: Result<SourceType>)
    ensures r.Ok? <==> mod.Some? && SourceOf(mod.value.sourceUrl) != UnknownType && CheckMod(mod.value, remote).hasUpdate
    ensures r.Ok? ==> r.value == SourceOf(mod.value.sourceUrl)
    ensures mod.None? ==> r == Fail(ValidationError, "Mod not found: " + name)
    ensures mod.Some? && SourceOf(mod.value.sourceUrl) == UnknownType ==> r == Fail(ValidationError, "No source URL for this mod")
    ensures mod.Some? && SourceOf(mod.value.sourceUrl) != UnknownType && !CheckMod(mod.value, remote).hasUpdate ==>
            r == Fail(ValidationError, "Already up to date")
  {
    if mod.None? then Fail(ValidationError, "Mod not found: " + name)
    else if mod.value.sourceUrl.None? || mod.value.sourceUrl.value == "" then Fail(ValidationError, "No source URL for this mod")
    else if !CheckMod(mod.value, remote).hasUpdate then Fail(ValidationError, "Already up to date")
    else Ok(SourceOf(mod.value.sourceUrl))
  }
}
