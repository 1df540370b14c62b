// The URL logic of src/infrastructure/gitlab_api.py: the instance prefix, the archive URL
// and `parse_gitlab_url`. The HTTP requests of the class are not part of this model.
module GitLab {
  import opened Common
  import opened Strings
  import opened Paths
  import opened Url

  /** A `GitLabApi` object, reduced to the instance URL its requests are built on. */
  datatype GitLabApi = GitLabApi(instance: string)

  /** `GitLabApi(instance)`: the instance with its trailing '/' characters removed. */
  function NewGitLabApi(instance: string): (api: GitLabApi)
    ensures StartsWith(instance, api.instance)
    ensures api.instance == [] || api.instance[|api.instance| - 1] != '/'
    ensures forall k :: |api.instance| <= k < |instance| ==> instance[k] == '/'
  {
    GitLabApi(RStripSlashes(instance))
  }

  const DefaultInstance: string := "https://gitlab.com"

  /** Building an API object over an instance that has already been trimmed changes nothing. */
  lemma {:induction false} NewGitLabApiTrimmed(instance: string)
    ensures NewGitLabApi(NewGitLabApi(instance).instance) == NewGitLabApi(instance)
  {
    var t := RStripSlashes(instance);
    assert t == [] || t[|t| - 1] != '/';
  }

  /** `get_download_url(project_id, ref)`. */
  function GetDownloadUrl(api: GitLabApi, projectId: int, ref: string): (url: string)
    ensures StartsWith(url, api.instance + "/api/v4/projects/")
    ensures EndsWith(url, "/repository/archive.zip?ref=" + ref)
  {
    var head := api.instance + "/api/v4/projects/";
    var tail := "/repository/archive.zip?ref=" + ref;
    var url := head + IntToString(projectId) + tail;
    assert url[..|head|] == head;
    assert url[|url| - |tail|..] == tail;
    url
  }

  /** The archive path of a project, as `urlparse` reports it. */
  function ArchivePath(projectId: nat): string
  {
    "/api/v4/projects/" + NatToString(projectId) + "/repository/archive.zip"
  }

  /** `urlparse` finds the instance's host, the archive path and the `ref` query in the download URL. */
  lemma {:induction false} DownloadUrlParses(scheme: string, host: string, projectId: nat, ref: string)
    requires scheme in ["http", "https"] && PlainHost(host) && !HasChar(ref, '#')
    ensures UrlParse(GetDownloadUrl(NewGitLabApi(scheme + "://" + host), projectId, ref))
            == Ok(ParsedUrl(scheme, host, ArchivePath(projectId), "", "ref=" + DropUnsafe(ref), ""))
  {
    var instance := scheme + "://" + host;
    TrimmedInstance(scheme, host);
    var query := "ref=" + ref;
    forall k | 0 <= k < |query| ensures query[k] != '#' {
      if k >= 4 {
        assert query[k] == ref[k - 4];
      }
    }
    ArchivePathPlain(projectId);
    DownloadUrlShape(instance, projectId, ref);
    ParseComposedQuery(scheme, host, ArchivePath(projectId), query);
    RefQueryClean(ref);
  }

  lemma {:induction false} RefQueryClean(ref: string)
    ensures DropUnsafe("ref=" + ref) == "ref=" + DropUnsafe(ref)
  {
    DropUnsafeAppend("ref=", ref);
    DropUnsafeSafe("ref=");
  }

  lemma {:induction false} TrimmedInstance(scheme: string, host: string)
    requires PlainHost(host)
    ensures NewGitLabApi(scheme + "://" + host) == GitLabApi(scheme + "://" + host)
  {
    var instance := scheme + "://" + host;
    assert host[|host| - 1] != '/' by {
      assert host[|host| - 1] in host;
    }
    assert instance[|instance| - 1] == host[|host| - 1];
  }

  lemma {:induction false} DownloadUrlShape(instance: string, projectId: nat, ref: string)
    ensures GetDownloadUrl(GitLabApi(instance), projectId, ref) == instance + (ArchivePath(projectId) + "?" + ("ref=" + ref))
  {
  }

  lemma {:induction false} ArchivePathPlain(projectId: nat)
    ensures PlainPath(ArchivePath(projectId))
  {
    var digits := NatToString(projectId);
    var p := ArchivePath(projectId);
    var a := "/api/v4/projects/";
    var b := "/repository/archive.zip";
    assert p == a + digits + b;
    forall k | 0 <= k < |p| ensures p[k] != '?' && p[k] != '#' && p[k] != ';' && !Unsafe(p[k]) {
      if k < |a| {
        assert p[k] == a[k];
      } else if k < |a| + |digits| {
        assert p[k] == digits[k - |a|];
      } else {
        assert p[k] == b[k - |a| - |digits|];
      }
    }
  }

  // ----- parse_gitlab_url -----

  /** The dictionary `parse_gitlab_url` returns. */
  datatype GitLabProject = GitLabProject(instance: string, projectPath: string, branch: string, filePath: Option<string>)

  /** `[p for p in parts if p]`. */
  function NonEmptyParts(parts: seq<string>): (r: seq<string>)
    ensures forall k :: 0 <= k < |r| ==> r[k] != ""
    ensures forall x :: x in r <==> x in parts && x != ""
    decreases |parts|
  {
    if parts == [] then []
    else (if parts[0] == "" then [] else [parts[0]]) + NonEmptyParts(parts[1..])
  }

  /** The non-empty '/'-separated segments of a path. */
  function Segments(path: string): (r: seq<string>)
    ensures forall k :: 0 <= k < |r| ==> r[k] != "" && !HasChar(r[k], '/')
  {
    var parts := Split(path, '/');
    var r := NonEmptyParts(parts);
    assert forall k :: 0 <= k < |r| ==> r[k] in parts;
    r
  }

  /** Python's `parts[a:b]` for `0 <= a <= b`: the bounds are clamped to the length. */
  function Slice(parts: seq<string>, a: nat, b: nat): (r: seq<string>)
    requires a <= b
  {
    if b <= |parts| then parts[a..b] else if a <= |parts| then parts[a..] else []
  }

  /**
   * The project path, branch and file path that `parse_gitlab_url` reads off the segments:
   * the project is two segments ('-' first skips one), the branch follows "blob" or "tree"
   * in the third segment, and a "blob" URL names the file with all remaining segments.
   */
  function ProjectOf(instance: string, parts: seq<string>): (g: GitLabProject)
    requires |parts| >= 2 && forall k :: 0 <= k < |parts| ==> !HasChar(parts[k], '/')
    ensures g.instance == instance
    ensures parts[0] != "-" ==> Split(g.projectPath, '/') == parts[..2]
    ensures parts[0] == "-" ==> Split(g.projectPath, '/') == Slice(parts, 1, 3)
    ensures g.branch == (if |parts| > 3 && parts[2] in ["blob", "tree"] then parts[3] else "main")
    ensures g.filePath.Some? <==> |parts| > 4 && parts[2] == "blob"
    ensures g.filePath.Some? ==> Split(g.filePath.value, '/') == parts[4..]
  {
    var project := if parts[0] == "-" then Slice(parts, 1, 3) else parts[..2];
    SplitJoin(project, '/');
    var branch := if |parts| > 3 && (parts[2] == "blob" || parts[2] == "tree") then parts[3] else "main";
    var file := if |parts| > 4 && parts[2] == "blob" then Some(Join(parts[4..], "/")) else None;
    assert file.Some? ==> Split(file.value, '/') == parts[4..] by {
      if file.Some? {
        SplitJoin(parts[4..], '/');
      }
    }
    GitLabProject(instance, Join(project, "/"), branch, file)
  }

  /**
   * `parse_gitlab_url(url)`. Every failure is a `DownloadError`: "Not a GitLab URL" without
   * the word "gitlab", and otherwise the wrapped message of the `urlparse` error or of the
   * "Invalid GitLab URL format" raised for fewer than two segments.
   */
  function ParseGitlabUrl(url: string): (r: Result<GitLabProject>)
    ensures r.Err? ==> r.error.kind == DownloadError
    ensures !Contains(url, "gitlab") ==> r == Fail(DownloadError, "Not a GitLab URL")
    ensures Contains(url, "gitlab") && UrlParse(url).Err? ==>
              r == Fail(DownloadError, "Failed to parse GitLab URL: " + UrlParse(url).error.message)
    ensures r.Ok? <==> Contains(url, "gitlab") && UrlParse(url).Ok? && |Segments(UrlParse(url).value.path)| >= 2
    ensures r.Ok? ==> r.value == ProjectOf(UrlParse(url).value.scheme + "://" + UrlParse(url).value.netloc,
                                           Segments(UrlParse(url).value.path))
  {
    if !Contains(url, "gitlab") then Fail(DownloadError, "Not a GitLab URL")
    else
      match UrlParse(url)
      case Err(e) => Fail(DownloadError, "Failed to parse GitLab URL: " + e.message)
      case Ok(parsed) =>
        var parts := Segments(parsed.path);
        if |parts| < 2 then Fail(DownloadError, "Failed to parse GitLab URL: Invalid GitLab URL format")
        else Ok(ProjectOf(parsed.scheme + "://" + parsed.netloc, parts))
  }

  /** A path segment as the program's URLs write it: non-empty, with no separator or special character. */
  predicate PlainSegment(s: string)
  {
    s != "" && Safe(s) && !HasChar(s, '/') && !HasChar(s, '?') && !HasChar(s, '#') && !HasChar(s, ';')
  }

  /**
   * A blob URL built from its pieces parses back into them: the instance, the two-segment
   * project path, the branch and the file path.
   */
  lemma {:induction false} ParseBlobUrl(scheme: string, host: string, group: string, project: string,
                                        branch: string, file: seq<string>)
    requires scheme in ["http", "https"] && PlainHost(host) && Contains(host, "gitlab") && group != "-"
    requires PlainSegment(group) && PlainSegment(project) && PlainSegment(branch)
    requires forall k :: 0 <= k < |file| ==> PlainSegment(file[k])
    ensures ParseGitlabUrl(scheme + "://" + host + ("/" + Join([group, project, "blob", branch] + file, "/")))
            == Ok(GitLabProject(scheme + "://" + host, group + "/" + project, branch,
                                if file == [] then None else Some(Join(file, "/"))))
  {
    var parts := [group, project, "blob", branch] + file;
    forall k | 0 <= k < |parts| ensures PlainSegment(parts[k]) {
      if k >= 4 {
        assert parts[k] == file[k - 4];
      }
    }
    ParsePlainUrl(scheme, host, parts);
    BlobProject(scheme + "://" + host, group, project, branch, file, parts);
  }

  /** A URL whose path is made of plain segments parses to what `ProjectOf` reads off them. */
  lemma {:induction false} ParsePlainUrl(scheme: string, host: string, parts: seq<string>)
    requires scheme in ["http", "https"] && PlainHost(host) && Contains(host, "gitlab")
    requires |parts| >= 2
    requires forall k :: 0 <= k < |parts| ==>
               parts[k] != "" && Safe(parts[k]) && !HasChar(parts[k], '/') && !HasChar(parts[k], '?')
               && !HasChar(parts[k], '#') && !HasChar(parts[k], ';')
    ensures ParseGitlabUrl(scheme + "://" + host + ("/" + Join(parts, "/"))) == Ok(ProjectOf(scheme + "://" + host, parts))
  {
    var path := "/" + Join(parts, "/");
    PlainSegmentsPath(parts);
    ContainsWithin(scheme + "://", host, path, "gitlab");
    ParseComposed(scheme, host, path);
    SegmentsOfPath(parts);
  }

  lemma {:induction false} BlobProject(instance: string, group: string, project: string, branch: string,
                                       file: seq<string>, parts: seq<string>)
    requires group != "-" && parts == [group, project, "blob", branch] + file
    requires forall k :: 0 <= k < |parts| ==> !HasChar(parts[k], '/')
    ensures ProjectOf(instance, parts)
            == GitLabProject(instance, group + "/" + project, branch, if file == [] then None else Some(Join(file, "/")))
  {
    assert parts[..2] == [group, project] && parts[0] == group && parts[2] == "blob" && parts[3] == branch;
    assert parts[4..] == file;
    JoinTwoParts(group, project);
  }

  lemma {:induction false} JoinTwoParts(a: string, b: string)
    ensures Join([a, b], "/") == a + "/" + b
  {
    assert [a, b][1..] == [b];
  }

  /** '/' before a join of plain segments is a path `urlparse` leaves whole. */
  lemma {:induction false} PlainSegmentsPath(parts: seq<string>)
    requires forall k :: 0 <= k < |parts| ==> PlainSegment(parts[k])
    ensures PlainPath("/" + Join(parts, "/"))
  {
    var j := Join(parts, "/");
    JoinNoChar(parts, '/', '?');
    JoinNoChar(parts, '/', '#');
    JoinNoChar(parts, '/', ';');
    JoinNoChar(parts, '/', '\t');
    JoinNoChar(parts, '/', '\r');
    JoinNoChar(parts, '/', '\n');
    var p := "/" + j;
    forall k | 0 <= k < |p| ensures p[k] != '?' && p[k] != '#' && p[k] != ';' && !Unsafe(p[k]) {
      if k > 0 {
        assert p[k] == j[k - 1];
      }
    }
  }

  /** The segments of '/' followed by a join of non-empty parts are those parts. */
  lemma {:induction false} SegmentsOfPath(parts: seq<string>)
    requires |parts| >= 1 && forall k :: 0 <= k < |parts| ==> parts[k] != "" && !HasChar(parts[k], '/')
    ensures Segments("/" + Join(parts, "/")) == parts
  {
    var j := Join(parts, "/");
    SplitJoin(parts, '/');
    SplitAfterFirst("", '/', j);
    assert "" + ['/'] + j == "/" + j;
    NonEmptyPartsKeep(parts);
    assert ([""] + parts)[1..] == parts;
  }

  lemma {:induction false} NonEmptyPartsKeep(parts: seq<string>)
    requires forall k :: 0 <= k < |parts| ==> parts[k] != ""
    ensures NonEmptyParts(parts) == parts
    decreases |parts|
  {
    if parts != [] {
      NonEmptyPartsKeep(parts[1..]);
    }
  }
}
