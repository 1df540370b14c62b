// The decisions of src/core/download.py. The curl transfers are inputs: each request's
// outcome is a parameter, and the local files it writes are a field of the manager.
module Download {
  import opened Common
  import opened Strings
  import opened Json
  import opened IsoDate
  import opened Models
  import opened Url

  // ----- validate_url -----

  /** `validate_url`: an http or https URL with a network location; a parse error is `false`. */
  function ValidateUrl(url: string): (ok: bool)
    ensures ok ==> UrlParse(url).Ok? && UrlParse(url).value.netloc != ""
    ensures ok ==> HasChar(url, ':')
  {
    match UrlParse(url)
    case Err(_) => false
    case Ok(p) =>
      if p.scheme in ["http", "https"] && p.netloc != "" then
        SchemeFound(url);
        true
      else false
  }

  /** Valid exactly when the parse succeeds with an http or https scheme and a network location. */
  lemma {:induction false} ValidateUrlIff(url: string)
    ensures ValidateUrl(url) <==>
            UrlParse(url).Ok? && UrlParse(url).value.scheme in ["http", "https"] && UrlParse(url).value.netloc != ""
  {
  }

  /** Leading blanks are stripped before the scheme is looked for: a pasted URL with a space in front is judged as without it. */
  lemma {:induction false} LeadingBlankValid(c: char, url: string)
    requires C0OrSpace(c)
    ensures ValidateUrl([c] + url) == ValidateUrl(url)
  {
    LeadingIgnored(c, url);
  }

  /** So the github.com example with a space in front is valid. */
  lemma {:induction false} SpacedGithubValid(rest: string)
    requires rest == [] || rest[0] == '/'
    ensures ValidateUrl(" https://github.com" + rest)
  {
    var h := "https://github.com";
    var url := h + rest;
    assert h == "https://" + "github.com";
    assert " https://github.com" == [' '] + h;
    assert [' '] + h + rest == [' '] + url;
    GithubHostsPlain();
    ValidOnHost("github.com", rest);
    LeadingBlankValid(' ', url);
  }

  /** Every `scheme://host/path` URL with a plain host and path is valid. */
  lemma {:induction false} ValidComposed(scheme: string, host: string, path: string)
    requires scheme in ["http", "https"] && PlainHost(host) && PlainPath(path)
    ensures ValidateUrl(scheme + "://" + host + path)
  {
    ParseComposed(scheme, host, path);
  }

  /** A URL with one bracket in its network location is rejected rather than raising. */
  lemma {:induction false} UnbalancedInvalid(url: string)
    requires UrlParse(url).Err?
    ensures !ValidateUrl(url)
  {
  }

  /** An https URL on a plain host is valid whatever path follows. */
  lemma {:induction false} ValidOnHost(host: string, rest: string)
    requires PlainHost(host) && (rest == [] || rest[0] == '/')
    ensures ValidateUrl("https://" + host + rest)
  {
    var url := "https://" + host + rest;
    assert url == "https" + "://" + host + rest;
    ParseOnHost("https", host, rest);
    var parsed := UrlParse(url).value;
    assert parsed.scheme in ["http", "https"] && parsed.netloc != "";
  }

  lemma {:induction false} GithubHostsPlain()
    ensures PlainHost("github.com") && PlainHost("raw.githubusercontent.com")
  {
    var a := "github.com";
    forall k | 0 <= k < |a| ensures 'a' <= a[k] <= 'z' || a[k] == '.' {
      assert a == ['g', 'i', 't', 'h', 'u', 'b', '.', 'c', 'o', 'm'];
    }
    LetterHost(a);
    var b := "raw.githubusercontent.com";
    forall k | 0 <= k < |b| ensures 'a' <= b[k] <= 'z' || b[k] == '.' {
      assert b == ['r', 'a', 'w', '.', 'g', 'i', 't', 'h', 'u', 'b', 'u', 's', 'e', 'r', 'c', 'o', 'n', 't', 'e', 'n', 't', '.', 'c', 'o', 'm'];
    }
    LetterHost(b);
  }

  lemma {:induction false} LetterHost(h: string)
    requires h != [] && forall k :: 0 <= k < |h| ==> 'a' <= h[k] <= 'z' || h[k] == '.'
    ensures PlainHost(h)
  {
  }

  // ----- download_file -----

  /** What one curl transfer did: it broke off with an error, or it finished with a status and the bytes written. */
  datatype Transfer = Broken(reason: string) | Finished(status: int, size: nat)

  /** The transfer produced a usable file: a status below 400 and a non-empty body. */
  predicate Delivered(t: Transfer)
  {
    t.Finished? && t.status < 400 && t.size > 0
  }

  /** The message `download_file` wraps into "Download failed: …" when the transfer is not delivered. */
  function FailureOf(t: Transfer, destination: string): string
  {
    match t
    case Broken(reason) => reason
    case Finished(status, size) =>
      if status >= 400 then "HTTP error: " + IntToString(status)
      else "Downloaded file is empty: " + destination
  }

  /** The record `_handle_github_raw_file` builds: named after the last '/' part of the URL. */
  function RawFileRecord(url: string, now: DateTime): (m: ModRecord)
    ensures m.name == Last(Split(url, '/')) && !HasChar(m.name, '/')
    ensures m.files == [m.name] && m.sourceUrl == Some(url)
    ensures m.version == None && m.metadata == map[] && m.installedDate == Dated(now)
  {
    var name := Last(Split(url, '/'));
    ModRecord(name, Some(url), None, Dated(now), [name], map[])
  }

  /** The raw URL `_handle_github_file` downloads a repository file from. */
  function FileRawUrl(owner: string, repo: string, branch: string, path: string): string
  {
    "https://raw.githubusercontent.com/" + owner + "/" + repo + "/" + branch + "/" + path
  }

  /** A file reached through a blob URL is named after the last '/' part of its repository path. */
  lemma {:induction false} FileRecordName(owner: string, repo: string, branch: string, path: string, now: DateTime)
    ensures RawFileRecord(FileRawUrl(owner, repo, branch, path), now).name == Last(Split(path, '/'))
  {
    var head := "https://raw.githubusercontent.com/" + owner + "/" + repo + "/" + branch;
    assert FileRawUrl(owner, repo, branch, path) == head + ['/'] + path;
    SplitLastAfter(head, '/', path);
  }

  /** The archive `_handle_github_repo` downloads. */
  function ZipUrl(owner: string, repo: string, branch: string): string
  {
    "https://github.com/" + owner + "/" + repo + "/archive/refs/heads/" + branch + ".zip"
  }

  /** The archive URL the program builds always passes `validate_url`. */
  lemma {:induction false} ZipUrlValid(owner: string, repo: string, branch: string)
    ensures ValidateUrl(ZipUrl(owner, repo, branch))
  {
    GithubHostsPlain();
    var z := "/" + owner + "/" + repo + "/archive/refs/heads/" + branch + ".zip";
    assert ZipUrl(owner, repo, branch) == "https://" + "github.com" + z;
    ValidOnHost("github.com", z);
  }

  /** So does the raw-file URL. */
  lemma {:induction false} FileRawUrlValid(owner: string, repo: string, branch: string, path: string)
    ensures ValidateUrl(FileRawUrl(owner, repo, branch, path))
  {
    GithubHostsPlain();
    var f := "/" + owner + "/" + repo + "/" + branch + "/" + path;
    assert FileRawUrl(owner, repo, branch, path) == "https://" + "raw.githubusercontent.com" + f;
    ValidOnHost("raw.githubusercontent.com", f);
  }

  /** The metadata `_handle_github_repo` stores, which `_check_github_updates` reads back. */
  function RepoMetadata(owner: string, repo: string, branch: Json): map<string, Json>
  {
    map["type" := JStr("github"), "owner" := JStr(owner), "repo" := JStr(repo), "branch" := branch]
  }

  /**
   * The branch as the f-string of the archive URL writes it, Python's `str()`: a string is itself,
   * `None` is "None", a boolean "True" or "False", an integer its decimal digits. The text of a
   * list or an object is not spelled out here.
   */
  function BranchText(branch: Json): string
  {
    match branch
    case JStr(s) => s
    case JNull => "None"
    case JBool(b) => if b then "True" else "False"
    case JInt(i) => if i < 0 then "-" + NatToString(-i) else NatToString(i)
    case _ => ""
  }

  /** The record's version: the branch itself, `None` for a JSON null, else the branch's text. */
  function BranchVersion(branch: Json): Option<string>
  {
    match branch
    case JStr(s) => Some(s)
    case JNull => None
    case _ => Some(BranchText(branch))
  }

  /** The record `_handle_github_repo` builds: named after the repository, versioned by the branch. */
  function RepoRecord(owner: string, repo: string, branch: Json, now: DateTime): (m: ModRecord)
    ensures m.name == repo && m.files == []
    ensures branch.JStr? ==> m.version == Some(branch.s)
    ensures branch.JNull? ==> m.version == None
    ensures m.sourceUrl == Some("https://github.com/" + owner + "/" + repo)
    ensures m.metadata == RepoMetadata(owner, repo, branch) && m.metadata["branch"] == branch
    ensures m.installedDate == Dated(now)
  {
    ModRecord(repo, Some("https://github.com/" + owner + "/" + repo), BranchVersion(branch), Dated(now), [],
              RepoMetadata(owner, repo, branch))
  }

  // ----- handle_github_url -----

  /** Where `handle_github_url` sends a URL. */
  datatype Route =
    | RawRoute
    | FileRoute(owner: string, repo: string, branch: string, path: string)
    | RepoRoute(owner: string, repo: string)

  const GithubPrefix: string := "github.com/"

  /**
   * The parts `handle_github_url` reads: the text after the first "github.com/" split at
   * '/', or `None` when there is no "github.com/" (the `IndexError` of `split(...)[1]`).
   */
  function GithubParts(url: string): (parts: Option<seq<string>>)
    ensures parts.Some? ==> |parts.value| >= 1
    ensures parts.None? <==> FindSub(url, GithubPrefix, 0) < 0
  {
    var k := FindSub(url, GithubPrefix, 0);
    if k < 0 then None else Some(Split(url[k + |GithubPrefix|..], '/'))
  }

  /**
   * The routing of `handle_github_url`. A URL without "github.com", or with fewer than two
   * parts after it, is a `ValidationError`; a missing "github.com/" is the `DownloadError`
   * that wraps the `IndexError`.
   */
  function GithubRoute(url: string): (r: Result<Route>)
    ensures !Contains(url, "github.com") ==> r == Fail(ValidationError, "Not a GitHub URL")
    ensures Contains(url, "github.com") && GithubParts(url).Some? && |GithubParts(url).value| < 2 ==>
              r == Fail(ValidationError, "Invalid GitHub URL format")
    ensures r.Err? ==> r.error.kind in {ValidationError, DownloadError}
    ensures r.Ok? ==> GithubParts(url).Some? && |GithubParts(url).value| >= 2
    ensures r.Ok? && r.value.RepoRoute? ==>
              r.value.owner == GithubParts(url).value[0] && r.value.repo == GithubParts(url).value[1]
    ensures r.Ok? && r.value.FileRoute? ==>
              |GithubParts(url).value| > 4 && GithubParts(url).value[2] == "blob"
              && r.value.branch == GithubParts(url).value[3]
              && Split(r.value.path, '/') == GithubParts(url).value[4..]
  {
    if !Contains(url, "github.com") then Fail(ValidationError, "Not a GitHub URL")
    else
      match GithubParts(url)
      case None => Fail(DownloadError, "Failed to process GitHub URL: list index out of range")
      case Some(parts) =>
        if |parts| < 2 then Fail(ValidationError, "Invalid GitHub URL format")
        else if Contains(url, "raw.githubusercontent.com") then Ok(RawRoute)
        else if |parts| > 4 && parts[2] == "blob" then
          var rest := parts[4..];
          assert forall k :: 0 <= k < |rest| ==> !HasChar(rest[k], '/') by {
            assert forall k :: 0 <= k < |rest| ==> rest[k] == parts[k + 4];
          }
          SplitJoin(rest, '/');
          Ok(FileRoute(parts[0], parts[1], parts[3], Join(rest, "/")))
        else Ok(RepoRoute(parts[0], parts[1]))
  }

  /** The parts after "https://github.com/" are the '/'-separated pieces of the rest. */
  lemma {:induction false} GithubPartsOf(rest: string)
    ensures GithubParts("https://" + GithubPrefix + rest) == Some(Split(rest, '/'))
  {
    var url := "https://" + GithubPrefix + rest;
    assert At(url, 8, GithubPrefix) by {
      assert url[8..8 + |GithubPrefix|] == GithubPrefix;
    }
    forall i | 0 <= i < 8 ensures !At(url, i, GithubPrefix) {
      assert url[i] == "https://"[i];
      AtChar(url, i, GithubPrefix, 0);
    }
    assert FindSub(url, GithubPrefix, 0) == 8;
    assert url[8 + |GithubPrefix|..] == rest;
  }

  /** A URL on github.com whose path is made of the given parts. */
  lemma {:induction false} GithubUrlParts(parts: seq<string>)
    requires |parts| >= 1 && forall k :: 0 <= k < |parts| ==> !HasChar(parts[k], '/')
    ensures Contains("https://" + GithubPrefix + Join(parts, "/"), "github.com")
    ensures GithubParts("https://" + GithubPrefix + Join(parts, "/")) == Some(parts)
  {
    var url := "https://" + GithubPrefix + Join(parts, "/");
    GithubPartsOf(Join(parts, "/"));
    SplitJoin(parts, '/');
    assert At(url, 8, "github.com") by {
      assert url[8..18] == "github.com";
    }
  }

  /** A blob URL routes to the file it names: the owner, repository, branch and path. */
  lemma {:induction false} BlobRoute(owner: string, repo: string, branch: string, file: seq<string>)
    requires |file| >= 1
    requires forall k :: 0 <= k < |[owner, repo, "blob", branch] + file| ==> !HasChar(([owner, repo, "blob", branch] + file)[k], '/')
    requires !Contains("https://" + GithubPrefix + Join([owner, repo, "blob", branch] + file, "/"), "raw.githubusercontent.com")
    ensures GithubRoute("https://" + GithubPrefix + Join([owner, repo, "blob", branch] + file, "/"))
            == Ok(FileRoute(owner, repo, branch, Join(file, "/")))
  {
    var parts := [owner, repo, "blob", branch] + file;
    GithubUrlParts(parts);
    assert parts[4..] == file;
  }

  /** A repository URL routes to the repository. */
  lemma {:induction false} RepoRouteOf(owner: string, repo: string)
    requires !HasChar(owner, '/') && !HasChar(repo, '/')
    requires !Contains("https://" + GithubPrefix + (owner + "/" + repo), "raw.githubusercontent.com")
    ensures GithubRoute("https://" + GithubPrefix + (owner + "/" + repo)) == Ok(RepoRoute(owner, repo))
  {
    var parts := [owner, repo];
    assert Join(parts, "/") == owner + "/" + repo by {
      assert parts[1..] == [repo];
    }
    GithubUrlParts(parts);
  }

  /** The branch `handle_github_url` takes from the repository information, whatever its type; "main" by default. */
  function DefaultBranch(info: map<string, Json>): (b: Json)
    ensures "default_branch" in info ==> b == info["default_branch"]
    ensures "default_branch" !in info ==> b == JStr("main")
  {
    Get(info, "default_branch", JStr("main"))
  }

  /**
   * A repository whose `default_branch` is JSON null is fetched from the branch "None", and its
   * record has no version and keeps the null in its metadata.
   */
  lemma {:induction false} NullBranch(owner: string, repo: string, now: DateTime)
    ensures var b := DefaultBranch(map["default_branch" := JNull]);
            && ZipUrl(owner, repo, BranchText(b)) == "https://github.com/" + owner + "/" + repo + "/archive/refs/heads/None.zip"
            && RepoRecord(owner, repo, b, now).version == None
            && RepoRecord(owner, repo, b, now).metadata["branch"] == JNull
  {
  }

  /** Without a `default_branch`, the archive of "main" is fetched and the record is versioned "main". */
  lemma {:induction false} MissingBranch(owner: string, repo: string, now: DateTime)
    ensures var b := DefaultBranch(map[]);
            && ZipUrl(owner, repo, BranchText(b)) == "https://github.com/" + owner + "/" + repo + "/archive/refs/heads/main.zip"
            && RepoRecord(owner, repo, b, now).version == Some("main")
  {
  }

  class DownloadManager {
    /** The local files the downloads write, with their sizes. */
    var files: map<string, nat>

    constructor (files: map<string, nat>)
      ensures this.files == files
    {
      this.files := files;
    }

    /**
     * `download_file(url, destination)`. An invalid URL is refused before anything is
     * opened; otherwise the destination is opened for writing, and any failure removes it.
     */
    method DownloadFile(url: string, destination: string, transfer: Transfer) returns (r: Result<bool>)
      modifies this
      ensures !ValidateUrl(url) ==> r == Fail(ValidationError, "Invalid URL: " + url) && files == old(files)
      ensures ValidateUrl(url) && Delivered(transfer) ==>
                r == Ok(true) && files == old(files)[destination := transfer.size]
      ensures ValidateUrl(url) && !Delivered(transfer) ==>
                r == Fail(DownloadError, "Download failed: " + FailureOf(transfer, destination))
                && files == old(files) - {destination}
    {
      if !ValidateUrl(url) {
        return Fail(ValidationError, "Invalid URL: " + url);
      }
      // The destination is opened for writing and receives the body; a failed transfer removes it again.
      if Delivered(transfer) {
        files := files[destination := transfer.size];
        return Ok(true);
      }
      files := files - {destination};
      return Fail(DownloadError, "Download failed: " + FailureOf(transfer, destination));
    }

    /** `_handle_github_raw_file(url)`, downloading into the fresh temporary file `temp`. */
    method HandleGithubRawFile(url: string, temp: string, transfer: Transfer, now: DateTime)
      returns (r: Result<(string, ModRecord)>)
      modifies this
      ensures r.Ok? <==> ValidateUrl(url) && Delivered(transfer)
      ensures r.Ok? ==> r.value == (temp, RawFileRecord(url, now)) && files == old(files)[temp := transfer.size]
      ensures r.Err? ==> r.error.kind == DownloadError && files == old(files) - {temp}
      ensures r.Err? ==> StartsWith(r.error.message, "Failed to download GitHub file: ")
    {
      var record := RawFileRecord(url, now);
      RemoveAfterUpdate(files, temp, 0);
      if transfer.Finished? {
        UpdateTwice(files, temp, 0, transfer.size);
      }
      files := files[temp := 0];
      var d := DownloadFile(url, temp, transfer);
      if d.Err? {
        files := files - {temp};
        return Fail(DownloadError, "Failed to download GitHub file: " + d.error.message);
      }
      return Ok((temp, record));
    }

    /** `_handle_github_repo(owner, repo, branch)`: the branch archive, into the temporary file `temp`. */
    method HandleGithubRepo(owner: string, repo: string, branch: Json, temp: string, transfer: Transfer, now: DateTime)
      returns (r: Result<(string, ModRecord)>)
      modifies this
      ensures r.Ok? <==> Delivered(transfer)
      ensures r.Ok? ==> r.value == (temp, RepoRecord(owner, repo, branch, now)) && files == old(files)[temp := transfer.size]
      ensures r.Err? ==> r.error.kind == DownloadError && files == old(files) - {temp}
      ensures r.Err? ==> StartsWith(r.error.message, "Failed to download GitHub repository: ")
    {
      var zipUrl := ZipUrl(owner, repo, BranchText(branch));
      ZipUrlValid(owner, repo, BranchText(branch));
      RemoveAfterUpdate(files, temp, 0);
      if transfer.Finished? {
        UpdateTwice(files, temp, 0, transfer.size);
      }
      files := files[temp := 0];
      var d := DownloadFile(zipUrl, temp, transfer);
      if d.Err? {
        files := files - {temp};
        return Fail(DownloadError, "Failed to download GitHub repository: " + d.error.message);
      }
      // The file exists and is not empty after a delivered transfer, so the re-check of its size passes.
      assert temp in files && files[temp] > 0;
      return Ok((temp, RepoRecord(owner, repo, branch, now)));
    }

    /**
     * `handle_github_url(url)`. `info` is what the repository API returned; it is read only
     * for a repository URL. Validation errors pass through; every other failure is wrapped
     * as "Failed to process GitHub URL: …".
     */
    method HandleGithubUrl(url: string, info: Result<Json>, temp: string, transfer: Transfer, now: DateTime)
      returns (r: Result<(string, ModRecord)>)
      modifies this
      ensures GithubRoute(url).Err? ==> r == Err(GithubRoute(url).error) && files == old(files)
      ensures GithubRoute(url) == Ok(RawRoute) ==>
                (r.Ok? <==> ValidateUrl(url) && Delivered(transfer))
                && (r.Ok? ==> r.value == (temp, RawFileRecord(url, now)))
      ensures GithubRoute(url).Ok? && GithubRoute(url).value.FileRoute? ==>
                var route := GithubRoute(url).value;
                (r.Ok? <==> Delivered(transfer))
                && (r.Ok? ==> r.value == (temp, RawFileRecord(FileRawUrl(route.owner, route.repo, route.branch, route.path), now)))
      ensures GithubRoute(url).Ok? && GithubRoute(url).value.RepoRoute? && info.Ok? && info.value.JObj? ==>
                var route := GithubRoute(url).value;
                (r.Ok? <==> Delivered(transfer))
                && (r.Ok? ==> r.value == (temp, RepoRecord(route.owner, route.repo, DefaultBranch(info.value.fields), now)))
      ensures GithubRoute(url).Ok? && GithubRoute(url).value.RepoRoute? && info.Err? ==>
                r == Fail(DownloadError, "Failed to process GitHub URL: " + info.error.message) && files == old(files)
      ensures GithubRoute(url).Ok? && GithubRoute(url).value.RepoRoute? && info.Ok? && !info.value.JObj? ==>
                r == Fail(DownloadError, "Failed to process GitHub URL: " + NoGet(info.value)) && files == old(files)
      ensures r.Ok? ==> files == old(files)[temp := transfer.size]
      ensures GithubRoute(url).Ok? && r.Err? ==> r.error.kind == DownloadError
    {
      var route := GithubRoute(url);
      if route.Err? {
        return Err(route.error);
      }
      match route.value
      case RawRoute =>
        var h := HandleGithubRawFile(url, temp, transfer, now);
        if h.Err? {
          return Fail(DownloadError, "Failed to process GitHub URL: " + h.error.message);
        }
        return h;
      case FileRoute(owner, repo, branch, path) =>
        FileRawUrlValid(owner, repo, branch, path);
        var h := HandleGithubRawFile(FileRawUrl(owner, repo, branch, path), temp, transfer, now);
        if h.Err? {
          return Fail(DownloadError, "Failed to process GitHub URL: " + h.error.message);
        }
        return h;
      case RepoRoute(owner, repo) =>
        if info.Err? {
          return Fail(DownloadError, "Failed to process GitHub URL: " + info.error.message);
        }
        if !info.value.JObj? {
          return Fail(DownloadError, "Failed to process GitHub URL: " + NoGet(info.value));
        }
        var h := HandleGithubRepo(owner, repo, DefaultBranch(info.value.fields), temp, transfer, now);
        if h.Err? {
          return Fail(DownloadError, "Failed to process GitHub URL: " + h.error.message);
        }
        return h;
    }
  }

  // ----- get_url_headers -----

  /** The characters at which `str.splitlines` breaks a line. */
  predicate LineBreak(c: char)
  {
    c in "\n\r\U{B}\U{C}\U{1C}\U{1D}\U{1E}\U{85}\U{2028}\U{2029}"
  }

  /** The index of the first line break at or after `i`, or `|s|`. */
  function BreakAt(s: string, i: nat): (e: nat)
    requires i <= |s|
    ensures i <= e <= |s| && (e < |s| ==> LineBreak(s[e]))
    ensures forall k :: i <= k < e ==> !LineBreak(s[k])
    decreases |s| - i
  {
    if i == |s| || LineBreak(s[i]) then i else BreakAt(s, i + 1)
  }

  /** `str.splitlines()`: "\r\n" is one break, and a final break opens no empty line. */
  function SplitLines(s: string): (lines: seq<string>)
    ensures forall k, c :: 0 <= k < |lines| && 0 <= c < |lines[k]| ==> !LineBreak(lines[k][c])
    ensures s == [] <==> lines == []
    decreases |s|
  {
    if s == [] then []
    else
      var e := BreakAt(s, 0);
      var line := s[..e];
      assert forall c :: 0 <= c < |line| ==> line[c] == s[c];
      if e == |s| then [line]
      else
        var next := if s[e] == '\r' && e + 1 < |s| && s[e + 1] == '\n' then e + 2 else e + 1;
        [line] + SplitLines(s[next..])
  }

  /** The name and value one header line contributes, if any: split at the first ':' and stripped. */
  function HeaderLine(line: string): (h: Option<(string, string)>)
    ensures h.Some? ==> !HasChar(h.value.0, ':')
  {
    var l := Strip(line);
    if l != [] && HasChar(l, ':') then
      var (name, value) := SplitFirst(l, ':');
      StripNoChar(name, ':');
      Some((Strip(name), Strip(value)))
    else None
  }

  /** The dictionary the header loop builds: each header line in turn, a later one overwriting an earlier. */
  function HeadersOf(lines: seq<string>): map<string, string>
    decreases |lines|
  {
    if lines == [] then map[]
    else
      var front := HeadersOf(lines[..|lines| - 1]);
      match HeaderLine(lines[|lines| - 1])
      case Some((name, value)) => front[name := value]
      case None => front
  }

  /** The header each line contributes, line by line. */
  function Parsed(lines: seq<string>): (hs: seq<Option<(string, string)>>)
    ensures |hs| == |lines| && forall i :: 0 <= i < |lines| ==> hs[i] == HeaderLine(lines[i])
  {
    seq(|lines|, i requires 0 <= i < |lines| => HeaderLine(lines[i]))
  }

  /** Entry `i` names the header `name`. */
  predicate Names(hs: seq<Option<(string, string)>>, i: int, name: string)
  {
    0 <= i < |hs| && hs[i].Some? && hs[i].value.0 == name
  }

  /** The last entry below `n` that names `name`, or -1 when none does. */
  function LastNamed(hs: seq<Option<(string, string)>>, name: string, n: nat): (r: int)
    requires n <= |hs|
    ensures -1 <= r < n
    ensures r >= 0 ==> Names(hs, r, name) && forall j :: r < j < n ==> !Names(hs, j, name)
    ensures r < 0 ==> forall j :: 0 <= j < n ==> !Names(hs, j, name)
  {
    if n == 0 then -1
    else if Names(hs, n - 1, name) then n - 1
    else LastNamed(hs, name, n - 1)
  }

  /**
   * A header is in the dictionary exactly when some line names it, and its value is the one
   * on the last line that does.
   */
  lemma {:induction false} HeadersLastWins(lines: seq<string>, name: string)
    ensures name in HeadersOf(lines) <==> LastNamed(Parsed(lines), name, |lines|) >= 0
    ensures name in HeadersOf(lines) ==> HeadersOf(lines)[name] == Parsed(lines)[LastNamed(Parsed(lines), name, |lines|)].value.1
  {
    HeadersPrefix(lines, Parsed(lines), name, |lines|);
    assert lines[..|lines|] == lines;
  }

  lemma {:induction false} HeadersPrefix(lines: seq<string>, hs: seq<Option<(string, string)>>, name: string, n: nat)
    requires n <= |lines| && hs == Parsed(lines)
    ensures name in HeadersOf(lines[..n]) <==> LastNamed(hs, name, n) >= 0
    ensures name in HeadersOf(lines[..n]) ==> HeadersOf(lines[..n])[name] == hs[LastNamed(hs, name, n)].value.1
  {
    if n > 0 {
      var pre := lines[..n];
      assert pre[..n - 1] == lines[..n - 1];
      assert pre[n - 1] == lines[n - 1];
      assert hs[n - 1] == HeaderLine(lines[n - 1]);
      if !Names(hs, n - 1, name) {
        HeadersPrefix(lines, hs, name, n - 1);
      }
    }
  }

  /** One more line: its header, if it has one, overwrites the dictionary built so far. */
  lemma {:induction false} HeadersStep(lines: seq<string>, i: nat)
    requires i < |lines|
    ensures HeaderLine(lines[i]).None? ==> HeadersOf(lines[..i + 1]) == HeadersOf(lines[..i])
    ensures HeaderLine(lines[i]).Some? ==>
              HeadersOf(lines[..i + 1]) == HeadersOf(lines[..i])[HeaderLine(lines[i]).value.0 := HeaderLine(lines[i]).value.1]
  {
    assert lines[..i + 1][..i] == lines[..i];
    assert lines[..i + 1][i] == lines[i];
  }

  /** What the header request returned: a transport error, or the status and the header text. */
  datatype HeaderResponse = NoResponse(reason: string) | Response(status: int, text: string)

  /** `get_url_headers(url)`: the loop over the header lines, against `HeadersOf`. */
  method GetUrlHeaders(url: string, response: HeaderResponse) returns (r: Result<map<string, string>>)
    ensures !ValidateUrl(url) ==> r == Fail(ValidationError, "Invalid URL: " + url)
    ensures ValidateUrl(url) && response.NoResponse? ==> r == Fail(DownloadError, "Failed to get headers: " + response.reason)
    ensures ValidateUrl(url) && response.Response? && response.status >= 400 ==>
              r == Fail(DownloadError, "Failed to get headers: HTTP error: " + IntToString(response.status))
    ensures ValidateUrl(url) && response.Response? && response.status < 400 ==> r == Ok(HeadersOf(SplitLines(response.text)))
  {
    if !ValidateUrl(url) {
      return Fail(ValidationError, "Invalid URL: " + url);
    }
    if response.NoResponse? {
      return Fail(DownloadError, "Failed to get headers: " + response.reason);
    }
    if response.status >= 400 {
      return Fail(DownloadError, "Failed to get headers: HTTP error: " + IntToString(response.status));
    }
    var lines := SplitLines(response.text);
    var headers: map<string, string> := map[];
    var i := 0;
    while i < |lines|
      invariant i <= |lines|
      invariant headers == HeadersOf(lines[..i])
    {
      HeadersStep(lines, i);
      var line := Strip(lines[i]);
      if line != [] && HasChar(line, ':') {
        var (name, value) := SplitFirst(line, ':');
        headers := headers[Strip(name) := Strip(value)];
      }
      i := i + 1;
    }
    assert lines[..i] == lines;
    return Ok(headers);
  }

  // ----- _check_github_updates -----

  /** The pair `_check_github_updates` returns: whether there is an update, and a message or the latest SHA. */
  datatype UpdateCheck = UpdateCheck(hasUpdate: bool, detail: Json)

  /**
   * `_check_github_updates(mod_info)` for the stored metadata, where `commits` is what the
   * commits API returned. There is an update exactly when the metadata is a complete GitHub
   * record, the API gave a non-empty list, and the stored `latest_commit` is not its first SHA.
   */
  function CheckGithubUpdates(metadata: map<string, Json>, commits: Result<Json>): (c: UpdateCheck)
    ensures c.hasUpdate ==> metadata != map[] && Get(metadata, "type", JNull) == JStr("github")
    ensures c.hasUpdate ==>
              Truthy(Get(metadata, "owner", JNull)) && Truthy(Get(metadata, "repo", JNull)) && Truthy(Get(metadata, "branch", JNull))
    ensures c.hasUpdate ==> commits.Ok? && commits.value.JArr? && commits.value.items != [] && commits.value.items[0].JObj?
    ensures c.hasUpdate ==>
              c.detail == Get(commits.value.items[0].fields, "sha", JNull)
              && !("latest_commit" in metadata && metadata["latest_commit"] == c.detail)
  {
    if metadata == map[] || Get(metadata, "type", JNull) != JStr("github") then UpdateCheck(false, JStr("Not a GitHub mod"))
    else if !(Truthy(Get(metadata, "owner", JNull)) && Truthy(Get(metadata, "repo", JNull)) && Truthy(Get(metadata, "branch", JNull))) then
      UpdateCheck(false, JStr("Incomplete GitHub metadata"))
    else
      match commits
      case Err(e) => UpdateCheck(false, JStr("Update check failed: " + e.message))
      case Ok(list) =>
        if !list.JArr? || list.items == [] then UpdateCheck(false, JStr("Failed to fetch commit information"))
        else if !list.items[0].JObj? then UpdateCheck(false, JStr("Update check failed: " + NoGet(list.items[0])))
        else
          var sha := Get(list.items[0].fields, "sha", JNull);
          if "latest_commit" in metadata && metadata["latest_commit"] == sha then UpdateCheck(false, JStr("Already up to date"))
          else UpdateCheck(true, sha)
  }

  /** A freshly installed repository sees the branch's latest commit as an update. */
  lemma {:induction false} FreshRepoHasUpdate(owner: string, repo: string, branch: string, sha: string, rest: seq<Json>)
    requires owner != "" && repo != "" && branch != ""
    ensures CheckGithubUpdates(RepoMetadata(owner, repo, JStr(branch)), Ok(JArr([JObj(map["sha" := JStr(sha)])] + rest)))
            == UpdateCheck(true, JStr(sha))
  {
    var md := RepoMetadata(owner, repo, JStr(branch));
    assert "type" in md;
  }

  /**
   * When the API's first commit is not a JSON object, the check reports Python's `AttributeError`
   * for that value, e.g. "'list' object has no attribute 'get'".
   */
  lemma {:induction false} CommitNotObject(metadata: map<string, Json>, item: Json, rest: seq<Json>)
    requires Get(metadata, "type", JNull) == JStr("github")
    requires Truthy(Get(metadata, "owner", JNull)) && Truthy(Get(metadata, "repo", JNull)) && Truthy(Get(metadata, "branch", JNull))
    requires !item.JObj?
    ensures CheckGithubUpdates(metadata, Ok(JArr([item] + rest)))
            == UpdateCheck(false, JStr("Update check failed: " + NoGet(item)))
  {
    assert "type" in metadata;
    assert ([item] + rest)[0] == item;
  }

  /** Once the latest SHA is stored as `latest_commit`, the same answer reports no update. */
  lemma {:induction false} StoredShaUpToDate(metadata: map<string, Json>, sha: string, rest: seq<Json>)
    requires Get(metadata, "type", JNull) == JStr("github")
    requires Truthy(Get(metadata, "owner", JNull)) && Truthy(Get(metadata, "repo", JNull)) && Truthy(Get(metadata, "branch", JNull))
    ensures CheckGithubUpdates(metadata["latest_commit" := JStr(sha)], Ok(JArr([JObj(map["sha" := JStr(sha)])] + rest)))
            == UpdateCheck(false, JStr("Already up to date"))
  {
    var md := metadata["latest_commit" := JStr(sha)];
    assert "type" in md;
    assert Get(md, "type", JNull) == JStr("github");
    assert Get(md, "owner", JNull) == Get(metadata, "owner", JNull);
    assert Get(md, "repo", JNull) == Get(metadata, "repo", JNull);
    assert Get(md, "branch", JNull) == Get(metadata, "branch", JNull);
  }
}
