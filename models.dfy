// The records of src/core/models.py: browser profiles, installed bundles ("mods")
// and the import directives found in userChrome.css.
module Models {
  import opened Common
  import opened Strings
  import opened Paths
  import opened Json
  import opened IsoDate

  // ----- Profile -----

  datatype Profile = Profile(path: string, name: string, isDefault: bool)

  /** The dataclass constructor with its `__post_init__`: an empty name falls back to the folder name. */
  function NewProfile(path: string, name: string, isDefault: bool): (p: Profile)
    ensures p.path == path && p.isDefault == isDefault
    ensures p.name != ""
    ensures name != "" ==> p.name == name
    ensures name == "" ==> p.name == (if Basename(path) != "" then Basename(path) else "Unnamed Profile")
  {
    Profile(path, if name != "" then name else if Basename(path) != "" then Basename(path) else "Unnamed Profile", isDefault)
  }

  function ChromeDir(p: Profile): string
  {
    PathJoin(p.path, "chrome")
  }

  function UserChromePath(p: Profile): string
  {
    PathJoin(ChromeDir(p), "userChrome.css")
  }

  /** The stylesheet sits directly in the profile's `chrome` folder. */
  lemma {:induction false} UserChromeLayout(p: Profile)
    ensures Basename(UserChromePath(p)) == "userChrome.css"
    ensures Dirname(UserChromePath(p)) == ChromeDir(p)
    ensures Basename(ChromeDir(p)) == "chrome"
  {
    LastComponent(p.path, "chrome");
    var dir := ChromeDir(p);
    assert dir[|dir| - 1] == 'e';
    DirnameOfJoin(dir, "userChrome.css");
  }

  /** Splitting a joined path at its last '/' gives the folder back. */
  lemma {:induction false} DirnameOfJoin(d: string, name: string)
    requires d != [] && d[|d| - 1] != '/'
    requires name != [] && !HasChar(name, '/')
    ensures Basename(PathJoin(d, name)) == name
    ensures Dirname(PathJoin(d, name)) == d
  {
    LastComponent(d, name);
    var u := PathJoin(d, name);
    assert u == d + "/" + name;
    var head := u[..|d| + 1];
    assert head == d + "/";
    assert head[..|head| - 1] == d;
    assert RStripSlashes(d) == d;
    assert RStripSlashes(head) == d;
    assert !AllSlashes(head) by {
      assert head[|d| - 1] != '/';
    }
  }

  /** Joining a slash-free name onto a folder makes that name the last component. */
  lemma {:induction false} LastComponent(d: string, name: string)
    requires name != [] && !HasChar(name, '/')
    ensures Basename(PathJoin(d, name)) == name
    ensures d != [] && d[|d| - 1] != '/' ==> RFindChar(PathJoin(d, name), '/', |PathJoin(d, name)|) == |d|
    ensures (d == [] || d[|d| - 1] == '/') ==> RFindChar(PathJoin(d, name), '/', |PathJoin(d, name)|) == |d| - 1
  {
    var u := PathJoin(d, name);
    assert !StartsWith(name, "/") by {
      assert name[0] != '/';
    }
    var base := if d == [] || d[|d| - 1] == '/' then d else d + "/";
    assert u == base + name;
    var i := RFindChar(u, '/', |u|);
    forall k | |base| <= k < |u| ensures u[k] != '/' {
      assert u[k] == name[k - |base|];
    }
    if base != [] {
      assert u[|base| - 1] == '/';
    }
    assert i == |base| - 1;
    assert u[i + 1..] == name;
  }

  // ----- ImportEntry -----

  datatype ImportEntry = ImportEntry(path: string, enabled: bool, lineNumber: Option<int>)

  /** `ImportEntry(path)` with the dataclass defaults. */
  function NewImportEntry(path: string): (e: ImportEntry)
    ensures e.path == path && e.enabled && e.lineNumber.None?
  {
    ImportEntry(path, true, None)
  }

  /** The `filename` property. */
  function Filename(e: ImportEntry): (name: string)
    ensures EndsWith(e.path, name) && !HasChar(name, '/')
  {
    Basename(e.path)
  }

  // ----- ModInfo -----

  /** `installed_date`: normally a `datetime`; a falsy string read from the registry stays a string. */
  datatype Stamp = Dated(date: DateTime) | Text(text: string)

  /** The value of a `ModInfo` object: what the registry writes and reads back. */
  datatype ModRecord = ModRecord(
    name: string,
    sourceUrl: Option<string>,
    version: Option<string>,
    installedDate: Stamp,
    files: seq<string>,
    metadata: map<string, Json>)

  predicate NoDuplicates<T(==)>(s: seq<T>)
  {
    forall i, j :: 0 <= i < j < |s| ==> s[i] != s[j]
  }

  /** `if x not in s: s.append(x)`. */
  function AppendIfAbsent<T(==)>(s: seq<T>, x: T): (r: seq<T>)
    ensures x in r && (forall y :: y in s ==> y in r)
    ensures forall y :: y in r ==> y == x || y in s
    ensures NoDuplicates(s) ==> NoDuplicates(r)
    ensures x in s ==> r == s
    ensures x !in s ==> r == s + [x]
  {
    if x in s then s else s + [x]
  }

  /** `metadata.get("latest_commit")` as the program reads it (a string hash, or nothing). */
  function CommitHashOf(metadata: map<string, Json>): Option<string>
  {
    GetStr(metadata, "latest_commit")
  }

  /**
   * The `display_version` property: the short commit hash when there is a non-empty one,
   * else a non-empty version, else "Unknown".
   */
  function DisplayVersionOf(version: Option<string>, metadata: map<string, Json>): (r: string)
    ensures r != ""
    ensures CommitHashOf(metadata).Some? && CommitHashOf(metadata).value != "" ==>
              |r| <= 8 && StartsWith(CommitHashOf(metadata).value, r)
    ensures (CommitHashOf(metadata).None? || CommitHashOf(metadata).value == "") && version.Some? && version.value != "" ==>
              r == version.value
  {
    var h := CommitHashOf(metadata);
    if h.Some? && h.value != "" then Take(h.value, 8)
    else if version.Some? && version.value != "" then version.value
    else "Unknown"
  }

  /** After `set_commit_hash(h)` the displayed version is the short form of `h` (or "Unknown" for ""). */
  lemma {:induction false} DisplayAfterSetCommitHash(version: Option<string>, metadata: map<string, Json>, h: string)
    ensures DisplayVersionOf(Some(Take(h, 8)), metadata["latest_commit" := JStr(h)])
            == (if h != "" then Take(h, 8) else "Unknown")
  {
    assert CommitHashOf(metadata["latest_commit" := JStr(h)]) == Some(h);
  }

  class ModInfo {
    var name: string
    var sourceUrl: Option<string>
    var version: Option<string>
    var installedDate: Stamp
    var files: seq<string>
    var metadata: map<string, Json>

    constructor (name: string, sourceUrl: Option<string>, version: Option<string>,
                 installedDate: Stamp, files: seq<string>, metadata: map<string, Json>)
      ensures Record() == ModRecord(name, sourceUrl, version, installedDate, files, metadata)
    {
      this.name := name;
      this.sourceUrl := sourceUrl;
      this.version := version;
      this.installedDate := installedDate;
      this.files := files;
      this.metadata := metadata;
    }

    function Record(): ModRecord
      reads this
    {
      ModRecord(name, sourceUrl, version, installedDate, files, metadata)
    }

    method AddFile(path: string)
      modifies this
      ensures files == AppendIfAbsent(old(files), path)
      ensures NoDuplicates(old(files)) ==> NoDuplicates(files)
      ensures name == old(name) && sourceUrl == old(sourceUrl) && version == old(version)
      ensures installedDate == old(installedDate) && metadata == old(metadata)
    {
      if path !in files {
        files := files + [path];
      }
    }

    function CommitHash(): Option<string>
      reads this
    {
      CommitHashOf(metadata)
    }

    function DisplayVersion(): (r: string)
      reads this
      ensures r != ""
    {
      DisplayVersionOf(version, metadata)
    }

    method SetCommitHash(h: string)
      modifies this
      ensures metadata == old(metadata)["latest_commit" := JStr(h)]
      ensures version == Some(Take(h, 8))
      ensures CommitHash() == Some(h)
      ensures DisplayVersion() == if h != "" then Take(h, 8) else "Unknown"
      ensures name == old(name) && sourceUrl == old(sourceUrl) && installedDate == old(installedDate)
      ensures files == old(files)
    {
      metadata := metadata["latest_commit" := JStr(h)];
      version := Some(Take(h, 8));
      DisplayAfterSetCommitHash(old(version), old(metadata), h);
    }
  }
}
