// The file helpers of src/infrastructure/file_manager.py. The file system is a field of the
// manager: a map from paths to files (with their sizes) and directories.
module FileManager {
  import opened Common
  import opened Strings
  import opened Paths
  import Models

  // ----- sanitize_filename and get_file_extension -----

  /** The characters `sanitize_filename` replaces, in the order it replaces them. */
  const InvalidChars: string := "<>:\"/\\|?*"

  function SanitizeChar(c: char): (d: char)
    ensures d !in InvalidChars
    ensures c !in InvalidChars ==> d == c
  {
    if c in InvalidChars then '_' else c
  }

  /** The name with each invalid character replaced by '_', character by character. */
  function Sanitized(s: string): (r: string)
    ensures |r| == |s|
    ensures forall i :: 0 <= i < |s| ==> r[i] == SanitizeChar(s[i])
    decreases |s|
  {
    if s == [] then [] else [SanitizeChar(s[0])] + Sanitized(s[1..])
  }

  /** Sanitized names hold none of the invalid characters, and sanitizing twice is sanitizing once. */
  lemma {:induction false} SanitizedClean(s: string)
    ensures forall i :: 0 <= i < |Sanitized(s)| ==> Sanitized(s)[i] !in InvalidChars
    ensures Sanitized(Sanitized(s)) == Sanitized(s)
  {
    var r := Sanitized(s);
    var rr := Sanitized(r);
    forall i | 0 <= i < |r| ensures rr[i] == r[i] {
      assert r[i] == SanitizeChar(s[i]);
    }
  }

  /** The loop of `sanitize_filename`: one `replace` per invalid character. */
  method SanitizeFilename(filename: string) returns (r: string)
    ensures r == Sanitized(filename)
  {
    r := filename;
    var k := 0;
    while k < |InvalidChars|
      invariant k <= |InvalidChars| && |r| == |filename|
      invariant forall i :: 0 <= i < |r| ==> r[i] == (if filename[i] in InvalidChars[..k] then '_' else filename[i])
    {
      var c := InvalidChars[k];
      assert InvalidChars[..k + 1] == InvalidChars[..k] + [c];
      r := ReplaceChar(r, c, '_');
      k := k + 1;
    }
    assert InvalidChars[..k] == InvalidChars;
  }

  /** `get_file_extension`: the `splitext` suffix, lower-cased. */
  function FileExtension(path: string): (ext: string)
    ensures ext == [] || ext[0] == '.'
    ensures |ext| <= |path| && !HasChar(ext, '/')
    ensures forall i :: 0 <= i < |ext| ==> !('A' <= ext[i] <= 'Z')
  {
    var e := Extension(path);
    var r := Lower(e);
    assert forall i :: 0 <= i < |e| ==> e[i] != '/';
    r
  }

  /** A file name `stem.ext` whose stem is not all dots reports ".ext", lower-cased. */
  lemma {:induction false} FileExtensionOf(stem: string, ext: string)
    requires !HasChar(stem, '/') && !AllDots(stem)
    requires !HasChar(ext, '.') && !HasChar(ext, '/')
    ensures FileExtension(stem + "." + ext) == "." + Lower(ext)
  {
    ExtensionOf(stem, ext);
    var e := "." + ext;
    forall i | 0 <= i < |e| ensures Lower(e)[i] == ("." + Lower(ext))[i] {
      if i > 0 {
        assert e[i] == ext[i - 1];
      }
    }
  }

  // ----- The file system -----

  datatype Node = File(size: nat) | Dir

  /** `p` lies strictly inside the directory `d`. */
  predicate Under(p: string, d: string)
  {
    StartsWith(p, d + "/")
  }

  /** `path` and the directories above it that `os.makedirs` creates. */
  function Ancestors(p: string): (a: set<string>)
    ensures p in a
    decreases |p|
  {
    var d := Dirname(p);
    if d != "" && |d| < |p| then {p} + Ancestors(d) else {p}
  }

  class FileManager {
    var fs: map<string, Node>

    constructor (fs: map<string, Node>)
      ensures this.fs == fs
    {
      this.fs := fs;
    }

    predicate IsDir(p: string)
      reads this
    {
      p in fs && fs[p].Dir?
    }

    /**
     * `create_directory`: `os.makedirs(path, exist_ok=True)`, which fails for "" and where a file
     * is in the way; the failure names the path and the `OSError` that `makedirs` raised.
     */
    method CreateDirectory(path: string) returns (r: Result<bool>)
      modifies this
      ensures r.Err? ==> r.error.kind == FileOperationError && fs == old(fs)
      ensures r.Err? ==> r.error.message == DirectoryFailed(old(fs), path)
      ensures r.Ok? <==> CanMake(old(fs), path)
      ensures r.Ok? ==> r.value && IsDir(path)
      ensures r.Ok? ==> fs == old(fs) + map a | a in Ancestors(path) && a !in old(fs) :: Dir
    {
      if !CanMake(fs, path) {
        return Fail(FileOperationError, DirectoryFailed(fs, path));
      }
      fs := fs + map a | a in Ancestors(path) && a !in fs :: Dir;
      return Ok(true);
    }

    /**
     * `copy_file`. `copied` is the size `os.path.getsize` reports for the destination after
     * `shutil.copy2`: the copy is verified against the source's size.
     */
    method CopyFile(source: string, destination: string, overwrite: bool, copied: nat) returns (r: Result<bool>)
      modifies this
      ensures source !in old(fs) ==> r.Err? && r.error.message == "Source file does not exist: " + source && fs == old(fs)
      ensures source in old(fs) && destination in old(fs) && !overwrite ==>
                r.Err? && r.error.message == "Destination file already exists: " + destination && fs == old(fs)
      ensures r.Err? ==> r.error.kind == FileOperationError
      ensures r.Ok? <==> source in old(fs) && old(fs)[source].File? && (destination !in old(fs) || overwrite)
                          && CanMake(old(fs), Dirname(destination)) && copied == old(fs)[source].size
      ensures r.Ok? ==> r.value && destination in fs && fs[destination] == File(copied)
      ensures source in old(fs) && old(fs)[source].File? && (destination !in old(fs) || overwrite) &&
              CanMake(old(fs), Dirname(destination)) && copied != old(fs)[source].size ==>
                r.Err? && r.error.message == SizeMismatch(old(fs)[source].size, copied)
      ensures source in old(fs) && (destination !in old(fs) || overwrite) && !CanMake(old(fs), Dirname(destination)) ==>
                r.Err? && r.error.message == CopyFailed(DirectoryFailed(old(fs), Dirname(destination)))
      ensures source in old(fs) && old(fs)[source].Dir? && (destination !in old(fs) || overwrite) &&
              CanMake(old(fs), Dirname(destination)) ==>
                r.Err? && r.error.message == CopyFailed(IsADirectory(source))
    {
      if source !in fs {
        return Fail(FileOperationError, "Source file does not exist: " + source);
      }
      if destination in fs && !overwrite {
        return Fail(FileOperationError, "Destination file already exists: " + destination);
      }
      ghost var before := fs;
      var made := CreateDirectory(Dirname(destination));
      if made.Err? {
        return Fail(FileOperationError, CopyFailed(made.error.message));
      }
      assert source in fs && fs[source] == before[source];
      if fs[source].Dir? {
        return Fail(FileOperationError, CopyFailed(IsADirectory(source)));
      }
      var size := fs[source].size;
      fs := fs[destination := File(copied)];
      if copied != size {
        return Fail(FileOperationError, SizeMismatch(size, copied));
      }
      return Ok(true);
    }

    /** `remove_file`: an absent path is already removed; a directory is refused. */
    method RemoveFile(path: string) returns (r: Result<bool>)
      modifies this
      ensures path !in old(fs) ==> r == Ok(true) && fs == old(fs)
      ensures path in old(fs) && old(fs)[path].Dir? ==> r.Err? && r.error.kind == FileOperationError && fs == old(fs)
      ensures path in old(fs) && old(fs)[path].File? ==> r == Ok(true) && fs == old(fs) - {path}
    {
      if path !in fs {
        return Ok(true);
      }
      if !fs[path].File? {
        return Fail(FileOperationError, "Not a file: " + path);
      }
      fs := fs - {path};
      return Ok(true);
    }

    /** `remove_directory`: `shutil.rmtree` takes the directory and everything inside it. */
    method RemoveDirectory(path: string) returns (r: Result<bool>)
      modifies this
      ensures path !in old(fs) ==> r == Ok(true) && fs == old(fs)
      ensures path in old(fs) && old(fs)[path].File? ==> r.Err? && r.error.kind == FileOperationError && fs == old(fs)
      ensures path in old(fs) && old(fs)[path].Dir? ==>
                r == Ok(true) && fs == map p | p in old(fs) && p != path && !Under(p, path) :: old(fs)[p]
      ensures old(IsDir(path)) ==> path !in fs && forall p :: p in fs ==> !Under(p, path)
    {
      if path !in fs {
        return Ok(true);
      }
      if !fs[path].Dir? {
        return Fail(FileOperationError, "Not a directory: " + path);
      }
      fs := map p | p in fs && p != path && !Under(p, path) :: fs[p];
      return Ok(true);
    }

    /**
     * `cleanup_empty_folders`. `walk` is the order in which the bottom-up `os.walk` yields the
     * directories at or below `root`. Each one's listing is taken before its subdirectories
     * are visited, so only directories that were empty when the walk began are removed: a
     * parent left empty by the removals keeps its name in `dirnames` and stays.
     */
    method CleanupEmptyFolders(root: string, walk: seq<string>) returns (count: nat)
      requires forall i, j :: 0 <= i < j < |walk| ==> walk[i] != walk[j]
      requires forall d :: d in walk <==> IsDir(d) && (d == root || Under(d, root))
      modifies this
      ensures !old(IsDir(root)) ==> count == 0 && fs == old(fs)
      ensures old(IsDir(root)) ==> count == |EmptyBelow(old(fs), root)| && fs == old(fs) - EmptyBelow(old(fs), root)
    {
      count := 0;
      if !IsDir(root) {
        return;
      }
      ghost var start := fs;
      count := RemoveEmptyAmong(root, walk);
      EmptyAmongAll(start, root, walk);
    }

    /** The loop of `cleanup_empty_folders`: remove each directory of `walk` below `root` that was empty when the walk began. */
    method RemoveEmptyAmong(root: string, walk: seq<string>) returns (count: nat)
      requires forall i, j :: 0 <= i < j < |walk| ==> walk[i] != walk[j]
      modifies this
      ensures count == |EmptyAmong(old(fs), root, walk)| && fs == old(fs) - EmptyAmong(old(fs), root, walk)
    {
      count := 0;
      var start := fs;
      var i := 0;
      while i < |walk|
        invariant i <= |walk|
        invariant count == |EmptyAmong(start, root, walk[..i])|
        invariant fs == start - EmptyAmong(start, root, walk[..i])
      {
        var d := walk[i];
        ghost var gone := EmptyAmong(start, root, walk[..i]);
        EmptyAmongStep(start, root, walk, i);
        if EmptyIn(start, d) && d != root {
          RemoveOneMore(start, gone, d);
          fs := fs - {d};
          count := count + 1;
        } else {
          assert EmptyAmong(start, root, walk[..i + 1]) == gone;
        }
        i := i + 1;
      }
      assert walk[..i] == walk;
    }
  }

  /** Removing one more key from a map is removing the larger set of keys at once. */
  lemma {:induction false} RemoveOneMore<K, V>(m: map<K, V>, gone: set<K>, x: K)
    ensures (m - gone) - {x} == m - (gone + {x})
  {
    assert forall k :: k in (m - gone) - {x} <==> k in m - (gone + {x});
  }

  /** The message `copy_file` reports when the copy's size differs from the source's, as its `except` wraps it. */
  function SizeMismatch(sourceSize: nat, copiedSize: nat): string
  {
    CopyFailed("Copy verification failed: Size mismatch - source: " + NatToString(sourceSize) +
               ", destination: " + NatToString(copiedSize))
  }

  /** The text the `except` of `copy_file` re-raises for a failure whose text is `e`. */
  function CopyFailed(e: string): string
  {
    "Failed to copy file: " + e
  }

  /** What `create_directory(path)` raises when `os.makedirs` fails. */
  function DirectoryFailed(fs: map<string, Node>, path: string): string
  {
    "Failed to create directory " + path + ": " + MakedirsError(fs, path)
  }

  /** The `IsADirectoryError` that `shutil.copy2` raises when it opens a directory as its source. */
  function IsADirectory(source: string): string
  {
    "[Errno 21] Is a directory: '" + source + "'"
  }

  /**
   * The directory `os.makedirs(path)` passes to its first `mkdir`: it climbs while the parent
   * is missing, so this is the highest missing directory on the way from `path` up.
   */
  function FirstMkdir(fs: map<string, Node>, p: string): (d: string)
    ensures d in Ancestors(p)
    ensures d == p || d !in fs
    ensures var up := Dirname(d); up == "" || |up| >= |d| || up in fs
    decreases |p|
  {
    var up := Dirname(p);
    if up != "" && |up| < |p| && up !in fs then FirstMkdir(fs, up) else p
  }

  /**
   * The `OSError` text of a failing `os.makedirs(path, exist_ok=True)`: "" does not exist, a
   * file at `path` itself already exists, and otherwise the first `mkdir` lands under a file.
   */
  function MakedirsError(fs: map<string, Node>, path: string): string
  {
    if path == "" then NoSuchFile(path)
    else if path in fs && fs[path].File? then FileExists(path)
    else NotADirectory(FirstMkdir(fs, path))
  }

  /** The `FileNotFoundError` text for `name`. */
  function NoSuchFile(name: string): string
  {
    "[Errno 2] No such file or directory: '" + name + "'"
  }

  /** The `FileExistsError` text for `name`. */
  function FileExists(name: string): string
  {
    "[Errno 17] File exists: '" + name + "'"
  }

  /** The `NotADirectoryError` text for `name`. */
  function NotADirectory(name: string): string
  {
    "[Errno 20] Not a directory: '" + name + "'"
  }

  /**
   * With a file `a` in the way, `makedirs("a/b/c")` fails at its first `mkdir`, of `a/b`, for any
   * names `a`, `b`, `c` without '/'.
   */
  lemma {:induction false} MakedirsUnderFile(a: string, b: string, c: string, size: nat)
    requires a != [] && b != [] && c != [] && !HasChar(a, '/') && !HasChar(b, '/') && !HasChar(c, '/')
    ensures MakedirsError(map[a := File(size)], a + "/" + b + "/" + c) == NotADirectory(a + "/" + b)
  {
    var fs := map[a := File(size)];
    assert a[|a| - 1] != '/' && b[0] != '/' && b[|b| - 1] != '/' && c[0] != '/';
    var ab := a + "/" + b;
    var p := ab + "/" + c;
    assert PathJoin(a, b) == ab && PathJoin(ab, c) == p by {
      assert !StartsWith(b, "/") && !StartsWith(c, "/");
    }
    assert ab[|ab| - 1] == b[|b| - 1];
    Models.DirnameOfJoin(a, b);
    Models.DirnameOfJoin(ab, c);
    OnlyKey(a, ab, size);
    OnlyKey(a, p, size);
    FirstMkdirBelow(fs, a, ab, p);
  }

  lemma {:induction false} OnlyKey(a: string, k: string, size: nat)
    requires |k| > |a|
    ensures a in map[a := File(size)] && k !in map[a := File(size)]
  {
  }

  /** `makedirs(p)` climbs from `p` to its missing parent `ab`, whose own parent `a` exists. */
  lemma {:induction false} FirstMkdirBelow(fs: map<string, Node>, a: string, ab: string, p: string)
    requires Dirname(p) == ab && Dirname(ab) == a && a != "" && |a| < |ab| < |p|
    requires a in fs && ab !in fs && p !in fs
    ensures FirstMkdir(fs, p) == ab
  {
  }

  /** `os.makedirs(path, exist_ok=True)` succeeds: a non-empty path with no file where a directory must go. */
  predicate CanMake(fs: map<string, Node>, path: string)
  {
    path != "" && forall a :: a in Ancestors(path) && a in fs ==> fs[a].Dir?
  }

  /** `d` is a directory of `fs` with nothing inside it. */
  predicate EmptyIn(fs: map<string, Node>, d: string)
  {
    d in fs && fs[d].Dir? && forall p :: p in fs ==> !Under(p, d)
  }

  /** The directories strictly below `root` that are empty. */
  function EmptyBelow(fs: map<string, Node>, root: string): set<string>
  {
    set d | d in fs && Under(d, root) && EmptyIn(fs, d)
  }

  /** The entries of `ds` other than `root` that are empty directories. */
  function EmptyAmong(fs: map<string, Node>, root: string, ds: seq<string>): set<string>
    decreases |ds|
  {
    if ds == [] then {}
    else
      var d := ds[|ds| - 1];
      EmptyAmong(fs, root, ds[..|ds| - 1]) + (if d != root && EmptyIn(fs, d) then {d} else {})
  }

  lemma {:induction false} EmptyAmongMember(fs: map<string, Node>, root: string, ds: seq<string>, x: string)
    ensures x in EmptyAmong(fs, root, ds) <==> x in ds && x != root && EmptyIn(fs, x)
    decreases |ds|
  {
    if ds != [] {
      var front := ds[..|ds| - 1];
      EmptyAmongMember(fs, root, front, x);
      assert ds == front + [ds[|ds| - 1]];
    }
  }

  /** One more entry of a walk without repeats: the set grows by it exactly when it is empty. */
  lemma {:induction false} EmptyAmongStep(fs: map<string, Node>, root: string, walk: seq<string>, i: nat)
    requires i < |walk| && forall a, b :: 0 <= a < b < |walk| ==> walk[a] != walk[b]
    ensures walk[i] != root && EmptyIn(fs, walk[i]) ==> EmptyAmong(fs, root, walk[..i + 1]) == EmptyAmong(fs, root, walk[..i]) + {walk[i]}
    ensures walk[i] != root && EmptyIn(fs, walk[i]) ==> |EmptyAmong(fs, root, walk[..i + 1])| == |EmptyAmong(fs, root, walk[..i])| + 1
    ensures !(walk[i] != root && EmptyIn(fs, walk[i])) ==> EmptyAmong(fs, root, walk[..i + 1]) == EmptyAmong(fs, root, walk[..i])
  {
    var d := walk[i];
    assert walk[..i + 1][..i] == walk[..i];
    EmptyAmongMember(fs, root, walk[..i], d);
    assert d !in walk[..i];
  }

  lemma {:induction false} EmptyAmongAll(fs: map<string, Node>, root: string, walk: seq<string>)
    requires forall d :: d in walk <==> d in fs && fs[d].Dir? && (d == root || Under(d, root))
    ensures EmptyAmong(fs, root, walk) == EmptyBelow(fs, root)
  {
    forall x ensures x in EmptyAmong(fs, root, walk) <==> x in EmptyBelow(fs, root) {
      EmptyAmongMember(fs, root, walk, x);
      if Under(x, root) {
        UnderNotSelf(x, root);
      }
    }
  }

  lemma {:induction false} UnderNotSelf(p: string, d: string)
    requires Under(p, d)
    ensures p != d
  {
    assert |p| >= |d| + 1;
  }
}
