// The archive handling of src/core/archive.py: the table of supported extensions, the
// case-insensitive suffix test, the extractors with their unsafe-name checks, the clean-up
// and ZIP fallback of `extract_archive`, and the search for CSS files. An archive is what its
// reader lists: a sequence of entries, or the error the reader raised on opening it. The
// file system is the entries extracted so far into each directory.
module Archive {
  import opened Common
  import opened Strings
  import opened Paths

  /** The three extraction methods of the table. */
  datatype Extractor = ZipExtractor | TarExtractor | LibarchiveExtractor

  datatype Entry = Entry(name: string, isDir: bool)

  /** What a reader makes of the archive file: its entries, or the reason it refused it. */
  datatype Reading = Unreadable(reason: string) | Entries(entries: seq<Entry>)

  /**
   * The result of one extractor, whether it created (or wrote into) the extraction directory,
   * and what it left there, in order.
   */
  datatype Extraction = Extraction(result: Result<string>, made: bool, written: seq<Entry>)

  /** The extensions that are always supported, in the order of the table. */
  const BaseExtensions: seq<(string, Extractor)> :=
    [(".zip", ZipExtractor), (".xpi", ZipExtractor), (".tar", TarExtractor), (".tar.gz", TarExtractor),
     (".tgz", TarExtractor), (".tar.bz2", TarExtractor), (".tbz2", TarExtractor)]

  /** The extensions added when libarchive could be imported. */
  const LibarchiveExtensions: seq<(string, Extractor)> :=
    [(".7z", LibarchiveExtractor), (".rar", LibarchiveExtractor), (".iso", LibarchiveExtractor)]

  /** The first table position at or after `i` whose extension ends `name`, or `|table|`. */
  function FirstMatch(table: seq<(string, Extractor)>, name: string, i: nat): (k: nat)
    requires i <= |table|
    ensures i <= k <= |table|
    ensures forall j :: i <= j < k ==> !EndsWith(name, table[j].0)
    ensures k < |table| ==> EndsWith(name, table[k].0)
    decreases |table| - i
  {
    if i == |table| || EndsWith(name, table[i].0) then i else FirstMatch(table, name, i + 1)
  }

  /** Entries appended to a table do not change which earlier entry a name matches. */
  lemma {:induction false} FirstMatchPrefix(a: seq<(string, Extractor)>, b: seq<(string, Extractor)>, name: string, i: nat)
    requires i <= |a|
    ensures FirstMatch(a, name, i) < |a| ==> FirstMatch(a + b, name, i) == FirstMatch(a, name, i)
    ensures FirstMatch(a, name, i) == |a| ==> FirstMatch(a + b, name, i) >= |a|
    decreases |a| - i
  {
    if i < |a| {
      assert (a + b)[i] == a[i];
      if !EndsWith(name, a[i].0) {
        FirstMatchPrefix(a, b, name, i + 1);
      }
    }
  }

  /** The names `file_path.startswith('/') or '..' in file_path` refuses. */
  predicate UnsafeName(name: string)
  {
    StartsWith(name, "/") || Contains(name, "..")
  }

  /** The position of the first entry at or after `i` with an unsafe name, or `|entries|`. */
  function FirstUnsafe(entries: seq<Entry>, i: nat): (k: nat)
    requires i <= |entries|
    ensures i <= k <= |entries|
    ensures forall j :: i <= j < k ==> !UnsafeName(entries[j].name)
    ensures k < |entries| ==> UnsafeName(entries[k].name)
    decreases |entries| - i
  {
    if i == |entries| || UnsafeName(entries[i].name) then i else FirstUnsafe(entries, i + 1)
  }

  /** What `dir` holds, or `None` when it does not exist. */
  function Existing(disk: map<string, seq<Entry>>, dir: string): (c: Option<seq<Entry>>)
    ensures c.Some? <==> dir in disk
    ensures c.Some? ==> c.value == disk[dir]
  {
    if dir in disk then Some(disk[dir]) else None
  }

  /**
   * The file system after an extractor that `made` the directory `dir` left `written` in it;
   * an extractor that did not touch it leaves the file system as it was.
   */
  function Written(disk: map<string, seq<Entry>>, dir: string, made: bool, written: seq<Entry>): (d: map<string, seq<Entry>>)
    ensures !made ==> d == disk
    ensures made ==> d.Keys == disk.Keys + {dir}
    ensures made ==> d[dir] == (if dir in disk then disk[dir] else []) + written
    ensures forall p :: p in disk && p != dir ==> p in d && d[p] == disk[p]
  {
    if !made then disk
    else disk[dir := (if dir in disk then disk[dir] else []) + written]
  }

  /**
   * What one entry streamed into the extraction directory leaves there: a file entry is
   * written; a directory entry only has `os.makedirs` create the directory its joined path
   * names the parent of, which is nothing new when that parent is the extraction directory.
   */
  function Left(e: Entry): (r: seq<Entry>)
    ensures !e.isDir ==> r == [e]
    ensures e.isDir ==> (r == [] <==> NormPath(Dirname(e.name)) == ".")
    ensures e.isDir && r != [] ==> r == [Entry(Dirname(e.name), true)] && HasChar(e.name, '/')
  {
    if !e.isDir then [e]
    else
      var d := Dirname(e.name);
      if NormPath(d) == "." then [] else [Entry(d, true)]
  }

  /** What the streamed entries leave in the extraction directory, in order. */
  function Created(entries: seq<Entry>): (r: seq<Entry>)
    ensures |r| <= |entries|
    decreases |entries|
  {
    if entries == [] then []
    else Created(entries[..|entries| - 1]) + Left(entries[|entries| - 1])
  }

  /** An archive of files alone leaves exactly its entries. */
  lemma {:induction false} CreatedFiles(entries: seq<Entry>)
    requires forall i :: 0 <= i < |entries| ==> !entries[i].isDir
    ensures Created(entries) == entries
    decreases |entries|
  {
    if entries != [] {
      var front := entries[..|entries| - 1];
      CreatedFiles(front);
      assert entries == front + [entries[|entries| - 1]];
    }
  }

  /** Every file entry is left in the extraction directory. */
  lemma {:induction false} CreatedKeepsFiles(entries: seq<Entry>, i: nat)
    requires i < |entries| && !entries[i].isDir
    ensures entries[i] in Created(entries)
    decreases |entries|
  {
    var front := entries[..|entries| - 1];
    if i < |front| {
      assert front[i] == entries[i];
      CreatedKeepsFiles(front, i);
    }
  }

  /** The entries leave nothing exactly when no single entry leaves anything. */
  lemma {:induction false} CreatedEmpty(entries: seq<Entry>)
    ensures Created(entries) == [] <==> forall i :: 0 <= i < |entries| ==> Left(entries[i]) == []
    decreases |entries|
  {
    if entries != [] {
      var front := entries[..|entries| - 1];
      var last := entries[|entries| - 1];
      CreatedEmpty(front);
      assert Created(entries) == Created(front) + Left(last);
      if Created(entries) == [] {
        assert |Created(front)| == 0 && |Left(last)| == 0;
        forall i | 0 <= i < |entries| ensures Left(entries[i]) == [] {
          if i < |front| {
            assert entries[i] == front[i];
          } else {
            assert entries[i] == last;
          }
        }
      } else if Created(front) != [] {
        var j :| 0 <= j < |front| && Left(front[j]) != [];
        assert entries[j] == front[j];
      }
    }
  }

  /** The entries leave nothing exactly when each is a directory entry directly inside the extraction directory. */
  lemma {:induction false} CreatedNothing(entries: seq<Entry>)
    ensures Created(entries) == [] <==>
              forall i :: 0 <= i < |entries| ==> entries[i].isDir && NormPath(Dirname(entries[i].name)) == "."
  {
    CreatedEmpty(entries);
    forall i | 0 <= i < |entries|
      ensures Left(entries[i]) == [] <==> entries[i].isDir && NormPath(Dirname(entries[i].name)) == "."
    {
    }
  }

  /** The `ArchiveError` an extractor raises inside its `try`, re-wrapped by its own handler. */
  function Failure(format: string, detail: string): (r: Result<string>)
    ensures r.Err? && r.error.kind == ArchiveError
  {
    Fail(ArchiveError, format + " extraction error: " + detail)
  }

  const UnsafePath := "Potentially unsafe path in archive: "
  const NoFiles := " extraction produced no files"

  /** The message of the `FileNotFoundError` `os.listdir` raises for a missing directory. */
  function NoSuchDirectory(dir: string): string
  {
    "[Errno 2] No such file or directory: '" + dir + "'"
  }

  /**
   * `_extract_zip` and `_extract_tar` (`format` is "ZIP" or "TAR"): every name is checked
   * before `extractall` writes anything, so an archive is written whole or not at all. The
   * `ArchiveError`s raised inside the `try` reach the caller re-wrapped as "extraction error".
   */
  function CheckedExtraction(format: string, reading: Reading, dir: string, existing: Option<seq<Entry>>): (x: Extraction)
    ensures x.made <==> x.written != []
    ensures x.written == [] || (reading.Entries? && x.written == reading.entries)
    ensures x.written != [] ==> x.result == Ok(dir)
    ensures x.result.Ok? <==> reading.Entries? && FirstUnsafe(reading.entries, 0) == |reading.entries|
                              && (reading.entries != [] || (existing.Some? && existing.value != []))
    ensures x.result.Ok? ==> x.result.value == dir
    ensures x.result.Err? ==> x.result.error.kind == ArchiveError
  {
    match reading
    case Unreadable(reason) =>
      Extraction(Fail(ArchiveError, "Invalid or corrupted " + format + " file: " + reason), false, [])
    case Entries(entries) =>
      var k := FirstUnsafe(entries, 0);
      if k < |entries| then
        Extraction(Failure(format, UnsafePath + entries[k].name), false, [])
      else if entries == [] && existing.None? then
        Extraction(Failure(format, NoSuchDirectory(dir)), false, [])
      else if entries == [] && existing.value == [] then
        Extraction(Failure(format, format + NoFiles), false, [])
      else Extraction(Ok(dir), entries != [], entries)
  }

  /**
   * `_extract_libarchive`: each entry is checked inside the write loop, so what the entries
   * before the first unsafe one left is already on disk when the error is raised. The first
   * safe entry has `os.makedirs` create the extraction directory when it is missing; a
   * directory entry writes nothing itself, so an archive of top-level directories produces no
   * files.
   */
  function StreamedExtraction(reading: Reading, dir: string, existing: Option<seq<Entry>>): (x: Extraction)
    ensures reading.Unreadable? ==> !x.made && x.written == []
    ensures reading.Entries? ==> x.made == (FirstUnsafe(reading.entries, 0) > 0)
    ensures reading.Entries? ==> x.written == Created(reading.entries[..FirstUnsafe(reading.entries, 0)])
    ensures x.result.Ok? <==> reading.Entries? && FirstUnsafe(reading.entries, 0) == |reading.entries|
                              && (Created(reading.entries) != [] || (existing.Some? && existing.value != []))
    ensures x.result.Ok? ==> x.result.value == dir
    ensures x.result.Err? ==> x.result.error.kind == ArchiveError
  {
    match reading
    case Unreadable(reason) => Extraction(Failure("libarchive", reason), false, [])
    case Entries(entries) =>
      var k := FirstUnsafe(entries, 0);
      if k < |entries| then
        Extraction(Failure("libarchive", UnsafePath + entries[k].name), k > 0, Created(entries[..k]))
      else
        assert entries[..k] == entries;
        if entries == [] && existing.None? then
          Extraction(Failure("libarchive", NoSuchDirectory(dir)), false, [])
        else if (if existing.Some? then existing.value else []) + Created(entries) == [] then
          Extraction(Failure("libarchive", "libarchive" + NoFiles), entries != [], Created(entries))
        else Extraction(Ok(dir), entries != [], Created(entries))
  }

  /**
   * The two policies against each other: an archive the streaming extractor accepts is one the
   * checking extractors accept, with the same directory left behind but for the directory
   * entries; the checking extractors accept more, namely the archives of top-level directories
   * going into an empty directory. Only the streaming extractor has written something when a
   * safe entry comes before an unsafe one.
   */
  lemma {:induction false} CheckedAgainstStreamed(format: string, reading: Reading, dir: string, existing: Option<seq<Entry>>)
    ensures var c := CheckedExtraction(format, reading, dir, existing);
            var x := StreamedExtraction(reading, dir, existing);
            && (x.result.Ok? ==> c.result.Ok? && x.made == c.made && x.written == Created(c.written))
            && (c.result.Ok? ==> (x.result.Ok? <==> Created(reading.entries) != [] || (existing.Some? && existing.value != [])))
            && (reading.Entries? && 0 < FirstUnsafe(reading.entries, 0) < |reading.entries| ==> !c.made && x.made)
  {
    if reading.Entries? && FirstUnsafe(reading.entries, 0) == |reading.entries| {
      assert reading.entries[..|reading.entries|] == reading.entries;
    }
  }

  /** On an archive without directory entries the two policies have the same outcome. */
  lemma {:induction false} FilesOnlyAgree(format: string, entries: seq<Entry>, dir: string, existing: Option<seq<Entry>>)
    requires forall i :: 0 <= i < |entries| ==> !entries[i].isDir
    ensures var c := CheckedExtraction(format, Entries(entries), dir, existing);
            var x := StreamedExtraction(Entries(entries), dir, existing);
            (c.result.Ok? <==> x.result.Ok?) && (c.result.Ok? ==> c == x)
  {
    CreatedFiles(entries);
    CheckedAgainstStreamed(format, Entries(entries), dir, existing);
    if CheckedExtraction(format, Entries(entries), dir, existing).result.Ok? && entries == [] {
      assert existing.Some? && existing.value != [];
    }
  }

  /** A lone top-level directory entry: `extractall` creates it, the streaming loop creates nothing. */
  lemma {:induction false} LoneDirectoryEntry(dir: string)
    ensures CheckedExtraction("ZIP", Entries([Entry("sub", true)]), dir, Some([])).result == Ok(dir)
    ensures StreamedExtraction(Entries([Entry("sub", true)]), dir, Some([])).result == Failure("libarchive", "libarchive" + NoFiles)
  {
    var e := Entry("sub", true);
    assert !UnsafeName(e.name) by {
      assert "sub"[..1] != "/" by {
        assert "sub"[..1][0] == 's';
      }
      forall i | 0 <= i <= 3
        ensures !At("sub", i, "..")
      {
        if i + 2 <= 3 {
          assert "sub"[i..i + 2][0] == "sub"[i];
        }
      }
    }
    assert FirstUnsafe([e], 0) == 1 by {
      assert FirstUnsafe([e], 1) == 1;
    }
    assert !HasChar(e.name, '/') by {
      assert forall k :: 0 <= k < 3 ==> "sub"[k] != '/';
    }
    assert Left(e) == [];
    assert Created([e]) == [] by {
      assert [e][..0] == [];
    }
  }

  /** A name ends in ".css" regardless of case. */
  predicate IsCss(name: string)
  {
    EndsWith(Lower(name), ".css")
  }

  /** The CSS files among `files`, joined to `root`, in order. */
  function CssIn(root: string, files: seq<string>): (r: seq<string>)
    ensures |r| <= |files|
    decreases |files|
  {
    if files == [] then []
    else
      var f := files[|files| - 1];
      CssIn(root, files[..|files| - 1]) + (if IsCss(f) then [PathJoin(root, f)] else [])
  }

  /** The CSS files of an `os.walk` listing, a `(root, files)` pair per directory, in walk order. */
  function CssFiles(walk: seq<(string, seq<string>)>): (r: seq<string>)
    decreases |walk|
  {
    if walk == [] then []
    else CssFiles(walk[..|walk| - 1]) + CssIn(walk[|walk| - 1].0, walk[|walk| - 1].1)
  }

  /** Every path `CssIn` reports is a CSS file of the listing joined to the root. */
  lemma {:induction false} CssInSound(root: string, files: seq<string>, x: string)
    ensures x in CssIn(root, files) ==> exists j :: 0 <= j < |files| && IsCss(files[j]) && x == PathJoin(root, files[j])
    decreases |files|
  {
    if files != [] && x in CssIn(root, files) {
      var front := files[..|files| - 1];
      var f := files[|files| - 1];
      if x in CssIn(root, front) {
        CssInSound(root, front, x);
        var j :| 0 <= j < |front| && IsCss(front[j]) && x == PathJoin(root, front[j]);
        assert files[j] == front[j];
      } else {
        assert IsCss(f) && x == PathJoin(root, files[|files| - 1]);
      }
    }
  }

  /** Every CSS file of the listing is reported. */
  lemma {:induction false} CssInComplete(root: string, files: seq<string>, j: nat)
    requires j < |files| && IsCss(files[j])
    ensures PathJoin(root, files[j]) in CssIn(root, files)
    decreases |files|
  {
    var front := files[..|files| - 1];
    if j < |front| {
      assert front[j] == files[j];
      CssInComplete(root, front, j);
    }
  }

  /** Every path `find_css_files` reports is a CSS file of some walked directory, joined to its root. */
  lemma {:induction false} CssFilesSound(walk: seq<(string, seq<string>)>, x: string)
    ensures x in CssFiles(walk) ==>
              exists i, j :: 0 <= i < |walk| && 0 <= j < |walk[i].1| && IsCss(walk[i].1[j]) && x == PathJoin(walk[i].0, walk[i].1[j])
    decreases |walk|
  {
    if walk != [] && x in CssFiles(walk) {
      var front := walk[..|walk| - 1];
      var n := |walk| - 1;
      if x in CssFiles(front) {
        CssFilesSound(front, x);
        var i, j :| 0 <= i < |front| && 0 <= j < |front[i].1| && IsCss(front[i].1[j]) && x == PathJoin(front[i].0, front[i].1[j]);
        assert walk[i] == front[i];
      } else {
        CssInSound(walk[n].0, walk[n].1, x);
        var j :| 0 <= j < |walk[n].1| && IsCss(walk[n].1[j]) && x == PathJoin(walk[n].0, walk[n].1[j]);
        assert 0 <= n < |walk|;
      }
    }
  }

  /** `find_css_files` reports every CSS file of every walked directory. */
  lemma {:induction false} CssFilesComplete(walk: seq<(string, seq<string>)>, i: nat, j: nat)
    requires i < |walk| && j < |walk[i].1| && IsCss(walk[i].1[j])
    ensures PathJoin(walk[i].0, walk[i].1[j]) in CssFiles(walk)
    decreases |walk|
  {
    var front := walk[..|walk| - 1];
    if i < |front| {
      assert front[i] == walk[i];
      CssFilesComplete(front, i, j);
    } else {
      CssInComplete(walk[i].0, walk[i].1, j);
    }
  }

  /** `find_css_files(directory)`: the nested loop over the walk, appending each CSS file. */
  method FindCssFiles(walk: seq<(string, seq<string>)>) returns (css: seq<string>)
    ensures css == CssFiles(walk)
  {
    css := [];
    var i := 0;
    while i < |walk|
      invariant i <= |walk|
      invariant css == CssFiles(walk[..i])
    {
      var (root, files) := walk[i];
      var j := 0;
      while j < |files|
        invariant j <= |files|
        invariant css == CssFiles(walk[..i]) + CssIn(root, files[..j])
      {
        assert files[..j + 1][..j] == files[..j];
        if IsCss(files[j]) {
          css := css + [PathJoin(root, files[j])];
        }
        j := j + 1;
      }
      assert files[..j] == files;
      assert walk[..i + 1][..i] == walk[..i];
      i := i + 1;
    }
    assert walk[..i] == walk;
  }

  /**
   * `validate_extracted_content(extract_dir)`: valid exactly when the path is a directory
   * holding some CSS file, and then the files are those `find_css_files` reports.
   */
  method ValidateExtractedContent(isDir: bool, walk: seq<(string, seq<string>)>) returns (valid: bool, css: seq<string>)
    ensures valid <==> isDir && CssFiles(walk) != []
    ensures css == if valid then CssFiles(walk) else []
  {
    if !isDir {
      return false, [];
    }
    css := FindCssFiles(walk);
    if css == [] {
      return false, [];
    }
    return true, css;
  }

  class ArchiveProcessor {
    /** Whether `import libarchive.public` succeeded. */
    const libarchiveAvailable: bool
    /** `supported_extensions`, in insertion order. */
    const supportedExtensions: seq<(string, Extractor)>
    /** What has been extracted into each directory that exists. */
    var disk: map<string, seq<Entry>>

    /** `__init__`: the base table, then the libarchive formats when the module is there. */
    constructor (libarchiveAvailable: bool, disk: map<string, seq<Entry>>)
      ensures this.libarchiveAvailable == libarchiveAvailable && this.disk == disk
      ensures libarchiveAvailable ==> supportedExtensions == BaseExtensions + LibarchiveExtensions
      ensures !libarchiveAvailable ==> supportedExtensions == BaseExtensions
    {
      this.libarchiveAvailable := libarchiveAvailable;
      var table := BaseExtensions;
      if libarchiveAvailable {
        table := table + LibarchiveExtensions;
      }
      supportedExtensions := table;
      this.disk := disk;
    }

    /** `is_archive(file_path)`: a file whose lower-cased path ends with a supported extension. */
    predicate IsArchive(isFile: bool, filePath: string)
      ensures IsArchive(isFile, filePath) <==>
                isFile && exists i :: 0 <= i < |supportedExtensions| && EndsWith(Lower(filePath), supportedExtensions[i].0)
    {
      isFile && FirstMatch(supportedExtensions, Lower(filePath), 0) < |supportedExtensions|
    }

    /** The table position `extract_archive` dispatches on: the first extension the path ends with. */
    function Chosen(archivePath: string): (k: nat)
      ensures k <= |supportedExtensions|
    {
      FirstMatch(supportedExtensions, Lower(archivePath), 0)
    }

    /** What the extractor at table position `k` does into `dir`. */
    function Primary(k: nat, zip: Reading, tar: Reading, lib: Reading, dir: string, existing: Option<seq<Entry>>): Extraction
      requires k < |supportedExtensions|
    {
      match supportedExtensions[k].1
      case ZipExtractor => CheckedExtraction("ZIP", zip, dir, existing)
      case TarExtractor => CheckedExtraction("TAR", tar, dir, existing)
      case LibarchiveExtractor =>
        if libarchiveAvailable then StreamedExtraction(lib, dir, existing)
        else Extraction(Fail(ArchiveError, "libarchive is not available for this format"), false, [])
    }

    /** `_extract_zip` / `_extract_tar`: the check loop over all entries, then `extractall`. */
    method ExtractAll(format: string, reading: Reading, dir: string) returns (r: Result<string>)
      modifies this
      ensures r == CheckedExtraction(format, reading, dir, Existing(old(disk), dir)).result
      ensures var x := CheckedExtraction(format, reading, dir, Existing(old(disk), dir));
              disk == Written(old(disk), dir, x.made, x.written)
    {
      if reading.Unreadable? {
        return Fail(ArchiveError, "Invalid or corrupted " + format + " file: " + reading.reason);
      }
      var entries := reading.entries;
      var i := 0;
      while i < |entries|
        invariant i <= |entries|
        invariant forall j :: 0 <= j < i ==> !UnsafeName(entries[j].name)
      {
        if UnsafeName(entries[i].name) {
          return Failure(format, UnsafePath + entries[i].name);
        }
        i := i + 1;
      }
      if entries != [] {
        disk := disk[dir := (if dir in disk then disk[dir] else []) + entries];
      }
      if dir !in disk {
        return Failure(format, NoSuchDirectory(dir));
      }
      if disk[dir] == [] {
        return Failure(format, format + NoFiles);
      }
      return Ok(dir);
    }

    /** `_extract_libarchive`: one entry at a time, checked and then written. */
    method ExtractLibarchive(reading: Reading, dir: string) returns (r: Result<string>)
      modifies this
      ensures !libarchiveAvailable ==> r == Fail(ArchiveError, "libarchive is not available for this format") && disk == old(disk)
      ensures libarchiveAvailable ==> r == StreamedExtraction(reading, dir, Existing(old(disk), dir)).result
      ensures libarchiveAvailable ==>
                var x := StreamedExtraction(reading, dir, Existing(old(disk), dir));
                disk == Written(old(disk), dir, x.made, x.written)
    {
      if !libarchiveAvailable {
        return Fail(ArchiveError, "libarchive is not available for this format");
      }
      if reading.Unreadable? {
        return Failure("libarchive", reading.reason);
      }
      var entries := reading.entries;
      var i := 0;
      while i < |entries|
        invariant i <= |entries|
        invariant forall j :: 0 <= j < i ==> !UnsafeName(entries[j].name)
        invariant disk == Written(old(disk), dir, i > 0, Created(entries[..i]))
      {
        if UnsafeName(entries[i].name) {
          return Failure("libarchive", UnsafePath + entries[i].name);
        }
        // The directory is created when missing; then the file, or the subdirectory of a
        // directory entry, goes into it.
        WrittenStep(old(disk), dir, entries, i);
        disk := disk[dir := (if dir in disk then disk[dir] else []) + Left(entries[i])];
        i := i + 1;
      }
      assert entries[..i] == entries;
      if dir !in disk {
        return Failure("libarchive", NoSuchDirectory(dir));
      }
      if disk[dir] == [] {
        return Failure("libarchive", "libarchive" + NoFiles);
      }
      return Ok(dir);
    }

    /** The extractor at table position `k`, run into `dir`. */
    method RunExtractor(k: nat, zip: Reading, tar: Reading, lib: Reading, dir: string) returns (r: Result<string>)
      requires k < |supportedExtensions|
      modifies this
      ensures r == Primary(k, zip, tar, lib, dir, Existing(old(disk), dir)).result
      ensures var x := Primary(k, zip, tar, lib, dir, Existing(old(disk), dir));
              disk == Written(old(disk), dir, x.made, x.written)
    {
      match supportedExtensions[k].1 {
        case ZipExtractor => r := ExtractAll("ZIP", zip, dir);
        case TarExtractor => r := ExtractAll("TAR", tar, dir);
        case LibarchiveExtractor => r := ExtractLibarchive(lib, dir);
      }
    }

    /**
     * `extract_archive(archive_path, extract_dir)`. `tempDir` and `fallbackDir` are the new
     * directories `tempfile.mkdtemp` returns; an empty `extractDir` stands for none given.
     * The extractor of the first matching extension runs; when it fails, its directory is
     * removed and, for any extension but ".zip", the ZIP extractor is tried on a fresh
     * directory before the first error is reported.
     */
    method ExtractArchive(archivePath: string, isFile: bool, extractDir: string, tempDir: string, fallbackDir: string,
                          zip: Reading, tar: Reading, lib: Reading) returns (r: Result<string>)
      modifies this
      ensures !IsArchive(isFile, archivePath) ==> r == Fail(ArchiveError, "Unsupported archive format: " + archivePath) && disk == old(disk)
      ensures IsArchive(isFile, archivePath) ==>
                var dir := if extractDir == "" then tempDir else extractDir;
                var start := if extractDir == "" then old(disk)[tempDir := []] else old(disk);
                var k := Chosen(archivePath);
                var p := Primary(k, zip, tar, lib, dir, Existing(start, dir));
                && (p.result.Ok? ==> r == p.result && disk == Written(start, dir, p.made, p.written))
                && (p.result.Err? ==>
                      (r, disk) == Recovery(Written(start, dir, p.made, p.written), dir, supportedExtensions[k].0, fallbackDir, zip, p.result.error))
    {
      if !IsArchive(isFile, archivePath) {
        return Fail(ArchiveError, "Unsupported archive format: " + archivePath);
      }
      var dir := extractDir;
      if dir == "" {
        dir := tempDir;
        disk := disk[tempDir := []];
      }
      var lower := Lower(archivePath);
      var k := 0;
      // The loop stops at a match before the end: `is_archive` has found one, so the final
      // "Unsupported archive format" of the source cannot be reached.
      while !EndsWith(lower, supportedExtensions[k].0)
        invariant k <= Chosen(archivePath) < |supportedExtensions|
        decreases |supportedExtensions| - k
      {
        k := k + 1;
      }
      var ext := supportedExtensions[k].0;
      var attempt := RunExtractor(k, zip, tar, lib, dir);
      if attempt.Ok? {
        return attempt;
      }
      r := Recover(dir, ext, fallbackDir, zip, attempt.error);
    }

    /** The clean-up after a failed extractor, then the ZIP fallback for other extensions. */
    method Recover(dir: string, ext: string, fallbackDir: string, zip: Reading, error: Error) returns (r: Result<string>)
      modifies this
      ensures (r, disk) == Recovery(old(disk), dir, ext, fallbackDir, zip, error)
    {
      disk := disk - {dir};
      if ext != ".zip" {
        disk := disk[fallbackDir := []];
        var fallback := ExtractAll("ZIP", zip, fallbackDir);
        if fallback.Ok? {
          return fallback;
        }
      }
      return Fail(ArchiveError, "Failed to extract archive: " + error.message);
    }
  }

  /**
   * What `extract_archive` does once the extractor for `ext` failed with `error`: `dir` is
   * removed, then for any extension but ".zip" the ZIP extractor runs into the fresh
   * `fallbackDir`; its failure, or no fallback, reports the first error.
   */
  function Recovery(disk: map<string, seq<Entry>>, dir: string, ext: string, fallbackDir: string, zip: Reading, error: Error)
    : (o: (Result<string>, map<string, seq<Entry>>))
    ensures o.0.Err? ==> o.0 == Fail(ArchiveError, "Failed to extract archive: " + error.message)
    ensures o.0.Ok? <==> ext != ".zip" && CheckedExtraction("ZIP", zip, fallbackDir, Some([])).result.Ok?
    ensures o.0.Ok? ==> o.0.value == fallbackDir
    ensures fallbackDir != dir ==> dir !in o.1
    ensures ext == ".zip" ==> o.1 == disk - {dir}
  {
    var cleaned := disk - {dir};
    if ext == ".zip" then (Fail(ArchiveError, "Failed to extract archive: " + error.message), cleaned)
    else
      var made := cleaned[fallbackDir := []];
      var f := CheckedExtraction("ZIP", zip, fallbackDir, Existing(made, fallbackDir));
      if f.result.Ok? then (f.result, Written(made, fallbackDir, f.made, f.written))
      else (Fail(ArchiveError, "Failed to extract archive: " + error.message), made)
  }

  /** Whatever the failed extractor wrote into `dir` is gone after the clean-up. */
  lemma {:induction false} RecoveryForgetsPartialWrites(disk: map<string, seq<Entry>>, dir: string, made: bool, written: seq<Entry>,
                                                       ext: string, fallbackDir: string, zip: Reading, error: Error)
    ensures Recovery(Written(disk, dir, made, written), dir, ext, fallbackDir, zip, error) == Recovery(disk, dir, ext, fallbackDir, zip, error)
  {
    assert Written(disk, dir, made, written) - {dir} == disk - {dir};
  }

  /** Streaming one more safe entry makes the directory and extends it by what that entry leaves. */
  lemma {:induction false} WrittenStep(disk: map<string, seq<Entry>>, dir: string, entries: seq<Entry>, i: nat)
    requires i < |entries|
    ensures var d := Written(disk, dir, i > 0, Created(entries[..i]));
            d[dir := (if dir in d then d[dir] else []) + Left(entries[i])] == Written(disk, dir, true, Created(entries[..i + 1]))
  {
    assert entries[..i + 1][..i] == entries[..i];
    assert Created(entries[..i + 1]) == Created(entries[..i]) + Left(entries[i]);
    var c := if dir in disk then disk[dir] else [];
    if i > 0 {
      var d := Written(disk, dir, true, Created(entries[..i]));
      assert d == disk[dir := c + Created(entries[..i])] && dir in d && d[dir] == c + Created(entries[..i]);
      assert c + Created(entries[..i]) + Left(entries[i]) == c + Created(entries[..i + 1]);
      UpdateTwice(disk, dir, c + Created(entries[..i]), c + Created(entries[..i + 1]));
    } else {
      assert entries[..i] == [] && Created(entries[..i + 1]) == Left(entries[i]);
    }
  }

  /** With libarchive present, every name the base table accepts dispatches as before. */
  lemma {:induction false} LibarchiveKeepsDispatch(name: string)
    ensures FirstMatch(BaseExtensions, name, 0) < |BaseExtensions| ==>
              FirstMatch(BaseExtensions + LibarchiveExtensions, name, 0) == FirstMatch(BaseExtensions, name, 0)
    ensures FirstMatch(BaseExtensions, name, 0) == |BaseExtensions| ==>
              FirstMatch(BaseExtensions + LibarchiveExtensions, name, 0) >= |BaseExtensions|
  {
    FirstMatchPrefix(BaseExtensions, LibarchiveExtensions, name, 0);
  }
}
