// `check_circular_imports` of src/core/userchrome.py: a depth-first walk over the stylesheets a
// new directive would pull in, sharing one set of processed paths across the whole walk.
module CircularImports {
  import opened Common
  import opened Strings
  import opened Paths
  import opened Models
  import opened ImportSyntax
  import opened UserChrome

  /**
   * The files below the profile, keyed by their path in `normpath` form: the file system resolves
   * "." and ".." components. A file that exists but cannot be read as UTF-8 text maps to `None`.
   */
  type Files = map<string, Option<string>>

  /**
   * What the walk reads for a normalized key: the file `os.path.join(dir, key)` when
   * `os.path.isfile` holds for it and it opens as text, and nothing otherwise.
   */
  function Read(fs: Files, dir: string, key: string): (r: Option<string>)
    ensures r.Some? <==> IsFile(fs, PathJoin(dir, key)) && fs[NormPath(PathJoin(dir, key))].Some?
  {
    var full := PathJoin(dir, key);
    if IsFile(fs, full) then fs[NormPath(full)] else None
  }

  /** The profile's files as the walk sees them. */
  function Reader(fs: Files, dir: string): (read: string -> Option<string>)
    ensures forall key :: read(key) == Read(fs, dir, key)
  {
    key => Read(fs, dir, key)
  }

  /** `os.path.isfile(p)`. */
  predicate IsFile(fs: Files, p: string)
  {
    NormPath(p) in fs
  }

  // ----- As written -----

  /**
   * `check_circular_imports(profile, path, processed)` with the `chrome` folder `dir`: whether a
   * cycle was reported, and the processed set afterwards (the caller's set is updated in place).
   * The path is normalized on entry although every recursive caller has normalized it already.
   * `depth` is the number of nested calls the interpreter still allows: the call that exceeds it
   * raises `RecursionError`, which the calling frame's `except Exception` turns into `False`.
   */
  function Check(read: string -> Option<string>, norm: string -> string, parse: string -> seq<ImportEntry>, path: string, processed: set<string>, depth: nat): (r: (bool, set<string>))
    decreases depth, 1, 0
  {
    var np := norm(path);
    var seen := processed + {np};
    match read(np)
    case None => (false, seen)
    case Some(content) => CheckEach(read, norm, parse, parse(content), 0, seen, depth)
  }

  /** The loop over the file's directives from the `i`-th on. */
  function CheckEach(read: string -> Option<string>, norm: string -> string, parse: string -> seq<ImportEntry>, es: seq<ImportEntry>, i: nat, seen: set<string>, depth: nat): (r: (bool, set<string>))
    requires i <= |es|
    decreases depth, 0, |es| - i
  {
    if i == |es| then (false, seen)
    else
      var p := norm(es[i].path);
      if p in seen then (true, seen)
      else if depth == 0 then (false, seen)
      else
        var sub := Check(read, norm, parse, p, seen, depth - 1);
        if sub.0 then (true, sub.1) else CheckEach(read, norm, parse, es, i + 1, sub.1, depth)
  }

  /** `check_circular_imports(profile, new_import_path, processed)`. */
  method CheckCircularImports(fs: Files, profile: Profile, newImportPath: string, processed: set<string>, depth: nat)
    returns (found: bool, seen: set<string>)
    ensures (found, seen) == Check(Reader(fs, ChromeDir(profile)), Normalize, Imports, newImportPath, processed, depth)
  {
    found, seen := Walk(Reader(fs, ChromeDir(profile)), Normalize, Imports, newImportPath, processed, depth);
  }

  /** The body of `check_circular_imports`, with the profile's `chrome` folder `dir`. */
  method Walk(read: string -> Option<string>, norm: string -> string, parse: string -> seq<ImportEntry>, path: string, processed: set<string>, depth: nat)
    returns (found: bool, seen: set<string>)
    ensures (found, seen) == Check(read, norm, parse, path, processed, depth)
    decreases depth, 1
  {
    var np := norm(path);
    seen := processed + {np};
    var content := read(np);
    if content.None? {
      return false, seen;
    }
    var imports := parse(content.value);
    found, seen := WalkImports(read, norm, parse, imports, seen, depth);
  }

  /** The `for import_entry in imports` loop, with the processed set it shares with the callees. */
  method WalkImports(read: string -> Option<string>, norm: string -> string, parse: string -> seq<ImportEntry>, imports: seq<ImportEntry>, processed: set<string>, depth: nat)
    returns (found: bool, seen: set<string>)
    ensures (found, seen) == CheckEach(read, norm, parse, imports, 0, processed, depth)
    decreases depth, 0
  {
    ghost var r := CheckEach(read, norm, parse, imports, 0, processed, depth);
    seen := processed;
    var i := 0;
    while i < |imports|
      invariant 0 <= i <= |imports|
      invariant r == CheckEach(read, norm, parse, imports, i, seen, depth)
    {
      var path := norm(imports[i].path);
      if path in seen {
        CheckEachSeen(read, norm, parse, imports, i, seen, depth, path);
        return true, seen;
      }
      if depth == 0 {
        CheckEachDepth(read, norm, parse, imports, i, seen, path);
        return false, seen;
      }
      var f, s := Walk(read, norm, parse, path, seen, depth - 1);
      CheckEachAfter(read, norm, parse, imports, i, seen, depth, path, f, s);
      seen := s;
      if f {
        return true, seen;
      }
      i := i + 1;
    }
    CheckEachEnd(read, norm, parse, imports, seen, depth);
    found := false;
  }

  /** A directive whose path was processed before reports a cycle. */
  lemma {:induction false} CheckEachSeen(read: string -> Option<string>, norm: string -> string, parse: string -> seq<ImportEntry>, es: seq<ImportEntry>, i: nat, seen: set<string>, depth: nat, p: string)
    requires i < |es| && p == norm(es[i].path) && p in seen
    ensures CheckEach(read, norm, parse, es, i, seen, depth) == (true, seen)
  {
  }

  /** Where the interpreter allows no further call, the loop ends without a cycle. */
  lemma {:induction false} CheckEachDepth(read: string -> Option<string>, norm: string -> string, parse: string -> seq<ImportEntry>, es: seq<ImportEntry>, i: nat, seen: set<string>, p: string)
    requires i < |es| && p == norm(es[i].path) && p !in seen
    ensures CheckEach(read, norm, parse, es, i, seen, 0) == (false, seen)
  {
  }

  /** Past the last directive the loop ends without a cycle. */
  lemma {:induction false} CheckEachEnd(read: string -> Option<string>, norm: string -> string, parse: string -> seq<ImportEntry>, es: seq<ImportEntry>, seen: set<string>, depth: nat)
    ensures CheckEach(read, norm, parse, es, |es|, seen, depth) == (false, seen)
  {
  }

  /** Where the loop stops: at the end, at a path already processed, or at the depth limit. */
  lemma {:induction false} CheckEachStops(read: string -> Option<string>, norm: string -> string, parse: string -> seq<ImportEntry>, es: seq<ImportEntry>, i: nat, seen: set<string>, depth: nat)
    requires i <= |es|
    ensures i == |es| ==> CheckEach(read, norm, parse, es, i, seen, depth) == (false, seen)
    ensures i < |es| && norm(es[i].path) in seen ==> CheckEach(read, norm, parse, es, i, seen, depth) == (true, seen)
    ensures i < |es| && norm(es[i].path) !in seen && depth == 0 ==> CheckEach(read, norm, parse, es, i, seen, depth) == (false, seen)
  {
  }

  /** One iteration of the loop that descends into the `i`-th directive. */
  /** After the walk below the `i`-th directive, the loop stops on a cycle and goes on otherwise. */
  lemma {:induction false} CheckEachAfter(read: string -> Option<string>, norm: string -> string, parse: string -> seq<ImportEntry>, es: seq<ImportEntry>, i: nat, seen: set<string>, depth: nat, p: string, f: bool, s: set<string>)
    requires i < |es| && p == norm(es[i].path) && p !in seen && depth > 0
    requires (f, s) == Check(read, norm, parse, p, seen, depth - 1)
    ensures f ==> CheckEach(read, norm, parse, es, i, seen, depth) == (true, s)
    ensures !f ==> CheckEach(read, norm, parse, es, i, seen, depth) == CheckEach(read, norm, parse, es, i + 1, s, depth)
  {
    CheckEachStep(read, norm, parse, es, i, seen, depth);
  }

  lemma {:induction false} CheckEachStep(read: string -> Option<string>, norm: string -> string, parse: string -> seq<ImportEntry>, es: seq<ImportEntry>, i: nat, seen: set<string>, depth: nat)
    requires i < |es| && norm(es[i].path) !in seen && depth > 0
    ensures var sub := Check(read, norm, parse, norm(es[i].path), seen, depth - 1);
            CheckEach(read, norm, parse, es, i, seen, depth) == if sub.0 then (true, sub.1) else CheckEach(read, norm, parse, es, i + 1, sub.1, depth)
  {
  }

  /** Each call adds its normalized path to the processed set, and nothing is ever taken out. */
  lemma {:induction false} CheckGrows(read: string -> Option<string>, norm: string -> string, parse: string -> seq<ImportEntry>, path: string, processed: set<string>, depth: nat)
    ensures processed + {norm(path)} <= Check(read, norm, parse, path, processed, depth).1
    decreases depth, 1, 0
  {
    var np := norm(path);
    if read(np).Some? {
      CheckEachGrows(read, norm, parse, parse(read(np).value), 0, processed + {np}, depth);
    }
  }

  lemma {:induction false} CheckEachGrows(read: string -> Option<string>, norm: string -> string, parse: string -> seq<ImportEntry>, es: seq<ImportEntry>, i: nat, seen: set<string>, depth: nat)
    requires i <= |es|
    ensures seen <= CheckEach(read, norm, parse, es, i, seen, depth).1
    decreases depth, 0, |es| - i
  {
    if i < |es| && norm(es[i].path) !in seen && depth > 0 {
      var p := norm(es[i].path);
      CheckGrows(read, norm, parse, p, seen, depth - 1);
      var sub := Check(read, norm, parse, p, seen, depth - 1);
      if !sub.0 {
        CheckEachGrows(read, norm, parse, es, i + 1, sub.1, depth);
      }
    }
  }

  /** A missing or unreadable target reports no cycle and only records its path. */
  lemma {:induction false} CheckMissing(read: string -> Option<string>, norm: string -> string, parse: string -> seq<ImportEntry>, path: string, processed: set<string>, depth: nat)
    requires read(norm(path)).None?
    ensures Check(read, norm, parse, path, processed, depth) == (false, processed + {norm(path)})
  {
  }

  /** A readable target: the walk is the loop over its directives. */
  lemma {:induction false} CheckOpens(read: string -> Option<string>, norm: string -> string, parse: string -> seq<ImportEntry>, path: string, processed: set<string>, depth: nat, content: string)
    requires read(norm(path)) == Some(content)
    ensures Check(read, norm, parse, path, processed, depth) == CheckEach(read, norm, parse, parse(content), 0, processed + {norm(path)}, depth)
  {
  }

  /** A file whose first directive names a path already processed (or itself) closes a cycle. */
  lemma {:induction false} CheckFirstSeen(read: string -> Option<string>, norm: string -> string, parse: string -> seq<ImportEntry>, path: string, processed: set<string>, depth: nat, content: string)
    requires read(norm(path)) == Some(content)
    requires parse(content) != [] && norm(parse(content)[0].path) in processed + {norm(path)}
    ensures Check(read, norm, parse, path, processed, depth).0
  {
  }

  // ----- Corrected: one normalization -----

  /** Every normalized path some readable file refers to. */
  ghost function Referenced(fs: Files): set<string>
  {
    set v, e | v in fs.Values && v.Some? && e in Imports(v.value) :: Normalize(e.path)
  }

  /**
   * The walk as it is evidently meant to work: the caller normalizes each path once and the
   * callee takes it as it is, so a path is never visited twice under the same spelling and the
   * walk ends without a depth limit.
   */
  function Visit(fs: Files, dir: string, p: string, processed: set<string>): (r: (bool, set<string>))
    ensures processed + {p} <= r.1
    decreases |Referenced(fs) - (processed + {p})|, 1, 0
  {
    var seen := processed + {p};
    var full := PathJoin(dir, p);
    if !IsFile(fs, full) then (false, seen)
    else
      match fs[NormPath(full)]
      case None => (false, seen)
      case Some(content) =>
        ReferencedByFile(fs, NormPath(full), content);
        VisitEach(fs, dir, Imports(content), 0, seen)
  }

  function VisitEach(fs: Files, dir: string, es: seq<ImportEntry>, i: nat, seen: set<string>): (r: (bool, set<string>))
    requires i <= |es|
    requires forall k :: 0 <= k < |es| ==> Normalize(es[k].path) in Referenced(fs)
    ensures seen <= r.1
    decreases |Referenced(fs) - seen|, 0, |es| - i
  {
    if i == |es| then (false, seen)
    else
      var p := Normalize(es[i].path);
      if p in seen then (true, seen)
      else
        FewerLeft(Referenced(fs), seen, p);
        var sub := Visit(fs, dir, p, seen);
        if sub.0 then (true, sub.1)
        else
          NoMoreLeft(Referenced(fs), seen, sub.1);
          VisitEach(fs, dir, es, i + 1, sub.1)
  }

  /** The corrected `check_circular_imports(profile, new_import_path, processed)`. */
  function DetectCycle(fs: Files, profile: Profile, newImportPath: string, processed: set<string>): (r: (bool, set<string>))
    ensures Normalize(newImportPath) in r.1 && processed <= r.1
  {
    Visit(fs, ChromeDir(profile), Normalize(newImportPath), processed)
  }

  lemma {:induction false} ReferencedByFile(fs: Files, key: string, content: string)
    requires key in fs && fs[key] == Some(content)
    ensures forall k :: 0 <= k < |Imports(content)| ==> Normalize(Imports(content)[k].path) in Referenced(fs)
  {
    var es := Imports(content);
    assert fs[key] in fs.Values;
    forall k | 0 <= k < |es| ensures Normalize(es[k].path) in Referenced(fs) {
      assert es[k] in es;
    }
  }

  /** Processing an unprocessed referenced path leaves fewer to process. */
  lemma {:induction false} FewerLeft(u: set<string>, seen: set<string>, p: string)
    requires p in u && p !in seen
    ensures |u - (seen + {p})| < |u - seen|
  {
    assert u - (seen + {p}) == (u - seen) - {p};
  }

  /** Processing more never leaves more to process. */
  lemma {:induction false} NoMoreLeft(u: set<string>, seen: set<string>, more: set<string>)
    requires seen <= more
    ensures |u - more| <= |u - seen|
  {
    assert u - more <= u - seen;
    SubsetCard(u - more, u - seen);
  }

  lemma {:induction false} SubsetCard(a: set<string>, b: set<string>)
    requires a <= b
    ensures |a| <= |b|
  {
    assert b == a + (b - a);
  }

  /** Once a directive of the file names a path already processed, the walk reports a cycle. */
  lemma {:induction false} VisitEachFindsSeen(fs: Files, dir: string, es: seq<ImportEntry>, i: nat, seen: set<string>, k: nat)
    requires i <= k < |es|
    requires forall j :: 0 <= j < |es| ==> Normalize(es[j].path) in Referenced(fs)
    requires Normalize(es[k].path) in seen
    ensures VisitEach(fs, dir, es, i, seen).0
    decreases k - i
  {
    var p := Normalize(es[i].path);
    if p !in seen {
      assert k != i;
      var sub := Visit(fs, dir, p, seen);
      if !sub.0 {
        VisitEachSkip(fs, dir, es, i, seen);
        VisitEachFindsSeen(fs, dir, es, i + 1, sub.1, k);
      }
    }
  }

  /** A new path whose walk finds no cycle hands its processed set on to the next directive. */
  lemma {:induction false} VisitEachSkip(fs: Files, dir: string, es: seq<ImportEntry>, i: nat, seen: set<string>)
    requires i < |es|
    requires forall j :: 0 <= j < |es| ==> Normalize(es[j].path) in Referenced(fs)
    requires Normalize(es[i].path) !in seen && !Visit(fs, dir, Normalize(es[i].path), seen).0
    ensures VisitEach(fs, dir, es, i, seen) == VisitEach(fs, dir, es, i + 1, Visit(fs, dir, Normalize(es[i].path), seen).1)
  {
  }

  /** A file with any directive naming a path already processed (or itself) closes a cycle. */
  lemma {:induction false} VisitFindsSeen(fs: Files, dir: string, p: string, processed: set<string>, content: string, k: nat)
    requires IsFile(fs, PathJoin(dir, p)) && fs[NormPath(PathJoin(dir, p))] == Some(content)
    requires k < |Imports(content)| && Normalize(Imports(content)[k].path) in processed + {p}
    ensures Visit(fs, dir, p, processed).0
  {
    ReferencedByFile(fs, NormPath(PathJoin(dir, p)), content);
    VisitEachFindsSeen(fs, dir, Imports(content), 0, processed + {p}, k);
  }

  /** A missing or unreadable target reports no cycle. */
  lemma {:induction false} VisitMissing(fs: Files, dir: string, p: string, processed: set<string>)
    requires !IsFile(fs, PathJoin(dir, p)) || fs[NormPath(PathJoin(dir, p))].None?
    ensures Visit(fs, dir, p, processed) == (false, processed + {p})
  {
  }

  // ----- Example stylesheets in a folder "c" -----

  /** A name without backslash, leading "./" or surrounding space is its own key. */
  lemma {:induction false} KeyOfName(n: string)
    requires n == "a.css" || n == "b.css"
    ensures Normalize(n) == n
  {
    assert n[0] != '.' && n[0] != ' ' && n[4] != ' ';
    assert !HasChar(n, '\\');
    NormalizeClean(n);
  }

  /** One leading "./" is stripped. */
  lemma {:induction false} KeyOfDotName()
    ensures Normalize("./a.css") == "a.css"
  {
    var p := "./a.css";
    assert !HasChar(p, '\\');
    assert ReplaceChar(p, '\\', '/') == p;
    assert StartsWith(p, "./") && p[2..] == "a.css";
    StripNoSpaces("a.css");
  }

  /** Only one leading "./" is stripped. */
  lemma {:induction false} KeyOfDotDotName()
    ensures Normalize("././a.css") == "./a.css"
  {
    var p := "././a.css";
    assert !HasChar(p, '\\');
    assert ReplaceChar(p, '\\', '/') == p;
    assert StartsWith(p, "./") && p[2..] == "./a.css";
    StripNoSpaces("./a.css");
  }

  /** The folder "c" and the name "a.css" are plain components. */
  lemma {:induction false} ExampleNames()
    ensures PlainName("c") && PlainName("a.css")
  {
    assert "c"[0] != '/';
    var n := "a.css";
    assert n[0] != '/' && n[1] != '/' && n[2] != '/' && n[3] != '/' && n[4] != '/';
  }

  /** `os.path.join("c", "a.css")`, already in `normpath` form. */
  lemma {:induction false} ExamplePath()
    ensures PathJoin("c", "a.css") == "c/a.css" && NormPath("c/a.css") == "c/a.css"
  {
    ExampleJoin();
    ExampleResolve();
  }

  lemma {:induction false} ExampleJoin()
    ensures PathJoin("c", "a.css") == "c/a.css"
  {
    assert "a.css"[0] != '/';
  }

  lemma {:induction false} ExampleResolve()
    ensures NormPath("c/a.css") == "c/a.css"
  {
    ExampleNames();
    NormPathTwo("c", "a.css");
    assert "c" + "/" + "a.css" == "c/a.css";
  }

  /** `os.path.join("c", "./a.css")` names the same file. */
  lemma {:induction false} ExampleDotPath()
    ensures PathJoin("c", "./a.css") == "c/./a.css" && NormPath("c/./a.css") == "c/a.css"
  {
    ExampleDotJoin();
    ExampleDotResolve();
  }

  lemma {:induction false} ExampleDotJoin()
    ensures PathJoin("c", "./a.css") == "c/./a.css"
  {
    assert "./a.css"[0] != '/';
  }

  lemma {:induction false} ExampleDotResolve()
    ensures NormPath("c/./a.css") == "c/a.css"
  {
    ExampleNames();
    NormPathDot("c", "a.css");
    assert "c" + "/./" + "a.css" == "c/./a.css" && "c" + "/" + "a.css" == "c/a.css";
  }

  /** The stylesheet that is one directive for "././a.css" has that one entry. */
  lemma {:induction false} ExampleImports()
    ensures Imports(Directive("././a.css")) == [ImportEntry("././a.css", true, Some(1))]
  {
    var n := "././a.css";
    assert PlainPath(n);
    assert !HasChar(n, '*');
    SingleDirectiveImports(n);
  }

  // ----- A file that imports itself under another spelling -----

  /**
   * The file at `path` holds the one directive `e`, whose key `norm(e.path)` differs from `path`
   * while normalizing that key again gives `path` back: as written every call reopens the same
   * file under the same two keys, so the walk only ends when the depth runs out, reporting nothing.
   */
  lemma {:induction false} RespelledLoop(read: string -> Option<string>, norm: string -> string, parse: string -> seq<ImportEntry>, path: string, content: string, e: ImportEntry, depth: nat)
    requires read(path) == Some(content)
    requires parse(content) == [e]
    requires norm(e.path) != path && norm(norm(e.path)) == path
    ensures CheckEach(read, norm, parse, [e], 0, {path}, depth) == (false, {path})
  {
    if depth == 0 {
      CheckEachStops(read, norm, parse, [e], 0, {path}, depth);
    } else {
      RespelledLoop(read, norm, parse, path, content, e, depth - 1);
      RespelledReopen(read, norm, parse, path, content, e, depth - 1);
      RespelledStep(read, norm, parse, path, e, depth);
    }
  }

  /** The callee reopens the file under its own key and runs the same loop again. */
  lemma {:induction false} RespelledReopen(read: string -> Option<string>, norm: string -> string, parse: string -> seq<ImportEntry>, path: string, content: string, e: ImportEntry, depth: nat)
    requires read(path) == Some(content)
    requires parse(content) == [e]
    requires norm(norm(e.path)) == path
    ensures Check(read, norm, parse, norm(e.path), {path}, depth) == CheckEach(read, norm, parse, [e], 0, {path}, depth)
  {
    CheckOpens(read, norm, parse, norm(e.path), {path}, depth, content);
    AddPresent({path}, norm(norm(e.path)));
  }

  /** A loop whose one directive's callee reports nothing reports nothing. */
  lemma {:induction false} RespelledStep(read: string -> Option<string>, norm: string -> string, parse: string -> seq<ImportEntry>, path: string, e: ImportEntry, depth: nat)
    requires depth > 0 && norm(e.path) != path
    requires Check(read, norm, parse, norm(e.path), {path}, depth - 1) == (false, {path})
    ensures CheckEach(read, norm, parse, [e], 0, {path}, depth) == (false, {path})
  {
    var es := [e];
    assert es[0] == e;
    CheckEachStep(read, norm, parse, es, 0, {path}, depth);
    CheckEachStops(read, norm, parse, es, 1, {path}, depth);
  }

  /** As written, such a self-import is not reported from its own file, at any depth. */
  lemma {:induction false} RespelledMissed(read: string -> Option<string>, norm: string -> string, parse: string -> seq<ImportEntry>, path: string, content: string, e: ImportEntry, depth: nat)
    requires read(path) == Some(content)
    requires parse(content) == [e]
    requires norm(path) == path && norm(e.path) != path && norm(norm(e.path)) == path
    ensures !Check(read, norm, parse, path, {}, depth).0
  {
    CheckOpens(read, norm, parse, path, {}, depth, content);
    assert {} + {path} == {path};
    RespelledLoop(read, norm, parse, path, content, e, depth);
  }

  /** The corrected walk reports any file whose directive resolves back to the file itself. */
  lemma {:induction false} SelfImportFound(fs: Files, dir: string, path: string, content: string, e: ImportEntry)
    requires IsFile(fs, PathJoin(dir, path)) && fs[NormPath(PathJoin(dir, path))] == Some(content)
    requires Imports(content) == [e]
    requires NormPath(PathJoin(dir, Normalize(e.path))) == NormPath(PathJoin(dir, path))
    ensures Visit(fs, dir, path, {}).0
  {
    var es := [e];
    var p := Normalize(e.path);
    assert |es| == 1 && es[0] == e;
    assert {} + {path} == {path};
    if p == path {
      VisitFindsSeen(fs, dir, path, {}, content, 0);
    } else {
      VisitFindsSeen(fs, dir, p, {path}, content, 0);
      ReferencedByFile(fs, NormPath(PathJoin(dir, path)), content);
      assert Visit(fs, dir, path, {}) == VisitEach(fs, dir, es, 0, {path});
      assert VisitEach(fs, dir, es, 0, {path}).0 by {
        assert Visit(fs, dir, p, {path}).0;
      }
    }
  }

  /** `c/a.css` holds `@import url("././a.css");`. */
  function SelfImport(): Files
  {
    map["c/a.css" := Some(Directive("././a.css"))]
  }

  /** What the example needs: the file, its one entry, and the keys of its spellings. */
  lemma {:induction false} SelfImportFacts()
    ensures IsFile(SelfImport(), PathJoin("c", "a.css"))
    ensures SelfImport()[NormPath(PathJoin("c", "a.css"))] == Some(Directive("././a.css"))
    ensures Imports(Directive("././a.css")) == [ImportEntry("././a.css", true, Some(1))]
    ensures Normalize("a.css") == "a.css" && Normalize("././a.css") == "./a.css" && Normalize("./a.css") == "a.css"
    ensures NormPath(PathJoin("c", Normalize("././a.css"))) == NormPath(PathJoin("c", "a.css"))
  {
    ExamplePath();
    ExampleDotPath();
    ExampleImports();
    KeyOfName("a.css");
    KeyOfDotName();
    KeyOfDotDotName();
  }

  /** As written, `a.css` importing itself as "././a.css" is never reported. */
  lemma {:induction false} SelfImportMissed(depth: nat)
    ensures !Check(Reader(SelfImport(), "c"), Normalize, Imports, "a.css", {}, depth).0
  {
    SelfImportFacts();
    RespelledMissed(Reader(SelfImport(), "c"), Normalize, Imports, "a.css", Directive("././a.css"), ImportEntry("././a.css", true, Some(1)), depth);
  }

  /** The corrected walk reports it. */
  lemma {:induction false} SelfImportDetected()
    ensures Visit(SelfImport(), "c", "a.css", {}).0
  {
    SelfImportFacts();
    SelfImportFound(SelfImport(), "c", "a.css", Directive("././a.css"), ImportEntry("././a.css", true, Some(1)));
  }
}
