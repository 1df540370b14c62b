// The directive store of src/core/userchrome.py: reading the `@import` directives of a
// userChrome.css text, testing membership, adding, toggling and removing directives.
module UserChrome {
  import opened Common
  import opened Strings
  import opened Models
  import opened ImportSyntax

  // ----- Path normalization -----

  /** `_normalize_import_path`: backslashes become '/', one leading "./" goes, then whitespace is trimmed. */
  function Normalize(path: string): (r: string)
    ensures !HasChar(r, '\\')
    ensures r == [] || (!IsSpace(r[0]) && !IsSpace(r[|r| - 1]))
  {
    var p := ReplaceChar(path, '\\', '/');
    var q := if StartsWith(p, "./") then p[2..] else p;
    StripShape(q);
    assert !HasChar(q, '\\') by {
      forall k | 0 <= k < |q| ensures q[k] != '\\' {
        if StartsWith(p, "./") {
          assert q[k] == p[k + 2];
        }
      }
    }
    StripNoChar(q, '\\');
    Strip(q)
  }

  /** Backslashes and '/' are the same separator. */
  lemma {:induction false} NormalizeBackslashes(path: string)
    ensures Normalize(path) == Normalize(ReplaceChar(path, '\\', '/'))
  {
    var p := ReplaceChar(path, '\\', '/');
    assert ReplaceChar(p, '\\', '/') == p;
  }

  /** A leading "./" is ignored, unless a second one follows it. */
  lemma {:induction false} NormalizeDotSlash(path: string)
    requires !StartsWith(ReplaceChar(path, '\\', '/'), "./")
    ensures Normalize("./" + path) == Normalize(path)
  {
    var p := ReplaceChar("./" + path, '\\', '/');
    assert p == "./" + ReplaceChar(path, '\\', '/');
    assert StartsWith(p, "./") && p[2..] == ReplaceChar(path, '\\', '/');
  }

  /** A path already in normal form is its own normalization. */
  lemma {:induction false} NormalizeClean(path: string)
    requires !HasChar(path, '\\') && !StartsWith(path, "./")
    requires path == [] || (!IsSpace(path[0]) && !IsSpace(path[|path| - 1]))
    ensures Normalize(path) == path
  {
    assert ReplaceChar(path, '\\', '/') == path;
    StripNoSpaces(path);
  }

  // ----- Reading the directives -----

  function Key(e: ImportEntry): string
  {
    Normalize(e.path)
  }

  /** 1 plus the number of newlines before `pos`. */
  function LineNumber(t: string, pos: nat): (n: nat)
    requires pos <= |t|
    ensures n >= 1
  {
    Newlines(t[..pos]) + 1
  }

  /** The text of a match's path group. */
  function PathOf(t: string, m: Match): string
  {
    if m.pathStart <= m.pathEnd <= |t| then t[m.pathStart..m.pathEnd] else []
  }

  /** `start` lies inside one of the text's comment blocks. */
  predicate InComment(t: string, pos: nat)
  {
    var bs := Blocks(t, 0);
    exists k :: 0 <= k < |bs| && bs[k].0 <= pos < bs[k].1
  }

  /** The entry `get_imports` makes of a match: an active-shape one is disabled inside a comment block. */
  function EntryFor(t: string, m: Match, shape: Shape): (e: ImportEntry)
    requires Inside(t, m)
    ensures e.path == PathOf(t, m) && e.lineNumber == Some(LineNumber(t, m.start))
    ensures e.enabled <==> shape == Active && !InComment(t, m.start)
  {
    ImportEntry(PathOf(t, m), shape == Active && !InComment(t, m.start), Some(LineNumber(t, m.start)))
  }

  /** One entry per match of `ms`. */
  function EntriesOf(t: string, ms: seq<Match>, shape: Shape): (es: seq<ImportEntry>)
    requires forall k :: 0 <= k < |ms| ==> Inside(t, ms[k])
    ensures |es| == |ms| && forall k :: 0 <= k < |ms| ==> es[k] == EntryFor(t, ms[k], shape)
  {
    seq(|ms|, k requires 0 <= k < |ms| => EntryFor(t, ms[k], shape))
  }

  function ActiveEntries(t: string): seq<ImportEntry>
  {
    EntriesOf(t, Matches(t, Active), Active)
  }

  function CommentedEntries(t: string): seq<ImportEntry>
  {
    EntriesOf(t, Matches(t, Commented), Commented)
  }

  /** Every match, active shape first, in the order `get_imports` visits them. */
  function Candidates(t: string): seq<ImportEntry>
  {
    ActiveEntries(t) + CommentedEntries(t)
  }

  /** Keeps the first element of each key not yet in `seen`. */
  function Dedup<T>(es: seq<T>, key: T -> string, seen: set<string>): seq<T>
    decreases |es|
  {
    if es == [] then []
    else if key(es[0]) in seen then Dedup(es[1..], key, seen)
    else [es[0]] + Dedup(es[1..], key, seen + {key(es[0])})
  }

  /** The entries `get_imports` returns. */
  function Imports(t: string): (r: seq<ImportEntry>)
    ensures forall e :: e in r ==> e in Candidates(t)
    ensures !HasChar(t, '@') ==> r == []
  {
    DedupSound(Candidates(t), Key, {});
    var r := Dedup(Candidates(t), Key, {});
    assert !HasChar(t, '@') ==> r == [] by {
      if !HasChar(t, '@') {
        NoAtNoScan(t, 0, Active);
        NoAtNoScan(t, 0, Commented);
      }
    }
    r
  }

  /** Every kept element is a candidate whose key was not seen yet. */
  lemma {:induction false} DedupSound<T>(es: seq<T>, key: T -> string, seen: set<string>)
    ensures forall d :: d in Dedup(es, key, seen) ==> d in es && key(d) !in seen
    decreases |es|
  {
    if es != [] {
      DedupSound(es[1..], key, seen + {key(es[0])});
      DedupSound(es[1..], key, seen);
    }
  }

  /** Kept keys are distinct. */
  lemma {:induction false} DedupDistinct<T>(es: seq<T>, key: T -> string, seen: set<string>)
    ensures forall i, j :: 0 <= i < j < |Dedup(es, key, seen)| ==>
              key(Dedup(es, key, seen)[i]) != key(Dedup(es, key, seen)[j])
    decreases |es|
  {
    if es != [] && key(es[0]) !in seen {
      var rest := Dedup(es[1..], key, seen + {key(es[0])});
      DedupDistinct(es[1..], key, seen + {key(es[0])});
      DedupSound(es[1..], key, seen + {key(es[0])});
      assert forall j :: 0 <= j < |rest| ==> key(rest[j]) != key(es[0]);
    } else if es != [] {
      DedupDistinct(es[1..], key, seen);
    }
  }

  /** Every candidate key not seen beforehand is represented by a kept element. */
  lemma {:induction false} DedupComplete<T>(es: seq<T>, key: T -> string, seen: set<string>)
    ensures forall c :: c in es && key(c) !in seen ==> exists d :: d in Dedup(es, key, seen) && key(d) == key(c)
    decreases |es|
  {
    if es != [] {
      DedupComplete(es[1..], key, seen + {key(es[0])});
      DedupComplete(es[1..], key, seen);
    }
  }

  /** `k` is the first index of `es` holding its key. */
  predicate FirstOfKey<T>(es: seq<T>, key: T -> string, k: nat)
  {
    k < |es| && forall j :: 0 <= j < k ==> key(es[j]) != key(es[k])
  }

  /** The first occurrence wins: a kept element is the earliest candidate with its key. */
  lemma {:induction false} DedupFirst<T>(es: seq<T>, key: T -> string, seen: set<string>, d: T)
    requires d in Dedup(es, key, seen)
    ensures exists k: nat :: FirstOfKey(es, key, k) && es[k] == d
    decreases |es|
  {
    if es[0] == d {
      assert FirstOfKey(es, key, 0);
    } else {
      var seen' := if key(es[0]) in seen then seen else seen + {key(es[0])};
      assert d in Dedup(es[1..], key, seen');
      DedupSound(es[1..], key, seen');
      assert key(d) !in seen';
      DedupFirst(es[1..], key, seen', d);
      var k: nat :| FirstOfKey(es[1..], key, k) && es[1..][k] == d;
      assert es[k + 1] == d;
      forall j | 0 <= j < k + 1 ensures key(es[j]) != key(es[k + 1]) {
        if j > 0 {
          assert es[j] == es[1..][j - 1];
        }
      }
      assert FirstOfKey(es, key, k + 1);
    }
  }

  /** `get_imports` yields at most one entry per normalized path. */
  lemma {:induction false} ImportsUnique(t: string)
    ensures forall i, j :: 0 <= i < j < |Imports(t)| ==> Key(Imports(t)[i]) != Key(Imports(t)[j])
  {
    DedupDistinct(Candidates(t), Key, {});
  }

  /** The first candidate of each normalized path wins. */
  lemma {:induction false} ImportsFirstWins(t: string)
    ensures forall d :: d in Imports(t) ==> exists k: nat :: FirstOfKey(Candidates(t), Key, k) && Candidates(t)[k] == d
  {
    var cs := Candidates(t);
    forall d | d in Imports(t) ensures exists k: nat :: FirstOfKey(cs, Key, k) && cs[k] == d {
      DedupFirst(cs, Key, {}, d);
    }
  }

  /** Every directive's normalized path is represented. */
  lemma {:induction false} ImportsComplete(t: string)
    ensures forall c :: c in Candidates(t) ==> exists d :: d in Imports(t) && Key(d) == Key(c)
  {
    DedupComplete(Candidates(t), Key, {});
  }

  /** Comment-shape entries are disabled, so an enabled entry comes from the active-shape scan. */
  lemma {:induction false} ImportsEnabledActive(t: string)
    ensures forall d :: d in Imports(t) && d.enabled ==> d in ActiveEntries(t)
  {
    var cs := Candidates(t);
    DedupSound(cs, Key, {});
    var com := CommentedEntries(t);
    assert forall k :: 0 <= k < |com| ==> !com[k].enabled;
    forall d | d in Imports(t) && d.enabled ensures d in ActiveEntries(t) {
      assert d in cs;
      assert d !in com;
    }
  }

  /** The `enabled` flag and line number of an active-shape entry. */
  lemma {:induction false} ActiveEntryFields(t: string, k: nat)
    requires k < |Matches(t, Active)|
    ensures ActiveEntries(t)[k].enabled <==> !InComment(t, Matches(t, Active)[k].start)
    ensures ActiveEntries(t)[k].lineNumber == Some(Newlines(t[..Matches(t, Active)[k].start]) + 1)
    ensures ActiveEntries(t)[k].path == t[Matches(t, Active)[k].pathStart..Matches(t, Active)[k].pathEnd]
  {
  }

  /** A text without '@' holds no directive. */
  lemma {:induction false} NoAtNoImports(t: string)
    requires !HasChar(t, '@')
    ensures Matches(t, Active) == [] && Matches(t, Commented) == []
    ensures Imports(t) == []
  {
    NoAtNoScan(t, 0, Active);
    NoAtNoScan(t, 0, Commented);
  }

  lemma {:induction false} NoAtNoScan(t: string, i: nat, shape: Shape)
    requires i <= |t| && !HasChar(t, '@')
    ensures Scan(t, MatcherOf(t, shape), i) == []
    decreases |t| - i
  {
    if i < |t| {
      if MatchAt(t, i, shape).Some? {
        MatchParts(t, i, shape, MatchAt(t, i, shape).value);
        assert false;
      }
      NoAtNoScan(t, i + 1, shape);
    }
  }

  /** One step of `Dedup` from position `i`. */
  lemma {:induction false} DedupStep<T>(es: seq<T>, key: T -> string, seen: set<string>, i: nat)
    requires i < |es|
    ensures Dedup(es[i..], key, seen) ==
              if key(es[i]) in seen then Dedup(es[i + 1..], key, seen)
              else [es[i]] + Dedup(es[i + 1..], key, seen + {key(es[i])})
  {
    assert es[i..][0] == es[i] && es[i..][1..] == es[i + 1..];
  }

  /** The inner loop of `get_imports`: whether `pos` lies inside one of the comment blocks. */
  method InCommentBlock(t: string, pos: nat) returns (commented: bool)
    ensures commented == InComment(t, pos)
  {
    var blocks := Blocks(t, 0);
    commented := false;
    var j := 0;
    while j < |blocks| && !commented
      invariant 0 <= j <= |blocks|
      invariant commented <==> exists k :: 0 <= k < j && blocks[k].0 <= pos < blocks[k].1
    {
      if blocks[j].0 <= pos < blocks[j].1 {
        commented := true;
      }
      j := j + 1;
    }
  }

  /** The keys of `es`. */
  function Keys<T>(es: seq<T>, key: T -> string): (ks: set<string>)
    ensures forall k :: 0 <= k < |es| ==> key(es[k]) in ks
    decreases |es|
  {
    if es == [] then {} else {key(es[0])} + Keys(es[1..], key)
  }

  /** Filtering a concatenation: the second part is filtered against the keys of the first as well. */
  lemma {:induction false} DedupAppend<T>(a: seq<T>, b: seq<T>, key: T -> string, seen: set<string>)
    ensures Dedup(a + b, key, seen) == Dedup(a, key, seen) + Dedup(b, key, seen + Keys(a, key))
    decreases |a|
  {
    if a == [] {
      assert a + b == b;
      assert seen + Keys(a, key) == seen;
    } else {
      assert (a + b)[0] == a[0] && (a + b)[1..] == a[1..] + b;
      var seen' := if key(a[0]) in seen then seen else seen + {key(a[0])};
      DedupAppend(a[1..], b, key, seen');
      assert seen' + Keys(a[1..], key) == seen + Keys(a, key);
    }
  }

  /**
   * One loop of `get_imports` over the matches `ms` of one shape: each match's entry is kept when
   * its normalized path is not in `seen_paths` yet, and the path is added to `seen_paths`.
   */
  method KeepNew(t: string, ms: seq<Match>, shape: Shape, key: ImportEntry -> string,
                 imports0: seq<ImportEntry>, seen0: set<string>)
    returns (imports: seq<ImportEntry>, seen: set<string>)
    requires forall k :: 0 <= k < |ms| ==> Inside(t, ms[k])
    ensures imports == imports0 + Dedup(EntriesOf(t, ms, shape), key, seen0)
    ensures seen == seen0 + Keys(EntriesOf(t, ms, shape), key)
  {
    ghost var es := EntriesOf(t, ms, shape);
    imports, seen := imports0, seen0;
    var i := 0;
    assert es[..0] == [];
    while i < |ms|
      invariant 0 <= i <= |ms|
      invariant imports == imports0 + Dedup(es[..i], key, seen0)
      invariant seen == seen0 + Keys(es[..i], key)
    {
      var entry := MakeEntry(t, ms[i], shape);
      KeepAdvance(es, key, i, seen0, imports0, imports, seen);
      var k := key(entry);
      if k !in seen {
        imports := imports + [entry];
        seen := seen + {k};
      }
      i := i + 1;
    }
    assert es[..i] == es;
  }

  /** The entry of one match, with the inner loop over the comment blocks for the active shape. */
  method MakeEntry(t: string, m: Match, shape: Shape) returns (entry: ImportEntry)
    requires Inside(t, m)
    ensures entry == EntryFor(t, m, shape)
  {
    var enabled := false;
    if shape == Active {
      var commented := InCommentBlock(t, m.start);
      enabled := !commented;
    }
    entry := ImportEntry(PathOf(t, m), enabled, Some(LineNumber(t, m.start)));
  }

  /** One turn of the loop of `KeepNew` keeps its invariant. */
  lemma {:induction false} KeepAdvance<T>(es: seq<T>, key: T -> string, i: nat, seen0: set<string>,
                                          kept0: seq<T>, kept: seq<T>, seen: set<string>)
    requires i < |es|
    requires kept == kept0 + Dedup(es[..i], key, seen0) && seen == seen0 + Keys(es[..i], key)
    ensures key(es[i]) !in seen ==> kept + [es[i]] == kept0 + Dedup(es[..i + 1], key, seen0)
    ensures key(es[i]) !in seen ==> seen + {key(es[i])} == seen0 + Keys(es[..i + 1], key)
    ensures key(es[i]) in seen ==> kept == kept0 + Dedup(es[..i + 1], key, seen0)
    ensures key(es[i]) in seen ==> seen == seen0 + Keys(es[..i + 1], key)
  {
    KeepStep(es, key, i, seen0);
    if key(es[i]) in seen {
      assert Dedup(es[..i], key, seen0) + [] == Dedup(es[..i], key, seen0);
      AddPresent(seen, key(es[i]));
    } else {
      assert kept0 + Dedup(es[..i], key, seen0) + [es[i]] == kept0 + (Dedup(es[..i], key, seen0) + [es[i]]);
    }
  }

  /** Extending the filtered prefix by one element. */
  lemma {:induction false} KeepStep<T>(es: seq<T>, key: T -> string, i: nat, seen: set<string>)
    requires i < |es|
    ensures Dedup(es[..i + 1], key, seen) ==
              Dedup(es[..i], key, seen) + (if key(es[i]) in seen + Keys(es[..i], key) then [] else [es[i]])
    ensures seen + Keys(es[..i + 1], key) == seen + Keys(es[..i], key) + {key(es[i])}
  {
    assert es[..i + 1] == es[..i] + [es[i]];
    DedupAppend(es[..i], [es[i]], key, seen);
    KeysAppend(es[..i], key, es[i]);
  }

  lemma {:induction false} KeysAppend<T>(es: seq<T>, key: T -> string, e: T)
    ensures Keys(es + [e], key) == Keys(es, key) + {key(e)}
    decreases |es|
  {
    if es == [] {
      assert Keys([e], key) == {key(e)} + Keys([e][1..], key);
    } else {
      assert (es + [e])[1..] == es[1..] + [e];
      KeysAppend(es[1..], key, e);
    }
  }

  /** `get_imports`: the active-shape loop, then the comment-shape loop, sharing `seen_paths`. */
  method GetImports(t: string) returns (imports: seq<ImportEntry>)
    ensures imports == Imports(t)
  {
    var act := Matches(t, Active);
    var com := Matches(t, Commented);
    ImportsSplit(t);
    var seen;
    imports, seen := KeepNew(t, act, Active, Key, [], {});
    assert imports == Dedup(ActiveEntries(t), Key, {});
    imports, seen := KeepNew(t, com, Commented, Key, imports, seen);
  }

  /** The entries are the active-shape ones kept, then the comment-shape ones whose paths are new. */
  lemma {:induction false} ImportsSplit(t: string)
    ensures Imports(t) == Dedup(ActiveEntries(t), Key, {}) + Dedup(CommentedEntries(t), Key, {} + Keys(ActiveEntries(t), Key))
  {
    DedupAppend(ActiveEntries(t), CommentedEntries(t), Key, {});
  }

  // ----- Membership -----

  /** `has_import`: some entry of `get_imports` normalizes to the normalized path. */
  predicate HasImport(t: string, importPath: string)
    ensures HasImport(t, importPath) ==> HasChar(t, '@')
  {
    var imps := Imports(t);
    exists k :: 0 <= k < |imps| && Key(imps[k]) == Normalize(importPath)
  }

  /** `has_import(T, P)` holds exactly when some directive of either shape has P's normalized path. */
  lemma {:induction false} HasImportIff(t: string, importPath: string)
    ensures HasImport(t, importPath) <==>
            exists c :: c in Candidates(t) && Key(c) == Normalize(importPath)
  {
    HasImportSound(t, importPath);
    HasImportComplete(t, importPath);
  }

  lemma {:induction false} HasImportSound(t: string, importPath: string)
    ensures HasImport(t, importPath) ==> exists c :: c in Candidates(t) && Key(c) == Normalize(importPath)
  {
    DedupKeyKept(Candidates(t), Key, Normalize(importPath));
  }

  lemma {:induction false} HasImportComplete(t: string, importPath: string)
    ensures (exists c :: c in Candidates(t) && Key(c) == Normalize(importPath)) ==> HasImport(t, importPath)
  {
    var cs, np := Candidates(t), Normalize(importPath);
    if exists c :: c in cs && Key(c) == np {
      DedupKeyFound(cs, Key, np);
      var imps := Dedup(cs, Key, {});
      var k :| 0 <= k < |imps| && Key(imps[k]) == np;
      assert imps == Imports(t);
    }
  }

  /** A kept element with key `x` is an element with key `x`. */
  lemma {:induction false} DedupKeyKept<T>(es: seq<T>, key: T -> string, x: string)
    ensures (exists k :: 0 <= k < |Dedup(es, key, {})| && key(Dedup(es, key, {})[k]) == x)
            ==> exists c :: c in es && key(c) == x
  {
    var ds := Dedup(es, key, {});
    if exists k :: 0 <= k < |ds| && key(ds[k]) == x {
      var k :| 0 <= k < |ds| && key(ds[k]) == x;
      DedupSound(es, key, {});
      assert ds[k] in ds;
      assert ds[k] in es;
    }
  }

  /** An element with key `x` has a kept representative. */
  lemma {:induction false} DedupKeyFound<T>(es: seq<T>, key: T -> string, x: string)
    ensures (exists c :: c in es && key(c) == x)
            ==> exists k :: 0 <= k < |Dedup(es, key, {})| && key(Dedup(es, key, {})[k]) == x
  {
    var ds := Dedup(es, key, {});
    if exists c :: c in es && key(c) == x {
      var c :| c in es && key(c) == x;
      DedupComplete(es, key, {});
      var d :| d in ds && key(d) == x;
      var k :| 0 <= k < |ds| && ds[k] == d;
      assert key(ds[k]) == x;
    }
  }

  // ----- Adding a directive -----

  /** The largest match end, or -1 for no match. */
  function MaxEnd(ms: seq<Match>): (r: int)
    ensures r >= -1
  {
    if ms == [] then -1
    else
      var r := MaxEnd(ms[..|ms| - 1]);
      if ms[|ms| - 1].end > r then ms[|ms| - 1].end else r
  }

  /** The largest end is -1 exactly for no match, bounds every end and is some match's end. */
  lemma {:induction false} MaxEndSpec(ms: seq<Match>)
    ensures ms == [] <==> MaxEnd(ms) == -1
    ensures forall k :: 0 <= k < |ms| ==> ms[k].end <= MaxEnd(ms)
    ensures ms != [] ==> exists k :: 0 <= k < |ms| && ms[k].end == MaxEnd(ms)
  {
    if ms != [] {
      var init := ms[..|ms| - 1];
      MaxEndSpec(init);
      assert forall k :: 0 <= k < |init| ==> ms[k] == init[k];
      if init != [] && ms[|ms| - 1].end <= MaxEnd(init) {
        var k :| 0 <= k < |init| && init[k].end == MaxEnd(init);
        assert ms[k].end == MaxEnd(ms);
      }
    }
  }

  lemma {:induction false} MaxEndStep(ms: seq<Match>, i: nat)
    requires i < |ms|
    ensures MaxEnd(ms[..i + 1]) == if ms[i].end > MaxEnd(ms[..i]) then ms[i].end else MaxEnd(ms[..i])
  {
    assert ms[..i + 1][..i] == ms[..i];
  }

  /** All matches of both shapes, in the order `_get_last_import_position` collects them. */
  function AllMatches(t: string): (ms: seq<Match>)
    ensures forall k :: 0 <= k < |ms| ==> Inside(t, ms[k])
  {
    Matches(t, Active) + Matches(t, Commented)
  }

  /** `_get_last_import_position`: the end of the line of the last-ending match, or -1. */
  function LastImportPosition(t: string): (r: int)
    ensures -1 <= r <= |t|
  {
    var ms := AllMatches(t);
    if ms == [] then -1
    else
      var last := MaxEnd(ms);
      var nl := FindChar(t, '\n', last);
      if nl == -1 then |t| else nl
  }

  /**
   * The insertion point: -1 exactly when there is no match; otherwise it lies at or after every
   * match's end, on a newline or at the end of the text, with no newline between it and the end
   * of some match.
   */
  lemma {:induction false} LastImportPositionSpec(t: string)
    ensures LastImportPosition(t) == -1 <==> AllMatches(t) == []
    ensures var r := LastImportPosition(t);
            r >= 0 ==>
              (r == |t| || t[r] == '\n')
              && (forall k :: 0 <= k < |AllMatches(t)| ==> AllMatches(t)[k].end <= r)
              && exists k :: 0 <= k < |AllMatches(t)| && forall x :: AllMatches(t)[k].end <= x < r ==> t[x] != '\n'
  {
    var ms := AllMatches(t);
    MaxEndSpec(ms);
    if ms != [] {
      var last := MaxEnd(ms);
      var k :| 0 <= k < |ms| && ms[k].end == last;
      assert Inside(t, ms[k]);
    }
  }

  /** `_get_last_import_position`: both scans collect the match ends, the largest wins. */
  method GetLastImportPosition(t: string) returns (pos: int)
    ensures pos == LastImportPosition(t)
  {
    var act := Matches(t, Active);
    var com := Matches(t, Commented);
    assert [] + act == act;
    var last := LargestEnd([], act, -1);
    last := LargestEnd(act, com, last);
    assert act + com == AllMatches(t);
    if last == -1 {
      return -1;
    }
    var nl := FindChar(t, '\n', last);
    pos := if nl == -1 then |t| else nl;
  }

  /** One loop of `_get_last_import_position`: `last` goes from the largest end of `seen` to that of `seen + ms`. */
  method LargestEnd(ghost seen: seq<Match>, ms: seq<Match>, last0: int) returns (last: int)
    requires last0 == MaxEnd(seen)
    ensures last == MaxEnd(seen + ms)
  {
    last := last0;
    var i := 0;
    assert seen + ms[..0] == seen;
    while i < |ms|
      invariant 0 <= i <= |ms|
      invariant last == MaxEnd(seen + ms[..i])
    {
      MaxEndStep(seen + ms, |seen| + i);
      assert (seen + ms)[..|seen| + i] == seen + ms[..i];
      assert (seen + ms)[..|seen| + i + 1] == seen + ms[..i + 1];
      if ms[i].end > last {
        last := ms[i].end;
      }
      i := i + 1;
    }
    assert ms[..i] == ms;
  }

  /** `add_import`: unchanged when present; else the directive goes after the last match, or first. */
  function AddImport(t: string, importPath: string): (r: string)
    ensures r == t <==> HasImport(t, importPath)
    ensures |r| > |t| <==> !HasImport(t, importPath)
  {
    if HasImport(t, importPath) then t
    else
      var pos := LastImportPosition(t);
      if pos >= 0 then t[..pos] + "\n" + Directive(importPath) + t[pos..]
      else Directive(importPath) + "\n\n" + t
  }

  /**
   * What `add_import` changes: nothing when the path is present; otherwise one directive is
   * inserted, on a new line after the line of the last-ending match, or in front of the text
   * when there is no match, and every original character keeps its place in the order.
   */
  lemma {:induction false} AddImportSpec(t: string, importPath: string)
    ensures HasImport(t, importPath) ==> AddImport(t, importPath) == t
    ensures !HasImport(t, importPath) && AllMatches(t) == [] ==>
              AddImport(t, importPath) == Directive(importPath) + "\n\n" + t
    ensures !HasImport(t, importPath) && AllMatches(t) != [] ==>
              exists pos :: 0 <= pos <= |t|
                && AddImport(t, importPath) == t[..pos] + "\n" + Directive(importPath) + t[pos..]
                && (pos == |t| || t[pos] == '\n')
                && (forall k :: 0 <= k < |AllMatches(t)| ==> AllMatches(t)[k].end <= pos)
  {
    LastImportPositionSpec(t);
  }

  /** After `add_import(T, P)` for a plain path P, `has_import` finds P. */
  lemma {:induction false} AddImportThenHas(t: string, importPath: string)
    requires PlainPath(importPath)
    ensures HasImport(AddImport(t, importPath), importPath)
  {
    if !HasImport(t, importPath) {
      var x := InsertedAt(t, importPath);
      DirectiveFound(AddImport(t, importPath), x, importPath);
    }
  }

  /** Where `add_import` puts the new directive: at the start of the text or of a line. */
  lemma {:induction false} InsertedAt(t: string, importPath: string) returns (x: nat)
    requires !HasImport(t, importPath)
    ensures At(AddImport(t, importPath), x, Directive(importPath))
    ensures x == 0 || AddImport(t, importPath)[x - 1] == '\n'
  {
    var d := Directive(importPath);
    var pos := LastImportPosition(t);
    if pos >= 0 {
      x := pos + 1;
      assert AddImport(t, importPath) == t[..pos] + "\n" + d + t[pos..];
      SpliceAt(t[..pos], d, t[pos..]);
    } else {
      x := 0;
      assert AddImport(t, importPath) == d + "\n\n" + t;
      assert (d + "\n\n" + t)[..|d|] == d;
    }
  }

  lemma {:induction false} SpliceAt(a: string, d: string, b: string)
    ensures At(a + "\n" + d + b, |a| + 1, d) && (a + "\n" + d + b)[|a|] == '\n'
  {
    var r := a + "\n" + d + b;
    assert r[|a| + 1..|a| + 1 + |d|] == d;
  }

  /** A directive for a plain path at the start of the text or of a line is seen by `has_import`. */
  lemma {:induction false} DirectiveFound(t: string, x: nat, path: string)
    requires PlainPath(path) && At(t, x, Directive(path))
    requires x == 0 || t[x - 1] == '\n'
    ensures HasImport(t, path)
  {
    DirectiveMatch(t, x, path);
    if x > 0 {
      assert t[x] == Directive(path)[0];
      NoActiveAcross(t, x);
    }
    ScanReaches(t, MatcherOf(t, Active), 0, x);
    DirectiveParts(t, x, path);
    FoundCandidate(t, x, path);
  }

  /** A directive for `path` found by the active scan makes `has_import` true for `path`. */
  lemma {:induction false} FoundCandidate(t: string, x: nat, path: string)
    requires MatchAt(t, x, Active) == Some(Match(x, x, x + 8, x + 13, x + 13 + |path|, x + 16 + |path|))
    requires MatchAt(t, x, Active).value in Matches(t, Active)
    requires t[x + 13..x + 13 + |path|] == path
    ensures HasImport(t, path)
  {
    var ms := Matches(t, Active);
    var k :| 0 <= k < |ms| && ms[k] == MatchAt(t, x, Active).value;
    var c := ActiveEntries(t)[k];
    assert c.path == path;
    assert c in Candidates(t);
    HasImportComplete(t, path);
  }

  // ----- A stylesheet holding one directive -----

  /** A text without '*' opens no comment and holds no comment-shape directive. */
  lemma {:induction false} NoStarNoComments(t: string, i: nat)
    requires i <= |t| && !HasChar(t, '*')
    ensures Scan(t, MatcherOf(t, Commented), i) == [] && Blocks(t, i) == []
    decreases |t| - i
  {
    if i < |t| {
      assert !At(t, i, "/*") by {
        if i + 2 <= |t| {
          assert t[i + 1] != '*';
        }
      }
      NoStarNoComments(t, i + 1);
    }
  }

  /** A stylesheet that is a single directive has that one enabled entry, on line 1. */
  lemma {:induction false} SingleDirectiveImports(path: string)
    requires PlainPath(path) && !HasChar(path, '*')
    ensures Imports(Directive(path)) == [ImportEntry(path, true, Some(1))]
  {
    var t := Directive(path);
    var m := Match(0, 0, 8, 13, 13 + |path|, 16 + |path|);
    SingleDirectiveScan(t, path, m);
    var e := ImportEntry(path, true, Some(1));
    assert !InComment(t, 0);
    assert PathOf(t, m) == path;
    FirstEntry(t, m, path);
    OneEntry(t, m, Active);
    assert ActiveEntries(t) == [e];
    assert CommentedEntries(t) == [];
    assert Candidates(t) == [e];
    assert Dedup([e], Key, {}) == [e];
  }

  lemma {:induction false} FirstEntry(t: string, m: Match, path: string)
    requires Inside(t, m) && m.start == 0 && !InComment(t, 0) && PathOf(t, m) == path
    ensures EntryFor(t, m, Active) == ImportEntry(path, true, Some(1))
  {
    assert t[..0] == [];
  }

  lemma {:induction false} OneEntry(t: string, m: Match, shape: Shape)
    requires Inside(t, m)
    ensures EntriesOf(t, [m], shape) == [EntryFor(t, m, shape)]
  {
  }

  lemma {:induction false} SingleDirectiveScan(t: string, path: string, m: Match)
    requires PlainPath(path) && !HasChar(path, '*') && t == Directive(path)
    requires m == Match(0, 0, 8, 13, 13 + |path|, 16 + |path|)
    ensures Matches(t, Active) == [m] && Matches(t, Commented) == [] && Blocks(t, 0) == []
    ensures t[13..13 + |path|] == path
  {
    assert !HasChar(t, '*') by {
      forall k | 0 <= k < |t| ensures t[k] != '*' {
        if 13 <= k < 13 + |path| {
          assert t[k] == path[k - 13];
        }
      }
    }
    assert At(t, 0, t);
    DirectiveMatch(t, 0, path);
    var at := MatcherOf(t, Active);
    assert m.end == |t| && Scan(t, at, m.end) == [];
    assert Scan(t, at, 0) == [m] + Scan(t, at, m.end);
    NoStarNoComments(t, 0);
  }
}
