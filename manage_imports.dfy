// The bulk operations of src/ui/presenters/manage_imports_presenter.py: toggling several imports in
// one pass over the userChrome.css text and removing several through the import service. The view
// is a sink: the model keeps only whether one is attached, and drops what is shown on it.
module ManageImports {
  import opened Common
  import opened Models
  import opened ImportSyntax
  import opened UserChrome
  import Edit = UserChromeEdit
  import IS = ImportService

  // ----- the loop shared by both bulk operations -----

  /**
   * A bulk loop after the given paths: the running state and the number of successes. Empty
   * paths are skipped; a path on which `hit` holds moves the state by `next` and is counted,
   * any other path leaves the state as it is.
   */
  function Fold<S>(s: S, paths: seq<string>, hit: (S, string) -> bool, next: (S, string) -> S): (r: (S, nat))
    decreases |paths|
  {
    if paths == [] then (s, 0)
    else
      var before := Fold(s, paths[..|paths| - 1], hit, next);
      var p := paths[|paths| - 1];
      if p != "" && hit(before.0, p) then (next(before.0, p), before.1 + 1) else before
  }

  /** At most one success per non-empty path; with none, the state is where the loop started. */
  lemma {:induction false} FoldCounts<S>(s: S, paths: seq<string>, hit: (S, string) -> bool, next: (S, string) -> S)
    ensures Fold(s, paths, hit, next).1 <= NonEmpty(paths)
    ensures Fold(s, paths, hit, next).1 == 0 ==> Fold(s, paths, hit, next).0 == s
    decreases |paths|
  {
    if paths != [] {
      FoldCounts(s, paths[..|paths| - 1], hit, next);
    }
  }

  /** The number of non-empty paths. */
  function NonEmpty(paths: seq<string>): (n: nat)
    ensures n <= |paths|
    decreases |paths|
  {
    if paths == [] then 0 else NonEmpty(paths[..|paths| - 1]) + (if paths[|paths| - 1] == "" then 0 else 1)
  }

  /** The loop over `a + b` is the loop over `a`, continued over `b` from where it stopped. */
  lemma {:induction false} FoldAppend<S>(s: S, a: seq<string>, b: seq<string>, hit: (S, string) -> bool, next: (S, string) -> S)
    ensures var ra := Fold(s, a, hit, next);
            var rb := Fold(ra.0, b, hit, next);
            Fold(s, a + b, hit, next) == (rb.0, ra.1 + rb.1)
    decreases |b|
  {
    if b == [] {
      assert a + b == a;
    } else {
      assert (a + b)[..|a + b| - 1] == a + b[..|b| - 1];
      FoldAppend(s, a, b[..|b| - 1], hit, next);
    }
  }

  /** From a state where no path hits, the loop stays put and counts nothing. */
  lemma {:induction false} FoldStuck<S>(s: S, paths: seq<string>, hit: (S, string) -> bool, next: (S, string) -> S)
    requires forall p :: !hit(s, p)
    ensures Fold(s, paths, hit, next) == (s, 0)
    decreases |paths|
  {
    if paths != [] {
      FoldStuck(s, paths[..|paths| - 1], hit, next);
    }
  }

  /** One more path: the loop over `paths[..k + 1]` is the loop over `paths[..k]` and one step. */
  lemma FoldStep<S>(s: S, paths: seq<string>, k: nat, hit: (S, string) -> bool, next: (S, string) -> S, before: (S, nat))
    requires k < |paths| && before == Fold(s, paths[..k], hit, next)
    ensures Fold(s, paths[..k + 1], hit, next) ==
            if paths[k] != "" && hit(before.0, paths[k]) then (next(before.0, paths[k]), before.1 + 1) else before
  {
    assert paths[..k + 1][..k] == paths[..k];
  }

  // ----- toggle_multiple_imports -----

  /**
   * The content and count after the toggle loop: a path is toggled when the running content
   * imports it. At most one toggle per non-empty path; with none, the content is what was read.
   */
  function ToggleFold(content: string, paths: seq<string>): (r: (string, nat))
    ensures r.1 <= NonEmpty(paths)
    ensures r.1 == 0 ==> r.0 == content
  {
    FoldCounts(content, paths, HasImport, Edit.ToggleImport);
    Fold(content, paths, HasImport, Edit.ToggleImport)
  }



  /** Two successes on the same path are two moves in a row. */
  lemma {:induction false} FoldTwice<S>(s: S, p: string, hit: (S, string) -> bool, next: (S, string) -> S)
    ensures Fold(s, [p, p], hit, next).1 == 2 ==> Fold(s, [p, p], hit, next).0 == next(next(s, p), p)
  {
    assert [p, p][..1] == [p];
    assert [p][..0] == [];
    var once := Fold(s, [p], hit, next);
    assert once.1 <= 1 && (once.1 == 1 ==> once.0 == next(s, p)) by {
      assert Fold(s, [], hit, next) == (s, 0);
    }
  }

  /**
   * Selecting the same import twice in one bulk toggle leaves a clean stylesheet as it was, when
   * both toggles found the import.
   */
  lemma ToggleSameTwice(qs: seq<Edit.Piece>, p: string)
    requires Edit.Clean(qs) && PlainPath(Normalize(p))
    ensures ToggleFold(Edit.Render(qs), [p, p]).1 == 2 ==> ToggleFold(Edit.Render(qs), [p, p]).0 == Edit.Render(qs)
  {
    FoldTwice(Edit.Render(qs), p, HasImport, Edit.ToggleImport);
    Edit.ToggleTwice(qs, p);
  }

  /**
   * What `toggle_multiple_imports` returns and what the file holds afterwards. Without a view,
   * a profile or any path, or with an unreadable or empty file, nothing is toggled; the text is
   * written once, and only when something was toggled; a failed write reports 0.
   */
  function BulkToggle(hasView: bool, hasProfile: bool, userChrome: Option<string>, paths: seq<string>, writeOk: bool)
    : (r: (nat, Option<string>))
    ensures r.0 <= NonEmpty(paths)
    ensures r.0 == 0 ==> r.1 == userChrome
    ensures r.1 != userChrome ==> r.0 > 0 && writeOk
    ensures r.0 > 0 ==> userChrome.Some? && r.1 == Some(ToggleFold(userChrome.value, paths).0)
  {
    if !hasView || !hasProfile || paths == [] then (0, userChrome)
    else if userChrome.None? || userChrome.value == "" then (0, userChrome)
    else
      var folded := ToggleFold(userChrome.value, paths);
      if folded.1 == 0 then (0, userChrome)
      else if !writeOk then (0, userChrome)
      else (folded.1, Some(folded.0))
  }

  /** The loop of `toggle_multiple_imports` over the text read from userChrome.css. */
  method ToggleAll(read: string, importPaths: seq<string>) returns (content: string, count: nat)
    ensures (content, count) == ToggleFold(read, importPaths)
  {
    content, count := read, 0;
    var k := 0;
    while k < |importPaths|
      invariant k <= |importPaths|
      invariant (content, count) == Fold(read, importPaths[..k], HasImport, Edit.ToggleImport)
    {
      FoldStep(read, importPaths, k, HasImport, Edit.ToggleImport, (content, count));
      var p := importPaths[k];
      if p != "" && HasImport(content, p) {
        content := Edit.ToggleImport(content, p);
        count := count + 1;
      }
      k := k + 1;
    }
    assert importPaths[..k] == importPaths;
  }

  // ----- remove_multiple_imports -----

  /** Whether `remove_import` of `p` succeeds on `s`. */
  predicate Removes(s: IS.Installed, p: string)
  {
    IS.UninstallAsWritten(s, p).0
  }

  /** The folder after a successful `remove_import` of `p`. */
  function Removed(s: IS.Installed, p: string): IS.Installed
  {
    IS.UninstallAsWritten(s, p).2
  }

  /**
   * The folder's state and count after the removal loop. At most one removal per non-empty
   * path; with none, the folder is as it was.
   */
  function RemoveFold(s: IS.Installed, paths: seq<string>): (r: (IS.Installed, nat))
    ensures r.1 <= NonEmpty(paths)
    ensures r.1 == 0 ==> r.0 == s
  {
    FoldCounts(s, paths, Removes, Removed);
    Fold(s, paths, Removes, Removed)
  }


  /** Without a userChrome.css nothing can be removed. */
  lemma NoUserChromeNoRemoval(s: IS.Installed, paths: seq<string>)
    requires s.userChrome.None? || s.userChrome.value == ""
    ensures RemoveFold(s, paths) == (s, 0)
  {
    FoldStuck(s, paths, Removes, Removed);
  }

  // ----- the presenter -----

  /** `ManageImportsPresenter`: the service it drives and whether a view is attached. */
  class ManageImportsPresenter {
    const service: IS.ImportService
    var hasView: bool

    constructor (service: IS.ImportService)
      ensures this.service == service && !hasView
    {
      this.service := service;
      hasView := false;
    }

    /** `set_view`. */
    method SetView()
      modifies this
      ensures hasView
    {
      hasView := true;
    }

    /** `toggle_import`: refused without a view, else the service's answer. */
    method ToggleImport(importPath: string) returns (ok: bool)
      modifies service
      ensures !hasView ==> !ok && unchanged(service)
      ensures hasView ==> ok == IS.Toggle(old(service.State()), importPath).0 &&
                          service.State() == IS.Toggle(old(service.State()), importPath).3
    {
      if !hasView {
        return false;
      }
      var message, enabled;
      ok, message, enabled := service.ToggleImport(importPath);
    }

    /** `remove_import`: refused without a view, else the service's answer. */
    method RemoveImport(importPath: string) returns (ok: bool)
      modifies service
      ensures !hasView ==> !ok && unchanged(service)
      ensures hasView ==> ok == IS.UninstallAsWritten(old(service.State()), importPath).0 &&
                          service.State() == IS.UninstallAsWritten(old(service.State()), importPath).2
    {
      if !hasView {
        return false;
      }
      var message;
      ok, message := service.RemoveImport(importPath);
    }

    /** One `remove_import` call of the bulk loop. */
    method RemoveOne(p: string) returns (ok: bool)
      modifies service
      ensures ok == Removes(old(service.State()), p)
      ensures service.State() == if ok then Removed(old(service.State()), p) else old(service.State())
    {
      var message;
      ok, message := service.RemoveImport(p);
    }

    /** `remove_multiple_imports`: one `remove_import` per non-empty path, counting the successes. */
    method RemoveMultipleImports(hasProfile: bool, importPaths: seq<string>) returns (count: nat)
      modifies service
      ensures !hasView || !hasProfile || importPaths == [] ==> count == 0 && unchanged(service)
      ensures hasView && hasProfile && importPaths != [] ==>
              (service.State(), count) == RemoveFold(old(service.State()), importPaths)
    {
      if !hasView || !hasProfile || importPaths == [] {
        return 0;
      }
      ghost var s0 := service.State();
      count := 0;
      var k := 0;
      while k < |importPaths|
        invariant k <= |importPaths|
        invariant (service.State(), count) == Fold(s0, importPaths[..k], Removes, Removed)
      {
        FoldStep(s0, importPaths, k, Removes, Removed, (service.State(), count));
        var p := importPaths[k];
        if p != "" {
          var ok := RemoveOne(p);
          if ok {
            count := count + 1;
          }
        }
        k := k + 1;
      }
      assert importPaths[..k] == importPaths;
    }

    /** `toggle_multiple_imports`: toggle in memory, then write once. `writeOk` is whether the write succeeds. */
    method ToggleMultipleImports(hasProfile: bool, importPaths: seq<string>, writeOk: bool) returns (count: nat)
      modifies service
      ensures (count, service.userChrome) == BulkToggle(hasView, hasProfile, old(service.userChrome), importPaths, writeOk)
      ensures service.chromeFiles == old(service.chromeFiles) && service.mods == old(service.mods)
    {
      if !hasView || !hasProfile || importPaths == [] {
        return 0;
      }
      var read := service.userChrome;
      if read.None? || read.value == "" {
        return 0;
      }
      var content;
      content, count := ToggleAll(read.value, importPaths);
      if count > 0 {
        if !writeOk {
          return 0;
        }
        service.userChrome := Some(content);
      }
    }
  }
}
