// The editing half of `UserChromeManager` (src/core/userchrome.py): `toggle_import`, which
// comments a directive out or back in, and `remove_import`, which deletes the lines holding
// a directive. Both look for one path with the exact-path pattern of module ImportSyntax.
module UserChromeEdit {
  import opened Common
  import opened Strings
  import opened ImportSyntax
  import opened UserChrome

  // ----- toggle_import -----

  /** The two forms of a directive: the enabled one `add_import` writes and the commented one `toggle_import` writes. */
  function Canon(np: string, enabled: bool): (d: string)
    ensures |d| == if enabled then |np| + 16 else |np| + 22
  {
    if enabled then Directive(np) else "/* " + Directive(np) + " */"
  }

  /**
   * `pattern.sub(toggle_replacement, t[i..])`: a match that had group 1 becomes the enabled
   * form, any other the commented form; text outside matches is copied.
   */
  function SubFrom(t: string, np: string, hit: nat -> Option<Hit>, i: nat): string
    requires HitFinder(t, hit)
    decreases |t| - i
  {
    if i >= |t| then []
    else
      match hit(i)
      case Some(h) => Canon(np, h.commented) + SubFrom(t, np, hit, h.end)
      case None => [t[i]] + SubFrom(t, np, hit, i + 1)
  }

  /** `toggle_import(content, import_path)`; a text with no match of the path comes back unchanged. */
  function ToggleImport(content: string, importPath: string): (r: string)
    ensures (forall x: nat :: x < |content| ==> ExactAt(content, Normalize(importPath), x).None?) ==> r == content
  {
    var np := Normalize(importPath);
    var hit := HitsOf(content, np);
    if forall x: nat :: x < |content| ==> ExactAt(content, np, x).None? then
      SubFromSkip(content, np, hit, 0, |content|);
      SubFrom(content, np, hit, 0)
    else SubFrom(content, np, hit, 0)
  }

  /** Where no match begins, the substitution copies the text. */
  lemma {:induction false} SubFromSkip(t: string, np: string, hit: nat -> Option<Hit>, i: nat, j: nat)
    requires HitFinder(t, hit) && i <= j <= |t|
    requires forall x: nat :: i <= x < j ==> hit(x).None?
    ensures SubFrom(t, np, hit, i) == t[i..j] + SubFrom(t, np, hit, j)
    decreases j - i
  {
    if i < j {
      var l, m, r := SubFrom(t, np, hit, i), SubFrom(t, np, hit, i + 1), SubFrom(t, np, hit, j);
      SubFromCopy(t, np, hit, i);
      SubFromSkip(t, np, hit, i + 1, j);
      SliceCons(t, i, j, r);
      assert l == [t[i]] + m && m == t[i + 1..j] + r;
    }
  }

  lemma {:induction false} SliceCons(t: string, i: nat, j: nat, rest: string)
    requires i < j <= |t|
    ensures [t[i]] + (t[i + 1..j] + rest) == t[i..j] + rest
  {
    assert t[i..j] == [t[i]] + t[i + 1..j];
  }

  lemma {:induction false} SubFromCopy(t: string, np: string, hit: nat -> Option<Hit>, i: nat)
    requires HitFinder(t, hit) && i < |t| && hit(i).None?
    ensures SubFrom(t, np, hit, i) == [t[i]] + SubFrom(t, np, hit, i + 1)
  {
  }

  /** In particular, a text without '@' holds no directive to toggle. */
  lemma {:induction false} ToggleNoAt(content: string, importPath: string)
    requires !HasChar(content, '@')
    ensures ToggleImport(content, importPath) == content
  {
    var np := Normalize(importPath);
    forall x: nat | x < |content| ensures ExactAt(content, np, x).None? {
      NoAtNoExact(content, np, x);
    }
  }

  lemma {:induction false} NoAtNoExact(t: string, np: string, i: nat)
    requires !HasChar(t, '@')
    ensures ExactAt(t, np, i).None?
  {
    if At(t, i, "/*") {
      UrlAtKeyword(t, SkipLeft(t, i + 2));
    }
    UrlAtKeyword(t, i);
  }

  lemma {:induction false} UrlAtKeyword(t: string, j: nat)
    ensures UrlAt(t, j).Some? ==> j < |t| && t[j] == '@'
  {
    if UrlAt(t, j).Some? {
      assert t[j..j + 7] == "@import";
      assert t[j] == "@import"[0];
    }
  }

  // ----- A stylesheet as a sequence of pieces -----

  /** Free text, or a directive in one of its two canonical forms. */
  datatype Piece = Free(text: string) | Dir(path: string, enabled: bool)

  function PieceText(q: Piece): string
  {
    match q
    case Free(s) => s
    case Dir(p, e) => Canon(p, e)
  }

  function Render(qs: seq<Piece>): string
  {
    if qs == [] then [] else PieceText(qs[0]) + Render(qs[1..])
  }

  /** Neither '@' nor '*' occurs in `s`. */
  predicate NoMark(s: string)
  {
    forall k :: 0 <= k < |s| ==> s[k] != '@' && s[k] != '*'
  }

  /** Within `s`, a character after the '@' at `k` breaks the word "@import". */
  predicate BreaksKeyword(s: string, k: nat)
  {
    exists m :: k < m < |s| && m < k + 7 && s[m] != "@import"[m - k]
  }

  /** Within `s`, something other than spaces follows position `k`. */
  predicate Filled(s: string, k: nat)
  {
    exists m :: k <= m < |s| && !IsSpace(s[m])
  }

  /**
   * Free text in which no directive can begin, whatever stands around it: every '@' is followed
   * within the text by a character that breaks "@import", every comment opening (a slash
   * and a star) is followed within the text by something other than spaces, and the first character that is
   * not a space, if any, is not '*'. Comments, `@namespace` and other rules qualify.
   */
  predicate CleanFree(s: string)
  {
    && (forall k :: 0 <= k < |s| && s[k] == '@' ==> BreaksKeyword(s, k))
    && (forall k :: 0 <= k < |s| - 1 && s[k] == '/' && s[k + 1] == '*' ==> Filled(s, k + 2))
    && Unclosed(s, 0)
  }

  /** Free text is clean; a directive's path is plain and holds no '@' or '*'. */
  predicate CleanPiece(q: Piece)
  {
    match q
    case Free(s) => CleanFree(s)
    case Dir(p, _) => PlainPath(p) && NoMark(p)
  }

  /** Every piece is clean. */
  predicate Clean(qs: seq<Piece>)
  {
    qs == [] || (CleanPiece(qs[0]) && Clean(qs[1..]))
  }

  /** The pieces after `toggle_import` of `np`: every directive of `np` switches form. */
  function Toggled(qs: seq<Piece>, np: string): (rs: seq<Piece>)
    ensures |rs| == |qs|
  {
    if qs == [] then [] else [ToggledPiece(qs[0], np)] + Toggled(qs[1..], np)
  }

  function ToggledPiece(q: Piece, np: string): Piece
  {
    if q.Dir? && q.path == np then Dir(q.path, !q.enabled) else q
  }

  /** After a boundary between pieces, the first non-space character is not '*'. */
  predicate NoCloseAt(t: string, y: nat)
  {
    y <= |t| && (SkipLeft(t, y) == |t| || t[SkipLeft(t, y)] != '*')
  }

  /** Reading on from `y`, the first character that is not a space is not '*', or there is none. */
  predicate Unclosed(t: string, y: nat)
    decreases |t| - y
  {
    y >= |t| || (if IsSpace(t[y]) then Unclosed(t, y + 1) else t[y] != '*')
  }

  /** Every character of `t` from `i` up to `j` is a space. */
  predicate Blank(t: string, i: nat, j: nat)
    decreases j - i
  {
    i >= j || (i < |t| && IsSpace(t[i]) && Blank(t, i + 1, j))
  }

  lemma {:induction false} BoundaryUnclosed(t: string, i: nat, qs: seq<Piece>)
    requires i <= |t| && t[i..] == Render(qs) && Clean(qs)
    ensures Unclosed(t, i)
    decreases |qs|
  {
    if qs != [] {
      var n := HeadSettles(t, i, qs);
      BoundaryUnclosed(t, i + n, qs[1..]);
      UnclosedStep(t, i, i + n);
    }
  }

  /** The two readings of "no '*' after the spaces" agree. */
  lemma {:induction false} UnclosedNoClose(t: string, y: nat)
    requires y <= |t| && Unclosed(t, y)
    ensures NoCloseAt(t, y)
    decreases |t| - y
  {
    if y < |t| && IsSpace(t[y]) {
      UnclosedNoClose(t, y + 1);
    }
  }

  /** A boundary the first piece does not settle inherits the answer of the next boundary. */
  lemma {:induction false} UnclosedStep(t: string, i: nat, j: nat)
    requires i <= j && (Unclosed(t, i) || Blank(t, i, j)) && Unclosed(t, j)
    ensures Unclosed(t, i)
    decreases j - i
  {
    if i < j && !Unclosed(t, i) {
      UnclosedStep(t, i + 1, j);
    }
  }

  /** Either the first piece settles the boundary before it, or it is all spaces. */
  lemma {:induction false} HeadSettles(t: string, i: nat, qs: seq<Piece>) returns (n: nat)
    requires i <= |t| && t[i..] == Render(qs) && Clean(qs) && qs != []
    ensures i + n <= |t| && t[i + n..] == Render(qs[1..]) && Clean(qs[1..])
    ensures Unclosed(t, i) || Blank(t, i, i + n)
  {
    n := RenderHead(t, i, qs);
    if qs[0].Dir? {
      CanonFirst(qs[0].path, qs[0].enabled);
      DirUnclosed(t, i, PieceText(qs[0]));
    } else {
      FreeSettles(t, i, qs[0].text, 0);
    }
  }

  /** The first non-space character of clean free text, if any, settles the boundary. */
  lemma {:induction false} FreeSettles(t: string, i: nat, f: string, k: nat)
    requires At(t, i, f) && k <= |f| && Unclosed(f, k)
    ensures Unclosed(t, i + k) || Blank(t, i + k, i + |f|)
    decreases |f| - k
  {
    if k < |f| {
      AtChar(t, i, f, k);
      if IsSpace(f[k]) {
        FreeSettles(t, i, f, k + 1);
      }
    }
  }

  /** A directive piece begins with '@' or '/', which settles the boundary. */
  lemma {:induction false} DirUnclosed(t: string, i: nat, d: string)
    requires At(t, i, d) && |d| > 0 && (d[0] == '@' || d[0] == '/')
    ensures Unclosed(t, i)
  {
    AtChar(t, i, d, 0);
  }

  /** The first piece, and the rest after it, as they sit in the text. */
  lemma {:induction false} RenderHead(t: string, i: nat, qs: seq<Piece>) returns (n: nat)
    requires i <= |t| && t[i..] == Render(qs) && Clean(qs) && qs != []
    ensures n == |PieceText(qs[0])| && At(t, i, PieceText(qs[0])) && CleanPiece(qs[0])
    ensures t[i + n..] == Render(qs[1..]) && Clean(qs[1..])
  {
    var a := PieceText(qs[0]);
    n := |a|;
    RenderSplit(t, i, qs);
    CleanHead(qs);
    assert At(t, i, a) && t[i + n..] == Render(qs[1..]);
  }

  lemma {:induction false} RenderSplit(t: string, i: nat, qs: seq<Piece>)
    requires i <= |t| && t[i..] == Render(qs) && qs != []
    ensures At(t, i, PieceText(qs[0])) && t[i + |PieceText(qs[0])|..] == Render(qs[1..])
  {
    SplitSuffix(t, i, PieceText(qs[0]), Render(qs[1..]));
  }

  lemma {:induction false} CleanHead(qs: seq<Piece>)
    requires Clean(qs) && qs != []
    ensures CleanPiece(qs[0]) && Clean(qs[1..])
  {
  }

  lemma {:induction false} SplitSuffix(t: string, i: nat, a: string, b: string)
    requires i <= |t| && t[i..] == a + b
    ensures At(t, i, a) && t[i + |a|..] == b
  {
    assert t[i..i + |a|] == t[i..][..|a|];
    assert t[i + |a|..] == t[i..][|a|..];
  }

  // ----- How the exact-path pattern meets a canonical directive -----

  lemma {:induction false} DirectiveParts(p: string)
    ensures Directive(p)[..13] == "@import url(\"" && Directive(p)[13..13 + |p|] == p
    ensures Directive(p)[13 + |p|] == '"' && Directive(p)[14 + |p|..] == ");"
  {
    var d := Directive(p);
    assert d == "@import url(\"" + p + "\");";
  }

  /** The characters of a directive placed at `x`: opening, path and closing. */
  lemma {:induction false} DirectiveAt(t: string, x: nat, p: string)
    requires At(t, x, Directive(p))
    ensures t[x + 13..x + 13 + |p|] == p && t[x + 13 + |p|] == '"' && At(t, x + 14 + |p|, ");")
  {
    var d, n := Directive(p), |p|;
    DirectiveParts(p);
    var w := t[x..x + n + 16];
    assert w == d;
    assert forall k :: 0 <= k < n ==> t[x + 13 + k] == w[13 + k] == p[k];
    assert t[x + 13..x + 13 + n] == p;
    assert t[x + 13 + n] == w[13 + n];
    assert t[x + 14 + n..x + 16 + n] == w[14 + n..];
  }

  /** A written directive for `np` satisfies the pattern after group 1; the optional close may follow. */
  lemma {:induction false} ExactRestOnDirective(t: string, x: nat, np: string, j: nat)
    requires At(t, x, Directive(np)) && j == x + 16 + |np|
    ensures j <= |t|
    ensures CloseAfter(t, j).None? ==> ExactRest(t, np, x) == Some(j)
    ensures CloseAfter(t, j).Some? ==> ExactRest(t, np, x) == CloseAfter(t, j)
  {
    DirectiveKeyword(t, x, np);
    DirectiveAt(t, x, np);
  }

  /** A directive of a different plain path fails the pattern after group 1 at its keyword. */
  lemma {:induction false} ExactRestOtherPath(t: string, x: nat, p: string, np: string)
    requires At(t, x, Directive(p)) && PlainPath(p) && PlainPath(np) && p != np
    ensures ExactRest(t, np, x).None?
  {
    var n := |p|;
    DirectiveKeyword(t, x, p);
    DirectiveAt(t, x, p);
    PathMismatch(t, x + 13, p, np);
  }

  /** Where `p` and then a quote stand, a different plain path cannot stand followed by a quote. */
  lemma {:induction false} PathMismatch(t: string, a: nat, p: string, np: string)
    requires a + |p| < |t| && t[a..a + |p|] == p && t[a + |p|] == '"'
    requires PlainPath(p) && PlainPath(np) && p != np
    ensures !(At(t, a, np) && a + |np| < |t| && IsQuote(t[a + |np|]))
  {
    var n := |p|;
    if |np| < n {
      assert t[a + |np|] == p[|np|];
    }
  }

  /** At its first character a canonical directive for `np` is matched whole, with the form switched. */
  lemma {:induction false} DirHit(t: string, i: nat, np: string, e: bool)
    requires PlainPath(np) && At(t, i, Canon(np, e)) && Unclosed(t, i + |Canon(np, e)|)
    ensures ExactAt(t, np, i) == Some(Hit(i, i + |Canon(np, e)|, !e))
  {
    if e {
      DirHitEnabled(t, i, np, e);
    } else {
      DirHitCommented(t, i, np, e);
    }
  }

  lemma {:induction false} DirHitEnabled(t: string, i: nat, np: string, e: bool)
    requires e && At(t, i, Canon(np, e)) && Unclosed(t, i + |Canon(np, e)|)
    ensures ExactAt(t, np, i) == Some(Hit(i, i + |Canon(np, e)|, !e))
  {
    var j := i + |Canon(np, e)|;
    assert Canon(np, e) == Directive(np) && j == i + 16 + |np|;
    UnclosedNoClose(t, j);
    ExactRestOnDirective(t, i, np, j);
    assert CloseAfter(t, j).None?;
    DirectiveKeyword(t, i, np);
    UrlAtKeyword(t, i);
    assert !At(t, i, "/*");
    ExactAtPlain(t, np, i, j);
  }

  lemma {:induction false} DirHitCommented(t: string, i: nat, np: string, e: bool)
    requires !e && At(t, i, Canon(np, e))
    ensures ExactAt(t, np, i) == Some(Hit(i, i + |Canon(np, e)|, !e))
  {
    var y := i + 19 + |np|;
    assert Canon(np, e) == "/* " + Directive(np) + " */" && y + 3 == i + |Canon(np, e)|;
    CommentedLayout(t, i, np, y);
    ExactRestOnDirective(t, i + 3, np, y);
    assert ExactRest(t, np, i + 3) == Some(y + 3);
    ExactAtCommented(t, np, i, y + 3);
  }

  /** A match that begins with a comment opening takes the commented branch. */
  lemma {:induction false} ExactAtCommented(t: string, np: string, i: nat, e: nat)
    requires At(t, i, "/*") && i + 2 <= |t| && ExactRest(t, np, SkipLeft(t, i + 2)) == Some(e)
    ensures ExactAt(t, np, i) == Some(Hit(i, e, true))
  {
  }

  /** A match that does not begin with a comment opening takes the plain branch. */
  lemma {:induction false} ExactAtPlain(t: string, np: string, i: nat, e: nat)
    requires !At(t, i, "/*") && ExactRest(t, np, i) == Some(e)
    ensures ExactAt(t, np, i) == Some(Hit(i, e, false))
  {
  }

  /** The parts of a commented directive: the opening, one space, the directive, one space, the close. */
  lemma {:induction false} CommentedLayout(t: string, i: nat, np: string, y: nat)
    requires At(t, i, "/* " + Directive(np) + " */") && y == i + 19 + |np|
    ensures At(t, i, "/*") && SkipLeft(t, i + 2) == i + 3 && At(t, i + 3, Directive(np))
    ensures y + 3 <= |t| && CloseAfter(t, y) == Some(y + 3)
    ensures t[i + 1] == '*' && t[i + 2] == ' '
    ensures t[y] == ' ' && t[y + 1] == '*' && t[y + 2] == '/'
  {
    var d, n := Directive(np), |np|;
    AtConcat(t, i, "/* " + d, " */");
    AtConcat(t, i, "/* ", d);
    OpenChars(t, i);
    DirectiveFirst(t, i + 3, np);
    assert SkipLeft(t, i + 3) == i + 3;
    CloseChars(t, y);
  }

  // The characters of the comment opening, slash, star and space, at `i`.
  lemma {:induction false} OpenChars(t: string, i: nat)
    requires At(t, i, "/* ")
    ensures At(t, i, "/*") && t[i + 1] == '*' && t[i + 2] == ' '
  {
    AtConcat(t, i, "/*", " ");
    AtChars(t, i, "/* ");
  }

  // The characters of the comment closing, space, star and slash, at `y`, which the close pattern matches whole.
  lemma {:induction false} CloseChars(t: string, y: nat)
    requires At(t, y, " */")
    ensures t[y] == ' ' && t[y + 1] == '*' && t[y + 2] == '/' && CloseAfter(t, y) == Some(y + 3)
  {
    AtChars(t, y, " */");
    AtConcat(t, y, " ", "*/");
    assert SkipLeft(t, y + 1) == y + 1;
  }

  /** A directive begins with '@'. */
  lemma {:induction false} DirectiveFirst(t: string, x: nat, np: string)
    requires At(t, x, Directive(np))
    ensures x < |t| && t[x] == '@'
  {
    DirectiveParts(np);
    assert Directive(np)[0] == Directive(np)[..13][0];
    AtChar(t, x, Directive(np), 0);
  }

  lemma {:induction false} AtOne(t: string, i: nat, c: char)
    requires At(t, i, [c])
    ensures i < |t| && t[i] == c
  {
    assert t[i..i + 1][0] == t[i];
  }

  // ----- Directives of other paths are left alone -----

  /** No match begins at a character that is neither '@' nor a '/' followed by '*'. */
  lemma {:induction false} QuietAt(t: string, np: string, hit: nat -> Option<Hit>, x: nat)
    requires Finds(t, np, hit)
    requires x < |t| && t[x] != '@'
    requires t[x] == '/' && x + 1 < |t| ==> t[x + 1] != '*'
    ensures hit(x).None?
  {
    if At(t, x, "/*") {
      AtConcat(t, x, "/", "*");
      AtOne(t, x, '/');
      AtOne(t, x + 1, '*');
    }
    ExactAtNeedsStart(t, np, x);
  }

  /** Past its '@', a directive whose path has no '@' or '*' holds neither mark. */
  lemma {:induction false} DirectiveMarks(p: string)
    requires NoMark(p)
    ensures var d := Directive(p);
            d[0] == '@' && d[|d| - 1] == ';' && forall o :: 1 <= o < |d| ==> d[o] != '@' && d[o] != '*'
  {
    var d := Directive(p);
    DirectiveParts(p);
    forall o | 1 <= o < |d| ensures d[o] != '@' && d[o] != '*' {
      if o < 13 {
        assert d[o] == d[..13][o];
      } else if o < 13 + |p| {
        assert d[o] == d[13..13 + |p|][o - 13] == p[o - 13];
      } else if o > 13 + |p| {
        assert d[o] == d[14 + |p|..][o - 14 - |p|];
      }
    }
  }

  /** Inside a directive for another path, and at its '@', no match begins. */
  lemma {:induction false} DirQuiet(t: string, x0: nat, p: string, np: string, hit: nat -> Option<Hit>)
    requires Finds(t, np, hit)
    requires At(t, x0, Directive(p)) && PlainPath(p) && NoMark(p) && PlainPath(np) && p != np
    ensures forall x: nat :: x0 <= x < x0 + 16 + |p| ==> hit(x).None?
  {
    var d := Directive(p);
    DirectiveMarks(p);
    var w := t[x0..x0 + |d|];
    assert w == d;
    forall x: nat | x0 <= x < x0 + 16 + |p| ensures hit(x).None? {
      assert t[x] == w[x - x0] == d[x - x0];
      if x == x0 {
        ExactRestOtherPath(t, x0, p, np);
        assert !At(t, x0, "/*") by {
          assert t[x0] == '@';
        }
        assert ExactAt(t, np, x0).None?;
      } else {
        if x + 1 < x0 + |d| {
          assert t[x + 1] == w[x + 1 - x0] == d[x + 1 - x0];
        }
        QuietAt(t, np, hit, x);
      }
    }
  }

  /** No match of `np` begins anywhere in a canonical directive for another path. */
  lemma {:induction false} DirNoHit(t: string, i: nat, p: string, e: bool, np: string, hit: nat -> Option<Hit>)
    requires Finds(t, np, hit)
    requires At(t, i, Canon(p, e)) && Unclosed(t, i + |Canon(p, e)|)
    requires PlainPath(p) && NoMark(p) && PlainPath(np) && p != np
    ensures forall x: nat :: i <= x < i + |Canon(p, e)| ==> hit(x).None?
  {
    if e {
      DirQuiet(t, i, p, np, hit);
    } else {
      CommentedQuiet(t, i, p, np, hit);
    }
  }

  lemma {:induction false} CommentedQuiet(t: string, i: nat, p: string, np: string, hit: nat -> Option<Hit>)
    requires Finds(t, np, hit)
    requires At(t, i, "/* " + Directive(p) + " */") && Unclosed(t, i + 22 + |p|)
    requires PlainPath(p) && NoMark(p) && PlainPath(np) && p != np
    ensures forall x: nat :: i <= x < i + 22 + |p| ==> hit(x).None?
  {
    var y := i + 19 + |p|;
    CommentedLayout(t, i, p, y);
    DirQuiet(t, i + 3, p, np, hit);
    CommentedStartQuiet(t, i, p, np, hit);
    QuietAt(t, np, hit, i + 1);
    QuietAt(t, np, hit, i + 2);
    CloseQuiet(t, y, np, hit);
    forall x: nat | i <= x < i + 22 + |p| ensures hit(x).None? {
      if x < i + 3 {
        assert x == i || x == i + 1 || x == i + 2;
      } else if x >= y {
        assert x == y || x == y + 1 || x == y + 2;
      }
    }
  }

  /** No match begins in the ` *\/` that closes a commented directive. */
  lemma {:induction false} CloseQuiet(t: string, y: nat, np: string, hit: nat -> Option<Hit>)
    requires Finds(t, np, hit)
    requires y + 3 <= |t| && t[y] == ' ' && t[y + 1] == '*' && t[y + 2] == '/' && Unclosed(t, y + 3)
    ensures hit(y).None? && hit(y + 1).None? && hit(y + 2).None?
  {
    QuietAt(t, np, hit, y);
    QuietAt(t, np, hit, y + 1);
    QuietAt(t, np, hit, y + 2);
  }

  lemma {:induction false} CommentedStartQuiet(t: string, i: nat, p: string, np: string, hit: nat -> Option<Hit>)
    requires Finds(t, np, hit)
    requires At(t, i, "/* " + Directive(p) + " */")
    requires PlainPath(p) && PlainPath(np) && p != np
    ensures hit(i).None?
  {
    CommentedLayout(t, i, p, i + 19 + |p|);
    ExactRestOtherPath(t, i + 3, p, np);
    AtConcat(t, i, "/", "*");
    AtOne(t, i, '/');
    UrlAtKeyword(t, i);
    assert ExactAt(t, np, i).None?;
  }

  // ----- toggle_import on a stylesheet made of pieces -----

  lemma {:induction false} SubFromHit(t: string, np: string, hit: nat -> Option<Hit>, i: nat, h: Hit)
    requires HitFinder(t, hit) && i < |t| && hit(i) == Some(h)
    ensures SubFrom(t, np, hit, i) == Canon(np, h.commented) + SubFrom(t, np, hit, h.end)
  {
  }

  lemma {:induction false} RenderToggledHead(qs: seq<Piece>, np: string)
    requires qs != []
    ensures Render(Toggled(qs, np)) == PieceText(ToggledPiece(qs[0], np)) + Render(Toggled(qs[1..], np))
  {
    var rs := Toggled(qs, np);
    assert rs[1..] == Toggled(qs[1..], np);
  }

  /** Clean free text holds no match. */
  lemma {:induction false} FreeQuiet(t: string, np: string, hit: nat -> Option<Hit>, i: nat, f: string)
    requires Finds(t, np, hit)
    requires At(t, i, f) && CleanFree(f) && Unclosed(t, i + |f|)
    ensures forall x: nat :: i <= x < i + |f| ==> hit(x).None?
  {
    AtChars(t, i, f);
    forall x: nat | i <= x < i + |f| ensures hit(x).None? {
      FreeQuietAt(t, np, i, f, x);
    }
  }

  lemma {:induction false} FreeQuietAt(t: string, np: string, i: nat, f: string, x: nat)
    requires At(t, i, f) && CleanFree(f) && Unclosed(t, i + |f|)
    requires i <= x < i + |f|
    ensures ExactAt(t, np, x).None?
  {
    AtChar(t, i, f, x - i);
    UrlAtKeyword(t, x);
    if t[x] == '@' {
      AtChar(t, x, "/*", 0);
      KeywordBroken(t, i, f, x);
    } else if At(t, x, "/*") {
      OpenQuiet(t, np, i, f, x);
    } else {
      ExactAtNeedsStart(t, np, x);
    }
  }

  /** A comment opening in clean free text is followed by no directive. */
  lemma {:induction false} OpenQuiet(t: string, np: string, i: nat, f: string, x: nat)
    requires At(t, i, f) && CleanFree(f) && Unclosed(t, i + |f|)
    requires i <= x < i + |f| && At(t, x, "/*")
    ensures ExactAt(t, np, x).None?
  {
    AtChar(t, x, "/*", 0);
    assert UrlAt(t, SkipLeft(t, x + 2)).None? by {
      AtChar(t, x, "/*", 1);
      if i + |f| < |t| {
        UnclosedNotStar(t, i + |f|);
      }
      AtChar(t, i, f, x - i);
      AtChar(t, i, f, x + 1 - i);
      assert Filled(f, x - i + 2);
      var m :| x - i + 2 <= m < |f| && !IsSpace(f[m]);
      AtChar(t, i, f, m);
      var y := SkipLeft(t, x + 2);
      assert y <= i + m;
      AtChar(t, i, f, y - i);
      UrlAtKeyword(t, y);
      if t[y] == '@' {
        KeywordBroken(t, i, f, y);
      }
    }
    UrlAtKeyword(t, x);
    NoKeywordNoHit(t, np, x);
  }

  /** Where neither the text nor what follows a comment opening starts "@import", no match begins. */
  lemma {:induction false} NoKeywordNoHit(t: string, np: string, x: nat)
    requires x + 2 <= |t| && UrlAt(t, x).None? && UrlAt(t, SkipLeft(t, x + 2)).None?
    ensures ExactAt(t, np, x).None?
  {
  }

  /** At an '@' of clean free text, the word "@import" does not stand. */
  lemma {:induction false} KeywordBroken(t: string, i: nat, f: string, y: nat)
    requires At(t, i, f) && CleanFree(f) && i <= y < i + |f| && t[y] == '@'
    ensures UrlAt(t, y).None?
  {
    AtChar(t, i, f, y - i);
    var m :| y - i < m < |f| && m < y - i + 7 && f[m] != "@import"[m - (y - i)];
    AtChar(t, y, "@import", i + m - y);
    AtChar(t, i, f, m);
  }

  /** Where the boundary is unclosed, its own character is not '*'. */
  lemma {:induction false} UnclosedNotStar(t: string, y: nat)
    requires y < |t| && Unclosed(t, y)
    ensures t[y] != '*'
  {
  }

  /** Free text without '@' or '*' is clean. */
  lemma {:induction false} NoMarkFree(f: string)
    requires NoMark(f)
    ensures CleanFree(f)
  {
    NoMarkUnclosed(f, 0);
  }

  lemma {:induction false} NoMarkUnclosed(f: string, k: nat)
    requires NoMark(f)
    ensures Unclosed(f, k)
    decreases |f| - k
  {
    if k < |f| && IsSpace(f[k]) {
      NoMarkUnclosed(f, k + 1);
    }
  }

  /**
   * On a stylesheet of free text and canonical directives, `toggle_import` switches the form of
   * exactly the directives of the normalized path and leaves every other character in place.
   */
  lemma {:induction false} ToggleFrom(t: string, np: string, hit: nat -> Option<Hit>, i: nat, qs: seq<Piece>)
    requires HitFinder(t, hit) && Finds(t, np, hit)
    requires i <= |t| && t[i..] == Render(qs) && Clean(qs) && PlainPath(np)
    ensures SubFrom(t, np, hit, i) == Render(Toggled(qs, np))
    decreases |qs|
  {
    if qs != [] {
      var n := RenderHead(t, i, qs);
      BoundaryUnclosed(t, i + n, qs[1..]);
      ToggleFrom(t, np, hit, i + n, qs[1..]);
      RenderToggledHead(qs, np);
      PieceStep(t, np, hit, i, qs[0]);
      var a, l, r := PieceText(ToggledPiece(qs[0], np)), SubFrom(t, np, hit, i), SubFrom(t, np, hit, i + n);
      assert l == a + r;
      assert r == Render(Toggled(qs[1..], np));
    }
  }

  /** One piece of the stylesheet: the substitution writes its toggled text and goes on after it. */
  lemma {:induction false} PieceStep(t: string, np: string, hit: nat -> Option<Hit>, i: nat, q: Piece)
    requires HitFinder(t, hit) && Finds(t, np, hit)
    requires At(t, i, PieceText(q)) && Unclosed(t, i + |PieceText(q)|) && CleanPiece(q) && PlainPath(np)
    ensures SubFrom(t, np, hit, i) == PieceText(ToggledPiece(q, np)) + SubFrom(t, np, hit, i + |PieceText(q)|)
  {
    if q.Free? {
      FreeStep(t, np, hit, i, q);
    } else {
      DirStep(t, np, hit, i, q);
    }
  }

  /** Free text is copied. */
  lemma {:induction false} FreeStep(t: string, np: string, hit: nat -> Option<Hit>, i: nat, q: Piece)
    requires HitFinder(t, hit) && Finds(t, np, hit) && q.Free?
    requires At(t, i, PieceText(q)) && Unclosed(t, i + |PieceText(q)|) && CleanPiece(q)
    ensures SubFrom(t, np, hit, i) == PieceText(ToggledPiece(q, np)) + SubFrom(t, np, hit, i + |PieceText(q)|)
  {
    assert PieceText(q) == q.text && ToggledPiece(q, np) == q;
    FreeCopied(t, np, hit, i, q.text);
  }

  lemma {:induction false} FreeCopied(t: string, np: string, hit: nat -> Option<Hit>, i: nat, f: string)
    requires HitFinder(t, hit) && Finds(t, np, hit)
    requires At(t, i, f) && Unclosed(t, i + |f|) && CleanFree(f)
    ensures SubFrom(t, np, hit, i) == f + SubFrom(t, np, hit, i + |f|)
  {
    FreeQuiet(t, np, hit, i, f);
    SubFromSkip(t, np, hit, i, i + |f|);
  }

  /** A directive of `np` switches form; one of another path is copied. */
  lemma {:induction false} DirStep(t: string, np: string, hit: nat -> Option<Hit>, i: nat, q: Piece)
    requires HitFinder(t, hit) && Finds(t, np, hit) && q.Dir? && PlainPath(np)
    requires At(t, i, PieceText(q)) && Unclosed(t, i + |PieceText(q)|) && CleanPiece(q)
    ensures SubFrom(t, np, hit, i) == PieceText(ToggledPiece(q, np)) + SubFrom(t, np, hit, i + |PieceText(q)|)
  {
    if q.path == np {
      DirStepSame(t, np, hit, i, q);
    } else {
      DirStepOther(t, np, hit, i, q);
    }
  }

  lemma {:induction false} DirStepSame(t: string, np: string, hit: nat -> Option<Hit>, i: nat, q: Piece)
    requires HitFinder(t, hit) && Finds(t, np, hit) && q.Dir? && q.path == np && PlainPath(np)
    requires At(t, i, PieceText(q)) && Unclosed(t, i + |PieceText(q)|)
    ensures SubFrom(t, np, hit, i) == PieceText(ToggledPiece(q, np)) + SubFrom(t, np, hit, i + |PieceText(q)|)
  {
    var e, j := q.enabled, i + |PieceText(q)|;
    var c := Canon(np, e);
    assert PieceText(q) == c;
    DirStepHit(t, np, hit, i, j, c, e);
    Rewrite(SubFrom(t, np, hit, i), Canon(np, !e), PieceText(ToggledPiece(q, np)), SubFrom(t, np, hit, j));
  }

  lemma {:induction false} DirStepOther(t: string, np: string, hit: nat -> Option<Hit>, i: nat, q: Piece)
    requires HitFinder(t, hit) && Finds(t, np, hit) && q.Dir? && q.path != np && PlainPath(np)
    requires At(t, i, PieceText(q)) && Unclosed(t, i + |PieceText(q)|) && CleanPiece(q)
    ensures SubFrom(t, np, hit, i) == PieceText(ToggledPiece(q, np)) + SubFrom(t, np, hit, i + |PieceText(q)|)
  {
    var p, e, j := q.path, q.enabled, i + |PieceText(q)|;
    var c := Canon(p, e);
    assert PieceText(q) == c;
    DirStepQuiet(t, np, hit, i, j, c, p, e);
    Rewrite(SubFrom(t, np, hit, i), c, PieceText(ToggledPiece(q, np)), SubFrom(t, np, hit, j));
  }

  lemma {:induction false} DirStepQuiet(t: string, np: string, hit: nat -> Option<Hit>, i: nat, j: nat, c: string, p: string, e: bool)
    requires HitFinder(t, hit) && Finds(t, np, hit)
    requires c == Canon(p, e) && j == i + |c| && At(t, i, c) && Unclosed(t, j)
    requires PlainPath(p) && NoMark(p) && PlainPath(np) && p != np
    ensures SubFrom(t, np, hit, i) == c + SubFrom(t, np, hit, j)
  {
    DirSkip(t, np, hit, i, j, p, e);
    Rewrite(SubFrom(t, np, hit, i), t[i..j], c, SubFrom(t, np, hit, j));
  }

  lemma {:induction false} DirSkip(t: string, np: string, hit: nat -> Option<Hit>, i: nat, j: nat, p: string, e: bool)
    requires HitFinder(t, hit) && Finds(t, np, hit)
    requires j == i + |Canon(p, e)| && At(t, i, Canon(p, e)) && Unclosed(t, j)
    requires PlainPath(p) && NoMark(p) && PlainPath(np) && p != np
    ensures j <= |t| && SubFrom(t, np, hit, i) == t[i..j] + SubFrom(t, np, hit, j)
  {
    DirNoHit(t, i, p, e, np, hit);
    SubFromSkip(t, np, hit, i, j);
  }

  lemma {:induction false} DirStepHit(t: string, np: string, hit: nat -> Option<Hit>, i: nat, j: nat, c: string, e: bool)
    requires HitFinder(t, hit) && Finds(t, np, hit)
    requires c == Canon(np, e) && j == i + |c| && PlainPath(np) && At(t, i, c) && Unclosed(t, j)
    ensures SubFrom(t, np, hit, i) == Canon(np, !e) + SubFrom(t, np, hit, j)
  {
    var h := Hit(i, j, !e);
    assert hit(i) == Some(h) by {
      DirHit(t, i, np, e);
    }
    SubFromHit(t, np, hit, i, h);
  }

  /** Replacing equals by equals inside a concatenation. */
  lemma {:induction false} Rewrite(l: string, x: string, c: string, r: string)
    requires l == x + r && x == c
    ensures l == c + r
  {
  }

  /** `toggle_import(Render(qs), P)` is the rendering of `qs` with P's directives switched. */
  lemma {:induction false} ToggleRender(qs: seq<Piece>, importPath: string)
    requires Clean(qs) && PlainPath(Normalize(importPath))
    ensures ToggleImport(Render(qs), importPath) == Render(Toggled(qs, Normalize(importPath)))
  {
    var t := Render(qs);
    assert t[0..] == t;
    ToggleFrom(t, Normalize(importPath), HitsOf(t, Normalize(importPath)), 0, qs);
  }

  lemma {:induction false} ToggledTwice(qs: seq<Piece>, np: string)
    ensures Toggled(Toggled(qs, np), np) == qs
    ensures Clean(qs) ==> Clean(Toggled(qs, np))
  {
    if qs != [] {
      ToggledTwice(qs[1..], np);
      var rs := Toggled(qs, np);
      assert rs[1..] == Toggled(qs[1..], np);
    }
  }

  /** Toggling the same path twice gives the stylesheet back. */
  lemma {:induction false} ToggleTwice(qs: seq<Piece>, importPath: string)
    requires Clean(qs) && PlainPath(Normalize(importPath))
    ensures ToggleImport(ToggleImport(Render(qs), importPath), importPath) == Render(qs)
  {
    var np := Normalize(importPath);
    ToggleRender(qs, importPath);
    ToggledTwice(qs, np);
    ToggleRender(Toggled(qs, np), importPath);
  }

  /** The head of a typical userChrome.css: a namespace rule and a comment. */
  const Header: string := "@namespace xul;\n/* theme */\n"

  lemma {:induction false} HeaderClean()
    ensures CleanFree(Header)
  {
    var s := Header;
    assert s == ['@', 'n', 'a', 'm', 'e', 's', 'p', 'a', 'c', 'e', ' ', 'x', 'u', 'l', ';', '\n',
                 '/', '*', ' ', 't', 'h', 'e', 'm', 'e', ' ', '*', '/', '\n'];
    forall k | 0 <= k < |s| && s[k] == '@' ensures BreaksKeyword(s, k) {
      assert k == 0 && s[1] != "@import"[1];
    }
    forall k | 0 <= k < |s| - 1 && s[k] == '/' && s[k + 1] == '*' ensures Filled(s, k + 2) {
      assert k == 16 && !IsSpace(s[19]);
    }
  }

  /**
   * Below a namespace rule and a comment, an enabled directive on its own line is commented out
   * and back in by two toggles, and the file is as it was.
   */
  lemma {:induction false} ToggleTwiceUnderHeader(importPath: string)
    requires PlainPath(Normalize(importPath)) && NoMark(Normalize(importPath))
    ensures var t := Header + Directive(Normalize(importPath)) + "\n";
            ToggleImport(ToggleImport(t, importPath), importPath) == t
  {
    var np := Normalize(importPath);
    HeaderPieces(np);
    ToggleTwice([Free(Header), Dir(np, true), Free("\n")], importPath);
  }

  /** The file below the header, as pieces. */
  lemma {:induction false} HeaderPieces(np: string)
    requires PlainPath(np) && NoMark(np)
    ensures Clean([Free(Header), Dir(np, true), Free("\n")])
    ensures Render([Free(Header), Dir(np, true), Free("\n")]) == Header + Directive(np) + "\n"
  {
    var qs := [Free(Header), Dir(np, true), Free("\n")];
    HeaderClean();
    NoMarkFree("\n");
    assert Clean(qs) by {
      assert qs[1..][1..] == [Free("\n")] && qs[1..][1..][1..] == [];
      assert Clean(qs[1..][1..]);
      assert Clean(qs[1..]);
    }
    assert Render(qs) == Header + Directive(np) + "\n" by {
      assert qs[1..] == [Dir(np, true), Free("\n")] && qs[1..][1..] == [Free("\n")] && qs[1..][1..][1..] == [];
      assert Render(qs[1..][1..]) == "\n";
      assert Render(qs[1..]) == Directive(np) + "\n";
    }
  }

  // ----- remove_import -----

  /**
   * The line or lines holding a match, as `remove_import` finds them in the current text `r`:
   * from just after the last '\n' before the match start to the first '\n' at or after its end,
   * or to the end of `r`.
   */
  function LineSpan(r: string, h: Hit): (s: (nat, nat))
    requires h.start <= h.end
    ensures s.0 <= s.1 <= |r|
  {
    var ls := RFindChar(r, '\n', h.start) + 1;
    var nl := FindChar(r, '\n', h.end);
    (ls, if nl == -1 then |r| else nl)
  }

  /** One step of the reverse loop: `result[:line_start] + result[line_end:]`. */
  function CutLine(r: string, h: Hit): (c: string)
    requires h.start <= h.end
    ensures |c| <= |r|
  {
    var s := LineSpan(r, h);
    r[..s.0] + r[s.1..]
  }

  /** Every match starts no later than it ends. */
  predicate Spans(hs: seq<Hit>)
  {
    forall k :: 0 <= k < |hs| ==> hs[k].start <= hs[k].end
  }

  /** The reverse loop over the matches: the last match is cut first. */
  function CutBack(r: string, hs: seq<Hit>): (c: string)
    requires Spans(hs)
    ensures |c| <= |r|
    decreases |hs|
  {
    if hs == [] then r else CutBack(CutLine(r, hs[|hs| - 1]), hs[..|hs| - 1])
  }

  /**
   * `remove_import(content, import_path)`: the text changes exactly when the exact-path pattern
   * matches somewhere, and then it gets shorter.
   */
  function RemoveImportOf(content: string, importPath: string): (r: string)
    ensures |r| <= |content|
    ensures r == content <==> ExactScan(content, HitsOf(content, Normalize(importPath)), 0) == []
    ensures r != content ==> |r| < |content|
  {
    var np := Normalize(importPath);
    var hs := ExactScan(content, HitsOf(content, np), 0);
    if hs == [] then content
    else
      CutBackShrinks(content, hs);
      CutBack(content, hs)
  }

  /** The first cut of the reverse loop takes at least its own match out. */
  lemma {:induction false} CutBackShrinks(r: string, hs: seq<Hit>)
    requires Spans(hs) && hs != [] && hs[|hs| - 1].start < hs[|hs| - 1].end <= |r|
    ensures |CutBack(r, hs)| < |r|
  {
    LineSpanSpec(r, hs[|hs| - 1]);
  }

  /** `remove_import`: the matches, then one cut per match from the last to the first. */
  method RemoveImport(content: string, importPath: string) returns (result: string)
    ensures result == RemoveImportOf(content, importPath)
  {
    var np := Normalize(importPath);
    var matches := ExactScan(content, HitsOf(content, np), 0);
    if matches == [] {
      return content;
    }
    result := CutLines(content, matches);
  }

  /** The reverse loop of `remove_import`: each match's line is cut, the last match first. */
  method CutLines(content: string, matches: seq<Hit>) returns (result: string)
    requires Spans(matches)
    ensures result == CutBack(content, matches)
  {
    result := content;
    var k := |matches|;
    assert matches[..k] == matches;
    while k > 0
      invariant 0 <= k <= |matches|
      invariant CutBack(result, matches[..k]) == CutBack(content, matches)
    {
      var h := matches[k - 1];
      var ls := RFindChar(result, '\n', h.start) + 1;
      var le := FindChar(result, '\n', h.end);
      if le == -1 {
        le := |result|;
      }
      assert (ls, le) == LineSpan(result, h);
      CutBackLast(result, matches, k);
      result := result[..ls] + result[le..];
      k := k - 1;
    }
  }

  /** Cutting the first `k` matches from the back starts with the `k`-th. */
  lemma {:induction false} CutBackLast(r: string, hs: seq<Hit>, k: nat)
    requires Spans(hs) && 0 < k <= |hs|
    ensures CutBack(r, hs[..k]) == CutBack(CutLine(r, hs[k - 1]), hs[..k - 1])
  {
    var ks := hs[..k];
    assert ks[..k - 1] == hs[..k - 1];
    assert ks[k - 1] == hs[k - 1];
  }

  /** With no match of the path from `i` on, `finditer` yields nothing. */
  lemma {:induction false} ExactScanQuiet(t: string, hit: nat -> Option<Hit>, i: nat)
    requires HitFinder(t, hit)
    requires forall x: nat :: i <= x < |t| ==> hit(x).None?
    ensures ExactScan(t, hit, i) == []
    decreases |t| - i
  {
    if i < |t| {
      ExactScanQuiet(t, hit, i + 1);
    }
  }

  /** `finditer` passes over a stretch where no match begins. */
  lemma {:induction false} ExactScanSkip(t: string, hit: nat -> Option<Hit>, i: nat, j: nat)
    requires HitFinder(t, hit) && i <= j <= |t|
    requires forall x: nat :: i <= x < j ==> hit(x).None?
    ensures ExactScan(t, hit, i) == ExactScan(t, hit, j)
    decreases j - i
  {
    if i < j {
      ExactScanSkip(t, hit, i + 1, j);
    }
  }

  /** `remove_import` leaves a text without '@' unchanged. */
  lemma {:induction false} RemoveNoAt(content: string, importPath: string)
    requires !HasChar(content, '@')
    ensures RemoveImportOf(content, importPath) == content
  {
    var np := Normalize(importPath);
    var hit := HitsOf(content, np);
    forall x: nat | x < |content| ensures hit(x).None? {
      NoAtNoExact(content, np, x);
    }
    ExactScanQuiet(content, hit, 0);
  }

  lemma {:induction false} ExactScanHit(t: string, hit: nat -> Option<Hit>, i: nat, h: Hit)
    requires HitFinder(t, hit) && i < |t| && hit(i) == Some(h)
    ensures ExactScan(t, hit, i) == [h] + ExactScan(t, hit, h.end)
  {
  }

  /**
   * A directive alone on its line, in a clean stylesheet with no other directive of the path, is
   * removed together with nothing else: the text before it and the text after it, starting with
   * the line's '\n', are kept, and a second removal finds nothing of the path. When the rest of
   * the file holds no '@' and no '*', `has_import` no longer finds the path either.
   */
  lemma {:induction false} RemoveOwnLine(a: string, b: string, front: seq<Piece>, back: seq<Piece>, importPath: string, e: bool)
    requires PlainPath(Normalize(importPath)) && NoMark(Normalize(importPath))
    requires a == Render(front) && b == Render(back) && Clean(front) && Clean(back)
    requires Lacks(front, Normalize(importPath)) && Lacks(back, Normalize(importPath))
    requires a == [] || a[|a| - 1] == '\n'
    requires b == [] || b[0] == '\n'
    ensures RemoveImportOf(a + Canon(Normalize(importPath), e) + b, importPath) == a + b
    ensures RemoveImportOf(a + b, importPath) == a + b
    ensures NoMark(a) && NoMark(b) ==> !HasImport(a + b, importPath)
  {
    var np := Normalize(importPath);
    RemoveOwnLineAt(a, b, Canon(np, e), a + Canon(np, e) + b, front, back, importPath, np, e);
  }

  lemma {:induction false} RemoveOwnLineAt(a: string, b: string, c: string, t: string, front: seq<Piece>, back: seq<Piece>,
                                           importPath: string, np: string, e: bool)
    requires np == Normalize(importPath) && PlainPath(np) && NoMark(np)
    requires a == Render(front) && b == Render(back) && Clean(front) && Clean(back)
    requires Lacks(front, np) && Lacks(back, np)
    requires a == [] || a[|a| - 1] == '\n'
    requires b == [] || b[0] == '\n'
    requires c == Canon(np, e) && t == a + c + b
    ensures RemoveImportOf(t, importPath) == a + b
    ensures RemoveImportOf(a + b, importPath) == a + b
    ensures NoMark(a) && NoMark(b) ==> !HasImport(a + b, importPath)
  {
    assert RemoveImportOf(t, importPath) == a + b by {
      OwnLineScanAt(a, b, c, t, front, back, np, e);
      CutOwnLine(t, a, c, b, Hit(|a|, |a| + |c|, !e));
    }
    RestQuiet(a, b, front, back, np);
    if NoMark(a) && NoMark(b) {
      NoMarkConcat(a, b);
      NoAtNoImports(a + b);
    }
  }

  /** With no directive of `np` left in the clean rest of the file, the exact-path scan finds nothing. */
  lemma {:induction false} RestQuiet(a: string, b: string, front: seq<Piece>, back: seq<Piece>, np: string)
    requires a == Render(front) && b == Render(back) && Clean(front) && Clean(back)
    requires Lacks(front, np) && Lacks(back, np) && PlainPath(np)
    ensures ExactScan(a + b, HitsOf(a + b, np), 0) == []
  {
    var u := a + b;
    RenderConcat(front, back);
    CleanConcat(front, back);
    LacksConcat(front, back, np);
    ScanAll(u, np, front + back);
    PieceHitsLacking(front + back, 0, np);
  }

  /** Cutting the line of a directive alone on its line leaves what was around it. */
  lemma {:induction false} CutOwnLine(t: string, a: string, c: string, b: string, h: Hit)
    requires t == a + c + b && h == Hit(|a|, |a| + |c|, h.commented)
    requires a == [] || a[|a| - 1] == '\n'
    requires b == [] || b[0] == '\n'
    ensures Spans([h]) && CutBack(t, [h]) == a + b
  {
    var hs := [h];
    assert hs[..0] == [];
    assert CutBack(t, hs) == CutLine(t, h);
    OwnLineSpan(a, c, b, h);
    assert t[..|a|] == a && t[|a| + |c|..] == b;
  }

  lemma {:induction false} NoMarkConcat(a: string, b: string)
    requires NoMark(a) && NoMark(b)
    ensures !HasChar(a + b, '@')
  {
    forall k | 0 <= k < |a + b| ensures (a + b)[k] != '@' {
      if k < |a| {
        assert (a + b)[k] == a[k];
      } else {
        assert (a + b)[k] == b[k - |a|];
      }
    }
  }

  /**
   * In a clean stylesheet whose only directive of `np` stands between the renderings of `front` and
   * `back`, that directive is the only match of the exact-path pattern.
   */
  lemma {:induction false} OwnLineScan(a: string, b: string, front: seq<Piece>, back: seq<Piece>, np: string, e: bool)
    requires a == Render(front) && b == Render(back) && Clean(front) && Clean(back)
    requires Lacks(front, np) && Lacks(back, np) && PlainPath(np) && NoMark(np)
    ensures ExactScan(a + Canon(np, e) + b, HitsOf(a + Canon(np, e) + b, np), 0) == [Hit(|a|, |a| + |Canon(np, e)|, !e)]
  {
    OwnLineScanAt(a, b, Canon(np, e), a + Canon(np, e) + b, front, back, np, e);
  }

  lemma {:induction false} OwnLineScanAt(a: string, b: string, c: string, t: string, front: seq<Piece>, back: seq<Piece>, np: string, e: bool)
    requires a == Render(front) && b == Render(back) && Clean(front) && Clean(back)
    requires Lacks(front, np) && Lacks(back, np) && PlainPath(np) && NoMark(np)
    requires c == Canon(np, e) && t == a + c + b
    ensures ExactScan(t, HitsOf(t, np), 0) == [Hit(|a|, |a| + |c|, !e)]
  {
    var qs := front + ([Dir(np, e)] + back);
    assert PieceHits(qs, 0, np) == [Hit(|a|, |a| + |c|, !e)] by {
      LonePieceHit(front, back, np, e);
      RenderLenText(front);
      PieceLenText(Dir(np, e));
    }
    assert ExactScan(t, HitsOf(t, np), 0) == PieceHits(qs, 0, np) by {
      DirBetween(front, Dir(np, e), back);
      ScanAll(t, np, qs);
    }
  }

  /** On a clean stylesheet the exact-path scan of the whole text finds exactly the directives of `np`. */
  lemma {:induction false} ScanAll(t: string, np: string, qs: seq<Piece>)
    requires t == Render(qs) && Clean(qs) && PlainPath(np)
    ensures ExactScan(t, HitsOf(t, np), 0) == PieceHits(qs, 0, np)
  {
    assert t[0..] == t;
    ScanFrom(t, np, HitsOf(t, np), 0, qs);
  }

  /** A clean directive between clean pieces: the rendering puts its text between theirs. */
  lemma {:induction false} DirBetween(front: seq<Piece>, d: Piece, back: seq<Piece>)
    requires d.Dir? && Clean(front) && Clean(back) && CleanPiece(d)
    ensures Render(front + ([d] + back)) == Render(front) + Canon(d.path, d.enabled) + Render(back)
    ensures Clean(front + ([d] + back))
  {
    var ds := [d] + back;
    SinglePiece(d, back, Render(back));
    RenderConcat(front, ds);
    CleanConcat([d], back);
    CleanConcat(front, ds);
  }

  /** The only directive of `np` among the pieces gives the only hit, where its text starts. */
  lemma {:induction false} LonePieceHit(front: seq<Piece>, back: seq<Piece>, np: string, e: bool)
    requires Lacks(front, np) && Lacks(back, np)
    ensures PieceHits(front + ([Dir(np, e)] + back), 0, np) == [Hit(RenderLen(front), RenderLen(front) + PieceLen(Dir(np, e)), !e)]
  {
    var d := Dir(np, e);
    var i := RenderLen(front);
    var j := i + PieceLen(d);
    PieceHitsConcat(front, [d] + back, 0, np);
    PieceHitsLacking(front, 0, np);
    assert ([d] + back)[1..] == back;
    PieceHitsLacking(back, j, np);
    assert PieceHits([d] + back, i, np) == [Hit(i, j, !e)] + [];
  }

  /** A directive piece put in front of `back`: its text, then the rest. */
  lemma {:induction false} SinglePiece(d: Piece, back: seq<Piece>, b: string)
    requires d.Dir? && b == Render(back)
    ensures Render([d] + back) == Canon(d.path, d.enabled) + b
    ensures Clean([d]) <==> CleanPiece(d)
  {
    assert ([d] + back)[1..] == back;
    assert [d][1..] == [];
  }

  /** The matches the exact-path scan reports in the rendering of `qs` placed at `i`: one per directive of `np`. */
  function PieceHits(qs: seq<Piece>, i: nat, np: string): seq<Hit>
    decreases |qs|
  {
    if qs == [] then [] else OwnHit(qs[0], i, np) + PieceHits(qs[1..], i + PieceLen(qs[0]), np)
  }

  /** The match one piece placed at `i` gives: one if it is a directive of `np`, none otherwise. */
  function OwnHit(q: Piece, i: nat, np: string): seq<Hit>
  {
    if q.Dir? && q.path == np then [Hit(i, i + PieceLen(q), !q.enabled)] else []
  }

  /** The length of a piece's text, counted without spelling the text out. */
  function PieceLen(q: Piece): nat
  {
    match q
    case Free(s) => |s|
    case Dir(p, e) => if e then |p| + 16 else |p| + 22
  }

  /** The length of a rendering, piece by piece. */
  function RenderLen(qs: seq<Piece>): nat
  {
    if qs == [] then 0 else PieceLen(qs[0]) + RenderLen(qs[1..])
  }

  lemma {:induction false} PieceLenText(q: Piece)
    ensures PieceLen(q) == |PieceText(q)|
  {
    if q.Dir? {
      assert PieceText(q) == Canon(q.path, q.enabled);
    }
  }

  lemma {:induction false} RenderLenText(qs: seq<Piece>)
    ensures RenderLen(qs) == |Render(qs)|
    decreases |qs|
  {
    if qs != [] {
      RenderFirst(qs);
      PieceLenText(qs[0]);
      RenderLenText(qs[1..]);
    }
  }

  /** No piece is a directive of `np`. */
  predicate Lacks(qs: seq<Piece>, np: string)
  {
    forall k :: 0 <= k < |qs| ==> !(qs[k].Dir? && qs[k].path == np)
  }

  /** On a clean stylesheet the exact-path scan finds exactly the directives of `np`, in order and in either form. */
  lemma {:induction false} ScanFrom(t: string, np: string, hit: nat -> Option<Hit>, i: nat, qs: seq<Piece>)
    requires HitFinder(t, hit) && Finds(t, np, hit)
    requires i <= |t| && t[i..] == Render(qs) && Clean(qs) && PlainPath(np)
    ensures ExactScan(t, hit, i) == PieceHits(qs, i, np)
    decreases |qs|
  {
    if qs == [] {
      assert |t[i..]| == 0;
    } else {
      var n := RenderHead(t, i, qs);
      BoundaryUnclosed(t, i + n, qs[1..]);
      ScanFrom(t, np, hit, i + n, qs[1..]);
      ScanPiece(t, np, hit, i, qs[0]);
    }
  }

  /** One piece: a directive of `np` is a match, anything else is passed over. */
  lemma {:induction false} ScanPiece(t: string, np: string, hit: nat -> Option<Hit>, i: nat, q: Piece)
    requires HitFinder(t, hit) && Finds(t, np, hit)
    requires At(t, i, PieceText(q)) && Unclosed(t, i + |PieceText(q)|) && CleanPiece(q) && PlainPath(np)
    ensures ExactScan(t, hit, i) ==
            OwnHit(q, i, np) + ExactScan(t, hit, i + |PieceText(q)|)
  {
    var j := i + |PieceText(q)|;
    if q.Free? {
      assert OwnHit(q, i, np) == [];
      FreeQuiet(t, np, hit, i, q.text);
      ExactScanSkip(t, hit, i, j);
    } else if q.path == np {
      PieceLenText(q);
      assert OwnHit(q, i, np) == [Hit(i, j, !q.enabled)];
      DirScanStep(t, np, hit, i, j, PieceText(q), q.enabled);
    } else {
      assert OwnHit(q, i, np) == [];
      DirNoHit(t, i, q.path, q.enabled, np, hit);
      ExactScanSkip(t, hit, i, j);
    }
  }

  lemma {:induction false} RenderConcat(front: seq<Piece>, back: seq<Piece>)
    ensures Render(front + back) == Render(front) + Render(back)
    decreases |front|
  {
    if front == [] {
      assert front + back == back;
    } else {
      assert (front + back)[1..] == front[1..] + back;
      RenderConcat(front[1..], back);
    }
  }

  lemma {:induction false} CleanConcat(front: seq<Piece>, back: seq<Piece>)
    requires Clean(front) && Clean(back)
    ensures Clean(front + back)
    decreases |front|
  {
    if front == [] {
      assert front + back == back;
    } else {
      assert (front + back)[1..] == front[1..] + back;
      CleanConcat(front[1..], back);
    }
  }

  lemma {:induction false} LacksConcat(front: seq<Piece>, back: seq<Piece>, np: string)
    requires Lacks(front, np) && Lacks(back, np)
    ensures Lacks(front + back, np)
  {
    forall k | 0 <= k < |front + back| ensures !((front + back)[k].Dir? && (front + back)[k].path == np) {
      if k < |front| {
        assert (front + back)[k] == front[k];
      } else {
        assert (front + back)[k] == back[k - |front|];
      }
    }
  }

  lemma {:induction false} PieceHitsConcat(front: seq<Piece>, back: seq<Piece>, i: nat, np: string)
    ensures PieceHits(front + back, i, np) == PieceHits(front, i, np) + PieceHits(back, i + RenderLen(front), np)
    decreases |front|
  {
    if front == [] {
      assert front + back == back;
      assert PieceHits(front, i, np) == [] && RenderLen(front) == 0;
    } else {
      var q, rest := front[0], front[1..];
      var n := PieceLen(q);
      var x := OwnHit(q, i, np);
      var y, z := PieceHits(rest, i + n, np), PieceHits(back, i + n + RenderLen(rest), np);
      PieceHitsConcat(rest, back, i + n, np);
      assert (front + back)[1..] == rest + back && (front + back)[0] == q;
      assert PieceHits(front + back, i, np) == x + (y + z);
      assert x + (y + z) == (x + y) + z;
      assert PieceHits(front, i, np) == x + y;
      assert RenderLen(front) == n + RenderLen(rest);
      assert PieceHits(back, i + RenderLen(front), np) == z;
    }
  }

  /** The rendering of a non-empty sequence of pieces starts with the text of the first one. */
  lemma {:induction false} RenderFirst(qs: seq<Piece>)
    requires qs != []
    ensures Render(qs) == PieceText(qs[0]) + Render(qs[1..])
  {
  }

  lemma {:induction false} PieceHitsLacking(qs: seq<Piece>, i: nat, np: string)
    requires Lacks(qs, np)
    ensures PieceHits(qs, i, np) == []
    decreases |qs|
  {
    if qs != [] {
      assert !(qs[0].Dir? && qs[0].path == np);
      forall k | 0 <= k < |qs| - 1 ensures !(qs[1..][k].Dir? && qs[1..][k].path == np) {
        assert qs[1..][k] == qs[k + 1];
      }
      PieceHitsLacking(qs[1..], i + PieceLen(qs[0]), np);
    }
  }

  /** One directive in place contributes its hit and the scan resumes after it. */
  lemma {:induction false} DirScanStep(t: string, np: string, hit: nat -> Option<Hit>, i: nat, j: nat, c: string, e: bool)
    requires HitFinder(t, hit) && Finds(t, np, hit)
    requires c == Canon(np, e) && j == i + |c| && j <= |t| && t[i..j] == c
    requires PlainPath(np) && Unclosed(t, j)
    ensures ExactScan(t, hit, i) == [Hit(i, j, !e)] + ExactScan(t, hit, j)
  {
    var h := Hit(i, j, !e);
    assert ExactAt(t, np, i) == Some(h) by {
      DirHit(t, i, np, e);
    }
    ExactScanHit(t, hit, i, h);
  }

  lemma {:induction false} CanonFirst(np: string, e: bool)
    ensures Canon(np, e)[0] == if e then '@' else '/'
  {
  }

  /** Before a mark-free end of the text, the first non-space character is not '*'. */
  lemma {:induction false} TailUnclosed(t: string, j: nat, b: string)
    requires j <= |t| && t[j..] == b && NoMark(b)
    ensures Unclosed(t, j)
    decreases |t| - j
  {
    if j < |t| {
      assert t[j] == b[0];
      if IsSpace(t[j]) {
        assert t[j + 1..] == b[1..];
        TailUnclosed(t, j + 1, b[1..]);
      }
    }
  }

  /** The line of a directive between a line end (or the start) and a line end (or the end) is the directive. */
  lemma {:induction false} OwnLineSpan(a: string, c: string, b: string, h: Hit)
    requires h == Hit(|a|, |a| + |c|, h.commented)
    requires a == [] || a[|a| - 1] == '\n'
    requires b == [] || b[0] == '\n'
    ensures LineSpan(a + c + b, h) == (|a|, |a| + |c|)
  {
    var t := a + c + b;
    if a != [] {
      assert t[|a| - 1] == '\n';
    }
    if b != [] {
      assert t[|a| + |c|] == '\n';
    }
  }

  // ----- remove_import: two matches on one line -----

  /**
   * As written, the reverse loop takes every match's offsets from the original text but looks
   * them up in the already shortened result. With two matches on one line the first cut removes
   * the whole line, and the second then reads its stale offsets past the '\n' that ended the
   * line and removes the rest of the text too.
   */
  lemma {:induction false} RemoveSameLineAsWritten()
    ensures RemoveImportOf(Directive("a") + Directive("a") + "\nb", "a") == ""
  {
    var np := "a";
    NormalizeClean(np);
    var c := Canon(np, true);
    var t := c + c + "\nb";
    assert t == Directive("a") + Directive("a") + "\nb";
    TwoOnOneLine(t, c, np, HitsOf(t, np));
    var h1, h2 := Hit(0, 17, false), Hit(17, 34, false);
    var hs := [h1, h2];
    assert hs[..1] == [h1];
    var r := CutLine(t, h2);
    FirstCut(t, c);
    assert CutBack(t, hs) == CutBack(r, [h1]);
    assert CutLine(r, h1) == "";
  }

  lemma {:induction false} FirstCut(t: string, c: string)
    requires c == Canon("a", true) && t == c + c + "\nb"
    ensures CutLine(t, Hit(17, 34, false)) == "\nb"
  {
    SharedLine(t, c);
    assert t[..0] == [] && t[34..] == "\nb";
  }

  /** The matches of two adjacent directives written on the line before "b". */
  lemma {:induction false} TwoOnOneLine(t: string, c: string, np: string, hit: nat -> Option<Hit>)
    requires HitFinder(t, hit) && Finds(t, np, hit)
    requires np == "a" && c == Canon(np, true) && t == c + c + "\nb"
    ensures ExactScan(t, hit, 0) == [Hit(0, 17, false), Hit(17, 34, false)]
  {
    assert PlainPath(np) && NoMark(np);
    assert |c| == 17 && |t| == 36;
    assert t[0..17] == c && t[17..34] == c && t[34..] == "\nb" && t[34..36] == "\nb";
    CanonFirst(np, true);
    assert t[17] == '@' && SkipLeft(t, 17) == 17;
    TailUnclosed(t, 34, "\nb");
    DirScanStep(t, np, hit, 0, 17, c, true);
    DirScanStep(t, np, hit, 17, 34, c, true);
    TailUnclosed(t, 36, []);
    NoMarkFree("\nb");
    FreeQuiet(t, np, hit, 34, "\nb");
    ExactScanQuiet(t, hit, 34);
  }

  /** Position `k` lies on one of the lines to remove. */
  predicate Covered(ss: seq<(nat, nat)>, k: nat)
  {
    exists m :: 0 <= m < |ss| && ss[m].0 <= k < ss[m].1
  }

  /** The line span of every match, all taken in the original text. */
  function OriginalSpans(t: string, hs: seq<Hit>): (ss: seq<(nat, nat)>)
    requires Spans(hs)
    ensures |ss| == |hs|
    ensures forall m :: 0 <= m < |hs| ==> ss[m] == LineSpan(t, hs[m])
    decreases |hs|
  {
    if hs == [] then [] else OriginalSpans(t, hs[..|hs| - 1]) + [LineSpan(t, hs[|hs| - 1])]
  }

  /** The characters of `t[k..]` on no line to remove, in order. */
  function KeepFrom(t: string, ss: seq<(nat, nat)>, k: nat): (r: string)
    ensures k <= |t| ==> |r| <= |t| - k
    decreases |t| - k
  {
    if k >= |t| then [] else (if Covered(ss, k) then [] else [t[k]]) + KeepFrom(t, ss, k + 1)
  }

  /**
   * What `remove_import` evidently means to do: drop every line holding a match of the path,
   * each line once, and keep every other character of the content in order.
   */
  function RemoveMatchLinesOf(content: string, importPath: string): (r: string)
    ensures |r| <= |content|
  {
    var np := Normalize(importPath);
    var hs := ExactScan(content, HitsOf(content, np), 0);
    if hs == [] then content else KeepFrom(content, OriginalSpans(content, hs), 0)
  }

  /** Lines of later matches start and end no earlier than those of earlier ones. */
  predicate Ascending(ss: seq<(nat, nat)>)
  {
    forall m, n :: 0 <= m <= n < |ss| ==> ss[m].0 <= ss[n].0 && ss[m].1 <= ss[n].1
  }

  /**
   * The corrected loop: line spans are found in the original content, and each cut stops where
   * the previous (later) cut began, so a line is never cut twice.
   */
  method RemoveMatchLines(content: string, importPath: string) returns (result: string)
    ensures result == RemoveMatchLinesOf(content, importPath)
  {
    var np := Normalize(importPath);
    var matches := ExactScan(content, HitsOf(content, np), 0);
    if matches == [] {
      return content;
    }
    SpansAscending(content, HitsOf(content, np), matches);
    result := CutSpans(content, OriginalSpans(content, matches));
  }

  /** Every span lies within a text of length `n`. */
  predicate Within(ss: seq<(nat, nat)>, n: nat)
  {
    forall m :: 0 <= m < |ss| ==> ss[m].0 <= ss[m].1 <= n
  }

  /** Cutting ascending spans from the last to the first, each cut clamped at the previous one. */
  method CutSpans(content: string, ss: seq<(nat, nat)>) returns (result: string)
    requires Ascending(ss) && Within(ss, |content|)
    ensures result == KeepFrom(content, ss, 0)
  {
    result := content;
    var cut: nat := |content|;
    var k := |ss|;
    KeepCovered(content, ss, cut, cut);
    while k > 0
      invariant 0 <= k <= |ss| && cut <= |content|
      invariant k == |ss| ==> cut == |content|
      invariant k < |ss| ==> cut == ss[k].0
      invariant forall m :: k <= m < |ss| ==> cut <= ss[m].0
      invariant result == content[..cut] + KeepFrom(content, ss, cut)
    {
      var ls, le := ss[k - 1].0, ss[k - 1].1;
      if le > cut {
        le := cut;
      }
      assert ls <= cut by {
        if k < |ss| {
          assert ss[k - 1].0 <= ss[k].0;
        }
      }
      CutStep(content, ss, k - 1, ls, le, cut);
      CutResult(content, result, ls, le, cut, KeepFrom(content, ss, cut), KeepFrom(content, ss, ls));
      result := result[..ls] + result[le..];
      cut := ls;
      k := k - 1;
    }
    KeepUncovered(content, ss, 0, cut);
  }

  lemma {:induction false} CutResult(t: string, r: string, ls: nat, le: nat, cut: nat, rest: string, kept: string)
    requires ls <= le <= cut <= |t| && r == t[..cut] + rest && kept == t[le..cut] + rest
    ensures r[..ls] + r[le..] == t[..ls] + kept
  {
    assert r[..ls] == t[..ls];
    assert r[le..] == t[le..cut] + rest;
  }

  /** One corrected cut: between the line start and the clamped end everything is removed, and the rest up to `cut` stays. */
  lemma {:induction false} CutStep(t: string, ss: seq<(nat, nat)>, m: nat, ls: nat, le: nat, cut: nat)
    requires m < |ss| && Ascending(ss) && ss[m].1 <= |t| && cut <= |t|
    requires ls == ss[m].0 && le == (if ss[m].1 > cut then cut else ss[m].1) && ls <= le
    requires forall n :: m < n < |ss| ==> cut <= ss[n].0
    ensures KeepFrom(t, ss, ls) == t[le..cut] + KeepFrom(t, ss, cut)
  {
    KeepCovered(t, ss, ls, le);
    assert forall x :: le <= x < cut ==> !Covered(ss, x);
    KeepUncovered(t, ss, le, cut);
  }

  /** Over a stretch where every position is on a removed line, nothing is kept. */
  lemma {:induction false} KeepCovered(t: string, ss: seq<(nat, nat)>, lo: nat, hi: nat)
    requires lo <= hi
    requires forall x :: lo <= x < hi ==> Covered(ss, x)
    ensures KeepFrom(t, ss, lo) == KeepFrom(t, ss, hi)
    decreases hi - lo
  {
    if lo < hi {
      assert Covered(ss, lo);
      KeepCovered(t, ss, lo + 1, hi);
    }
  }

  /** Over a stretch on no removed line, every character is kept. */
  lemma {:induction false} KeepUncovered(t: string, ss: seq<(nat, nat)>, lo: nat, hi: nat)
    requires lo <= hi <= |t|
    requires forall x :: lo <= x < hi ==> !Covered(ss, x)
    ensures KeepFrom(t, ss, lo) == t[lo..hi] + KeepFrom(t, ss, hi)
    decreases hi - lo
  {
    if lo < hi {
      assert !Covered(ss, lo);
      KeepUncovered(t, ss, lo + 1, hi);
      SliceCons(t, lo, hi, KeepFrom(t, ss, hi));
    }
  }

  /** `rfind` and `find` of '\n' move forward with their bound. */
  lemma {:induction false} LineSpanMono(t: string, g: Hit, h: Hit)
    requires g.start <= g.end && h.start <= h.end && g.start <= h.start && g.end <= h.end
    ensures LineSpan(t, g).0 <= LineSpan(t, h).0 && LineSpan(t, g).1 <= LineSpan(t, h).1
  {
    var a, b := RFindChar(t, '\n', g.start), RFindChar(t, '\n', h.start);
    if a != -1 {
      assert b >= a;
    }
    var x, y := FindChar(t, '\n', g.end), FindChar(t, '\n', h.end);
    if y != -1 {
      assert x != -1 && x <= y;
    }
  }

  /** The matches `finditer` yields, in order, at increasing starts and ends. */
  lemma {:induction false} ScanAscending(t: string, hit: nat -> Option<Hit>, i: nat, m: nat, n: nat)
    requires HitFinder(t, hit) && m <= n < |ExactScan(t, hit, i)|
    ensures ExactScan(t, hit, i)[m].start <= ExactScan(t, hit, i)[n].start
    ensures ExactScan(t, hit, i)[m].end <= ExactScan(t, hit, i)[n].end
    decreases n - m
  {
    var hs := ExactScan(t, hit, i);
    if m < n {
      ScanAscending(t, hit, i, m + 1, n);
      assert hs[m].end <= hs[m + 1].start;
    }
  }

  /** The line spans of the matches ascend with them. */
  lemma {:induction false} SpansAscending(t: string, hit: nat -> Option<Hit>, hs: seq<Hit>)
    requires HitFinder(t, hit) && hs == ExactScan(t, hit, 0)
    ensures Spans(hs) && Ascending(OriginalSpans(t, hs)) && Within(OriginalSpans(t, hs), |t|)
  {
    var ss := OriginalSpans(t, hs);
    forall m, n | 0 <= m <= n < |ss| ensures ss[m].0 <= ss[n].0 && ss[m].1 <= ss[n].1 {
      ScanAscending(t, hit, 0, m, n);
      LineSpanMono(t, hs[m], hs[n]);
    }
  }

  /** The corrected removal keeps the '\n' that ends the removed line and the line after it. */
  lemma {:induction false} RemoveSameLineCorrected()
    ensures RemoveMatchLinesOf(Directive("a") + Directive("a") + "\nb", "a") == "\nb"
  {
    var np := "a";
    NormalizeClean(np);
    var c := Canon(np, true);
    var t := c + c + "\nb";
    assert t == Directive("a") + Directive("a") + "\nb";
    TwoOnOneLine(t, c, np, HitsOf(t, np));
    SameLineKept(t, c, [Hit(0, 17, false), Hit(17, 34, false)]);
  }

  /** Both matches lie on the first line, so only the line end and "b" are kept. */
  lemma {:induction false} SameLineKept(t: string, c: string, hs: seq<Hit>)
    requires c == Canon("a", true) && t == c + c + "\nb" && hs == [Hit(0, 17, false), Hit(17, 34, false)]
    ensures Spans(hs) && KeepFrom(t, OriginalSpans(t, hs), 0) == "\nb"
  {
    SharedLine(t, c);
    var ss := OriginalSpans(t, hs);
    assert ss[0] == LineSpan(t, hs[0]) && ss[1] == LineSpan(t, hs[1]);
    assert |t| == 36 && t[34..] == "\nb";
    KeepTwice(t, ss);
  }

  lemma {:induction false} KeepTwice(t: string, ss: seq<(nat, nat)>)
    requires |t| == 36 && t[34..] == "\nb" && |ss| == 2 && ss[0] == (0, 34) && ss[1] == (0, 34)
    ensures KeepFrom(t, ss, 0) == "\nb"
  {
    forall x | 0 <= x < 34 ensures Covered(ss, x) {
      assert ss[0].0 <= x < ss[0].1;
    }
    KeepCovered(t, ss, 0, 34);
    forall x | 34 <= x < 36 ensures !Covered(ss, x) {
      assert forall m :: 0 <= m < |ss| ==> ss[m] == (0, 34);
    }
    KeepUncovered(t, ss, 34, 36);
    assert t[34..36] == t[34..];
    assert KeepFrom(t, ss, 36) == [];
  }

  lemma {:induction false} SharedLine(t: string, c: string)
    requires c == Canon("a", true) && t == c + c + "\nb"
    ensures LineSpan(t, Hit(0, 17, false)) == (0, 34)
    ensures LineSpan(t, Hit(17, 34, false)) == (0, 34)
  {
    assert |c| == 17 && |t| == 36;
    forall k | 0 <= k < 34 ensures t[k] != '\n' {
      DirectiveLine(c, if k < 17 then k else k - 17);
      assert t[k] == c[if k < 17 then k else k - 17];
    }
    assert t[34] == '\n';
  }

  /** The directive for "a" holds no '\n'. */
  lemma {:induction false} DirectiveLine(c: string, k: nat)
    requires c == Canon("a", true) && k < |c|
    ensures c[k] != '\n'
  {
    assert c == "@import url(\"a\");";
  }

  /** Keeping what lies outside one span is cutting that span out. */
  lemma {:induction false} KeepOne(t: string, s: (nat, nat))
    requires s.0 <= s.1 <= |t|
    ensures KeepFrom(t, [s], 0) == t[..s.0] + t[s.1..]
  {
    var ss := [s];
    assert forall x: nat :: !Covered(ss, x) <==> !(s.0 <= x < s.1) by {
      forall x: nat ensures Covered(ss, x) <==> s.0 <= x < s.1 {
        assert ss[0] == s;
      }
    }
    KeepUncovered(t, ss, 0, s.0);
    KeepCovered(t, ss, s.0, s.1);
    KeepUncovered(t, ss, s.1, |t|);
    var k0, k1, k2 := KeepFrom(t, ss, 0), KeepFrom(t, ss, s.1), KeepFrom(t, ss, |t|);
    assert k2 == [];
    assert k0 == t[0..s.0] + k1;
    assert k1 == t[s.1..|t|];
  }

  /** With a single match the corrected removal and `remove_import` as written agree. */
  lemma {:induction false} RemoveSingleAgrees(content: string, importPath: string)
    requires |ExactScan(content, HitsOf(content, Normalize(importPath)), 0)| == 1
    ensures RemoveMatchLinesOf(content, importPath) == RemoveImportOf(content, importPath)
  {
    var np := Normalize(importPath);
    var hs := ExactScan(content, HitsOf(content, np), 0);
    var h := hs[0];
    assert hs == [h];
    var sp := LineSpan(content, h);
    KeepOne(content, sp);
    assert OriginalSpans(content, hs) == [sp];
    assert CutBack(content, hs) == CutLine(content, h) by {
      assert hs[..0] == [];
    }
  }

  /** The corrected removal takes a directive on its own line out of a clean stylesheet and keeps the rest. */
  lemma {:induction false} RemoveMatchLinesOwnLine(a: string, b: string, front: seq<Piece>, back: seq<Piece>, importPath: string, e: bool)
    requires PlainPath(Normalize(importPath)) && NoMark(Normalize(importPath))
    requires a == Render(front) && b == Render(back) && Clean(front) && Clean(back)
    requires Lacks(front, Normalize(importPath)) && Lacks(back, Normalize(importPath))
    requires a == [] || a[|a| - 1] == '\n'
    requires b == [] || b[0] == '\n'
    ensures RemoveMatchLinesOf(a + Canon(Normalize(importPath), e) + b, importPath) == a + b
  {
    var np := Normalize(importPath);
    var t := a + Canon(np, e) + b;
    OwnLineScan(a, b, front, back, np, e);
    RemoveSingleAgrees(t, importPath);
    RemoveOwnLine(a, b, front, back, importPath, e);
  }

  /**
   * The span `remove_import` cuts for a match is the match's own line or lines: it starts at the
   * text start or just after a '\n', ends at a '\n' or the text end, holds the whole match and
   * no other '\n'.
   */
  lemma {:induction false} LineSpanSpec(r: string, h: Hit)
    requires h.start <= h.end <= |r|
    ensures LineSpan(r, h).0 <= h.start && h.end <= LineSpan(r, h).1
    ensures LineSpan(r, h).0 == 0 || r[LineSpan(r, h).0 - 1] == '\n'
    ensures LineSpan(r, h).1 == |r| || r[LineSpan(r, h).1] == '\n'
    ensures forall x :: LineSpan(r, h).0 <= x < h.start ==> r[x] != '\n'
    ensures forall x :: h.end <= x < LineSpan(r, h).1 ==> r[x] != '\n'
  {
  }
}
