// A hand-written matcher for the two directive regexes of src/core/userchrome.py:
//   active:    @import\s+url\(['"]?(.+?)['"]?\);
//   commented: /\*\s*@import\s+url\(['"]?(.+?)['"]?\);\s*\*/
// and for the comment-block regex /\*.*?\*/ (DOTALL). Each function follows the
// backtracking order of Python's `re`: the optional quote is tried first, the lazy
// group `(.+?)` grows one character at a time and never crosses a '\n'.
module ImportSyntax {
  import opened Common
  import opened Strings

  datatype Shape = Active | Commented

  /**
   * One match: `t[start..end]` is the whole match, `t[pathStart..pathEnd]` the path group,
   * `@import` begins at `keyword` and `url(` at `open`.
   */
  datatype Match = Match(start: nat, keyword: nat, open: nat, pathStart: nat, pathEnd: nat, end: nat)

  predicate IsQuote(c: char)
  {
    c == '"' || c == '\''
  }

  /** `\s*\*\/` at `k`: the index just after the closing `*` `/`. */
  function CloseAfter(t: string, k: nat): (r: Option<nat>)
    requires k <= |t|
    ensures r.Some? ==> k + 2 <= r.value <= |t|
  {
    var j := SkipLeft(t, k);
    if At(t, j, "*/") then Some(j + 2) else None
  }

  /** What follows the path group, starting at `e`: `['"]?\);`, then `\s*\*\/` for the commented shape. */
  function TailAt(t: string, e: nat, shape: Shape): (r: Option<nat>)
    ensures r.Some? ==> e + 2 <= r.value <= |t|
  {
    var k := if e < |t| && IsQuote(t[e]) && At(t, e + 1, ");") then Some(e + 3)
             else if At(t, e, ");") then Some(e + 2)
             else None;
    match k
    case None => None
    case Some(k) => if shape == Active then Some(k) else CloseAfter(t, k)
  }

  /** The tail of one shape, as the continuation the lazy group is tried against. */
  function TailOf(t: string, shape: Shape): (tail: nat -> Option<nat>)
    ensures forall e: nat :: tail(e) == TailAt(t, e, shape)
  {
    (e: nat) => TailAt(t, e, shape)
  }

  /**
   * The lazy group `(.+?)` begun at `e - 1`, tried with end `e`, `e + 1`, ...: the first end
   * after which the continuation `tail` matches, with the end it reports. It fails at a '\n'.
   */
  function LazyFrom(t: string, e: nat, tail: nat -> Option<nat>): (r: Option<(nat, nat)>)
    requires e >= 1
    ensures r.Some? ==> e <= r.value.0 && r.value.0 <= |t| && tail(r.value.0) == Some(r.value.1)
    decreases |t| + 1 - e
  {
    if e > |t| || t[e - 1] == '\n' then None
    else
      match tail(e)
      case Some(end) => Some((e, end))
      case None => LazyFrom(t, e + 1, tail)
  }

  /**
   * `['"]?(.+?)` followed by the tail, at `p` (just after `url(`): the path group and the end of
   * the match. If the group cannot follow an opening quote, the quote itself becomes the group.
   */
  function PathAfterParen(t: string, p: nat, shape: Shape): (r: Option<(nat, nat, nat)>)
    ensures r.Some? ==> p <= r.value.0 < r.value.1 <= |t| && TailAt(t, r.value.1, shape) == Some(r.value.2)
  {
    if p < |t| && IsQuote(t[p]) then
      match LazyFrom(t, p + 2, TailOf(t, shape))
      case Some(g) => Some((p + 1, g.0, g.1))
      case None =>
        match TailAt(t, p + 1, shape)
        case Some(end) => Some((p, p + 1, end))
        case None => None
    else if p < |t| then
      match LazyFrom(t, p + 1, TailOf(t, shape))
      case Some(g) => Some((p, g.0, g.1))
      case None => None
    else None
  }

  /** `@import\s+url\(` at `i`: the index where `url(` begins. */
  function UrlAt(t: string, i: nat): (r: Option<nat>)
    ensures r.Some? ==> At(t, i, "@import") && i + 8 <= r.value && At(t, r.value, "url(")
    ensures r.Some? ==> r.value == SkipLeft(t, i + 7)
  {
    if At(t, i, "@import") then
      var k := SkipLeft(t, i + 7);
      if k > i + 7 && At(t, k, "url(") then Some(k) else None
    else None
  }

  /** Where `@import` must begin for a match at `i`: at `i`, or after `/\*\s*` for the commented shape. */
  function KeywordStart(t: string, i: nat, shape: Shape): (r: Option<nat>)
    ensures r.Some? ==> i <= r.value
  {
    if shape == Active then Some(i)
    else if At(t, i, "/*") then Some(SkipLeft(t, i + 2))
    else None
  }

  /** The directive regex of the given shape matched at exactly `i`. */
  function MatchAt(t: string, i: nat, shape: Shape): (r: Option<Match>)
    ensures r.Some? ==> r.value.start == i && Inside(t, r.value)
  {
    MatchWith(i, KeywordStart(t, i, shape), (j: nat) => UrlAt(t, j), (p: nat) => PathAfterParen(t, p, shape))
  }

  /** A match put together from where its keyword is, the `url(` after it and the path and tail after that. */
  function MatchWith(i: nat, kw: Option<nat>, url: nat -> Option<nat>, path: nat -> Option<(nat, nat, nat)>): Option<Match>
  {
    match kw
    case None => None
    case Some(j) =>
      match url(j)
      case None => None
      case Some(k) =>
        match path(k + 4)
        case None => None
        case Some(g) => Some(Match(i, j, k, g.0, g.1, g.2))
  }

  /** `at` finds matches on `t`: a match found at `y` starts at `y` and lies inside `t`. */
  ghost predicate Matcher(t: string, at: nat -> Option<Match>)
  {
    forall y: nat :: at(y).Some? ==> at(y).value.start == y && Inside(t, at(y).value)
  }

  /** The regex of one directive shape, as a matcher. */
  function MatcherOf(t: string, shape: Shape): (at: nat -> Option<Match>)
    ensures Matcher(t, at)
  {
    (y: nat) => MatchAt(t, y, shape)
  }

  /** `finditer` from `i` with the matcher `at`: the leftmost match, then the search resumes at its end. */
  function Scan(t: string, at: nat -> Option<Match>, i: nat): (ms: seq<Match>)
    requires i <= |t| && Matcher(t, at)
    ensures forall k :: 0 <= k < |ms| ==> i <= ms[k].start && Inside(t, ms[k])
    decreases |t| - i
  {
    if i >= |t| then []
    else
      match at(i)
      case Some(m) => [m] + Scan(t, at, m.end)
      case None => Scan(t, at, i + 1)
  }

  /** How a match is made of its parts: `@import`, spaces, `url(`, the path group and the tail. */
  lemma {:induction false} MatchParts(t: string, i: nat, shape: Shape, m: Match)
    requires MatchAt(t, i, shape) == Some(m)
    ensures At(t, m.keyword, "@import") && t[m.keyword] == '@' && UrlAt(t, m.keyword) == Some(m.open)
    ensures PathAfterParen(t, m.open + 4, shape) == Some((m.pathStart, m.pathEnd, m.end))
    ensures shape == Active ==> m.keyword == i
  {
    var url, path := (y: nat) => UrlAt(t, y), (p: nat) => PathAfterParen(t, p, shape);
    assert MatchWith(i, KeywordStart(t, i, shape), url, path) == Some(m);
    MatchWithParts(i, KeywordStart(t, i, shape), url, path, m);
    AtChar(t, m.keyword, "@import", 0);
  }

  lemma {:induction false} MatchWithParts(i: nat, kw: Option<nat>, url: nat -> Option<nat>, path: nat -> Option<(nat, nat, nat)>, m: Match)
    requires MatchWith(i, kw, url, path) == Some(m)
    ensures kw == Some(m.keyword) && url(m.keyword) == Some(m.open) && path(m.open + 4) == Some((m.pathStart, m.pathEnd, m.end))
  {
  }

  /** The positions of a match are ordered and lie inside the text. */
  predicate Inside(t: string, m: Match)
  {
    m.start <= m.keyword && m.keyword + 8 <= m.open && m.open + 4 <= m.pathStart
    && m.pathStart < m.pathEnd < m.end <= |t|
  }

  /** Every match of the scan is the match at its start, and matches do not overlap. */
  lemma {:induction false} ScanSound(t: string, at: nat -> Option<Match>, i: nat)
    requires i <= |t| && Matcher(t, at)
    ensures forall k :: 0 <= k < |Scan(t, at, i)| ==> at(Scan(t, at, i)[k].start) == Some(Scan(t, at, i)[k])
    ensures forall j, k :: 0 <= j < k < |Scan(t, at, i)| ==> Scan(t, at, i)[j].end <= Scan(t, at, i)[k].start
    decreases |t| - i
  {
    if i < |t| {
      match at(i)
      case Some(m) =>
        ScanSound(t, at, m.end);
        var rest := Scan(t, at, m.end);
        assert Scan(t, at, i) == [m] + rest;
      case None =>
        ScanSound(t, at, i + 1);
    }
  }

  /** All matches of one shape in `t`, left to right. */
  function Matches(t: string, shape: Shape): seq<Match>
  {
    Scan(t, MatcherOf(t, shape), 0)
  }

  /** First index `k >= j` where `*` `/` occurs. */
  function CloseFrom(t: string, j: nat): (r: Option<nat>)
    ensures r.Some? ==> j <= r.value && At(t, r.value, "*/")
    decreases |t| - j
  {
    if j + 2 > |t| then None
    else if At(t, j, "*/") then Some(j)
    else CloseFrom(t, j + 1)
  }

  /** The comment blocks `/\*.*?\*\/` (DOTALL) from `i`, as half-open index ranges. */
  function Blocks(t: string, i: nat): (bs: seq<(nat, nat)>)
    decreases |t| - i
  {
    if i + 2 > |t| then []
    else if At(t, i, "/*") then
      match CloseFrom(t, i + 2)
      case Some(k) => [(i, k + 2)] + Blocks(t, k + 2)
      case None => Blocks(t, i + 1)
    else Blocks(t, i + 1)
  }

  /** Number of newlines in `s`. */
  function Newlines(s: string): nat
  {
    if s == [] then 0 else Newlines(s[..|s| - 1]) + (if s[|s| - 1] == '\n' then 1 else 0)
  }

  // ----- Facts about the matcher -----

  /** The lazy group stops at the first end `E` where the tail matches, if no '\n' comes first. */
  lemma {:induction false} LazyFromStops(t: string, e: nat, E: nat, tail: nat -> Option<nat>)
    requires 1 <= e <= E <= |t|
    requires forall y :: e - 1 <= y < E ==> t[y] != '\n'
    requires forall y: nat :: e <= y < E ==> tail(y).None?
    requires tail(E).Some?
    ensures LazyFrom(t, e, tail) == Some((E, tail(E).value))
    decreases E - e
  {
    if e < E {
      LazyFromStops(t, e + 1, E, tail);
    }
  }

  /** The lazy group never holds a '\n'. */
  lemma {:induction false} LazyFromOneLine(t: string, e: nat, tail: nat -> Option<nat>)
    requires e >= 1
    ensures LazyFrom(t, e, tail).Some? ==> forall y :: e - 1 <= y < LazyFrom(t, e, tail).value.0 ==> t[y] != '\n'
    decreases |t| + 1 - e
  {
    if e <= |t| && t[e - 1] != '\n' && tail(e).None? {
      LazyFromOneLine(t, e + 1, tail);
    }
  }

  /** From `url(` to the end of the tail, the parts of an active-shape match hold no '\n'. */
  lemma {:induction false} PartsOneLine(t: string, k: nat, a: nat, b: nat, c: nat)
    requires At(t, k, "url(")
    requires PathAfterParen(t, k + 4, Active) == Some((a, b, c))
    ensures forall y :: k <= y < c ==> t[y] != '\n'
  {
    AtChars(t, k, "url(");
    PathOneLine(t, k + 4, a, b, c);
    TailOneLine(t, b, c);
  }

  /** The optional quote and the path group of the active shape hold no '\n'. */
  lemma {:induction false} PathOneLine(t: string, p: nat, a: nat, b: nat, c: nat)
    requires PathAfterParen(t, p, Active) == Some((a, b, c))
    ensures forall y :: p <= y < b ==> t[y] != '\n'
  {
    if p < |t| && IsQuote(t[p]) {
      LazyFromOneLine(t, p + 2, TailOf(t, Active));
    } else {
      LazyFromOneLine(t, p + 1, TailOf(t, Active));
    }
  }

  /** The active-shape tail `['"]?\);` holds no '\n'. */
  lemma {:induction false} TailOneLine(t: string, e: nat, c: nat)
    requires e <= |t| && TailAt(t, e, Active) == Some(c)
    ensures forall y :: e <= y < c ==> t[y] != '\n'
  {
    if e < |t| && IsQuote(t[e]) && At(t, e + 1, ");") {
      assert t[e + 1..e + 3] == ");";
      assert t[e + 1] == ')' && t[e + 2] == ';';
    } else {
      assert t[e..e + 2] == ");";
      assert t[e] == ')' && t[e + 1] == ';';
    }
  }

  /** The scan from `i` stops at `x` when no earlier match reaches past `x`. */
  lemma {:induction false} ScanReaches(t: string, at: nat -> Option<Match>, i: nat, x: nat)
    requires i <= x < |t| && Matcher(t, at)
    requires forall y: nat :: i <= y < x && at(y).Some? ==> at(y).value.end <= x
    requires at(x).Some?
    ensures at(x).value in Scan(t, at, i)
    decreases x - i
  {
    if i < x {
      match at(i)
      case Some(m) =>
        if m.end < |t| && m.end <= x {
          ScanReaches(t, at, m.end, x);
        }
      case None =>
        ScanReaches(t, at, i + 1, x);
    }
  }

  /** The directive `add_import` writes for `path`. */
  function Directive(path: string): (d: string)
    ensures |d| == |path| + 16
  {
    "@import url(\"" + path + "\");"
  }

  /** A path the active regex reads back whole: non-empty, no quote, no ')' and no '\n'. */
  predicate PlainPath(path: string)
  {
    path != [] && forall k :: 0 <= k < |path| ==> path[k] != '"' && path[k] != '\'' && path[k] != ')' && path[k] != '\n'
  }

  /** A written directive for a plain path is matched whole, with the path as its group. */
  lemma {:induction false} DirectiveMatch(t: string, x: nat, path: string)
    requires PlainPath(path) && At(t, x, Directive(path))
    ensures MatchAt(t, x, Active) == Some(Match(x, x, x + 8, x + 13, x + 13 + |path|, x + 16 + |path|))
  {
    DirectiveKeyword(t, x, path);
    DirectiveGroup(t, x, path);
    QuotedGroup(t, x + 12, Active, (x + 13 + |path|, x + 16 + |path|));
    ActiveFromParts(t, x, x + 8, x + 13, x + 13 + |path|, x + 16 + |path|);
  }

  /** After an opening quote, a lazy group that finds its tail is the path group. */
  lemma {:induction false} QuotedGroup(t: string, p: nat, shape: Shape, g: (nat, nat))
    requires p < |t| && IsQuote(t[p]) && LazyFrom(t, p + 2, TailOf(t, shape)) == Some(g)
    ensures PathAfterParen(t, p, shape) == Some((p + 1, g.0, g.1))
  {
  }

  /** An active-shape match assembled from `@import\s+url\(` and the path group after it. */
  lemma {:induction false} ActiveFromParts(t: string, i: nat, k: nat, a: nat, b: nat, c: nat)
    requires UrlAt(t, i) == Some(k) && PathAfterParen(t, k + 4, Active) == Some((a, b, c))
    ensures MatchAt(t, i, Active) == Some(Match(i, i, k, a, b, c))
  {
    assert KeywordStart(t, i, Active) == Some(i);
    MatchAtSome(t, i, Active, i, k, a, b, c);
  }

  /** A match is put together from its keyword, its `url(` and its path and tail. */
  lemma {:induction false} MatchAtSome(t: string, i: nat, shape: Shape, j: nat, k: nat, a: nat, b: nat, c: nat)
    requires KeywordStart(t, i, shape) == Some(j) && UrlAt(t, j) == Some(k) && PathAfterParen(t, k + 4, shape) == Some((a, b, c))
    ensures MatchAt(t, i, shape) == Some(Match(i, j, k, a, b, c))
  {
    var url, path := (y: nat) => UrlAt(t, y), (p: nat) => PathAfterParen(t, p, shape);
    assert MatchAt(t, i, shape) == MatchWith(i, Some(j), url, path);
    MatchWithSome(i, j, k, (a, b, c), url, path);
  }

  lemma {:induction false} MatchWithSome(i: nat, j: nat, k: nat, g: (nat, nat, nat), url: nat -> Option<nat>, path: nat -> Option<(nat, nat, nat)>)
    requires url(j) == Some(k) && path(k + 4) == Some(g)
    ensures MatchWith(i, Some(j), url, path) == Some(Match(i, j, k, g.0, g.1, g.2))
  {
  }

  /** The three pieces of a written directive: up to the opening quote, the path, and the closing. */
  lemma {:induction false} DirectiveParts(t: string, x: nat, path: string)
    requires At(t, x, Directive(path))
    ensures At(t, x, "@import url(\"") && At(t, x + 13, path) && At(t, x + 13 + |path|, "\");")
  {
    assert Directive(path) == ("@import url(\"" + path) + "\");";
    AtConcat(t, x, "@import url(\"" + path, "\");");
    AtConcat(t, x, "@import url(\"", path);
  }

  lemma {:induction false} DirectiveKeyword(t: string, x: nat, path: string)
    requires At(t, x, Directive(path))
    ensures UrlAt(t, x) == Some(x + 8) && x + 12 < |t| && t[x + 12] == '"'
  {
    DirectiveParts(t, x, path);
    assert "@import url(\"" == "@import" + (" " + ("url(" + "\""));
    AtConcat(t, x, "@import", " " + ("url(" + "\""));
    AtConcat(t, x + 7, " ", "url(" + "\"");
    AtConcat(t, x + 8, "url(", "\"");
    AtChar(t, x + 7, " ", 0);
    AtChar(t, x + 8, "url(", 0);
    AtChar(t, x + 12, "\"", 0);
    assert SkipLeft(t, x + 8) == x + 8;
    assert SkipLeft(t, x + 7) == x + 8;
  }

  lemma {:induction false} DirectiveGroup(t: string, x: nat, path: string)
    requires PlainPath(path) && At(t, x, Directive(path))
    ensures LazyFrom(t, x + 14, TailOf(t, Active)) == Some((x + 13 + |path|, x + 16 + |path|))
  {
    DirectiveParts(t, x, path);
    var e := x + 13 + |path|;
    forall y | x + 13 <= y < e ensures t[y] == path[y - x - 13] {
      AtChar(t, x + 13, path, y - x - 13);
    }
    ClosingTail(t, e);
    forall y: nat | x + 14 <= y < e ensures TailAt(t, y, Active).None? {
      NoTailAt(t, y);
    }
    LazyFromStops(t, x + 14, e, TailOf(t, Active));
  }

  /** The closing `");` of a directive is the active-shape tail. */
  lemma {:induction false} ClosingTail(t: string, e: nat)
    requires At(t, e, "\");")
    ensures TailAt(t, e, Active) == Some(e + 3)
  {
    assert "\");" == "\"" + ");";
    AtConcat(t, e, "\"", ");");
    AtChar(t, e, "\"", 0);
  }

  /** No tail starts at a character that is neither a quote nor ')'. */
  lemma {:induction false} NoTailAt(t: string, y: nat)
    requires y < |t| && !IsQuote(t[y]) && t[y] != ')'
    ensures TailAt(t, y, Active).None?
  {
    AtChar(t, y, ");", 0);
  }

  /** No active-shape match begun before a line that starts with '@' runs into that line. */
  lemma {:induction false} NoActiveAcross(t: string, x: nat)
    requires 1 <= x < |t| && t[x - 1] == '\n' && t[x] == '@'
    ensures forall y: nat :: y < x && MatchAt(t, y, Active).Some? ==> MatchAt(t, y, Active).value.end < x
  {
    forall y: nat | y < x && MatchAt(t, y, Active).Some? ensures MatchAt(t, y, Active).value.end < x {
      var m := MatchAt(t, y, Active).value;
      MatchParts(t, y, Active, m);
      PartsOneLine(t, m.open, m.pathStart, m.pathEnd, m.end);
      NoAtBeforeUrl(t, y, m.open, x);
    }
  }

  /** Between `@import` and `url(` there is no '@' but the keyword's own. */
  lemma {:induction false} NoAtBeforeUrl(t: string, y: nat, k: nat, x: nat)
    requires At(t, y, "@import") && UrlAt(t, y) == Some(k)
    requires y < x < |t| && t[x] == '@'
    ensures k < x
  {
    AtChar(t, y, "@import", x - y);
    AtChar(t, k, "url(", 0);
  }

  // ----- The exact-path pattern of `toggle_import` and `remove_import` -----
  //   (/\*\s*)?@import\s+url\(["']NP["']\);(\s*\*/)?   with NP the escaped, literal path

  /** One match of the exact-path pattern: `t[start..end]`, and whether group 1 (`/\*\s*`) took part. */
  datatype Hit = Hit(start: nat, end: nat, commented: bool)

  /** The pattern after group 1, from `j`: the end of the match, with the optional `\s*\*\/` taken when it is there. */
  function ExactRest(t: string, np: string, j: nat): (r: Option<nat>)
    ensures r.Some? ==> j + 16 + |np| <= r.value <= |t|
  {
    match UrlAt(t, j)
    case None => None
    case Some(k) =>
      var q := k + 5 + |np|;
      if k + 4 < |t| && IsQuote(t[k + 4]) && At(t, k + 5, np) && q < |t| && IsQuote(t[q]) && At(t, q + 1, ");") then
        match CloseAfter(t, q + 3)
        case Some(e) => Some(e)
        case None => Some(q + 3)
      else None
  }

  /** The exact-path pattern at exactly `i`: group 1 is tried first, then the pattern without it. */
  function ExactAt(t: string, np: string, i: nat): (r: Option<Hit>)
    ensures r.Some? ==> r.value.start == i && i < r.value.end <= |t|
  {
    var withComment := if At(t, i, "/*") then ExactRest(t, np, SkipLeft(t, i + 2)) else None;
    match withComment
    case Some(e) => Some(Hit(i, e, true))
    case None =>
      match ExactRest(t, np, i)
      case Some(e) => Some(Hit(i, e, false))
      case None => None
  }

  /** `hit` finds exact-path matches on `t`: a match found at `y` starts at `y` and ends inside `t` after it. */
  ghost predicate HitFinder(t: string, hit: nat -> Option<Hit>)
  {
    forall y: nat :: hit(y).Some? ==> hit(y).value.start == y && y < hit(y).value.end <= |t|
  }

  /** `hit` is the exact-path pattern for `np`, wherever that pattern is looked at. */
  ghost predicate Finds(t: string, np: string, hit: nat -> Option<Hit>)
  {
    forall y: nat {:trigger ExactAt(t, np, y)} :: hit(y) == ExactAt(t, np, y)
  }

  /** The exact-path pattern for `np`, as a finder. */
  function HitsOf(t: string, np: string): (hit: nat -> Option<Hit>)
    ensures HitFinder(t, hit) && Finds(t, np, hit)
  {
    (y: nat) => ExactAt(t, np, y)
  }

  /** `finditer` from `i` with the finder `hit`. */
  function ExactScan(t: string, hit: nat -> Option<Hit>, i: nat): (hs: seq<Hit>)
    requires HitFinder(t, hit)
    ensures forall k :: 0 <= k < |hs| ==> i <= hs[k].start < hs[k].end <= |t|
    ensures forall j, k :: 0 <= j < k < |hs| ==> hs[j].end <= hs[k].start
    decreases |t| - i
  {
    if i >= |t| then []
    else
      match hit(i)
      case Some(h) => [h] + ExactScan(t, hit, h.end)
      case None => ExactScan(t, hit, i + 1)
  }

  /** No exact-path match can begin where there is neither '@' nor the opening of a comment. */
  lemma {:induction false} ExactAtNeedsStart(t: string, np: string, i: nat)
    requires i >= |t| || (t[i] != '@' && !At(t, i, "/*"))
    ensures ExactAt(t, np, i).None?
  {
  }
}
