// POSIX `os.path`: the separator is '/'.
module Paths {
  import opened Strings

  /** `os.path.basename`: everything after the last '/'. */
  function Basename(p: string): (r: string)
    ensures !HasChar(r, '/')
    ensures EndsWith(p, r)
  {
    var i := RFindChar(p, '/', |p|) + 1;
    assert p[i..] == p[|p| - |p[i..]|..];
    p[i..]
  }

  /** The base name of `dir/name` is `name`. */
  lemma {:induction false} BasenameOf(dir: string, name: string)
    requires !HasChar(name, '/')
    ensures Basename(dir + "/" + name) == name
  {
    var p := dir + "/" + name;
    assert p[|dir|] == '/';
    forall k | |dir| < k < |p| ensures p[k] != '/' {
      assert p[k] == name[k - |dir| - 1];
    }
    assert RFindChar(p, '/', |p|) == |dir|;
    assert p[|dir| + 1..] == name;
  }

  function AllSlashes(s: string): bool
  {
    forall k :: 0 <= k < |s| ==> s[k] == '/'
  }

  /** `os.path.dirname`: the head up to the last '/', with trailing slashes removed unless it is all slashes. */
  function Dirname(p: string): (r: string)
    ensures StartsWith(p, r)
    ensures r == [] <==> !HasChar(p, '/')
    ensures r == [] || r[|r| - 1] != '/' || AllSlashes(r)
    ensures forall k :: |r| <= k < |p| && p[k] == '/' ==> AllSlashes(p[|r|..k + 1])
  {
    var i := RFindChar(p, '/', |p|) + 1;
    var head := p[..i];
    if head != [] && !AllSlashes(head) then
      var r := RStripSlashes(head);
      assert r != [] by {
        var j :| 0 <= j < |head| && head[j] != '/';
      }
      forall k | |r| <= k < |p| && p[k] == '/'
        ensures AllSlashes(p[|r|..k + 1])
      {
        assert k < i;
        assert forall x :: |r| <= x <= k ==> p[x] == head[x];
      }
      r
    else
      assert head == [] ==> !HasChar(p, '/');
      head
  }

  /** `s.rstrip('/')`. */
  function RStripSlashes(s: string): (r: string)
    ensures StartsWith(s, r)
    ensures r == [] || r[|r| - 1] != '/'
    ensures forall k :: |r| <= k < |s| ==> s[k] == '/'
    decreases |s|
  {
    if s != [] && s[|s| - 1] == '/' then RStripSlashes(s[..|s| - 1]) else s
  }

  /** `os.path.join(a, b)`. */
  function PathJoin(a: string, b: string): (r: string)
    ensures EndsWith(r, b)
  {
    if StartsWith(b, "/") then b
    else if a == [] || a[|a| - 1] == '/' then a + b
    else a + "/" + b
  }

  /** `os.path.normpath`: drops empty and "." components and folds ".." into its parent. */
  function NormPath(p: string): string
  {
    if p == [] then "."
    else
      var slashes := LeadingSlashes(p);
      Rooted(slashes, Join(NormComps(Split(p, '/'), [], slashes > 0), "/"))
  }

  /** The leading slashes `normpath` keeps: two exactly when there are two, else one or none. */
  function LeadingSlashes(p: string): nat
  {
    if StartsWith(p, "//") && !StartsWith(p, "///") then 2
    else if StartsWith(p, "/") then 1 else 0
  }

  /** The kept slashes before the joined components, or "." when both are empty. */
  function Rooted(slashes: nat, body: string): string
  {
    var r := Repeat('/', slashes) + body;
    if r == [] then "." else r
  }

  function Repeat(c: char, n: nat): (r: string)
    ensures |r| == n
  {
    if n == 0 then [] else [c] + Repeat(c, n - 1)
  }

  /** The component loop of `normpath`, with `acc` the components kept so far. */
  function NormComps(comps: seq<string>, acc: seq<string>, rooted: bool): seq<string>
    decreases |comps|
  {
    if comps == [] then acc
    else
      var c := comps[0];
      var acc' :=
        if c == "" || c == "." then acc
        else if c != ".." || (!rooted && acc == []) || (acc != [] && acc[|acc| - 1] == "..") then acc + [c]
        else if acc != [] then acc[..|acc| - 1]
        else acc;
      NormComps(comps[1..], acc', rooted)
  }

  /** `os.path.splitext(p)[1]`: the last '.'-suffix of the final component, ignoring leading dots. */
  function Extension(p: string): (ext: string)
    ensures ext == [] || (ext[0] == '.' && EndsWith(p, ext) && !HasChar(ext, '/'))
  {
    var sep := RFindChar(p, '/', |p|);
    var dot := RFindChar(p, '.', |p|);
    if dot > sep && !AllDots(p[sep + 1..dot]) then
      SuffixAfterLastSlash(p, sep, dot);
      p[dot..]
    else []
  }

  lemma {:induction false} SuffixAfterLastSlash(p: string, sep: int, dot: nat)
    requires sep == RFindChar(p, '/', |p|) && sep < dot < |p|
    ensures EndsWith(p, p[dot..]) && !HasChar(p[dot..], '/')
  {
    var ext := p[dot..];
    assert p[|p| - |ext|..] == ext;
    forall k | 0 <= k < |ext| ensures ext[k] != '/' {
      assert ext[k] == p[dot + k];
    }
  }

  /** A file name `stem.ext` whose stem is not all dots has the extension ".ext". */
  lemma {:induction false} ExtensionOf(stem: string, ext: string)
    requires !HasChar(stem, '/') && !AllDots(stem)
    requires !HasChar(ext, '.') && !HasChar(ext, '/')
    ensures Extension(stem + "." + ext) == "." + ext
  {
    var p := stem + "." + ext;
    forall k | 0 <= k < |p| ensures p[k] != '/' {
      if k < |stem| {
        assert p[k] == stem[k];
      } else if k > |stem| {
        assert p[k] == ext[k - |stem| - 1];
      }
    }
    assert p[|stem|] == '.';
    forall k | |stem| < k < |p| ensures p[k] != '.' {
      assert p[k] == ext[k - |stem| - 1];
    }
    var dot := RFindChar(p, '.', |p|);
    assert dot == |stem|;
    assert RFindChar(p, '/', |p|) == -1;
    assert p[0..dot] == stem;
    assert p[dot..] == "." + ext;
  }

  /** The extension is taken from the last component only: a dot in a directory name does not count. */
  lemma {:induction false} ExtensionIgnoresDirs(dir: string, name: string)
    requires !HasChar(name, '/') && !HasChar(name, '.')
    ensures Extension(dir + "/" + name) == []
  {
    var p := dir + "/" + name;
    assert p[|dir|] == '/';
    forall k | |dir| < k < |p| ensures p[k] != '/' && p[k] != '.' {
      assert p[k] == name[k - |dir| - 1];
    }
    assert RFindChar(p, '/', |p|) == |dir|;
  }

  function AllDots(s: string): bool
  {
    forall k :: 0 <= k < |s| ==> s[k] == '.'
  }

  /** A plain component: non-empty, without '/', and neither "." nor "..". */
  predicate PlainName(n: string)
  {
    n != [] && n != "." && n != ".." && !HasChar(n, '/')
  }

  /** A relative path of two plain components is already in `normpath` form. */
  lemma {:induction false} NormPathTwo(d: string, n: string)
    requires PlainName(d) && PlainName(n)
    ensures NormPath(d + "/" + n) == d + "/" + n
  {
    var u := d + "/" + n;
    SplitOne(n);
    SplitTwo(d, n);
    assert u[0] == d[0];
    assert NormComps([d, n], [], false) == [d, n] by {
      NormCompsPlain(d, n);
    }
    JoinTwo(d, n);
    NormRelative(u);
  }

  /** A "." between two plain components is dropped. */
  lemma {:induction false} NormPathDot(d: string, n: string)
    requires PlainName(d) && PlainName(n)
    ensures NormPath(d + "/./" + n) == d + "/" + n
  {
    var u := d + "/./" + n;
    SplitDot(d, n);
    NormCompsDot(d, n);
    JoinTwo(d, n);
    assert u[0] == d[0];
    NormRelative(u);
  }

  lemma {:induction false} SplitDot(d: string, n: string)
    requires PlainName(d) && PlainName(n)
    ensures Split(d + "/./" + n, '/') == [d, ".", n]
  {
    SplitOne(n);
    SplitTwo(".", n);
    assert "." + "/" + n == "./" + n;
    SplitTwo(d, "./" + n);
    assert d + "/./" + n == d + "/" + ("./" + n);
  }

  lemma {:induction false} NormCompsDot(d: string, n: string)
    requires PlainName(d) && PlainName(n)
    ensures NormComps([d, ".", n], [], false) == [d, n]
  {
    assert [d, ".", n][1..] == [".", n] && [] + [d] == [d];
    assert [".", n][1..] == [n];
    NormCompsPlain(d, n);
  }

  /** On a relative path, `normpath` joins the kept components (unless none are kept). */
  lemma {:induction false} NormRelative(u: string)
    requires u != [] && u[0] != '/'
    requires Join(NormComps(Split(u, '/'), [], false), "/") != []
    ensures NormPath(u) == Join(NormComps(Split(u, '/'), [], false), "/")
  {
    assert LeadingSlashes(u) == 0 by {
      assert !StartsWith(u, "/");
    }
    var body := Join(NormComps(Split(u, '/'), [], false), "/");
    assert Rooted(0, body) == body by {
      assert Repeat('/', 0) == [];
    }
  }

  /** Two plain components are both kept. */
  lemma {:induction false} NormCompsPlain(d: string, n: string)
    requires PlainName(d) && PlainName(n)
    ensures NormComps([d, n], [], false) == [d, n]
    ensures NormComps([n], [d], false) == [d, n]
  {
    assert NormComps([n], [d], false) == [d, n] by {
      assert [n][1..] == [] && [d] + [n] == [d, n];
    }
    assert NormComps([d, n], [], false) == NormComps([n], [d], false) by {
      assert [d, n][1..] == [n] && [] + [d] == [d];
    }
  }

  lemma {:induction false} JoinTwo(d: string, n: string)
    ensures Join([d, n], "/") == d + "/" + n
  {
    assert [d, n][1..] == [n];
  }

  /** Splitting at the first '/' of `d + "/" + rest` when `d` has none. */
  lemma {:induction false} SplitTwo(d: string, rest: string)
    requires !HasChar(d, '/')
    ensures Split(d + "/" + rest, '/') == [d] + Split(rest, '/')
  {
    var u := d + "/" + rest;
    assert u[|d|] == '/';
    forall k | 0 <= k < |d| ensures u[k] != '/' {
      assert u[k] == d[k];
    }
    assert FindChar(u, '/', 0) == |d|;
    assert u[..|d|] == d && u[|d| + 1..] == rest;
  }

  lemma {:induction false} SplitOne(n: string)
    requires !HasChar(n, '/')
    ensures Split(n, '/') == [n]
  {
    assert FindChar(n, '/', 0) == -1;
  }
}
