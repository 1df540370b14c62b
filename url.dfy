// `urllib.parse.urlparse` for the URLs the program handles: the clean-up `urlsplit` does
// first (leading C0 controls and spaces stripped, tab, carriage return and line feed
// deleted), then scheme, network location, path, parameters, query and fragment, with the
// `ValueError` for unbalanced brackets.
module Url {
  import opened Common
  import opened Strings

  datatype ParsedUrl = ParsedUrl(scheme: string, netloc: string, path: string,
                                 params: string, query: string, fragment: string)

  predicate AsciiLetter(c: char)
  {
    'a' <= c <= 'z' || 'A' <= c <= 'Z'
  }

  /** `scheme_chars`: letters, digits, '+', '-' and '.'. */
  predicate SchemeChar(c: char)
  {
    AsciiLetter(c) || '0' <= c <= '9' || c == '+' || c == '-' || c == '.'
  }

  /** The schemes for which `urlparse` splits `;params` off the path. */
  predicate UsesParams(scheme: string)
  {
    scheme in ["", "ftp", "hdl", "prospero", "http", "imap", "https", "shttp", "rtsp", "rtspu",
               "sip", "sips", "mms", "sftp", "tel"]
  }

  /** The index where a scheme ends with ':', when the text before it is a scheme. */
  function SchemeEnd(url: string): (r: Option<nat>)
    ensures r.Some? ==> 0 < r.value < |url| && url[r.value] == ':' && AsciiLetter(url[0])
    ensures r.Some? ==> forall k :: 0 <= k < r.value ==> SchemeChar(url[k])
  {
    var i := FindChar(url, ':', 0);
    if i > 0 && AsciiLetter(url[0]) && (forall k :: 0 <= k < i ==> SchemeChar(url[k])) then Some(i) else None
  }

  /** `_splitnetloc(url, 2)`: the network location runs to the first '/', '?' or '#'. */
  function NetlocEnd(url: string, start: nat): (e: nat)
    requires start <= |url|
    ensures start <= e <= |url|
    ensures forall k :: start <= k < e ==> url[k] != '/' && url[k] != '?' && url[k] != '#'
    ensures e == |url| || url[e] == '/' || url[e] == '?' || url[e] == '#'
    decreases |url| - start
  {
    if start == |url| || url[start] == '/' || url[start] == '?' || url[start] == '#' then start
    else NetlocEnd(url, start + 1)
  }

  /** `s.split(c, 1)` when `c in s`, else `(s, "")`: the text before and after the first `c`. */
  function SplitFirst(s: string, c: char): (r: (string, string))
    ensures !HasChar(r.0, c) && |r.0| <= |s| && r.0 == s[..|r.0|]
    ensures HasChar(s, c) ==> s == r.0 + [c] + r.1
    ensures !HasChar(s, c) ==> r == (s, "")
  {
    var i := FindChar(s, c, 0);
    if i < 0 then (s, "")
    else
      assert s == s[..i] + [c] + s[i + 1..];
      (s[..i], s[i + 1..])
  }

  /** `_splitparams`: the parameters start at the first ';' of the last path segment. */
  function SplitParams(url: string): (r: (string, string))
    ensures |r.0| <= |url| && r.0 == url[..|r.0|]
  {
    var i := if HasChar(url, '/') then FindChar(url, ';', RFindChar(url, '/', |url|) + 1) else FindChar(url, ';', 0);
    if i < 0 then (url, "") else (url[..i], url[i + 1..])
  }

  /** The scheme (lower-cased) and what follows its ':', or no scheme and the whole text. */
  function SplitScheme(url: string): (r: (string, string))
  {
    match SchemeEnd(url)
    case Some(i) => (Lower(url[..i]), url[i + 1..])
    case None => ("", url)
  }

  /** The network location after a leading "//", and the text after it. */
  function SplitNetloc(rest: string): (r: (string, string))
    ensures !HasChar(r.0, '/') && !HasChar(r.0, '?') && !HasChar(r.0, '#')
  {
    if StartsWith(rest, "//") then
      var e := NetlocEnd(rest, 2);
      var netloc := rest[2..e];
      forall k | 0 <= k < |netloc| ensures netloc[k] != '/' && netloc[k] != '?' && netloc[k] != '#' {
        assert netloc[k] == rest[k + 2];
      }
      (netloc, rest[e..])
    else ("", rest)
  }

  /** The path, parameters, query and fragment of what follows the network location. */
  function SplitPath(scheme: string, after: string): (r: (string, string, string, string))
    ensures !HasChar(r.0, '?') && !HasChar(r.0, '#')
  {
    var (beforeFragment, fragment) := SplitFirst(after, '#');
    var (beforeQuery, query) := SplitFirst(beforeFragment, '?');
    SliceNoChar(beforeFragment, 0, |beforeQuery|, '#');
    if UsesParams(scheme) && HasChar(beforeQuery, ';') then
      var (path, params) := SplitParams(beforeQuery);
      (path, params, query, fragment)
    else (beforeQuery, "", query, fragment)
  }

  // ----- the clean-up before splitting -----

  /** The characters `urlsplit` strips from the front of a URL: the C0 controls and space. */
  predicate C0OrSpace(c: char)
  {
    c <= ' '
  }

  /** The characters `urlsplit` deletes wherever they occur: tab, carriage return and line feed. */
  predicate Unsafe(c: char)
  {
    c == '\t' || c == '\r' || c == '\n'
  }

  predicate Safe(s: string)
  {
    !HasChar(s, '\t') && !HasChar(s, '\r') && !HasChar(s, '\n')
  }

  /** `url.lstrip(_WHATWG_C0_CONTROL_OR_SPACE)`. */
  function LStripC0(url: string): (r: string)
    ensures |r| <= |url| && r == url[|url| - |r|..]
    ensures r == [] || !C0OrSpace(r[0])
    ensures forall k :: 0 <= k < |url| - |r| ==> C0OrSpace(url[k])
    decreases |url|
  {
    if url != [] && C0OrSpace(url[0]) then LStripC0(url[1..]) else url
  }

  /** `url.replace(b, "")` for each of tab, carriage return and line feed. */
  function DropUnsafe(s: string): (r: string)
    ensures Safe(r)
    ensures s != [] && !Unsafe(s[0]) ==> r != [] && r[0] == s[0]
    decreases |s|
  {
    if s == [] then []
    else
      var tail := DropUnsafe(s[1..]);
      var r := if Unsafe(s[0]) then tail else [s[0]] + tail;
      assert forall k | 0 < k < |[s[0]] + tail| :: ([s[0]] + tail)[k] == tail[k - 1];
      r
  }

  /** The text `urlsplit` goes on to split. */
  function Stripped(url: string): (r: string)
    ensures Safe(r)
    ensures r == [] || !C0OrSpace(r[0])
  {
    DropUnsafe(LStripC0(url))
  }

  /** Deleting tabs and line breaks commutes with concatenation. */
  lemma {:induction false} DropUnsafeAppend(a: string, b: string)
    ensures DropUnsafe(a + b) == DropUnsafe(a) + DropUnsafe(b)
    decreases |a|
  {
    if a != [] {
      assert (a + b)[1..] == a[1..] + b;
      DropUnsafeAppend(a[1..], b);
    } else {
      assert a + b == b;
    }
  }

  /** A text without tabs and line breaks is left as it is. */
  lemma {:induction false} DropUnsafeSafe(s: string)
    requires Safe(s)
    ensures DropUnsafe(s) == s
    decreases |s|
  {
    if s != [] {
      assert s[0] == s[0];
      SliceSafe(s);
      DropUnsafeSafe(s[1..]);
      assert s == [s[0]] + s[1..];
    }
  }

  lemma {:induction false} SliceSafe(s: string)
    requires s != [] && Safe(s)
    ensures Safe(s[1..]) && !Unsafe(s[0])
  {
    SliceNoChar(s, 1, |s|, '\t');
    SliceNoChar(s, 1, |s|, '\r');
    SliceNoChar(s, 1, |s|, '\n');
  }

  /** Whatever the clean-up keeps was in the URL. */
  lemma {:induction false} DropUnsafeKeeps(s: string, c: char)
    ensures HasChar(DropUnsafe(s), c) ==> HasChar(s, c)
    decreases |s|
  {
    if HasChar(DropUnsafe(s), c) {
      DropUnsafeFound(s, c);
    }
  }

  lemma {:induction false} DropUnsafeFound(s: string, c: char)
    requires HasChar(DropUnsafe(s), c)
    ensures HasChar(s, c)
    decreases |s|
  {
    var tail := DropUnsafe(s[1..]);
    var i :| 0 <= i < |DropUnsafe(s)| && DropUnsafe(s)[i] == c;
    if !Unsafe(s[0]) && i == 0 {
      assert s[0] == c;
    } else {
      var j := if Unsafe(s[0]) then i else i - 1;
      assert tail[j] == c;
      DropUnsafeFound(s[1..], c);
      var m :| 0 <= m < |s[1..]| && s[1..][m] == c;
      assert s[m + 1] == c;
    }
  }

  lemma {:induction false} StrippedKeeps(url: string, c: char)
    requires HasChar(Stripped(url), c)
    ensures HasChar(url, c)
  {
    var t := LStripC0(url);
    DropUnsafeFound(t, c);
    var i :| 0 <= i < |t| && t[i] == c;
    assert url[|url| - |t| + i] == c;
  }

  /** Cleaning up a cleaned-up URL changes nothing. */
  lemma {:induction false} StrippedTwice(url: string)
    ensures Stripped(Stripped(url)) == Stripped(url)
  {
    var r := Stripped(url);
    assert LStripC0(r) == r;
    DropUnsafeSafe(r);
  }

  /** A character that is stripped from the front does not change the parse. */
  lemma {:induction false} LeadingIgnored(c: char, url: string)
    requires C0OrSpace(c)
    ensures Stripped([c] + url) == Stripped(url)
    ensures UrlParse([c] + url) == UrlParse(url)
  {
    assert ([c] + url)[1..] == url;
  }

  /** Parsing the cleaned-up text gives what parsing the URL gives. */
  lemma {:induction false} ParseStripped(url: string)
    ensures UrlParse(Stripped(url)) == UrlParse(url)
  {
    StrippedTwice(url);
  }

  /** Tabs and line breaks anywhere after the first character are ignored. */
  lemma {:induction false} UnsafeIgnored(a: string, c: char, b: string)
    requires a != [] && !C0OrSpace(a[0]) && Unsafe(c)
    ensures Stripped(a + [c] + b) == Stripped(a + b)
    ensures UrlParse(a + [c] + b) == UrlParse(a + b)
  {
    var u := a + ([c] + b);
    assert u == a + [c] + b;
    assert u[0] == a[0] && (a + b)[0] == a[0];
    assert LStripC0(u) == u;
    assert LStripC0(a + b) == a + b;
    assert ([c] + b)[1..] == b;
    assert DropUnsafe([c] + b) == DropUnsafe(b);
    DropUnsafeAppend(a, [c] + b);
    DropUnsafeAppend(a, b);
    assert Stripped(u) == Stripped(a + b);
  }

  // ----- splitting -----

  /** `urlparse(url)`; `Err` is the `ValueError` for a network location with only one bracket. */
  function UrlParse(url: string): (r: Result<ParsedUrl>)
    ensures r.Ok? ==> !HasChar(r.value.netloc, '/') && !HasChar(r.value.netloc, '?') && !HasChar(r.value.netloc, '#')
    ensures r.Ok? ==> !HasChar(r.value.path, '?') && !HasChar(r.value.path, '#')
    ensures r.Err? <==> HasChar(SplitNetloc(SplitScheme(Stripped(url)).1).0, '[')
                        != HasChar(SplitNetloc(SplitScheme(Stripped(url)).1).0, ']')
    ensures r.Err? ==> r.error.kind == ValidationError
  {
    var (scheme, rest) := SplitScheme(Stripped(url));
    var (netloc, after) := SplitNetloc(rest);
    if HasChar(netloc, '[') != HasChar(netloc, ']') then Fail(ValidationError, "Invalid IPv6 URL")
    else
      var (path, params, query, fragment) := SplitPath(scheme, after);
      Ok(ParsedUrl(scheme, netloc, path, params, query, fragment))
  }

  /** A host name as written in the program's URLs: no separators, brackets, tabs or line breaks. */
  predicate PlainHost(h: string)
  {
    h != "" && Safe(h) && !HasChar(h, '/') && !HasChar(h, '?') && !HasChar(h, '#') && !HasChar(h, '[') && !HasChar(h, ']')
  }

  /** A path that `urlparse` leaves whole: rooted, with no '?', '#', ';', tab or line break. */
  predicate PlainPath(p: string)
  {
    (p == [] || p[0] == '/') && Safe(p) && !HasChar(p, '?') && !HasChar(p, '#') && !HasChar(p, ';')
  }

  /** `urlparse` takes `scheme://host/path` back apart into the pieces it was made of. */
  lemma {:induction false} ParseComposed(scheme: string, host: string, path: string)
    requires scheme in ["http", "https"] && PlainHost(host) && PlainPath(path)
    ensures UrlParse(scheme + "://" + host + path) == Ok(ParsedUrl(scheme, host, path, "", "", ""))
  {
    var url := scheme + "://" + host + path;
    var rest := "//" + host + path;
    assert url == scheme + ":" + rest;
    ComposedClean(scheme, host, path);
    SchemeOf(scheme, rest);
    NetlocOf(host, path);
    PathOf(scheme, path);
  }

  /** Whatever follows a plain host from a '/' on, the parse finds the scheme and the host. */
  lemma {:induction false} ParseOnHost(scheme: string, host: string, tail: string)
    requires scheme in ["http", "https"] && PlainHost(host) && (tail == [] || tail[0] == '/')
    ensures UrlParse(scheme + "://" + host + tail).Ok?
    ensures UrlParse(scheme + "://" + host + tail).value.scheme == scheme
    ensures UrlParse(scheme + "://" + host + tail).value.netloc == host
  {
    var kept := DropUnsafe(tail);
    HostClean(scheme, host, tail);
    var rest := "//" + host + kept;
    assert scheme + "://" + host + kept == scheme + ":" + rest;
    SchemeOf(scheme, rest);
    NetlocOf(host, kept);
  }

  /** The same with a query string after the path; tabs and line breaks in the query are dropped. */
  lemma {:induction false} ParseComposedQuery(scheme: string, host: string, path: string, query: string)
    requires scheme in ["http", "https"] && PlainHost(host) && PlainPath(path) && !HasChar(query, '#')
    ensures UrlParse(scheme + "://" + host + (path + "?" + query))
            == Ok(ParsedUrl(scheme, host, path, "", DropUnsafe(query), ""))
  {
    var q := DropUnsafe(query);
    DropUnsafeKeeps(query, '#');
    var after := path + "?" + q;
    var rest := "//" + host + after;
    assert scheme + "://" + host + after == scheme + ":" + rest;
    HostClean(scheme, host, path + "?" + query);
    SafeAppend(path, "?");
    DropUnsafeAppend(path + "?", query);
    DropUnsafeSafe(path + "?");
    SchemeOf(scheme, rest);
    NetlocOf(host, after);
    QueryOf(scheme, path, q);
  }

  /** The clean-up leaves a URL built from an http(s) scheme, a plain host and a tail without tabs or line breaks. */
  lemma {:induction false} ComposedClean(scheme: string, host: string, tail: string)
    requires scheme in ["http", "https"] && PlainHost(host) && Safe(tail)
    ensures Stripped(scheme + "://" + host + tail) == scheme + "://" + host + tail
  {
    var url := scheme + "://" + host + tail;
    SafeAppend(scheme, "://");
    SafeAppend(scheme + "://", host);
    SafeAppend(scheme + "://" + host, tail);
    assert url[0] == scheme[0];
    assert LStripC0(url) == url;
    DropUnsafeSafe(url);
  }

  /** Only the tail of such a URL is touched by the clean-up. */
  lemma {:induction false} HostClean(scheme: string, host: string, tail: string)
    requires scheme in ["http", "https"] && PlainHost(host)
    ensures Stripped(scheme + "://" + host + tail) == scheme + "://" + host + DropUnsafe(tail)
  {
    var front := scheme + "://" + host;
    SafeAppend(scheme, "://");
    SafeAppend(scheme + "://", host);
    assert (front + tail)[0] == scheme[0];
    assert LStripC0(front + tail) == front + tail;
    DropUnsafeAppend(front, tail);
    DropUnsafeSafe(front);
  }

  /** A parse that finds a scheme found a ':' in the URL. */
  lemma {:induction false} SchemeFound(url: string)
    requires UrlParse(url).Ok? && UrlParse(url).value.scheme != ""
    ensures HasChar(url, ':')
  {
    var u := Stripped(url);
    assert SchemeEnd(u).Some?;
    assert u[SchemeEnd(u).value] == ':';
    StrippedKeeps(url, ':');
  }

  lemma {:induction false} SafeAppend(a: string, b: string)
    requires Safe(a) && Safe(b)
    ensures Safe(a + b)
  {
    forall k | 0 <= k < |a + b| ensures !Unsafe((a + b)[k]) {
      if k < |a| {
        assert (a + b)[k] == a[k];
      } else {
        assert (a + b)[k] == b[k - |a|];
      }
    }
  }

  /** A plain path followed by a query without '#' splits into the two. */
  lemma {:induction false} QueryOf(scheme: string, path: string, query: string)
    requires PlainPath(path) && !HasChar(query, '#')
    ensures SplitPath(scheme, path + "?" + query) == (path, "", query, "")
  {
    var after := path + "?" + query;
    forall k | 0 <= k < |after| ensures after[k] != '#' {
      if k < |path| {
        assert after[k] == path[k];
      } else if k > |path| {
        assert after[k] == query[k - |path| - 1];
      }
    }
    assert SplitFirst(after, '#') == (after, "");
    assert after == path + ['?'] + query;
    SplitFirstAt(path, '?', query);
  }

  /** `s.split(c, 1)` of `a + [c] + b` where `a` lacks `c`. */
  lemma {:induction false} SplitFirstAt(a: string, c: char, b: string)
    requires !HasChar(a, c)
    ensures SplitFirst(a + [c] + b, c) == (a, b)
  {
    var s := a + [c] + b;
    assert s[|a|] == c;
    forall k | 0 <= k < |a| ensures s[k] != c {
      assert s[k] == a[k];
    }
    assert FindChar(s, c, 0) == |a|;
    assert s[..|a|] == a && s[|a| + 1..] == b;
  }

  lemma {:induction false} SchemeOf(scheme: string, rest: string)
    requires scheme in ["http", "https"]
    ensures SplitScheme(scheme + ":" + rest) == (scheme, rest)
  {
    var url := scheme + ":" + rest;
    var n := |scheme|;
    assert url[n] == ':' && url[..n] == scheme && url[n + 1..] == rest;
    forall k | 0 <= k < n ensures url[k] != ':' && SchemeChar(url[k]) {
      assert url[k] == scheme[k];
    }
    assert FindChar(url, ':', 0) == n;
    assert SchemeEnd(url) == Some(n);
    assert Lower(scheme) == scheme;
  }

  lemma {:induction false} NetlocOf(host: string, path: string)
    requires PlainHost(host) && (path == [] || path[0] == '/' || path[0] == '?' || path[0] == '#')
    ensures SplitNetloc("//" + host + path) == (host, path)
  {
    var rest := "//" + host + path;
    assert StartsWith(rest, "//");
    var e := 2 + |host|;
    forall k | 2 <= k < e ensures rest[k] != '/' && rest[k] != '?' && rest[k] != '#' {
      assert rest[k] == host[k - 2];
    }
    assert e == |rest| || rest[e] == path[0];
    NetlocEndAt(rest, 2, e);
    assert rest[2..e] == host && rest[e..] == path;
  }

  lemma {:induction false} PathOf(scheme: string, path: string)
    requires PlainPath(path)
    ensures SplitPath(scheme, path) == (path, "", "", "")
  {
    assert SplitFirst(path, '#') == (path, "");
    assert SplitFirst(path, '?') == (path, "");
  }

  lemma {:induction false} NetlocEndAt(url: string, start: nat, e: nat)
    requires start <= e <= |url|
    requires forall k :: start <= k < e ==> url[k] != '/' && url[k] != '?' && url[k] != '#'
    requires e == |url| || url[e] == '/' || url[e] == '?' || url[e] == '#'
    ensures NetlocEnd(url, start) == e
    decreases e - start
  {
    if start < e {
      NetlocEndAt(url, start + 1, e);
    }
  }
}
