// The slice of Python's `str` behaviour the program relies on: whitespace,
// stripping, ASCII lower-casing, find/rfind with out-of-range bounds, split and join.
module Strings {

  /** `str.isspace()` for one character (also the `\s` class of `re` on str patterns). */
  predicate IsSpace(c: char)
  {
    var n := c as int;
    n == 32 || 9 <= n <= 13 || 28 <= n <= 31 || n == 0x85 || n == 0xA0 || n == 0x1680
    || 0x2000 <= n <= 0x200A || n == 0x2028 || n == 0x2029 || n == 0x202F || n == 0x205F || n == 0x3000
  }

  /** Lower-cases ASCII letters and leaves every other character alone. */
  function LowerChar(c: char): char
  {
    if 'A' <= c <= 'Z' then (c as int + 32) as char else c
  }

  function Lower(s: string): (r: string)
    ensures |r| == |s|
    ensures forall i :: 0 <= i < |s| ==> r[i] == LowerChar(s[i])
    ensures forall i :: 0 <= i < |r| ==> !('A' <= r[i] <= 'Z')
  {
    seq(|s|, i requires 0 <= i < |s| => LowerChar(s[i]))
  }

  /** Lower-casing twice is lower-casing once. */
  lemma {:induction false} LowerTwice(s: string)
    ensures Lower(Lower(s)) == Lower(s)
  {
    var l := Lower(s);
    forall i | 0 <= i < |l| ensures Lower(l)[i] == l[i] {
      assert !('A' <= l[i] <= 'Z');
    }
  }

  predicate StartsWith(s: string, prefix: string)
  {
    |prefix| <= |s| && s[..|prefix|] == prefix
  }

  predicate EndsWith(s: string, suffix: string)
  {
    |suffix| <= |s| && s[|s| - |suffix|..] == suffix
  }

  /** `w` occurs in `s` at index `i`. */
  predicate At(s: string, i: nat, w: string)
  {
    i + |w| <= |s| && s[i..i + |w|] == w
  }

  /** The characters of a word found at `i`. */
  lemma {:induction false} AtChar(s: string, i: nat, w: string, k: nat)
    ensures At(s, i, w) && k < |w| ==> s[i + k] == w[k]
  {
    if At(s, i, w) && k < |w| {
      assert s[i..i + |w|][k] == s[i + k];
    }
  }

  /** Every character of a word found at `i`. */
  lemma {:induction false} AtChars(s: string, i: nat, w: string)
    ensures At(s, i, w) ==> forall y :: i <= y < i + |w| ==> s[y] == w[y - i]
  {
    if At(s, i, w) {
      forall y | i <= y < i + |w| ensures s[y] == w[y - i] {
        AtChar(s, i, w, y - i);
      }
    }
  }

  /** Two words side by side at `i` are their concatenation at `i`. */
  lemma {:induction false} AtConcat(s: string, i: nat, a: string, b: string)
    ensures At(s, i, a + b) <==> At(s, i, a) && At(s, i + |a|, b)
  {
    if At(s, i, a + b) {
      assert s[i..i + |a|] == (a + b)[..|a|];
      assert s[i + |a|..i + |a| + |b|] == (a + b)[|a|..];
    }
    if At(s, i, a) && At(s, i + |a|, b) {
      assert s[i..i + |a| + |b|] == s[i..i + |a|] + s[i + |a|..i + |a| + |b|];
    }
  }

  /** `sub in s`. */
  predicate Contains(s: string, sub: string)
  {
    exists i | 0 <= i <= |s| :: At(s, i, sub)
  }

  predicate HasChar(s: string, c: char)
  {
    exists i | 0 <= i < |s| :: s[i] == c
  }

  /** `s.find(sub, from)`: the first index at or after `from` where `sub` occurs, or -1. */
  function FindSub(s: string, sub: string, from: nat): (r: int)
    ensures r == -1 || (from <= r && At(s, r, sub))
    ensures forall i :: from <= i <= |s| && (r == -1 || i < r) ==> !At(s, i, sub)
    decreases |s| - from
  {
    if from + |sub| > |s| then -1
    else if At(s, from, sub) then from
    else FindSub(s, sub, from + 1)
  }

  /** `s.find(c, start)` for a one-character needle: -1 when `start` lies beyond the end. */
  function FindChar(s: string, c: char, start: int): (r: int)
    requires start >= 0
    ensures r == -1 || (start <= r < |s| && s[r] == c)
    ensures forall i :: start <= i < |s| && (r == -1 || i < r) ==> s[i] != c
    decreases |s| - start
  {
    if start >= |s| then -1
    else if s[start] == c then start
    else FindChar(s, c, start + 1)
  }

  /** `s.rfind(c, 0, end)`: the last index below `end` (clamped to `|s|`) holding `c`, or -1. */
  function RFindChar(s: string, c: char, end: int): (r: int)
    ensures r == -1 || (0 <= r < end && r < |s| && s[r] == c)
    ensures forall i :: 0 <= i < |s| && i < end && r < i ==> s[i] != c
    decreases if end < 0 then 0 else end
  {
    if end <= 0 then -1
    else if end > |s| then RFindChar(s, c, |s|)
    else if s[end - 1] == c then end - 1
    else RFindChar(s, c, end - 1)
  }

  /** `s[:n]` and `s[n:]` for `n >= 0`: Python clamps an index past the end. */
  function Take(s: string, n: nat): (r: string)
    ensures r == if n <= |s| then s[..n] else s
  {
    if n <= |s| then s[..n] else s
  }

  function Drop(s: string, n: nat): (r: string)
    ensures r == if n <= |s| then s[n..] else []
  {
    if n <= |s| then s[n..] else []
  }

  /** `s.replace(a, b)` for one-character arguments. */
  function ReplaceChar(s: string, a: char, b: char): (r: string)
    ensures |r| == |s|
    ensures forall i :: 0 <= i < |s| ==> r[i] == (if s[i] == a then b else s[i])
  {
    seq(|s|, i requires 0 <= i < |s| => if s[i] == a then b else s[i])
  }

  /** Index of the first non-space character at or after `i`. */
  function SkipLeft(s: string, i: nat): (k: nat)
    requires i <= |s|
    ensures i <= k <= |s|
    ensures forall j :: i <= j < k ==> IsSpace(s[j])
    ensures k == |s| || !IsSpace(s[k])
    decreases |s| - i
  {
    if i < |s| && IsSpace(s[i]) then SkipLeft(s, i + 1) else i
  }

  /** One past the last non-space character at or before `j - 1`, not going below `lo`. */
  function SkipRight(s: string, lo: nat, j: nat): (k: nat)
    requires lo <= j <= |s|
    ensures lo <= k <= j
    ensures forall x :: k <= x < j ==> IsSpace(s[x])
    ensures k == lo || !IsSpace(s[k - 1])
    decreases j
  {
    if j > lo && IsSpace(s[j - 1]) then SkipRight(s, lo, j - 1) else j
  }

  /** `s.strip()`: drops leading and trailing whitespace. */
  function Strip(s: string): string
  {
    s[SkipLeft(s, 0)..SkipRight(s, SkipLeft(s, 0), |s|)]
  }

  /** What `strip` keeps: a run of `s` with no space at either end and only spaces around it. */
  lemma {:induction false} StripShape(s: string)
    ensures var r := Strip(s);
            (r == [] || (!IsSpace(r[0]) && !IsSpace(r[|r| - 1])))
            && exists a :: (0 <= a <= |s| && At(s, a, r)
                            && (forall x :: 0 <= x < a ==> IsSpace(s[x]))
                            && (forall x :: a + |r| <= x < |s| ==> IsSpace(s[x])))
  {
    var a := SkipLeft(s, 0);
    var b := SkipRight(s, a, |s|);
    assert At(s, a, s[a..b]);
  }

  /** A character `s` lacks, its stripped form lacks too. */
  lemma {:induction false} StripNoChar(s: string, c: char)
    requires !HasChar(s, c)
    ensures !HasChar(Strip(s), c)
  {
    var a := SkipLeft(s, 0);
    var b := SkipRight(s, a, |s|);
    var r := s[a..b];
    forall k | 0 <= k < |r| ensures r[k] != c {
      assert r[k] == s[a + k];
    }
  }

  /** A character `t` lacks, every slice of `t` lacks too. */
  lemma {:induction false} SliceNoChar(t: string, a: nat, b: nat, c: char)
    requires a <= b <= |t| && !HasChar(t, c)
    ensures !HasChar(t[a..b], c)
  {
    var r := t[a..b];
    forall k | 0 <= k < |r| ensures r[k] != c {
      assert r[k] == t[a + k];
    }
  }

  lemma {:induction false} StripNoSpaces(s: string)
    requires s == [] || (!IsSpace(s[0]) && !IsSpace(s[|s| - 1]))
    ensures Strip(s) == s
  {
    var a := SkipLeft(s, 0);
    assert a == 0;
    var b := SkipRight(s, a, |s|);
    assert b == |s|;
  }

  /** `s.split(sep)` for a one-character separator: never empty, and "" gives [""]. */
  function Split(s: string, sep: char): (parts: seq<string>)
    ensures |parts| >= 1
    ensures forall k :: 0 <= k < |parts| ==> !HasChar(parts[k], sep)
    decreases |s|
  {
    var i := FindChar(s, sep, 0);
    if i < 0 then [s] else [s[..i]] + Split(s[i + 1..], sep)
  }

  /** `sep.join(parts)`. */
  function Join(parts: seq<string>, sep: string): (r: string)
    decreases |parts|
  {
    if |parts| == 0 then ""
    else if |parts| == 1 then parts[0]
    else parts[0] + sep + Join(parts[1..], sep)
  }

  lemma {:induction false} JoinSplit(s: string, sep: char)
    ensures Join(Split(s, sep), [sep]) == s
    decreases |s|
  {
    var i := FindChar(s, sep, 0);
    if i >= 0 {
      JoinSplit(s[i + 1..], sep);
      JoinSplitAt(s, sep, i);
    }
  }

  lemma {:induction false} JoinSplitAt(s: string, sep: char, i: nat)
    requires i < |s| && FindChar(s, sep, 0) == i
    requires Join(Split(s[i + 1..], sep), [sep]) == s[i + 1..]
    ensures Join(Split(s, sep), [sep]) == s
  {
    var head := s[..i];
    var rest := s[i + 1..];
    SplitAt(s, sep, i);
    JoinCons(head, Split(rest, sep), [sep]);
    assert s == head + [sep] + rest;
  }

  lemma {:induction false} SplitAt(s: string, sep: char, i: nat)
    requires i < |s| && FindChar(s, sep, 0) == i
    ensures Split(s, sep) == [s[..i]] + Split(s[i + 1..], sep)
  {
  }

  lemma {:induction false} JoinCons(head: string, tail: seq<string>, sep: string)
    requires |tail| >= 1
    ensures Join([head] + tail, sep) == head + sep + Join(tail, sep)
  {
    var ps := [head] + tail;
    assert ps[0] == head && ps[1..] == tail;
  }

  /** `c.join(parts).split(c)` gives the parts back when none of them holds `c`. */
  lemma {:induction false} SplitJoin(parts: seq<string>, c: char)
    requires |parts| >= 1 && forall k :: 0 <= k < |parts| ==> !HasChar(parts[k], c)
    ensures Split(Join(parts, [c]), c) == parts
    decreases |parts|
  {
    if |parts| == 1 {
      assert Join(parts, [c]) == parts[0];
      assert FindChar(parts[0], c, 0) == -1;
    } else {
      var tail := parts[1..];
      var rest := Join(tail, [c]);
      SplitJoin(tail, c);
      JoinCons(parts[0], tail, [c]);
      assert [parts[0]] + tail == parts;
      SplitAfterFirst(parts[0], c, rest);
      assert parts == [parts[0]] + tail;
    }
  }

  /** Splitting `a + [c] + b` where `a` lacks `c` yields `a` and then the parts of `b`. */
  lemma {:induction false} SplitAfterFirst(a: string, c: char, b: string)
    requires !HasChar(a, c)
    ensures Split(a + [c] + b, c) == [a] + Split(b, c)
  {
    var s := a + [c] + b;
    var i := FindChar(s, c, 0);
    assert s[|a|] == c;
    forall k | 0 <= k < |a| ensures s[k] != c {
      assert s[k] == a[k];
    }
    assert i == |a|;
    assert s[..i] == a && s[i + 1..] == b;
  }

  /** A `sep`-join of parts that lack `c` lacks `c`, when `sep` is not `c`. */
  lemma {:induction false} JoinNoChar(parts: seq<string>, sep: char, c: char)
    requires sep != c && forall k :: 0 <= k < |parts| ==> !HasChar(parts[k], c)
    ensures !HasChar(Join(parts, [sep]), c)
    decreases |parts|
  {
    if |parts| > 1 {
      var tail := parts[1..];
      JoinNoChar(tail, sep, c);
      var r := Join(parts, [sep]);
      var rest := Join(tail, [sep]);
      assert r == parts[0] + [sep] + rest;
      forall k | 0 <= k < |r| ensures r[k] != c {
        if k < |parts[0]| {
          assert r[k] == parts[0][k];
        } else if k > |parts[0]| {
          assert r[k] == rest[k - |parts[0]| - 1];
        }
      }
    }
  }

  /** A word inside the middle piece is inside the whole. */
  lemma {:induction false} ContainsWithin(a: string, b: string, c: string, sub: string)
    requires Contains(b, sub)
    ensures Contains(a + b + c, sub)
  {
    var i :| 0 <= i <= |b| && At(b, i, sub);
    var s := a + b + c;
    assert s[|a| + i..|a| + i + |sub|] == b[i..i + |sub|];
    assert At(s, |a| + i, sub);
  }

  /** `parts[-1]`. */
  function Last(parts: seq<string>): string
    requires |parts| >= 1
  {
    parts[|parts| - 1]
  }

  /** Whatever precedes a separator, the last part is the last part of what follows it. */
  lemma {:induction false} SplitLastAfter(x: string, c: char, y: string)
    ensures Last(Split(x + [c] + y, c)) == Last(Split(y, c))
    decreases |x|
  {
    var s := x + [c] + y;
    var i := FindChar(s, c, 0);
    assert s[|x|] == c;
    if i < |x| {
      var rest := s[i + 1..];
      assert rest == x[i + 1..] + [c] + y;
      SplitAt(s, c, i);
      SplitLastAfter(x[i + 1..], c, y);
      assert Last(Split(s, c)) == Last(Split(rest, c));
    } else {
      forall k | 0 <= k < |x| ensures x[k] != c {
        assert s[k] == x[k];
      }
      SplitAfterFirst(x, c, y);
    }
  }

  /** The decimal digits of `n`, as `str(n)` writes them. */
  function NatToString(n: nat): (r: string)
    ensures |r| >= 1
    ensures forall k :: 0 <= k < |r| ==> '0' <= r[k] <= '9'
    decreases n
  {
    if n < 10 then [Digit(n)] else NatToString(n / 10) + [Digit(n % 10)]
  }

  function Digit(d: nat): (c: char)
    requires d < 10
    ensures '0' <= c <= '9'
  {
    ('0' as int + d) as char
  }

  /** `str(i)` for any integer. */
  function IntToString(i: int): string
  {
    if i < 0 then "-" + NatToString(-i) else NatToString(i)
  }
}
