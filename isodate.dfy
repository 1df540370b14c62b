// Naive `datetime` values with `isoformat()` and `fromisoformat()`, which the mod
// registry uses to write and read a bundle's installation date.
module IsoDate {
  import opened Common
  import opened Strings

  datatype DateTime = DateTime(year: int, month: int, day: int,
                               hour: int, minute: int, second: int, microsecond: int)

  predicate IsLeap(y: int)
  {
    y % 4 == 0 && (y % 100 != 0 || y % 400 == 0)
  }

  function DaysIn(y: int, m: int): int
  {
    if m == 2 then (if IsLeap(y) then 29 else 28)
    else if m == 4 || m == 6 || m == 9 || m == 11 then 30
    else 31
  }

  /** The values the `datetime` constructor accepts. */
  predicate Valid(d: DateTime)
  {
    1 <= d.year <= 9999 && 1 <= d.month <= 12 && 1 <= d.day <= DaysIn(d.year, d.month)
    && 0 <= d.hour < 24 && 0 <= d.minute < 60 && 0 <= d.second < 60
    && 0 <= d.microsecond < 1000000
  }

  function Pow10(w: nat): (p: nat)
    ensures p >= 1
  {
    if w == 0 then 1 else 10 * Pow10(w - 1)
  }

  /** `n` written with exactly `w` decimal digits, zero-padded on the left (`%0wd`). */
  function Pad(n: nat, w: nat): (s: string)
    ensures |s| == w
  {
    if w == 0 then [] else Pad(n / 10, w - 1) + [Digit(n % 10)]
  }

  predicate IsDigit(c: char)
  {
    '0' <= c <= '9'
  }

  /** The value of the `w` decimal digits `s[i..i + w]`. */
  function DigitsAt(s: string, i: nat, w: nat): (n: nat)
    requires i + w <= |s|
    requires forall k :: i <= k < i + w ==> IsDigit(s[k])
    ensures n < Pow10(w)
  {
    if w == 0 then 0
    else
      assert IsDigit(s[i + w - 1]);
      DigitsAt(s, i, w - 1) * 10 + (s[i + w - 1] as int - '0' as int)
  }

  /** Reading back the `w` characters `Pad(n, w)` placed at `i` gives `n`. */
  lemma {:induction false} PadValue(s: string, i: nat, n: nat, w: nat)
    requires n < Pow10(w) && i + w <= |s|
    requires forall k :: 0 <= k < w ==> s[i + k] == Pad(n, w)[k]
    ensures forall k :: i <= k < i + w ==> IsDigit(s[k])
    ensures DigitsAt(s, i, w) == n
  {
    if w > 0 {
      var p, q := Pad(n, w), Pad(n / 10, w - 1);
      assert p == q + [Digit(n % 10)];
      forall k | 0 <= k < w - 1 ensures s[i + k] == q[k] {
        assert p[k] == q[k];
      }
      PadValue(s, i, n / 10, w - 1);
      assert s[i + w - 1] == p[w - 1] == Digit(n % 10);
      assert forall k :: k == i + w - 1 ==> s[k] == Digit(n % 10);
    }
  }

  /** `d.isoformat()`: `YYYY-MM-DDTHH:MM:SS`, then `.ffffff` when the microsecond is not 0. */
  function IsoFormat(d: DateTime): (s: string)
    requires Valid(d)
    ensures |s| == (if d.microsecond == 0 then 19 else 26)
  {
    DatePart(d) + "T" + TimePart(d) + FracPart(d)
  }

  function DatePart(d: DateTime): (s: string)
    requires Valid(d)
    ensures |s| == 10
  {
    Pad(d.year, 4) + "-" + Pad(d.month, 2) + "-" + Pad(d.day, 2)
  }

  function TimePart(d: DateTime): (s: string)
    requires Valid(d)
    ensures |s| == 8
  {
    Pad(d.hour, 2) + ":" + Pad(d.minute, 2) + ":" + Pad(d.second, 2)
  }

  function FracPart(d: DateTime): (s: string)
    requires Valid(d)
    ensures |s| == (if d.microsecond == 0 then 0 else 7)
  {
    if d.microsecond == 0 then "" else "." + Pad(d.microsecond, 6)
  }

  /** The decimal field `s[i..i + w]`, if it is all digits. */
  function Field(s: string, i: nat, w: nat): (r: Option<nat>)
    ensures r.Some? ==> r.value < Pow10(w)
  {
    if i + w <= |s| && (forall k :: i <= k < i + w ==> IsDigit(s[k])) then Some(DigitsAt(s, i, w)) else None
  }

  function Checked(d: DateTime): (r: Option<DateTime>)
    ensures r.Some? <==> Valid(d)
    ensures r.Some? ==> r.value == d
  {
    if Valid(d) then Some(d) else None
  }

  /**
   * `datetime.fromisoformat(s)` for the forms `isoformat` writes: a date `YYYY-MM-DD`, optionally
   * followed by one separator character and `HH:MM:SS`, optionally followed by `.ffffff`.
   * `None` stands for the `ValueError` the call raises otherwise.
   */
  function FromIsoFormat(s: string): (r: Option<DateTime>)
    ensures r.Some? ==> Valid(r.value)
  {
    var y, mo, d := Field(s, 0, 4), Field(s, 5, 2), Field(s, 8, 2);
    if |s| < 10 || s[4] != '-' || s[7] != '-' || y.None? || mo.None? || d.None? then None
    else if |s| == 10 then Checked(DateTime(y.value, mo.value, d.value, 0, 0, 0, 0))
    else
      var h, mi, se := Field(s, 11, 2), Field(s, 14, 2), Field(s, 17, 2);
      if |s| < 19 || s[13] != ':' || s[16] != ':' || h.None? || mi.None? || se.None? then None
      else if |s| == 19 then Checked(DateTime(y.value, mo.value, d.value, h.value, mi.value, se.value, 0))
      else
        var us := Field(s, 20, 6);
        if |s| == 26 && s[19] == '.' && us.Some? then
          Checked(DateTime(y.value, mo.value, d.value, h.value, mi.value, se.value, us.value))
        else None
  }

  /** Three zero-padded fields joined by `sep` (a date `YYYY-MM-DD` or a time `HH:MM:SS`) placed at `off`. */
  lemma {:induction false} ThreeFields(s: string, off: nat, wa: nat, va: nat, vb: nat, vc: nat, sep: char)
    requires va < Pow10(wa) && vb < 100 && vc < 100
    requires off + wa + 6 <= |s|
    requires s[off..off + wa + 6] == Pad(va, wa) + [sep] + Pad(vb, 2) + [sep] + Pad(vc, 2)
    ensures Field(s, off, wa) == Some(va) && s[off + wa] == sep
    ensures Field(s, off + wa + 1, 2) == Some(vb) && s[off + wa + 3] == sep
    ensures Field(s, off + wa + 4, 2) == Some(vc)
  {
    assert Pow10(2) == 100;
    SliceParts(s, off, Pad(va, wa), sep, Pad(vb, 2), sep, Pad(vc, 2));
    FieldOfPad(s, off, va, wa);
    FieldOfPad(s, off + wa + 1, vb, 2);
    FieldOfPad(s, off + wa + 4, vc, 2);
  }

  /** The pieces of `a + [x] + b + [y] + c` found where it sits in `s`. */
  lemma {:induction false} SliceParts<T>(s: seq<T>, off: nat, a: seq<T>, x: T, b: seq<T>, y: T, c: seq<T>)
    requires off + |a| + |b| + |c| + 2 <= |s|
    requires s[off..off + |a| + |b| + |c| + 2] == a + [x] + b + [y] + c
    ensures s[off..off + |a|] == a && s[off + |a|] == x
    ensures s[off + |a| + 1..off + |a| + 1 + |b|] == b && s[off + |a| + 1 + |b|] == y
    ensures s[off + |a| + 2 + |b|..off + |a| + |b| + |c| + 2] == c
  {
    var u := a + [x] + b + [y] + c;
    var n := |u|;
    forall k | 0 <= k < n ensures s[off + k] == u[k] {
      assert s[off..off + n][k] == s[off + k];
    }
    Piece(s, off, u, 0, a);
    Piece(s, off, u, |a| + 1, b);
    Piece(s, off, u, |a| + 2 + |b|, c);
    assert u[|a|] == x && u[|a| + 1 + |b|] == y;
  }

  /** A run `p` of `u` at `lo`, where `u` itself sits in `s` at `off`. */
  lemma {:induction false} Piece<T>(s: seq<T>, off: nat, u: seq<T>, lo: nat, p: seq<T>)
    requires off + |u| <= |s| && lo + |p| <= |u|
    requires forall k :: 0 <= k < |u| ==> s[off + k] == u[k]
    requires u[lo..lo + |p|] == p
    ensures s[off + lo..off + lo + |p|] == p
  {
    forall k | 0 <= k < |p| ensures s[off + lo..off + lo + |p|][k] == p[k] {
      assert u[lo..lo + |p|][k] == u[lo + k];
    }
  }

  /** A zero-padded field read back where it was written. */
  lemma {:induction false} FieldOfPad(s: string, i: nat, n: nat, w: nat)
    requires n < Pow10(w) && i + w <= |s|
    requires s[i..i + w] == Pad(n, w)
    ensures Field(s, i, w) == Some(n)
  {
    forall k | 0 <= k < w ensures s[i + k] == Pad(n, w)[k] {
      assert s[i..i + w][k] == s[i + k];
    }
    PadValue(s, i, n, w);
  }

  /** The character-level layout `isoformat` produces, field by field. */
  predicate IsoLayout(s: string, d: DateTime)
  {
    |s| >= 19 && s[4] == '-' && s[7] == '-' && s[13] == ':' && s[16] == ':'
    && Field(s, 0, 4) == Some(d.year) && Field(s, 5, 2) == Some(d.month) && Field(s, 8, 2) == Some(d.day)
    && Field(s, 11, 2) == Some(d.hour) && Field(s, 14, 2) == Some(d.minute) && Field(s, 17, 2) == Some(d.second)
    && (if d.microsecond == 0 then |s| == 19
        else |s| == 26 && s[19] == '.' && Field(s, 20, 6) == Some(d.microsecond))
  }

  lemma {:induction false} IsoFormatLayout(d: DateTime)
    requires Valid(d)
    ensures IsoLayout(IsoFormat(d), d)
  {
    var s := IsoFormat(d);
    IsoPieces(d, s);
    assert Pow10(4) == 10000;
    ThreeFields(s, 0, 4, d.year, d.month, d.day, '-');
    ThreeFields(s, 11, 2, d.hour, d.minute, d.second, ':');
    if d.microsecond != 0 {
      FracField(d, s);
    }
  }

  /** Where the date, the 'T', the time and the fraction sit in `isoformat`'s text. */
  lemma {:induction false} IsoPieces(d: DateTime, s: string)
    requires Valid(d) && s == IsoFormat(d)
    ensures |s| >= 19 && s[0..10] == DatePart(d) && s[11..19] == TimePart(d) && s[19..] == FracPart(d)
  {
    var date, time, frac := DatePart(d), TimePart(d), FracPart(d);
    SplitAround(s, date, 'T', time + frac);
    var rest := s[11..];
    SplitConcat(rest, time, frac);
    assert s[0..10] == date;
    assert s[11..19] == rest[..8] && s[19..] == rest[8..];
  }

  /** The microsecond field after the '.'. */
  lemma {:induction false} FracField(d: DateTime, s: string)
    requires Valid(d) && d.microsecond != 0
    requires |s| == 26 && s[19..] == FracPart(d)
    ensures s[19] == '.' && Field(s, 20, 6) == Some(d.microsecond)
  {
    var frac := FracPart(d);
    assert frac == "." + Pad(d.microsecond, 6);
    assert s[19] == frac[0];
    assert s[20..26] == frac[1..];
    assert Pow10(6) == 1000000;
    FieldOfPad(s, 20, d.microsecond, 6);
  }

  lemma {:induction false} SplitConcat<T>(s: seq<T>, a: seq<T>, b: seq<T>)
    requires s == a + b
    ensures s[..|a|] == a && s[|a|..] == b
  {
  }

  /** The two sides of `x` in `a + [x] + b`. */
  lemma {:induction false} SplitAround<T>(s: seq<T>, a: seq<T>, x: T, b: seq<T>)
    requires s == a + [x] + b
    ensures s[..|a|] == a && s[|a|] == x && s[|a| + 1..] == b
  {
  }

  /** Writing a valid date with `isoformat` and reading it back with `fromisoformat` gives it back. */
  lemma {:induction false} IsoRoundTrip(d: DateTime)
    requires Valid(d)
    ensures FromIsoFormat(IsoFormat(d)) == Some(d)
  {
    IsoFormatLayout(d);
  }
}
