/** Character classes and the handful of Python string operations the repository
    relies on (`str.strip`, `str.split`, `str.replace`, `str.isdigit`, slicing,
    `in`), stated over `seq<char>`. */
module Text {
  import opened Wrappers

  /** Python's notion of whitespace: `str.isspace`, the `\s` class of a str
      pattern, and what `str.strip()` and `str.split()` remove. */
  predicate IsSpace(c: char) {
    || ('\t' <= c <= '\r')
    || ('\U{1C}' <= c <= '\U{1F}')
    || c == ' ' || c == '\U{85}' || c == '\U{A0}' || c == '\U{1680}'
    || ('\U{2000}' <= c <= '\U{200A}')
    || c == '\U{2028}' || c == '\U{2029}' || c == '\U{202F}' || c == '\U{205F}' || c == '\U{3000}'
  }

  /** The regex class `\w`, restricted to ASCII. */
  predicate IsWordChar(c: char) {
    ('a' <= c <= 'z') || ('A' <= c <= 'Z') || ('0' <= c <= '9') || c == '_'
  }

  /** `str.isdigit` for one character, restricted to ASCII. */
  predicate IsDigit(c: char) {
    '0' <= c <= '9'
  }

  predicate AllSpace(s: string) {
    forall i :: 0 <= i < |s| ==> IsSpace(s[i])
  }

  predicate AllDigits(s: string) {
    forall i :: 0 <= i < |s| ==> IsDigit(s[i])
  }

  /** Neither end of `s` is whitespace: `s.strip() == s`. */
  predicate IsTrimmed(s: string) {
    |s| == 0 || (!IsSpace(s[0]) && !IsSpace(s[|s| - 1]))
  }

  predicate StartsAt(s: string, i: nat, p: string) {
    i + |p| <= |s| && s[i..i + |p|] == p
  }

  /** `s.startswith(p)` */
  predicate IsPrefix(p: string, s: string) {
    StartsAt(s, 0, p)
  }

  /** Python's `p in s` for strings. */
  predicate Contains(s: string, p: string) {
    exists i :: 0 <= i <= |s| && StartsAt(s, i, p)
  }

  /** An occurrence of `p` inside the slice `s[lo..hi]` is an occurrence in `s`. */
  lemma StartsAtSlice(s: string, lo: nat, hi: nat, j: nat, p: string)
    requires lo <= hi <= |s|
    ensures StartsAt(s[lo..hi], j, p) ==> StartsAt(s, lo + j, p)
  {
    if StartsAt(s[lo..hi], j, p) {
      forall k | 0 <= k < |p|
        ensures s[lo + j..lo + j + |p|][k] == p[k]
      {
        assert s[lo..hi][j..j + |p|][k] == p[k];
      }
    }
  }

  /** An occurrence of `p` that lies within `s[lo..hi]` is one of the slice. */
  lemma StartsAtInSlice(s: string, lo: nat, hi: nat, i: nat, p: string)
    requires lo <= i && i + |p| <= hi <= |s|
    requires StartsAt(s, i, p)
    ensures StartsAt(s[lo..hi], i - lo, p)
  {
    forall k | 0 <= k < |p|
      ensures s[lo..hi][i - lo..i - lo + |p|][k] == p[k]
    {
      assert s[lo..hi][i - lo + k] == s[i + k] == s[i..i + |p|][k];
    }
  }

  /** An occurrence of `p` inside a piece `r` of `s` that starts at `lo` is
      one of `r`. */
  lemma StartsAtInPiece(s: string, lo: nat, r: string, i: nat, p: string)
    requires lo + |r| <= |s| && r == s[lo..lo + |r|]
    requires lo <= i && i + |p| <= lo + |r| && StartsAt(s, i, p)
    ensures StartsAt(r, i - lo, p)
  {
    forall k | 0 <= k < |p|
      ensures r[i - lo..i - lo + |p|][k] == p[k]
    {
      assert r[i - lo + k] == s[i + k] == s[i..i + |p|][k];
    }
  }

  /** The characters of `p` at position `i` of `s`, one by one. */
  lemma StartsAtChars(s: string, i: nat, p: string)
    ensures StartsAt(s, i, p) ==> forall m :: 0 <= m < |p| ==> s[i + m] == p[m]
  {
    if StartsAt(s, i, p) {
      forall m | 0 <= m < |p|
        ensures s[i + m] == p[m]
      {
        assert s[i..i + |p|][m] == p[m];
      }
    }
  }

  /** An occurrence of `u + v` is an occurrence of `u` followed by one of `v`. */
  lemma StartsAtSplit(s: string, i: nat, u: string, v: string)
    requires StartsAt(s, i, u + v)
    ensures StartsAt(s, i, u) && StartsAt(s, i + |u|, v)
  {
    var w := s[i..i + |u| + |v|];
    assert s[i..i + |u|] == w[..|u|] == u;
    assert s[i + |u|..i + |u| + |v|] == w[|u|..] == v;
  }

  /** Every piece of a concatenation occurs where it was put. */
  lemma StartsAtConcat(u: string, v: string, w: string)
    ensures StartsAt(u + v + w, |u|, v)
  {
    assert (u + v + w)[|u|..|u| + |v|] == v;
  }

  /** The first occurrence of `p` at or after `from`. */
  function FindFrom(s: string, p: string, from: nat): (r: Option<nat>)
    decreases |s| - from
    ensures r.Some? ==> from <= r.value && StartsAt(s, r.value, p)
    ensures r.Some? ==> forall j :: from <= j < r.value ==> !StartsAt(s, j, p)
    ensures r.None? ==> forall j :: from <= j ==> !StartsAt(s, j, p)
  {
    if from + |p| > |s| then None
    else if StartsAt(s, from, p) then Some(from)
    else FindFrom(s, p, from + 1)
  }

  lemma FindFromContains(s: string, p: string)
    ensures FindFrom(s, p, 0).Some? <==> Contains(s, p)
  {
    var r := FindFrom(s, p, 0);
    if r.Some? {
      assert StartsAt(s, r.value, p);
    }
  }

  /** `FindFrom` is determined by what it promises. */
  lemma FindFromIs(s: string, p: string, from: nat, v: nat)
    requires from <= v && StartsAt(s, v, p)
    requires forall j :: from <= j < v ==> !StartsAt(s, j, p)
    ensures FindFrom(s, p, from) == Some(v)
  {
  }

  /** The end of the whitespace run that starts at `i`. */
  function SkipSpaces(s: string, i: nat): (j: nat)
    requires i <= |s|
    decreases |s| - i
    ensures i <= j <= |s|
    ensures forall k :: i <= k < j ==> IsSpace(s[k])
    ensures j < |s| ==> !IsSpace(s[j])
  {
    if i == |s| || !IsSpace(s[i]) then i else SkipSpaces(s, i + 1)
  }

  /** `SkipSpaces` is determined by what it promises. */
  lemma SkipSpacesIs(s: string, i: nat, j: nat)
    requires i <= j <= |s|
    requires forall k :: i <= k < j ==> IsSpace(s[k])
    requires j < |s| ==> !IsSpace(s[j])
    ensures SkipSpaces(s, i) == j
  {
  }

  /** The start of the whitespace run that ends `s[lo..hi]`. */
  function BackSpaces(s: string, lo: nat, hi: nat): (k: nat)
    requires lo <= hi <= |s|
    decreases hi - lo
    ensures lo <= k <= hi
    ensures forall m :: k <= m < hi ==> IsSpace(s[m])
    ensures k > lo ==> !IsSpace(s[k - 1])
  {
    if hi == lo || !IsSpace(s[hi - 1]) then hi else BackSpaces(s, lo, hi - 1)
  }

  /** `s.strip()`: the text between the leading and the trailing whitespace. */
  function Strip(s: string): (r: string)
    ensures IsTrimmed(r)
    ensures |r| <= |s|
    ensures r == [] <==> AllSpace(s)
    ensures exists a, b :: 0 <= a <= b <= |s| && r == s[a..b] && AllSpace(s[..a]) && AllSpace(s[b..])
  {
    var a := SkipSpaces(s, 0);
    var b := BackSpaces(s, a, |s|);
    assert AllSpace(s[..a]) && AllSpace(s[b..]);
    s[a..b]
  }

  /** Stripping removes whitespace only: text that has none at either end is
      left as it is. */
  lemma StripTrimmed(s: string)
    requires IsTrimmed(s)
    ensures Strip(s) == s
  {
    if |s| > 0 {
      SkipSpacesIs(s, 0, 0);
    }
  }

  /** When `s` does not start with whitespace, `s.strip()` is a prefix of `s`
      that keeps every character up to the last non-space one. */
  lemma StripKeepsPrefix(s: string, m: nat)
    requires 0 < m <= |s| && !IsSpace(s[0]) && !IsSpace(s[m - 1])
    ensures |Strip(s)| >= m && Strip(s) == s[..|Strip(s)|]
  {
    SkipSpacesIs(s, 0, 0);
  }

  /** An occurrence of a pattern that starts with a non-space character starts
      with a non-space character. */
  lemma StartsAtNonSpace(s: string, i: nat, p: string)
    requires StartsAt(s, i, p) && |p| > 0 && !IsSpace(p[0])
    ensures i < |s| && !IsSpace(s[i])
  {
    assert s[i..i + |p|][0] == s[i];
  }

  /** Stripping keeps every non-space character: the result is at least as
      long as the span from one of them to another. */
  lemma StripCovers(s: string, i: nat, j: nat)
    requires i <= j < |s| && !IsSpace(s[i]) && !IsSpace(s[j])
    ensures |Strip(s)| > j - i
  {
    var x: nat, y: nat :| x <= y <= |s| && Strip(s) == s[x..y] && AllSpace(s[..x]) && AllSpace(s[y..]);
    if x > i {
      assert s[..x][i] == s[i];
    } else if y <= j {
      assert s[y..][j - y] == s[j];
    }
  }

  /** Stripping a piece of `s` that starts and ends (at `m`) with non-space
      characters leaves a longer piece that starts at the same place. */
  lemma StripPiece(s: string, lo: nat, hi: nat, m: nat) returns (r: string)
    requires lo < m <= hi <= |s| && !IsSpace(s[lo]) && !IsSpace(s[m - 1])
    ensures r == Strip(s[lo..hi])
    ensures m <= lo + |r| <= hi && r == s[lo..lo + |r|]
  {
    var x := s[lo..hi];
    assert x[0] == s[lo] && x[m - 1 - lo] == s[m - 1];
    StripKeepsPrefix(x, m - lo);
    r := Strip(x);
    assert x[..|r|] == s[lo..lo + |r|];
  }

  /** `str.lower()` on one character, restricted to ASCII. */
  function LowerChar(c: char): char {
    if 'A' <= c <= 'Z' then (c as int - 'A' as int + 'a' as int) as char else c
  }

  /** `str.lower()`, restricted to ASCII. */
  function Lower(s: string): (r: string)
    ensures |r| == |s|
    ensures forall i :: 0 <= i < |s| ==> r[i] == LowerChar(s[i])
  {
    seq(|s|, i requires 0 <= i < |s| => LowerChar(s[i]))
  }

  /** The first index at or after `i` that holds `c`, or `|s|`. */
  function FindChar(s: string, c: char, i: nat): (j: nat)
    requires i <= |s|
    decreases |s| - i
    ensures i <= j <= |s|
    ensures forall k :: i <= k < j ==> s[k] != c
    ensures j < |s| ==> s[j] == c
  {
    if i == |s| || s[i] == c then i else FindChar(s, c, i + 1)
  }

  /** The last index in `[lo, hi)` that holds `c`. */
  function LastIndexOf(s: string, c: char, lo: nat, hi: nat): (r: Option<nat>)
    requires lo <= hi <= |s|
    decreases hi - lo
    ensures r.Some? ==> lo <= r.value < hi && s[r.value] == c
    ensures r.Some? ==> forall k :: r.value < k < hi ==> s[k] != c
    ensures r.None? ==> forall k :: lo <= k < hi ==> s[k] != c
  {
    if hi == lo then None
    else if s[hi - 1] == c then Some(hi - 1)
    else LastIndexOf(s, c, lo, hi - 1)
  }

  /** `s.split(c)` for a one-character separator: the pieces between the
      occurrences of `c`, of which there is always at least one. */
  function Split(s: string, c: char): (r: seq<string>)
    decreases |s|
    ensures |r| >= 1
    ensures forall i :: 0 <= i < |r| ==> c !in r[i]
  {
    var i := FindChar(s, c, 0);
    if i == |s| then [s] else [s[..i]] + Split(s[i + 1..], c)
  }

  /** `c.join(parts)` for a one-character separator. */
  function JoinOn(parts: seq<string>, c: char): string {
    if |parts| == 0 then ""
    else if |parts| == 1 then parts[0]
    else JoinOn(parts[..|parts| - 1], c) + [c] + parts[|parts| - 1]
  }

  /** Joining a first piece in front of at least one more puts the separator
      between them. */
  lemma {:induction false} JoinOnCons(x: string, parts: seq<string>, c: char)
    requires |parts| > 0
    ensures JoinOn([x] + parts, c) == x + [c] + JoinOn(parts, c)
    decreases |parts|
  {
    var xs := [x] + parts;
    if |parts| == 1 {
      assert xs[..1] == [x];
    } else {
      var n := |parts| - 1;
      assert xs[..|xs| - 1] == [x] + parts[..n];
      JoinOnCons(x, parts[..n], c);
    }
  }

  /** Joining the pieces of `s.split(c)` with `c` gives `s` back. */
  lemma {:induction false} SplitJoin(s: string, c: char)
    ensures JoinOn(Split(s, c), c) == s
    decreases |s|
  {
    var i := FindChar(s, c, 0);
    if i < |s| {
      var rest := s[i + 1..];
      SplitJoin(rest, c);
      JoinOnCons(s[..i], Split(rest, c), c);
      assert s == s[..i] + [c] + rest;
    }
  }

  /** The first piece of `s.split(c)` is what comes before the first `c`. */
  lemma SplitFirst(s: string, c: char)
    ensures Split(s, c)[0] == s[..FindChar(s, c, 0)]
  {
    if FindChar(s, c, 0) == |s| {
      assert s[..|s|] == s;
    }
  }

  /** What follows the last `c` in `s`, or all of `s` when there is none. */
  function AfterLast(s: string, c: char): (r: string)
    ensures c !in r
  {
    match LastIndexOf(s, c, 0, |s|)
    case None => s
    case Some(i) => s[i + 1..]
  }

  /** Text without `c` is all "after the last `c`". */
  lemma AfterLastWhole(s: string, c: char)
    requires c !in s
    ensures AfterLast(s, c) == s
  {
    assert forall k :: 0 <= k < |s| ==> s[k] != c;
  }

  /** Past an occurrence of `c`, the text after the last `c` is the same. */
  lemma AfterLastShift(s: string, c: char, i: nat)
    requires i < |s| && s[i] == c
    ensures AfterLast(s, c) == AfterLast(s[i + 1..], c)
  {
    var rest := s[i + 1..];
    var R := LastIndexOf(rest, c, 0, |rest|);
    if R.None? {
      forall k | i < k < |s| ensures s[k] != c { assert s[k] == rest[k - i - 1]; }
      AfterLastAt(s, c, i);
    } else {
      var j := R.value;
      assert s[i + 1 + j] == rest[j];
      forall k | i + 1 + j < k < |s| ensures s[k] != c { assert s[k] == rest[k - i - 1]; }
      AfterLastAt(s, c, i + 1 + j);
      assert rest[j + 1..] == s[i + 1 + j + 1..];
    }
  }

  /** An occurrence of `c` with none after it is the last one. */
  lemma AfterLastAt(s: string, c: char, p: nat)
    requires p < |s| && s[p] == c
    requires forall k :: p < k < |s| ==> s[k] != c
    ensures AfterLast(s, c) == s[p + 1..]
  {
    var L := LastIndexOf(s, c, 0, |s|);
    assert L.Some? && L.value == p;
  }

  /** The last piece of `s.split(c)` is what follows the last `c`. */
  lemma {:induction false} LastSegment(s: string, c: char)
    decreases |s|
    ensures var parts := Split(s, c); parts[|parts| - 1] == AfterLast(s, c)
  {
    var i := FindChar(s, c, 0);
    if i == |s| {
      assert Split(s, c) == [s];
      assert LastIndexOf(s, c, 0, |s|).None?;
    } else {
      var rest := s[i + 1..];
      var parts, tail := Split(s, c), Split(rest, c);
      assert parts == [s[..i]] + tail;
      assert parts[|parts| - 1] == tail[|tail| - 1];
      LastSegment(rest, c);
      AfterLastShift(s, c, i);
    }
  }

  /** Stripping only removes characters. */
  lemma StripKeepsOut(s: string, c: char)
    requires c !in s
    ensures c !in Strip(s)
  {
    var a := SkipSpaces(s, 0);
    var b := BackSpaces(s, a, |s|);
    assert Strip(s) == s[a..b];
    forall k | 0 <= k < b - a ensures Strip(s)[k] != c { assert Strip(s)[k] == s[a + k]; }
  }

  /** The end of the run of word characters that starts at `i`. */
  function WordEnd(s: string, i: nat): (j: nat)
    requires i <= |s|
    decreases |s| - i
    ensures i <= j <= |s|
    ensures forall k :: i <= k < j ==> IsWordChar(s[k])
    ensures j < |s| ==> !IsWordChar(s[j])
  {
    if i == |s| || !IsWordChar(s[i]) then i else WordEnd(s, i + 1)
  }

  lemma WordEndIs(s: string, i: nat, j: nat)
    requires i <= j <= |s|
    requires forall k :: i <= k < j ==> IsWordChar(s[k])
    requires j < |s| ==> !IsWordChar(s[j])
    ensures WordEnd(s, i) == j
  {
  }

  lemma FindCharIs(s: string, c: char, i: nat, j: nat)
    requires i <= j <= |s|
    requires forall k :: i <= k < j ==> s[k] != c
    requires j < |s| ==> s[j] == c
    ensures FindChar(s, c, i) == j
  {
  }

  /** The end of the run of non-space characters that starts at `i`. */
  function TokenEnd(s: string, i: nat): (j: nat)
    requires i <= |s|
    decreases |s| - i
    ensures i <= j <= |s|
    ensures forall k :: i <= k < j ==> !IsSpace(s[k])
    ensures j < |s| ==> IsSpace(s[j])
  {
    if i == |s| || IsSpace(s[i]) then i else TokenEnd(s, i + 1)
  }

  /** `TokenEnd` is determined by what it promises. */
  lemma TokenEndIs(s: string, i: nat, j: nat)
    requires i <= j <= |s|
    requires forall k :: i <= k < j ==> !IsSpace(s[k])
    requires j < |s| ==> IsSpace(s[j])
    ensures TokenEnd(s, i) == j
  {
  }

  /** `s.split()[0]`, or `None` when `s.split()` is empty. */
  function FirstToken(s: string): (r: Option<string>)
    ensures r.None? <==> AllSpace(s)
    ensures r.Some? ==> |r.value| > 0 && forall k :: 0 <= k < |r.value| ==> !IsSpace(r.value[k])
    ensures r.Some? ==> exists i :: (0 <= i && i + |r.value| <= |s| && AllSpace(s[..i]) && s[i..i + |r.value|] == r.value
                                     && (i + |r.value| == |s| || IsSpace(s[i + |r.value|])))
  {
    var a := SkipSpaces(s, 0);
    if a == |s| then None
    else
      var e := TokenEnd(s, a);
      assert AllSpace(s[..a]);
      Some(s[a..e])
  }

  /** `s.replace(c, with)` for a one-character needle. */
  function ReplaceChar(s: string, c: char, with: string): (r: string)
    ensures c !in with ==> c !in r
    ensures forall d :: d in r ==> d in s || d in with
  {
    if |s| == 0 then []
    else (if s[0] == c then with else [s[0]]) + ReplaceChar(s[1..], c, with)
  }

  /** `s.replace(c, "")`. */
  function RemoveChar(s: string, c: char): (r: string)
    ensures c !in r
  {
    ReplaceChar(s, c, "")
  }

  /** `"".join(filter(str.isdigit, s))`: the digits of `s`, in order. */
  function DigitsOf(s: string): (r: string)
    ensures AllDigits(r)
    ensures |r| <= |s|
  {
    if |s| == 0 then []
    else (if IsDigit(s[0]) then [s[0]] else []) + DigitsOf(s[1..])
  }

  lemma DigitsOfAppend(a: string, b: string)
    ensures DigitsOf(a + b) == DigitsOf(a) + DigitsOf(b)
  {
    if |a| == 0 {
      assert a + b == b;
    } else {
      var head := if IsDigit(a[0]) then [a[0]] else [];
      assert (a + b)[0] == a[0] && (a + b)[1..] == a[1..] + b;
      assert DigitsOf(a + b) == head + DigitsOf(a[1..] + b);
      DigitsOfAppend(a[1..], b);
      assert DigitsOf(a) == head + DigitsOf(a[1..]);
    }
  }

  lemma DigitsOfDigits(s: string)
    requires AllDigits(s)
    ensures DigitsOf(s) == s
  {
    if |s| > 0 {
      DigitsOfDigits(s[1..]);
    }
  }

  function DigitValue(c: char): nat
    requires IsDigit(c)
  {
    c as int - '0' as int
  }

  function DigitChar(d: nat): (c: char)
    requires d < 10
    ensures IsDigit(c) && DigitValue(c) == d
  {
    ('0' as int + d) as char
  }

  /** `int(ds)` for a non-empty string of ASCII digits (leading zeros allowed). */
  function DigitsValue(ds: string): nat
    requires AllDigits(ds)
  {
    if |ds| == 0 then 0
    else DigitsValue(ds[..|ds| - 1]) * 10 + DigitValue(ds[|ds| - 1])
  }

  /** `str(n)` for a natural number. */
  function Decimal(n: nat): (r: string)
    ensures |r| >= 1 && AllDigits(r)
  {
    if n < 10 then [DigitChar(n)] else Decimal(n / 10) + [DigitChar(n % 10)]
  }

  /** `int(str(n)) == n` */
  lemma {:induction false} DecimalRoundTrip(n: nat)
    ensures DigitsValue(Decimal(n)) == n
  {
    if n >= 10 {
      var ds := Decimal(n);
      assert ds[..|ds| - 1] == Decimal(n / 10);
      DecimalRoundTrip(n / 10);
    }
  }

  /** Python's normalisation of one slice bound against a length `n`. */
  function PyBound(n: nat, i: int): (k: nat)
    ensures k <= n
  {
    if i < 0 then (if n + i < 0 then 0 else n + i)
    else if i > n then n
    else i
  }

  /** `s[start:stop]` with Python's clamping and negative indices. */
  function PySlice<T>(s: seq<T>, start: int, stop: int): (r: seq<T>)
    ensures |r| <= |s|
  {
    var a := PyBound(|s|, start);
    var b := PyBound(|s|, stop);
    if a <= b then s[a..b] else []
  }

  /** `s[:n]` */
  function PyPrefix<T>(s: seq<T>, n: int): (r: seq<T>)
    ensures n >= 0 ==> |r| == if n <= |s| then n else |s|
    ensures n < 0 ==> |r| == if |s| + n < 0 then 0 else |s| + n
    ensures |r| <= |s| && r == s[..|r|]
  {
    s[..PyBound(|s|, n)]
  }
}
