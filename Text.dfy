/** The few pieces of Python's `str` behaviour the application relies on:
    `find`/`split` on a separator, `strip()` and `strip(chars)`, `int()` on a
    decimal literal, and the decimal rendering used to state round trips. */
module Text {
  import opened Wrappers

  /** Every character for which Python's `str.isspace()` holds; `str.strip()`
      with no argument and `int()` both remove exactly these. */
  const Whitespace: set<char> := {
    '\t', '\n', '\U{000B}', '\U{000C}', '\r',
    '\U{001C}', '\U{001D}', '\U{001E}', '\U{001F}', ' ',
    '\U{0085}', '\U{00A0}', '\U{1680}',
    '\U{2000}', '\U{2001}', '\U{2002}', '\U{2003}', '\U{2004}', '\U{2005}',
    '\U{2006}', '\U{2007}', '\U{2008}', '\U{2009}', '\U{200A}',
    '\U{2028}', '\U{2029}', '\U{202F}', '\U{205F}', '\U{3000}'
  }

  // ---------------------------------------------------------------------
  // Searching and splitting on a separator

  /** `pat` occurs in `s` starting at index `i`. */
  ghost predicate OccursAt(s: string, pat: string, i: int) {
    0 <= i && i + |pat| <= |s| && s[i..i + |pat|] == pat
  }

  /** The index of the leftmost occurrence of `pat` in `s` (Python's
      `s.find(pat)`, with `None` for -1). */
  function IndexOf(s: string, pat: string): (r: Option<nat>)
    requires pat != []
    ensures r.Some? ==> OccursAt(s, pat, r.value)
    ensures r.Some? ==> forall i :: 0 <= i < r.value ==> !OccursAt(s, pat, i)
    ensures r.None? ==> forall i :: 0 <= i ==> !OccursAt(s, pat, i)
    decreases |s|
  {
    if |s| < |pat| then None
    else if s[..|pat|] == pat then Some(0)
    else
      var rest := IndexOf(s[1..], pat);
      ShiftOccurrences(s, pat);
      match rest
      case None => None
      case Some(k) => Some(k + 1)
  }

  /** Occurrences in `s[1..]` are the occurrences in `s` one place further on. */
  lemma ShiftOccurrences(s: string, pat: string)
    requires s != []
    ensures forall i :: 1 <= i ==> (OccursAt(s, pat, i) <==> OccursAt(s[1..], pat, i - 1))
  {
    forall i | 1 <= i
      ensures OccursAt(s, pat, i) <==> OccursAt(s[1..], pat, i - 1)
    {
      if i + |pat| <= |s| {
        assert s[1..][i - 1..i - 1 + |pat|] == s[i..i + |pat|];
      }
    }
  }

  /** The text before the first `pat`, or all of `s` (Python's `s.split(pat)[0]`).
      `BeforeIsFirstCut` shows that it ends at the leftmost occurrence. */
  function Before(s: string, pat: string): (r: string)
    requires pat != []
    ensures r <= s
  {
    match IndexOf(s, pat)
    case None => s
    case Some(k) => s[..k]
  }

  /** `Before` cuts at the leftmost occurrence: the result holds no `pat`,
      and it is all of `s` or followed by an occurrence. */
  lemma BeforeIsFirstCut(s: string, pat: string)
    requires pat != []
    ensures var r := Before(s, pat);
      && (r == s || OccursAt(s, pat, |r|))
      && forall i :: 0 <= i ==> !OccursAt(r, pat, i)
  {
    match IndexOf(s, pat)
    case None => NoOccurrenceInPrefix(s, pat, |s|);
    case Some(k) => NoOccurrenceInPrefix(s, pat, k);
  }

  /** A prefix that stops before the first occurrence in `s` holds none. */
  lemma NoOccurrenceInPrefix(s: string, pat: string, k: nat)
    requires pat != [] && k <= |s| && forall i :: 0 <= i < k ==> !OccursAt(s, pat, i)
    ensures forall i :: 0 <= i ==> !OccursAt(s[..k], pat, i)
  {
    forall i | 0 <= i && i + |pat| <= k
      ensures !OccursAt(s[..k], pat, i)
    {
      assert i < k && !OccursAt(s, pat, i);
      assert s[..k][i..i + |pat|] == s[i..i + |pat|];
    }
  }

  /** The text after the first `pat`, or `None` when `pat` does not occur. */
  function After(s: string, pat: string): (r: Option<string>)
    requires pat != []
    ensures r.None? <==> forall i :: 0 <= i ==> !OccursAt(s, pat, i)
  {
    match IndexOf(s, pat)
    case None => None
    case Some(k) => Some(s[k + |pat|..])
  }

  /** The leftmost occurrence is the one no earlier occurrence precedes. */
  lemma IndexOfIsFirst(s: string, pat: string, k: nat)
    requires pat != [] && OccursAt(s, pat, k)
    requires forall i :: 0 <= i < k ==> !OccursAt(s, pat, i)
    ensures IndexOf(s, pat) == Some(k)
  {
  }

  /** A prefix holding no copy of the pattern's first character cannot hold
      the start of an occurrence: the search skips straight over it. */
  lemma BeforeSkips(a: string, b: string, pat: string)
    requires pat != [] && pat[0] !in a
    ensures Before(a + b, pat) == a + Before(b, pat)
  {
    NoneInPrefix(a, b, pat);
    OccursShifted(a, b, pat);
    match IndexOf(b, pat)
    case None =>
      assert forall i :: 0 <= i ==> !OccursAt(a + b, pat, i);
    case Some(k) =>
      assert OccursAt(a + b, pat, |a| + k);
      IndexOfIsFirst(a + b, pat, |a| + k);
      assert (a + b)[..|a| + k] == a + b[..k];
  }

  /** No occurrence starts inside a prefix without the pattern's first character. */
  lemma NoneInPrefix(a: string, b: string, pat: string)
    requires pat != [] && pat[0] !in a
    ensures forall i :: 0 <= i < |a| ==> !OccursAt(a + b, pat, i)
  {
    forall i | 0 <= i < |a|
      ensures !OccursAt(a + b, pat, i)
    {
      assert (a + b)[i] == a[i];
    }
  }

  /** Past the prefix `a`, the occurrences in `a + b` are those in `b`. */
  lemma OccursShifted(a: string, b: string, pat: string)
    ensures forall i :: |a| <= i ==> (OccursAt(a + b, pat, i) <==> OccursAt(b, pat, i - |a|))
  {
    forall i | |a| <= i
      ensures OccursAt(a + b, pat, i) <==> OccursAt(b, pat, i - |a|)
    {
      if i + |pat| <= |a + b| {
        assert (a + b)[i..i + |pat|] == b[i - |a|..i - |a| + |pat|];
      }
    }
  }

  /** A string without the pattern's first character holds no occurrence. */
  lemma NoOccurrenceWithoutFirstChar(s: string, pat: string)
    requires pat != [] && pat[0] !in s
    ensures forall i :: 0 <= i ==> !OccursAt(s, pat, i)
    ensures IndexOf(s, pat).None?
  {
    forall i | 0 <= i
      ensures !OccursAt(s, pat, i)
    {
      if i < |s| {
        assert s[i] in s;
      }
    }
  }

  /** The position of the first `sep` in `s`. */
  function FirstIndexOf(s: string, sep: char): (k: nat)
    requires sep in s
    ensures k < |s| && s[k] == sep && sep !in s[..k]
  {
    if s[0] == sep then 0 else FirstIndexOf(s[1..], sep) + 1
  }

  /** The pieces of `parts` glued back together with `sep` between them. */
  function Join(parts: seq<string>, sep: char): (s: string)
    requires parts != []
  {
    if |parts| == 1 then parts[0] else parts[0] + [sep] + Join(parts[1..], sep)
  }

  /** Python's `s.split(sep)` for a one-character separator: at least one
      piece, and no piece holds the separator. */
  function Split(s: string, sep: char): (r: seq<string>)
    ensures |r| >= 1
    ensures forall i :: 0 <= i < |r| ==> sep !in r[i]
    decreases |s|
  {
    if sep !in s then [s]
    else
      var k := FirstIndexOf(s, sep);
      [s[..k]] + Split(s[k + 1..], sep)
  }

  /** Joining the pieces of a split with the separator gives `s` back. */
  lemma {:induction false} SplitJoin(s: string, sep: char)
    ensures Join(Split(s, sep), sep) == s
    decreases |s|
  {
    if sep in s {
      var k := FirstIndexOf(s, sep);
      var rest := Split(s[k + 1..], sep);
      assert Split(s, sep) == [s[..k]] + rest;
      assert ([s[..k]] + rest)[1..] == rest;
      SplitJoin(s[k + 1..], sep);
      assert s == s[..k] + [sep] + s[k + 1..];
    }
  }

  /** Splitting is determined by its contract: pieces without the separator
      that join back to `s` are `Split(s, sep)`. */
  lemma {:induction false} SplitUnique(s: string, sep: char, parts: seq<string>)
    requires parts != [] && (forall i :: 0 <= i < |parts| ==> sep !in parts[i])
    requires Join(parts, sep) == s
    ensures Split(s, sep) == parts
  {
    if |parts| > 1 {
      var p := parts[0];
      var rest := Join(parts[1..], sep);
      assert s == p + [sep] + rest;
      assert s[|p|] == sep;
      var k := FirstIndexOf(s, sep);
      assert s[..k] == p;
      assert s[k + 1..] == rest;
      SplitUnique(rest, sep, parts[1..]);
    }
  }

  // ---------------------------------------------------------------------
  // strip

  /** `s` with its leading characters from `cs` removed (`lstrip(chars)`). */
  function TrimStart(s: string, cs: set<char>): (r: string)
    ensures |r| <= |s| && r == s[|s| - |r|..]
    ensures r != [] ==> r[0] !in cs
    ensures forall k :: 0 <= k < |s| - |r| ==> s[k] in cs
  {
    if s != [] && s[0] in cs then TrimStart(s[1..], cs) else s
  }

  /** `s` with its trailing characters from `cs` removed (`rstrip(chars)`). */
  function TrimEnd(s: string, cs: set<char>): (r: string)
    ensures |r| <= |s| && r == s[..|r|]
    ensures r != [] ==> r[|r| - 1] !in cs
    ensures forall k :: |r| <= k < |s| ==> s[k] in cs
  {
    if s != [] && s[|s| - 1] in cs then TrimEnd(s[..|s| - 1], cs) else s
  }

  /** Python's `s.strip(chars)`: what is left of `s` once every leading and
      trailing character from `cs` is gone.  `StripEnds` says that it neither
      begins nor ends with a character from `cs`, `StripIsSlice` where it
      sits in `s`. */
  function Strip(s: string, cs: set<char>): (r: string)
    ensures |r| <= |s|
  {
    TrimEnd(TrimStart(s, cs), cs)
  }

  /** A stripped string neither begins nor ends with a character from `cs`. */
  lemma StripEnds(s: string, cs: set<char>)
    ensures var r := Strip(s, cs); r != [] ==> r[0] !in cs && r[|r| - 1] !in cs
  {
    var t := TrimStart(s, cs);
    var r := TrimEnd(t, cs);
    if r != [] {
      assert r[0] == t[0];
    }
  }

  /** The stripped string is a slice of `s`, and everything removed on either
      side of it is in `cs`. */
  lemma StripIsSlice(s: string, cs: set<char>)
    ensures StrippedAt(s, Strip(s, cs), |s| - |TrimStart(s, cs)|, cs)
  {
    var t := TrimStart(s, cs);
    var r := TrimEnd(t, cs);
    var i := |s| - |t|;
    assert Strip(s, cs) == r;
    assert r == s[i..i + |r|];
    assert forall k :: 0 <= k < i ==> s[k] in cs;
    forall k | i + |r| <= k < |s|
      ensures s[k] in cs
    {
      assert s[k] == t[k - i];
    }
    assert StrippedAt(s, r, i, cs);
  }

  /** `r` is the slice of `s` at `i`, and every character of `s` on either
      side of it is in `cs`. */
  ghost predicate StrippedAt(s: string, r: string, i: int, cs: set<char>) {
    && 0 <= i <= |s| - |r|
    && r == s[i..i + |r|]
    && (forall k :: 0 <= k < i ==> s[k] in cs)
    && (forall k :: i + |r| <= k < |s| ==> s[k] in cs)
  }

  /** Every character of `s` is in `cs`. */
  predicate AllIn(s: string, cs: set<char>) {
    s == [] || (s[0] in cs && AllIn(s[1..], cs))
  }

  lemma {:induction false} AllInIff(s: string, cs: set<char>)
    ensures AllIn(s, cs) <==> forall k :: 0 <= k < |s| ==> s[k] in cs
  {
    if s != [] {
      AllInIff(s[1..], cs);
      assert forall k :: 1 <= k < |s| ==> s[k] == s[1..][k - 1];
    }
  }

  /** `strip(chars)` leaves nothing exactly when every character is in `chars`. */
  lemma StripEmptyIff(s: string, cs: set<char>)
    ensures Strip(s, cs) == [] <==> AllIn(s, cs)
  {
    AllInIff(s, cs);
    StripIsSlice(s, cs);
  }

  /** Padding drawn from `cs` on either side of a word that neither begins nor
      ends with a character of `cs` is exactly what `strip` removes. */
  lemma {:induction false} StripPadding(l: string, w: string, rt: string, cs: set<char>)
    requires forall c :: c in l ==> c in cs
    requires forall c :: c in rt ==> c in cs
    requires w != [] && w[0] !in cs && w[|w| - 1] !in cs
    ensures Strip(l + w + rt, cs) == w
  {
    TrimStartPadding(l, w + rt, cs);
    assert l + w + rt == l + (w + rt);
    TrimEndPadding(w, rt, cs);
  }

  lemma {:induction false} TrimStartPadding(l: string, t: string, cs: set<char>)
    requires forall c :: c in l ==> c in cs
    requires t != [] && t[0] !in cs
    ensures TrimStart(l + t, cs) == t
  {
    if l != [] {
      assert (l + t)[1..] == l[1..] + t;
      TrimStartPadding(l[1..], t, cs);
    }
  }

  lemma {:induction false} TrimEndPadding(t: string, rt: string, cs: set<char>)
    requires forall c :: c in rt ==> c in cs
    requires t != [] && t[|t| - 1] !in cs
    ensures TrimEnd(t + rt, cs) == t
  {
    if rt != [] {
      assert (t + rt)[..|t + rt| - 1] == t + rt[..|rt| - 1];
      TrimEndPadding(t, rt[..|rt| - 1], cs);
    }
  }

  // ---------------------------------------------------------------------
  // int() on a decimal literal

  predicate IsDigit(c: char) {
    '0' <= c <= '9'
  }

  predicate AllDigits(s: string) {
    forall i :: 0 <= i < |s| ==> IsDigit(s[i])
  }

  /** The value of a run of decimal digits, most significant first. */
  function DigitsValue(s: string): (n: nat)
    requires AllDigits(s)
  {
    if s == [] then 0
    else 10 * DigitsValue(s[..|s| - 1]) + (s[|s| - 1] - '0') as nat
  }

  /** A decimal integer literal as Python's `int()` reads one once the
      surrounding whitespace is gone: an optional `+` or `-` and then one or
      more digits. */
  ghost predicate IsIntLiteral(s: string) {
    if s != [] && (s[0] == '+' || s[0] == '-') then s[1..] != [] && AllDigits(s[1..])
    else s != [] && AllDigits(s)
  }

  /** Python's `int(s)` on a stripped string; `None` stands for the
      `ValueError` it raises on anything that is not a literal. */
  function ParseInt(s: string): (r: Option<int>)
    ensures r.Some? <==> IsIntLiteral(s)
    ensures r.Some? && s[0] == '-' ==> r.value <= 0
    ensures r.Some? && s[0] != '-' ==> r.value >= 0
  {
    if s == [] then None
    else if s[0] == '+' || s[0] == '-' then
      var digits := s[1..];
      if digits != [] && AllDigits(digits) then
        var v: int := DigitsValue(digits);
        Some(if s[0] == '-' then -v else v)
      else None
    else if AllDigits(s) then Some(DigitsValue(s))
    else None
  }

  /** The character of decimal digit `d`. */
  function DigitChar(d: nat): (c: char)
    requires d < 10
    ensures IsDigit(c) && (c - '0') as nat == d
  {
    (d + '0' as int) as char
  }

  /** The decimal rendering of `n` without leading zeros, as `str(n)` writes it. */
  function NatToString(n: nat): (s: string)
    ensures s != [] && AllDigits(s)
  {
    if n < 10 then [DigitChar(n)] else NatToString(n / 10) + [DigitChar(n % 10)]
  }

  /** The decimal rendering of an integer, with a `-` for negative values. */
  function IntToString(v: int): (s: string)
    ensures s != [] && forall i :: 0 <= i < |s| ==> IsDigit(s[i]) || s[i] == '-'
  {
    if v < 0 then "-" + NatToString(-v) else NatToString(v)
  }

  /** Reading back a rendered natural number gives that number. */
  lemma {:induction false} DigitsValueOfNatToString(n: nat)
    ensures DigitsValue(NatToString(n)) == n
  {
    if n >= 10 {
      var s := NatToString(n);
      assert s[..|s| - 1] == NatToString(n / 10);
      DigitsValueOfNatToString(n / 10);
    }
  }

  /** `int(str(v)) == v`. */
  lemma ParseIntOfIntToString(v: int)
    ensures ParseInt(IntToString(v)) == Some(v)
  {
    if v < 0 {
      DigitsValueOfNatToString(-v);
      assert IntToString(v)[1..] == NatToString(-v);
    } else {
      DigitsValueOfNatToString(v);
    }
  }
}
