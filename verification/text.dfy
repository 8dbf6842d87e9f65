/**
 * The few Python `str` operations the booking script relies on, written out
 * so that their edge cases are explicit: substring test (`pat in s`),
 * `str.split(sep)`, `sep.join(parts)`, `str.upper()`, `str.strip()` and
 * `int(text)`.
 */
module Text {
  import opened Wrappers

  /** `pat` occurs in `s` starting at index `k`. */
  predicate OccursAt(s: string, pat: string, k: int) {
    0 <= k && k + |pat| <= |s| && s[k..k + |pat|] == pat
  }

  /** Python's `pat in s`; the empty pattern occurs everywhere. */
  predicate Contains(s: string, pat: string) {
    exists k :: 0 <= k <= |s| - |pat| && OccursAt(s, pat, k)
  }

  /** The first occurrence of `pat` in `s` at an index not below `k`. */
  function FindFrom(s: string, pat: string, k: nat): (r: Option<nat>)
    ensures r.Some? ==> k <= r.value && OccursAt(s, pat, r.value)
    ensures r.Some? ==> forall j :: k <= j < r.value ==> !OccursAt(s, pat, j)
    ensures r.None? ==> forall j :: k <= j ==> !OccursAt(s, pat, j)
    decreases |s| - k
  {
    if k + |pat| > |s| then None
    else if s[k..k + |pat|] == pat then Some(k)
    else FindFrom(s, pat, k + 1)
  }

  /** Python's `s.find(pat)`, with `None` for -1. */
  function Find(s: string, pat: string): (r: Option<nat>)
    ensures r.None? <==> !Contains(s, pat)
    ensures r.Some? ==> OccursAt(s, pat, r.value) && forall j :: 0 <= j < r.value ==> !OccursAt(s, pat, j)
  {
    FindFrom(s, pat, 0)
  }

  /** Python's `sep.join(parts)`. */
  function Join(parts: seq<string>, sep: string): string
  {
    if |parts| == 0 then ""
    else if |parts| == 1 then parts[0]
    else parts[0] + sep + Join(parts[1..], sep)
  }

  /** Being a substring is transitive. */
  lemma ContainsTransitive(a: string, b: string, c: string)
    requires Contains(a, b) && Contains(b, c)
    ensures Contains(a, c)
  {
    var i :| 0 <= i <= |a| - |b| && OccursAt(a, b, i);
    var j :| 0 <= j <= |b| - |c| && OccursAt(b, c, j);
    forall t | 0 <= t < |c|
      ensures a[i + j + t] == c[t]
    {
      assert b[j + t] == c[t];
      assert a[i + (j + t)] == b[j + t];
    }
    assert a[i + j..i + j + |c|] == c;
    assert OccursAt(a, c, i + j);
  }

  /** A prefix of `s` that ends before the first occurrence of `sep` does not contain `sep`. */
  lemma PrefixBeforeFirst(s: string, sep: string, i: nat)
    requires |sep| > 0 && i <= |s|
    requires forall j :: 0 <= j < i ==> !OccursAt(s, sep, j)
    ensures !Contains(s[..i], sep)
  {
    forall k | 0 <= k <= i - |sep| && OccursAt(s[..i], sep, k)
      ensures false
    {
      assert s[..i][k..k + |sep|] == s[k..k + |sep|];
      assert OccursAt(s, sep, k);
    }
  }

  /**
   * Python's `s.split(sep)` for a non-empty separator: the pieces between
   * successive non-overlapping occurrences of `sep`, scanning left to right.
   */
  function Split(s: string, sep: string): (parts: seq<string>)
    requires |sep| > 0
    ensures |parts| >= 1
    decreases |s|
  {
    match Find(s, sep)
    case None => [s]
    case Some(i) => [s[..i]] + Split(s[i + |sep|..], sep)
  }

  /** Cutting out an occurrence of `sep` and putting it back gives the text. */
  lemma RejoinAt(s: string, sep: string, i: nat)
    requires OccursAt(s, sep, i)
    ensures s[..i] + sep + s[i + |sep|..] == s
  {
    assert s[i..i + |sep|] == sep;
    assert s == s[..i] + s[i..i + |sep|] + s[i + |sep|..];
  }

  /** Joining the pieces back with `sep` gives the text: `sep.join(s.split(sep)) == s`. */
  lemma {:induction false} SplitJoin(s: string, sep: string)
    requires |sep| > 0
    ensures Join(Split(s, sep), sep) == s
    decreases |s|
  {
    match Find(s, sep)
    case None =>
    case Some(i) =>
      var tail := s[i + |sep|..];
      var parts := Split(s, sep);
      assert parts == [s[..i]] + Split(tail, sep);
      assert |parts| >= 2 && parts[0] == s[..i] && parts[1..] == Split(tail, sep);
      SplitJoin(tail, sep);
      RejoinAt(s, sep, i);
      assert Join(parts, sep) == parts[0] + sep + Join(parts[1..], sep);
  }

  /** No piece contains the separator. */
  lemma {:induction false} SplitPiecesFree(s: string, sep: string)
    requires |sep| > 0
    ensures forall i :: 0 <= i < |Split(s, sep)| ==> !Contains(Split(s, sep)[i], sep)
    decreases |s|
  {
    match Find(s, sep)
    case None =>
    case Some(i) =>
      var tail := s[i + |sep|..];
      var parts := Split(s, sep);
      var rest := Split(tail, sep);
      assert parts == [s[..i]] + rest;
      SplitPiecesFree(tail, sep);
      PrefixBeforeFirst(s, sep, i);
      forall k | 0 <= k < |parts|
        ensures !Contains(parts[k], sep)
      {
        if k > 0 {
          assert parts[k] == rest[k - 1];
        }
      }
  }

  /** There is more than one piece exactly when the separator occurs. */
  lemma SplitSingle(s: string, sep: string)
    requires |sep| > 0
    ensures |Split(s, sep)| == 1 <==> !Contains(s, sep)
  {
    match Find(s, sep)
    case None =>
    case Some(i) =>
      assert OccursAt(s, sep, i);
  }

  /** When `sep` first occurs right after `head`, splitting peels `head` off. */
  lemma SplitAfterHead(head: string, sep: string, tail: string)
    requires |sep| > 0
    requires forall j :: 0 <= j < |head| ==> !OccursAt(head + sep + tail, sep, j)
    ensures Split(head + sep + tail, sep) == [head] + Split(tail, sep)
  {
    var s := head + sep + tail;
    assert OccursAt(s, sep, |head|) by { assert s[|head|..|head| + |sep|] == sep; }
    var f := Find(s, sep);
    assert f == Some(|head|);
    assert s[..|head|] == head;
    assert s[|head| + |sep|..] == tail;
  }

  /** Python's `str.isspace()` for one character. */
  predicate IsSpace(c: char) {
    var n := c as int;
    (9 <= n <= 13) || (28 <= n <= 32) || n == 0x85 || n == 0xA0 || n == 0x1680
    || (0x2000 <= n <= 0x200A) || n == 0x2028 || n == 0x2029 || n == 0x202F
    || n == 0x205F || n == 0x3000
  }

  /** The number of white-space characters at the start of `s`. */
  function LeadingSpaces(s: string): (n: nat)
    ensures n <= |s|
    ensures forall k :: 0 <= k < n ==> IsSpace(s[k])
    ensures n < |s| ==> !IsSpace(s[n])
  {
    if |s| > 0 && IsSpace(s[0]) then 1 + LeadingSpaces(s[1..]) else 0
  }

  /** The number of white-space characters at the end of `s`. */
  function TrailingSpaces(s: string): (n: nat)
    ensures n <= |s|
    ensures forall k :: |s| - n <= k < |s| ==> IsSpace(s[k])
    ensures n < |s| ==> !IsSpace(s[|s| - 1 - n])
  {
    if |s| > 0 && IsSpace(s[|s| - 1]) then 1 + TrailingSpaces(s[..|s| - 1]) else 0
  }

  /**
   * Python's `s.strip()`: `s` without its leading and trailing white space.
   * The result is a slice of `s`, everything cut away is white space, and the
   * result neither starts nor ends with white space.
   */
  function Strip(s: string): (r: string)
    ensures exists i, j :: 0 <= i <= j <= |s| && r == s[i..j]
                           && (forall k :: 0 <= k < i ==> IsSpace(s[k]))
                           && (forall k :: j <= k < |s| ==> IsSpace(s[k]))
    ensures |r| > 0 ==> !IsSpace(r[0]) && !IsSpace(r[|r| - 1])
  {
    var a := LeadingSpaces(s);
    var rest := s[a..];
    var b := TrailingSpaces(rest);
    var r := rest[..|rest| - b];
    assert r == s[a..|s| - b];
    r
  }

  /** Stripping a text whose first and last characters are not white space leaves it alone. */
  lemma StripNoSpaceEnds(s: string)
    requires |s| > 0 && !IsSpace(s[0]) && !IsSpace(s[|s| - 1])
    ensures Strip(s) == s
  {
  }

  predicate IsDigit(c: char) { '0' <= c <= '9' }

  predicate AllDigits(s: string) { forall k :: 0 <= k < |s| ==> IsDigit(s[k]) }

  function DigitValue(c: char): (d: nat)
    requires IsDigit(c)
    ensures d < 10
  {
    c as int - '0' as int
  }

  function DigitChar(d: nat): (c: char)
    requires d < 10
    ensures IsDigit(c) && DigitValue(c) == d
  {
    ('0' as int + d) as char
  }

  /** The value of a string of decimal digits, most significant first. */
  function DigitsToNat(s: string): nat
    requires AllDigits(s)
  {
    if |s| == 0 then 0 else 10 * DigitsToNat(s[..|s| - 1]) + DigitValue(s[|s| - 1])
  }

  /** The shortest decimal rendering of `n`; reading it back gives `n`. */
  function NatToDigits(n: nat): (s: string)
    ensures |s| >= 1 && AllDigits(s)
    ensures DigitsToNat(s) == n
    ensures n < 10 <==> |s| == 1
    ensures n < 100 ==> |s| <= 2
    ensures n < 1000 ==> |s| <= 3
    ensures n < 10000 ==> |s| <= 4
    ensures |s| > 1 ==> s[0] != '0'
  {
    if n < 10 then [DigitChar(n)]
    else
      var s := NatToDigits(n / 10) + [DigitChar(n % 10)];
      assert s[..|s| - 1] == NatToDigits(n / 10);
      s
  }

  /** Left-pads with `'0'` up to `width` characters, as `%02d` or `zfill` do. */
  function ZeroPad(s: string, width: nat): (r: string)
    ensures |r| == if |s| >= width then |s| else width
    decreases width - |s|
  {
    if |s| >= width then s else ZeroPad("0" + s, width)
  }

  /** A leading zero does not change the value of a digit string. */
  lemma {:induction false} LeadingZero(s: string)
    requires AllDigits(s)
    ensures AllDigits("0" + s) && DigitsToNat("0" + s) == DigitsToNat(s)
  {
    if |s| > 0 {
      var init := s[..|s| - 1];
      LeadingZero(init);
      assert ("0" + s)[..|s|] == "0" + init;
    }
  }

  /** Zero padding keeps the digits and their value. */
  lemma {:induction false} ZeroPadValue(s: string, width: nat)
    requires AllDigits(s)
    ensures AllDigits(ZeroPad(s, width)) && DigitsToNat(ZeroPad(s, width)) == DigitsToNat(s)
    decreases width - |s|
  {
    if |s| < width {
      LeadingZero(s);
      ZeroPadValue("0" + s, width);
    }
  }

  /**
   * Python's `int(text)` for base-10 text: surrounding white space is ignored,
   * one optional sign, then at least one ASCII digit; anything else raises
   * `ValueError`, modelled as `None`.
   */
  function ParseInt(text: string): (r: Option<int>)
    ensures r.Some? ==> |Strip(text)| > 0
  {
    var t := Strip(text);
    if |t| > 0 && (t[0] == '-' || t[0] == '+') then
      var body := t[1..];
      if |body| > 0 && AllDigits(body) then
        var v: int := if t[0] == '-' then -(DigitsToNat(body) as int) else DigitsToNat(body);
        Some(v)
      else None
    else if |t| > 0 && AllDigits(t) then Some(DigitsToNat(t))
    else None
  }

  /** Python's `str(n)`. */
  function IntToText(n: int): (s: string)
    ensures |s| > 0 && s[|s| - 1] != ':'
    ensures forall k :: 0 <= k < |s| ==> s[k] == '-' || IsDigit(s[k])
  {
    if n < 0 then "-" + NatToDigits(-n) else NatToDigits(n)
  }

  /** `int(str(n)) == n`. */
  lemma ParseIntRoundTrip(n: int)
    ensures ParseInt(IntToText(n)) == Some(n)
  {
    var s := IntToText(n);
    StripNoSpaceEnds(s);
    if n < 0 {
      assert s[1..] == NatToDigits(-n);
    }
  }

  /** Python's `str.upper()` on one character, for ASCII and Russian Cyrillic letters. */
  function UpperChar(c: char): char
  {
    var n := c as int;
    if 'a' <= c <= 'z' then (n - 32) as char
    else if 0x430 <= n <= 0x44F then (n - 0x20) as char
    else if 0x450 <= n <= 0x45F then (n - 0x50) as char
    else c
  }

  /** Python's `str.upper()`, character by character. */
  function Upper(s: string): (r: string)
    ensures |r| == |s|
  {
    if |s| == 0 then "" else [UpperChar(s[0])] + Upper(s[1..])
  }

  /** A lower-case letter of the alphabets `Upper` covers: a-z, а-я and ѐ-џ. */
  predicate IsLowerLetter(c: char) {
    'a' <= c <= 'z' || 0x430 <= c as int <= 0x45F
  }

  /** An upper-case letter of the same alphabets: A-Z, А-Я and Ѐ-Џ. */
  predicate IsUpperLetter(c: char) {
    'A' <= c <= 'Z' || 0x400 <= c as int <= 0x42F
  }

  /**
   * The upper-cased text holds no lower-case letter: each lower-case letter
   * becomes an upper-case one, and every other character is kept.
   */
  lemma {:induction false} UpperHasNoLowerCase(s: string)
    ensures forall i :: 0 <= i < |s| ==> !IsLowerLetter(Upper(s)[i])
    ensures forall i :: 0 <= i < |s| ==> (IsLowerLetter(s[i]) ==> IsUpperLetter(Upper(s)[i]))
    ensures forall i :: 0 <= i < |s| ==> (!IsLowerLetter(s[i]) ==> Upper(s)[i] == s[i])
  {
    if |s| > 0 {
      UpperHasNoLowerCase(s[1..]);
      var r := Upper(s);
      assert r == [UpperChar(s[0])] + Upper(s[1..]);
      forall i | 0 < i < |s|
        ensures r[i] == Upper(s[1..])[i - 1] && s[i] == s[1..][i - 1]
      {
      }
    }
  }

  /** Upper-casing twice is upper-casing once. */
  lemma {:induction false} UpperIdempotent(s: string)
    ensures Upper(Upper(s)) == Upper(s)
  {
    if |s| > 0 {
      UpperIdempotent(s[1..]);
      assert Upper(s)[1..] == Upper(s[1..]);
    }
  }
}
