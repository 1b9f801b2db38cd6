/** The handful of Python string operations the record reader relies on:
    `str.strip()`, `str.upper()`, `str.split(sep)`, digit strings, `int(s)`
    for base-10 text, and the decimal rendering used by f-strings. Strings
    are `seq<char>` (Dafny's `string`). */
module Text {
  import opened Wrappers

  /** The characters for which Python's `str.isspace()` holds. */
  predicate IsSpace(c: char) {
    c == ' ' || ('\t' <= c <= '\r') || ('\U{1c}' <= c <= '\U{1f}')
    || c == '\U{85}' || c == '\U{a0}' || c == '\U{1680}'
    || ('\U{2000}' <= c <= '\U{200a}') || c == '\U{2028}' || c == '\U{2029}'
    || c == '\U{202f}' || c == '\U{205f}' || c == '\U{3000}'
  }

  predicate AllSpace(s: string) {
    forall i :: 0 <= i < |s| ==> IsSpace(s[i])
  }

  /** The first position at or after i that holds no whitespace, or |s|:
      everything skipped is whitespace. */
  function SkipSpaces(s: string, i: nat): (k: nat)
    requires i <= |s|
    ensures i <= k <= |s|
    ensures forall j :: i <= j < k ==> IsSpace(s[j])
    ensures k < |s| ==> !IsSpace(s[k])
    decreases |s| - i
  {
    if i < |s| && IsSpace(s[i]) then SkipSpaces(s, i + 1) else i
  }

  /** Scanning back from j, not below lo: the position just after the
      last character that is no whitespace, or lo. */
  function SkipSpacesBack(s: string, lo: nat, j: nat): (k: nat)
    requires lo <= j <= |s|
    ensures lo <= k <= j
    ensures forall m :: k <= m < j ==> IsSpace(s[m])
    ensures k > lo ==> !IsSpace(s[k - 1])
    decreases j
  {
    if j > lo && IsSpace(s[j - 1]) then SkipSpacesBack(s, lo, j - 1) else j
  }

  /** Where the stripped text starts and ends. */
  function StripStart(s: string): nat {
    SkipSpaces(s, 0)
  }

  function StripEnd(s: string): (e: nat)
    ensures StripStart(s) <= e <= |s|
  {
    SkipSpacesBack(s, StripStart(s), |s|)
  }

  /** Python's `s.strip()`: r neither starts nor ends with whitespace,
      and StripShape below shows that only whitespace was cut off. */
  function Strip(s: string): (r: string)
    ensures r == [] || (!IsSpace(r[0]) && !IsSpace(r[|r| - 1]))
  {
    var i, e := StripStart(s), StripEnd(s);
    s[i..e]
  }

  /** s is whitespace, then Strip(s), then whitespace: the cut-off ends
      are whitespace, and the first and last characters kept are not. */
  lemma StripShape(s: string)
    ensures Strip(s) == s[StripStart(s)..StripEnd(s)]
    ensures AllSpace(s[..StripStart(s)]) && AllSpace(s[StripEnd(s)..])
  {
    var i, e := StripStart(s), StripEnd(s);
    forall j | 0 <= j < i ensures IsSpace(s[..i][j]) {
      assert s[..i][j] == s[j];
    }
    forall j | 0 <= j < |s| - e ensures IsSpace(s[e..][j]) {
      assert s[e..][j] == s[e + j];
    }
  }

  /** A scan that stops at k, after whitespace only, stops at k. */
  lemma SkipSpacesAt(s: string, i: nat, k: nat)
    requires i <= k <= |s| && forall j :: i <= j < k ==> IsSpace(s[j])
    requires k < |s| ==> !IsSpace(s[k])
    ensures SkipSpaces(s, i) == k
  {
  }

  lemma SkipSpacesBackAt(s: string, lo: nat, j: nat, k: nat)
    requires lo <= k <= j <= |s| && forall m :: k <= m < j ==> IsSpace(s[m])
    requires k > lo ==> !IsSpace(s[k - 1])
    ensures SkipSpacesBack(s, lo, j) == k
  {
  }

  /** Neither the first nor the last character is whitespace. */
  predicate Unpadded(s: string) {
    s == [] || (!IsSpace(s[0]) && !IsSpace(s[|s| - 1]))
  }

  /** A string without whitespace at either end is its own strip. */
  lemma StripUnchanged(s: string)
    requires Unpadded(s)
    ensures Strip(s) == s
  {
    SkipSpacesAt(s, 0, 0);
    SkipSpacesBackAt(s, 0, |s|, |s|);
    assert s[0..|s|] == s;
  }

  /** Python's `str.upper()` on one character, for ASCII letters. */
  function UpperChar(c: char): char {
    if 'a' <= c <= 'z' then (c as int - 32) as char else c
  }

  function Upper(s: string): string {
    seq(|s|, i requires 0 <= i < |s| => UpperChar(s[i]))
  }

  predicate IsLetter(c: char) {
    'A' <= c <= 'Z' || 'a' <= c <= 'z'
  }

  // ---------------------------------------------------------------------
  // Splitting on a separator character.

  /** The first position of c in s. */
  function IndexOf(s: string, c: char): (k: nat)
    requires c in s
    ensures k < |s| && s[k] == c && c !in s[..k]
  {
    if s[0] == c then 0
    else
      assert c in s[1..] by {
        var j :| 0 <= j < |s| && s[j] == c;
        assert s[1..][j - 1] == c;
      }
      var k := IndexOf(s[1..], c);
      assert s[..k + 1] == [s[0]] + s[1..][..k];
      k + 1
  }

  /** The parts joined back together with the separator between them. */
  function Join(parts: seq<string>, sep: char): string
    decreases |parts|
  {
    if parts == [] then []
    else if |parts| == 1 then parts[0]
    else parts[0] + [sep] + Join(parts[1..], sep)
  }

  /** Python's `s.split(sep)` for one separator character: at least one
      part, no part contains the separator, and joining the parts with the
      separator gives s back. */
  function Split(s: string, sep: char): (parts: seq<string>)
    ensures |parts| >= 1
    ensures forall i :: 0 <= i < |parts| ==> sep !in parts[i]
    ensures Join(parts, sep) == s
    decreases |s|
  {
    if sep !in s then [s]
    else
      var k := IndexOf(s, sep);
      var rest := Split(s[k + 1..], sep);
      assert ([s[..k]] + rest)[1..] == rest;
      assert s == s[..k] + [sep] + s[k + 1..];
      [s[..k]] + rest
  }

  /** Text with a separator splits into at least two parts. */
  lemma SplitSome(s: string, sep: char)
    requires sep in s
    ensures |Split(s, sep)| >= 2
  {
  }

  /** Text with two separators splits into at least three parts. */
  lemma {:induction false} SplitTwoSeps(s: string, sep: char, i: nat, j: nat)
    requires i < j < |s| && s[i] == sep && s[j] == sep
    ensures |Split(s, sep)| >= 3
    decreases |s|
  {
    var k := IndexOf(s, sep);
    var s' := s[k + 1..];
    assert s'[j - k - 1] == sep;
    if k == i {
      SplitSome(s', sep);
    } else {
      assert s'[i - k - 1] == sep;
      SplitTwoSeps(s', sep, i - k - 1, j - k - 1);
    }
  }

  /** Splitting is the inverse of joining parts that do not contain the
      separator: the parts of a split are determined by the text. */
  lemma {:induction false} SplitJoin(parts: seq<string>, sep: char)
    requires |parts| >= 1
    requires forall i :: 0 <= i < |parts| ==> sep !in parts[i]
    ensures Split(Join(parts, sep), sep) == parts
    decreases |parts|
  {
    if |parts| == 1 {
      assert sep !in parts[0];
    } else {
      var rest := parts[1..];
      assert forall i :: 0 <= i < |rest| ==> sep !in rest[i] by {
        forall i | 0 <= i < |rest| ensures sep !in rest[i] {
          assert rest[i] == parts[i + 1];
        }
      }
      SplitCons(parts[0], Join(rest, sep), sep);
      SplitJoin(rest, sep);
      assert parts == [parts[0]] + rest;
    }
  }

  /** The first field ends at the first separator. */
  lemma SplitCons(p: string, j: string, sep: char)
    requires sep !in p
    ensures Split(p + [sep] + j, sep) == [p] + Split(j, sep)
  {
    var s := p + [sep] + j;
    assert s[|p|] == sep;
    var k := IndexOf(s, sep);
    assert s[..k] == p && s[k + 1..] == j;
  }

  /** The case used for "address/prefix" text. */
  lemma SplitTwo(x: string, y: string, sep: char)
    requires sep !in x && sep !in y
    ensures Split(x + [sep] + y, sep) == [x, y]
  {
    assert Join([x, y], sep) == x + [sep] + Join([y], sep);
    SplitJoin([x, y], sep);
  }

  // ---------------------------------------------------------------------
  // Decimal digits.

  predicate IsDigit(c: char) {
    '0' <= c <= '9'
  }

  predicate AllDigits(s: string) {
    forall i :: 0 <= i < |s| ==> IsDigit(s[i])
  }

  /** Non-empty ASCII digits: `s.isascii() and s.isdigit()`. */
  predicate IsDigits(s: string) {
    |s| > 0 && AllDigits(s)
  }

  /** No superfluous leading zero. */
  predicate Canonical(s: string) {
    |s| > 0 && (s[0] != '0' || s == "0")
  }

  function DigitValue(c: char): nat
    requires IsDigit(c)
  {
    c as int - '0' as int
  }

  function DigitChar(d: nat): (c: char)
    requires d < 10
    ensures IsDigit(c) && DigitValue(c) == d
  {
    ('0' as int + d) as char
  }

  /** The value of a string of decimal digits, most significant first. */
  function DigitsValue(s: string): nat
    requires AllDigits(s)
  {
    if s == [] then 0
    else 10 * DigitsValue(s[..|s| - 1]) + DigitValue(s[|s| - 1])
  }

  /** The decimal text of n (`str(n)`): digits without a leading zero that
      read back as n. */
  function ShowNat(n: nat): (s: string)
    ensures IsDigits(s) && Canonical(s)
    ensures DigitsValue(s) == n
  {
    if n < 10 then [DigitChar(n)]
    else
      var t := ShowNat(n / 10);
      var s := t + [DigitChar(n % 10)];
      assert s[..|s| - 1] == t;
      s
  }

  /** Digits without a leading zero that are not "0" denote a positive value. */
  lemma {:induction false} CanonicalPositive(s: string)
    requires IsDigits(s) && s[0] != '0'
    ensures DigitsValue(s) >= 1
    decreases |s|
  {
    if |s| > 1 {
      var t := s[..|s| - 1];
      assert t[0] == s[0];
      CanonicalPositive(t);
    }
  }

  /** The decimal text of a number is unique: canonical digits are the
      text of their own value. */
  lemma {:induction false} ShowNatOfCanonical(s: string)
    requires IsDigits(s) && Canonical(s)
    ensures ShowNat(DigitsValue(s)) == s
    decreases |s|
  {
    if |s| > 1 {
      var t := s[..|s| - 1];
      var d := DigitValue(s[|s| - 1]);
      assert t[0] == s[0] && t[0] != '0';
      CanonicalPositive(t);
      var n := DigitsValue(s);
      assert n == 10 * DigitsValue(t) + d && n >= 10;
      assert n / 10 == DigitsValue(t) && n % 10 == d;
      ShowNatOfCanonical(t);
      assert DigitChar(d) == s[|s| - 1];
      assert s == t + [s[|s| - 1]];
    }
  }

  /** The text of an integer as Python's f-string renders it. */
  function ShowInt(i: int): string {
    if i < 0 then "-" + ShowNat(-i) else ShowNat(i)
  }

  /** The text of an integer is all digits exactly when it is not negative. */
  lemma ShowIntDigits(i: int)
    ensures IsDigits(ShowInt(i)) <==> i >= 0
  {
    if i < 0 {
      assert !IsDigit(ShowInt(i)[0]);
    }
  }

  // ---------------------------------------------------------------------
  // Python's int() on text.

  /** Digits with single underscores between them, as int() accepts. */
  predicate Underscored(t: string) {
    |t| > 0 && IsDigit(t[0]) && IsDigit(t[|t| - 1])
    && (forall i :: 0 <= i < |t| ==> IsDigit(t[i]) || t[i] == '_')
    && (forall i :: 0 <= i < |t| - 1 && t[i] == '_' ==> t[i + 1] != '_')
  }

  function DropUnderscores(t: string): (r: string)
    requires forall i :: 0 <= i < |t| ==> IsDigit(t[i]) || t[i] == '_'
    ensures AllDigits(r)
  {
    if t == [] then []
    else (if t[0] == '_' then [] else [t[0]]) + DropUnderscores(t[1..])
  }

  lemma {:induction false} DropNoUnderscores(t: string)
    requires AllDigits(t)
    ensures DropUnderscores(t) == t
    decreases |t|
  {
    if t != [] {
      DropNoUnderscores(t[1..]);
    }
  }

  function UnderscoredValue(t: string): nat
    requires Underscored(t)
  {
    DigitsValue(DropUnderscores(t))
  }

  /** `int(s)` for base-10 text: surrounding whitespace ignored, an
      optional sign, then digits with single underscores between them;
      anything else is a ValueError, modelled as None. */
  function ParseInt(s: string): (r: Option<int>)
    ensures IsDigits(Strip(s)) ==> r == Some(DigitsValue(Strip(s)))
    ensures Strip(s) == [] ==> r == None
    ensures r.Some? && r.value < 0 ==> Strip(s)[0] == '-'
  {
    var t := Strip(s);
    if IsDigits(t) then
      ParseUnsignedDigits(t);
      ParseSigned(t)
    else ParseSigned(t)
  }

  /** An optional sign, then the digits. */
  function ParseSigned(t: string): Option<int> {
    if |t| > 0 && t[0] == '-' then
      match ParseUnsigned(t[1..])
      case Some(v) => Some(-(v as int))
      case None => None
    else if |t| > 0 && t[0] == '+' then
      match ParseUnsigned(t[1..])
      case Some(v) => Some(v as int)
      case None => None
    else
      match ParseUnsigned(t)
      case Some(v) => Some(v as int)
      case None => None
  }

  function ParseUnsigned(t: string): Option<nat> {
    if Underscored(t) then Some(UnderscoredValue(t)) else None
  }

  /** Plain digits are their own value to int(). */
  lemma ParseUnsignedDigits(d: string)
    requires IsDigits(d)
    ensures ParseUnsigned(d) == Some(DigitsValue(d))
  {
    DropNoUnderscores(d);
  }

  /** Digits read back as their value. */
  lemma ParseDigits(s: string, n: nat)
    requires Strip(s) == ShowNat(n)
    ensures ParseInt(s) == Some(n)
  {
    var d := ShowNat(n);
    ParseUnsignedDigits(d);
    assert !(d[0] == '+' || d[0] == '-');
  }

  /** A minus sign before digits negates their value. */
  lemma ParseNegative(d: string)
    requires IsDigits(d)
    ensures ParseInt("-" + d) == Some(-(DigitsValue(d) as int))
  {
    SignedUnstripped(d);
    SignedNegative("-" + d, d);
  }

  lemma SignedNegative(t: string, d: string)
    requires IsDigits(d) && t == "-" + d
    ensures ParseSigned(t) == Some(-(DigitsValue(d) as int))
  {
    assert t[1..] == d;
    ParseUnsignedDigits(d);
  }

  lemma SignedUnstripped(d: string)
    requires IsDigits(d)
    ensures Strip("-" + d) == "-" + d
  {
    var s := "-" + d;
    assert s[0] == '-' && s[|s| - 1] == d[|d| - 1];
    StripUnchanged(s);
  }

  /** int() reads back the text that str() writes, including negatives. */
  lemma ParseShowInt(i: int)
    ensures ParseInt(ShowInt(i)) == Some(i)
  {
    if i < 0 {
      ParseNegative(ShowNat(-i));
    } else {
      StripUnchanged(ShowNat(i));
      ParseDigits(ShowNat(i), i);
    }
  }

  /** Stripping whitespace from around text that neither starts nor ends
      with whitespace gives that text. */
  lemma StripPadded(a: string, d: string, b: string)
    requires AllSpace(a) && AllSpace(b) && d != [] && Unpadded(d)
    ensures Strip(a + d + b) == d
  {
    var s := a + d + b;
    forall j | 0 <= j < |a| ensures IsSpace(s[j]) {
      assert s[j] == a[j];
    }
    assert s[|a|] == d[0];
    SkipSpacesAt(s, 0, |a|);
    forall m | |a| + |d| <= m < |s| ensures IsSpace(s[m]) {
      assert s[m] == b[m - |a| - |d|];
    }
    assert s[|a| + |d| - 1] == d[|d| - 1];
    SkipSpacesBackAt(s, |a|, |s|, |a| + |d|);
    assert s[|a|..|a| + |d|] == d;
  }

  /** Whitespace around the number does not matter to int(). */
  lemma ParsePadded(a: string, n: nat, b: string)
    requires AllSpace(a) && AllSpace(b)
    ensures ParseInt(a + ShowNat(n) + b) == Some(n)
  {
    var d := ShowNat(n);
    assert !IsSpace(d[0]) && !IsSpace(d[|d| - 1]);
    StripPadded(a, d, b);
    ParseDigits(a + d + b, n);
  }
}
