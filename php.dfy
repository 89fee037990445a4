/**
 * The slice of PHP's value and string semantics that the library relies on:
 * scalar values, string conversion, `strpos`, `str_replace`, `trim`,
 * `strtoupper`, `implode` and the `(int)` cast of a string.
 */
module Php {

  datatype Option<T> = None | Some(value: T)

  datatype Result<T, E> = Ok(value: T) | Err(error: E)

  /** A PHP scalar as it appears in definitions, bind arrays and objects. */
  datatype Value = Null | Bool(b: bool) | Int(i: int) | Str(s: string)

  /** PHP's `empty()` on a string: the empty string and "0" are empty. */
  predicate IsEmptyString(s: string)
  {
    s == "" || s == "0"
  }

  // ---------------------------------------------------------------------
  // Integers and their decimal text

  predicate IsDigit(c: char)
  {
    '0' <= c <= '9'
  }

  function DigitChar(d: nat): (c: char)
    requires d < 10
    ensures IsDigit(c) && c as int - '0' as int == d
  {
    (d + '0' as int) as char
  }

  function DigitValue(c: char): nat
    requires IsDigit(c)
  {
    c as int - '0' as int
  }

  /** The value of a string of decimal digits (most significant first). */
  function DigitsValue(d: string): nat
    requires forall i :: 0 <= i < |d| ==> IsDigit(d[i])
  {
    if d == [] then 0 else DigitsValue(d[..|d| - 1]) * 10 + DigitValue(d[|d| - 1])
  }

  /** PHP's decimal rendering of a non-negative integer: no leading zeros. */
  function NatToString(n: nat): (r: string)
    ensures |r| > 0 && (forall i :: 0 <= i < |r| ==> IsDigit(r[i]))
    ensures DigitsValue(r) == n
    ensures |r| > 1 ==> r[0] != '0'
    decreases n
  {
    if n < 10 then [DigitChar(n)]
    else
      var r := NatToString(n / 10) + [DigitChar(n % 10)];
      assert r[..|r| - 1] == NatToString(n / 10);
      r
  }

  /** `strval` of an int. */
  function IntToString(i: int): string
  {
    if i < 0 then "-" + NatToString(-i) else NatToString(i)
  }

  /** `strval` of a scalar: null and false are "", true is "1". */
  function ToStr(v: Value): string
  {
    match v
    case Null => ""
    case Bool(b) => if b then "1" else ""
    case Int(i) => IntToString(i)
    case Str(s) => s
  }

  /** The maximal run of digits at the start of `s`. */
  function LeadingDigits(s: string): (r: string)
    ensures |r| <= |s| && r == s[..|r|]
    ensures forall i :: 0 <= i < |r| ==> IsDigit(r[i])
    ensures |r| < |s| ==> !IsDigit(s[|r|])
  {
    if s != [] && IsDigit(s[0]) then [s[0]] + LeadingDigits(s[1..]) else []
  }

  /** Whitespace that PHP skips in front of a numeric string. */
  predicate IsNumericLeadingSpace(c: char)
  {
    c == ' ' || c == '\t' || c == '\n' || c == '\r' || c == '\U{000B}' || c == '\U{000C}'
  }

  function SkipNumericSpace(s: string): (r: string)
    ensures |r| <= |s| && r == s[|s| - |r|..]
    ensures r != [] ==> !IsNumericLeadingSpace(r[0])
  {
    if s != [] && IsNumericLeadingSpace(s[0]) then SkipNumericSpace(s[1..]) else s
  }

  /**
   * `(int)$s` read as an integer prefix: leading whitespace, an optional
   * sign and the leading digits; anything that does not start like an
   * integer is 0. A prefix with a fraction or an exponent is cut at its
   * first non-digit here, where PHP 7.1 and later casts it through a float.
   */
  function IntCast(s: string): (r: int)
    ensures var t := SkipNumericSpace(s);
            (t == [] || (t[0] != '-' && t[0] != '+' && !IsDigit(t[0]))) ==> r == 0
    ensures var t := SkipNumericSpace(s); r < 0 ==> t != [] && t[0] == '-'
  {
    var t := SkipNumericSpace(s);
    if t != [] && t[0] == '-' then -(DigitsValue(LeadingDigits(t[1..])) as int)
    else if t != [] && t[0] == '+' then DigitsValue(LeadingDigits(t[1..]))
    else DigitsValue(LeadingDigits(t))
  }

  // ---------------------------------------------------------------------
  // Searching and replacing

  /** `needle` occurs in `haystack` starting at position `k`. */
  predicate OccursAt(haystack: string, needle: string, k: nat)
  {
    k + |needle| <= |haystack| && haystack[k..k + |needle|] == needle
  }

  lemma OccursShifted(s: string, needle: string, k: nat)
    requires 0 < |s|
    ensures OccursAt(s, needle, k + 1) <==> OccursAt(s[1..], needle, k)
  {
    if k + 1 + |needle| <= |s| {
      assert s[k + 1..k + 1 + |needle|] == s[1..][k..k + |needle|];
    }
  }

  /** `strpos($haystack, $needle)`: the first position of `needle`, if any. */
  function StrPos(haystack: string, needle: string): (r: Option<nat>)
    ensures r.Some? ==> OccursAt(haystack, needle, r.value)
    ensures r.Some? ==> forall k :: 0 <= k < r.value ==> !OccursAt(haystack, needle, k)
    ensures r.None? ==> forall k :: !OccursAt(haystack, needle, k)
    decreases |haystack|
  {
    if |haystack| < |needle| then None
    else if haystack[..|needle|] == needle then
      assert haystack[0..|needle|] == haystack[..|needle|];
      Some(0)
    else
      var rest := StrPos(haystack[1..], needle);
      assert !OccursAt(haystack, needle, 0) by {
        assert haystack[0..|needle|] == haystack[..|needle|];
      }
      assert forall k: nat :: 0 < k ==> (OccursAt(haystack, needle, k) <==> OccursAt(haystack[1..], needle, k - 1)) by {
        forall k: nat | 0 < k ensures OccursAt(haystack, needle, k) <==> OccursAt(haystack[1..], needle, k - 1) {
          OccursShifted(haystack, needle, k - 1);
        }
      }
      match rest
      case None => None
      case Some(p) => Some(p + 1)
  }

  predicate Contains(haystack: string, needle: string)
  {
    StrPos(haystack, needle).Some?
  }

  lemma ContainsAt(haystack: string, needle: string, k: nat)
    requires OccursAt(haystack, needle, k)
    ensures Contains(haystack, needle)
  {
  }

  /** `str_replace($from, $to, $s)`: every occurrence, scanning left to right. */
  function Replace(s: string, from: string, to: string): string
    requires from != []
    decreases |s|
  {
    if |s| < |from| then s
    else if s[..|from|] == from then to + Replace(s[|from|..], from, to)
    else
      [s[0]] + Replace(s[1..], from, to)
  }

  /** A string without the token is left as it is. */
  lemma {:induction false} ReplaceAbsent(s: string, from: string, to: string)
    requires from != [] && !Contains(s, from)
    ensures Replace(s, from, to) == s
    decreases |s|
  {
    if |s| >= |from| {
      assert !OccursAt(s, from, 0);
      assert s[0..|from|] == s[..|from|];
      forall k: nat ensures !OccursAt(s[1..], from, k) {
        OccursShifted(s, from, k);
      }
      assert !Contains(s[1..], from);
      ReplaceAbsent(s[1..], from, to);
    }
  }

  /** Replacing a single character by a string maps every character on its own. */
  lemma {:induction false} ReplaceCharAppend(a: string, b: string, c: char, to: string)
    ensures Replace(a + b, [c], to) == Replace(a, [c], to) + Replace(b, [c], to)
    decreases |a|
  {
    if a == [] {
      assert a + b == b;
    } else {
      assert (a + b)[1..] == a[1..] + b;
      assert (a + b)[..1] == a[..1];
      ReplaceCharAppend(a[1..], b, c, to);
    }
  }

  lemma {:induction false} ReplaceCharFree(s: string, c: char, to: string, d: char)
    requires d != c && d !in to
    ensures (d in Replace(s, [c], to)) <==> d in s
    decreases |s|
  {
    if s != [] {
      ReplaceCharFree(s[1..], c, to, d);
      assert s == [s[0]] + s[1..];
    }
  }

  lemma {:induction false} ReplaceCharRemoved(s: string, c: char, to: string)
    requires c !in to
    ensures c !in Replace(s, [c], to)
    decreases |s|
  {
    if s != [] {
      ReplaceCharRemoved(s[1..], c, to);
    }
  }

  // ---------------------------------------------------------------------
  // Trimming and case

  /** The characters `trim()` strips by default. */
  predicate IsTrimChar(c: char)
  {
    c == ' ' || c == '\t' || c == '\n' || c == '\r' || c == '\0' || c == '\U{000B}'
  }

  predicate IsInfix(r: string, s: string)
  {
    exists i, j :: 0 <= i <= j <= |s| && r == s[i..j]
  }

  /** `ltrim()`: whitespace dropped from the front; `TrimLeftIsSuffix` says what is kept. */
  function TrimLeft(s: string): (r: string)
    ensures |r| <= |s|
    ensures r != [] ==> !IsTrimChar(r[0])
  {
    if s != [] && IsTrimChar(s[0]) then TrimLeft(s[1..]) else s
  }

  lemma {:induction false} TrimLeftIsSuffix(s: string)
    ensures TrimLeft(s) == s[|s| - |TrimLeft(s)|..]
    decreases |s|
  {
    if s != [] && IsTrimChar(s[0]) {
      TrimLeftIsSuffix(s[1..]);
      assert s[1..][|s| - 1 - |TrimLeft(s)|..] == s[|s| - |TrimLeft(s)|..];
    }
  }

  /** `rtrim()`: whitespace dropped from the end; `TrimRightIsPrefix` says what is kept. */
  function TrimRight(s: string): (r: string)
    ensures |r| <= |s|
    ensures r != [] ==> !IsTrimChar(r[|r| - 1])
  {
    if s != [] && IsTrimChar(s[|s| - 1]) then TrimRight(s[..|s| - 1]) else s
  }

  lemma {:induction false} TrimRightIsPrefix(s: string)
    ensures TrimRight(s) == s[..|TrimRight(s)|]
    decreases |s|
  {
    if s != [] && IsTrimChar(s[|s| - 1]) {
      TrimRightIsPrefix(s[..|s| - 1]);
      assert s[..|s| - 1][..|TrimRight(s)|] == s[..|TrimRight(s)|];
    }
  }

  /** `trim()`: an infix of `s` that neither starts nor ends with whitespace. */
  function Trim(s: string): (r: string)
    ensures |r| <= |s| && IsInfix(r, s)
    ensures r != [] ==> !IsTrimChar(r[0]) && !IsTrimChar(r[|r| - 1])
  {
    var l := TrimLeft(s);
    var r := TrimRight(l);
    TrimLeftIsSuffix(s);
    TrimRightIsPrefix(l);
    assert r == s[|s| - |l|..|s| - |l| + |r|];
    r
  }

  /** `ltrim` drops a character only by dropping a leading whitespace character. */
  lemma TrimLeftStep(x: string)
    ensures |TrimLeft(x)| < |x| ==> x != [] && IsTrimChar(x[0]) && TrimLeft(x) == TrimLeft(x[1..])
  {
  }

  /** Dropping part of what `ltrim` drops does not change its result. */
  lemma {:induction false} TrimLeftAfterDropping(x: string, e: nat)
    requires e <= |x| - |TrimLeft(x)|
    ensures TrimLeft(x[e..]) == TrimLeft(x)
    decreases e
  {
    if e > 0 {
      TrimLeftStep(x);
      TrimLeftAfterDropping(x[1..], e - 1);
      assert x[1..][e - 1..] == x[e..];
    } else {
      assert x[0..] == x;
    }
  }

  lemma TrimUnfolds(x: string)
    ensures Trim(x) == TrimRight(TrimLeft(x))
  {
  }

  /** `rtrim` of a string that does not end in whitespace leaves it as it is. */
  lemma TrimRightOfNonTrimEnd(x: string)
    requires x != [] && !IsTrimChar(x[|x| - 1])
    ensures TrimRight(x) == x
  {
  }

  /** `trim` of a string that does not end in whitespace only strips its leading whitespace, and keeps something. */
  lemma {:induction false} TrimOfNonTrimEnd(x: string)
    requires x != [] && !IsTrimChar(x[|x| - 1])
    ensures TrimLeft(x) != [] && Trim(x) == TrimLeft(x)
    decreases |x|
  {
    if IsTrimChar(x[0]) {
      assert x[1..][|x| - 2] == x[|x| - 1];
      TrimOfNonTrimEnd(x[1..]);
    }
    TrimLeftIsSuffix(x);
    var l := TrimLeft(x);
    assert l[|l| - 1] == x[|x| - 1];
    TrimRightOfNonTrimEnd(l);
  }

  function UpperChar(c: char): char
  {
    if 'a' <= c <= 'z' then (c as int - 32) as char else c
  }

  /** `strtoupper()`: ASCII letters only, as in PHP 8. */
  function ToUpper(s: string): (r: string)
    ensures |r| == |s|
    ensures forall i :: 0 <= i < |s| ==> r[i] == UpperChar(s[i])
  {
    seq(|s|, i requires 0 <= i < |s| => UpperChar(s[i]))
  }

  /** The parts with `sep` between each two, concatenated left to right. */
  function Join(parts: seq<string>, sep: string): string
  {
    if |parts| == 0 then ""
    else if |parts| == 1 then parts[0]
    else Join(parts[..|parts| - 1], sep) + sep + parts[|parts| - 1]
  }
}
