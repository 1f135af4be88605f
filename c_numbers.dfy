/**
 * The decimal conversions c++/rpcclient.cpp relies on: std::stoi for the
 * Content-Length header, std::stol for a mempool entry's size, and writing a
 * length to a std::ostream for the request's own Content-Length.
 *
 * std::stoi and std::stol parse like strtol in base 10: leading white space,
 * an optional sign, then at least one digit; they throw when there is no
 * digit or when the value does not fit the result type, and report the index
 * just past the last digit.  Exceptions are None here.
 */
module CNumbers {
  import opened Common

  const IntMin: int := -0x8000_0000
  const IntMax: int := 0x7fff_ffff
  const LongMin: int := -0x8000_0000_0000_0000
  const LongMax: int := 0x7fff_ffff_ffff_ffff

  /** isspace in the "C" locale. */
  predicate IsSpace(c: char) {
    c == ' ' || c == '\t' || c == '\n' || c == 11 as char || c == 12 as char || c == '\r'
  }

  predicate IsDigit(c: char) {
    '0' <= c <= '9'
  }

  predicate AllDigits(d: string) {
    forall k :: 0 <= k < |d| ==> IsDigit(d[k])
  }

  /** The index of the first character at or after i that is not white space. */
  function SkipSpaces(s: string, i: nat): (j: nat)
    requires i <= |s|
    ensures i <= j <= |s|
    ensures forall k :: i <= k < j ==> IsSpace(s[k])
    ensures j < |s| ==> !IsSpace(s[j])
    decreases |s| - i
  {
    if i < |s| && IsSpace(s[i]) then SkipSpaces(s, i + 1) else i
  }

  /** The index of the first character at or after i that is not a digit. */
  function SkipDigits(s: string, i: nat): (j: nat)
    requires i <= |s|
    ensures i <= j <= |s|
    ensures AllDigits(s[i..j])
    ensures j < |s| ==> !IsDigit(s[j])
    decreases |s| - i
  {
    if i < |s| && IsDigit(s[i]) then SkipDigits(s, i + 1) else i
  }

  /** The value of a string of decimal digits, most significant first. */
  function DigitsValue(d: string): nat
    requires AllDigits(d)
    decreases |d|
  {
    if |d| == 0 then 0 else DigitsValue(d[..|d| - 1]) * 10 + (d[|d| - 1] as int - '0' as int)
  }

  /**
   * strtol in base 10, limited to [lo, hi]: the value and the index just
   * past its last digit; None where the library throws.
   */
  function ParseInteger(s: string, lo: int, hi: int): (r: Option<(int, nat)>)
    ensures r.Some? ==> lo <= r.value.0 <= hi
    ensures r.Some? ==> 0 < r.value.1 <= |s| && IsDigit(s[r.value.1 - 1])
    ensures r.Some? ==> r.value.1 == |s| || !IsDigit(s[r.value.1])
  {
    var i := SkipSpaces(s, 0);
    var negative := i < |s| && s[i] == '-';
    var j := if i < |s| && (s[i] == '-' || s[i] == '+') then i + 1 else i;
    var k := SkipDigits(s, j);
    if k == j then None
    else
      var m: int := DigitsValue(s[j..k]);
      var v: int := if negative then -m else m;
      if lo <= v <= hi then Some((v, k)) else None
  }

  /** std::stoi: the value and the index past it, None where it throws. */
  function Stoi(s: string): (r: Option<(int, nat)>)
    ensures r.Some? ==> IntMin <= r.value.0 <= IntMax && r.value.1 <= |s|
  {
    ParseInteger(s, IntMin, IntMax)
  }

  /** std::stol (a 64-bit long): the value, None where it throws. */
  function Stol(s: string): (r: Option<int>)
    ensures r.Some? ==> LongMin <= r.value <= LongMax
  {
    match ParseInteger(s, LongMin, LongMax)
    case None => None
    case Some((v, _)) => Some(v)
  }

  /** The decimal text `os << n` writes for an unsigned n. */
  function DecimalString(n: nat): (s: string)
    ensures |s| > 0 && AllDigits(s)
    ensures |s| > 1 ==> s[0] != '0'
    decreases n
  {
    (if n < 10 then [] else DecimalString(n / 10)) + [('0' as int + n % 10) as char]
  }

  /** The digits written for n have the value n. */
  lemma {:induction false} DecimalStringValue(n: nat)
    ensures DigitsValue(DecimalString(n)) == n
    decreases n
  {
    var s := DecimalString(n);
    if n >= 10 {
      DecimalStringValue(n / 10);
      assert s[..|s| - 1] == DecimalString(n / 10);
    }
  }

  /** Parsing the decimal text of n with stoi or stol reads back n and the whole text. */
  lemma ParseDecimalString(n: nat, lo: int, hi: int)
    requires lo <= n <= hi
    ensures ParseInteger(DecimalString(n), lo, hi) == Some((n, |DecimalString(n)|))
  {
    var s := DecimalString(n);
    DecimalStringValue(n);
    ParseLayout([], [], s, [], lo, hi);
    assert [] + [] + s + [] == s;
  }

  /** SkipDigits runs to the end of a string of digits. */
  lemma {:induction false} SkipAllDigits(s: string, i: nat)
    requires i <= |s| && AllDigits(s)
    ensures SkipDigits(s, i) == |s|
    decreases |s| - i
  {
    if i < |s| {
      SkipAllDigits(s, i + 1);
    }
  }

  /** SkipSpaces runs over a prefix of white space and stops at the first other character. */
  lemma {:induction false} SkipSpacePrefix(s: string, i: nat, n: nat)
    requires i <= n <= |s|
    requires forall k :: i <= k < n ==> IsSpace(s[k])
    requires n == |s| || !IsSpace(s[n])
    ensures SkipSpaces(s, i) == n
    decreases n - i
  {
    if i < n {
      SkipSpacePrefix(s, i + 1, n);
    }
  }

  /** SkipDigits runs over a run of digits and stops at the first other character. */
  lemma {:induction false} SkipDigitRun(s: string, i: nat, n: nat)
    requires i <= n <= |s|
    requires AllDigits(s[i..n])
    requires n == |s| || !IsDigit(s[n])
    ensures SkipDigits(s, i) == n
    decreases n - i
  {
    if i < n {
      assert s[i + 1..n] == s[i..n][1..];
      SkipDigitRun(s, i + 1, n);
    }
  }

  /** ParseInteger once the white space, the sign and the digits have been located. */
  lemma ParseSteps(s: string, i: nat, j: nat, k: nat, lo: int, hi: int)
    requires i < |s| && SkipSpaces(s, 0) == i
    requires (s[i] == '-' || s[i] == '+') ==> j == i + 1
    requires !(s[i] == '-' || s[i] == '+') ==> j == i
    requires j < k <= |s| && SkipDigits(s, j) == k
    ensures var m: int := DigitsValue(s[j..k]);
      var v: int := if s[i] == '-' then 0 - m else m;
      var r := ParseInteger(s, lo, hi);
      (r.Some? <==> lo <= v <= hi) && (r.Some? ==> r.value.0 == v && r.value.1 == k)
  {
  }

  /**
   * What stoi and stol read: for white space, an optional sign, digits and
   * a rest that does not start with a digit, the signed value of the digits
   * (when it fits) and the index just past them.
   */
  lemma ParseLayout(pre: string, sign: string, d: string, rest: string, lo: int, hi: int)
    requires forall k :: 0 <= k < |pre| ==> IsSpace(pre[k])
    requires sign == [] || sign == ['+'] || sign == ['-']
    requires |d| > 0 && AllDigits(d)
    requires |rest| == 0 || !IsDigit(rest[0])
    ensures var v: int := if sign == ['-'] then 0 - DigitsValue(d) as int else DigitsValue(d);
      var r := ParseInteger(pre + sign + d + rest, lo, hi);
      (r.Some? <==> lo <= v <= hi) && (r.Some? ==> r.value.0 == v && r.value.1 == |pre| + |sign| + |d|)
  {
    var s := pre + sign + d + rest;
    var i, j, k := |pre|, |pre| + |sign|, |pre| + |sign| + |d|;
    assert SkipSpaces(s, 0) == i by {
      assert forall t :: 0 <= t < i ==> s[t] == pre[t];
      assert s[i] == (if sign == [] then d[0] else sign[0]);
      SkipSpacePrefix(s, 0, i);
    }
    assert s[i] == '-' <==> sign == ['-'] by {
      assert s[i] == (if sign == [] then d[0] else sign[0]);
    }
    assert (s[i] == '-' || s[i] == '+') <==> sign != [] by {
      assert s[i] == (if sign == [] then d[0] else sign[0]);
    }
    assert s[j..k] == d;
    assert SkipDigits(s, j) == k by {
      assert k == |s| || s[k] == rest[0];
      SkipDigitRun(s, j, k);
    }
    ParseSteps(s, i, j, k, lo, hi);
  }
}
