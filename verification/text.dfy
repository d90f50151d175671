/**
 * String operations of the Python runtime that the core relies on:
 * `sep.join(parts)`, `s.strip()`, `s.endswith(suffix)` and `str(n)` for an
 * integer. `SplitOn` cuts a string at every occurrence of a character; the
 * core never splits, and `SplitOn` is the reader against which the field
 * structure of a vector literal is stated. Strings are sequences of Unicode
 * code points.
 */
module Text {

  /** Every character of `s` is an ASCII decimal digit. */
  predicate AllDigits(s: string) {
    forall k :: 0 <= k < |s| ==> '0' <= s[k] <= '9'
  }

  /** Sum of the lengths of `parts`. */
  function TotalLength(parts: seq<string>): nat {
    if |parts| == 0 then 0 else |parts[0]| + TotalLength(parts[1..])
  }

  /**
   * Python's `sep.join(parts)`: the parts in order with `sep` between each
   * neighbouring pair, and the empty string for no parts.
   */
  function Join(sep: string, parts: seq<string>): (r: string)
    ensures |r| == TotalLength(parts) + (if |parts| == 0 then 0 else (|parts| - 1) * |sep|)
  {
    if |parts| == 0 then ""
    else if |parts| == 1 then parts[0]
    else parts[0] + sep + Join(sep, parts[1..])
  }

  /** Joining one more part appends the separator and that part. */
  lemma {:induction false} JoinSnoc(sep: string, parts: seq<string>, p: string)
    requires |parts| > 0
    ensures Join(sep, parts + [p]) == Join(sep, parts) + sep + p
  {
    var ps := parts + [p];
    assert ps[1..] == parts[1..] + [p];
    if |parts| > 1 {
      JoinSnoc(sep, parts[1..], p);
    }
  }

  /** Position at which part `i` starts inside `Join(sep, parts)`. */
  function Offset(sep: string, parts: seq<string>, i: nat): nat
    requires i < |parts|
  {
    if i == 0 then 0 else |parts[0]| + |sep| + Offset(sep, parts[1..], i - 1)
  }

  lemma SliceShift(x: string, y: string, a: nat, b: nat)
    requires a <= b <= |y|
    ensures (x + y)[|x| + a..|x| + b] == y[a..b]
  {
  }

  lemma PrefixOfConcat(x: string, y: string)
    ensures (x + y)[..|x|] == x && (x + y)[|x|..] == y
  {
  }

  /**
   * Part `i` of `Join(sep, parts)` sits there verbatim at `Offset(i)`, and the
   * last part ends the string.
   */
  lemma {:induction false} JoinPartAt(sep: string, parts: seq<string>, i: nat)
    requires i < |parts|
    ensures Offset(sep, parts, i) + |parts[i]| <= |Join(sep, parts)|
    ensures Join(sep, parts)[Offset(sep, parts, i)..Offset(sep, parts, i) + |parts[i]|] == parts[i]
    ensures i + 1 == |parts| ==> Offset(sep, parts, i) + |parts[i]| == |Join(sep, parts)|
  {
    if |parts| == 1 {
      assert Join(sep, parts) == parts[0];
    } else {
      var head := parts[0] + sep;
      var rest := Join(sep, parts[1..]);
      assert Join(sep, parts) == head + rest;
      if i == 0 {
        PrefixOfConcat(parts[0], sep + rest);
        assert head + rest == parts[0] + (sep + rest);
      } else {
        JoinPartAt(sep, parts[1..], i - 1);
        var a := Offset(sep, parts[1..], i - 1);
        assert Offset(sep, parts, i) == |head| + a;
        assert parts[1..][i - 1] == parts[i];
        SliceShift(head, rest, a, a + |parts[i]|);
      }
    }
  }

  /**
   * Between part `i` and part `i + 1` of `Join(sep, parts)` stands exactly one
   * separator.
   */
  lemma {:induction false} JoinSepAt(sep: string, parts: seq<string>, i: nat)
    requires i + 1 < |parts|
    ensures Offset(sep, parts, i + 1) == Offset(sep, parts, i) + |parts[i]| + |sep|
    ensures Offset(sep, parts, i + 1) <= |Join(sep, parts)|
    ensures Join(sep, parts)[Offset(sep, parts, i) + |parts[i]|..Offset(sep, parts, i + 1)] == sep
  {
    var head := parts[0] + sep;
    var rest := Join(sep, parts[1..]);
    assert Join(sep, parts) == head + rest;
    if i == 0 {
      assert Offset(sep, parts, 1) == |head| + Offset(sep, parts[1..], 0);
      SliceShift(parts[0], sep + rest, 0, |sep|);
      assert head + rest == parts[0] + (sep + rest);
      PrefixOfConcat(sep, rest);
    } else {
      JoinSepAt(sep, parts[1..], i - 1);
      var a := Offset(sep, parts[1..], i - 1);
      var b := Offset(sep, parts[1..], i);
      assert Offset(sep, parts, i) == |head| + a;
      assert Offset(sep, parts, i + 1) == |head| + b;
      assert parts[1..][i - 1] == parts[i];
      SliceShift(head, rest, a + |parts[i]|, b);
    }
  }

  /** The first position of `c` in `s`. */
  function FirstIndex(c: char, s: string): (k: nat)
    requires c in s
    ensures k < |s| && s[k] == c && c !in s[..k]
  {
    if s[0] == c then 0
    else
      assert c in s[1..] by { assert s == [s[0]] + s[1..]; }
      var k' := FirstIndex(c, s[1..]);
      assert s[..k' + 1] == [s[0]] + s[1..][..k'];
      k' + 1
  }

  /** Python's `s.split(c)` for a one-character separator. */
  function SplitOn(c: char, s: string): (r: seq<string>)
    ensures |r| >= 1
    ensures forall k :: 0 <= k < |r| ==> c !in r[k]
    decreases |s|
  {
    if c !in s then [s]
    else
      var k := FirstIndex(c, s);
      [s[..k]] + SplitOn(c, s[k + 1..])
  }

  /** Splitting a join on its separator gives the parts back, when no part contains it. */
  lemma {:induction false} SplitJoin(c: char, parts: seq<string>)
    requires |parts| >= 1
    requires forall k :: 0 <= k < |parts| ==> c !in parts[k]
    ensures SplitOn(c, Join([c], parts)) == parts
  {
    if |parts| > 1 {
      var rest := Join([c], parts[1..]);
      assert Join([c], parts) == parts[0] + [c] + rest;
      FirstIndexAfter(c, parts[0], rest);
      SplitJoin(c, parts[1..]);
      assert parts == [parts[0]] + parts[1..];
    }
  }

  /** In `p + [c] + q` with `c` absent from `p`, the first `c` is the one after `p`. */
  lemma FirstIndexAfter(c: char, p: string, q: string)
    requires c !in p
    ensures c in p + [c] + q
    ensures FirstIndex(c, p + [c] + q) == |p|
    ensures (p + [c] + q)[..|p|] == p && (p + [c] + q)[|p| + 1..] == q
  {
    var s := p + [c] + q;
    assert s[|p|] == c;
    var k := FirstIndex(c, s);
    assert s[..|p|] == p;
    assert k == |p|;
  }

  /** Joining the pieces of a split restores the string. */
  lemma {:induction false} JoinSplit(c: char, s: string)
    ensures Join([c], SplitOn(c, s)) == s
    decreases |s|
  {
    if c in s {
      var k := FirstIndex(c, s);
      var tail := SplitOn(c, s[k + 1..]);
      JoinSplit(c, s[k + 1..]);
      var pieces := [s[..k]] + tail;
      assert pieces[1..] == tail;
      assert Join([c], pieces) == s[..k] + [c] + Join([c], tail);
      assert s == s[..k] + [c] + s[k + 1..];
    }
  }

  /** Python's `s.endswith(suffix)`. */
  predicate EndsWith(s: string, suffix: string)
    ensures EndsWith(s, suffix) <==>
              |suffix| <= |s| && forall k :: 0 <= k < |suffix| ==> s[|s| - |suffix| + k] == suffix[k]
  {
    |suffix| <= |s| && s[|s| - |suffix|..] == suffix
  }

  /**
   * The characters Python's `str.isspace()` accepts, which are those `str.strip()`
   * with no argument removes.
   */
  predicate IsSpace(ch: char) {
    || '\t' <= ch <= '\r'
    || '\U{1C}' <= ch <= '\U{20}'
    || ch == '\U{85}' || ch == '\U{A0}' || ch == '\U{1680}'
    || '\U{2000}' <= ch <= '\U{200A}'
    || ch == '\U{2028}' || ch == '\U{2029}' || ch == '\U{202F}'
    || ch == '\U{205F}' || ch == '\U{3000}'
  }

  predicate AllSpace(s: string) {
    forall k :: 0 <= k < |s| ==> IsSpace(s[k])
  }

  /** The first position at or after `i` that does not hold whitespace, or `|s|`. */
  function SkipSpace(s: string, i: nat): (j: nat)
    requires i <= |s|
    ensures i <= j <= |s|
    ensures forall k :: i <= k < j ==> IsSpace(s[k])
    ensures j < |s| ==> !IsSpace(s[j])
    decreases |s| - i
  {
    if i < |s| && IsSpace(s[i]) then SkipSpace(s, i + 1) else i
  }

  /** The end of `s[lo..j]` once its trailing whitespace is dropped. */
  function SkipSpaceBack(s: string, lo: nat, j: nat): (e: nat)
    requires lo <= j <= |s|
    ensures lo <= e <= j
    ensures forall k :: e <= k < j ==> IsSpace(s[k])
    ensures lo < e ==> !IsSpace(s[e - 1])
    decreases j
  {
    if lo < j && IsSpace(s[j - 1]) then SkipSpaceBack(s, lo, j - 1) else j
  }

  /**
   * Python's `s.strip()`: the part of `s` left once whitespace is removed
   * from both ends. It is empty exactly when `s` is all whitespace, and
   * otherwise starts and ends with a non-whitespace character.
   */
  function Strip(s: string): (r: string)
    ensures exists i, j :: 0 <= i <= j <= |s| && r == s[i..j] && AllSpace(s[..i]) && AllSpace(s[j..])
    ensures r == "" <==> AllSpace(s)
    ensures r != "" ==> !IsSpace(r[0]) && !IsSpace(r[|r| - 1])
  {
    var i := SkipSpace(s, 0);
    var j := SkipSpaceBack(s, i, |s|);
    assert AllSpace(s[..i]) by {
      forall k | 0 <= k < i ensures IsSpace(s[..i][k]) { assert s[..i][k] == s[k]; }
    }
    assert AllSpace(s[j..]) by {
      forall k | 0 <= k < |s| - j ensures IsSpace(s[j..][k]) { assert s[j..][k] == s[j + k]; }
    }
    s[i..j]
  }

  /** A string that starts and ends with non-whitespace is unchanged by strip. */
  lemma StripTrimmed(s: string)
    requires s != "" ==> !IsSpace(s[0]) && !IsSpace(s[|s| - 1])
    ensures Strip(s) == s
  {
  }

  /** Stripping twice is stripping once. */
  lemma StripIdempotent(s: string)
    ensures Strip(Strip(s)) == Strip(s)
  {
    StripTrimmed(Strip(s));
  }

  function DigitChar(d: nat): (ch: char)
    requires d < 10
    ensures '0' <= ch <= '9'
    ensures ch as int - '0' as int == d
  {
    "0123456789"[d]
  }

  /** The number a string of decimal digits denotes, read most significant digit first. */
  function DigitsValue(s: string): int {
    if s == "" then 0
    else 10 * DigitsValue(s[..|s| - 1]) + (s[|s| - 1] as int - '0' as int)
  }

  /** Python's `str(n)` for a natural number: its decimal digits, most significant first. */
  function NatToString(n: nat): (r: string)
    ensures r != "" && AllDigits(r)
    ensures r[0] == '0' ==> n == 0
  {
    if n < 10 then [DigitChar(n)]
    else NatToString(n / 10) + [DigitChar(n % 10)]
  }

  /** The digits `NatToString` writes denote `n`. */
  lemma {:induction false} NatToStringDenotes(n: nat)
    ensures DigitsValue(NatToString(n)) == n
  {
    var r := NatToString(n);
    if n < 10 {
      assert r[..0] == "";
    } else {
      NatToStringDenotes(n / 10);
      assert r[..|r| - 1] == NatToString(n / 10);
    }
  }

  /** Python's `str(n)` for an integer: a minus sign for negative values, then the digits. */
  function IntToString(n: int): (r: string)
    ensures r != ""
    ensures n >= 0 ==> AllDigits(r)
    ensures n < 0 ==> |r| >= 2 && r[0] == '-' && AllDigits(r[1..])
  {
    if n < 0 then "-" + NatToString(-n) else NatToString(n)
  }

  /**
   * The rendering denotes `n`: the digits of `n` for a non-negative value, a
   * minus sign followed by the digits of `-n` otherwise.
   */
  lemma IntToStringDenotes(n: int)
    ensures n >= 0 ==> DigitsValue(IntToString(n)) == n
    ensures n < 0 ==> IntToString(n)[0] == '-' && DigitsValue(IntToString(n)[1..]) == -n
  {
    if n < 0 {
      NatToStringDenotes(-n);
      assert IntToString(n)[1..] == NatToString(-n);
    } else {
      NatToStringDenotes(n);
    }
  }
}
