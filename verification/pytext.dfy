/**
 * The Python string built-ins that both tools rely on: `str.isspace`,
 * `str.strip`, `"".join`, `sep.join` and `str(int)`, over Dafny strings
 * (sequences of Unicode scalar values).
 */
module PyText {

  /** `c.isspace()` in Python 3: the characters of Unicode category Zs and of
      bidirectional class WS, B or S. */
  predicate IsSpace(c: char) {
    var n := c as int;
    (9 <= n <= 13) || (28 <= n <= 32) || n == 0x85 || n == 0xA0 || n == 0x1680
    || (0x2000 <= n <= 0x200A) || n == 0x2028 || n == 0x2029 || n == 0x202F
    || n == 0x205F || n == 0x3000
  }

  /** The end of the run of white space that starts at `i`: the index of the
      first non-space at or after `i`, or `|s|`. */
  function SpaceRunEnd(s: string, i: nat): (n: nat)
    requires i <= |s|
    ensures i <= n <= |s|
    ensures forall k :: i <= k < n ==> IsSpace(s[k])
    ensures n < |s| ==> !IsSpace(s[n])
    decreases |s| - i
  {
    if i < |s| && IsSpace(s[i]) then SpaceRunEnd(s, i + 1) else i
  }

  /** The start of the run of white space that ends at `j`: the index just
      after the last non-space before `j`, or 0. */
  function SpaceRunStart(s: string, j: nat): (n: nat)
    requires j <= |s|
    ensures n <= j
    ensures forall k :: n <= k < j ==> IsSpace(s[k])
    ensures n > 0 ==> !IsSpace(s[n - 1])
    decreases j
  {
    if j > 0 && IsSpace(s[j - 1]) then SpaceRunStart(s, j - 1) else j
  }

  /** `s.lstrip()`: drops the leading run of white space and nothing else. */
  function LStrip(s: string): (r: string)
    ensures |r| <= |s| && r == s[|s| - |r|..]
    ensures forall k :: 0 <= k < |s| - |r| ==> IsSpace(s[k])
    ensures r == [] || !IsSpace(r[0])
  {
    s[SpaceRunEnd(s, 0)..]
  }

  /** `s.rstrip()`: drops the trailing run of white space and nothing else. */
  function RStrip(s: string): (r: string)
    ensures |r| <= |s| && r == s[..|r|]
    ensures forall k :: |r| <= k < |s| ==> IsSpace(s[k])
    ensures r == [] || !IsSpace(r[|r| - 1])
  {
    s[..SpaceRunStart(s, |s|)]
  }

  /** `s.strip()`: white space removed at both ends. */
  function Strip(s: string): (r: string)
    ensures r == [] || (!IsSpace(r[0]) && !IsSpace(r[|r| - 1]))
  {
    RStrip(LStrip(s))
  }

  /** `strip` keeps an infix of its argument and removes only white space
      around it. */
  lemma StripInfix(s: string)
    ensures var r, lead := Strip(s), SpaceRunEnd(s, 0);
            && lead + |r| <= |s| && r == s[lead..lead + |r|]
            && (forall k :: 0 <= k < lead ==> IsSpace(s[k]))
            && (forall k :: lead + |r| <= k < |s| ==> IsSpace(s[k]))
  {
    var lead := SpaceRunEnd(s, 0);
    var l := s[lead..];
    var m := SpaceRunStart(l, |l|);
    assert Strip(s) == l[..m] == s[lead..lead + m];
    forall k | lead + m <= k < |s|
      ensures IsSpace(s[k])
    {
      assert s[k] == l[k - lead];
    }
  }

  /** A string that starts with a non-space is left alone by `lstrip`. */
  lemma LStripNonSpace(s: string)
    requires |s| > 0 && !IsSpace(s[0])
    ensures LStrip(s) == s
  {
  }

  /** A string with a non-space at each end is left alone by `strip`. */
  lemma StripNonSpace(s: string)
    requires |s| > 0 && !IsSpace(s[0]) && !IsSpace(s[|s| - 1])
    ensures Strip(s) == s
  {
    LStripNonSpace(s);
    assert SpaceRunStart(s, |s|) == |s|;
  }

  /** Scanning back over the white space at the end of `a + b`, where `a`
      ends in a non-space, never enters `a`. */
  lemma {:induction false} SpaceRunStartAppend(a: string, b: string, j: nat)
    requires |a| > 0 && !IsSpace(a[|a| - 1]) && j <= |b|
    ensures SpaceRunStart(a + b, |a| + j) == |a| + SpaceRunStart(b, j)
    decreases j
  {
    if j > 0 {
      assert (a + b)[|a| + j - 1] == b[j - 1];
      if IsSpace(b[j - 1]) {
        SpaceRunStartAppend(a, b, j - 1);
      }
    } else {
      assert (a + b)[|a| - 1] == a[|a| - 1];
    }
  }

  /** `rstrip` of `a + b`, where `a` ends in a non-space, keeps all of `a`. */
  lemma RStripAppend(a: string, b: string)
    requires |a| > 0 && !IsSpace(a[|a| - 1])
    ensures RStrip(a + b) == a + RStrip(b)
  {
    SpaceRunStartAppend(a, b, |b|);
    assert (a + b)[..|a| + SpaceRunStart(b, |b|)] == a + b[..SpaceRunStart(b, |b|)];
  }

  /** `"".join(parts)`. */
  function Concat(parts: seq<string>): (r: string)
    decreases |parts|
  {
    if parts == [] then "" else parts[0] + Concat(parts[1..])
  }

  /** Joining is a homomorphism from list concatenation to string concatenation. */
  lemma {:induction false} ConcatAppend(a: seq<string>, b: seq<string>)
    ensures Concat(a + b) == Concat(a) + Concat(b)
    decreases |a|
  {
    if a == [] {
      assert a + b == b;
    } else {
      assert (a + b)[1..] == a[1..] + b;
      ConcatAppend(a[1..], b);
    }
  }

  /** `sep.join(items)`. */
  function JoinWith(sep: string, items: seq<string>): (r: string)
    decreases |items|
  {
    if |items| == 0 then ""
    else if |items| == 1 then items[0]
    else items[0] + sep + JoinWith(sep, items[1..])
  }

  /** Appending an item to a non-empty list appends the separator and the item. */
  lemma {:induction false} JoinWithSnoc(sep: string, items: seq<string>, x: string)
    requires |items| > 0
    ensures JoinWith(sep, items + [x]) == JoinWith(sep, items) + sep + x
    decreases |items|
  {
    if |items| == 1 {
      assert items + [x] == [items[0], x];
      assert [items[0], x][1..] == [x];
    } else {
      assert (items + [x])[1..] == items[1..] + [x];
      JoinWithSnoc(sep, items[1..], x);
    }
  }

  predicate IsDigit(c: char) {
    '0' <= c <= '9'
  }

  /** The character of a decimal digit. */
  function DigitChar(d: nat): (c: char)
    requires d < 10
    ensures IsDigit(c) && (c as int) - ('0' as int) == d
  {
    (('0' as int) + d) as char
  }

  function DigitValue(c: char): nat
    requires IsDigit(c)
  {
    (c as int) - ('0' as int)
  }

  /** The value of a string of decimal digits, most significant first. */
  function DigitsValue(s: string): nat
    requires forall k :: 0 <= k < |s| ==> IsDigit(s[k])
    decreases |s|
  {
    if s == [] then 0
    else DigitsValue(s[..|s| - 1]) * 10 + DigitValue(s[|s| - 1])
  }

  /** `str(n)` for a natural number: decimal digits without leading zeros, and
      reading them back gives `n`. */
  function NatToStr(n: nat): (r: string)
    ensures |r| > 0 && (forall k :: 0 <= k < |r| ==> IsDigit(r[k]))
    ensures r[0] == '0' ==> n == 0 && r == "0"
    ensures DigitsValue(r) == n
    decreases n
  {
    if n < 10 then [DigitChar(n)]
    else
      var r := NatToStr(n / 10) + [DigitChar(n % 10)];
      assert r[..|r| - 1] == NatToStr(n / 10);
      r
  }

  /** `str(n)` for a Python `int`: a minus sign before the digits of `-n` when
      `n` is negative. */
  function IntToStr(n: int): (r: string)
    ensures |r| > 0
    ensures r[0] == '-' <==> n < 0
    ensures var d := if n < 0 then 1 else 0;
            && d < |r| && (forall k :: d <= k < |r| ==> IsDigit(r[k]))
            && (r[d] == '0' ==> n == 0 && |r| == 1)
            && DigitsValue(r[d..]) == (if n < 0 then -n else n)
  {
    if n < 0 then
      var r := "-" + NatToStr(-n);
      assert r[1..] == NatToStr(-n);
      r
    else NatToStr(n)
  }

  /** Different integers print differently. */
  lemma IntToStrInjective(a: int, b: int)
    requires IntToStr(a) == IntToStr(b)
    ensures a == b
  {
    if a < 0 {
      assert b < 0;
      assert NatToStr(-a) == IntToStr(a)[1..] == IntToStr(b)[1..] == NatToStr(-b);
    } else {
      assert b >= 0;
      assert NatToStr(a) == NatToStr(b);
    }
  }
}
