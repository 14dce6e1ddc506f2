/**
  The handful of Python `str` operations the modelled code relies on:
  `isspace`, `strip`, `lstrip(chars)`, `lower`, `split()` on whitespace,
  `isdigit` and `str(int)`.
*/
module Text {

  /** Python's `str.isspace` for one character (the Unicode White_Space set Python uses). */
  predicate IsSpace(c: char)
  {
    var k := c as int;
    (0x09 <= k <= 0x0D) || (0x1C <= k <= 0x20) || k == 0x85 || k == 0xA0 || k == 0x1680
    || (0x2000 <= k <= 0x200A) || k == 0x2028 || k == 0x2029 || k == 0x202F || k == 0x205F
    || k == 0x3000
  }

  predicate NoSpace(s: string)
  {
    forall i :: 0 <= i < |s| ==> !IsSpace(s[i])
  }

  predicate AllSpace(s: string)
  {
    forall i :: 0 <= i < |s| ==> IsSpace(s[i])
  }

  /** `s` has no whitespace at either end. */
  predicate IsStripped(s: string)
  {
    s == [] || (!IsSpace(s[0]) && !IsSpace(s[|s| - 1]))
  }

  /** Python's `s.lstrip()`. */
  function LStrip(s: string): (r: string)
    ensures |r| <= |s| && r == s[|s| - |r|..]
    ensures AllSpace(s[..|s| - |r|])
    ensures r == [] || !IsSpace(r[0])
  {
    if s != [] && IsSpace(s[0]) then
      var r := LStrip(s[1..]);
      DropSpace(s, r);
      r
    else s
  }

  /** A suffix of `s[1..]` after spaces is a suffix of `s` after spaces when `s[0]` is one too. */
  lemma DropSpace(s: string, r: string)
    requires s != [] && IsSpace(s[0])
    requires |r| <= |s| - 1 && r == s[1..][|s| - 1 - |r|..] && AllSpace(s[1..][..|s| - 1 - |r|])
    ensures r == s[|s| - |r|..] && AllSpace(s[..|s| - |r|])
  {
    var t, k := s[1..], |s| - |r|;
    assert t[|t| - |r|..] == s[k..];
    forall i | 0 <= i < k ensures IsSpace(s[i]) {
      if i > 0 {
        assert s[i] == t[..|t| - |r|][i - 1];
      }
    }
  }

  /** Python's `s.rstrip()`. */
  function RStrip(s: string): (r: string)
    ensures |r| <= |s| && r == s[..|r|]
    ensures AllSpace(s[|r|..])
    ensures r == [] || !IsSpace(r[|r| - 1])
  {
    if s != [] && IsSpace(s[|s| - 1]) then
      var r := RStrip(s[..|s| - 1]);
      assert s[|r|..] == s[..|s| - 1][|r|..] + [s[|s| - 1]];
      r
    else s
  }

  /** Python's `s.strip()`. */
  function Strip(s: string): (r: string)
    ensures IsStripped(r)
  {
    var l := LStrip(s);
    var r := RStrip(l);
    assert r != [] ==> r[0] == l[0];
    r
  }

  /**
    `strip` removes exactly the whitespace at both ends: `s` is the result with
    whitespace before it (as much as `lstrip` removes) and after it.
  */
  lemma StripShape(s: string) returns (i: nat, j: nat)
    ensures i <= j <= |s| && Strip(s) == s[i..j] && AllSpace(s[..i]) && AllSpace(s[j..])
  {
    var l := LStrip(s);
    var r := RStrip(l);
    assert |l| <= |s| && l == s[|s| - |l|..] && AllSpace(s[..|s| - |l|]);
    assert |r| <= |l| && r == l[..|r|] && AllSpace(l[|r|..]);
    PaddedSlice(s, l, r);
    i, j := |s| - |l|, |s| - |l| + |r|;
    assert r == s[i..j] && AllSpace(s[..i]) && AllSpace(s[j..]);
    assert Strip(s) == r;
  }

  /** A part `r` of `s` with whitespace stripped from both sides is the slice between the padding. */
  lemma PaddedSlice(s: string, l: string, r: string)
    requires |l| <= |s| && l == s[|s| - |l|..] && AllSpace(s[..|s| - |l|])
    requires |r| <= |l| && r == l[..|r|] && AllSpace(l[|r|..])
    ensures var i := |s| - |l|; var j := i + |r|;
      j <= |s| && r == s[i..j] && AllSpace(s[..i]) && AllSpace(s[j..])
  {
    var i := |s| - |l|;
    assert l[|r|..] == s[i + |r|..];
  }

  /** Python's `s.lstrip(c)` for a single character `c`. */
  function LStripChar(s: string, c: char): (r: string)
    ensures |r| <= |s| && r == s[|s| - |r|..]
    ensures forall i :: 0 <= i < |s| - |r| ==> s[i] == c
    ensures r == [] || r[0] != c
  {
    if s != [] && s[0] == c then LStripChar(s[1..], c) else s
  }

  /** Python's `str.lower` on ASCII letters; other characters are kept. */
  function LowerChar(c: char): char
  {
    if 'A' <= c <= 'Z' then (c as int + 32) as char else c
  }

  function Lower(s: string): (r: string)
    ensures |r| == |s|
    ensures forall i :: 0 <= i < |s| ==> r[i] == LowerChar(s[i])
  {
    seq(|s|, i requires 0 <= i < |s| => LowerChar(s[i]))
  }

  /** Length of the leading run of non-whitespace characters. */
  function TokenLength(s: string): (n: nat)
    ensures n <= |s| && NoSpace(s[..n])
    ensures n < |s| ==> IsSpace(s[n])
  {
    if s == [] || IsSpace(s[0]) then 0 else 1 + TokenLength(s[1..])
  }

  /** Python's `s.split()`: the maximal runs of non-whitespace characters, in order. */
  function Words(s: string): (ws: seq<string>)
    ensures forall k :: 0 <= k < |ws| ==> ws[k] != [] && NoSpace(ws[k])
    decreases |s|
  {
    if s == [] then []
    else if IsSpace(s[0]) then Words(s[1..])
    else
      var n := TokenLength(s);
      [s[..n]] + Words(s[n..])
  }

  /** A word followed by whitespace (or nothing) is split off whole. */
  lemma {:induction false} WordsCons(w: string, rest: string)
    requires w != [] && NoSpace(w)
    requires rest == [] || IsSpace(rest[0])
    ensures Words(w + rest) == [w] + Words(rest)
  {
    TokenLengthOf(w, rest);
    assert (w + rest)[..|w|] == w;
    assert (w + rest)[|w|..] == rest;
  }

  lemma {:induction false} TokenLengthOf(w: string, rest: string)
    requires NoSpace(w)
    requires rest == [] || IsSpace(rest[0])
    ensures TokenLength(w + rest) == |w|
    decreases |w|
  {
    if w != [] {
      assert (w + rest)[1..] == w[1..] + rest;
      TokenLengthOf(w[1..], rest);
    } else {
      assert w + rest == rest;
    }
  }

  /** Leading whitespace does not change the words. */
  lemma {:induction false} WordsSkipSpace(sp: string, s: string)
    requires AllSpace(sp)
    ensures Words(sp + s) == Words(s)
    decreases |sp|
  {
    if sp != [] {
      assert (sp + s)[1..] == sp[1..] + s;
      WordsSkipSpace(sp[1..], s);
    } else {
      assert sp + s == s;
    }
  }

  predicate IsDigit(c: char)
  {
    '0' <= c <= '9'
  }

  /** Python's `s.isdigit()` on ASCII digits (false for the empty string). */
  predicate IsDigits(s: string)
  {
    |s| > 0 && forall i :: 0 <= i < |s| ==> IsDigit(s[i])
  }

  function DigitChar(d: nat): (c: char)
    requires d < 10
    ensures IsDigit(c)
  {
    ('0' as int + d) as char
  }

  function DigitValue(c: char): nat
    requires IsDigit(c)
  {
    c as int - '0' as int
  }

  function Pow10(k: nat): (p: nat)
    ensures p >= 1
  {
    if k == 0 then 1 else 10 * Pow10(k - 1)
  }

  /** Python's `str(n)` for a non-negative integer. */
  function NatToString(n: nat): (s: string)
    ensures IsDigits(s)
    ensures n > 0 ==> s[0] != '0'
  {
    if n < 10 then [DigitChar(n)] else NatToString(n / 10) + [DigitChar(n % 10)]
  }

  /** Python's `str(i)` for any integer. */
  function IntToString(i: int): string
  {
    if i < 0 then "-" + NatToString(-i) else NatToString(i)
  }

  /** The number a string of decimal digits denotes (Python's `int(s)` on it). */
  function DigitsValue(s: string): nat
    requires forall i :: 0 <= i < |s| ==> IsDigit(s[i])
  {
    if s == [] then 0 else 10 * DigitsValue(s[..|s| - 1]) + DigitValue(s[|s| - 1])
  }

  /** Reading back what `str(n)` wrote gives `n`. */
  lemma {:induction false} DecimalRoundTrip(n: nat)
    ensures DigitsValue(NatToString(n)) == n
  {
    if n >= 10 {
      var s := NatToString(n);
      assert s[..|s| - 1] == NatToString(n / 10);
      DecimalRoundTrip(n / 10);
    }
  }

  /** A string of `k` digits denotes a number below `10^k`. */
  lemma {:induction false} DigitsValueBound(s: string)
    requires forall i :: 0 <= i < |s| ==> IsDigit(s[i])
    ensures DigitsValue(s) < Pow10(|s|)
  {
    if s != [] {
      DigitsValueBound(s[..|s| - 1]);
    }
  }

  /** The leading digit of a digit string carries weight `10^(k-1)`. */
  lemma {:induction false} DigitsValueFront(s: string)
    requires IsDigits(s)
    ensures DigitsValue(s) == DigitValue(s[0]) * Pow10(|s| - 1) + DigitsValue(s[1..])
  {
    if |s| == 1 {
      assert s[..0] == [] && s[1..] == [];
    } else {
      var t, u, d := s[..|s| - 1], s[1..], s[|s| - 1];
      assert t[0] == s[0] && IsDigits(t) && IsDigits(u);
      DigitsValueFront(t);
      assert t[1..] == u[..|u| - 1] && u[|u| - 1] == d;
      assert DigitsValue(s) == 10 * DigitsValue(t) + DigitValue(d);
      assert DigitsValue(u) == 10 * DigitsValue(t[1..]) + DigitValue(d);
      assert Pow10(|s| - 1) == 10 * Pow10(|t| - 1);
      ShiftStep(DigitValue(s[0]), Pow10(|t| - 1), DigitsValue(t[1..]), DigitValue(d));
    }
  }

  /** Distinct integers have distinct decimal strings. */
  lemma IntToStringInjective(a: int, b: int)
    requires IntToString(a) == IntToString(b)
    ensures a == b
  {
    IntStringValue(a);
    IntStringValue(b);
  }

  /** What `str(i)` reads back as: a `-` exactly for a negative number, then the digits of its magnitude. */
  lemma IntStringValue(i: int)
    ensures var s := IntToString(i);
      && s != [] && (s[0] == '-' <==> i < 0)
      && (i < 0 ==> IsDigits(s[1..]) && DigitsValue(s[1..]) == -i)
      && (i >= 0 ==> IsDigits(s) && DigitsValue(s) == i)
  {
    LeadingMinus(i);
    if i < 0 {
      var n := NatToString(-i);
      assert IntToString(i)[1..] == n by { assert ("-" + n)[1..] == n; }
      DecimalRoundTrip(-i);
    } else {
      DecimalRoundTrip(i);
    }
  }

  /** A decimal string starts with `-` exactly when the number is negative. */
  lemma LeadingMinus(i: int)
    ensures IntToString(i) != [] && (IntToString(i)[0] == '-' <==> i < 0)
  {
    var n := NatToString(if i < 0 then -i else i);
    assert IsDigits(n) && IsDigit(n[0]);
  }

  /** Digits written after `a` shift its value by their count. */
  lemma {:induction false} DigitsValueConcat(a: string, b: string)
    requires forall i :: 0 <= i < |a| ==> IsDigit(a[i])
    requires forall i :: 0 <= i < |b| ==> IsDigit(b[i])
    ensures forall i :: 0 <= i < |a + b| ==> IsDigit((a + b)[i])
    ensures DigitsValue(a + b) == DigitsValue(a) * Pow10(|b|) + DigitsValue(b)
  {
    if b == [] {
      assert a + b == a;
    } else {
      var b' := b[..|b| - 1];
      var c := b[|b| - 1];
      assert (a + b)[..|a + b| - 1] == a + b';
      assert (a + b)[|a + b| - 1] == c;
      DigitsValueConcat(a, b');
      ShiftStep(DigitsValue(a), Pow10(|b'|), DigitsValue(b'), DigitValue(c));
    }
  }

  lemma ShiftStep(x: nat, p: nat, y: nat, d: nat)
    ensures 10 * (x * p + y) + d == x * (10 * p) + (10 * y + d)
  {
  }
}
