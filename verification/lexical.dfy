/**
 Character classes and decimal digit strings, as the parser's regular
 expressions and Python's `int()` see them.

 `\d` is taken to be the ASCII digits and `\w` the ASCII letters, digits and
 underscore; the Unicode extensions of both classes are not modelled.
 */
module Lexical {

  /** `\d` */
  predicate IsDigit(c: char) {
    '0' <= c <= '9'
  }

  predicate IsDigits(s: string) {
    forall i :: 0 <= i < |s| ==> IsDigit(s[i])
  }

  /** `\w` */
  predicate IsWordChar(c: char) {
    || 'a' <= c <= 'z'
    || 'A' <= c <= 'Z'
    || '0' <= c <= '9'
    || c == '_'
  }

  /** A non-empty run of `\w` characters, the text `\w+` matches. */
  predicate IsWord(s: string) {
    |s| > 0 && forall i :: 0 <= i < |s| ==> IsWordChar(s[i])
  }

  /** The length of the longest prefix of `t` whose characters all satisfy
      `p`: what a greedy `p+` or `p*` consumes before it backtracks. */
  function Run(t: string, p: char -> bool): (n: nat)
    ensures n <= |t|
    ensures forall j :: 0 <= j < n ==> p(t[j])
    ensures n < |t| ==> !p(t[n])
  {
    if |t| == 0 || !p(t[0]) then 0 else 1 + Run(t[1..], p)
  }

  function DigitValue(c: char): (v: nat)
    requires IsDigit(c)
    ensures v <= 9
  {
    c as int - '0' as int
  }

  function DigitChar(v: nat): (c: char)
    requires v <= 9
    ensures IsDigit(c) && DigitValue(c) == v
  {
    ('0' as int + v) as char
  }

  /** `int(s)` for a string of decimal digits, most significant first. */
  function NatOf(s: string): nat
    requires IsDigits(s)
  {
    if |s| == 0 then 0 else NatOf(s[..|s| - 1]) * 10 + DigitValue(s[|s| - 1])
  }

  lemma NatOfTwo(s: string)
    requires |s| == 2 && IsDigits(s)
    ensures NatOf(s) == 10 * DigitValue(s[0]) + DigitValue(s[1])
  {
    var t := s[..1];
    assert t[..0] == [] && t[0] == s[0];
    assert NatOf(t) == DigitValue(s[0]);
  }

  lemma NatOfFour(s: string)
    requires |s| == 4 && IsDigits(s)
    ensures NatOf(s) == 1000 * DigitValue(s[0]) + 100 * DigitValue(s[1]) + 10 * DigitValue(s[2]) + DigitValue(s[3])
  {
    var t := s[..3];
    assert t[..2] == s[..2] && t[2] == s[2];
    NatOfTwo(s[..2]);
  }

  /** `int()` of `k` digits is below `10**k`. */
  lemma {:induction false} NatOfBound(s: string)
    requires IsDigits(s)
    ensures NatOf(s) < Pow10(|s|)
  {
    if |s| > 0 {
      NatOfBound(s[..|s| - 1]);
    }
  }

  /** The `width`-digit zero-padded decimal text of `n`. */
  function Padded(n: nat, width: nat): (s: string)
    ensures |s| == width && IsDigits(s)
  {
    if width == 0 then [] else Padded(n / 10, width - 1) + [DigitChar(n % 10)]
  }

  function Pow10(k: nat): (p: nat)
    ensures p >= 1
  {
    if k == 0 then 1 else 10 * Pow10(k - 1)
  }

  /** `int()` undoes zero-padded formatting whenever the number fits the width. */
  lemma {:induction false} NatOfPadded(n: nat, width: nat)
    requires n < Pow10(width)
    ensures NatOf(Padded(n, width)) == n
  {
    if width > 0 {
      var s := Padded(n, width);
      assert s[..|s| - 1] == Padded(n / 10, width - 1);
      assert n / 10 < Pow10(width - 1);
      NatOfPadded(n / 10, width - 1);
    }
  }
}
