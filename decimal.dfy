/**
 * Decimal text of natural numbers: Python's `str(n)` and `int(s)` on strings of
 * ASCII digits, and fixed-width zero padding as `strftime` and `isoformat` print it.
 */
module Decimal {

  /** An ASCII decimal digit (what `\d` matches in the modelled patterns). */
  predicate IsDigit(c: char) {
    '0' <= c <= '9'
  }

  predicate AllDigits(s: string) {
    forall i :: 0 <= i < |s| ==> IsDigit(s[i])
  }

  /** What `\d+` matches in full: one or more digits. */
  predicate IsNumber(t: string) {
    |t| >= 1 && AllDigits(t)
  }

  /** The length of the longest run of digits at the front of `s` (what a greedy `\d+` takes). */
  function LeadingDigits(s: string): (k: nat)
    ensures k <= |s| && forall i :: 0 <= i < k ==> IsDigit(s[i])
    ensures k < |s| ==> !IsDigit(s[k])
  {
    if s == [] || !IsDigit(s[0]) then 0 else 1 + LeadingDigits(s[1..])
  }

  /** A run of digits followed by a non-digit (or nothing) is the whole leading run. */
  lemma LeadingDigitsOf(p: string, r: string)
    requires AllDigits(p) && (r == [] || !IsDigit(r[0]))
    ensures LeadingDigits(p + r) == |p|
  {
    var s := p + r;
    assert forall i :: 0 <= i < |p| ==> s[i] == p[i];
    assert r != [] ==> s[|p|] == r[0];
  }

  function DigitChar(n: nat): (c: char)
    requires n < 10
    ensures IsDigit(c)
  {
    ('0' as int + n) as char
  }

  function DigitValue(c: char): (n: nat)
    requires IsDigit(c)
    ensures n < 10 && DigitChar(n) == c
  {
    c as int - '0' as int
  }

  /** `str(n)`: the decimal digits of `n`, without leading zeros. */
  function ToDecimal(n: nat): (s: string)
    ensures |s| >= 1 && AllDigits(s)
    ensures s[0] == '0' <==> n == 0
    decreases n
  {
    if n < 10 then [DigitChar(n)] else ToDecimal(n / 10) + [DigitChar(n % 10)]
  }

  /** `int(s)` for a string of ASCII digits. */
  function ParseDigits(s: string): nat
    requires AllDigits(s)
    decreases |s|
  {
    if s == [] then 0 else ParseDigits(s[..|s| - 1]) * 10 + DigitValue(s[|s| - 1])
  }

  /** Reading the decimal text of `n` back gives `n` (`int(str(n)) == n`). */
  lemma {:induction false} ParseToDecimal(n: nat)
    ensures ParseDigits(ToDecimal(n)) == n
    decreases n
  {
    if n >= 10 {
      var s := ToDecimal(n);
      assert s[..|s| - 1] == ToDecimal(n / 10);
      ParseToDecimal(n / 10);
    }
  }

  /** Distinct numbers have distinct decimal texts. */
  lemma ToDecimalInjective(a: nat, b: nat)
    ensures ToDecimal(a) == ToDecimal(b) ==> a == b
  {
    ParseToDecimal(a);
    ParseToDecimal(b);
  }

  function Pow10(w: nat): (p: nat)
    ensures p >= 1
  {
    if w == 0 then 1 else 10 * Pow10(w - 1)
  }

  /** `n` printed in exactly `w` digits with leading zeros (`'%0*d' % (w, n)` when n < 10^w). */
  function Pad(n: nat, w: nat): (s: string)
    ensures |s| == w && AllDigits(s)
  {
    if w == 0 then [] else Pad(n / 10, w - 1) + [DigitChar(n % 10)]
  }

  /** Zero padding keeps the value of every number that fits the width. */
  lemma {:induction false} PadValue(n: nat, w: nat)
    requires n < Pow10(w)
    ensures ParseDigits(Pad(n, w)) == n
    decreases w
  {
    if w > 0 {
      var s := Pad(n, w);
      assert s[..|s| - 1] == Pad(n / 10, w - 1);
      PadValue(n / 10, w - 1);
    }
  }

  /** `s[-2:]`: the last two characters, or all of `s` when it is shorter. */
  function LastTwo(s: string): (r: string)
    ensures |r| == if |s| < 2 then |s| else 2
  {
    if |s| < 2 then s else s[|s| - 2..]
  }

  /** The last two characters of `n`'s decimal text after a prepended zero (`('0' + str(n))[-2:]`). */
  function TwoDigits(n: nat): string {
    LastTwo("0" + ToDecimal(n))
  }

  /** For every number below 100 the two-digit text is its zero padding to width 2. */
  lemma TwoDigitsIsPad(n: nat)
    requires n < 100
    ensures TwoDigits(n) == Pad(n, 2)
    ensures |TwoDigits(n)| == 2 && AllDigits(TwoDigits(n)) && ParseDigits(TwoDigits(n)) == n
  {
    assert Pad(n, 2) == [DigitChar(n / 10), DigitChar(n % 10)];
    if n >= 10 {
      assert ToDecimal(n) == [DigitChar(n / 10), DigitChar(n % 10)];
    }
    PadValue(n, 2);
  }
}
