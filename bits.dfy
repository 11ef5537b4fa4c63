/**
 * Strings of binary digits, as the protocol handles them: every bit string in
 * the encoder is a Python `str` of the characters '0' and '1', read and
 * written most significant digit first.
 */
module Bits {

  predicate IsBit(c: char) {
    c == '0' || c == '1'
  }

  predicate IsBits(s: string) {
    forall i :: 0 <= i < |s| ==> IsBit(s[i])
  }

  function Pow2(n: nat): (r: nat)
    ensures r >= 1
  {
    if n == 0 then 1 else 2 * Pow2(n - 1)
  }

  lemma {:induction false} Pow2Monotone(a: nat, b: nat)
    requires a <= b
    ensures Pow2(a) <= Pow2(b)
  {
    if a < b {
      Pow2Monotone(a, b - 1);
    }
  }

  lemma Pow2Eight()
    ensures Pow2(8) == 256
  {
    assert Pow2(4) == 16;
  }

  function Digit(b: nat): char
    requires b < 2
  {
    if b == 0 then '0' else '1'
  }

  /** Python's `min` on two integers, as used by slice bounds that stop at the end of a string. */
  function Min(a: int, b: int): int {
    if a <= b then a else b
  }

  /** `int(s, 2)`: the number a string of binary digits denotes. */
  function Value(s: string): (r: nat)
    ensures r < Pow2(|s|)
  {
    if s == [] then 0
    else 2 * Value(s[..|s| - 1]) + (if s[|s| - 1] == '1' then 1 else 0)
  }

  /** The `w` lowest binary digits of `n`, most significant first. */
  function Fixed(n: nat, w: nat): (r: string)
    ensures |r| == w && IsBits(r)
  {
    if w == 0 then "" else Fixed(n / 2, w - 1) + [Digit(n % 2)]
  }

  /** The number of binary digits of `n` without leading zeros (0 for 0). */
  function BitLength(n: nat): (r: nat)
    ensures n < Pow2(r)
    ensures r > 0 ==> Pow2(r - 1) <= n
  {
    if n == 0 then 0 else 1 + BitLength(n / 2)
  }

  /** Without leading zeros, the first digit of a positive number is '1'. */
  lemma {:induction false} LeadingOne(n: nat)
    requires n > 0
    ensures BitLength(n) > 0 && Fixed(n, BitLength(n))[0] == '1'
  {
    if n / 2 > 0 {
      LeadingOne(n / 2);
      assert Fixed(n, BitLength(n)) == Fixed(n / 2, BitLength(n / 2)) + [Digit(n % 2)];
    }
  }

  /** Writing a number in `w` digits and reading it back gives the number, when it fits. */
  lemma {:induction false} ValueOfFixed(n: nat, w: nat)
    requires n < Pow2(w)
    ensures Value(Fixed(n, w)) == n
  {
    if w > 0 {
      ValueOfFixed(n / 2, w - 1);
      assert Fixed(n, w)[..w - 1] == Fixed(n / 2, w - 1);
    }
  }

  /** Reading a bit string and writing it back in as many digits gives the string. */
  lemma {:induction false} FixedOfValue(s: string)
    requires IsBits(s)
    ensures Fixed(Value(s), |s|) == s
  {
    if s != [] {
      var p := s[..|s| - 1];
      assert IsBits(p) by {
        forall i | 0 <= i < |p| ensures IsBit(p[i]) {
          assert p[i] == s[i];
        }
      }
      FixedOfValue(p);
      var v := Value(s);
      assert v / 2 == Value(p) && v % 2 == (if s[|s| - 1] == '1' then 1 else 0);
      assert Digit(v % 2) == s[|s| - 1];
    }
  }

  /** Every slice of a bit string is a bit string. */
  lemma SliceIsBits(s: string, a: nat, b: nat)
    requires IsBits(s) && a <= b <= |s|
    ensures IsBits(s[a..b])
  {
    forall i | 0 <= i < b - a ensures IsBit(s[a..b][i]) {
      assert s[a..b][i] == s[a + i];
    }
  }

  /** Two bit strings of one length that denote the same number are equal. */
  lemma ValueInjective(s: string, t: string)
    requires IsBits(s) && IsBits(t) && |s| == |t|
    requires Value(s) == Value(t)
    ensures s == t
  {
    FixedOfValue(s);
    FixedOfValue(t);
  }
}
