/** Positional numerals over a digit alphabet: the decimal octets of a dotted
    quad and the lowercase hexadecimal groups of an IPv6 address are the same
    notion with the alphabets "0123456789" and "0123456789abcdef". */
module Numerals {

  /** An octet of an address, as `u_char` holds it. */
  type Byte = x: int | 0 <= x < 256

  /** The digit tables of the printers (`digits`, `xdigits`). */
  const DecDigits: string := DigitRow(10)
  const HexDigits: string := DigitRow(16)

  /** The first `n` characters of "0123456789abcdef". */
  function DigitRow(n: nat): (r: string)
    requires n <= 16
  {
    seq(n, DigitChar)
  }

  function DigitChar(i: int): char {
    if 0 <= i < 10 then ('0' as int + i) as char
    else if 10 <= i < 16 then ('a' as int + i - 10) as char
    else '0'
  }

  /** The tables spelled out. */
  lemma {:induction false} DigitRowsSpelled()
    ensures DecDigits == "0123456789" && HexDigits == "0123456789abcdef"
  {
  }

  predicate Distinct(a: string) {
    forall i, j :: 0 <= i < j < |a| ==> a[i] != a[j]
  }

  /** A digit alphabet: its length is the base and digit `d` is `a[d]`. */
  predicate IsAlphabet(a: string) {
    |a| >= 2 && Distinct(a)
  }

  lemma {:induction false} DecimalTable()
    ensures IsAlphabet(DecDigits) && |DecDigits| == 10 && DecDigits[0] == '0'
  {
  }

  lemma {:induction false} HexTable()
    ensures IsAlphabet(HexDigits) && |HexDigits| == 16
  {
  }

  /** The shortest numeral for `n`: most significant digit first, no leading
      zero digit, and at least one digit (so zero is the single digit a[0]). */
  function Numeral(n: nat, a: string): string
    requires |a| >= 2
    decreases n
  {
    if n < |a| then [a[n]] else Numeral(n / |a|, a) + [a[n % |a|]]
  }

  /** The digit a character stands for (`strchr(digits, ch) - digits`). */
  function DigitOf(c: char, a: string): (d: nat)
    requires c in a
    ensures d < |a| && a[d] == c
    decreases |a|
  {
    if a[0] == c then 0 else 1 + DigitOf(c, a[1..])
  }

  predicate Over(s: string, a: string) {
    forall k :: 0 <= k < |s| ==> s[k] in a
  }

  /** The number a string of digits denotes. */
  function NumeralValue(s: string, a: string): nat
    requires Over(s, a)
    decreases |s|
  {
    if s == [] then 0 else NumeralValue(s[..|s| - 1], a) * |a| + DigitOf(s[|s| - 1], a)
  }

  /** Non-empty, all digits, and no leading zero digit unless it is the only one. */
  predicate Canonical(s: string, a: string) {
    |s| >= 1 && Over(s, a) && |a| >= 1 && (|s| > 1 ==> s[0] != a[0])
  }

  lemma {:induction false} DigitOfIndex(a: string, k: nat)
    requires Distinct(a) && k < |a|
    ensures DigitOf(a[k], a) == k
  {
  }

  lemma {:induction false} MulAtLeast(k: nat, b: nat)
    requires k >= 1
    ensures k * b >= b
    decreases k
  {
    if k > 1 {
      MulAtLeast(k - 1, b);
      assert k * b == (k - 1) * b + b;
    }
  }

  lemma {:induction false} DivMod(x: nat, b: nat, d: nat)
    requires d < b
    ensures (x * b + d) / b == x && (x * b + d) % b == d
  {
    var q, r := (x * b + d) / b, (x * b + d) % b;
    assert q * b + r == x * b + d;
    if q != x {
      var k: nat := if q > x then q - x else x - q;
      MulAtLeast(k, b);
      assert false;
    }
  }

  lemma {:induction false} MulGrows(q: nat, b: nat)
    requires b >= 2
    ensures q * b >= 2 * q
    decreases q
  {
    if q > 0 {
      MulGrows(q - 1, b);
      assert q * b == (q - 1) * b + b;
    }
  }

  lemma {:induction false} DivFacts(n: nat, b: nat)
    requires b >= 2
    ensures n == (n / b) * b + n % b && 0 <= n % b < b
    ensures n >= b ==> 1 <= n / b < n
  {
    var q, r := n / b, n % b;
    assert n == q * b + r;
    MulGrows(q, b);
  }

  /** Appending a digit multiplies by the base and adds the digit. */
  lemma {:induction false} NumeralValueSnoc(s: string, c: char, a: string)
    requires Over(s, a) && c in a
    ensures Over(s + [c], a)
    ensures NumeralValue(s + [c], a) == NumeralValue(s, a) * |a| + DigitOf(c, a)
  {
    assert (s + [c])[..|s|] == s;
  }

  lemma {:induction false} NumeralPrefix(n: nat, a: string)
    requires |a| >= 2 && n >= |a|
    ensures Numeral(n, a) == Numeral(n / |a|, a) + [a[n % |a|]]
    ensures |Numeral(n / |a|, a)| >= 1
  {
  }

  /** A number with a non-zero quotient prints as its quotient's numeral
      followed by the digit of its remainder. */
  lemma {:induction false} NumeralAppend(q: nat, r: nat, a: string)
    requires |a| >= 2 && r < |a| && q >= 1
    ensures Numeral(q * |a| + r, a) == Numeral(q, a) + [a[r]]
  {
    DivMod(q, |a|, r);
    MulAtLeast(q, |a|);
    NumeralPrefix(q * |a| + r, a);
  }

  lemma {:induction false} NumeralDigit(n: nat, a: string)
    requires IsAlphabet(a) && n < |a|
    ensures Numeral(n, a) == [a[n]] && Canonical([a[n]], a)
    ensures NumeralValue([a[n]], a) == n
  {
    DigitOfIndex(a, n);
    NumeralValueSnoc([], a[n], a);
    assert [] + [a[n]] == [a[n]];
  }

  /** Printing a number gives a canonical numeral that denotes it. */
  lemma {:induction false} NumeralCanonical(n: nat, a: string)
    requires IsAlphabet(a)
    ensures Canonical(Numeral(n, a), a)
    ensures NumeralValue(Numeral(n, a), a) == n
    decreases n
  {
    var b := |a|;
    if n < b {
      NumeralDigit(n, a);
    } else {
      var q, r := n / b, n % b;
      DivFacts(n, b);
      NumeralCanonical(q, a);
      NumeralPrefix(n, a);
      var p := Numeral(q, a);
      if |p| == 1 {
        NumeralDigit(q, a);
        assert p[0] == a[q] != a[0];
      }
      NumeralValueSnoc(p, a[r], a);
      DigitOfIndex(a, r);
    }
  }

  lemma {:induction false} LeadingDigitPositive(s: string, a: string)
    requires IsAlphabet(a) && |s| >= 1 && Over(s, a) && s[0] != a[0]
    ensures NumeralValue(s, a) >= 1
    decreases |s|
  {
    if |s| == 1 {
      assert s[..0] == [];
    } else {
      var p := s[..|s| - 1];
      LeadingDigitPositive(p, a);
      MulAtLeast(NumeralValue(p, a), |a|);
    }
  }

  /** A canonical numeral is the one printed for the number it denotes. */
  lemma {:induction false} CanonicalNumeral(s: string, a: string)
    requires IsAlphabet(a) && Canonical(s, a)
    ensures Numeral(NumeralValue(s, a), a) == s
    decreases |s|
  {
    var b := |a|;
    var v := NumeralValue(s, a);
    if |s| == 1 {
      assert s[..0] == [];
      assert NumeralValue(s[..0], a) == 0;
      assert v == DigitOf(s[0], a);
    } else {
      var p := s[..|s| - 1];
      var d := DigitOf(s[|s| - 1], a);
      CanonicalNumeral(p, a);
      LeadingDigitPositive(p, a);
      var w := NumeralValue(p, a);
      DivMod(w, b, d);
      MulAtLeast(w, b);
      assert v == w * b + d;
      NumeralPrefix(v, a);
      assert p + [s[|s| - 1]] == s;
    }
  }

  /** Two canonical numerals denote the same number only if they are equal. */
  lemma {:induction false} CanonicalInjective(s: string, t: string, a: string)
    requires IsAlphabet(a) && Canonical(s, a) && Canonical(t, a)
    requires NumeralValue(s, a) == NumeralValue(t, a)
    ensures s == t
  {
    CanonicalNumeral(s, a);
    CanonicalNumeral(t, a);
  }

  /** A numeral is free of any character outside its alphabet. */
  lemma {:induction false} NumeralAvoids(n: nat, a: string, c: char)
    requires IsAlphabet(a) && c !in a
    ensures forall k :: 0 <= k < |Numeral(n, a)| ==> Numeral(n, a)[k] != c
  {
    NumeralCanonical(n, a);
  }
}
