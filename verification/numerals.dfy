/**
 * Digit strings and their values: Python's `int(s)` / `int(s, 16)` on the
 * characters they accept, and the text produced by `str(n)` and the `x`
 * format specifier (lower-case hex).
 */
module Numerals {

  /** The bases the program reads and writes. */
  predicate IsBase(base: nat) { base == 10 || base == 16 }

  /** Is `c` a digit of the given base (hex accepts both cases)? */
  predicate IsDigit(c: char, base: nat)
  {
    ('0' <= c <= '9') || (base == 16 && (('a' <= c <= 'f') || ('A' <= c <= 'F')))
  }

  predicate AllDigits(s: string, base: nat)
  {
    forall i :: 0 <= i < |s| ==> IsDigit(s[i], base)
  }

  function DigitValue(c: char): (d: nat)
    ensures d < 16
  {
    if '0' <= c <= '9' then c as nat - '0' as nat
    else if 'a' <= c <= 'f' then c as nat - 'a' as nat + 10
    else if 'A' <= c <= 'F' then c as nat - 'A' as nat + 10
    else 0
  }

  /** The value of a digit string, most significant digit first. */
  function NumeralValue(s: string, base: nat): nat
  {
    if s == [] then 0 else NumeralValue(s[..|s| - 1], base) * base + DigitValue(s[|s| - 1])
  }

  /** The lower-case character of a digit value. */
  function DigitChar(d: nat): (c: char)
    requires d < 16
    ensures IsDigit(c, 16) && DigitValue(c) == d
    ensures d < 10 ==> IsDigit(c, 10)
    ensures '0' <= c <= '9' || 'a' <= c <= 'f'
  {
    if d < 10 then ('0' as nat + d) as char else ('a' as nat + d - 10) as char
  }

  /** The shortest digit string of `n` in `base` ("0" for zero), as `str(n)` and `format(n, "x")` write it. */
  function Text(n: nat, base: nat): (s: string)
    requires IsBase(base)
    ensures |s| >= 1 && AllDigits(s, base)
    ensures forall i :: 0 <= i < |s| ==> '0' <= s[i] <= '9' || 'a' <= s[i] <= 'f'
    ensures (|s| == 1) == (n < base)
  {
    if n < base then [DigitChar(n)] else Text(n / base, base) + [DigitChar(n % base)]
  }

  function DecimalText(n: nat): (s: string)
    ensures |s| >= 1 && AllDigits(s, 10)
  {
    Text(n, 10)
  }

  /** Reading back what `Text` writes gives the number. */
  lemma {:induction false} TextRoundTrip(n: nat, base: nat)
    requires IsBase(base)
    ensures NumeralValue(Text(n, base), base) == n
  {
    if n < base {
      assert Text(n, base)[..0] == [];
    } else {
      TextRoundTrip(n / base, base);
      LastDigit(n, base);
    }
  }

  /** The text of n >= base is the text of n / base followed by the digit of n % base. */
  lemma LastDigit(n: nat, base: nat)
    requires IsBase(base) && n >= base
    ensures NumeralValue(Text(n, base), base) == NumeralValue(Text(n / base, base), base) * base + n % base
  {
    var s := Text(n, base);
    assert s[..|s| - 1] == Text(n / base, base) && s[|s| - 1] == DigitChar(n % base);
  }

  /** Text in the form `Text` writes: lower-case digits of the base, and no leading zero before another digit. */
  predicate Canonical(s: string, base: nat)
  {
    && |s| >= 1
    && (forall i :: 0 <= i < |s| ==> IsDigit(s[i], base) && ('0' <= s[i] <= '9' || 'a' <= s[i] <= 'f'))
    && (|s| > 1 ==> s[0] != '0')
  }

  /** `Text` writes no leading zero before another digit. */
  lemma {:induction false} TextLeadingDigit(n: nat, base: nat)
    requires IsBase(base) && n > 0
    ensures Text(n, base)[0] != '0'
  {
    if n >= base {
      assert n / base > 0 by {
        if base == 10 { assert n / 10 >= 1; } else { assert n / 16 >= 1; }
      }
      TextLeadingDigit(n / base, base);
      assert Text(n, base) == Text(n / base, base) + [DigitChar(n % base)];
    }
  }

  lemma TextCanonical(n: nat, base: nat)
    requires IsBase(base)
    ensures Canonical(Text(n, base), base)
  {
    if n >= base {
      TextLeadingDigit(n, base);
    }
  }

  /** A lower-case digit is the character `DigitChar` writes for its value. */
  lemma DigitCharOfValue(c: char, base: nat)
    requires IsBase(base) && IsDigit(c, base) && ('0' <= c <= '9' || 'a' <= c <= 'f')
    ensures DigitValue(c) < base && DigitChar(DigitValue(c)) == c
  {
  }

  /** Appending digit d to q in the given base: dividing and taking the remainder recover q and d. */
  lemma AppendDigit(q: nat, d: nat, base: nat)
    requires IsBase(base) && d < base
    ensures (q * base + d) / base == q && (q * base + d) % base == d
    ensures q > 0 ==> q * base + d >= base
  {
  }

  lemma CanonicalPrefix(s: string, base: nat)
    requires Canonical(s, base) && |s| > 1
    ensures Canonical(s[..|s| - 1], base)
  {
    assert s[..|s| - 1][0] == s[0];
  }

  /** One more lower-case digit after the text of a positive number is the text of the larger number. */
  lemma CanonicalExtend(p: string, c: char, base: nat)
    requires IsBase(base) && |p| >= 1 && p[0] != '0' && Text(NumeralValue(p, base), base) == p
    requires IsDigit(c, base) && ('0' <= c <= '9' || 'a' <= c <= 'f')
    ensures Text(NumeralValue(p + [c], base), base) == p + [c]
  {
    var q := NumeralValue(p, base);
    assert q > 0 by {
      assert Text(0, base)[0] == '0';
    }
    var d := DigitValue(c);
    assert d < base && DigitChar(d) == c by {
      DigitCharOfValue(c, base);
    }
    var m := q * base + d;
    assert NumeralValue(p + [c], base) == m by {
      assert (p + [c])[..|p|] == p;
    }
    assert m >= base && m / base == q && m % base == d by {
      AppendDigit(q, d, base);
    }
    assert Text(m, base) == Text(q, base) + [c];
  }

  /** Canonical text is the only text `Text` writes for its value. */
  lemma {:induction false} CanonicalIsText(s: string, base: nat)
    requires IsBase(base) && Canonical(s, base)
    ensures Text(NumeralValue(s, base), base) == s
  {
    if |s| == 1 {
      DigitCharOfValue(s[0], base);
      assert s[..0] == [];
    } else {
      var p := s[..|s| - 1];
      assert s == p + [s[|s| - 1]];
      CanonicalPrefix(s, base);
      CanonicalIsText(p, base);
      CanonicalExtend(p, s[|s| - 1], base);
    }
  }

  /** Leading zeros do not change the value. */
  lemma {:induction false} LeadingZero(s: string, base: nat)
    ensures NumeralValue(['0'] + s, base) == NumeralValue(s, base)
  {
    if s != [] {
      assert (['0'] + s)[..|s|] == ['0'] + s[..|s| - 1];
      LeadingZero(s[..|s| - 1], base);
    }
  }
}
