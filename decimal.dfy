/**
 * Decimal rendering of a natural number, as Rust's `Display` writes an
 * unsigned integer (`format!("{}", i)` for a `usize`): the digits of the
 * number, most significant first, with no sign and no leading zero except
 * for the number zero itself, which is written "0".
 *
 * The reading direction (Value, ParseNumeral) is an independent reference
 * definition; the lemmas at the end show that the two directions are
 * inverse, which is what makes every name built from an index injective.
 */
module Decimal {
  import opened Wrappers

  predicate IsDigit(c: char) {
    '0' <= c <= '9'
  }

  predicate AllDigits(s: string) {
    forall k :: 0 <= k < |s| ==> IsDigit(s[k])
  }

  /** A numeral in canonical form: non-empty, digits only, no leading zero unless it is "0". */
  predicate IsNumeral(s: string) {
    |s| >= 1 && AllDigits(s) && (s[0] == '0' ==> |s| == 1)
  }

  function DigitValue(c: char): (d: nat)
    requires IsDigit(c)
    ensures d < 10
  {
    (c as int) - ('0' as int)
  }

  function DigitChar(d: nat): (c: char)
    requires d < 10
    ensures IsDigit(c) && DigitValue(c) == d
  {
    (('0' as int) + d) as char
  }

  /** The text `format!("{}", n)` produces for an unsigned integer `n`. */
  function NatToString(n: nat): (s: string)
    ensures IsNumeral(s)
    ensures s[0] == '0' <==> n == 0
    decreases n
  {
    if n < 10 then [DigitChar(n)]
    else NatToString(n / 10) + [DigitChar(n % 10)]
  }

  /** The number a string of digits denotes (most significant digit first). */
  function Value(s: string): nat
    requires AllDigits(s)
    decreases |s|
  {
    if s == [] then 0
    else 10 * Value(s[..|s| - 1]) + DigitValue(s[|s| - 1])
  }

  /** Reads a canonical numeral back; anything else is refused. */
  function ParseNumeral(s: string): Option<nat> {
    if IsNumeral(s) then Some(Value(s)) else None
  }

  /** Reading the rendering of `n` gives `n` back. */
  lemma {:induction false} ValueOfNatToString(n: nat)
    ensures Value(NatToString(n)) == n
    decreases n
  {
    var s := NatToString(n);
    if n < 10 {
      assert s[..0] == [];
    } else {
      ValueOfNatToString(n / 10);
      assert s[..|s| - 1] == NatToString(n / 10);
    }
  }

  /** A numeral that does not start with '0' denotes a positive number. */
  lemma {:induction false} LeadingNonZeroIsPositive(s: string)
    requires IsNumeral(s) && s[0] != '0'
    ensures Value(s) >= 1
    decreases |s|
  {
    var p := s[..|s| - 1];
    if |s| == 1 {
      assert p == [];
    } else {
      assert p[0] == s[0];
      LeadingNonZeroIsPositive(p);
    }
  }

  /** Rendering the value of a canonical numeral gives the numeral back. */
  lemma {:induction false} NatToStringOfValue(s: string)
    requires IsNumeral(s)
    ensures NatToString(Value(s)) == s
    decreases |s|
  {
    var p, c := s[..|s| - 1], s[|s| - 1];
    if |s| == 1 {
      assert p == [];
      assert DigitChar(DigitValue(c)) == c;
      assert s == [c];
    } else {
      assert p[0] == s[0];
      LeadingNonZeroIsPositive(p);
      NatToStringOfValue(p);
      var v := Value(s);
      assert v == 10 * Value(p) + DigitValue(c);
      assert v / 10 == Value(p) && v % 10 == DigitValue(c);
      assert DigitChar(DigitValue(c)) == c;
      assert s == p + [c];
    }
  }

  /** ParseNumeral accepts exactly the renderings of natural numbers, and returns the number rendered. */
  lemma ParseNumeralIff(s: string, n: nat)
    ensures ParseNumeral(s) == Some(n) <==> s == NatToString(n)
  {
    if ParseNumeral(s) == Some(n) {
      NatToStringOfValue(s);
    }
    if s == NatToString(n) {
      ValueOfNatToString(n);
    }
  }

  /** Distinct numbers are rendered as distinct strings. */
  lemma NatToStringInjective(m: nat, n: nat)
    ensures NatToString(m) == NatToString(n) <==> m == n
  {
    ValueOfNatToString(m);
    ValueOfNatToString(n);
  }

}
