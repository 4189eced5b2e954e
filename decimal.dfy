/**
 * Decimal spelling of natural numbers, as JavaScript writes an array index
 * when it becomes a property key (`String(1) === '1'`), and the reverse
 * reading of a canonical array-index key (`arr['1']` is `arr[1]`, while
 * `arr['01']` is not an element).
 */
module Decimal {
  import opened Wrappers

  predicate IsDigit(c: char) {
    '0' <= c <= '9'
  }

  predicate AllDigits(s: string) {
    forall i :: 0 <= i < |s| ==> IsDigit(s[i])
  }

  function DigitChar(d: nat): (c: char)
    requires d < 10
    ensures IsDigit(c) && c as int == 48 + d
  {
    (48 + d) as char
  }

  function DigitValue(c: char): (d: nat)
    requires IsDigit(c)
    ensures d < 10
  {
    c as int - 48
  }

  /** `String(n)` for a natural number: no sign, no leading zero. */
  function NatToString(n: nat): (s: string)
    ensures |s| >= 1 && AllDigits(s)
    ensures s[0] == '0' ==> n == 0 && s == "0"
  {
    if n < 10 then [DigitChar(n)] else NatToString(n / 10) + [DigitChar(n % 10)]
  }

  /** The number a string of digits spells, most significant digit first. */
  function DigitsValue(s: string): nat
    requires AllDigits(s)
  {
    if s == [] then 0 else DigitsValue(s[..|s| - 1]) * 10 + DigitValue(s[|s| - 1])
  }

  /** A canonical array-index key: digits only, and no leading zero unless it is "0". */
  predicate IsIndexKey(s: string) {
    |s| >= 1 && AllDigits(s) && (s[0] == '0' ==> |s| == 1)
  }

  /** The array index a property key names, if it names one. */
  function ParseIndex(s: string): (r: Option<nat>)
    ensures r.Some? <==> IsIndexKey(s)
  {
    if IsIndexKey(s) then Some(DigitsValue(s)) else None
  }

  /** Reading back the spelling of `n` gives `n`. */
  lemma {:induction false} ParseNatToString(n: nat)
    ensures ParseIndex(NatToString(n)) == Some(n)
  {
    var s := NatToString(n);
    if n < 10 {
      assert s[..|s| - 1] == [];
      assert DigitValue(s[0]) == n;
      assert IsIndexKey(s);
      assert DigitsValue(s) == n;
    } else {
      ParseNatToString(n / 10);
      var t := NatToString(n / 10);
      assert s[..|s| - 1] == t;
      assert DigitsValue(t) == n / 10;
    }
  }

  /** A key that does not start with zero spells a positive number. */
  lemma {:induction false} LeadingDigitPositive(s: string)
    requires |s| >= 1 && AllDigits(s) && s[0] != '0'
    ensures DigitsValue(s) >= 1
  {
    if |s| > 1 {
      LeadingDigitPositive(s[..|s| - 1]);
    }
  }

  /** Every canonical index key is the spelling of the index it names. */
  lemma {:induction false} NatToStringParse(s: string)
    requires IsIndexKey(s)
    ensures NatToString(DigitsValue(s)) == s
  {
    if |s| > 1 {
      var t := s[..|s| - 1];
      assert IsIndexKey(t);
      LeadingDigitPositive(t);
      NatToStringParse(t);
      var n := DigitsValue(s);
      assert n / 10 == DigitsValue(t) && n % 10 == DigitValue(s[|s| - 1]);
      assert n >= 10;
      assert s == t + [s[|s| - 1]];
    }
  }

  /** Distinct indices have distinct keys. */
  lemma NatToStringInjective(m: nat, n: nat)
    ensures NatToString(m) == NatToString(n) ==> m == n
  {
    ParseNatToString(m);
    ParseNatToString(n);
  }
}
