/** Integer <-> text conversions the scripts use: `int(s, base)` on plain
    digit strings, and the digit strings of `bin()`, `hex()` and `str()`. */
module Numerals {
  import opened Wrappers

  function Pow(b: nat, k: nat): nat {
    if k == 0 then 1 else b * Pow(b, k - 1)
  }

  /** The value of a digit character as `int()` reads it (bases up to 36,
      letters in either case). */
  function DigitValue(c: char): (d: Option<nat>)
    ensures d.Some? ==> d.value < 36
  {
    if '0' <= c <= '9' then Some(c as int - '0' as int)
    else if 'a' <= c <= 'z' then Some(c as int - 'a' as int + 10)
    else if 'A' <= c <= 'Z' then Some(c as int - 'A' as int + 10)
    else None
  }

  predicate IsDigitIn(c: char, base: nat) {
    DigitValue(c).Some? && DigitValue(c).value < base
  }

  predicate AllDigits(s: string, base: nat) {
    forall i :: 0 <= i < |s| ==> IsDigitIn(s[i], base)
  }

  /** The number a digit string denotes, most significant digit first. */
  function ValueOf(s: string, base: nat): nat
    requires AllDigits(s, base)
  {
    if s == [] then 0
    else ValueOf(s[..|s| - 1], base) * base + DigitValue(s[|s| - 1]).value
  }

  /** `int(s, base)` for a string of digits only; anything else (the empty
      string included) is the `ValueError` case, `None`. */
  function ParseInt(s: string, base: nat): Option<nat> {
    if s != [] && AllDigits(s, base) then Some(ValueOf(s, base)) else None
  }

  /** The lower-case digit character of `d`. */
  function DigitChar(d: nat): char
    requires d < 36
  {
    if d < 10 then ('0' as int + d) as char else ('a' as int + d - 10) as char
  }

  /** The digits of `n` in `base` with no leading zero ("0" for zero), as
      `bin(n)[2:]`, `hex(n)[2:]` and `str(n)` print them. */
  function ToDigits(n: nat, base: nat): string
    requires 2 <= base <= 36
    decreases n
  {
    if n < base then [DigitChar(n)]
    else
      DivMod(n, base);
      ToDigits(n / base, base) + [DigitChar(n % base)]
  }

  /** Python's `hex(i)`. */
  function PyHex(i: int): string {
    if i < 0 then "-0x" + ToDigits(-i, 16) else "0x" + ToDigits(i, 16)
  }

  /** Python's `str(n)` for a natural number. */
  function Decimal(n: nat): string {
    ToDigits(n, 10)
  }

  function Zeros(k: nat): (z: string)
    ensures |z| == k && forall i :: 0 <= i < k ==> z[i] == '0'
  {
    if k == 0 then "" else "0" + Zeros(k - 1)
  }

  // ---------------------------------------------------------------------

  lemma DigitRoundTrip(d: nat)
    requires d < 36
    ensures DigitValue(DigitChar(d)) == Some(d)
  {
  }

  /** Printing a number and reading it back in the same base gives the
      number. */
  lemma {:induction false} ToDigitsRoundTrip(n: nat, base: nat)
    requires 2 <= base <= 36
    ensures AllDigits(ToDigits(n, base), base)
    ensures ValueOf(ToDigits(n, base), base) == n
    decreases n
  {
    var s := ToDigits(n, base);
    if n < base {
      DigitRoundTrip(n);
      assert s[..0] == [];
    } else {
      var q, r := n / base, n % base;
      DivMod(n, base);
      var t := ToDigits(q, base);
      ToDigitsRoundTrip(q, base);
      DigitRoundTrip(r);
      assert s == t + [DigitChar(r)];
      assert s[..|s| - 1] == t;
      assert ValueOf(s, base) == q * base + r;
      assert AllDigits(s, base) by {
        forall i | 0 <= i < |s| ensures IsDigitIn(s[i], base) {
          if i < |t| { assert s[i] == t[i]; }
        }
      }
    }
  }

  lemma ParseToDigits(n: nat, base: nat)
    requires 2 <= base <= 36
    ensures ParseInt(ToDigits(n, base), base) == Some(n)
  {
    ToDigitsRoundTrip(n, base);
  }

  /** The digits never start with a redundant zero. */
  lemma {:induction false} ToDigitsLeading(n: nat, base: nat)
    requires 2 <= base <= 36
    ensures |ToDigits(n, base)| >= 1
    ensures n > 0 ==> ToDigits(n, base)[0] != '0'
    decreases n
  {
    if n >= base {
      DivMod(n, base);
      ToDigitsLeading(n / base, base);
    }
  }

  lemma DivMod(n: nat, b: nat)
    requires b >= 2
    ensures n == n / b * b + n % b && n % b < b
    ensures n >= b ==> 0 < n / b < n
  {
    var q := n / b;
    if n >= b {
      assert q >= 1;
      assert q * b >= q * 2;
    }
  }

  lemma DivBound(n: nat, b: nat, p: nat)
    requires b >= 2
    ensures n / b < p <==> n < b * p
  {
    var q, r := n / b, n % b;
    assert n == b * q + r && r < b;
    if q < p {
      assert q + 1 <= p;
      assert b * (q + 1) <= b * p;
    } else {
      assert b * p <= b * q;
    }
  }

  /** `k` digits suffice exactly for the numbers below `base^k`. */
  lemma {:induction false} ToDigitsLength(n: nat, base: nat, k: nat)
    requires 2 <= base <= 36 && k >= 1
    ensures |ToDigits(n, base)| <= k <==> n < Pow(base, k)
    decreases n
  {
    PowAtLeastBase(base, k);
    if n >= base {
      DivMod(n, base);
      ToDigitsLeading(n / base, base);
      if k > 1 {
        ToDigitsLength(n / base, base, k - 1);
        DivBound(n, base, Pow(base, k - 1));
      }
    }
  }

  lemma {:induction false} PowAtLeastBase(b: nat, k: nat)
    requires b >= 2 && k >= 1
    ensures Pow(b, k) >= b
  {
    if k > 1 {
      PowAtLeastBase(b, k - 1);
      assert b * Pow(b, k - 1) >= b * 1;
    }
  }

  lemma {:induction false} ZerosValue(k: nat, base: nat)
    requires base >= 2
    ensures AllDigits(Zeros(k), base) && ValueOf(Zeros(k), base) == 0
  {
    if k > 0 {
      assert Zeros(k)[..k - 1] == Zeros(k - 1);
      ZerosValue(k - 1, base);
    }
  }

  /** Leading zeros do not change the value. */
  lemma {:induction false} LeadingZerosValue(k: nat, s: string, base: nat)
    requires base >= 2 && AllDigits(s, base)
    ensures AllDigits(Zeros(k) + s, base)
    ensures ValueOf(Zeros(k) + s, base) == ValueOf(s, base)
    decreases |s|
  {
    ZerosValue(k, base);
    var t := Zeros(k) + s;
    assert AllDigits(t, base) by {
      forall i | 0 <= i < |t| ensures IsDigitIn(t[i], base) {
        if i < k { assert t[i] == Zeros(k)[i]; } else { assert t[i] == s[i - k]; }
      }
    }
    if s == [] {
      assert t == Zeros(k);
    } else {
      var s' := s[..|s| - 1];
      assert AllDigits(s', base) by {
        forall i | 0 <= i < |s'| ensures IsDigitIn(s'[i], base) { assert s'[i] == s[i]; }
      }
      LeadingZerosValue(k, s', base);
      assert t[..|t| - 1] == Zeros(k) + s';
      assert t[|t| - 1] == s[|s| - 1];
    }
  }
}
