/**
 * Go's `strconv.Atoi` on a 64-bit platform, where `int` is 64 bits wide, and
 * `strconv.Itoa`, its inverse on the integers it can return.
 */
module Strconv {
  import opened Wrappers

  const MinInt: int := -0x8000_0000_0000_0000
  const MaxInt: int := 0x7fff_ffff_ffff_ffff

  /** Go's `int` on a 64-bit platform. */
  type Int64 = x: int | MinInt <= x <= MaxInt

  predicate IsDigit(c: char) { '0' <= c <= '9' }

  predicate AllDigits(ds: string) { forall k :: 0 <= k < |ds| ==> IsDigit(ds[k]) }

  function Pow10(k: nat): (p: nat)
    ensures p >= 1
  {
    if k == 0 then 1 else 10 * Pow10(k - 1)
  }

  lemma {:induction false} Pow10Monotone(a: nat, b: nat)
    requires a <= b
    ensures Pow10(a) <= Pow10(b)
  {
    if a < b {
      Pow10Monotone(a, b - 1);
    }
  }

  lemma Pow10Eighteen()
    ensures Pow10(18) == 1_000_000_000_000_000_000
  {
    assert Pow10(2) == 100;
    assert Pow10(4) == 10_000;
    assert Pow10(6) == 1_000_000;
    assert Pow10(8) == 100_000_000;
    assert Pow10(10) == 10_000_000_000;
    assert Pow10(12) == 1_000_000_000_000;
    assert Pow10(14) == 100_000_000_000_000;
    assert Pow10(16) == 10_000_000_000_000_000;
  }

  /** The value of a run of decimal digits, most significant first; it has fewer digits than `Pow10(|ds|)`. */
  function DigitsValue(ds: string): (n: nat)
    requires AllDigits(ds)
    ensures n < Pow10(|ds|)
  {
    if ds == [] then 0
    else DigitsValue(ds[..|ds| - 1]) * 10 + (ds[|ds| - 1] as int - '0' as int)
  }

  /** What follows an optional leading `+` or `-`. */
  function Unsigned(s: string): string
  {
    if |s| > 0 && (s[0] == '+' || s[0] == '-') then s[1..] else s
  }

  /** The syntax `Atoi` accepts in base 10: `[+-]?[0-9]+`. */
  predicate IsDecimal(s: string)
  {
    |Unsigned(s)| > 0 && AllDigits(Unsigned(s))
  }

  /**
   * `strconv.Atoi(s)`: the value of a base-10 literal with an optional sign,
   * or `None` for a syntax error or a value outside the 64-bit range.
   * Every literal of at most 18 characters fits (Go's fast path).
   */
  function Atoi(s: string): (r: Option<Int64>)
    ensures r.Some? ==> IsDecimal(s)
    ensures IsDecimal(s) && |s| <= 18 ==> r.Some?
  {
    var ds := Unsigned(s);
    if |ds| == 0 || !AllDigits(ds) then None
    else
      var magnitude: int := DigitsValue(ds);
      assert |s| <= 18 ==> magnitude < 1_000_000_000_000_000_000 by {
        if |s| <= 18 {
          Pow10Monotone(|ds|, 18);
          Pow10Eighteen();
        }
      }
      var n: int := if s[0] == '-' then -magnitude else magnitude;
      if MinInt <= n <= MaxInt then Some(n) else None
  }

  function Digit(d: nat): (c: char)
    requires d < 10
    ensures IsDigit(c) && c as int - '0' as int == d
  {
    ('0' as int + d) as char
  }

  /** The shortest decimal digits of `n`. */
  function NatDigits(n: nat): (ds: string)
    ensures |ds| > 0 && AllDigits(ds) && DigitsValue(ds) == n
    decreases n
  {
    if n < 10 then [Digit(n)]
    else
      var ds := NatDigits(n / 10) + [Digit(n % 10)];
      assert ds[..|ds| - 1] == NatDigits(n / 10);
      ds
  }

  /** `strconv.Itoa(n)`: `-` for a negative number, then its digits. */
  function Itoa(n: Int64): (s: string)
    ensures |s| > 0
    ensures forall k :: 0 <= k < |s| ==> IsDigit(s[k]) || s[k] == '-'
  {
    if n < 0 then "-" + NatDigits(-(n as int)) else NatDigits(n)
  }

  /** A leading `0` does not change the value of a run of digits. */
  lemma {:induction false} LeadingZero(ds: string)
    requires AllDigits(ds)
    ensures AllDigits("0" + ds) && DigitsValue("0" + ds) == DigitsValue(ds)
  {
    var z := "0" + ds;
    assert forall k :: 1 <= k < |z| ==> z[k] == ds[k - 1];
    if ds != [] {
      var init := ds[..|ds| - 1];
      assert z[..|z| - 1] == "0" + init;
      assert z[|z| - 1] == ds[|ds| - 1];
      LeadingZero(init);
    }
  }

  /**
   * Spellings `Itoa` never writes parse too: a `+` sign, or a leading zero
   * after an optional `-`, in front of a run of digits gives the same result
   * as the digits alone (with the same sign).
   */
  lemma AtoiPlusAndLeadingZero(ds: string)
    requires |ds| > 0 && AllDigits(ds)
    ensures Atoi("+" + ds) == Atoi(ds)
    ensures Atoi("0" + ds) == Atoi(ds)
    ensures Atoi("-0" + ds) == Atoi("-" + ds)
  {
    assert ("+" + ds)[0] == '+' && ("+" + ds)[1..] == ds;
    assert IsDigit(ds[0]);
    LeadingZero(ds);
    assert IsDigit(("0" + ds)[0]);
    assert ("-0" + ds)[0] == '-' && ("-0" + ds)[1..] == "0" + ds;
    assert ("-" + ds)[0] == '-' && ("-" + ds)[1..] == ds;
  }

  /** `Atoi` reads back every integer `Itoa` writes. */
  lemma AtoiItoa(n: Int64)
    ensures Atoi(Itoa(n)) == Some(n)
  {
    var s := Itoa(n);
    if n < 0 {
      var ds := NatDigits(-(n as int));
      assert s == "-" + ds;
      assert Unsigned(s) == ds;
    } else {
      assert IsDigit(s[0]);
      assert Unsigned(s) == s;
    }
  }
}
