/**
 * Decimal and hexadecimal numerals: Rust's `str::parse::<u64>` and the
 * `{:x}` formatting of an unsigned 64-bit integer, each with the
 * numeral-to-value function that gives it its meaning.
 */
module Numerals {
  import opened Wrappers

  /** 2^64: one more than the largest `u64`. */
  const U64_LIMIT: nat := 0x1_0000_0000_0000_0000
  /** -2^63: the smallest `i64`. */
  const I64_MIN: int := -0x8000_0000_0000_0000

  // ---------------------------------------------------------------- digits

  /** An ASCII decimal digit. */
  predicate IsDigit(c: char) {
    '0' <= c <= '9'
  }

  predicate AllDigits(s: string) {
    forall i :: 0 <= i < |s| ==> IsDigit(s[i])
  }

  function DigitValue(c: char): (d: nat)
    requires IsDigit(c)
    ensures d < 10
  {
    c as int - '0' as int
  }

  function DigitChar(d: nat): (c: char)
    requires d < 10
    ensures IsDigit(c) && DigitValue(c) == d
  {
    ['0', '1', '2', '3', '4', '5', '6', '7', '8', '9'][d]
  }

  /** The digits of `{:x}`: lower case only. */
  predicate IsLowerHexDigit(c: char) {
    ('0' <= c <= '9') || ('a' <= c <= 'f')
  }

  predicate AllLowerHex(s: string) {
    forall i :: 0 <= i < |s| ==> IsLowerHexDigit(s[i])
  }

  function HexDigitValue(c: char): (d: nat)
    requires IsLowerHexDigit(c)
    ensures d < 16
  {
    if '0' <= c <= '9' then c as int - '0' as int else c as int - 'a' as int + 10
  }

  function HexDigitChar(d: nat): (c: char)
    requires d < 16
    ensures IsLowerHexDigit(c) && HexDigitValue(c) == d
    ensures c == '0' <==> d == 0
  {
    ['0', '1', '2', '3', '4', '5', '6', '7', '8', '9', 'a', 'b', 'c', 'd', 'e', 'f'][d]
  }

  // ---------------------------------------------------- numeral meanings

  /** The value of a decimal numeral, most significant digit first. */
  function DecValue(s: string): nat
    requires AllDigits(s)
  {
    if s == [] then 0 else DecValue(s[..|s| - 1]) * 10 + DigitValue(s[|s| - 1])
  }

  /** The value of a lower-case hexadecimal numeral, most significant digit first. */
  function HexValue(s: string): nat
    requires AllLowerHex(s)
  {
    if s == [] then 0 else HexValue(s[..|s| - 1]) * 16 + HexDigitValue(s[|s| - 1])
  }

  // ------------------------------------------------------------- parsing

  /**
   * `str::parse::<u64>`: an optional leading '+', then one or more ASCII
   * digits; a value of 2^64 or more is an overflow error.
   */
  function ParseU64(s: string): (r: Option<nat>)
    ensures r.Some? ==> r.value < U64_LIMIT
    ensures s == [] ==> r.None?
    ensures s != [] && AllDigits(s) ==>
              (r.Some? <==> DecValue(s) < U64_LIMIT) && (r.Some? ==> r.value == DecValue(s))
    ensures |s| > 1 && s[0] == '+' && AllDigits(s[1..]) ==>
              (r.Some? <==> DecValue(s[1..]) < U64_LIMIT) && (r.Some? ==> r.value == DecValue(s[1..]))
    // Anything else, a non-digit anywhere after one leading '+' included, is rejected.
    ensures r.Some? ==> (s != [] && AllDigits(s) && r.value == DecValue(s))
                        || (|s| > 1 && s[0] == '+' && AllDigits(s[1..]) && r.value == DecValue(s[1..]))
  {
    var digits := if |s| > 1 && s[0] == '+' then s[1..] else s;
    if digits != [] && AllDigits(digits) && DecValue(digits) < U64_LIMIT
    then Some(DecValue(digits))
    else None
  }

  // ----------------------------------------------------------- rendering

  /** Canonical decimal numeral of `n`: no leading zeros, "0" for zero. */
  function Decimal(n: nat): (s: string)
    ensures |s| >= 1 && AllDigits(s)
    ensures s[0] == '0' ==> n == 0
    ensures n == 0 ==> s == "0"
  {
    if n < 10 then [DigitChar(n)] else Decimal(n / 10) + [DigitChar(n % 10)]
  }

  /**
   * `format!("{:x}", n)`: lower-case hexadecimal with no leading zeros,
   * "0" for zero.
   */
  function Hex(n: nat): (s: string)
    ensures |s| >= 1 && AllLowerHex(s)
    ensures s[0] == '0' <==> n == 0
    ensures n == 0 ==> s == "0"
  {
    if n < 16 then [HexDigitChar(n)] else Hex(n / 16) + [HexDigitChar(n % 16)]
  }

  /** 16^k. */
  function Pow16(k: nat): (p: nat)
    ensures p >= 1
  {
    if k == 0 then 1 else 16 * Pow16(k - 1)
  }

  // -------------------------------------------------------------- lemmas

  /** Reading back the hexadecimal rendering gives the number rendered. */
  lemma {:induction false} HexRoundTrip(n: nat)
    ensures HexValue(Hex(n)) == n
  {
    if n >= 16 {
      var s := Hex(n);
      var front := Hex(n / 16);
      assert s[..|s| - 1] == front;
      HexRoundTrip(n / 16);
    }
  }

  /** Reading back the decimal rendering gives the number rendered. */
  lemma {:induction false} DecimalRoundTrip(n: nat)
    ensures DecValue(Decimal(n)) == n
  {
    if n >= 10 {
      var s := Decimal(n);
      assert s[..|s| - 1] == Decimal(n / 10);
      DecimalRoundTrip(n / 10);
    }
  }

  /** Two numbers with the same hexadecimal rendering are equal. */
  lemma HexInjective(m: nat, n: nat)
    requires Hex(m) == Hex(n)
    ensures m == n
  {
    HexRoundTrip(m);
    HexRoundTrip(n);
  }

  /**
   * `parse::<u64>` accepts exactly the canonical decimal numerals of the
   * numbers below 2^64, and gives back the number.
   */
  lemma ParseDecimal(n: nat)
    ensures ParseU64(Decimal(n)) == if n < U64_LIMIT then Some(n) else None
  {
    DecimalRoundTrip(n);
  }

  /** A number below 16^k has at most k hexadecimal digits. */
  lemma {:induction false} HexWidth(n: nat, k: nat)
    requires 1 <= k && n < Pow16(k)
    ensures |Hex(n)| <= k
  {
    if n >= 16 {
      assert Pow16(1) == 16;
      assert n / 16 < Pow16(k - 1);
      HexWidth(n / 16, k - 1);
    }
  }

  /** Every `u64` renders in at most 16 hexadecimal digits. */
  lemma HexWidthU64(n: nat)
    requires n < U64_LIMIT
    ensures |Hex(n)| <= 16
  {
    Pow16Sixteen();
    HexWidth(n, 16);
  }

  /** Sixteen hexadecimal digits span exactly the `u64` range. */
  lemma Pow16Sixteen()
    ensures Pow16(16) == U64_LIMIT
  {
    assert Pow16(4) == 0x1_0000;
    assert Pow16(8) == 0x1_0000_0000 by {
      assert Pow16(8) == Pow16(4) * Pow16(4) by { Pow16Add(4, 4); }
    }
    assert Pow16(16) == Pow16(8) * Pow16(8) by { Pow16Add(8, 8); }
  }

  lemma {:induction false} Pow16Add(a: nat, b: nat)
    ensures Pow16(a + b) == Pow16(a) * Pow16(b)
  {
    if a > 0 {
      Pow16Add(a - 1, b);
    }
  }
}
