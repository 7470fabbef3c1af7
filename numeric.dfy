/**
 * Decimal digit strings: the parse of Rust's `str::parse` for unsigned integer
 * types (`u16`, `u32`), the numeric identifiers of a semantic version, and the
 * canonical decimal rendering used by `format!("{}", n)`.
 */
module Numeric {
  import opened Wrappers

  const U16_LIMIT: nat := 0x1_0000
  const U32_LIMIT: nat := 0x1_0000_0000
  const U64_LIMIT: nat := 0x1_0000_0000_0000_0000

  predicate IsDigit(c: char)
  {
    '0' <= c <= '9'
  }

  predicate AllDigits(s: string)
  {
    forall i :: 0 <= i < |s| ==> IsDigit(s[i])
  }

  function DigitValue(c: char): nat
    requires IsDigit(c)
  {
    c as int - '0' as int
  }

  function DigitChar(d: nat): (c: char)
    requires d < 10
    ensures IsDigit(c) && DigitValue(c) == d
  {
    ('0' as int + d) as char
  }

  /** A character that is not a digit does not occur in a digit string. */
  lemma NoOtherCharInDigits(s: string, c: char)
    requires AllDigits(s) && !IsDigit(c)
    ensures c !in s
  {
    forall i | 0 <= i < |s|
      ensures s[i] != c
    {
      assert IsDigit(s[i]);
    }
  }

  /** The value of a string of decimal digits, most significant first. */
  function DigitsValue(s: string): nat
    requires AllDigits(s)
  {
    if s == [] then 0 else 10 * DigitsValue(s[..|s| - 1]) + DigitValue(s[|s| - 1])
  }

  /** The shortest decimal rendering of `n`: digits only, no leading zero. */
  function ToDecimal(n: nat): (s: string)
    ensures |s| >= 1 && AllDigits(s)
    ensures s[0] == '0' ==> s == "0"
  {
    if n < 10 then [DigitChar(n)] else ToDecimal(n / 10) + [DigitChar(n % 10)]
  }

  /** Reading back the rendering of `n` gives `n`. */
  lemma {:induction false} DigitsValueToDecimal(n: nat)
    ensures DigitsValue(ToDecimal(n)) == n
  {
    if n >= 10 {
      var s := ToDecimal(n);
      assert s[..|s| - 1] == ToDecimal(n / 10);
      DigitsValueToDecimal(n / 10);
    }
  }

  /** A leading zero does not change the value of a digit string. */
  lemma {:induction false} DigitsValueLeadingZero(s: string)
    requires AllDigits(s)
    ensures AllDigits("0" + s) && DigitsValue("0" + s) == DigitsValue(s)
  {
    if s != [] {
      var t := "0" + s;
      assert t[..|t| - 1] == "0" + s[..|s| - 1];
      DigitsValueLeadingZero(s[..|s| - 1]);
    }
  }

  /**
   * `str::parse::<uN>()` where `limit` is 2^N: one optional leading `+`, then at
   * least one decimal digit, and a value below `limit`.  Everything else (the
   * empty string, a lone `+`, a `-`, any other character, overflow) is an error.
   */
  function ParseUnsigned(s: string, limit: nat): (r: Option<nat>)
    ensures var digits := if s != [] && s[0] == '+' then s[1..] else s;
      && (r.Some? <==> digits != [] && AllDigits(digits) && DigitsValue(digits) < limit)
      && (r.Some? ==> r.value == DigitsValue(digits))
    ensures r.Some? ==> r.value < limit
    ensures r.Some? ==> s != [] && (IsDigit(s[0]) || s[0] == '+')
    ensures r.Some? ==> forall i :: 0 < i < |s| ==> IsDigit(s[i])
  {
    var digits := if s != [] && s[0] == '+' then s[1..] else s;
    if digits != [] && AllDigits(digits) && DigitsValue(digits) < limit
    then Some(DigitsValue(digits))
    else None
  }

  /** The rendering of every value below the limit parses back to it; above it, overflow. */
  lemma ParseUnsignedToDecimal(n: nat, limit: nat)
    ensures ParseUnsigned(ToDecimal(n), limit) == if n < limit then Some(n) else None
    ensures ParseUnsigned("+" + ToDecimal(n), limit) == ParseUnsigned(ToDecimal(n), limit)
  {
    DigitsValueToDecimal(n);
    assert ("+" + ToDecimal(n))[1..] == ToDecimal(n);
  }

  /**
   * A numeric identifier of Semantic Versioning 2.0.0 (section 2), as the
   * `semver` crate reads it into a `u64`: digits only, no leading zero unless
   * the identifier is `0`, and a value that fits in 64 bits.
   */
  function ParseNumericIdentifier(s: string): (r: Option<nat>)
    ensures r.Some? ==> r.value < U64_LIMIT && s == ToDecimal(r.value)
  {
    if s != [] && AllDigits(s) && (s[0] != '0' || s == "0") && DigitsValue(s) < U64_LIMIT
    then
      CanonicalDigits(s);
      Some(DigitsValue(s))
    else None
  }

  /** A digit string without a leading zero is the rendering of its own value. */
  lemma {:induction false} CanonicalDigits(s: string)
    requires s != [] && AllDigits(s) && (s[0] != '0' || s == "0")
    ensures ToDecimal(DigitsValue(s)) == s
    decreases |s|
  {
    if |s| > 1 {
      var init := s[..|s| - 1];
      CanonicalDigits(init);
      var v := DigitsValue(s);
      assert v / 10 == DigitsValue(init) && v % 10 == DigitValue(s[|s| - 1]);
      assert DigitsValue(init) > 0;
      assert s == init + [s[|s| - 1]];
    } else {
      assert s == [DigitChar(DigitValue(s[0]))];
    }
  }

  /** Every 64-bit value's rendering is a valid numeric identifier with that value. */
  lemma ParseNumericIdentifierToDecimal(n: nat)
    requires n < U64_LIMIT
    ensures ParseNumericIdentifier(ToDecimal(n)) == Some(n)
  {
    DigitsValueToDecimal(n);
  }
}
