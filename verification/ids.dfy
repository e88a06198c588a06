/**
 * The identifier boundary. The tables key users, accounts and sessions by
 * serial integers; the adapter's callers see those keys as strings.
 * `IdToString` is `String(n)` on a non-negative integer and `ParseId` is
 * `Number(s)` restricted to the strings an integer column accepts.
 */
module Ids {
  import opened Wrappers

  predicate IsDigit(c: char)
  {
    '0' <= c <= '9'
  }

  /** A non-empty string of decimal digits. */
  predicate IsNumeral(s: string)
  {
    s != [] && forall i :: 0 <= i < |s| ==> IsDigit(s[i])
  }

  /** A numeral without superfluous leading zeros: the form `String(n)` produces. */
  predicate IsCanonical(s: string)
  {
    IsNumeral(s) && (s[0] == '0' ==> |s| == 1)
  }

  function DigitValue(c: char): nat
    requires IsDigit(c)
  {
    c as int - '0' as int
  }

  function DigitChar(d: nat): (c: char)
    requires d < 10
    ensures IsDigit(c) && DigitValue(c) == d
  {
    (d + '0' as int) as char
  }

  /** The value of a string of decimal digits, most significant digit first. */
  function DecimalValue(s: string): nat
    requires forall i :: 0 <= i < |s| ==> IsDigit(s[i])
    decreases |s|
  {
    if s == [] then 0 else 10 * DecimalValue(s[..|s| - 1]) + DigitValue(s[|s| - 1])
  }

  /** `String(n)`: the decimal numeral of `n`, with a leading zero only for zero itself. */
  function IdToString(n: nat): (s: string)
    ensures IsNumeral(s)
    ensures s[0] == '0' <==> n == 0
    ensures IsCanonical(s)
    decreases n
  {
    if n < 10 then [DigitChar(n)] else IdToString(n / 10) + [DigitChar(n % 10)]
  }

  /**
   * `Number(s)` for an id column: a decimal numeral denotes its value; any
   * other string gives no integer (NaN), which the database refuses.
   */
  function ParseId(s: string): Option<nat>
  {
    if IsNumeral(s) then Some(DecimalValue(s)) else None
  }

  /** Every id the adapter hands out reads back as the same id. */
  lemma {:induction false} IdRoundTrip(n: nat)
    ensures ParseId(IdToString(n)) == Some(n)
    decreases n
  {
    var s := IdToString(n);
    if n < 10 {
      assert s == [DigitChar(n)] && s[..0] == [];
      assert DecimalValue(s) == 10 * DecimalValue([]) + DigitValue(DigitChar(n));
    } else {
      IdRoundTrip(n / 10);
      assert s[..|s| - 1] == IdToString(n / 10);
    }
  }

  /** Distinct ids are rendered as distinct strings. */
  lemma IdToStringInjective(a: nat, b: nat)
    ensures IdToString(a) == IdToString(b) ==> a == b
  {
    IdRoundTrip(a);
    IdRoundTrip(b);
  }

  /** The converse round trip: a canonical numeral is the rendering of its own value. */
  lemma {:induction false} CanonicalRoundTrip(s: string)
    requires IsCanonical(s)
    ensures ParseId(s).Some? && IdToString(ParseId(s).value) == s
    decreases |s|
  {
    var last := s[|s| - 1];
    if |s| == 1 {
      assert s == [last] && s[..0] == [];
      assert DecimalValue(s) == DigitValue(last);
      assert DigitChar(DigitValue(last)) == last;
      assert IdToString(DigitValue(last)) == [last];
    } else {
      var init := s[..|s| - 1];
      assert init[0] == s[0];
      CanonicalRoundTrip(init);
      var v := DecimalValue(init);
      assert v != 0;
      var n := DecimalValue(s);
      assert n == 10 * v + DigitValue(last);
      assert n / 10 == v && n % 10 == DigitValue(last);
      assert DigitChar(DigitValue(last)) == last;
      assert s == init + [last];
    }
  }

  /**
   * `Number` is not injective on strings: "007" and "7" name the same row,
   * so an id echoed back from the caller's string can differ from `String(id)`.
   */
  lemma LeadingZerosParse()
    ensures ParseId("007") == ParseId("7") == Some(7)
    ensures IdToString(7) == "7"
  {
    assert "007"[..2] == "00" && "00"[..1] == "0" && "0"[..0] == "" && "7"[..0] == "";
  }
}
