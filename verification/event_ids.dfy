/**
 * Event identifiers are written `E<n>` (f'E{event_id}') and read back with
 * `int(text[1:])`. This module models both directions and proves they are
 * inverse to each other.
 */
module EventIds {
  import opened Wrappers

  predicate IsDigit(c: char) {
    '0' <= c <= '9'
  }

  predicate AllDigits(s: string) {
    forall i :: 0 <= i < |s| ==> IsDigit(s[i])
  }

  /** A digit string as `str(int)` writes it: non-empty, no leading zero. */
  predicate Canonical(s: string) {
    |s| >= 1 && AllDigits(s) && (|s| > 1 ==> s[0] != '0')
  }

  function DigitChar(d: nat): char
    requires d < 10
  {
    (('0' as int) + d) as char
  }

  function DigitValue(c: char): nat
    requires IsDigit(c)
  {
    (c as int) - ('0' as int)
  }

  /** Value of a string of decimal digits, most significant first. */
  function DigitsValue(s: string): nat
    requires AllDigits(s)
  {
    if |s| == 0 then 0 else DigitsValue(s[..|s| - 1]) * 10 + DigitValue(s[|s| - 1])
  }

  /** `str(n)` for a non-negative integer. */
  function FormatNat(n: nat): (s: string)
    ensures Canonical(s)
  {
    if n < 10 then [DigitChar(n)]
    else
      var s := FormatNat(n / 10) + [DigitChar(n % 10)];
      assert s[0] == FormatNat(n / 10)[0];
      s
  }

  /**
   * `int(s)`, restricted to an optional sign followed by one or more ASCII
   * digits; every other string raises ValueError, modelled as None.
   */
  function ParseInt(s: string): (r: Option<int>)
    ensures r.Some? ==> |s| > 0
    ensures AllDigits(s) && |s| > 0 ==> r.Some? && r.value >= 0
  {
    if |s| == 0 then None
    else if AllDigits(s) then Some(DigitsValue(s))
    else if (s[0] == '+' || s[0] == '-') && |s| > 1 && AllDigits(s[1..]) then
      var v: int := DigitsValue(s[1..]);
      Some(if s[0] == '-' then -v else v)
    else None
  }

  /** f'E{n}'. */
  function FormatEventId(n: nat): (s: string)
    ensures |s| >= 2 && s[0] == 'E' && Canonical(s[1..])
  {
    "E" + FormatNat(n)
  }

  /** `int(text[1:])`: the leading character is dropped whatever it is. */
  function ParseEventId(text: string): Option<int> {
    ParseInt(if |text| == 0 then "" else text[1..])
  }

  lemma {:induction false} DigitsValueOfFormat(n: nat)
    ensures DigitsValue(FormatNat(n)) == n
  {
    var s := FormatNat(n);
    if n >= 10 {
      DigitsValueOfFormat(n / 10);
      assert s[..|s| - 1] == FormatNat(n / 10);
    }
  }

  lemma {:induction false} NonZeroLeadIsPositive(s: string)
    requires Canonical(s) && s[0] != '0'
    ensures DigitsValue(s) >= 1
  {
    if |s| > 1 {
      NonZeroLeadIsPositive(s[..|s| - 1]);
    }
  }

  /** Formatting after parsing gives back every canonical digit string. */
  lemma {:induction false} FormatOfDigitsValue(s: string)
    requires Canonical(s)
    ensures FormatNat(DigitsValue(s)) == s
  {
    if |s| > 1 {
      var p := s[..|s| - 1];
      assert Canonical(p);
      NonZeroLeadIsPositive(p);
      FormatOfDigitsValue(p);
      var v := DigitsValue(s);
      assert v / 10 == DigitsValue(p) && v % 10 == DigitValue(s[|s| - 1]);
      assert s == p + [s[|s| - 1]];
    }
  }

  /** int(str(n)) == n. */
  lemma ParseFormatNat(n: nat)
    ensures ParseInt(FormatNat(n)) == Some(n)
  {
    DigitsValueOfFormat(n);
  }

  /** int(f'E{n}'[1:]) == n: the sort key recovers the number written. */
  lemma EventIdRoundTrip(n: nat)
    ensures ParseEventId(FormatEventId(n)) == Some(n)
  {
    assert FormatEventId(n)[1..] == FormatNat(n);
    ParseFormatNat(n);
  }

  /** The other direction: an `E<digits>` text in canonical form is reproduced by formatting its number. */
  lemma EventIdFormatParse(text: string)
    requires |text| >= 2 && text[0] == 'E' && Canonical(text[1..])
    ensures ParseEventId(text).Some? && ParseEventId(text).value >= 0
    ensures FormatEventId(ParseEventId(text).value) == text
  {
    FormatOfDigitsValue(text[1..]);
    assert text == "E" + text[1..];
  }

  /** Different numbers are written as different identifiers. */
  lemma FormatEventIdInjective(m: nat, n: nat)
    requires FormatEventId(m) == FormatEventId(n)
    ensures m == n
  {
    EventIdRoundTrip(m);
    EventIdRoundTrip(n);
  }
}
