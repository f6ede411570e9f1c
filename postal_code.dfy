/**
 * The `PostalCode` value object: a Berlin postal code is numeric, exactly
 * five digits long and begins with 10, 12 or 13. The three rules are checked
 * in that order and the first one that fails decides the error.
 */
module PostalCodes {
  import opened Common

  datatype PostalCode = PostalCode(value: string)

  /** The three `ValueError`s of the constructor, in the order it checks them. */
  datatype PostalCodeError = NotNumeric | WrongLength | WrongPrefix

  const LENGTH: nat := 5

  predicate IsAsciiDigit(c: char) {
    '0' <= c <= '9'
  }

  /** A non-empty string of the ten ASCII digits. */
  predicate IsNumeric(s: string) {
    |s| > 0 && forall i :: 0 <= i < |s| ==> IsAsciiDigit(s[i])
  }

  /** `s.startswith(("10", "12", "13"))`. */
  predicate HasBerlinPrefix(s: string) {
    |s| >= 2 && (s[..2] == "10" || s[..2] == "12" || s[..2] == "13")
  }

  /**
   * `PostalCode(value)`, with "numeric" read as ASCII digits (see
   * `NewPostalCodeAsWritten` for the check the code actually makes).
   */
  function NewPostalCode(value: string): (r: Result<PostalCode, PostalCodeError>)
    ensures r.Ok? <==> IsNumeric(value) && |value| == LENGTH && HasBerlinPrefix(value)
    ensures r.Ok? ==> r.value.value == value
    ensures r == Err(NotNumeric) <==> !IsNumeric(value)
    ensures r == Err(WrongLength) <==> IsNumeric(value) && |value| != LENGTH
    ensures r == Err(WrongPrefix) <==> IsNumeric(value) && |value| == LENGTH && !HasBerlinPrefix(value)
  {
    if !IsNumeric(value) then Err(NotNumeric)
    else if |value| != LENGTH then Err(WrongLength)
    else if !HasBerlinPrefix(value) then Err(WrongPrefix)
    else Ok(PostalCode(value))
  }

  /** The number an ASCII digit string spells in base ten. */
  function DecimalValue(s: string): (n: nat)
    requires forall i :: 0 <= i < |s| ==> IsAsciiDigit(s[i])
  {
    if s == [] then 0 else DecimalValue(s[..|s| - 1]) * 10 + DigitValue(s[|s| - 1])
  }

  function DigitValue(c: char): (d: nat)
    requires IsAsciiDigit(c)
    ensures d < 10
  {
    c as int - '0' as int
  }

  /** Every accepted code is a number 10000-10999, 12000-12999 or 13000-13999. */
  lemma AcceptedCodeInBerlinRange(value: string)
    requires NewPostalCode(value).Ok?
    ensures var n := DecimalValue(value);
      (10000 <= n < 11000) || (12000 <= n < 14000)
  {
    var d := seq(5, i requires 0 <= i < 5 => DigitValue(value[i]));
    assert value[..4][..3] == value[..3] && value[..3][..2] == value[..2];
    assert value[..2][..1] == value[..1] && value[..1][..0] == [];
    assert DecimalValue(value[..1]) == d[0];
    assert DecimalValue(value[..2]) == d[0] * 10 + d[1];
    assert DecimalValue(value[..3]) == (d[0] * 10 + d[1]) * 10 + d[2];
    assert DecimalValue(value[..4]) == ((d[0] * 10 + d[1]) * 10 + d[2]) * 10 + d[3];
    assert value[..5] == value;
    assert value[..2] == [value[0], value[1]];
  }

  // ----- The check as written: Python's `str.isdigit` -----

  /**
   * Characters for which Python's `str.isdigit` holds. Besides the ASCII digits
   * these include the superscripts ², ³ and ¹, the Arabic-Indic, Extended
   * Arabic-Indic and Devanagari digits and the full-width digits. The table is
   * partial: Unicode has several hundred more such characters.
   */
  predicate IsPythonDigit(c: char) {
    var n := c as int;
    IsAsciiDigit(c) || n == 0xB2 || n == 0xB3 || n == 0xB9
    || (0x0660 <= n <= 0x0669) || (0x06F0 <= n <= 0x06F9)
    || (0x0966 <= n <= 0x096F) || (0xFF10 <= n <= 0xFF19)
  }

  /** `value.isdigit()`: non-empty and every character a Python digit. */
  predicate IsPythonNumeric(s: string) {
    |s| > 0 && forall i :: 0 <= i < |s| ==> IsPythonDigit(s[i])
  }

  /** `PostalCode(value)` exactly as the code checks it, with `str.isdigit`. */
  function NewPostalCodeAsWritten(value: string): (r: Result<PostalCode, PostalCodeError>)
    ensures r.Ok? <==> IsPythonNumeric(value) && |value| == LENGTH && HasBerlinPrefix(value)
    ensures r.Ok? ==> r.value.value == value
  {
    if !IsPythonNumeric(value) then Err(NotNumeric)
    else if |value| != LENGTH then Err(WrongLength)
    else if !HasBerlinPrefix(value) then Err(WrongPrefix)
    else Ok(PostalCode(value))
  }

  /** Whatever the corrected check accepts, the check as written accepts too, with the same error otherwise when the input is ASCII. */
  lemma AsWrittenAcceptsMore(value: string)
    ensures NewPostalCode(value).Ok? ==> NewPostalCodeAsWritten(value) == NewPostalCode(value)
    ensures (forall i :: 0 <= i < |value| ==> value[i] as int < 0x80) ==> NewPostalCodeAsWritten(value) == NewPostalCode(value)
  {
  }

  /** "10" followed by three Arabic-Indic digits passes the check as written but is no Berlin postal code. */
  lemma AsWrittenAcceptsArabicIndicDigits()
    ensures NewPostalCodeAsWritten("10" + [0x0661 as char, 0x0662 as char, 0x0663 as char]).Ok?
    ensures NewPostalCode("10" + [0x0661 as char, 0x0662 as char, 0x0663 as char]) == Err(NotNumeric)
  {
    var v := "10" + [0x0661 as char, 0x0662 as char, 0x0663 as char];
    assert v[..2] == "10";
    assert !IsAsciiDigit(v[2]);
  }

  /** The accepted and rejected examples of the value object's tests. */
  lemma PostalCodeExamples()
    ensures NewPostalCode("10115") == Ok(PostalCode("10115"))
    ensures NewPostalCode("10A15") == Err(NotNumeric)
    ensures NewPostalCode("1011") == Err(WrongLength)
    ensures NewPostalCode("99123") == Err(WrongPrefix)
    ensures NewPostalCode("ABCDE") == Err(NotNumeric)
    ensures NewPostalCode("") == Err(NotNumeric)
  {
    assert "10115"[..2] == "10";
    assert !IsAsciiDigit("10A15"[2]);
    assert !IsAsciiDigit("ABCDE"[0]);
    assert "99123"[..2] == "99";
  }
}
