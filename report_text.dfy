/**
 * The `ReportText` value object: the text of a malfunction report must not be
 * blank and must be at most 200 characters long.
 */
module ReportTextRules {
  import opened Common

  const MAX_LENGTH: nat := 200

  /** The characters for which Python's `str.isspace` holds, i.e. those `str.strip()` removes. */
  predicate IsSpace(c: char) {
    var n := c as int;
    (0x09 <= n <= 0x0D) || (0x1C <= n <= 0x20) || n == 0x85 || n == 0xA0 || n == 0x1680
    || (0x2000 <= n <= 0x200A) || n == 0x2028 || n == 0x2029 || n == 0x202F || n == 0x205F
    || n == 0x3000
  }

  /** True when the string has no character but whitespace (the empty string included). */
  predicate AllSpace(s: string) {
    forall i :: 0 <= i < |s| ==> IsSpace(s[i])
  }

  /** Python's `s.lstrip()`: drops the leading whitespace and nothing else. */
  function StripLeft(s: string): (r: string)
    ensures |r| <= |s| && r == s[|s| - |r|..]
    ensures forall i :: 0 <= i < |s| - |r| ==> IsSpace(s[i])
    ensures r == [] || !IsSpace(r[0])
  {
    if s == [] || !IsSpace(s[0]) then s else StripLeft(s[1..])
  }

  /** Python's `s.rstrip()`: drops the trailing whitespace and nothing else. */
  function StripRight(s: string): (r: string)
    ensures |r| <= |s| && r == s[..|r|]
    ensures forall i :: |r| <= i < |s| ==> IsSpace(s[i])
    ensures r == [] || !IsSpace(r[|r| - 1])
  {
    if s == [] || !IsSpace(s[|s| - 1]) then s else StripRight(s[..|s| - 1])
  }

  /** Python's `s.strip()`: a slice of `s` whose first and last characters are not whitespace (what it drops is stated by `StripLeft` and `StripRight`). */
  function Strip(s: string): (r: string)
    ensures var a := |s| - |StripLeft(s)|; a + |r| <= |s| && r == s[a..a + |r|]
    ensures r == [] || (!IsSpace(r[0]) && !IsSpace(r[|r| - 1]))
  {
    var l := StripLeft(s);
    var r := StripRight(l);
    assert r == [] || r[0] == l[0];
    r
  }

  /** Everything `Strip` drops after the kept slice is whitespace, so the slice ends at the last non-space character. */
  lemma StripDropsTrailingSpace(s: string)
    ensures forall i :: |s| - |StripLeft(s)| + |Strip(s)| <= i < |s| ==> IsSpace(s[i])
  {
    var l := StripLeft(s);
    var a := |s| - |l|;
    var r := StripRight(l);
    assert Strip(s) == r;
    forall i | a + |r| <= i < |s|
      ensures IsSpace(s[i])
    {
      assert s[i] == l[i - a];
    }
  }

  /** `s.strip() == ""` holds exactly for the strings made of whitespace only. */
  lemma StripEmptyIffAllSpace(s: string)
    ensures Strip(s) == "" <==> AllSpace(s)
  {
    var l := StripLeft(s);
    if Strip(s) != "" {
      var k :| 0 <= k < |Strip(s)| && !IsSpace(Strip(s)[k]);
      assert Strip(s)[k] == s[|s| - |l| + k];
    }
  }

  /** A validated report text; `value` is the text exactly as the user typed it. */
  datatype ReportText = ReportText(value: string)

  /** The two `ValueError`s of the constructor, in the order it checks them. */
  datatype ReportTextError = Empty | TooLong

  /**
   * `ReportText(value)`: `None` or a blank text fails as `Empty`; otherwise a
   * text longer than 200 characters (counted before trimming) fails as
   * `TooLong`; any other text is kept unchanged.
   */
  function NewReportText(value: Option<string>): (r: Result<ReportText, ReportTextError>)
    ensures r.Ok? <==> value.Some? && !AllSpace(value.value) && |value.value| <= MAX_LENGTH
    ensures r.Ok? ==> r.value.value == value.value
    ensures r == Err(Empty) <==> value.None? || AllSpace(value.value)
    ensures r == Err(TooLong) <==> value.Some? && !AllSpace(value.value) && |value.value| > MAX_LENGTH
  {
    if value.None? || (StripEmptyIffAllSpace(value.value); Strip(value.value) == "") then Err(Empty)
    else if |value.value| > MAX_LENGTH then Err(TooLong)
    else Ok(ReportText(value.value))
  }

  /** The emptiness check comes first: 201 spaces are reported as empty, 201 letters as too long. */
  lemma EmptinessCheckedFirst()
    ensures NewReportText(Some(seq(201, _ => ' '))) == Err(Empty)
    ensures NewReportText(Some(seq(201, _ => 'x'))) == Err(TooLong)
    ensures NewReportText(Some("")) == Err(Empty)
    ensures NewReportText(None) == Err(Empty)
  {
    var x := seq(201, _ => 'x');
    assert !IsSpace(x[0]);
  }
}
