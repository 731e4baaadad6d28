/** Turning a raw scanner payload into a student id (NormalizeScannedId). */
module Normalizer {
  import opened Text

  /** A blank payload comes back unchanged; otherwise the digits are kept and,
      when more than two remain, the last two (a scanner suffix) are dropped. */
  function NormalizeScannedId(raw: string): (id: string)
    ensures IsBlank(raw) ==> id == raw
    ensures !IsBlank(raw) ==> AllDigits(id) && id <= DigitsOf(raw)
    ensures !IsBlank(raw) && |DigitsOf(raw)| > 2 ==> |id| == |DigitsOf(raw)| - 2
    ensures !IsBlank(raw) && |DigitsOf(raw)| <= 2 ==> id == DigitsOf(raw)
    ensures IsBlank(id) <==> DigitsOf(raw) == []
  {
    if IsBlank(raw) then
      assert DigitsOf(raw) == [] by { NoDigitInBlank(raw); }
      raw
    else
      var digits := DigitsOf(raw);
      DigitsBlankOnlyWhenEmpty(digits);
      if IsBlank(digits) then
        digits
      else if |digits| > 2 then
        var id := digits[..|digits| - 2];
        assert !IsWhiteSpace(id[0]) by { assert IsDigit(id[0]); }
        id
      else
        digits
  }

  lemma NoDigitInBlank(s: string)
    requires IsBlank(s)
    ensures forall i :: 0 <= i < |s| ==> !IsDigit(s[i])
  {
    forall i | 0 <= i < |s| ensures !IsDigit(s[i]) {
      assert IsWhiteSpace(s[i]);
    }
  }

  /** A digit is never white space. */
  lemma DigitsBlankOnlyWhenEmpty(s: string)
    requires AllDigits(s)
    ensures IsBlank(s) <==> s == []
  {
    if s != [] {
      assert !IsWhiteSpace(s[0]);
    }
  }

  /** The rule is not idempotent: it drops two more digits every time it is applied. */
  lemma NotIdempotent()
    ensures NormalizeScannedId("12345") == "123"
    ensures NormalizeScannedId("123") == "1"
  {
    assert !IsBlank("12345") by { assert !IsWhiteSpace("12345"[0]); }
    assert !IsBlank("123") by { assert !IsWhiteSpace("123"[0]); }
    DigitsOfAllDigits("12345");
    DigitsOfAllDigits("123");
  }

  /** Taking the white space out of a keyboard line before normalising changes
      nothing that matters: the two ids are both blank or equal. */
  lemma NormalizeIgnoresWhiteSpace(raw: string)
    ensures IsBlank(NormalizeScannedId(RemoveWhiteSpace(raw))) <==> IsBlank(NormalizeScannedId(raw))
    ensures !IsBlank(NormalizeScannedId(raw)) ==> NormalizeScannedId(RemoveWhiteSpace(raw)) == NormalizeScannedId(raw)
  {
    DigitsOfRemoveWhiteSpace(raw);
    var cleaned := RemoveWhiteSpace(raw);
    if DigitsOf(raw) != [] {
      assert !IsBlank(raw) by { NoDigitInBlankContra(raw); }
      assert !IsBlank(cleaned) by { NoDigitInBlankContra(cleaned); }
    }
  }

  lemma NoDigitInBlankContra(s: string)
    requires DigitsOf(s) != []
    ensures !IsBlank(s)
  {
    if IsBlank(s) {
      NoDigitInBlank(s);
    }
  }

  /** For an all-digit scan longer than two, the id is the scan without its last two digits. */
  lemma NormalizeDigits(scan: string)
    requires AllDigits(scan) && |scan| > 2
    ensures NormalizeScannedId(scan) == scan[..|scan| - 2]
  {
    DigitsOfAllDigits(scan);
    assert !IsWhiteSpace(scan[0]);
  }
}
