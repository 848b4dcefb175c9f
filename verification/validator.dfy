/**
 The Iranian national code validator: a candidate given as text or as a
 number is normalised to text, rejected unless it is exactly ten decimal
 digits, rejected if all ten digits are the same, and otherwise accepted
 exactly when its tenth digit is the control digit its first nine call for.
 */
module Validator {
  import opened Decimal
  import opened Checksum

  /** The candidate as the caller passes it: `string | number`. */
  datatype Code = Text(text: string) | Number(value: nat)

  /** A numeric candidate is replaced by its decimal rendering; text is
      taken as it is. */
  function Normalize(code: Code): string {
    match code
    case Text(t) => t
    case Number(n) => ToDecimal(n)
  }

  /** The shape test `/^\d{10}$/`: exactly ten ASCII decimal digits. */
  predicate IsTenDigits(s: string) {
    |s| == PrefixLength + 1 && AllDigits(s)
  }

  /** The repdigit test `/^(\d)\1{9}$/`: one digit followed by nine copies
      of itself. */
  predicate IsRepdigit(s: string) {
    |s| == PrefixLength + 1 && IsDigit(s[0]) && forall i :: 0 < i < |s| ==> s[i] == s[0]
  }

  /** What a valid code is: ten digits, not all the same, checksum holds. */
  predicate ValidSpec(s: string) {
    IsTenDigits(s) && !IsRepdigit(s) && ChecksumHolds(s)
  }

  predicate IsValid(code: Code) {
    ValidSpec(Normalize(code))
  }

  /** The validator, step by step as the source computes it: normalise,
      test the shape, reject repdigits, accumulate the weighted sum over the
      weight table, reduce modulo 11 and compare with the control digit. */
  method NationalCodeValidator(code: Code) returns (valid: bool)
    ensures valid <==> IsValid(code)
  {
    var s := match code
      case Text(t) => t
      case Number(n) => ToDecimal(n);

    if !IsTenDigits(s) {
      return false;
    }
    if IsRepdigit(s) {
      return false;
    }

    var digits := seq(|s|, i requires 0 <= i < |s| => Value(s[i]));
    var weights := [10, 9, 8, 7, 6, 5, 4, 3, 2];
    var weightedSum := 0;
    for i := 0 to |weights|
      invariant weightedSum == WeightedSum(s[..i])
    {
      assert s[..i + 1][..i] == s[..i];
      weightedSum := weightedSum + digits[i] * weights[i];
    }

    var remainder := weightedSum % 11;
    var controlDigit := digits[9];

    valid := (remainder < 2 && controlDigit == remainder)
          || (remainder >= 2 && controlDigit == 11 - remainder);
  }

  /** Anything that is not exactly ten decimal digits is rejected: a wrong
      length, a non-digit character, the empty text. */
  lemma RejectsMalformed(code: Code)
    requires !IsTenDigits(Normalize(code))
    ensures !IsValid(code)
  {
  }

  /** The ten repdigits are rejected whatever their checksum. */
  lemma RejectsRepdigits(c: char)
    requires IsDigit(c)
    ensures IsRepdigit(Repeat(c, PrefixLength + 1))
    ensures !IsValid(Text(Repeat(c, PrefixLength + 1)))
  {
  }

  /** A ten-digit string is a repdigit exactly when it is ten copies of
      some digit. */
  lemma RepdigitIsRepeat(s: string)
    requires IsTenDigits(s)
    ensures IsRepdigit(s) <==> s == Repeat(s[0], PrefixLength + 1)
  {
  }

  /** The explicit repdigit rejection is not redundant: without it every
      repdigit would pass, since each satisfies the checksum on its own. */
  lemma RepdigitsPassChecksum(s: string)
    requires IsTenDigits(s) && IsRepdigit(s)
    ensures ChecksumHolds(s)
    ensures !ValidSpec(s)
  {
    RepdigitIsRepeat(s);
    RepdigitChecksum(s[0]);
  }

  /** The two branches of the final comparison. For a well-shaped,
      non-repdigit code with remainder r of its weighted sum: below 2 the
      control digit must equal r; from 2 on it must equal 11 - r, which is
      a single digit 1 .. 9, so remainder 10 demands control digit 1. */
  lemma ControlDigitCases(s: string)
    requires IsTenDigits(s) && !IsRepdigit(s)
    ensures Remainder(s[..PrefixLength]) < 2 ==>
              (ValidSpec(s) <==> Value(s[PrefixLength]) == Remainder(s[..PrefixLength]))
    ensures Remainder(s[..PrefixLength]) >= 2 ==>
              (ValidSpec(s) <==> Value(s[PrefixLength]) == 11 - Remainder(s[..PrefixLength]))
    ensures Remainder(s[..PrefixLength]) == 10 ==> (ValidSpec(s) <==> s[PrefixLength] == '1')
  {
  }

  /** A nine-digit prefix can be completed to a valid code if and only if
      its digits are not all the same: otherwise the only control digit the
      checksum admits produces a repdigit. */
  lemma {:induction false} CompletionExists(p: string)
    requires AllDigits(p) && |p| == PrefixLength
    ensures (exists c :: IsDigit(c) && ValidSpec(p + [c]))
            <==> !(forall i :: 0 <= i < |p| ==> p[i] == p[0])
  {
    var control := ControlDigit(p);
    var s := p + [control];
    assert s[..PrefixLength] == p;
    if forall i :: 0 <= i < |p| ==> p[i] == p[0] {
      forall c | IsDigit(c)
        ensures !ValidSpec(p + [c])
      {
        var t := p + [c];
        UniqueControlDigit(p, c);
        UniqueControlDigit(p, p[0]);
        assert t[..PrefixLength] == p;
        assert p + [p[0]] == Repeat(p[0], PrefixLength + 1);
        RepdigitChecksum(p[0]);
        if ChecksumHolds(t) {
          assert c == p[0];
          assert IsRepdigit(t);
        }
      }
    } else {
      var i :| 0 <= i < |p| && p[i] != p[0];
      assert s[i] != s[0];
      assert ValidSpec(s);
    }
  }

  /** A number below 10^9 renders to fewer than ten digits and is rejected,
      as is a number of 10^10 or more. */
  lemma RejectsShortAndLongNumbers(n: nat)
    requires n < Pow10(9) || Pow10(10) <= n
    ensures !IsValid(Number(n))
  {
  }

  /** A code whose text starts with '0' is never the rendering of a number,
      so it can only be validated when passed as text. */
  lemma LeadingZeroOnlyAsText(s: string)
    requires IsTenDigits(s) && s[0] == '0'
    ensures forall n: nat :: Normalize(Number(n)) != s
  {
  }

  /** A ten-digit text without a leading zero is judged exactly like the
      number it denotes. */
  lemma NumberAgreesWithText(s: string)
    requires IsTenDigits(s) && s[0] != '0'
    ensures Normalize(Number(FromDecimal(s))) == s
    ensures IsValid(Number(FromDecimal(s))) <==> IsValid(Text(s))
  {
    ToFromDecimal(s);
  }

  /** Validity of a ten-digit string with the weighted sum written out:
      the form in which the concrete codes below are checked. */
  lemma ValidByDigits(s: string)
    requires IsTenDigits(s)
    ensures ValidSpec(s) <==>
      !IsRepdigit(s) &&
      Value(s[9]) == ExpectedControl(
        (10 * Value(s[0]) + 9 * Value(s[1]) + 8 * Value(s[2]) + 7 * Value(s[3])
         + 6 * Value(s[4]) + 5 * Value(s[5]) + 4 * Value(s[6]) + 3 * Value(s[7])
         + 2 * Value(s[8])) % 11)
  {
    ClosedForm(s[..PrefixLength]);
  }

  /** Valid codes on both sides of the remainder-2 boundary:
      "0499370899" has sum 266 and remainder 2, so the complement branch
      expects 9; "1234567891" has sum 210 and remainder 1, and
      "0100000010" has sum 11 and remainder 0, so the direct branch expects
      the remainder itself. "0123456789", the example in the documentation
      comment, has sum 156 and remainder 2, and its control digit 9 fits. */
  lemma ExampleCodes()
    ensures ValidSpec("0499370899")
    ensures ValidSpec("0123456789")
    ensures ValidSpec("1234567891")
    ensures ValidSpec("0100000010")
  {
    ValidByDigits("0499370899");
    ValidByDigits("1234567891");
    ValidByDigits("0100000010");
    ValidByDigits("0123456789");
    assert "0499370899"[1] != "0499370899"[0];
    assert "1234567891"[1] != "1234567891"[0];
    assert "0100000010"[1] != "0100000010"[0];
    assert "0123456789"[1] != "0123456789"[0];
  }

  /** Prefix "100000000": sum 10, remainder 10, so control digit 1 is
      accepted and control digit 0 is not. */
  lemma ExampleRemainderTen()
    ensures ValidSpec("1000000001")
    ensures !ValidSpec("1000000000")
  {
    ValidByDigits("1000000001");
    ValidByDigits("1000000000");
    assert "1000000001"[1] != "1000000001"[0];
  }

  /** Rejected shapes: repdigits, wrong lengths, non-digits. */
  lemma ExampleRejected()
    ensures !ValidSpec("1111111111") && !ValidSpec("0000000000")
    ensures !ValidSpec("12345") && !ValidSpec("12345678901") && !ValidSpec("12345abcde")
  {
  }
}
