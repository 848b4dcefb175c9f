/**
 The checksum of an Iranian national code: the first nine digits are
 weighted 10 down to 2, the weighted sum is reduced modulo 11, and the
 remainder determines the one control digit that the tenth position must
 hold.
 */
module Checksum {
  import opened Decimal

  /** Number of digits the weighted sum covers; the control digit follows. */
  const PrefixLength: nat := 9

  /** The weight of position i among the first nine digits: 10, 9, ..., 2. */
  function Weight(i: nat): (w: nat)
    requires i < PrefixLength
    ensures 2 <= w <= 10
  {
    10 - i
  }

  /** The sum of the weights of the first k positions. */
  function WeightTotal(k: nat): nat
    requires k <= PrefixLength
  {
    if k == 0 then 0 else WeightTotal(k - 1) + Weight(k - 1)
  }

  /** The weighted sum of a prefix of a code: the sum over its positions i of
      digit(i) * (10 - i). Defined by peeling off the LAST position, which is
      how a left-to-right loop accumulates it. */
  function WeightedSum(p: string): (r: nat)
    requires AllDigits(p) && |p| <= PrefixLength
    ensures r <= 9 * WeightTotal(|p|)
  {
    if |p| == 0 then 0
    else
      var k := |p| - 1;
      assert Value(p[k]) * Weight(k) <= 9 * Weight(k);
      WeightedSum(p[..k]) + Value(p[k]) * Weight(k)
  }

  /** The same sum defined independently, from position i onwards by peeling
      off the FIRST position: the textbook sum over i = start .. |p| - 1. */
  function SumFrom(p: string, start: nat): nat
    requires AllDigits(p) && start <= |p| <= PrefixLength
    decreases |p| - start
  {
    if start == |p| then 0
    else Value(p[start]) * Weight(start) + SumFrom(p, start + 1)
  }

  /** Splitting the sum at any position: the part accumulated so far plus
      the part still to come. */
  lemma {:induction false} SumSplit(p: string, k: nat)
    requires AllDigits(p) && k <= |p| <= PrefixLength
    ensures WeightedSum(p) == WeightedSum(p[..k]) + SumFrom(p, k)
    decreases |p| - k
  {
    if k == |p| {
      assert p[..k] == p;
    } else {
      SumSplit(p, k + 1);
      assert p[..k + 1][..k] == p[..k];
    }
  }

  /** The two definitions of the weighted sum agree. */
  lemma SumAgrees(p: string)
    requires AllDigits(p) && |p| <= PrefixLength
    ensures WeightedSum(p) == SumFrom(p, 0)
  {
    SumSplit(p, 0);
    assert p[..0] == [];
  }

  /** The weighted sum of nine digits written out term by term, with the
      weights 10, 9, ..., 2 of the source's weight table. */
  lemma ClosedForm(p: string)
    requires AllDigits(p) && |p| == PrefixLength
    ensures WeightedSum(p) ==
      10 * Value(p[0]) + 9 * Value(p[1]) + 8 * Value(p[2]) + 7 * Value(p[3]) + 6 * Value(p[4])
      + 5 * Value(p[5]) + 4 * Value(p[6]) + 3 * Value(p[7]) + 2 * Value(p[8])
  {
    SumAgrees(p);
    assert SumFrom(p, 8) == 2 * Value(p[8]);
    assert SumFrom(p, 7) == 3 * Value(p[7]) + SumFrom(p, 8);
    assert SumFrom(p, 6) == 4 * Value(p[6]) + SumFrom(p, 7);
    assert SumFrom(p, 5) == 5 * Value(p[5]) + SumFrom(p, 6);
    assert SumFrom(p, 4) == 6 * Value(p[4]) + SumFrom(p, 5);
    assert SumFrom(p, 3) == 7 * Value(p[3]) + SumFrom(p, 4);
    assert SumFrom(p, 2) == 8 * Value(p[2]) + SumFrom(p, 3);
    assert SumFrom(p, 1) == 9 * Value(p[1]) + SumFrom(p, 2);
  }

  /** The weighted sum of nine digits lies in 0 .. 9 * 54 = 486. */
  lemma SumBound(p: string)
    requires AllDigits(p) && |p| == PrefixLength
    ensures WeightedSum(p) <= 486
  {
  }

  /** The control digit the official algorithm expects for a remainder:
      the remainder itself below 2, and 11 minus the remainder otherwise. */
  function ExpectedControl(remainder: nat): (d: nat)
    requires remainder < 11
    ensures d <= 9
    ensures remainder != 1 ==> (remainder + d) % 11 == 0
    ensures d == 1 <==> remainder == 1 || remainder == 10
    ensures d == 0 <==> remainder == 0
  {
    if remainder < 2 then remainder else 11 - remainder
  }

  /** The remainder of the weighted sum of the first nine digits. */
  function Remainder(p: string): (r: nat)
    requires AllDigits(p) && |p| == PrefixLength
    ensures r < 11
  {
    WeightedSum(p) % 11
  }

  /** A ten-digit string whose last digit is the one its first nine call for. */
  predicate ChecksumHolds(s: string)
    requires |s| == PrefixLength + 1 && AllDigits(s)
  {
    Value(s[PrefixLength]) == ExpectedControl(Remainder(s[..PrefixLength]))
  }

  /** The control digit that completes a nine-digit prefix. */
  function ControlDigit(p: string): (c: char)
    requires AllDigits(p) && |p| == PrefixLength
    ensures IsDigit(c)
    ensures ChecksumHolds(p + [c])
  {
    var c := Char(ExpectedControl(Remainder(p)));
    assert (p + [c])[..PrefixLength] == p;
    c
  }

  /** Every nine-digit prefix has exactly one control digit: the checksum
      holds of the completed code if and only if the tenth digit is the
      one `ControlDigit` yields. */
  lemma UniqueControlDigit(p: string, c: char)
    requires AllDigits(p) && |p| == PrefixLength && IsDigit(c)
    ensures ChecksumHolds(p + [c]) <==> c == ControlDigit(p)
  {
  }

  /** A string of k copies of one character. */
  function Repeat(c: char, k: nat): (s: string)
    ensures |s| == k
    ensures forall i :: 0 <= i < k ==> s[i] == c
  {
    seq(k, _ => c)
  }

  /** The weighted sum of a run of one digit is that digit times the sum of
      the weights. */
  lemma {:induction false} RepeatSum(c: char, k: nat)
    requires IsDigit(c) && k <= PrefixLength
    ensures WeightedSum(Repeat(c, k)) == Value(c) * WeightTotal(k)
  {
    if k > 0 {
      RepeatSum(c, k - 1);
      assert Repeat(c, k)[..k - 1] == Repeat(c, k - 1);
      calc {
        WeightedSum(Repeat(c, k));
        Value(c) * WeightTotal(k - 1) + Value(c) * Weight(k - 1);
        Value(c) * (WeightTotal(k - 1) + Weight(k - 1));
      }
    }
  }

  /** Every repdigit "dddddddddd" satisfies the checksum. The weights add up
      to 54, which is -1 modulo 11, so the remainder is 11 - d for d >= 1 and
      the expected control digit is d again. */
  lemma RepdigitChecksum(c: char)
    requires IsDigit(c)
    ensures ChecksumHolds(Repeat(c, PrefixLength + 1))
  {
    var s := Repeat(c, PrefixLength + 1);
    assert s[..PrefixLength] == Repeat(c, PrefixLength);
    RepeatSum(c, PrefixLength);
    assert WeightTotal(PrefixLength) == 54;
    var d := Value(c);
    if d > 0 {
      assert 54 * d == 11 * (5 * d - 1) + (11 - d);
      assert (54 * d) % 11 == 11 - d;
    }
  }
}
