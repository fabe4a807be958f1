/**
 * `parseGain` on particular log lines, each derived from the general lemmas
 * of GainGraph: the leftmost number wins, the longest lexeme is read, a
 * point needs a digit after it, and a label without a number is skipped.
 */
module GainExamples {
  import opened NumberText
  import opened GainGraph

  /** Values up to 2^53 are finite, so `parseGain` keeps them. */
  lemma SmallFinite(v: real)
    requires v <= 9007199254740992.0
    ensures FiniteOrZero(v) == v
  {
  }

  /** A one-digit string has that digit's value. */
  lemma OneDigit(t: string)
    requires |t| == 1 && IsDigit(t[0])
    ensures AllDigits(t) && DigitsValue(t) == DigitValue(t[0])
  {
    assert t[..0] == "";
  }

  /** A two-digit string has the value 10 * first + second. */
  lemma TwoDigits(t: string)
    requires |t| == 2 && IsDigit(t[0]) && IsDigit(t[1])
    ensures AllDigits(t) && DigitsValue(t) == 10 * DigitValue(t[0]) + DigitValue(t[1])
  {
    OneDigit(t[..1]);
  }

  lemma Shape1234(s: string)
    requires s == "gain:12.34"
    ensures LabelAt(s, 0) && AfterLabel(s, 0) == "12" + "." + "34" + ""
  {
  }

  /** `gain:12.34` gives 12.34: the digits on both sides of the point are read. */
  lemma ParseGain1234(s: string)
    requires s == "gain:12.34"
    ensures ParseGain(Str(s)) == 12.34
  {
    Shape1234(s);
    TwoDigits("12");
    TwoDigits("34");
    assert Pow10(2) == 100;
    ParseGainDecimal(s, 0, "12", "34", "");
    SmallFinite(12.34);
  }

  lemma ShapePoint5(s: string)
    requires s == "gain:.5"
    ensures LabelAt(s, 0) && AfterLabel(s, 0) == "" + "." + "5" + ""
  {
  }

  /** `gain:.5` gives 0.5: the integer part may be empty. */
  lemma ParseGainPoint5(s: string)
    requires s == "gain:.5"
    ensures ParseGain(Str(s)) == 0.5
  {
    ShapePoint5(s);
    OneDigit("5");
    assert AllDigits("") && Pow10(1) == 10;
    ParseGainDecimal(s, 0, "", "5", "");
    SmallFinite(0.5);
  }

  lemma ShapeOnePoint(s: string)
    requires s == "gain:1."
    ensures LabelAt(s, 0) && AfterLabel(s, 0) == "1" + "."
  {
  }

  /** `gain:1.` gives 1: a point with no digit after it is not part of the number. */
  lemma ParseGainOnePoint(s: string)
    requires s == "gain:1."
    ensures ParseGain(Str(s)) == 1.0
  {
    ShapeOnePoint(s);
    OneDigit("1");
    ParseGainInteger(s, 0, "1", ".");
    SmallFinite(1.0);
  }

  lemma ShapeTwoPoints(s: string)
    requires s == "gain:1.2.3"
    ensures LabelAt(s, 0) && AfterLabel(s, 0) == "1" + "." + "2" + ".3"
  {
  }

  /** `gain:1.2.3` gives 1.2: a second point ends the number. */
  lemma ParseGainTwoPoints(s: string)
    requires s == "gain:1.2.3"
    ensures ParseGain(Str(s)) == 1.2
  {
    ShapeTwoPoints(s);
    OneDigit("1");
    OneDigit("2");
    assert Pow10(1) == 10;
    ParseGainDecimal(s, 0, "1", "2", ".3");
    SmallFinite(1.2);
  }

  lemma ShapeBareLabel(s: string)
    requires s == "gain:x gain:3"
    ensures s == "gain:x " + "gain:3"
    ensures forall j :: 0 <= j < |"gain:x "| ==> !MatchAt(s, j)
  {
    forall j | 0 <= j < |"gain:x "| ensures !MatchAt(s, j) {
      if j == 0 {
        assert AfterLabel(s, 0)[0] == 'x';
      } else {
        assert s[j..j + |Label|][0] == s[j] != 'g';
      }
    }
  }

  lemma ShapeThree(s: string)
    requires s == "gain:3"
    ensures LabelAt(s, 0) && AfterLabel(s, 0) == "3" + ""
  {
  }

  /** `gain:x gain:3` gives 3: a label without a number is skipped. */
  lemma ParseGainBareLabel(s: string)
    requires s == "gain:x gain:3"
    ensures ParseGain(Str(s)) == 3.0
  {
    ShapeBareLabel(s);
    ParseGainSkipsBareLabels("gain:x ", "gain:3");
    ShapeThree("gain:3");
    OneDigit("3");
    ParseGainInteger("gain:3", 0, "3", "");
    SmallFinite(3.0);
  }

  /** `gain:NaN` gives 0: the label is not followed by a number. */
  lemma ParseGainNaN(s: string)
    requires s == "gain:NaN"
    ensures ParseGain(Str(s)) == 0.0
  {
    forall i: nat ensures LabelAt(s, i) ==> i == 0 {
      if 0 < i && i + |Label| <= |s| {
        assert s[i..i + |Label|][0] == s[i] != 'g';
      }
    }
    ParseGainNoNumber(s);
  }
}
