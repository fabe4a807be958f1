/**
 * `handleSetCpm` on particular tune texts, derived from the general lemmas
 * of TempoControl: the first call is rewritten with the value written out,
 * and an empty `setcps()` is passed over.
 */
module TempoExamples {
  import opened NumberText
  import opened TempoControl

  /** 120 is written as `120`. */
  lemma Render120()
    ensures Render(120, 0) == "120"
  {
    assert NatDigits(1) == "1";
    assert NatDigits(12) == "1" + ['2'];
    assert NatDigits(120) == "12" + ['0'];
  }

  /** 0.5 (mantissa 5, one decimal) is written as `0.5`. */
  lemma RenderHalf()
    ensures Render(5, 1) == "0.5"
  {
    assert NatDigits(5) == "5";
    assert Zeros(0) == "";
  }

  /** 1.50 (mantissa 150, two decimals) loses its trailing zero: `1.5`. */
  lemma RenderTrailingZero()
    ensures Render(150, 2) == "1.5"
  {
    assert Render(150, 2) == Render(15, 1);
    assert NatDigits(1) == "1";
    assert NatDigits(15) == "1" + ['5'];
  }

  lemma Call140(s: string)
    requires s == "setcps(140/60/4)"
    ensures CallAt(s, 0) && CallEnd(s, 0) == |s|
  {
    assert s[..|CallOpen|] == CallOpen;
    FirstCloseIs(s, |CallOpen|, |s| - 1);
  }

  /** Setting 120 on `setcps(140/60/4)` gives `setcps(120/60/4)`. */
  lemma SetCpm120(s: string)
    requires s == "setcps(140/60/4)"
    ensures ReplaceFirstCall(s, SetcpsCall(Decimal(120, 0))) == "setcps(120/60/4)"
  {
    Call140(s);
    Render120();
    ReplaceLeftmost(s, SetcpsCall(Decimal(120, 0)), 0);
    assert s[..0] == "" && s[|s|..] == "";
  }

  lemma ShapeEmptyThenCall(s: string)
    requires s == "setcps() setcps(1)"
    ensures OpenAt(s, 0) && s[|CallOpen|] == ')'
    ensures forall j :: 0 < j < 9 ==> !OpenAt(s, j)
    ensures s[9..] == "setcps(1)"
  {
    forall j | 0 < j < 9 ensures !OpenAt(s, j) {
      if j + |CallOpen| <= |s| {
        assert s[j..j + |CallOpen|][0] == s[j] != 's' || s[j..j + |CallOpen|][1] == s[j + 1] != 'e';
      }
    }
  }

  /** In `setcps() setcps(1)` the empty call is not a match; the second call is replaced. */
  lemma SetCpmSkipsEmptyCall(s: string, c: string)
    requires s == "setcps() setcps(1)" && IsCall(c)
    ensures ReplaceFirstCall(s, c) == "setcps() " + c
  {
    ShapeEmptyThenCall(s);
    EmptyCallNoMatch(s, 0);
    assert s[9..9 + |CallOpen|] == CallOpen;
    FirstCloseIs(s, 9 + |CallOpen|, |s| - 1);
    assert CallAt(s, 9) && CallEnd(s, 9) == |s|;
    ReplaceLeftmost(s, c, 9);
    assert s[..9] == "setcps() " && s[|s|..] == "";
  }
}
