/**
 * The tempo control of the demo component: a cycles-per-minute value from a
 * number input is validated, an invalid one raises the error flag, and a
 * valid one is written into the tune text by rewriting its first
 * `setcps(...)` call to `setcps(<value>/60/4)`.
 */
module TempoControl {
  import opened Wrappers
  import opened NumberText

  /**
   * `e.target.valueAsNumber`: NaN for an empty or unreadable input, otherwise
   * the decimal number `mantissa / 10^scale`.
   */
  datatype CpmValue = NotANumber | Decimal(mantissa: int, scale: nat)

  /** The negation of `isNaN(value) || value <= 0`: a number whose value is positive. */
  predicate IsValidCpm(v: CpmValue): (b: bool)
    ensures v.NotANumber? ==> !b
    ensures v.Decimal? ==> (b <==> v.mantissa as real / Pow10(v.scale) as real > 0.0)
  {
    v.Decimal? && v.mantissa > 0
  }

  const CallOpen: string := "setcps("

  /** First index at or after `from` that holds ')', or `|s|` when there is none. */
  function FirstClose(s: string, from: nat): (j: nat)
    requires from <= |s|
    ensures from <= j <= |s|
    ensures j < |s| ==> s[j] == ')'
    ensures forall m :: from <= m < j ==> s[m] != ')'
    decreases |s| - from
  {
    if from == |s| || s[from] == ')' then from else FirstClose(s, from + 1)
  }

  /** `setcps(` stands at `i`. */
  predicate OpenAt(s: string, i: nat) {
    i + |CallOpen| <= |s| && s[i..i + |CallOpen|] == CallOpen
  }

  /**
   * `/setcps\([^)]+\)/` matches at `i`: the opening, then one or more
   * characters other than ')' up to a ')'. The greedy `[^)]+` can only end
   * at the first ')', so the match exists exactly when that ')' exists and
   * is not right after the opening.
   */
  predicate CallAt(s: string, i: nat) {
    && OpenAt(s, i)
    && var c := FirstClose(s, i + |CallOpen|);
    i + |CallOpen| < c < |s|
  }

  /** End (exclusive) of the match at `i`. */
  function CallEnd(s: string, i: nat): (e: nat)
    requires CallAt(s, i)
    ensures i + |CallOpen| + 1 < e <= |s|
  {
    FirstClose(s, i + |CallOpen|) + 1
  }

  /** The strings the pattern accepts as a whole. */
  predicate IsCall(t: string) {
    && |t| > |CallOpen| + 1
    && t[..|CallOpen|] == CallOpen
    && t[|t| - 1] == ')'
    && (forall m :: |CallOpen| <= m < |t| - 1 ==> t[m] != ')')
  }

  /** Leftmost match position at or after `from`. */
  function FindCall(s: string, from: nat): (r: Option<nat>)
    ensures r.Some? ==> from <= r.value < |s| && CallAt(s, r.value)
    ensures r.Some? ==> forall j :: from <= j < r.value ==> !CallAt(s, j)
    ensures r.None? ==> forall j :: from <= j ==> !CallAt(s, j)
    decreases |s| - from
  {
    if from >= |s| then None
    else if CallAt(s, from) then Some(from)
    else FindCall(s, from + 1)
  }

  /** `text.replace(/setcps\([^)]+\)/, replacement)`: only the first match is replaced. */
  function ReplaceFirstCall(s: string, replacement: string): (r: string)
    ensures FindCall(s, 0).None? ==> r == s
    ensures FindCall(s, 0).Some? ==>
              var i := FindCall(s, 0).value;
              && |r| == |s| - (CallEnd(s, i) - i) + |replacement|
              && r[..i] == s[..i]
              && r[i..i + |replacement|] == replacement
              && r[i + |replacement|..] == s[CallEnd(s, i)..]
  {
    match FindCall(s, 0)
    case None => s
    case Some(i) => s[..i] + replacement + s[CallEnd(s, i)..]
  }

  /** The replacement text `setcps(${value}/60/4)`. */
  function SetcpsCall(v: CpmValue): (t: string)
    requires IsValidCpm(v)
    ensures IsCall(t)
    ensures '$' !in t
  {
    var rendered := Render(v.mantissa, v.scale);
    var t := CallOpen + (rendered + "/60/4") + ")";
    assert forall m :: 0 <= m < |rendered| ==> rendered[m] != ')';
    assert forall m :: |CallOpen| <= m < |t| - 1 ==> t[m] == (rendered + "/60/4")[m - |CallOpen|];
    t
  }

  /** The part of the component's state that `handleSetCpm` reads and writes. */
  class StrudelDemo {
    var procText: string
    var cpmError: bool

    constructor (tune: string)
      ensures procText == tune && !cpmError
    {
      procText := tune;
      cpmError := false;
    }

    /** `handleSetCpm` with `setCpmError` and `setProcText` read as field assignments. */
    method HandleSetCpm(value: CpmValue)
      modifies this
      ensures !IsValidCpm(value) ==> cpmError && procText == old(procText)
      ensures IsValidCpm(value) ==>
                !cpmError && procText == ReplaceFirstCall(old(procText), SetcpsCall(value))
    {
      if value.NotANumber? || value.mantissa <= 0 {
        cpmError := true;
        return;
      }
      cpmError := false;
      procText := ReplaceFirstCall(procText, SetcpsCall(value));
    }
  }

  /** FirstClose is the unique index with its three properties. */
  lemma FirstCloseIs(s: string, from: nat, j: nat)
    requires from <= j <= |s|
    requires j < |s| ==> s[j] == ')'
    requires forall m :: from <= m < j ==> s[m] != ')'
    ensures FirstClose(s, from) == j
  {
    var c := FirstClose(s, from);
    assert !(c < j) && !(c > j);
  }

  /** A match at `i` covers exactly one string the pattern accepts, ending at CallEnd. */
  lemma CallAtIsCall(s: string, i: nat)
    requires CallAt(s, i)
    ensures IsCall(s[i..CallEnd(s, i)])
  {
    var e := CallEnd(s, i);
    var t := s[i..e];
    assert t[..|CallOpen|] == s[i..i + |CallOpen|];
    assert forall m :: |CallOpen| <= m < |t| ==> t[m] == s[i + m];
  }

  /** Any accepted string starting at `i` is the match at `i`: the match is unique. */
  lemma IsCallIsCallAt(s: string, i: nat, e: nat)
    requires i < e <= |s| && IsCall(s[i..e])
    ensures CallAt(s, i) && CallEnd(s, i) == e
  {
    var t := s[i..e];
    assert s[i..i + |CallOpen|] == t[..|CallOpen|];
    assert forall m :: i + |CallOpen| <= m < e ==> s[m] == t[m - i];
    FirstCloseIs(s, i + |CallOpen|, e - 1);
  }

  /** `setcps()` with nothing inside is not a match. */
  lemma EmptyCallNoMatch(s: string, i: nat)
    requires OpenAt(s, i) && i + |CallOpen| < |s| && s[i + |CallOpen|] == ')'
    ensures !CallAt(s, i)
  {
  }

  /** Without a match, the text is left as it was. */
  lemma ReplaceNoMatch(s: string, replacement: string)
    requires forall j :: 0 <= j < |s| ==> !CallAt(s, j)
    ensures ReplaceFirstCall(s, replacement) == s
  {
    var r := FindCall(s, 0);
    assert !(r.Some? && CallAt(s, r.value));
  }

  /** A match with none before it is the one the scan finds. */
  lemma FindCallIs(s: string, i: nat)
    requires CallAt(s, i)
    requires forall j :: 0 <= j < i ==> !CallAt(s, j)
    ensures FindCall(s, 0) == Some(i)
  {
    var r := FindCall(s, 0);
    assert r.Some? && !(r.value < i) && !(r.value > i);
  }

  /**
   * With the leftmost match at `i`, the text before it and the text after it
   * (later `setcps(...)` calls included) are kept, and the match becomes the
   * replacement.
   */
  lemma ReplaceLeftmost(s: string, replacement: string, i: nat)
    requires CallAt(s, i)
    requires forall j :: 0 <= j < i ==> !CallAt(s, j)
    ensures var r := ReplaceFirstCall(s, replacement);
            && r == s[..i] + replacement + s[CallEnd(s, i)..]
            && r[..i] == s[..i]
            && r[i..i + |replacement|] == replacement
            && r[i + |replacement|..] == s[CallEnd(s, i)..]
  {
    FindCallIs(s, i);
  }

  /** Two texts that agree below `p` find the same first ')' from `from` when it lies below `p`. */
  lemma FirstCloseAgree(x: string, y: string, from: nat, p: nat)
    requires from <= p <= |x| && p <= |y| && x[..p] == y[..p]
    requires FirstClose(x, from) < p
    ensures FirstClose(y, from) == FirstClose(x, from)
  {
    var c := FirstClose(x, from);
    assert forall m :: from <= m <= c ==> y[m] == x[..p][m];
    FirstCloseIs(y, from, c);
  }

  /** When the first ')' from `from` is at or beyond `p`, it is the first from `p`. */
  lemma FirstCloseBeyond(s: string, from: nat, p: nat)
    requires from <= p <= |s|
    requires FirstClose(s, from) >= p
    ensures FirstClose(s, from) == FirstClose(s, p)
  {
    FirstCloseIs(s, p, FirstClose(s, from));
  }

  /**
   * `r` is `s` with the call `s[i..e]` replaced by the call `c`. A match in `r`
   * before `i` would already have been a match in `s`.
   */
  lemma NoEarlierCall(s: string, c: string, i: nat, k: nat)
    requires CallAt(s, i) && IsCall(c)
    requires k < i
    ensures CallAt(s[..i] + c + s[CallEnd(s, i)..], k) ==> CallAt(s, k)
  {
    var e := CallEnd(s, i);
    var r := s[..i] + c + s[e..];
    var p := i + |CallOpen|;
    ReplacedPrefix(s, c, i);
    if CallAt(r, k) {
      SliceAgree(r, s, p, k, k + |CallOpen|);
      var from := k + |CallOpen|;
      if FirstClose(r, from) < p {
        FirstCloseAgree(r, s, from, p);
      } else {
        assert FirstClose(s, from) >= p by {
          if FirstClose(s, from) < p { FirstCloseAgree(s, r, from, p); }
        }
        FirstCloseBeyond(s, from, p);
      }
    }
  }

  /** Replacing a call with a call keeps the text up to the end of `setcps(`. */
  lemma ReplacedPrefix(s: string, c: string, i: nat)
    requires CallAt(s, i) && IsCall(c)
    ensures var r := s[..i] + c + s[CallEnd(s, i)..];
            var p := i + |CallOpen|;
            p <= |r| && r[..p] == s[..p]
  {
    var r := s[..i] + c + s[CallEnd(s, i)..];
    var p := i + |CallOpen|;
    assert forall m :: 0 <= m < i ==> r[m] == s[m];
    assert forall m :: i <= m < p ==> r[m] == c[m - i] == CallOpen[m - i] == s[m];
  }

  lemma SliceAgree(x: string, y: string, p: nat, lo: nat, hi: nat)
    requires lo <= hi <= p <= |x| && p <= |y| && x[..p] == y[..p]
    ensures x[lo..hi] == y[lo..hi]
  {
    forall m | 0 <= m < hi - lo ensures x[lo..hi][m] == y[lo..hi][m] {
      assert x[lo + m] == x[..p][lo + m];
      assert y[lo + m] == y[..p][lo + m];
    }
  }

  /** The replaced call is a match of the rewritten text at the same place. */
  lemma CallAtReplaced(s: string, c: string, i: nat)
    requires CallAt(s, i) && IsCall(c)
    ensures var r := s[..i] + c + s[CallEnd(s, i)..];
            CallAt(r, i) && CallEnd(r, i) == i + |c|
  {
    var r := s[..i] + c + s[CallEnd(s, i)..];
    assert r[i..i + |c|] == c;
    IsCallIsCallAt(r, i, i + |c|);
  }

  /** Rewriting with a replacement that is itself a call is idempotent. */
  lemma ReplaceIdempotent(s: string, c: string)
    requires IsCall(c)
    ensures ReplaceFirstCall(ReplaceFirstCall(s, c), c) == ReplaceFirstCall(s, c)
  {
    match FindCall(s, 0)
    case None =>
    case Some(i) =>
      var e := CallEnd(s, i);
      var r := s[..i] + c + s[e..];
      assert ReplaceFirstCall(s, c) == r;
      CallAtReplaced(s, c, i);
      forall k | 0 <= k < i ensures !CallAt(r, k) {
        NoEarlierCall(s, c, i, k);
      }
      ReplaceLeftmost(r, c, i);
      assert r[..i] == s[..i];
      assert r[i + |c|..] == s[e..];
  }

  /** Setting the same valid tempo twice gives the text that setting it once gives. */
  lemma SetCpmIdempotent(s: string, v: CpmValue)
    requires IsValidCpm(v)
    ensures ReplaceFirstCall(ReplaceFirstCall(s, SetcpsCall(v)), SetcpsCall(v))
            == ReplaceFirstCall(s, SetcpsCall(v))
  {
    ReplaceIdempotent(s, SetcpsCall(v));
  }

  /** The number written into the call reads back as the value that was set. */
  lemma SetcpsCallValue(v: CpmValue)
    requires IsValidCpm(v)
    ensures var t := SetcpsCall(v);
            var rendered := Render(v.mantissa, v.scale);
            t == CallOpen + rendered + "/60/4)" &&
            LexemeValue(rendered) == v.mantissa as real / Pow10(v.scale) as real
  {
    RenderValue(v.mantissa, v.scale);
  }
}
