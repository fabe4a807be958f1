/**
 * The gain chart's data path: `parseGain` turns each intercepted log line
 * into a number, the chart maps it over the logged array, and bounds the
 * x-domain and the number of x-axis ticks by the number of points.
 */
module GainGraph {
  import opened Wrappers
  import opened NumberText

  /** A logged value: a string, or anything else JavaScript may hand over. */
  datatype LogValue = Str(s: string) | NotString

  const Label: string := "gain:"

  /** 2^194; five of them make 2^970. */
  const TwoTo194: int := 0x4_0000_0000_0000_0000_0000_0000_0000_0000_0000_0000_0000_0000

  /**
   * The least decimal value that `Number()` rounds to Infinity: the largest
   * finite double, (2^53 - 1) * 2^971, plus half a unit in its last place,
   * 2^970; that is (2^54 - 1) * 2^970. Below it the parse is finite.
   */
  const FiniteLimit: real :=
    (0x3F_FFFF_FFFF_FFFF * TwoTo194 * TwoTo194 * TwoTo194 * TwoTo194 * TwoTo194) as real

  predicate IsFinite(v: real) {
    v < FiniteLimit
  }

  /** `Number.isFinite(v) ? v : 0`. */
  function FiniteOrZero(v: real): (r: real)
    ensures IsFinite(r)
    ensures IsFinite(v) ==> r == v
    ensures !IsFinite(v) ==> r == 0.0
  {
    if IsFinite(v) then v else 0.0
  }

  /** The label stands at `i`. */
  predicate LabelAt(s: string, i: nat) {
    i + |Label| <= |s| && s[i..i + |Label|] == Label
  }

  /** The text after a label at `i`. */
  function AfterLabel(s: string, i: nat): string
    requires i + |Label| <= |s|
  {
    s[i + |Label|..]
  }

  /** The pattern `gain:([0-9]*\.?[0-9]+)` matches starting at `i`. */
  predicate MatchAt(s: string, i: nat) {
    LabelAt(s, i) && NumberStarts(AfterLabel(s, i))
  }

  /** Leftmost match position at or after `from`, as the regex engine scans. */
  function FindGain(s: string, from: nat): (r: Option<nat>)
    ensures r.Some? ==> from <= r.value < |s| && MatchAt(s, r.value)
    ensures r.Some? ==> forall j :: from <= j < r.value ==> !MatchAt(s, j)
    ensures r.None? ==> forall j :: from <= j ==> !MatchAt(s, j)
    decreases |s| - from
  {
    if from >= |s| then None
    else if MatchAt(s, from) then Some(from)
    else FindGain(s, from + 1)
  }

  /** The capture group `m[1]`, or None when `str.match` gives null. */
  function GainCapture(s: string): (r: Option<string>)
    ensures r.None? <==> forall j :: 0 <= j ==> !MatchAt(s, j)
    ensures r.Some? ==> IsLexeme(r.value)
    ensures r.Some? ==> var rest := AfterLabel(s, FindGain(s, 0).value);
                        && r.value <= rest
                        && forall k :: |r.value| < k <= |rest| ==> !IsLexeme(rest[..k])
  {
    match FindGain(s, 0)
    case None => None
    case Some(i) =>
      var rest := AfterLabel(s, i);
      LexemeStart(rest);
      LexemeLongest(rest);
      Some(rest[..LexemeLength(rest)])
  }

  /** `parseGain(str)`. */
  function ParseGain(x: LogValue): (r: real)
    ensures 0.0 <= r && IsFinite(r)
  {
    match x
    case NotString => 0.0
    case Str(s) =>
      if s == "" then 0.0
      else
        match GainCapture(s)
        case None => 0.0
        case Some(t) =>
          FiniteOrZero(LexemeValue(t))
  }

  /** A value that is not a string, and the empty string, give 0. */
  lemma ParseGainFalsy(x: LogValue)
    requires x == NotString || x == Str("")
    ensures ParseGain(x) == 0.0
  {
  }

  /** No label in `s` is followed by a digit, or by a point and a digit: the result is 0. */
  lemma ParseGainNoNumber(s: string)
    requires forall i: nat :: LabelAt(s, i) ==>
               var j := i + |Label|;
               !(j < |s| && IsDigit(s[j])) && !(j + 1 < |s| && s[j] == '.' && IsDigit(s[j + 1]))
    ensures ParseGain(Str(s)) == 0.0
  {
    forall i: nat ensures !MatchAt(s, i) {
      if LabelAt(s, i) {
        var j := i + |Label|;
        if j < |s| { assert s[j..][0] == s[j]; }
        if j + 1 < |s| { assert s[j..][1] == s[j + 1]; }
      }
    }
    assert FindGain(s, 0).None?;
  }

  /** The leftmost match at `i` decides the result: its lexeme's value, if finite. */
  lemma ParseGainAt(s: string, i: nat)
    requires MatchAt(s, i)
    requires forall j :: 0 <= j < i ==> !MatchAt(s, j)
    ensures var rest := AfterLabel(s, i);
            ParseGain(Str(s)) == FiniteOrZero(LexemeValue(rest[..LexemeLength(rest)]))
  {
    FindGainIs(s, i);
  }

  /**
   * When the leftmost match is at `i` and `k` is the length of the longest
   * prefix after the label that the lexeme grammar accepts, the result is
   * that lexeme's value, or 0 if `Number()` would overflow.
   */
  lemma ParseGainLeftmost(s: string, i: nat, k: nat)
    requires LabelAt(s, i) && 0 < k <= |AfterLabel(s, i)|
    requires forall j :: 0 <= j < i ==> !MatchAt(s, j)
    requires IsLexeme(AfterLabel(s, i)[..k])
    requires forall k' :: k < k' <= |AfterLabel(s, i)| ==> !IsLexeme(AfterLabel(s, i)[..k'])
    ensures ParseGain(Str(s)) == FiniteOrZero(LexemeValue(AfterLabel(s, i)[..k]))
  {
    var rest := AfterLabel(s, i);
    LexemeLongest(rest);
    assert LexemeLength(rest) == k;
    LexemeStart(rest);
    ParseGainAt(s, i);
  }

  /**
   * The leftmost match is a label directly followed by digits `a`, a point,
   * digits `b` and then anything but a digit: the result is the value a.b
   * (`a` may be empty, as in `gain:.5`; a second point ends the number, as
   * in `gain:1.2.3`).
   */
  lemma ParseGainDecimal(s: string, i: nat, a: string, b: string, rest: string)
    requires LabelAt(s, i) && AfterLabel(s, i) == a + "." + b + rest
    requires forall j :: 0 <= j < i ==> !MatchAt(s, j)
    requires AllDigits(a) && AllDigits(b) && |b| > 0
    requires rest == "" || !IsDigit(rest[0])
    ensures ParseGain(Str(s)) == FiniteOrZero(LexemeValue(a + "." + b))
    ensures LexemeValue(a + "." + b) == DigitsValue(a) as real + FractionValue(b)
  {
    LexemeDecimal(a, b, rest);
    LexemeStart(AfterLabel(s, i));
    ParseGainAt(s, i);
    PointValue(a, b);
  }

  /**
   * The leftmost match is a label directly followed by digits `a` and then
   * neither a digit nor a point with a digit after it: the result is the
   * integer `a` (as in `gain:1.`, which gives 1).
   */
  lemma ParseGainInteger(s: string, i: nat, a: string, rest: string)
    requires LabelAt(s, i) && AfterLabel(s, i) == a + rest
    requires forall j :: 0 <= j < i ==> !MatchAt(s, j)
    requires AllDigits(a) && |a| > 0
    requires rest == "" || (!IsDigit(rest[0]) && !(rest[0] == '.' && |rest| > 1 && IsDigit(rest[1])))
    ensures ParseGain(Str(s)) == FiniteOrZero(DigitsValue(a) as real)
  {
    LexemeInteger(a, rest);
    LexemeStart(AfterLabel(s, i));
    ParseGainAt(s, i);
  }

  /** Matching looks only forward: a prefix shifts every match position. */
  lemma MatchShift(prefix: string, s: string, j: nat)
    ensures MatchAt(prefix + s, |prefix| + j) == MatchAt(s, j)
  {
    var t := prefix + s;
    if j + |Label| <= |s| {
      assert t[|prefix| + j..|prefix| + j + |Label|] == s[j..j + |Label|];
      assert AfterLabel(t, |prefix| + j) == AfterLabel(s, j);
    }
  }

  /** A match with none before it is the one the scan finds. */
  lemma FindGainIs(t: string, p: nat)
    requires MatchAt(t, p)
    requires forall j :: 0 <= j < p ==> !MatchAt(t, j)
    ensures FindGain(t, 0) == Some(p)
  {
    var r := FindGain(t, 0);
    assert r.Some? && !(r.value < p) && !(r.value > p);
  }

  /** With no match inside `prefix`, the leftmost match moves by `|prefix|`. */
  lemma FindGainShift(prefix: string, s: string)
    requires forall j :: 0 <= j < |prefix| ==> !MatchAt(prefix + s, j)
    ensures FindGain(prefix + s, 0) == match FindGain(s, 0)
                                       case None => None
                                       case Some(i) => Some(|prefix| + i)
  {
    if FindGain(s, 0).Some? {
      FindGainShiftSome(prefix, s, FindGain(s, 0).value);
    } else {
      FindGainShiftNone(prefix, s);
    }
  }

  lemma FindGainShiftSome(prefix: string, s: string, i: nat)
    requires forall j :: 0 <= j < |prefix| ==> !MatchAt(prefix + s, j)
    requires FindGain(s, 0) == Some(i)
    ensures FindGain(prefix + s, 0) == Some(|prefix| + i)
  {
    LeftmostShift(prefix, s, i);
    FindGainIs(prefix + s, |prefix| + i);
  }

  lemma FindGainShiftNone(prefix: string, s: string)
    requires forall j :: 0 <= j < |prefix| ==> !MatchAt(prefix + s, j)
    requires FindGain(s, 0) == None
    ensures FindGain(prefix + s, 0) == None
  {
    NoMatchShift(prefix, s);
    FindGainNone(prefix + s);
  }

  lemma FindGainNone(t: string)
    requires forall j :: 0 <= j ==> !MatchAt(t, j)
    ensures FindGain(t, 0) == None
  {
  }

  lemma LeftmostShift(prefix: string, s: string, i: nat)
    requires forall j :: 0 <= j < |prefix| ==> !MatchAt(prefix + s, j)
    requires MatchAt(s, i) && forall j :: 0 <= j < i ==> !MatchAt(s, j)
    ensures MatchAt(prefix + s, |prefix| + i)
    ensures forall j :: 0 <= j < |prefix| + i ==> !MatchAt(prefix + s, j)
  {
    MatchShift(prefix, s, i);
    forall j | |prefix| <= j < |prefix| + i ensures !MatchAt(prefix + s, j) {
      MatchShift(prefix, s, j - |prefix|);
    }
  }

  lemma NoMatchShift(prefix: string, s: string)
    requires forall j :: 0 <= j < |prefix| ==> !MatchAt(prefix + s, j)
    requires forall j :: 0 <= j ==> !MatchAt(s, j)
    ensures forall j :: 0 <= j ==> !MatchAt(prefix + s, j)
  {
    forall j: nat | |prefix| <= j ensures !MatchAt(prefix + s, j) {
      MatchShift(prefix, s, j - |prefix|);
    }
  }

  /**
   * Labels without a number in front of the first real match are skipped:
   * if no match starts inside `prefix`, the result is that of the rest.
   */
  lemma ParseGainSkipsBareLabels(prefix: string, s: string)
    requires forall j :: 0 <= j < |prefix| ==> !MatchAt(prefix + s, j)
    ensures ParseGain(Str(prefix + s)) == ParseGain(Str(s))
  {
    GainCaptureShift(prefix, s);
  }

  lemma GainCaptureShift(prefix: string, s: string)
    requires forall j :: 0 <= j < |prefix| ==> !MatchAt(prefix + s, j)
    ensures GainCapture(prefix + s) == GainCapture(s)
  {
    if FindGain(s, 0).Some? {
      var i := FindGain(s, 0).value;
      FindGainShiftSome(prefix, s, i);
      AfterLabelShift(prefix, s, i);
      SameCapture(prefix + s, |prefix| + i, s, i);
    } else {
      FindGainShiftNone(prefix, s);
    }
  }

  /** Two texts whose leftmost matches are followed by the same text capture the same lexeme. */
  lemma SameCapture(t: string, p: nat, s: string, i: nat)
    requires FindGain(t, 0) == Some(p) && FindGain(s, 0) == Some(i)
    requires p + |Label| <= |t| && i + |Label| <= |s|
    requires AfterLabel(t, p) == AfterLabel(s, i)
    ensures GainCapture(t) == GainCapture(s)
  {
  }

  lemma AfterLabelShift(prefix: string, s: string, i: nat)
    requires i + |Label| <= |s|
    ensures AfterLabel(prefix + s, |prefix| + i) == AfterLabel(s, i)
  {
  }

  /** `arr.map(parseGain)`. */
  function GainSeries(arr: seq<LogValue>): (r: seq<real>)
    ensures |r| == |arr|
    ensures forall i :: 0 <= i < |arr| ==> r[i] == ParseGain(arr[i])
  {
    if arr == [] then [] else [ParseGain(arr[0])] + GainSeries(arr[1..])
  }

  /** The handler's `(e?.detail ?? []).map(parseGain)`: a missing detail gives no points. */
  function DetailSeries(detail: Option<seq<LogValue>>): (r: seq<real>)
    ensures detail.None? ==> r == []
    ensures detail.Some? ==> |r| == |detail.value|
    ensures detail.Some? ==> forall i :: 0 <= i < |r| ==> r[i] == ParseGain(detail.value[i])
  {
    GainSeries(detail.GetOr([]))
  }

  /** Mapping distributes over concatenation: the series keeps the order of the log. */
  lemma {:induction false} GainSeriesAppend(a: seq<LogValue>, b: seq<LogValue>)
    ensures GainSeries(a + b) == GainSeries(a) + GainSeries(b)
  {
    if a == [] {
      assert a + b == b;
    } else {
      assert (a + b)[1..] == a[1..] + b;
      GainSeriesAppend(a[1..], b);
    }
  }

  /** Upper end of the x-domain, `Math.max(1, n - 1)` for `n` points. */
  function XDomainMax(n: nat): (r: nat)
    ensures r >= 1
    ensures n - 1 <= r
    ensures n >= 2 ==> r == n - 1
    ensures n <= 2 ==> r == 1
  {
    if n - 1 > 1 then n - 1 else 1
  }

  /** Number of x-axis ticks, `Math.min(6, Math.max(1, n - 1))`. */
  function TickCount(n: nat): (r: nat)
    ensures 1 <= r <= 6
    ensures r <= XDomainMax(n)
    ensures XDomainMax(n) <= 6 ==> r == XDomainMax(n)
    ensures XDomainMax(n) > 6 ==> r == 6
  {
    var m := XDomainMax(n);
    if 6 < m then 6 else m
  }
}
