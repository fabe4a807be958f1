/**
 * Decimal numbers as text, the two directions the UI uses:
 *  - `Number(lexeme)` on the numeric lexeme that the `gain:` pattern captures,
 *    whose grammar is `[0-9]*\.?[0-9]+`, read as an exact rational value;
 *  - the string form `${value}` of a positive decimal number, written the way
 *    JavaScript writes it in plain (non-exponent) notation.
 */
module NumberText {

  predicate IsDigit(c: char) {
    '0' <= c <= '9'
  }

  predicate AllDigits(t: string) {
    forall i :: 0 <= i < |t| ==> IsDigit(t[i])
  }

  function DigitValue(c: char): (d: nat)
    ensures d < 10
  {
    if IsDigit(c) then c as int - '0' as int else 0
  }

  function DigitChar(d: nat): (c: char)
    requires d < 10
    ensures IsDigit(c) && DigitValue(c) == d
  {
    ('0' as int + d) as char
  }

  function Pow10(n: nat): (r: nat)
    ensures r >= 1
  {
    if n == 0 then 1 else 10 * Pow10(n - 1)
  }

  /** Length of the longest prefix of `s` made of decimal digits. */
  function DigitRun(s: string): (n: nat)
    ensures n <= |s|
    ensures AllDigits(s[..n])
    ensures n < |s| ==> !IsDigit(s[n])
  {
    if |s| > 0 && IsDigit(s[0]) then
      var m := DigitRun(s[1..]);
      assert s[..1 + m] == [s[0]] + s[1..][..m];
      1 + m
    else 0
  }

  /** Value of a digit string, most significant digit first; the empty string is 0. */
  function DigitsValue(t: string): nat
  {
    if t == [] then 0 else 10 * DigitsValue(t[..|t| - 1]) + DigitValue(t[|t| - 1])
  }

  /**
   * The grammar `[0-9]*\.?[0-9]+`: digits and at most one point, ending in a
   * digit. After a point only digits may follow, which also rules out a second
   * point.
   */
  predicate IsLexeme(t: string) {
    && |t| > 0
    && IsDigit(t[|t| - 1])
    && (forall i :: 0 <= i < |t| ==> IsDigit(t[i]) || t[i] == '.')
    && (forall i, j :: 0 <= i < j < |t| && t[i] == '.' ==> IsDigit(t[j]))
  }

  /**
   * Length of the numeric lexeme at the start of `s` that a backtracking
   * matcher captures for `([0-9]*\.?[0-9]+)`, or 0 when there is none:
   * greedy digits, then a point only when a digit follows it, then digits;
   * without such a point, the leading digits alone.
   */
  function LexemeLength(s: string): (n: nat)
    ensures n <= |s|
  {
    var d := DigitRun(s);
    if d < |s| && s[d] == '.' && DigitRun(s[d + 1..]) > 0 then d + 1 + DigitRun(s[d + 1..])
    else d
  }

  /** Value of the digits after a decimal point. */
  function FractionValue(digits: string): (r: real)
    ensures r >= 0.0
  {
    var q := Pow10(|digits|) as real;
    assert DigitsValue(digits) as real / q >= 0.0;
    DigitsValue(digits) as real / q
  }

  /**
   * `Number(t)` on a lexeme, as an exact rational: integer part plus fraction.
   * A lexeme without a point reads as its integer value.
   */
  function LexemeValue(t: string): (r: real)
    ensures r >= 0.0
    ensures AllDigits(t) ==> r == DigitsValue(t) as real
  {
    var d := DigitRun(t);
    DigitRunAllDigits(t);
    if d < |t| then DigitsValue(t[..d]) as real + FractionValue(t[d + 1..])
    else DigitsValue(t) as real
  }

  /** The digit run of an all-digit text is the whole text. */
  lemma DigitRunAllDigits(t: string)
    ensures AllDigits(t) ==> DigitRun(t) == |t|
  {
    if AllDigits(t) {
      DigitRunAll(t);
    }
  }

  /** A digit, or a point and a digit, stands at the front of `s`. */
  predicate NumberStarts(s: string) {
    (|s| > 0 && IsDigit(s[0])) || (|s| > 1 && s[0] == '.' && IsDigit(s[1]))
  }

  /** A numeric lexeme starts exactly where a digit, or a point and a digit, stands. */
  lemma LexemeStart(s: string)
    ensures LexemeLength(s) > 0 <==> NumberStarts(s)
  {
    var d := DigitRun(s);
    if |s| > 0 && IsDigit(s[0]) {
      assert s[..d][0] == s[0];
    } else if |s| > 1 && s[0] == '.' && IsDigit(s[1]) {
      assert d == 0;
      assert s[1..][0] == s[1];
      assert DigitRun(s[1..]) > 0;
    }
  }

  /**
   * The captured lexeme is the LONGEST prefix of `s` that the grammar accepts:
   * it is accepted (when non-empty) and no longer prefix is.
   */
  lemma LexemeLongest(s: string)
    ensures LexemeLength(s) > 0 ==> IsLexeme(s[..LexemeLength(s)])
    ensures forall k :: LexemeLength(s) < k <= |s| ==> !IsLexeme(s[..k])
  {
    var n := LexemeLength(s);
    var d := DigitRun(s);
    assert forall i :: 0 <= i < d ==> IsDigit(s[i]) by {
      forall i | 0 <= i < d ensures IsDigit(s[i]) { assert s[..d][i] == s[i]; }
    }
    if d < |s| && s[d] == '.' && DigitRun(s[d + 1..]) > 0 {
      var e := DigitRun(s[d + 1..]);
      assert forall i :: d < i < n ==> IsDigit(s[i]) by {
        forall i | d < i < n ensures IsDigit(s[i]) { assert s[d + 1..][..e][i - d - 1] == s[i]; }
      }
      assert n < |s| ==> !IsDigit(s[n]) by {
        if n < |s| { assert s[d + 1..][e] == s[n]; }
      }
      var t := s[..n];
      assert forall i :: 0 <= i < n ==> t[i] == s[i];
      assert IsLexeme(t);
      forall k | n < k <= |s| ensures !IsLexeme(s[..k]) {
        var u := s[..k];
        assert u[d] == '.' && u[n] == s[n] && !IsDigit(u[n]);
      }
    } else {
      if n > 0 {
        var t := s[..n];
        assert forall i :: 0 <= i < n ==> t[i] == s[i];
        assert IsLexeme(t);
      }
      forall k | n < k <= |s| ensures !IsLexeme(s[..k]) {
        var u := s[..k];
        assert u[d] == s[d] && !IsDigit(u[d]);
        if s[d] == '.' {
          if d + 1 < k {
            assert u[d + 1] == s[d + 1] == s[d + 1..][0];
            assert !IsDigit(u[d + 1]);
          } else {
            assert u[|u| - 1] == '.';
          }
        }
      }
    }
  }

  /** Digits, a point, digits and then a non-digit: the lexeme is everything before the non-digit. */
  lemma LexemeDecimal(a: string, b: string, rest: string)
    requires AllDigits(a) && AllDigits(b) && |b| > 0
    requires rest == "" || !IsDigit(rest[0])
    ensures var t := a + "." + b + rest;
            LexemeLength(t) == |a| + 1 + |b| && t[..LexemeLength(t)] == a + "." + b
  {
    var t := a + "." + b + rest;
    assert t == a + "." + (b + rest);
    DigitRunPoint(a, b + rest);
    assert t[|a| + 1..] == b + rest;
    DigitRunPrefix(b, rest);
  }

  /** Digits not followed by a digit, nor by a point and a digit: the lexeme is the digits. */
  lemma LexemeInteger(a: string, rest: string)
    requires AllDigits(a) && |a| > 0
    requires rest == "" || (!IsDigit(rest[0]) && !(rest[0] == '.' && |rest| > 1 && IsDigit(rest[1])))
    ensures var t := a + rest;
            LexemeLength(t) == |a| && LexemeValue(t[..LexemeLength(t)]) == DigitsValue(a) as real
  {
    var t := a + rest;
    assert LexemeLength(t) == |a| by {
      DigitRunPrefix(a, rest);
      if rest != [] && rest[0] == '.' {
        assert t[|a| + 1..] == rest[1..];
        if |rest| > 1 { assert rest[1..][0] == rest[1]; }
      }
    }
    assert t[..|a|] == a;
    DigitRunAll(a);
  }

  /** Appending digits shifts the value left by their count. */
  lemma {:induction false} DigitsValueAppend(a: string, b: string)
    ensures DigitsValue(a + b) == DigitsValue(a) * Pow10(|b|) + DigitsValue(b)
    decreases |b|
  {
    if b == [] {
      assert a + b == a;
    } else {
      var b' := b[..|b| - 1];
      var c := DigitValue(b[|b| - 1]);
      assert (a + b)[..|a + b| - 1] == a + b';
      assert (a + b)[|a + b| - 1] == b[|b| - 1];
      DigitsValueAppend(a, b');
      var x, p, y := DigitsValue(a), Pow10(|b'|), DigitsValue(b');
      assert DigitsValue(a + b) == 10 * DigitsValue(a + b') + c;
      assert DigitsValue(b) == 10 * y + c;
      assert Pow10(|b|) == 10 * p;
      ShiftDigit(x, p, y, c);
    }
  }

  lemma ShiftDigit(x: int, p: int, y: int, c: int)
    ensures 10 * (x * p + y) + c == x * (10 * p) + (10 * y + c)
  {
  }

  function Zeros(n: nat): (z: string)
    ensures |z| == n && AllDigits(z) && DigitsValue(z) == 0
  {
    if n == 0 then "" else
      var z' := Zeros(n - 1);
      assert (z' + "0")[..n - 1] == z';
      z' + "0"
  }

  /** Decimal digits of a positive integer, without leading zeros. */
  function NatDigits(n: nat): (t: string)
    requires n > 0
    ensures |t| > 0 && AllDigits(t) && t[0] != '0'
    ensures DigitsValue(t) == n
  {
    if n < 10 then [DigitChar(n)]
    else
      var p := NatDigits(n / 10);
      var t := p + [DigitChar(n % 10)];
      assert t[..|t| - 1] == p;
      t
  }

  /**
   * `${value}` for the positive decimal `mantissa / 10^scale`: trailing zeros
   * of the fraction are dropped first, then the digits are written with a
   * point before the last `scale` of them ("0." and zeros when there are
   * not enough).
   */
  function Render(mantissa: nat, scale: nat): (t: string)
    requires mantissa > 0
    ensures IsLexeme(t)
    ensures '.' in t ==> t[|t| - 1] != '0'
    ensures |t| > 0 && t[0] != '.' && (t[0] == '0' ==> |t| > 1 && t[1] == '.')
    decreases scale
  {
    if scale > 0 && mantissa % 10 == 0 then Render(mantissa / 10, scale - 1)
    else
      var ds := NatDigits(mantissa);
      LastDigit(mantissa);
      if scale == 0 then
        assert '.' !in ds by { assert forall i :: 0 <= i < |ds| ==> ds[i] != '.'; }
        ds
      else if scale < |ds| then
        var k := |ds| - scale;
        AllDigitsSlice(ds, 0, k);
        AllDigitsSlice(ds, k, |ds|);
        PointLexeme(ds[..k], ds[k..]);
        ds[..k] + "." + ds[k..]
      else
        var z := Zeros(scale - |ds|);
        AllDigitsAppend(z, ds);
        PointLexeme("0", z + ds);
        "0" + "." + (z + ds)
  }

  lemma AllDigitsSlice(t: string, i: nat, j: nat)
    requires AllDigits(t) && i <= j <= |t|
    ensures AllDigits(t[i..j])
  {
    assert forall k :: 0 <= k < j - i ==> t[i..j][k] == t[i + k];
  }

  lemma AllDigitsAppend(a: string, b: string)
    requires AllDigits(a) && AllDigits(b)
    ensures AllDigits(a + b)
  {
    assert forall k :: |a| <= k < |a + b| ==> (a + b)[k] == b[k - |a|];
  }

  /** Digits, a point, and at least one digit form a lexeme that ends like `b`. */
  lemma PointLexeme(a: string, b: string)
    requires AllDigits(a) && AllDigits(b) && |b| > 0
    ensures IsLexeme(a + "." + b)
    ensures (a + "." + b)[|a + "." + b| - 1] == b[|b| - 1]
  {
    var t := a + "." + b;
    assert forall i :: 0 <= i < |a| ==> t[i] == a[i];
    assert forall i :: |a| < i < |t| ==> t[i] == b[i - |a| - 1];
    assert t[|a|] == '.';
  }

  /** The last digit written for `n` is `n % 10`, which is not '0' when 10 does not divide `n`. */
  lemma LastDigit(n: nat)
    requires n > 0
    ensures NatDigits(n)[|NatDigits(n)| - 1] == DigitChar(n % 10)
    ensures n % 10 != 0 ==> NatDigits(n)[|NatDigits(n)| - 1] != '0'
  {
  }

  /** The rendered text reads back, through `Number()`, as the value it renders. */
  lemma {:induction false} RenderValue(mantissa: nat, scale: nat)
    requires mantissa > 0
    ensures LexemeValue(Render(mantissa, scale)) == mantissa as real / Pow10(scale) as real
    decreases scale
  {
    if scale > 0 && mantissa % 10 == 0 {
      assert Render(mantissa, scale) == Render(mantissa / 10, scale - 1);
      RenderValue(mantissa / 10, scale - 1);
      RealScale(mantissa / 10, Pow10(scale - 1), mantissa, Pow10(scale));
    } else if scale == 0 {
      assert Render(mantissa, scale) == NatDigits(mantissa);
      DigitRunAll(NatDigits(mantissa));
    } else if scale < |NatDigits(mantissa)| {
      RenderValueSplit(mantissa, scale);
    } else {
      RenderValuePadded(mantissa, scale);
    }
  }

  /**
   * `${value}` depends only on the number: two (mantissa, scale) pairs that
   * denote the same value are written the same way.
   */
  lemma {:induction false} RenderSameValue(m1: nat, s1: nat, m2: nat, s2: nat)
    requires m1 > 0 && m2 > 0
    requires m1 * Pow10(s2) == m2 * Pow10(s1)
    ensures Render(m1, s1) == Render(m2, s2)
    decreases s1 + s2
  {
    if s1 > 0 && m1 % 10 == 0 {
      DropZero(m1, s1, m2, s2);
      RenderSameValue(m1 / 10, s1 - 1, m2, s2);
    } else if s2 > 0 && m2 % 10 == 0 {
      DropZero(m2, s2, m1, s1);
      RenderSameValue(m1, s1, m2 / 10, s2 - 1);
    } else {
      ScaledMultiple(m1, s1, m2, s2);
      ScaledMultiple(m2, s2, m1, s1);
      assert s1 == s2;
      ScaledEqual(m1, m2, s1);
    }
  }

  /** A trailing zero of the mantissa and one decimal of scale cancel. */
  lemma DropZero(m1: nat, s1: nat, m2: nat, s2: nat)
    requires s1 > 0 && m1 % 10 == 0
    requires m1 * Pow10(s2) == m2 * Pow10(s1)
    ensures (m1 / 10) * Pow10(s2) == m2 * Pow10(s1 - 1)
  {
    var q, x, p := m1 / 10, Pow10(s2), Pow10(s1 - 1);
    assert m1 == 10 * q;
    assert Pow10(s1) == 10 * p;
    assert 10 * (q * x) == 10 * (m2 * p) by {
      assert (10 * q) * x == 10 * (q * x);
      assert m2 * (10 * p) == 10 * (m2 * p);
    }
  }

  /** With the smaller scale on the left, the other mantissa is a multiple of 10. */
  lemma ScaledMultiple(m1: nat, s1: nat, m2: nat, s2: nat)
    requires m1 * Pow10(s2) == m2 * Pow10(s1)
    ensures s1 < s2 ==> m2 % 10 == 0
  {
    if s1 < s2 {
      var k := s2 - s1;
      Pow10Add(s1, k);
      var p, y := Pow10(s1), Pow10(k - 1);
      MulRotate(m1, p, Pow10(k));
      ScaledEqual(m1 * Pow10(k), m2, s1);
      assert Pow10(k) == 10 * y;
      MulRotate(m1, 10, y);
      TenMultiple(m1 * y);
    }
  }

  lemma MulRotate(x: int, y: int, z: int)
    ensures x * (y * z) == (x * z) * y
    ensures x * (y * z) == y * (x * z)
  {
  }

  lemma TenMultiple(x: nat)
    ensures (10 * x) % 10 == 0
  {
  }

  /** Multiplying by a positive number keeps a strict order. */
  lemma MulStrict(a: nat, b: nat, p: nat)
    requires p >= 1
    ensures a < b ==> a * p < b * p
  {
    if a < b {
      assert b * p == a * p + (b - a) * p;
    }
  }

  lemma ScaledEqual(a: nat, b: nat, s: nat)
    requires a * Pow10(s) == b * Pow10(s)
    ensures a == b
  {
    MulStrict(a, b, Pow10(s));
    MulStrict(b, a, Pow10(s));
  }

  lemma {:induction false} Pow10Add(a: nat, b: nat)
    ensures Pow10(a + b) == Pow10(a) * Pow10(b)
  {
    if b > 0 {
      Pow10Add(a, b - 1);
      assert Pow10(a + b) == 10 * Pow10(a + b - 1);
      assert Pow10(a) * (10 * Pow10(b - 1)) == 10 * (Pow10(a) * Pow10(b - 1));
    }
  }

  lemma RenderValueSplit(mantissa: nat, scale: nat)
    requires mantissa > 0 && mantissa % 10 != 0 && 0 < scale < |NatDigits(mantissa)|
    ensures LexemeValue(Render(mantissa, scale)) == mantissa as real / Pow10(scale) as real
  {
    var ds := NatDigits(mantissa);
    var k := |ds| - scale;
    var a, b := ds[..k], ds[k..];
    RenderSplitForm(mantissa, scale);
    PointValue(a, b);
    var x, y, q := DigitsValue(a), DigitsValue(b), Pow10(|b|);
    assert LexemeValue(Render(mantissa, scale)) == x as real + y as real / q as real;
    DigitsSplitValue(ds, k);
    SplitValue(x, y, q, mantissa);
  }

  lemma RenderSplitForm(mantissa: nat, scale: nat)
    requires mantissa > 0 && mantissa % 10 != 0 && 0 < scale < |NatDigits(mantissa)|
    ensures var ds := NatDigits(mantissa);
            Render(mantissa, scale) == ds[..|ds| - scale] + "." + ds[|ds| - scale..] &&
            AllDigits(ds[..|ds| - scale])
  {
    var ds := NatDigits(mantissa);
    AllDigitsSlice(ds, 0, |ds| - scale);
  }

  lemma DigitsSplitValue(ds: string, k: nat)
    requires k <= |ds|
    ensures DigitsValue(ds) == DigitsValue(ds[..k]) * Pow10(|ds| - k) + DigitsValue(ds[k..])
  {
    assert ds == ds[..k] + ds[k..];
    DigitsValueAppend(ds[..k], ds[k..]);
  }

  lemma RenderValuePadded(mantissa: nat, scale: nat)
    requires mantissa > 0 && mantissa % 10 != 0 && 0 < scale && |NatDigits(mantissa)| <= scale
    ensures LexemeValue(Render(mantissa, scale)) == mantissa as real / Pow10(scale) as real
  {
    var ds := NatDigits(mantissa);
    var w := Zeros(scale - |ds|) + ds;
    RenderPaddedForm(mantissa, scale);
    ZeroPointValue(w);
    PaddedDigits(Zeros(scale - |ds|), ds);
    assert DigitsValue(w) == mantissa && |w| == scale;
  }

  lemma RenderPaddedForm(mantissa: nat, scale: nat)
    requires mantissa > 0 && mantissa % 10 != 0 && 0 < scale && |NatDigits(mantissa)| <= scale
    ensures Render(mantissa, scale)
            == "0" + "." + (Zeros(scale - |NatDigits(mantissa)|) + NatDigits(mantissa))
  {
  }

  /** `Number("0." + w)` is the fraction `w`. */
  lemma ZeroPointValue(w: string)
    ensures LexemeValue("0" + "." + w) == FractionValue(w)
  {
    assert AllDigits("0");
    PointValue("0", w);
    assert DigitsValue("0") == 0 by { assert "0"[..0] == ""; }
  }

  /** Leading zeros change neither the value of a digit string nor anything but its length. */
  lemma PaddedDigits(z: string, ds: string)
    requires DigitsValue(z) == 0
    ensures DigitsValue(z + ds) == DigitsValue(ds)
  {
    DigitsValueAppend(z, ds);
  }

  /** `Number(a + "." + b)` is the integer `a` plus the fraction `b`. */
  lemma PointValue(a: string, b: string)
    requires AllDigits(a)
    ensures LexemeValue(a + "." + b) == DigitsValue(a) as real + FractionValue(b)
  {
    DigitRunPoint(a, b);
    PointSlices(a, b);
  }

  lemma PointSlices(a: string, b: string)
    ensures (a + "." + b)[..|a|] == a && (a + "." + b)[|a| + 1..] == b
  {
  }

  lemma DigitRunAll(t: string)
    requires AllDigits(t)
    ensures DigitRun(t) == |t|
  {
  }

  /** The digit run of digits followed by a non-digit stops at the non-digit. */
  lemma DigitRunPrefix(a: string, rest: string)
    requires AllDigits(a)
    requires rest == "" || !IsDigit(rest[0])
    ensures DigitRun(a + rest) == |a|
  {
    var t := a + rest;
    var d := DigitRun(t);
    assert forall i :: 0 <= i < |a| ==> t[i] == a[i];
    if rest != "" {
      assert t[|a|] == rest[0];
      assert forall m :: |a| < m <= |t| ==> t[..m][|a|] == rest[0];
    }
  }

  lemma DigitRunPoint(a: string, b: string)
    requires AllDigits(a)
    ensures DigitRun(a + "." + b) == |a|
  {
    var t := a + "." + b;
    var d := DigitRun(t);
    assert forall i :: 0 <= i < |a| ==> t[i] == a[i];
    assert t[|a|] == '.';
    assert !AllDigits(t[..|a| + 1]) by { assert t[..|a| + 1][|a|] == '.'; }
    assert forall m :: |a| < m <= |t| ==> t[..m][|a|] == '.';
  }

  lemma RealScale(m': nat, p': nat, m: nat, p: nat)
    requires p' > 0 && m == 10 * m' && p == 10 * p'
    ensures m' as real / p' as real == m as real / p as real
  {
    assert m as real == 10.0 * m' as real && p as real == 10.0 * p' as real;
  }

  lemma SplitValue(a: nat, b: nat, p: nat, m: nat)
    requires p > 0 && m == a * p + b
    ensures m as real / p as real == a as real + b as real / p as real
  {
    assert m as real == a as real * p as real + b as real;
  }
}
