/** The shape of %g text: which form is chosen, and what each form looks like character by character. */
module FmtGShape {
  import opened Bytes
  import opened Numbers
  import opened FmtG

  function Sign(neg: bool): Bytes { if neg then ['-' as int] else [] }

  // Digits with a point in front of those behind it, if there are any.
  function Pointed(whole: Bytes, frac: Bytes): Bytes {
    whole + if frac == [] then [] else ['.' as int] + frac
  }

  // The decimal exponent after rounding: all nines rounded up carry into it.
  function FinalExponent(d: Bytes, up: bool, e10: int): int { if up && AllNines(d) then e10 + 1 else e10 }

  lemma {:induction false} FinalIs(d: Bytes, up: bool, e10: int)
    requires AllDigits(d) && d != []
    ensures Rounded(d, up, e10).1 == FinalExponent(d, up, e10)
    ensures d[0] != '0' as int ==> Rounded(d, up, e10).0[0] != '0' as int
  {
    if up { RoundingShape(d, e10); } else { NotRounded(d, e10); }
    hide Rounded;
  }

  // Two digits, or as many as there are, for the size of the exponent.
  lemma {:induction false} ExponentDigits(v: nat)
    ensures AllDigits(ExpDigits(v)) && Value(ExpDigits(v)) == v && |ExpDigits(v)| >= 2
    ensures v < 100 ==> |ExpDigits(v)| == 2
    ensures v >= 100 ==> ExpDigits(v)[0] != '0' as int
  {
    ExpDigitsValue(v);
    DecimalLength(v);
    NoLeadingZero(v);
    hide Digits, Value, AllDigits;
  }

  lemma {:induction false} DecimalLength(v: nat)
    ensures |Decimal(v)| == 1 <==> v < 10
    ensures |Decimal(v)| == 2 <==> 10 <= v < 100
  {
    TwoDigits(v);
    TwoDigits(v / 10);
    if v >= 10 { assert Decimal(v) == Decimal(v / 10) + [DigitChar(v % 10, false)]; }
    hide Digits;
  }

  lemma {:induction false} NoLeadingZero(v: nat)
    ensures v > 0 ==> Decimal(v)[0] != '0' as int
    decreases v
  {
    if v >= 10 { NoLeadingZero(v / 10); }
  }

  // What is left of the digits: without zeros at the end, but not without any digit.
  lemma {:induction false} StrippedShape(r: Bytes)
    requires AllDigits(r) && r != []
    ensures var t := Stripped(r);
            && AllDigits(t) && t != [] && t <= r
            && (|t| > 1 ==> t[|t| - 1] != '0' as int)
            && (r[0] != '0' as int ==> t[0] != '0' as int && t[|t| - 1] != '0' as int)
  {
    StrippedValue(r);
    hide Stripped, AllDigits;
  }

  // The text is the sign and the layout of the digits that are left.
  lemma {:induction false} TextIs(neg: bool, d: Bytes, up: bool, e10: int) returns (t: Bytes)
    requires AllDigits(d) && d != []
    ensures t != [] && AllDigits(t) && |t| <= |d| && (|t| > 1 ==> t[|t| - 1] != '0' as int)
    ensures d[0] != '0' as int ==> t[0] != '0' as int && t[|t| - 1] != '0' as int
    ensures TextOf(neg, d, up, e10) == Sign(neg) + Layout(t, FinalExponent(d, up, e10), |d|)
  {
    FinalIs(d, up, e10);
    var r := Rounded(d, up, e10).0;
    t := Stripped(r);
    StrippedShape(r);
    hide AllDigits, Stripped, Rounded, Layout, FinalExponent;
  }

  lemma {:induction false} SomeDigits(s: Bytes, k: nat)
    requires AllDigits(s) && k <= |s|
    ensures AllDigits(s[..k]) && AllDigits(s[k..])
  {
  }

  lemma {:induction false} ExpTextIs(e: int)
    ensures ExpText(e) == ['e' as int, if e < 0 then '-' as int else '+' as int] + ExpDigits(if e < 0 then -e else e)
  {
    hide ExpDigits;
  }

  /** The exponent form: a digit; a point and digits that do not end in 0, if any are left; e; one sign; and the
      size of the exponent in two digits, or in three or more without a zero in front. */
  lemma {:induction false} ExponentForm(neg: bool, d: Bytes, up: bool, e10: int)
    returns (lead: byte, frac: Bytes, size: Bytes)
    requires AllDigits(d) && d != []
    requires var e := FinalExponent(d, up, e10); e < -4 || e >= |d|
    ensures var e := FinalExponent(d, up, e10);
            && TextOf(neg, d, up, e10)
               == Sign(neg) + (Pointed([lead], frac) + ['e' as int, if e < 0 then '-' as int else '+' as int] + size)
            && AllDigits(size) && Value(size) == (if e < 0 then -e else e) && |size| >= 2
            && (-100 < e < 100 ==> |size| == 2) && (!(-100 < e < 100) ==> size[0] != '0' as int)
    ensures AllDigits([lead] + frac) && |frac| < |d| && (frac != [] ==> frac[|frac| - 1] != '0' as int)
    ensures d[0] != '0' as int ==> lead != '0' as int
  {
    hide *;
    var e := FinalExponent(d, up, e10);
    var t := TextIs(neg, d, up, e10);
    lead, frac, size := t[0], t[1..], ExpDigits(if e < 0 then -e else e);
    assert [lead] + frac == t;
    ExponentDigits(if e < 0 then -e else e);
    ExponentLayout(t, e, |d|);
  }

  lemma {:induction false} ExponentLayout(t: Bytes, e: int, prec: nat)
    requires t != [] && (e < -4 || e >= prec)
    ensures Layout(t, e, prec)
         == Pointed([t[0]], t[1..]) + ['e' as int, if e < 0 then '-' as int else '+' as int]
            + ExpDigits(if e < 0 then -e else e)
  {
    ExpIs(t, e, prec);
    ExpTextIs(e);
    hide Layout, ExpText, ExpDigits;
    assert t[..1] == [t[0]];
    Associate(Pointed([t[0]], t[1..]), ['e' as int, if e < 0 then '-' as int else '+' as int],
              ExpDigits(if e < 0 then -e else e));
  }

  // From exponent 0 on, one digit more than the exponent in front of the point; below, a zero there and behind
  // the point one zero less than the exponent says before the digits. What stands behind the point does not end
  // in 0. All of this of digits that do not start with one.
  predicate PlainShape(e: int, whole: Bytes, frac: Bytes, started: bool)
    requires whole != []
  {
    && (if e >= 0 then |whole| == e + 1 && (started ==> whole[0] != '0' as int)
        else && whole == ['0' as int] && |frac| >= -e && frac[..-e - 1] == Repeat('0' as int, -e - 1)
             && (started ==> frac[-e - 1] != '0' as int))
    && (started && frac != [] ==> frac[|frac| - 1] != '0' as int)
  }

  /** The plain form is digits, and a point and more digits if any are left, in that shape. */
  lemma {:induction false} PlainForm(neg: bool, d: Bytes, up: bool, e10: int) returns (whole: Bytes, frac: Bytes)
    requires AllDigits(d) && d != []
    requires -4 <= FinalExponent(d, up, e10) < |d|
    ensures TextOf(neg, d, up, e10) == Sign(neg) + Pointed(whole, frac)
    ensures AllDigits(whole) && AllDigits(frac) && whole != []
    ensures PlainShape(FinalExponent(d, up, e10), whole, frac, d[0] != '0' as int)
  {
    hide *;
    var e := FinalExponent(d, up, e10);
    var t := TextIs(neg, d, up, e10);
    whole, frac := PlainLayout(t, e, |d|, d[0] != '0' as int);
  }

  lemma {:induction false} PlainLayout(t: Bytes, e: int, prec: nat, started: bool) returns (whole: Bytes, frac: Bytes)
    requires AllDigits(t) && t != [] && -4 <= e < prec && (|t| > 1 ==> t[|t| - 1] != '0' as int)
    requires started ==> t[0] != '0' as int && t[|t| - 1] != '0' as int
    ensures Layout(t, e, prec) == Pointed(whole, frac)
    ensures AllDigits(whole) && AllDigits(frac) && whole != [] && PlainShape(e, whole, frac, started)
  {
    hide AllDigits, Layout, Repeat, Pointed, Fraction;
    if e >= 0 {
      FixedIs(t, e, prec);
      whole, frac := WholeAndFrac(t, e + 1);
    } else {
      whole, frac := SmallParts(t, e, prec);
    }
  }

  lemma {:induction false} SmallParts(t: Bytes, e: int, prec: nat) returns (whole: Bytes, frac: Bytes)
    requires AllDigits(t) && t != [] && -4 <= e < 0
    ensures AllDigits(whole) && AllDigits(frac) && Layout(t, e, prec) == Pointed(whole, frac)
    ensures whole == ['0' as int] && |frac| >= -e && frac[..-e - 1] == Repeat('0' as int, -e - 1)
    ensures frac[-e - 1] == t[0] && frac[|frac| - 1] == t[|t| - 1]
  {
    whole, frac := ['0' as int], Repeat('0' as int, -e - 1) + t;
    SmallIs(t, e, prec);
    ZeroDigits(-e - 1, t);
    hide AllDigits, Layout, Repeat;
  }

  lemma {:induction false} ZeroDigits(n: nat, t: Bytes)
    requires AllDigits(t)
    ensures AllDigits(Repeat('0' as int, n)) && AllDigits(Repeat('0' as int, n) + t)
    ensures AllDigits(t + Repeat('0' as int, n))
    ensures (Repeat('0' as int, n) + t)[..n] == Repeat('0' as int, n)
    ensures AllDigits(['0' as int])
  {
  }

  // n digits in front of the point, made up with zeros.
  lemma {:induction false} WholeAndFrac(t: Bytes, n: nat) returns (whole: Bytes, frac: Bytes)
    requires AllDigits(t) && t != [] && n > 0
    ensures AllDigits(whole) && AllDigits(frac) && |whole| == n && whole[0] == t[0]
    ensures (if |t| > n then t[..n] + Fraction(t[n..]) else t + Repeat('0' as int, n - |t|)) == Pointed(whole, frac)
    ensures frac != [] ==> |t| > 1 && frac[|frac| - 1] == t[|t| - 1]
  {
    if |t| > n {
      whole, frac := t[..n], t[n..];
      SomeDigits(t, n);
    } else {
      whole, frac := t + Repeat('0' as int, n - |t|), [];
      ZeroDigits(n - |t|, t);
    }
    hide Repeat;
  }

  // There is no letter in a text of digits, point and sign.
  lemma {:induction false} NoLetter(neg: bool, whole: Bytes, frac: Bytes)
    requires AllDigits(whole) && AllDigits(frac)
    ensures 'e' as int !in Sign(neg) + Pointed(whole, frac)
  {
  }

  /** The exponent form is chosen exactly when the exponent after rounding is below -4 or not below the
      precision. */
  lemma {:induction false} FormChosen(neg: bool, d: Bytes, up: bool, e10: int)
    requires AllDigits(d) && d != []
    ensures 'e' as int in TextOf(neg, d, up, e10) <==>
            var e := if up && AllNines(d) then e10 + 1 else e10; e < -4 || e >= |d|
  {
    hide TextOf, AllDigits, AllNines, Pointed;
    var e := FinalExponent(d, up, e10);
    if e < -4 || e >= |d| {
      var lead, frac, size := ExponentForm(neg, d, up, e10);
      assert 'e' as int in ['e' as int, if e < 0 then '-' as int else '+' as int];
    } else {
      var whole, frac := PlainForm(neg, d, up, e10);
      NoLetter(neg, whole, frac);
    }
  }
}
