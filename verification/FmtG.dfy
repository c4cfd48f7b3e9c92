/** The rounding and layout of %g, from the extracted decimal digits on. */
module FmtG {
  import opened Bytes
  import opened Numbers

  const MAX_PREC := 17
  const OUT_SIZE := 32

  predicate AllDigits(s: Bytes) { forall i :: 0 <= i < |s| ==> IsDigit(s[i]) }

  function Ten(k: nat): nat { PowBase(10, k) }

  // The number a string of digits stands for.
  function Value(s: Bytes): nat
    requires AllDigits(s)
  {
    if s == [] then 0 else 10 * Value(s[..|s| - 1]) + (s[|s| - 1] as int - 48)
  }

  // m times ten to the x and n times ten to the y are the same number.
  predicate Same(m: nat, x: int, n: nat, y: int) {
    if x >= y then m * Ten(x - y) == n else m == n * Ten(y - x)
  }

  // ---------------------------------------------------------------------------------------------
  // Rounding up
  // ---------------------------------------------------------------------------------------------

  // The digits plus one in the last place, and whether the carry ran off the top.
  function Incremented(d: Bytes): (r: (Bytes, bool))
    requires AllDigits(d)
    ensures |r.0| == |d| && AllDigits(r.0)
  {
    if d == [] then ([], true)
    else
      var rest, last := d[..|d| - 1], d[|d| - 1];
      if last == 57 then
        var (r, carry) := Incremented(rest);
        (r + [48], carry)
      else (rest + [last as int + 1], false)
  }

  // The digits and decimal exponent after rounding.
  function Rounded(d: Bytes, up: bool, e10: int): (r: (Bytes, int))
    requires AllDigits(d) && d != []
    ensures |r.0| == |d| && AllDigits(r.0)
  {
    if !up then (d, e10)
    else
      var (r, carry) := Incremented(d);
      if carry then ([49] + r[..|r| - 1], e10 + 1) else (r, e10)
  }

  lemma {:induction false} ValueSnoc(s: Bytes, b: byte)
    requires AllDigits(s) && IsDigit(b)
    ensures AllDigits(s + [b]) && Value(s + [b]) == 10 * Value(s) + (b as int - 48)
  {
    assert (s + [b])[..|s|] == s;
  }

  predicate AllNines(d: Bytes) { forall i :: 0 <= i < |d| ==> d[i] == 57 }

  lemma {:induction false} IncrementedValue(d: Bytes)
    requires AllDigits(d)
    ensures var (r, carry) := Incremented(d);
            && Value(r) + (if carry then Ten(|d|) else 0) == Value(d) + 1
            && (carry <==> AllNines(d))
            && (carry ==> r == Repeat(48, |d|))
            && (d != [] && d[0] != 48 && !carry ==> r[0] != 48)
  {
    if d != [] {
      var rest, last := d[..|d| - 1], d[|d| - 1];
      if last == 57 {
        IncrementedValue(rest);
        ValueSnoc(Incremented(rest).0, 48);
        assert AllNines(d) <==> AllNines(rest);
      } else {
        ValueSnoc(rest, last as int + 1);
      }
    }
  }

  lemma {:induction false} ZeroValue(n: nat)
    ensures AllDigits(Repeat(48, n)) && Value(Repeat(48, n)) == 0
  {
    if n > 0 {
      ZeroValue(n - 1);
      assert Repeat(48, n) == Repeat(48, n - 1) + [48];
      ValueSnoc(Repeat(48, n - 1), 48);
    }
  }

  lemma {:induction false} ValueConcat(a: Bytes, b: Bytes)
    requires AllDigits(a) && AllDigits(b)
    ensures AllDigits(a + b) && Value(a + b) == Value(a) * Ten(|b|) + Value(b)
  {
    if b == [] {
      assert a + b == a;
    } else {
      var rest, last := b[..|b| - 1], b[|b| - 1];
      ValueConcat(a, rest);
      assert a + b == (a + rest) + [last];
      ValueSnoc(a + rest, last);
      assert rest + [last] == b;
      TenTimes(Value(a), |rest|);
    }
  }

  lemma {:induction false} TenTimes(m: nat, k: nat)
    ensures m * Ten(k + 1) == 10 * (m * Ten(k))
  {
    var t := Ten(k);
    assert Ten(k + 1) == 10 * t;
    assert m * (10 * t) == 10 * (m * t);
  }

  /** Rounding up adds exactly one unit in the last kept place. When every digit is 9 the digits become 1
      followed by zeros and the last place moves with the exponent, which grows by one; otherwise a
      leading digit other than 0 stays so. */
  lemma {:induction false} RoundingShape(d: Bytes, e10: int)
    requires AllDigits(d) && d != []
    ensures var (r, e) := Rounded(d, true, e10);
            && (if AllNines(d) then e == e10 + 1 && Value(r) * 10 == Value(d) + 1 && r[0] == 49 && Value(r[1..]) == 0
                else e == e10 && Value(r) == Value(d) + 1)
            && (d[0] != 48 ==> r[0] != 48)
  {
    hide Value, Incremented, PowBase;
    IncrementedValue(d);
    if AllNines(d) {
      var zeros := Repeat(48, |d| - 1);
      assert Repeat(48, |d|)[..|d| - 1] == zeros;
      ZeroValue(|d| - 1);
      ZeroValue(|d|);
      ValueConcat([49], zeros);
      OneDigit(49);
      TenTimes(1, |d| - 1);
      assert ([49] + zeros)[1..] == zeros;
    }
  }

  lemma {:induction false} OneDigit(b: byte)
    requires IsDigit(b)
    ensures Value([b]) == b as int - 48
  {
    ValueSnoc([], b);
    assert [] + [b] == [b];
  }

  // ---------------------------------------------------------------------------------------------
  // Layout
  // ---------------------------------------------------------------------------------------------

  // Without trailing zeros, but with at least one digit.
  function Stripped(d: Bytes): (r: Bytes)
    requires AllDigits(d) && d != []
    ensures r <= d && r != [] && AllDigits(r)
  {
    if |d| > 1 && d[|d| - 1] == 48 then Stripped(d[..|d| - 1]) else d
  }

  lemma {:induction false} StrippedValue(d: Bytes)
    requires AllDigits(d) && d != []
    ensures Value(d) == Value(Stripped(d)) * Ten(|d| - |Stripped(d)|)
    ensures |Stripped(d)| > 1 ==> Stripped(d)[|Stripped(d)| - 1] != 48
  {
    if |d| > 1 && d[|d| - 1] == 48 {
      var rest := d[..|d| - 1];
      StrippedValue(rest);
      TenTimes(Value(Stripped(d)), |rest| - |Stripped(d)|);
    }
  }

  const POINT: byte := 46
  const EXP: byte := 101

  // At least two digits.
  function ExpDigits(ev: nat): Bytes { if ev < 10 then [48] + Decimal(ev) else Decimal(ev) }

  function ExpText(e: int): Bytes {
    [EXP] + (if e < 0 then [45] + ExpDigits(-e) else [43] + ExpDigits(e))
  }

  function Fraction(d: Bytes): Bytes { if d == [] then [] else [POINT] + d }

  // The text of the digits d, without trailing zeros, at decimal exponent e10.
  function Layout(d: Bytes, e10: int, prec: nat): Bytes
    requires d != []
  {
    if e10 < -4 || e10 >= prec then d[..1] + Fraction(d[1..]) + ExpText(e10)
    else if e10 >= 0 then
      if |d| > e10 + 1 then d[..e10 + 1] + Fraction(d[e10 + 1..]) else d + Repeat(48, e10 + 1 - |d|)
    else [48] + Fraction(Repeat(48, -e10 - 1) + d)
  }

  function TextOf(neg: bool, d: Bytes, up: bool, e10: int): Bytes
    requires AllDigits(d) && d != []
  {
    var (r, e) := Rounded(d, up, e10);
    (if neg then [45] else []) + Layout(Stripped(r), e, |d|)
  }

  // ---------------------------------------------------------------------------------------------
  // Reading the text back
  // ---------------------------------------------------------------------------------------------

  // The number of digits s starts with.
  function Run(s: Bytes): (n: nat)
    ensures n <= |s| && AllDigits(s[..n])
    ensures n < |s| ==> !IsDigit(s[n])
  {
    if s == [] || !IsDigit(s[0]) then 0
    else
      var n := Run(s[1..]);
      assert s[..n + 1] == [s[0]] + s[1..][..n];
      n + 1
  }

  // A decimal number, digits with an optional fraction and exponent, as m times ten to the x.
  datatype Number = Number(m: nat, x: int) | Malformed

  function ReadExponent(s: Bytes): Option<int> {
    if s == [] then Some(0)
    else if |s| < 3 || s[0] != EXP || (s[1] != 43 && s[1] != 45) || Run(s[2..]) != |s| - 2 then None
    else
      assert s[2..][..|s| - 2] == s[2..];
      var v: int := Value(s[2..]);
      Some(if s[1] == 45 then -v else v)
  }

  function ReadNumber(s: Bytes): Number {
    var i := Run(s);
    var frac := if i < |s| && s[i] == POINT then s[i + 1..] else [];
    var j := Run(frac);
    var rest := if i < |s| && s[i] == POINT then frac[j..] else s[i..];
    if i == 0 || (i < |s| && s[i] == POINT && j == 0) then Malformed
    else
      match ReadExponent(rest)
      case None => Malformed
      case Some(e) =>
        assert AllDigits(s[..i] + frac[..j]);
        Number(Value(s[..i] + frac[..j]), e - j)
  }

  lemma {:induction false} RunOf(d: Bytes, rest: Bytes)
    requires AllDigits(d) && (rest == [] || !IsDigit(rest[0]))
    ensures Run(d + rest) == |d|
  {
    if d == [] {
      assert d + rest == rest;
    } else {
      RunOf(d[1..], rest);
      assert (d + rest)[1..] == d[1..] + rest;
    }
  }

  lemma {:induction false} DecimalValue(v: nat)
    ensures AllDigits(Decimal(v)) && Value(Decimal(v)) == v
    decreases v
  {
    if v >= 10 {
      DecimalValue(v / 10);
      ValueSnoc(Decimal(v / 10), DigitChar(v % 10, false));
    } else {
      assert Decimal(v) == [DigitChar(v, false)];
    }
  }

  lemma {:induction false} ExpDigitsValue(v: nat)
    ensures ExpDigits(v) != [] && AllDigits(ExpDigits(v)) && Value(ExpDigits(v)) == v
  {
    DecimalValue(v);
    hide Digits, PowBase;
    if v < 10 {
      OneDigit(48);
      ZerosInFront([48], Decimal(v));
    }
  }

  // A mark, a sign and digits read back as the exponent.
  lemma {:induction false} SignedReads(sign: byte, ds: Bytes)
    requires sign == 43 || sign == 45
    requires AllDigits(ds) && ds != []
    ensures var v: int := Value(ds); ReadExponent([EXP] + ([sign] + ds)) == Some(if sign == 45 then -v else v)
  {
    hide Value, Run, AllDigits;
    var s := [EXP] + ([sign] + ds);
    assert s[2..] == ds;
    RunOf(ds, []);
    assert ds + [] == ds;
    assert ds[..|ds|] == ds;
  }

  lemma {:induction false} ExponentReads(e: int)
    ensures ReadExponent(ExpText(e)) == Some(e) && ExpText(e) != [] && ExpText(e)[0] == EXP
  {
    hide Value, ReadExponent, AllDigits, ExpDigits;
    var mag := if e < 0 then -e else e;
    ExpDigitsValue(mag);
    SignedReads(if e < 0 then 45 else 43, ExpDigits(mag));
  }

  lemma {:induction false} WholeReads(whole: Bytes, tail: Bytes)
    requires AllDigits(whole) && whole != []
    requires tail == [] || tail[0] == EXP
    requires ReadExponent(tail).Some?
    ensures ReadNumber(whole + tail) == Number(Value(whole), ReadExponent(tail).value)
  {
    hide Value, Run, ReadExponent;
    var s := whole + tail;
    RunOf(whole, tail);
    assert s[..|whole|] == whole && s[|whole|..] == tail;
    var none: Bytes := [];
    assert Run(none) <= 0;
    assert whole + none[..0] == whole;
  }

  lemma {:induction false} FractionReads(whole: Bytes, frac: Bytes, tail: Bytes)
    requires AllDigits(whole) && whole != [] && AllDigits(frac) && frac != []
    requires tail == [] || tail[0] == EXP
    requires ReadExponent(tail).Some?
    ensures AllDigits(whole + frac)
    ensures ReadNumber(whole + ([POINT] + (frac + tail))) ==
            Number(Value(whole + frac), ReadExponent(tail).value - |frac|)
  {
    DigitsJoin(whole, frac);
    RunOf(whole, [POINT] + (frac + tail));
    RunOf(frac, tail);
    Parts(whole, POINT, frac + tail);
    Halves(frac, tail);
    hide *;
    ReadParts(whole + ([POINT] + (frac + tail)), whole, frac, tail);
  }

  // The reading of s, given where its runs of digits end.
  lemma {:induction false} ReadParts(s: Bytes, whole: Bytes, frac: Bytes, tail: Bytes)
    requires whole != [] && frac != [] && AllDigits(whole + frac) && ReadExponent(tail).Some?
    requires Run(s) == |whole| < |s| && s[..|whole|] == whole && s[|whole|] == POINT
    requires var f := s[|whole| + 1..]; Run(f) == |frac| <= |f| && f[..|frac|] == frac && f[|frac|..] == tail
    ensures ReadNumber(s) == Number(Value(whole + frac), ReadExponent(tail).value - |frac|)
  {
    hide Value, Run, ReadExponent, AllDigits;
  }

  lemma {:induction false} Halves(a: Bytes, b: Bytes)
    ensures (a + b)[..|a|] == a && (a + b)[|a|..] == b
  {
  }

  lemma {:induction false} Parts(a: Bytes, b: byte, c: Bytes)
    ensures var s := a + ([b] + c); s[..|a|] == a && s[|a|] == b && s[|a| + 1..] == c
  {
  }

  lemma {:induction false} DigitsJoin(a: Bytes, b: Bytes)
    requires AllDigits(a) && AllDigits(b)
    ensures AllDigits(a + b)
  {
  }

  // What is read from digits, an optional fraction and a tail.
  lemma {:induction false} NumberReads(whole: Bytes, frac: Bytes, tail: Bytes)
    requires AllDigits(whole) && whole != [] && AllDigits(frac)
    requires tail == [] || tail[0] == EXP
    requires ReadExponent(tail).Some?
    ensures AllDigits(whole + frac)
    ensures ReadNumber(whole + Fraction(frac) + tail) == Number(Value(whole + frac), ReadExponent(tail).value - |frac|)
  {
    hide Value, Run, ReadExponent, ReadNumber;
    if frac == [] {
      assert whole + Fraction(frac) == whole == whole + frac;
      WholeReads(whole, tail);
    } else {
      FractionReads(whole, frac, tail);
      Associate(whole, [POINT] + frac, tail);
      Associate([POINT], frac, tail);
    }
  }

  lemma {:induction false} SmallLayout(d: Bytes, e10: int, prec: nat)
    requires AllDigits(d) && d != [] && -4 <= e10 < 0
    ensures ReadNumber(Layout(d, e10, prec)) == Number(Value(d), e10 - |d| + 1)
  {
    hide Value, ReadNumber;
    var zeros := Repeat(48, -e10 - 1);
    ZeroValue(-e10 - 1);
    ZerosInFront(zeros, d);
    OneDigit(48);
    ZerosInFront([48], zeros + d);
    NumberReads([48], zeros + d, []);
    hide Run, Layout, IsDigit;
    assert [48] + Fraction(zeros + d) + [] == [48] + Fraction(zeros + d);
    assert Layout(d, e10, prec) == [48] + Fraction(zeros + d) by { SmallIs(d, e10, prec); }
  }

  lemma {:induction false} SmallIs(d: Bytes, e10: int, prec: nat)
    requires d != [] && -4 <= e10 < 0
    ensures Layout(d, e10, prec) == [48] + Fraction(Repeat(48, -e10 - 1) + d)
  {
  }

  lemma {:induction false} ZerosInFront(zeros: Bytes, d: Bytes)
    requires AllDigits(zeros) && AllDigits(d) && Value(zeros) == 0
    ensures AllDigits(zeros + d) && Value(zeros + d) == Value(d)
  {
    hide Value, PowBase;
    ValueConcat(zeros, d);
    assert 0 * Ten(|d|) == 0;
  }

  lemma {:induction false} FixedLayout(d: Bytes, e10: int, prec: nat)
    requires AllDigits(d) && d != [] && 0 <= e10 < prec
    ensures ReadNumber(Layout(d, e10, prec)) ==
              if |d| > e10 + 1 then Number(Value(d), e10 - |d| + 1)
              else Number(Value(d) * Ten(e10 + 1 - |d|), 0)
  {
    FixedIs(d, e10, prec);
    hide Layout, Value, Run, ReadNumber, Ten, PowBase, AllDigits, Fraction;
    if |d| > e10 + 1 {
      SplitReads(d, e10 + 1);
    } else {
      PaddedReads(d, e10 + 1 - |d|);
    }
  }

  lemma {:induction false} FixedIs(d: Bytes, e10: int, prec: nat)
    requires d != [] && 0 <= e10 < prec
    ensures Layout(d, e10, prec) ==
              if |d| > e10 + 1 then d[..e10 + 1] + Fraction(d[e10 + 1..]) else d + Repeat(48, e10 + 1 - |d|)
  {
  }

  lemma {:induction false} SplitReads(d: Bytes, k: nat)
    requires AllDigits(d) && 0 < k < |d|
    ensures ReadNumber(d[..k] + Fraction(d[k..])) == Number(Value(d), k - |d|)
  {
    DigitsSplit(d, k);
    hide Value, Run, ReadNumber, AllDigits, Fraction;
    NumberReads(d[..k], d[k..], []);
    NoTail(d[..k] + Fraction(d[k..]));
  }

  lemma {:induction false} PaddedReads(d: Bytes, n: nat)
    requires AllDigits(d) && d != []
    ensures ReadNumber(d + Repeat(48, n)) == Number(Value(d) * Ten(n), 0)
  {
    hide Value, Run, ReadNumber, Ten, PowBase, AllDigits;
    var zeros := Repeat(48, n);
    ZeroValue(n);
    ValueConcat(d, zeros);
    WholeReads(d + zeros, []);
    NoTail(d + zeros);
  }

  lemma {:induction false} DigitsSplit(d: Bytes, k: nat)
    requires AllDigits(d) && k <= |d|
    ensures AllDigits(d[..k]) && AllDigits(d[k..]) && d[..k] + d[k..] == d
  {
  }

  lemma {:induction false} NoTail(s: Bytes)
    ensures s + [] == s
  {
  }

  lemma {:induction false} ExpLayout(d: Bytes, e10: int, prec: nat)
    requires AllDigits(d) && d != [] && (e10 < -4 || e10 >= prec)
    ensures ReadNumber(Layout(d, e10, prec)) == Number(Value(d), e10 - |d| + 1)
  {
    ExpIs(d, e10, prec);
    DigitsSplit(d, 1);
    hide *;
    ExponentReads(e10);
    NumberReads(d[..1], d[1..], ExpText(e10));
  }

  lemma {:induction false} ExpIs(d: Bytes, e10: int, prec: nat)
    requires d != [] && (e10 < -4 || e10 >= prec)
    ensures Layout(d, e10, prec) == d[..1] + Fraction(d[1..]) + ExpText(e10)
  {
  }

  // The text stands for m times ten to the x.
  predicate Denotes(text: Bytes, m: nat, x: int) {
    var r := ReadNumber(text);
    r.Number? && Same(r.m, r.x, m, x)
  }

  /** In each of the three layouts the text denotes exactly digits times ten to the (e10 - digits + 1),
      counted before the trailing zeros were stripped. */
  lemma {:induction false} LayoutDenotes(d: Bytes, e10: int)
    requires AllDigits(d) && d != []
    ensures Denotes(Layout(Stripped(d), e10, |d|), Value(d), e10 - |d| + 1)
  {
    hide Value, Layout, ReadNumber, PowBase, Stripped;
    var t := Stripped(d);
    StrippedValue(d);
    if e10 < -4 || e10 >= |d| {
      ExpLayout(t, e10, |d|);
    } else if e10 < 0 {
      SmallLayout(t, e10, |d|);
    } else {
      FixedLayout(t, e10, |d|);
      if |t| <= e10 + 1 { TenSplit(Value(t), e10 + 1 - |t|, |d| - e10 - 1); }
    }
  }

  lemma {:induction false} TenSplit(m: nat, j: nat, k: nat)
    ensures m * Ten(j + k) == m * Ten(j) * Ten(k)
  {
    PowBaseSum(10, j, k);
    Regroup(m, Ten(j), Ten(k));
  }

  // One decimal place moved from the exponent into the digits.
  lemma {:induction false} SameTen(m: nat, x: int, n: nat, y: int)
    requires Same(m, x, n, y + 1)
    ensures Same(m, x, n * 10, y)
  {
    if x >= y + 1 {
      TenTimes(m, x - y - 1);
    } else if x == y {
      assert Ten(1) == 10 * Ten(0) == 10 && Ten(0) == 1;
    } else {
      TenTimes(n, y - x);
      TenTimesLeft(n, y - x);
    }
  }

  lemma {:induction false} TenTimesLeft(n: nat, k: nat)
    ensures (n * 10) * Ten(k) == 10 * (n * Ten(k))
  {
    var t := Ten(k);
    assert (n * 10) * t == 10 * (n * t);
  }

  lemma {:induction false} RoundedDenotes(d: Bytes, up: bool, e10: int)
    requires AllDigits(d) && d != []
    ensures var (r, e) := Rounded(d, up, e10);
            Denotes(Layout(Stripped(r), e, |d|), Value(d) + (if up then 1 else 0), e10 - |d| + 1)
  {
    hide *;
    if up {
      RoundedUpDenotes(d, e10);
    } else {
      NotRounded(d, e10);
      LayoutDenotes(d, e10);
    }
  }

  lemma {:induction false} RoundedUpDenotes(d: Bytes, e10: int)
    requires AllDigits(d) && d != []
    ensures var (r, e) := Rounded(d, true, e10);
            Denotes(Layout(Stripped(r), e, |d|), Value(d) + 1, e10 - |d| + 1)
  {
    hide *;
    var (r, e) := Rounded(d, true, e10);
    LayoutDenotes(r, e);
    RoundingShape(d, e10);
    if AllNines(d) { DenotesTen(Layout(Stripped(r), e, |d|), Value(r), e10 - |d| + 1); }
  }

  lemma {:induction false} DenotesTen(text: Bytes, n: nat, y: int)
    requires Denotes(text, n, y + 1)
    ensures Denotes(text, n * 10, y)
  {
    hide ReadNumber, Same;
    var r := ReadNumber(text);
    SameTen(r.m, r.x, n, y);
  }

  /** The text is an optional minus sign and a decimal number that stands for exactly the extracted
      digits, plus one unit in the last place when they are rounded up, times ten to the
      (e10 - digits + 1). */
  lemma {:induction false} TextDenotes(neg: bool, d: Bytes, up: bool, e10: int)
    requires AllDigits(d) && d != []
    ensures var text, sign: Bytes := TextOf(neg, d, up, e10), if neg then [45] else [];
            sign <= text && Denotes(text[|sign|..], Value(d) + (if up then 1 else 0), e10 - |d| + 1)
  {
    hide Value, Layout, Denotes, Rounded, Stripped, IsDigit;
    RoundedDenotes(d, up, e10);
    var (r, e) := Rounded(d, up, e10);
    var sign: Bytes, body := if neg then [45] else [], Layout(Stripped(r), e, |d|);
    assert (sign + body)[|sign|..] == body;
  }

  lemma {:induction false} NotRounded(d: Bytes, e10: int)
    requires AllDigits(d) && d != []
    ensures Rounded(d, false, e10) == (d, e10)
  {
  }

  lemma {:induction false} ExpTextFits(e: int)
    requires -1000 < e < 1000
    ensures |ExpText(e)| <= 5
  {
    ThreeDigits(if e < 0 then -e else e);
  }

  lemma {:induction false} ThreeDigits(v: nat)
    requires v < 1000
    ensures |Decimal(v)| <= 3
  {
    assert PowBase(10, 3) == 10 * PowBase(10, 2) && PowBase(10, 2) == 10 * PowBase(10, 1);
    DigitsFit(v, 10, false, 3, 1000);
  }

  /** For every precision the formatter keeps and every exponent a double can have, the text and its
      terminator fit a buffer of 25 bytes, less than callers provide. */
  lemma {:induction false} TextFits(neg: bool, d: Bytes, up: bool, e10: int)
    requires AllDigits(d) && 1 <= |d| <= MAX_PREC && -999 <= e10 <= 998
    ensures |TextOf(neg, d, up, e10)| <= 24
  {
    var (r, e) := Rounded(d, up, e10);
    hide Value, ReadNumber, Rounded, Stripped, ExpText;
    ExpTextFits(e);
  }

  // ---------------------------------------------------------------------------------------------
  // The program
  // ---------------------------------------------------------------------------------------------

  // The carry reaches position k when every digit from there on is 9.
  lemma {:induction false} CarryReaches(d: Bytes, k: nat)
    requires AllDigits(d) && k <= |d| && AllNines(d[k..])
    ensures AllDigits(d[..k])
    ensures Incremented(d) == (Incremented(d[..k]).0 + Repeat(48, |d| - k), Incremented(d[..k]).1)
    decreases |d|
  {
    if k == |d| {
      assert d[..k] == d;
      assert Incremented(d).0 + Repeat(48, 0) == Incremented(d).0;
    } else {
      var rest := d[..|d| - 1];
      assert d[k..][|d| - 1 - k] == d[|d| - 1];
      assert rest[k..] == d[k..][..|d| - 1 - k];
      assert rest[..k] == d[..k];
      CarryReaches(rest, k);
      assert d[|d| - 1] == 57;
      assert Repeat(48, |d| - k) == Repeat(48, |d| - 1 - k) + [48];
      Associate(Incremented(d[..k]).0, Repeat(48, |d| - 1 - k), [48]);
    }
  }

  // What the digits have become when the carry is about to enter the first k of them.
  predicate Carried(d: Bytes, k: nat, now: Bytes)
    requires k <= |d|
  {
    AllNines(d[k..]) && now == d[..k] + Repeat(48, |d| - k)
  }

  lemma {:induction false} NineCarries(d: Bytes, i: nat, now: Bytes)
    requires i < |d| && Carried(d, i + 1, now) && d[i] == 57
    ensures Carried(d, i, now[i := 48])
  {
    hide AllNines;
    NinesBefore(d, i);
    assert now[i := 48] == d[..i] + Repeat(48, |d| - i);
  }

  lemma {:induction false} NinesBefore(d: Bytes, i: nat)
    requires i < |d| && AllNines(d[i + 1..]) && d[i] == 57
    ensures AllNines(d[i..])
  {
    assert d[i..] == [d[i]] + d[i + 1..];
  }

  lemma {:induction false} CarryStops(d: Bytes, i: nat, now: Bytes)
    requires AllDigits(d) && i < |d| && Carried(d, i + 1, now) && d[i] != 57
    ensures 48 <= d[i] < 57 && now[i] == d[i] && (now[i := d[i] as int + 1], false) == Incremented(d)
  {
    DigitAt(d, i);
    CarriedAt(d, i, now);
    CarryReaches(d, i + 1);
    hide AllNines, AllDigits, IsDigit, Incremented;
    NoCarryAt(d, i);
    Changed(d, i, Repeat(48, |d| - 1 - i), d[i] as int + 1);
  }

  lemma {:induction false} DigitAt(d: Bytes, i: nat)
    requires AllDigits(d) && i < |d|
    ensures 48 <= d[i] <= 57
  {
    assert IsDigit(d[i]);
  }

  lemma {:induction false} Changed(d: Bytes, i: nat, rest: Bytes, b: byte)
    requires i < |d|
    ensures (d[..i + 1] + rest)[i := b] == (d[..i] + [b]) + rest
  {
  }

  lemma {:induction false} NoCarryAt(d: Bytes, i: nat)
    requires AllDigits(d) && i < |d| && d[i] != 57
    ensures AllDigits(d[..i + 1]) && 48 <= d[i] < 57
    ensures Incremented(d[..i + 1]) == (d[..i] + [d[i] as int + 1], false)
  {
    DigitAt(d, i);
    hide Incremented;
    assert d[..i + 1][..i] == d[..i] && d[..i + 1][i] == d[i];
    NoCarry(d[..i + 1]);
  }

  lemma {:induction false} CarryRunsOff(d: Bytes, now: Bytes)
    requires AllDigits(d) && Carried(d, 0, now)
    ensures (now, true) == Incremented(d)
  {
    hide Incremented;
    CarryReaches(d, 0);
    AllCarry();
    assert d[..0] == [] && [] + Repeat(48, |d|) == Repeat(48, |d|);
  }

  lemma {:induction false} CarriedAt(d: Bytes, i: nat, now: Bytes)
    requires i < |d| && Carried(d, i + 1, now)
    ensures |now| == |d| && now[i] == d[i]
  {
    assert now[i] == d[..i + 1][i];
  }

  // Adds one from the last digit upwards; carry when it runs off the top.
  method Increment(dig: array<byte>, prec: nat) returns (carry: bool)
    requires 1 <= prec <= dig.Length && AllDigits(dig[..prec])
    modifies dig
    ensures AllDigits(old(dig[..prec])) && (dig[..prec], carry) == Incremented(old(dig[..prec]))
  {
    hide Incremented, Carried, AllDigits, IsDigit;
    ghost var d := dig[..prec];
    NothingCarried(d);
    var i := prec - 1;
    while i >= 0
      invariant -1 <= i < prec && Carried(d, i + 1, dig[..prec])
      decreases i
    {
      ghost var now := dig[..prec];
      CarriedAt(d, i, now);
      assert dig[i] == now[i];
      if dig[i] == 57 {
        NineCarries(d, i, now);
        dig[i] := 48;
        assert dig[..prec] == now[i := 48];
        i := i - 1;
      } else {
        CarryStops(d, i, now);
        dig[i] := dig[i] as int + 1;
        assert dig[..prec] == now[i := d[i] as int + 1];
        return false;
      }
    }
    CarryRunsOff(d, dig[..prec]);
    carry := true;
  }

  lemma {:induction false} NothingCarried(d: Bytes)
    ensures Carried(d, |d|, d)
  {
    assert d == d[..|d|] + Repeat(48, 0);
  }

  // The digits after those from position k on have moved one place to the right.
  predicate Shifted(r: Bytes, k: nat, now: Bytes)
    requires k < |r|
  {
    now == r[..k + 1] + r[k..|r| - 1]
  }

  lemma {:induction false} ShiftOne(r: Bytes, k: nat, now: Bytes)
    requires 0 < k < |r| && Shifted(r, k, now)
    ensures |now| == |r| && Shifted(r, k - 1, now[k := now[k - 1]])
  {
    assert now[k - 1] == r[k - 1];
    assert r[k - 1..|r| - 1] == [r[k - 1]] + r[k..|r| - 1];
    assert r[..k + 1][..k] == r[..k];
  }

  lemma {:induction false} ShiftDone(r: Bytes, now: Bytes)
    requires r != [] && Shifted(r, 0, now)
    ensures |now| == |r| && now[0 := 49] == [49] + r[..|r| - 1]
  {
  }

  method RoundUp(dig: array<byte>, prec: nat, e10: int) returns (e: int)
    requires 1 <= prec <= dig.Length && AllDigits(dig[..prec])
    modifies dig
    ensures AllDigits(old(dig[..prec])) && (dig[..prec], e) == Rounded(old(dig[..prec]), true, e10)
  {
    hide Incremented, AllDigits, Shifted;
    e := e10;
    var carry := Increment(dig, prec);
    if carry {
      ghost var r := dig[..prec];
      var k := prec - 1;
      NothingShifted(r);
      while k > 0
        invariant 0 <= k < prec && Shifted(r, k, dig[..prec])
      {
        ghost var now := dig[..prec];
        ShiftOne(r, k, now);
        assert dig[k - 1] == now[k - 1];
        dig[k] := dig[k - 1];
        assert dig[..prec] == now[k := now[k - 1]];
        k := k - 1;
      }
      ghost var now := dig[..prec];
      ShiftDone(r, now);
      dig[0] := 49;
      assert dig[..prec] == now[0 := 49];
      e := e + 1;
    }
  }

  lemma {:induction false} NothingShifted(r: Bytes)
    requires r != []
    ensures Shifted(r, |r| - 1, r)
  {
  }

  lemma {:induction false} AllCarry()
    ensures Incremented([]) == ([], true)
  {
  }

  lemma {:induction false} NoCarry(d: Bytes)
    requires AllDigits(d) && d != [] && d[|d| - 1] != 57
    ensures Incremented(d) == (d[..|d| - 1] + [d[|d| - 1] as int + 1], false)
  {
  }

  // The caller's buffer and the output index; every write must stay inside.
  class Text {
    const buf: array<byte>
    var o: nat

    ghost predicate Valid()
      reads this
    {
      o <= buf.Length
    }

    ghost function Now(): Bytes
      requires Valid()
      reads this, buf
    {
      buf[..o]
    }

    constructor (b: array<byte>)
      ensures Valid() && Now() == [] && buf == b
    {
      buf, o := b, 0;
    }

    method Put(c: byte)
      requires Valid() && o < buf.Length
      modifies this`o, buf
      ensures Valid() && Now() == old(Now()) + [c]
    {
      buf[o] := c;
      o := o + 1;
    }

    method PutRange(dig: array<byte>, from: nat, to: nat)
      requires Valid() && from <= to <= dig.Length && dig != buf && |Now()| + (to - from) <= buf.Length
      modifies this`o, buf
      ensures Valid() && Now() == old(Now()) + dig[from..to]
    {
      for i := from to to
        invariant Valid() && Now() == old(Now()) + dig[from..i]
      {
        assert dig[from..i + 1] == dig[from..i] + [dig[i]];
        Associate(old(Now()), dig[from..i], [dig[i]]);
        Put(dig[i]);
      }
    }

    method PutZeros(n: int)
      requires Valid() && |Now()| + n <= buf.Length
      modifies this`o, buf
      ensures Valid() && Now() == old(Now()) + Repeat(48, n)
    {
      var i := 0;
      assert old(Now()) + Repeat(48, 0) == Now();
      while i < n
        invariant 0 <= i && (n >= 0 ==> i <= n) && (n < 0 ==> i == 0) && Valid() && Now() == old(Now()) + Repeat(48, i)
      {
        assert Repeat(48, i + 1) == Repeat(48, i) + [48];
        Associate(old(Now()), Repeat(48, i), [48]);
        Put(48);
        i := i + 1;
      }
      assert Repeat(48, i) == Repeat(48, n);
    }
  }

  // The exponent digits, least significant first.
  method ScratchExponent(ev: nat, eb: array<byte>) returns (en: nat)
    requires ev < 1000 && eb.Length == 6
    modifies eb
    ensures en <= eb.Length && Reversed(eb[..en]) == ExpDigits(ev)
  {
    hide Digits;
    ThreeDigits(ev);
    en := ScratchDigits(ev, 10, false, eb);
    TwoDigits(ev);
    if en < 2 {
      ghost var was := eb[..en];
      eb[en] := 48;
      ReversedSnoc(was, 48);
      assert eb[..en + 1] == was + [48];
      en := en + 1;
    }
  }

  method PutReversed(t: Text, eb: array<byte>, n: nat)
    requires t.Valid() && n <= eb.Length && |t.Now()| + n <= t.buf.Length && eb != t.buf
    modifies t`o, t.buf
    ensures t.Valid() && t.Now() == old(t.Now()) + Reversed(eb[..n])
  {
    ghost var front, text := t.Now(), Reversed(eb[..n]);
    var en := n;
    while en > 0
      invariant 0 <= en <= n && t.Valid() && text == Reversed(eb[..n])
      invariant t.Now() == front + text[..n - en]
    {
      en := en - 1;
      assert eb[en] == eb[..n][en] == text[n - 1 - en];
      assert text[..n - en] == text[..n - 1 - en] + [text[n - 1 - en]];
      Associate(front, text[..n - 1 - en], [eb[en]]);
      t.Put(eb[en]);
    }
    assert text[..n] == text;
  }

  method PutExponent(t: Text, e10: int)
    requires t.Valid() && -999 <= e10 <= 999 && |t.Now()| + 5 <= t.buf.Length
    modifies t`o, t.buf
    ensures t.Valid() && t.Now() == old(t.Now()) + ExpText(e10)
  {
    hide Digits, ExpDigits;
    ExpTextFits(e10);
    t.Put(EXP);
    var ev := e10;
    t.Put(if ev < 0 then 45 else 43);
    if ev < 0 { ev := -ev; }
    var eb := new byte[6];
    var en := ScratchExponent(ev, eb);
    PutReversed(t, eb, en);
    assert t.Now() == old(t.Now()) + ([EXP] + ((if e10 < 0 then [45] else [43]) + ExpDigits(ev)));
  }

  lemma {:induction false} TwoDigits(v: nat)
    ensures |Decimal(v)| == 1 <==> v < 10
  {
  }

  method PutScientific(t: Text, dig: array<byte>, ndig: nat, e10: int)
    requires t.Valid() && 1 <= ndig <= MAX_PREC && ndig <= dig.Length && dig != t.buf
    requires -999 <= e10 <= 999 && |t.Now()| + 24 <= t.buf.Length
    modifies t`o, t.buf
    ensures t.Valid()
    ensures t.Now() == old(t.Now()) + (dig[..1] + Fraction(dig[1..ndig]) + ExpText(e10))
  {
    hide ExpText;
    ghost var start := t.Now();
    t.Put(dig[0]);
    if ndig > 1 { t.Put(POINT); t.PutRange(dig, 1, ndig); }
    assert t.Now() == start + (dig[..1] + Fraction(dig[1..ndig]));
    PutExponent(t, e10);
    Associate(start, dig[..1] + Fraction(dig[1..ndig]), ExpText(e10));
  }

  method PutFixed(t: Text, dig: array<byte>, ndig: nat, ip: nat)
    requires t.Valid() && 1 <= ndig <= MAX_PREC && 1 <= ip <= MAX_PREC && ndig <= dig.Length && dig != t.buf
    requires |t.Now()| + 24 <= t.buf.Length
    modifies t`o, t.buf
    ensures t.Valid()
    ensures t.Now() == old(t.Now()) + if ndig > ip then dig[..ip] + Fraction(dig[ip..ndig])
                                      else dig[..ndig] + Repeat(48, ip - ndig)
  {
    ghost var start := t.Now();
    t.PutRange(dig, 0, if ip < ndig then ip else ndig);
    t.PutZeros(ip - ndig);
    if ndig > ip { t.Put(POINT); t.PutRange(dig, ip, ndig); }
    FixedText(start, dig[..ndig], dig[..], ip, t.Now());
    assert dig[..ndig][..if ndig > ip then ip else 0] == dig[..if ndig > ip then ip else 0];
    assert ndig > ip ==> dig[..ndig][ip..] == dig[ip..ndig];
  }

  method PutSmall(t: Text, dig: array<byte>, ndig: nat, zeros: nat)
    requires t.Valid() && 1 <= ndig <= MAX_PREC && zeros <= 3 && ndig <= dig.Length && dig != t.buf
    requires |t.Now()| + 24 <= t.buf.Length
    modifies t`o, t.buf
    ensures t.Valid()
    ensures t.Now() == old(t.Now()) + ([48] + Fraction(Repeat(48, zeros) + dig[..ndig]))
  {
    ghost var start := t.Now();
    t.Put(48);
    t.Put(POINT);
    t.PutZeros(zeros);
    t.PutRange(dig, 0, ndig);
    assert dig[0..ndig] == dig[..ndig];
    assert t.Now() == start + ([48] + ([POINT] + (Repeat(48, zeros) + dig[..ndig])));
  }

  method PutLayout(t: Text, dig: array<byte>, ndig: nat, e10: int, prec: nat)
    requires t.Valid() && 1 <= ndig <= prec <= MAX_PREC && ndig <= dig.Length && dig != t.buf
    requires -999 <= e10 <= 999 && |t.Now()| + 24 <= t.buf.Length
    modifies t`o, t.buf
    ensures t.Valid() && t.Now() == old(t.Now()) + Layout(dig[..ndig], e10, prec)
  {
    hide ExpText, Fraction;
    ghost var d := dig[..ndig];
    if e10 < -4 || e10 >= prec {
      PutScientific(t, dig, ndig, e10);
      assert d[..1] == dig[..1] && d[1..] == dig[1..ndig];
    } else if e10 >= 0 {
      PutFixed(t, dig, ndig, e10 + 1);
      assert ndig > e10 + 1 ==> d[..e10 + 1] == dig[..e10 + 1] && d[e10 + 1..] == dig[e10 + 1..ndig];
    } else {
      PutSmall(t, dig, ndig, -e10 - 1);
    }
  }

  // What the fixed layout has written: leading digits, zeros past the last one, and the fraction.
  lemma {:induction false} FixedText(start: Bytes, d: Bytes, dig: Bytes, ip: nat, text: Bytes)
    requires d != [] && d <= dig && ip > 0
    requires text == if |d| > ip then start + dig[0..ip] + Repeat(48, ip - |d|) + [POINT] + dig[ip..|d|]
                     else start + dig[0..|d|] + Repeat(48, ip - |d|)
    ensures text == start + if |d| > ip then d[..ip] + Fraction(d[ip..]) else d + Repeat(48, ip - |d|)
  {
    if |d| > ip {
      assert Repeat(48, ip - |d|) == [];
      assert dig[0..ip] == d[..ip] && dig[ip..|d|] == d[ip..];
    } else {
      assert dig[0..|d|] == d;
    }
  }

  // How many of the first prec digits are left without trailing zeros.
  method StripZeros(dig: array<byte>, prec: nat) returns (ndig: nat)
    requires 1 <= prec <= dig.Length && AllDigits(dig[..prec])
    ensures 1 <= ndig <= prec && dig[..ndig] == Stripped(dig[..prec])
  {
    hide IsDigit;
    ndig := prec;
    while ndig > 1 && dig[ndig - 1] == 48
      invariant 1 <= ndig <= prec
      invariant AllDigits(dig[..ndig]) && Stripped(dig[..ndig]) == Stripped(dig[..prec])
    {
      assert dig[..ndig][..ndig - 1] == dig[..ndig - 1];
      ndig := ndig - 1;
    }
  }

  // From the extracted digits on: rounding, stripping and layout. dig has room for 20 digits.
  method FormatDigits(out: array<byte>, neg: bool, dig: array<byte>, prec: nat, roundUp: bool, e10: int)
    returns (o: nat)
    requires out.Length >= OUT_SIZE && dig.Length == 20 && out != dig
    requires 1 <= prec <= MAX_PREC && AllDigits(dig[..prec]) && -400 <= e10 <= 400
    modifies out, dig
    ensures AllDigits(old(dig[..prec])) && o <= 24
    ensures out[..o] == TextOf(neg, old(dig[..prec]), roundUp, e10) && out[o] == 0
  {
    hide Layout, IsDigit, Stripped, Incremented;
    ghost var d := dig[..prec];
    TextFits(neg, d, roundUp, e10);
    var t := new Text(out);
    if neg { t.Put(45); }
    var e := e10;
    if roundUp { e := RoundUp(dig, prec, e10); }
    assert t.Now() == if neg then [45] else [];
    assert (dig[..prec], e) == Rounded(d, roundUp, e10);
    hide Rounded;
    var ndig := StripZeros(dig, prec);
    PutLayout(t, dig, ndig, e, prec);
    o := t.o;
    out[o] := 0;
  }
}
