/** Integer text character by character: what each conversion writes, and which texts read as which number. */
module NumberText {
  import opened Bytes
  import opened Numbers

  // The value of a digit character.
  function DigitValue(c: char): Option<nat> {
    if '0' <= c <= '9' then Some((c - '0') as nat)
    else if 'a' <= c <= 'f' then Some((c - 'a') as nat + 10)
    else if 'A' <= c <= 'F' then Some((c - 'A') as nat + 10)
    else None
  }

  // Every character is a digit of the base, letters in the wanted case only.
  predicate DigitsOf(s: Bytes, base: nat, upper: bool) {
    forall k :: 0 <= k < |s| ==>
      var c := s[k] as char;
      DigitValue(c).Some? && DigitValue(c).value < base && !(if upper then 'a' <= c <= 'f' else 'A' <= c <= 'F')
  }

  // The number the digits stand for, most significant first.
  function ReadIn(s: Bytes, base: nat): nat {
    if s == [] then 0
    else ReadIn(s[..|s| - 1], base) * base
         + match DigitValue(s[|s| - 1] as char) case None => 0 case Some(d) => d
  }

  lemma {:induction false} OneDigitRead(d: nat, upper: bool)
    requires d < 16
    ensures DigitValue(DigitChar(d, upper) as char) == Some(d)
    ensures var c := DigitChar(d, upper) as char; !(if upper then 'a' <= c <= 'f' else 'A' <= c <= 'F')
    ensures DigitChar(d, upper) == '0' as int <==> d == 0
  {
  }

  /** The digits of a number in base 8, 10 or 16 read back as the number, in the wanted case, with no zero in
      front of another digit. */
  lemma {:induction false} DigitsRead(v: nat, base: nat, upper: bool)
    requires Base(base)
    ensures DigitsOf(Digits(v, base, upper), base, upper) && ReadIn(Digits(v, base, upper), base) == v
    ensures if v == 0 then Digits(v, base, upper) == ['0' as int] else Digits(v, base, upper)[0] != '0' as int
    decreases v
  {
    assert base <= 16;
    DigitsAre(v, base, upper);
    DivMod(v, base);
    hide *;
    NoDigits(base, upper);
    var high: Bytes := if v < base then [] else Digits(v / base, base, upper);
    if v >= base { DigitsRead(v / base, base, upper); }
    OneDigitOf(v % base, base, upper);
    DigitBehind(high, DigitChar(v % base, upper), base, upper);
  }

  lemma {:induction false} DigitsAre(v: nat, base: nat, upper: bool)
    requires Base(base)
    ensures Digits(v, base, upper)
         == (if v < base then [] else Digits(v / base, base, upper)) + [DigitChar(v % base, upper)]
  {
  }

  lemma {:induction false} DivMod(v: nat, base: nat)
    requires Base(base)
    ensures v / base * base + v % base == v && v % base < base
    ensures v >= base ==> 0 < v / base < v
    ensures v < base ==> v / base == 0 && v % base == v
  {
    if base == 8 {
      assert v / 8 * 8 + v % 8 == v;
    } else if base == 10 {
      assert v / 10 * 10 + v % 10 == v;
    } else {
      assert v / 16 * 16 + v % 16 == v;
    }
  }

  lemma {:induction false} OneDigitOf(d: nat, base: nat, upper: bool)
    requires d < base <= 16
    ensures DigitsOf([DigitChar(d, upper)], base, upper)
    ensures DigitValue(DigitChar(d, upper) as char) == Some(d) && (DigitChar(d, upper) == '0' as int <==> d == 0)
  {
    OneDigitRead(d, upper);
    hide DigitChar, DigitValue;
  }

  lemma {:induction false} DigitBehind(s: Bytes, b: byte, base: nat, upper: bool)
    requires base > 0 && DigitsOf(s, base, upper) && DigitsOf([b], base, upper)
    ensures DigitsOf(s + [b], base, upper)
    ensures DigitValue(b as char).Some? && ReadIn(s + [b], base) == ReadIn(s, base) * base + DigitValue(b as char).value
  {
    var all := s + [b];
    assert all[..|s|] == s && all[|s|] == b && [b][0] == b;
    hide ReadIn, DigitValue;
    forall k | 0 <= k < |all| ensures all[k] == if k < |s| then s[k] else b {}
  }

  function Least(a: int, b: int): int { if a < b then a else b }

  function AtLeast(a: int, b: int): int { if a > b then a else b }

  /** What an unsigned conversion writes: blanks, prefix, zeros, digits, blanks. The precision is the least
      number of digits, with no digit at all for 0 at precision 0. What is missing from the width is made up
      with blanks on the left; behind the digits with the left flag; and with zeros behind the prefix with the
      zero flag and no precision. */
  lemma {:induction false} UintShape(v: nat, base: nat, upper: bool, f: Spec, pfx: Bytes)
    returns (left: nat, zeros: nat, body: Bytes, right: nat)
    requires Base(base)
    ensures UintText(v, base, upper, f, pfx)
         == Repeat(' ' as int, left) + pfx + Repeat('0' as int, zeros) + body + Repeat(' ' as int, right)
    ensures DigitsOf(body, base, upper) && ReadIn(body, base) == v
    ensures if v == 0 then body == (if f.hasPrec && f.prec == 0 then [] else ['0' as int])
            else body != [] && body[0] != '0' as int
    ensures var prec := if f.hasPrec then AtLeast(0, f.prec - |body|) else 0;
            var missing := AtLeast(0, f.width - (|body| + prec + |pfx|));
            && left == (if f.left || f.zero then 0 else missing)
            && right == (if f.left then missing else 0)
            && zeros == if !f.left && f.zero && !f.hasPrec then missing else prec
  {
    hide Digits, DigitsOf, ReadIn, Repeat;
    DigitsRead(v, base, upper);
    NoDigits(base, upper);
    left := if f.left || f.zero then 0 else WidthPad(v, base, upper, f, pfx);
    right := if f.left then WidthPad(v, base, upper, f, pfx) else 0;
    zeros := if !f.left && f.zero && !f.hasPrec then WidthPad(v, base, upper, f, pfx) else ZeroPad(v, base, upper, f);
    body := Body(v, base, upper, f);
    NoPadding();
  }

  lemma {:induction false} NoDigits(base: nat, upper: bool)
    ensures DigitsOf([], base, upper) && ReadIn([], base) == 0
  {
  }

  lemma {:induction false} NoPadding()
    ensures Repeat(' ' as int, 0) == []
  {
  }

  // ---------------------------------------------------------------------------------------------
  // Reading
  // ---------------------------------------------------------------------------------------------

  // The digits of s, read as a decimal number behind those read before.
  function DecimalFrom(s: Bytes, acc: nat): nat
    requires AllDecimal(s)
  {
    if s == [] then acc else DecimalFrom(s[1..], acc * 10 + (s[0] - '0' as int))
  }

  predicate AllDecimal(s: Bytes) { forall k :: 0 <= k < |s| ==> '0' as int <= s[k] <= '9' as int }

  lemma {:induction false} DecimalGrows(s: Bytes, acc: nat)
    requires AllDecimal(s)
    ensures DecimalFrom(s, acc) >= acc
    decreases |s|
  {
    if s != [] { DecimalGrows(s[1..], acc * 10 + (s[0] - '0' as int)); }
  }

  lemma {:induction false} UintReads(s: Bytes, acc: nat)
    ensures ParseUintFrom(s, acc).Ok? ==> AllDecimal(s)
    ensures AllDecimal(s) && acc <= MAX_U64 ==>
              ParseUintFrom(s, acc) == if DecimalFrom(s, acc) <= MAX_U64 then Ok(DecimalFrom(s, acc)) else Range
    decreases |s|
  {
    if s != [] && IsDigit(s[0]) {
      var next := acc * 10 + (s[0] - '0' as int);
      UintReads(s[1..], next);
      if AllDecimal(s) { DecimalGrows(s[1..], next); }
      assert AllDecimal(s[1..]) ==> AllDecimal(s);
    }
  }

  // s without its sign, and whether that is a minus.
  function Unsigned(s: Bytes): Bytes {
    if s != [] && (s[0] == '-' as int || s[0] == '+' as int) then s[1..] else s
  }

  predicate Negative(s: Bytes) { s != [] && s[0] == '-' as int }

  // An optional sign and at least one decimal digit.
  predicate IsInteger(s: Bytes) { Unsigned(s) != [] && AllDecimal(Unsigned(s)) }

  function IntegerOf(s: Bytes): int
    requires IsInteger(s)
  {
    if Negative(s) then -(DecimalFrom(Unsigned(s), 0) as int) else DecimalFrom(Unsigned(s), 0)
  }

  /** Which texts are read as numbers, and as which: an optional sign and decimal digits, in the range of 64-bit
      integers. Out of that range the nearest end of it is taken. */
  lemma {:induction false} ParsedExactly(s: Bytes)
    ensures ParseInt(s).Ok? <==> IsInteger(s) && -0x8000_0000_0000_0000 <= IntegerOf(s) <= 0x7FFF_FFFF_FFFF_FFFF
    ensures ParseInt(s).Ok? ==> ParseInt(s).v == IntegerOf(s)
    ensures IsInteger(s) ==>
              IntOrDefault(s) == Least(AtLeast(IntegerOf(s), -0x8000_0000_0000_0000), 0x7FFF_FFFF_FFFF_FFFF)
  {
    hide ParseUintFrom, DecimalFrom, AllDecimal;
    UintReads(Unsigned(s), 0);
  }
}
