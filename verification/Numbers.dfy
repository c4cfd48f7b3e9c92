/** Integer text: the formatter of the C side and the integer parser of the Go side. */
module Numbers {
  import opened Bytes

  const MAX_U64: nat := 0xFFFF_FFFF_FFFF_FFFF
  const MAX_I64: int := 0x7FFF_FFFF_FFFF_FFFF
  const MIN_I64: int := -0x8000_0000_0000_0000

  predicate Base(b: nat) { b == 8 || b == 10 || b == 16 }

  function DigitChar(d: nat, upper: bool): byte
    requires d < 16
  {
    if d < 10 then 48 + d else if upper then 55 + d else 87 + d
  }

  function Digits(v: nat, base: nat, upper: bool): (s: Bytes)
    requires Base(base)
    ensures |s| >= 1
  {
    if v < base then [DigitChar(v, upper)]
    else Digits(v / base, base, upper) + [DigitChar(v % base, upper)]
  }

  function Decimal(v: nat): Bytes { Digits(v, 10, false) }

  function IntText(v: int): Bytes { if v < 0 then [45] + Decimal(-v) else Decimal(v) }

  function Repeat(b: byte, n: int): (s: Bytes)
    ensures |s| == if n < 0 then 0 else n
  {
    seq(if n < 0 then 0 else n, _ => b)
  }

  // ---------------------------------------------------------------------------------------------
  // Formatting
  // ---------------------------------------------------------------------------------------------

  datatype Spec = Spec(width: int, prec: int, hasPrec: bool, left: bool, zero: bool)

  const PLAIN := Spec(0, 0, false, false, false)

  function Body(v: nat, base: nat, upper: bool, f: Spec): Bytes
    requires Base(base)
  {
    if f.hasPrec && f.prec == 0 && v == 0 then [] else Digits(v, base, upper)
  }

  function ZeroPad(v: nat, base: nat, upper: bool, f: Spec): nat
    requires Base(base)
  {
    var n := |Body(v, base, upper, f)|;
    if f.hasPrec && f.prec > n then f.prec - n else 0
  }

  function WidthPad(v: nat, base: nat, upper: bool, f: Spec, pfx: Bytes): nat
    requires Base(base)
  {
    var body := |Body(v, base, upper, f)| + ZeroPad(v, base, upper, f) + |pfx|;
    if f.width > body then f.width - body else 0
  }

  function Blanks(f: Spec, pad: nat): Bytes {
    if !f.left && !f.zero then Repeat(32, pad) else []
  }

  function Zeros(f: Spec, pad: nat, zeros: nat): Bytes {
    if !f.left && f.zero && !f.hasPrec then Repeat(48, pad) else Repeat(48, zeros)
  }

  function Tail(f: Spec, pad: nat): Bytes {
    if f.left then Repeat(32, pad) else []
  }

  // What the conversion writes: blanks, prefix, zeros, digits and trailing blanks.
  function UintText(v: nat, base: nat, upper: bool, f: Spec, pfx: Bytes): Bytes
    requires Base(base)
  {
    var pad := WidthPad(v, base, upper, f, pfx);
    Blanks(f, pad) + pfx + Zeros(f, pad, ZeroPad(v, base, upper, f)) + Body(v, base, upper, f) + Tail(f, pad)
  }

  /** The text reaches the requested width, except that a zero flag together with a precision
      drops the width (C pads such a conversion with blanks). */
  lemma {:induction false} WidthHonoured(v: nat, base: nat, upper: bool, f: Spec, pfx: Bytes)
    requires Base(base)
    ensures var natural := |Body(v, base, upper, f)| + ZeroPad(v, base, upper, f) + |pfx|;
            |UintText(v, base, upper, f, pfx)| == (if f.width > natural then f.width else natural)
            <==> (!f.left && f.zero && f.hasPrec ==> f.width <= natural)
  {
  }

  /** %08.3d of 5 comes out three characters long. */
  lemma {:induction false} ZeroFlagWithPrecisionLosesWidth()
    ensures UintText(5, 10, false, Spec(8, 3, true, false, true), []) == [48, 48, 53]
  {
    assert Digits(5, 10, false) == [53];
    assert Repeat(48, 2) == [48, 48];
  }

  lemma {:induction false} DigitsFit(v: nat, base: nat, upper: bool, k: nat, bound: nat)
    requires Base(base) && k >= 1 && v < bound && bound <= PowBase(base, k)
    ensures |Digits(v, base, upper)| <= k
  {
    if v >= base {
      assert k > 1 by { assert PowBase(base, 1) == base * PowBase(base, 0); }
      assert v / base < PowBase(base, k - 1);
      DigitsFit(v / base, base, upper, k - 1, PowBase(base, k - 1));
    }
  }

  function PowBase(base: nat, k: nat): (p: nat)
    requires Base(base)
    ensures p >= 1
  {
    if k == 0 then 1 else base * PowBase(base, k - 1)
  }

  lemma {:induction false} U64Digits(v: nat, base: nat, upper: bool)
    requires Base(base) && v <= MAX_U64
    ensures |Digits(v, base, upper)| <= 22
  {
    Pow8();
    PowGrows(base, 22);
    DigitsFit(v, base, upper, 22, MAX_U64 + 1);
  }

  lemma {:induction false} Pow8()
    ensures PowBase(8, 22) == 0x4_0000_0000_0000_0000
  {
    assert PowBase(8, 2) == 64;
    PowBaseSum(8, 2, 2);
    PowBaseSum(8, 4, 4);
    PowBaseSum(8, 8, 8);
    PowBaseSum(8, 16, 4);
    PowBaseSum(8, 20, 2);
  }

  lemma {:induction false} PowGrows(base: nat, k: nat)
    requires Base(base)
    ensures PowBase(base, k) >= PowBase(8, k)
  {
    if k > 0 {
      PowGrows(base, k - 1);
      var p, q := PowBase(base, k - 1), PowBase(8, k - 1);
      assert base * p >= 8 * q;
    }
  }

  lemma {:induction false} PowBaseSum(base: nat, j: nat, k: nat)
    requires Base(base)
    ensures PowBase(base, j + k) == PowBase(base, j) * PowBase(base, k)
  {
    if j > 0 {
      PowBaseSum(base, j - 1, k);
      assert PowBase(base, j + k) == base * PowBase(base, j - 1 + k);
      Regroup(base, PowBase(base, j - 1), PowBase(base, k));
    }
  }

  lemma {:induction false} Regroup(a: nat, b: nat, c: nat)
    ensures a * (b * c) == (a * b) * c
  {
  }

  /** A bounded output buffer: at most cap - 1 bytes are stored, all of them are counted. */
  class Sink {
    const buf: array<byte>
    var len: nat
    ghost var Out: Bytes  // everything written, stored or not

    ghost predicate Valid()
      reads this, buf
    {
      && |Out| == len
      && (len < buf.Length ==> buf[..len] == Out)
      && (len >= buf.Length > 0 ==> buf[..buf.Length - 1] == Out[..buf.Length - 1])
    }

    constructor (cap: nat)
      ensures Valid() && Out == [] && fresh(buf) && buf.Length == cap
    {
      buf := new byte[cap];
      len := 0;
      Out := [];
    }

    method Putc(c: byte)
      requires Valid()
      modifies this, buf
      ensures Valid() && Out == old(Out) + [c]
    {
      if buf.Length > 0 && len < buf.Length - 1 { buf[len] := c; }
      len := len + 1;
      Out := Out + [c];
    }

    method Puts(s: Bytes)
      requires Valid()
      modifies this, buf
      ensures Valid() && Out == old(Out) + s
    {
      for i := 0 to |s|
        invariant Valid() && Out == old(Out) + s[..i]
      {
        Putc(s[i]);
        assert s[..i + 1] == s[..i] + [s[i]];
      }
      assert s[..|s|] == s;
    }

    method Pad(c: byte, n: int)
      requires Valid()
      modifies this, buf
      ensures Valid() && Out == old(Out) + Repeat(c, n)
    {
      var k := n;
      while k > 0
        invariant k <= n && (k == n || k >= 0)
        invariant Valid() && Out == old(Out) + Repeat(c, n - k)
      {
        assert Repeat(c, n - k + 1) == Repeat(c, n - k) + [c];
        Putc(c);
        k := k - 1;
      }
    }

    // Terminate; the text is what was written, clipped to the buffer.
    method Finish() returns (n: nat)
      requires Valid()
      modifies buf
      ensures n == len && Out == old(Out)
      ensures var k := if len < buf.Length then len else buf.Length - 1;
              buf.Length > 0 ==> k < buf.Length && k <= len && buf[k] == 0 && buf[..k] == Out[..k]
    {
      if buf.Length > 0 {
        buf[if len < buf.Length then len else buf.Length - 1] := 0;
      }
      n := len;
    }
  }

  function Reversed(s: Bytes): (r: Bytes)
    ensures |r| == |s|
    ensures forall k :: 0 <= k < |s| ==> r[k] == s[|s| - 1 - k]
  {
    if s == [] then [] else Reversed(s[1..]) + [s[0]]
  }

  lemma {:induction false} ReversedSnoc(s: Bytes, b: byte)
    ensures Reversed(s + [b]) == [b] + Reversed(s)
  {
  }

  // The digits of v, none when it is used up.
  function High(v: nat, base: nat, upper: bool): Bytes
    requires Base(base)
  {
    if v == 0 then [] else Digits(v, base, upper)
  }

  lemma {:induction false} DigitsStep(all: Bytes, v: nat, base: nat, upper: bool, low: Bytes)
    requires Base(base) && v > 0 && all == High(v, base, upper) + low
    ensures all == High(v / base, base, upper) + ([DigitChar(v % base, upper)] + low)
  {
    assert High(v, base, upper) == High(v / base, base, upper) + [DigitChar(v % base, upper)];
    hide High;
    Associate(High(v / base, base, upper), [DigitChar(v % base, upper)], low);
  }

  // Digits least significant first, into a scratch array with room for them.
  method ScratchDigits(value: nat, base: nat, upper: bool, d: array<byte>) returns (n: nat)
    requires Base(base) && |Digits(value, base, upper)| <= d.Length
    modifies d
    ensures n <= d.Length && Reversed(d[..n]) == Digits(value, base, upper)
  {
    ghost var all := Digits(value, base, upper);
    var v: nat := value;
    d[0] := DigitChar(v % base, upper);
    n, v := 1, v / base;
    ghost var low := [d[0]];
    assert all == High(v, base, upper) + low;
    while v != 0
      invariant all == High(v, base, upper) + low && |all| <= d.Length
      invariant 1 <= n == |low| && low == Reversed(d[..n])
      decreases v
    {
      DigitsStep(all, v, base, upper, low);
      ghost var was := d[..n];
      d[n] := DigitChar(v % base, upper);
      assert d[..n + 1] == was + [d[n]];
      ReversedSnoc(was, d[n]);
      low := [d[n]] + low;
      n, v := n + 1, v / base;
    }
  }

  method PutScratch(s: Sink, d: array<byte>, n: nat)
    requires s.Valid() && n <= d.Length && d != s.buf
    modifies s, s.buf
    ensures s.Valid() && s.Out == old(s.Out) + Reversed(d[..n])
  {
    ghost var text := Reversed(d[..n]);
    var i := n;
    while i > 0
      invariant 0 <= i <= n && s.Valid() && Reversed(d[..n]) == text
      invariant s.Out == old(s.Out) + text[..n - i]
    {
      i := i - 1;
      assert d[i] == d[..n][i] == text[n - i - 1];
      assert text[..n - i] == text[..n - i - 1] + [text[n - i - 1]];
      s.Putc(d[i]);
    }
    assert text[..n] == text;
  }

  // Blanks, prefix and whichever run of zeros applies.
  method PutFront(s: Sink, f: Spec, pad: nat, zeros: nat, pfx: Bytes)
    requires s.Valid() && (f.hasPrec || zeros == 0)
    modifies s, s.buf
    ensures s.Valid() && s.Out == old(s.Out) + (Blanks(f, pad) + pfx + Zeros(f, pad, zeros))
  {
    if !f.left && !f.zero { s.Pad(32, pad); }
    assert s.Out == old(s.Out) + Blanks(f, pad);
    s.Puts(pfx);
    assert s.Out == old(s.Out) + (Blanks(f, pad) + pfx);
    if !f.left && f.zero && !f.hasPrec { s.Pad(48, pad); }
    s.Pad(48, zeros);
    assert s.Out == old(s.Out) + (Blanks(f, pad) + pfx) + Zeros(f, pad, zeros);
  }

  method ScratchBody(v: nat, base: nat, upper: bool, f: Spec, d: array<byte>) returns (n: nat)
    requires Base(base) && v <= MAX_U64 && d.Length == 24
    modifies d
    ensures n <= d.Length && Reversed(d[..n]) == Body(v, base, upper, f)
  {
    n := 0;
    if !(f.hasPrec && f.prec == 0 && v == 0) {
      U64Digits(v, base, upper);
      n := ScratchDigits(v, base, upper, d);
    }
  }

  // Front, digits and tail, given the paddings.
  method PutNumber(s: Sink, d: array<byte>, n: nat, f: Spec, pad: nat, zeros: nat, pfx: Bytes)
    requires s.Valid() && n <= d.Length && d != s.buf && (f.hasPrec || zeros == 0)
    modifies s, s.buf
    ensures s.Valid()
    ensures s.Out == old(s.Out) + (Blanks(f, pad) + pfx + Zeros(f, pad, zeros) + Reversed(old(d[..n])) + Tail(f, pad))
  {
    ghost var scratch := d[..n];
    PutFront(s, f, pad, zeros, pfx);
    assert d[..n] == scratch;
    PutScratch(s, d, n);
    ghost var before := s.Out;
    if f.left { s.Pad(32, pad); }
    assert s.Out == before + Tail(f, pad);
    ghost var front := Blanks(f, pad) + pfx + Zeros(f, pad, zeros);
    Associate(old(s.Out), front, Reversed(scratch));
    Associate(old(s.Out), front + Reversed(scratch), Tail(f, pad));
  }

  method FmtUint(s: Sink, v: nat, base: nat, upper: bool, f: Spec, pfx: Bytes)
    requires s.Valid() && Base(base) && v <= MAX_U64
    modifies s, s.buf
    ensures s.Valid() && s.Out == old(s.Out) + UintText(v, base, upper, f, pfx)
  {
    var d := new byte[24];
    var n := ScratchBody(v, base, upper, f, d);
    var zpad := if f.hasPrec && f.prec > n then f.prec - n else 0;
    var body := n + zpad + |pfx|;
    var wpad := if f.width > body then f.width - body else 0;
    assert n == |Body(v, base, upper, f)|;
    assert zpad == ZeroPad(v, base, upper, f) && wpad == WidthPad(v, base, upper, f, pfx);
    PutNumber(s, d, n, f, wpad, zpad, pfx);
  }

  method FmtInt(s: Sink, val: int, f: Spec, plus: bool, space: bool)
    requires s.Valid() && MIN_I64 <= val <= MAX_I64
    modifies s, s.buf
    ensures s.Valid()
    ensures s.Out == old(s.Out) + UintText(if val < 0 then -val else val, 10, false, f,
                                           if val < 0 then [45] else if plus then [43] else if space then [32] else [])
  {
    var mag := if val < 0 then -(val + 1) + 1 else val;
    var pfx := if val < 0 then [45] else if plus then [43] else if space then [32] else [];
    FmtUint(s, mag, 10, false, f, pfx);
  }

  /** The bare conversion writes the sign and the decimal digits, for every 64-bit value. */
  lemma {:induction false} PlainIntText(val: int)
    ensures UintText(if val < 0 then -val else val, 10, false, PLAIN, if val < 0 then [45] else []) == IntText(val)
  {
    assert Repeat(32, -1) == [] && Repeat(48, 0) == [];
  }

  // ---------------------------------------------------------------------------------------------
  // Parsing
  // ---------------------------------------------------------------------------------------------

  predicate IsDigit(b: byte) { 48 <= b <= 57 }

  datatype Parsed = Ok(v: int) | Syntax | Range

  function ParseUintFrom(s: Bytes, acc: nat): (r: Parsed)
    ensures r.Ok? ==> 0 <= r.v
  {
    if s == [] then Ok(acc)
    else if !IsDigit(s[0]) then Syntax
    else if acc * 10 + (s[0] - 48) > MAX_U64 then Range
    else ParseUintFrom(s[1..], acc * 10 + (s[0] - 48))
  }

  // Base ten, 64 bits; the first error met decides.
  function ParseInt(s: Bytes): Parsed {
    var neg := s != [] && s[0] == 45;
    var digits := if s != [] && (s[0] == 45 || s[0] == 43) then s[1..] else s;
    if digits == [] then Syntax
    else
      match ParseUintFrom(digits, 0)
      case Ok(u) =>
        if (!neg && u > MAX_I64) || (neg && -u < MIN_I64) then Range else Ok(if neg then -u else u)
      case e => e
  }

  // The value the caller keeps when it ignores the error.
  function IntOrDefault(s: Bytes): int {
    match ParseInt(s)
    case Ok(v) => v
    case Syntax => 0
    case Range => if s != [] && s[0] == 45 then MIN_I64 else MAX_I64
  }

  lemma {:induction false} ParseDecimalThen(v: nat, rest: Bytes)
    requires v <= MAX_U64
    ensures ParseUintFrom(Decimal(v) + rest, 0) == ParseUintFrom(rest, v)
    decreases v
  {
    var last := [DigitChar(v % 10, false)];
    assert (last + rest)[1..] == rest;
    if v >= 10 {
      ParseDecimalThen(v / 10, last + rest);
      assert Decimal(v) + rest == Decimal(v / 10) + (last + rest);
    }
  }

  lemma {:induction false} DecimalIsDigits(v: nat)
    ensures forall b :: b in Decimal(v) ==> IsDigit(b)
    decreases v
  {
    if v >= 10 { DecimalIsDigits(v / 10); }
  }

  /** Parsing the text of a 64-bit integer gives the integer back. */
  lemma {:induction false} ParseIntText(v: int)
    requires MIN_I64 <= v <= MAX_I64
    ensures ParseInt(IntText(v)) == Ok(v) && IntOrDefault(IntText(v)) == v
  {
    var mag := if v < 0 then -v else v;
    ParseDecimalThen(mag, []);
    assert Decimal(mag) + [] == Decimal(mag);
    DecimalIsDigits(mag);
    assert Decimal(mag)[0] in Decimal(mag);
    assert IntText(v)[1..] == Decimal(mag) || v >= 0;
  }

  /** Integer text is made of digits and at most a leading minus sign. */
  lemma {:induction false} IntTextBytes(v: int)
    ensures forall b :: b in IntText(v) ==> IsDigit(b) || b == 45
    ensures IntText(v) != [] && IntText(v)[0] != 43
  {
    DecimalIsDigits(if v < 0 then -v else v);
    assert IntText(v)[0] in IntText(v);
  }
}
