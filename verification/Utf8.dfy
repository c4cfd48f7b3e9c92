/** Well-formed UTF-8 byte strings, section 4 of RFC 3629. */
module Utf8 {
  import opened Bytes

  // 10xxxxxx
  predicate Cont(b: byte) { 0x80 <= b <= 0xBF }

  // The length of the well-formed character at the head of s, or 0.
  function CharLen(s: Bytes): (n: nat)
    ensures n <= |s| && n <= 4
    ensures forall k :: 1 <= k < n ==> Cont(s[k])
    ensures n > 0 ==> !Cont(s[0])
    ensures n > 1 ==> s[0] >= 0x80
  {
    if |s| >= 1 && s[0] < 0x80 then 1
    else if |s| >= 2 && 0xC2 <= s[0] <= 0xDF && Cont(s[1]) then 2
    else if |s| >= 3 && s[0] == 0xE0 && 0xA0 <= s[1] <= 0xBF && Cont(s[2]) then 3
    else if |s| >= 3 && (0xE1 <= s[0] <= 0xEC || 0xEE <= s[0] <= 0xEF) && Cont(s[1]) && Cont(s[2]) then 3
    else if |s| >= 3 && s[0] == 0xED && 0x80 <= s[1] <= 0x9F && Cont(s[2]) then 3
    else if |s| >= 4 && s[0] == 0xF0 && 0x90 <= s[1] <= 0xBF && Cont(s[2]) && Cont(s[3]) then 4
    else if |s| >= 4 && 0xF1 <= s[0] <= 0xF3 && Cont(s[1]) && Cont(s[2]) && Cont(s[3]) then 4
    else if |s| >= 4 && s[0] == 0xF4 && 0x80 <= s[1] <= 0x8F && Cont(s[2]) && Cont(s[3]) then 4
    else 0
  }

  predicate WellFormed(s: Bytes) {
    s == [] || (CharLen(s) > 0 && WellFormed(s[CharLen(s)..]))
  }

  // ---------------------------------------------------------------------------------------------
  // The characters meant
  // ---------------------------------------------------------------------------------------------

  // A Unicode scalar value: no surrogate, and not beyond the last plane.
  predicate Scalar(c: nat) { c < 0xD800 || 0xE000 <= c <= 0x10_FFFF }

  function Encoding(c: nat): Bytes
    requires Scalar(c)
  {
    if c < 0x80 then [c]
    else if c < 0x800 then [0xC0 + c / 0x40, 0x80 + c % 0x40]
    else if c < 0x1_0000 then [0xE0 + c / 0x1000, 0x80 + c / 0x40 % 0x40, 0x80 + c % 0x40]
    else [0xF0 + c / 0x4_0000, 0x80 + c / 0x1000 % 0x40, 0x80 + c / 0x40 % 0x40, 0x80 + c % 0x40]
  }

  predicate AllScalar(cs: seq<nat>) { forall i :: 0 <= i < |cs| ==> Scalar(cs[i]) }

  function EncodingOf(cs: seq<nat>): Bytes
    requires AllScalar(cs)
  {
    if cs == [] then [] else Encoding(cs[0]) + EncodingOf(cs[1..])
  }

  lemma {:induction false} TwoRead(x: nat, y: nat, rest: Bytes)
    requires 2 <= x < 0x20 && y < 0x40
    ensures CharLen([0xC0 + x, 0x80 + y] + rest) == 2
  {
  }

  lemma {:induction false} ThreeRead(x: nat, y: nat, z: nat, rest: Bytes)
    requires x < 0x10 && y < 0x40 && z < 0x40
    requires (x == 0 ==> y >= 0x20) && (x == 0xD ==> y < 0x20)
    ensures CharLen([0xE0 + x, 0x80 + y, 0x80 + z] + rest) == 3
  {
  }

  lemma {:induction false} FourRead(x: nat, y: nat, z: nat, u: nat, rest: Bytes)
    requires x < 5 && y < 0x40 && z < 0x40 && u < 0x40
    requires (x == 0 ==> y >= 0x10) && (x == 4 ==> y < 0x10)
    ensures CharLen([0xF0 + x, 0x80 + y, 0x80 + z, 0x80 + u] + rest) == 4
  {
  }

  lemma {:induction false} ThreeParts(c: nat)
    requires 0x800 <= c < 0x1_0000 && Scalar(c)
    ensures var x, y := c / 0x1000, c / 0x40 % 0x40;
            x < 0x10 && (x == 0 ==> y >= 0x20) && (x == 0xD ==> y < 0x20)
  {
    assert c / 0x40 == c / 0x1000 * 0x40 + c / 0x40 % 0x40;
  }

  lemma {:induction false} FourParts(c: nat)
    requires 0x1_0000 <= c <= 0x10_FFFF
    ensures var x, y := c / 0x4_0000, c / 0x1000 % 0x40;
            x < 5 && (x == 0 ==> y >= 0x10) && (x == 4 ==> y < 0x10)
  {
    assert c / 0x1000 == c / 0x4_0000 * 0x40 + c / 0x1000 % 0x40;
  }

  lemma {:induction false} EncodingIsRead(c: nat, rest: Bytes)
    requires Scalar(c)
    ensures CharLen(Encoding(c) + rest) == |Encoding(c)|
  {
    if c < 0x80 {
    } else if c < 0x800 {
      hide CharLen;
      TwoRead(c / 0x40, c % 0x40, rest);
    } else if c < 0x1_0000 {
      hide CharLen;
      ThreeParts(c);
      ThreeRead(c / 0x1000, c / 0x40 % 0x40, c % 0x40, rest);
    } else {
      hide CharLen;
      FourParts(c);
      FourRead(c / 0x4_0000, c / 0x1000 % 0x40, c / 0x40 % 0x40, c % 0x40, rest);
    }
  }

  lemma {:induction false} TwoBytes(x: nat, y: nat)
    requires 2 <= x < 0x20 && y < 0x40
    ensures var c := x * 0x40 + y; Scalar(c) && Encoding(c) == [0xC0 + x, 0x80 + y]
  {
    assert (x * 0x40 + y) / 0x40 == x && (x * 0x40 + y) % 0x40 == y;
  }

  lemma {:induction false} ThreeBytes(x: nat, y: nat, z: nat)
    requires x < 0x10 && y < 0x40 && z < 0x40
    requires (x == 0 ==> y >= 0x20) && (x == 0xD ==> y < 0x20)
    ensures var c := x * 0x1000 + y * 0x40 + z; Scalar(c) && Encoding(c) == [0xE0 + x, 0x80 + y, 0x80 + z]
  {
    var c := x * 0x1000 + y * 0x40 + z;
    assert c / 0x1000 == x && c / 0x40 == x * 0x40 + y && c % 0x40 == z;
    assert (x * 0x40 + y) % 0x40 == y;
  }

  lemma {:induction false} FourBytes(x: nat, y: nat, z: nat, u: nat)
    requires x < 5 && y < 0x40 && z < 0x40 && u < 0x40
    requires (x == 0 ==> y >= 0x10) && (x == 4 ==> y < 0x10)
    ensures var c := x * 0x4_0000 + y * 0x1000 + z * 0x40 + u;
            Scalar(c) && Encoding(c) == [0xF0 + x, 0x80 + y, 0x80 + z, 0x80 + u]
  {
    var c := x * 0x4_0000 + y * 0x1000 + z * 0x40 + u;
    assert c / 0x4_0000 == x && c / 0x1000 == x * 0x40 + y && c % 0x40 == u;
    assert c / 0x40 == (x * 0x40 + y) * 0x40 + z;
    assert (x * 0x40 + y) % 0x40 == y && ((x * 0x40 + y) * 0x40 + z) % 0x40 == z;
  }

  // The character at the head of s.
  lemma {:induction false} HeadCharacter(s: Bytes) returns (c: nat)
    requires CharLen(s) > 0
    ensures Scalar(c) && s[..CharLen(s)] == Encoding(c)
  {
    var n := CharLen(s);
    hide Encoding, Scalar;
    if n == 1 {
      c := s[0];
      OneByte(s[0]);
    } else if n == 2 {
      c := (s[0] as int - 0xC0) * 0x40 + (s[1] as int - 0x80);
      TwoBytes(s[0] as int - 0xC0, s[1] as int - 0x80);
    } else if n == 3 {
      c := (s[0] as int - 0xE0) * 0x1000 + (s[1] as int - 0x80) * 0x40 + (s[2] as int - 0x80);
      ThreeBytes(s[0] as int - 0xE0, s[1] as int - 0x80, s[2] as int - 0x80);
    } else {
      c := (s[0] as int - 0xF0) * 0x4_0000 + (s[1] as int - 0x80) * 0x1000 + (s[2] as int - 0x80) * 0x40
           + (s[3] as int - 0x80);
      FourBytes(s[0] as int - 0xF0, s[1] as int - 0x80, s[2] as int - 0x80, s[3] as int - 0x80);
    }
  }

  lemma {:induction false} OneByte(b: byte)
    requires b < 0x80
    ensures Scalar(b) && Encoding(b) == [b]
  {
  }

  /** A byte string is well formed if and only if it is the encoding of a sequence of Unicode scalar values. */
  lemma {:induction false} WellFormedEncodes(cs: seq<nat>)
    requires AllScalar(cs)
    ensures WellFormed(EncodingOf(cs))
  {
    hide Encoding, CharLen;
    if cs != [] {
      var rest := EncodingOf(cs[1..]);
      WellFormedEncodes(cs[1..]);
      EncodingIsRead(cs[0], rest);
      SomeBytes(cs[0]);
      assert (Encoding(cs[0]) + rest)[|Encoding(cs[0])|..] == rest;
    }
  }

  lemma {:induction false} SomeBytes(c: nat)
    requires Scalar(c)
    ensures 1 <= |Encoding(c)| <= 4
  {
  }

  lemma {:induction false} WellFormedDecodes(s: Bytes) returns (cs: seq<nat>)
    requires WellFormed(s)
    ensures AllScalar(cs) && EncodingOf(cs) == s
  {
    hide Encoding, CharLen;
    cs := [];
    if s != [] {
      var n := CharLen(s);
      var c := HeadCharacter(s);
      var rest := WellFormedDecodes(s[n..]);
      cs := [c] + rest;
      assert cs[1..] == rest && s == s[..n] + s[n..];
    }
  }

  // ---------------------------------------------------------------------------------------------
  // Cutting
  // ---------------------------------------------------------------------------------------------

  lemma {:induction false} CharLenPrefix(s: Bytes, k: nat)
    requires CharLen(s) <= k <= |s|
    requires CharLen(s) > 0
    ensures CharLen(s[..k]) == CharLen(s)
  {
  }

  /** Cutting a well-formed string before a byte that starts a character leaves it well formed. */
  lemma {:induction false} PrefixWellFormed(s: Bytes, k: nat)
    requires WellFormed(s) && k <= |s|
    requires k == 0 || k == |s| || !Cont(s[k])
    ensures WellFormed(s[..k])
  {
    if k > 0 {
      var n := CharLen(s);
      assert n <= k;
      CharLenPrefix(s, k);
      assert s[..k][n..] == s[n..][..k - n];
      PrefixWellFormed(s[n..], k - n);
    }
  }

  /** A continuation byte belongs to the character whose lead byte lies at most three bytes back. */
  lemma {:induction false} LeadIsNear(s: Bytes, i: nat) returns (lead: nat)
    requires WellFormed(s) && i < |s|
    ensures lead <= i <= lead + 3 && !Cont(s[lead])
    ensures lead < i ==> s[lead] >= 0x80
    ensures forall k :: lead < k <= i ==> Cont(s[k])
  {
    var n := CharLen(s);
    if i < n {
      lead := 0;
    } else {
      var l := LeadIsNear(s[n..], i - n);
      lead := l + n;
      forall k | lead < k <= i
        ensures Cont(s[k])
      {
        assert s[k] == s[n..][k - n];
      }
    }
  }
}
