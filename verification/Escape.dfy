/** Escaping of app-controlled content on the wire: the framing bytes 1 to 4, the escape byte and
    the placeholder marker travel as the escape byte followed by the byte with bit 6 flipped. */
module Escape {
  import opened Bytes

  const ESC: byte := 0x05
  const MARK: byte := 0x1A

  predicate NeedsEscape(b: byte) {
    b == 0x01 || b == 0x02 || b == 0x03 || b == 0x04 || b == ESC || b == MARK
  }

  function EscapeByte(b: byte): Bytes {
    if NeedsEscape(b) then [ESC, Xor40(b)] else [b]
  }

  function Escaped(s: Bytes): Bytes {
    if s == [] then [] else EscapeByte(s[0]) + Escaped(s[1..])
  }

  function Unescaped(s: Bytes): Bytes {
    if s == [] then []
    else if s[0] == ESC && |s| > 1 then [Xor40(s[1])] + Unescaped(s[2..])
    else [s[0]] + Unescaped(s[1..])
  }

  lemma {:induction false} EscapedConcat(a: Bytes, b: Bytes)
    ensures Escaped(a + b) == Escaped(a) + Escaped(b)
  {
    if a == [] {
      assert a + b == b;
    } else {
      EscapedConcat(a[1..], b);
      assert (a + b)[1..] == a[1..] + b && (a + b)[0] == a[0];
      Associate(EscapeByte(a[0]), Escaped(a[1..]), Escaped(b));
    }
  }

  lemma {:induction false} EscapedSnoc(a: Bytes, b: byte)
    ensures Escaped(a + [b]) == Escaped(a) + EscapeByte(b)
  {
    EscapedConcat(a, [b]);
    assert Escaped([b]) == EscapeByte(b) + Escaped([]);
  }

  lemma {:induction false} UnescapePair(b: byte, rest: Bytes)
    ensures Unescaped([ESC, b] + rest) == [Xor40(b)] + Unescaped(rest)
  {
    var s := [ESC, b] + rest;
    assert s[2..] == rest;
  }

  lemma {:induction false} UnescapePlain(b: byte, rest: Bytes)
    requires b != ESC
    ensures Unescaped([b] + rest) == [b] + Unescaped(rest)
  {
    var s := [b] + rest;
    assert s[1..] == rest;
  }

  /** Unescaping undoes escaping for every byte string, and leaves what follows to be read on. */
  lemma {:induction false} UnescapeAfterEscape(s: Bytes, rest: Bytes)
    ensures Unescaped(Escaped(s) + rest) == s + Unescaped(rest)
  {
    if s == [] {
      assert Escaped(s) + rest == rest;
    } else {
      var tail := Escaped(s[1..]) + rest;
      UnescapeAfterEscape(s[1..], rest);
      Associate(EscapeByte(s[0]), Escaped(s[1..]), rest);
      assert s == [s[0]] + s[1..];
      Associate([s[0]], s[1..], Unescaped(rest));
      if NeedsEscape(s[0]) {
        UnescapePair(Xor40(s[0]), tail);
        assert Xor40(Xor40(s[0])) == s[0];
      } else {
        UnescapePlain(s[0], tail);
      }
    }
  }

  lemma {:induction false} EscapeRoundTrip(s: Bytes)
    ensures Unescaped(Escaped(s)) == s
  {
    UnescapeAfterEscape(s, []);
    assert Escaped(s) + [] == Escaped(s);
  }

  /** An escape byte behind well-escaped content turns the byte after it back, whatever that is; one at the very
      end is kept. */
  lemma {:induction false} StrayEscape(s: Bytes, b: byte, rest: Bytes)
    ensures Unescaped(Escaped(s) + [5, b] + rest) == s + [Xor40(b)] + Unescaped(rest)
    ensures Unescaped(Escaped(s) + [5]) == s + [5]
  {
    UnescapeAfterEscape(s, [5, b] + rest);
    UnescapePair(b, rest);
    Associate(Escaped(s), [5, b], rest);
    Associate(s, [Xor40(b)], Unescaped(rest));
    UnescapeAfterEscape(s, [5]);
    assert Unescaped([5]) == [5] + Unescaped([]);
  }

  /** The escaped form of a byte differs from it in bit 6 only. */
  lemma {:induction false} OneBitFlipped(b: byte)
    ensures Xor40(b) % 64 == b % 64 && Xor40(b) / 128 == b / 128 && Xor40(b) / 64 % 2 == 1 - b / 64 % 2
  {
  }

  /** Escaped content holds no framing byte and no marker, so it can never break a frame apart. */
  lemma {:induction false} EscapedIsClean(s: Bytes)
    ensures forall b :: b in Escaped(s) ==> b == ESC || !NeedsEscape(b)
    ensures forall b :: b in Escaped(s) ==> b !in {1, 2, 3, 4, 0x1A}
  {
    if s != [] { EscapedIsClean(s[1..]); }
  }

  // How many bytes of s are framing bytes, the escape byte or the marker.
  function Special(s: Bytes): nat {
    if s == [] then 0 else (if IsSpecial(s[0]) then 1 else 0) + Special(s[1..])
  }

  predicate IsSpecial(b: byte) { b in {1, 2, 3, 4, 5, 0x1A} }

  lemma {:induction false} NoneSpecial(s: Bytes)
    ensures Special(s) == 0 <==> forall k :: 0 <= k < |s| ==> !IsSpecial(s[k])
  {
    if s != [] {
      NoneSpecial(s[1..]);
      assert IsSpecial(s[0]) || forall k :: 0 < k < |s| ==> s[1..][k - 1] == s[k];
      if Special(s) == 0 {
        forall k | 0 <= k < |s| ensures !IsSpecial(s[k]) { if k > 0 { assert !IsSpecial(s[1..][k - 1]); } }
      } else if !IsSpecial(s[0]) {
        var k :| 0 <= k < |s[1..]| && IsSpecial(s[1..][k]);
        assert IsSpecial(s[k + 1]);
      }
    }
  }

  lemma {:induction false} EscapedLength(s: Bytes)
    ensures |Escaped(s)| == |s| + Special(s)
  {
    if s != [] { EscapedLength(s[1..]); }
  }

  /** Ordinary content travels as it is: each framing byte, escape byte or marker costs one byte more, and a
      string is left alone exactly when it holds none of them. */
  lemma {:induction false} OrdinaryIsKept(s: Bytes)
    ensures |Escaped(s)| == |s| + Special(s)
    ensures Escaped(s) == s <==> forall k :: 0 <= k < |s| ==> !IsSpecial(s[k])
  {
    EscapedLength(s);
    NoneSpecial(s);
    if Special(s) == 0 { EscapedIdentity(s); }
  }

  lemma {:induction false} EscapedIdentity(s: Bytes)
    requires forall b :: b in s ==> !NeedsEscape(b)
    ensures Escaped(s) == s
  {
    if s != [] { EscapedIdentity(s[1..]); }
  }

  lemma {:induction false} UnescapedIdentity(s: Bytes)
    requires ESC !in s
    ensures Unescaped(s) == s
  {
    if s != [] { UnescapedIdentity(s[1..]); }
  }

  // ---------------------------------------------------------------------------------------------
  // The consumer's loops
  // ---------------------------------------------------------------------------------------------

  method EscapeWireContent(s: Bytes) returns (r: Bytes)
    ensures r == Escaped(s)
  {
    var needs := false;
    for i := 0 to |s|
      invariant needs <==> exists k :: 0 <= k < i && NeedsEscape(s[k])
    {
      if NeedsEscape(s[i]) { needs := true; break; }
    }
    if !needs {
      EscapedIdentity(s);
      return s;
    }
    r := [];
    for i := 0 to |s|
      invariant r == Escaped(s[..i])
    {
      assert s[..i + 1] == s[..i] + [s[i]];
      EscapedSnoc(s[..i], s[i]);
      if NeedsEscape(s[i]) {
        r := r + [ESC, Xor40(s[i])];
      } else {
        r := r + [s[i]];
      }
    }
    assert s[..|s|] == s;
  }

  method UnescapeWireContent(s: Bytes) returns (r: Bytes)
    ensures r == Unescaped(s)
  {
    hide Unescaped, Xor40;
    if IndexOf(s, ESC) < 0 {
      UnescapedIdentity(s);
      return s;
    }
    r := [];
    var i := 0;
    assert s[0..] == s && r + Unescaped(s) == Unescaped(s);
    while i < |s|
      invariant 0 <= i <= |s|
      invariant r + Unescaped(s[i..]) == Unescaped(s)
    {
      UnescapeStep(r, s, i);
      if s[i] == ESC && i + 1 < |s| {
        r := r + [Xor40(s[i + 1])];
        i := i + 1;
      } else {
        r := r + [s[i]];
      }
      i := i + 1;
    }
    UnescapedNothing(r, s[i..]);
  }

  lemma {:induction false} UnescapedNothing(r: Bytes, rest: Bytes)
    requires rest == []
    ensures r + Unescaped(rest) == r
  {
  }

  lemma {:induction false} UnescapeStep(r: Bytes, s: Bytes, i: nat)
    requires i < |s|
    ensures r + Unescaped(s[i..]) ==
              if s[i] == ESC && i + 1 < |s| then r + [Xor40(s[i + 1])] + Unescaped(s[i + 2..])
              else r + [s[i]] + Unescaped(s[i + 1..])
  {
    if s[i] == ESC && i + 1 < |s| {
      assert s[i..][2..] == s[i + 2..];
      Associate(r, [Xor40(s[i + 1])], Unescaped(s[i + 2..]));
    } else {
      assert s[i..][1..] == s[i + 1..];
      Associate(r, [s[i]], Unescaped(s[i + 1..]));
    }
  }

  // ---------------------------------------------------------------------------------------------
  // The encoder's growable buffer
  // ---------------------------------------------------------------------------------------------

  /** A heap buffer that doubles on demand and always keeps room for a terminating zero. Growing
      past grant stands for a failed reallocation, after which the buffer is gone. */
  class GrowBuffer {
    var text: Bytes
    var cap: nat
    var gone: bool
    const grant: nat

    predicate Valid()
      reads this
    {
      !gone ==> |text| + 1 <= cap
    }

    constructor (cap: nat, grant: nat)
      requires cap > 0
      ensures Valid() && !gone && text == [] && this.cap == cap && this.grant == grant
    {
      this.grant := grant;
      this.cap := cap;
      text := [];
      gone := false;
    }

    method Append(src: Bytes)
      requires Valid()
      modifies this
      ensures Valid() && (old(gone) ==> gone)
      ensures text == if gone then old(text) else old(text) + src
      ensures gone && !old(gone) ==> grant < 256 || grant < 2 * (|text| + |src| + 1)
    {
      if gone { return; }
      while |text| + |src| + 1 > cap
        invariant Valid() && !gone && text == old(text)
        decreases |text| + |src| + 1 - cap
      {
        var newCap := if cap < 128 then 256 else cap * 2;
        if newCap > grant {
          gone := true;
          return;
        }
        cap := newCap;
      }
      text := text + src;
    }

    // Unescaped stretches are copied in one piece; each special byte is written as a pair.
    method AppendEscaped(src: Bytes)
      requires Valid()
      modifies this
      ensures Valid() && (old(gone) ==> gone)
      ensures !gone ==> text == old(text) + Escaped(src)
    {
      hide Escaped, Xor40, NeedsEscape;
      if gone { return; }
      var run := 0;
      ghost var start := 0;
      EscapedNone(old(text), src[..0]);
      for i := 0 to |src|
        invariant Valid() && !gone
        invariant 0 <= start == i - run <= i
        invariant PlainRun(src, start, i)
        invariant text == old(text) + Escaped(src[..start])
      {
        if NeedsEscape(src[i]) {
          EscapedRunThenByte(old(text), src, start, i);
          if run > 0 {
            Append(src[i - run..i]);
            run := 0;
            if gone { return; }
          }
          Append([ESC, Xor40(src[i])]);
          if gone { return; }
          start := i + 1;
        } else {
          run := run + 1;
        }
      }
      EscapedTail(old(text), src, start);
      if run > 0 {
        Append(src[|src| - run..]);
      }
    }
  }

  ghost predicate PlainRun(s: Bytes, from: nat, to: nat)
    requires from <= to <= |s|
  {
    forall k :: from <= k < to ==> !NeedsEscape(s[k])
  }

  lemma {:induction false} EscapedNone(before: Bytes, s: Bytes)
    requires s == []
    ensures before + Escaped(s) == before
  {
  }

  lemma {:induction false} EscapedTail(before: Bytes, s: Bytes, from: nat)
    requires from <= |s| && PlainRun(s, from, |s|)
    ensures before + Escaped(s) == before + Escaped(s[..from]) + s[from..]
    ensures from == |s| ==> before + Escaped(s) == before + Escaped(s[..from])
  {
    EscapedRun(s, from, |s|);
    assert s[..|s|] == s && s[from..|s|] == s[from..];
  }

  lemma {:induction false} EscapedRunThenByte(before: Bytes, s: Bytes, from: nat, at: nat)
    requires from <= at < |s| && PlainRun(s, from, at) && NeedsEscape(s[at])
    ensures before + Escaped(s[..from]) + s[from..at] + [ESC, Xor40(s[at])] == before + Escaped(s[..at + 1])
    ensures from == at ==> before + Escaped(s[..from]) + [ESC, Xor40(s[at])] == before + Escaped(s[..at + 1])
  {
    EscapedRun(s, from, at);
    EscapedSnoc(s[..at], s[at]);
    assert s[..at + 1] == s[..at] + [s[at]];
    assert EscapeByte(s[at]) == [ESC, Xor40(s[at])];
  }

  lemma {:induction false} EscapedRun(s: Bytes, from: nat, to: nat)
    requires from <= to <= |s|
    requires PlainRun(s, from, to)
    ensures Escaped(s[..to]) == Escaped(s[..from]) + s[from..to]
  {
    EscapedConcat(s[..from], s[from..to]);
    assert s[..to] == s[..from] + s[from..to];
    EscapedIdentity(s[from..to]);
  }
}
