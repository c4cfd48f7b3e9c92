/** Cutting a wire field to its size limit without splitting a character, an escape pair or a
    placeholder. */
module Truncate {
  import opened Bytes
  import opened Escape
  import opened Utf8

  predicate Lead(b: byte) { b == ESC || b == MARK }

  // Back off over continuation bytes at the cut.
  function RetreatCont(s: Bytes, n: nat): (r: nat)
    requires n < |s|
    ensures r <= n
    ensures r == 0 || !Cont(s[r])
    ensures forall k :: r < k <= n ==> Cont(s[k])
  {
    if n > 0 && Cont(s[n]) then RetreatCont(s, n - 1) else n
  }

  // Back off over lead bytes just before the cut.
  function RetreatLead(s: Bytes, n: nat): (r: nat)
    requires n <= |s|
    ensures r <= n
    ensures r == 0 || !Lead(s[r - 1])
    ensures forall k :: r <= k < n ==> Lead(s[k])
  {
    if n > 0 && Lead(s[n - 1]) then RetreatLead(s, n - 1) else n
  }

  function TruncLen(s: Bytes, n: nat): (r: nat)
    requires n < |s|
    ensures r <= n
  {
    RetreatLead(s, RetreatCont(s, n))
  }

  method SafeTruncLen(s: Bytes, max: nat) returns (len: nat)
    requires max < |s|
    ensures len == TruncLen(s, max)
  {
    len := max;
    while len > 0 && Cont(s[len])
      invariant len <= max && RetreatCont(s, len) == RetreatCont(s, max)
    {
      len := len - 1;
    }
    while len > 0 && (s[len - 1] == 0x1A || s[len - 1] == 0x05)
      invariant len <= max && RetreatLead(s, len) == TruncLen(s, max)
    {
      len := len - 1;
    }
  }

  // A field as it travels: whole when it fits, else cut.
  function Cut(s: Bytes, max: nat): (r: Bytes)
    ensures |r| <= max && r <= s
    ensures |s| <= max ==> r == s
  {
    if |s| > max then s[..TruncLen(s, max)] else s
  }

  // ---------------------------------------------------------------------------------------------
  // Wire text as tokens
  // ---------------------------------------------------------------------------------------------

  // A single byte that is no lead, or a lead byte and its companion.
  datatype Token = Plain(b: byte) | Pair(lead: byte, companion: byte)

  predicate IsToken(t: Token) {
    match t
    case Plain(b) => !Lead(b)
    case Pair(lead, companion) => Lead(lead)
  }

  ghost predicate IsTokens(ts: seq<Token>) {
    forall k :: 0 <= k < |ts| ==> IsToken(ts[k])
  }

  function TokenText(t: Token): (s: Bytes)
    ensures 1 <= |s| <= 2
  {
    match t
    case Plain(b) => [b]
    case Pair(lead, companion) => [lead, companion]
  }

  function Text(ts: seq<Token>): Bytes {
    if ts == [] then [] else TokenText(ts[0]) + Text(ts[1..])
  }

  lemma {:induction false} TextCons(ts: seq<Token>)
    requires ts != []
    ensures Text(ts) == TokenText(ts[0]) + Text(ts[1..])
  {
  }

  lemma {:induction false} TextConcat(a: seq<Token>, b: seq<Token>)
    ensures Text(a + b) == Text(a) + Text(b)
  {
    if a == [] {
      assert a + b == b;
    } else {
      TextConcat(a[1..], b);
      TextCons(a);
      TextCons(a + b);
      hide Text, TokenText;
      assert (a + b)[1..] == a[1..] + b;
      Associate(TokenText(a[0]), Text(a[1..]), Text(b));
    }
  }

  /** Any prefix of wire text that does not end in a lead byte ends between two tokens. */
  lemma {:induction false} NoLeadMeansBoundary(ts: seq<Token>, n: nat) returns (k: nat)
    requires IsTokens(ts) && n <= |Text(ts)|
    requires n == 0 || !Lead(Text(ts)[n - 1])
    ensures k <= |ts| && Text(ts)[..n] == Text(ts[..k])
  {
    if n == 0 {
      k := 0;
    } else {
      var t := TokenText(ts[0]);
      var rest := Text(ts[1..]);
      assert Text(ts) == t + rest;
      assert Text(ts)[0] == t[0];
      var m := n - |t|;
      assert m == 0 || rest[m - 1] == Text(ts)[n - 1];
      var j := NoLeadMeansBoundary(ts[1..], m);
      k := j + 1;
      assert ts[..k][1..] == ts[1..][..j];
      assert Text(ts)[..n] == t + rest[..m];
    }
  }

  /** Cutting never splits a token: the cut text is the text of some of the leading tokens. It need
      not be the longest such text that fits, because a companion byte may look like a lead. */
  lemma {:induction false} CutIsTokenPrefix(ts: seq<Token>, max: nat) returns (k: nat)
    requires IsTokens(ts)
    ensures k <= |ts| && Cut(Text(ts), max) == Text(ts[..k])
    ensures |Text(ts)| <= max ==> k == |ts|
  {
    if |Text(ts)| > max {
      k := NoLeadMeansBoundary(ts, TruncLen(Text(ts), max));
    } else {
      k := |ts|;
      assert ts[..k] == ts;
    }
  }

  /** A complete placeholder that just fits the limit is kept if and only if its slot byte does not look
      like a lead byte: of the eight slots, all but slot 4. */
  lemma {:induction false} PlaceholderKept(pre: Bytes, slot: nat, rest: Bytes)
    requires slot < 255 && rest != [] && !Cont(rest[0])
    ensures Cut(pre + [MARK, slot + 1] + rest, |pre| + 2) == pre + [MARK, slot + 1] <==> !Lead(slot + 1)
    ensures Lead(slot + 1) ==> Cut(pre + [MARK, slot + 1] + rest, |pre| + 2) <= pre
    ensures slot < 8 ==> (Lead(slot + 1) <==> slot == 4)
  {
    var s, n := pre + [MARK, slot + 1] + rest, |pre| + 2;
    assert s[n] == rest[0] && s[n - 1] == slot + 1 && s[n - 2] == MARK;
    assert RetreatCont(s, n) == n;
    assert s[..n] == pre + [MARK, slot + 1];
    if Lead(slot + 1) {
      assert RetreatLead(s, n) == RetreatLead(s, n - 1) == RetreatLead(s, n - 2);
      var r := RetreatLead(s, n - 2);
      assert s[..r] == pre[..r];
    }
  }

  // ---------------------------------------------------------------------------------------------
  // Escaped content under a cut
  // ---------------------------------------------------------------------------------------------

  function EscapeToken(b: byte): (t: Token)
    ensures IsToken(t) && TokenText(t) == EscapeByte(b)
  {
    if NeedsEscape(b) then Pair(ESC, Xor40(b)) else Plain(b)
  }

  function EscapeTokens(s: Bytes): (ts: seq<Token>)
    ensures |ts| == |s|
    ensures forall k :: 0 <= k < |s| ==> ts[k] == EscapeToken(s[k])
  {
    seq(|s|, k requires 0 <= k < |s| => EscapeToken(s[k]))
  }

  lemma {:induction false} EscapeTokensText(s: Bytes)
    ensures Text(EscapeTokens(s)) == Escaped(s)
  {
    if s != [] {
      EscapeTokensText(s[1..]);
      assert EscapeTokens(s)[1..] == EscapeTokens(s[1..]);
    }
  }

  lemma {:induction false} EscapedPrefix(s: Bytes, k: nat)
    requires k <= |s|
    ensures Escaped(s) == Escaped(s[..k]) + Escaped(s[k..])
  {
    hide Escaped;
    EscapedConcat(s[..k], s[k..]);
    assert s[..k] + s[k..] == s;
  }

  /** Cutting escaped content leaves the escaped form of a prefix of that content. */
  lemma {:induction false} CutEscaped(s: Bytes, max: nat) returns (k: nat)
    ensures k <= |s| && Cut(Escaped(s), max) == Escaped(s[..k])
    ensures |Escaped(s)| <= max ==> k == |s|
  {
    EscapeTokensText(s);
    k := CutIsTokenPrefix(EscapeTokens(s), max);
    EscapeTokensText(s[..k]);
    assert EscapeTokens(s)[..k] == EscapeTokens(s[..k]);
  }

  /** Decoding cut content gives a prefix of the content, for every content and every limit. */
  lemma {:induction false} DecodedCutIsPrefix(s: Bytes, max: nat)
    ensures Unescaped(Cut(Escaped(s), max)) <= s
  {
    var k := CutEscaped(s, max);
    EscapeRoundTrip(s[..k]);
  }

  lemma {:induction false} EscapedNonEmpty(s: Bytes)
    ensures s != [] <==> Escaped(s) != []
  {
  }

  lemma {:induction false} EscapedAt(s: Bytes, j: nat)
    requires j < |s|
    ensures |Escaped(s[..j])| < |Escaped(s)|
    ensures Escaped(s)[|Escaped(s[..j])|] == EscapeByte(s[j])[0]
    ensures |Escaped(s[..j + 1])| == |Escaped(s[..j])| + |EscapeByte(s[j])|
  {
    EscapedPrefix(s, j);
    assert Escaped(s[j..]) == EscapeByte(s[j]) + Escaped(s[j + 1..]) by {
      assert s[j..][1..] == s[j + 1..];
    }
    EscapedSnoc(s[..j], s[j]);
    assert s[..j + 1] == s[..j] + [s[j]];
  }

  /** When the content is well-formed UTF-8, so is what survives the cut. */
  lemma {:induction false} DecodedCutIsWellFormed(s: Bytes, max: nat)
    requires WellFormed(s)
    ensures WellFormed(Unescaped(Cut(Escaped(s), max)))
  {
    hide Escaped, Unescaped, Cut, WellFormed, TruncLen;
    var e := Escaped(s);
    var k := CutEscaped(s, max);
    EscapeRoundTrip(s[..k]);
    if |e| > max {
      CutIs(e, max);
      CutStart(e, max);
      if k < |s| {
        EscapedAt(s, k);
        if TruncLen(e, max) == 0 { EscapedNonEmpty(s[..k]); }
      }
      PrefixWellFormed(s, k);
    } else {
      assert s[..k] == s;
    }
  }

  lemma {:induction false} CutIs(e: Bytes, max: nat)
    requires |e| > max
    ensures |Cut(e, max)| == TruncLen(e, max)
  {
  }

  // What follows the cut does not continue a character.
  lemma {:induction false} CutStart(e: Bytes, max: nat)
    requires max < |e|
    ensures var r := TruncLen(e, max); r == 0 || !Cont(e[r])
  {
    var r := TruncLen(e, max);
    if r < RetreatCont(e, max) { assert Lead(e[r]); }
  }

  lemma {:induction false} NoAdjacentLeads(s: Bytes)
    ensures Escaped(s) != [] ==> !Lead(Escaped(s)[|Escaped(s)| - 1])
    ensures forall k :: 0 < k < |Escaped(s)| && Lead(Escaped(s)[k]) ==> !Lead(Escaped(s)[k - 1])
  {
    if s != [] {
      NoAdjacentLeads(s[1..]);
    }
  }

  // A byte from 0x80 up is always a token of its own.
  lemma {:induction false} HighByteIsContent(s: Bytes, i: nat) returns (j: nat)
    requires i < |Escaped(s)| && Escaped(s)[i] >= 0x80
    ensures j < |s| && s[j] == Escaped(s)[i] && i == |Escaped(s[..j])|
  {
    var n := |EscapeByte(s[0])|;
    if i < n {
      j := 0;
    } else {
      var m := HighByteIsContent(s[1..], i - n);
      j := m + 1;
      assert s[..j][1..] == s[1..][..m];
    }
  }

  // A stretch of such bytes is copied unchanged.
  lemma {:induction false} HighRunKept(s: Bytes, l: nat, m: nat)
    requires l <= m < |s| && forall k :: l <= k <= m ==> s[k] >= 0x80
    ensures var at := |Escaped(s[..l])| + (m - l);
            |Escaped(s[..m])| == at && at < |Escaped(s)| && Escaped(s)[at] == s[m]
  {
    hide Escaped;
    EscapedIdentity(s[l..m]);
    SliceOfPrefix(s, l, m);
    EscapedPrefix(s[..m], l);
    EscapedAt(s, m);
    assert EscapeByte(s[m]) == [s[m]];
  }

  lemma {:induction false} SliceOfPrefix(s: Bytes, l: nat, m: nat)
    requires l <= m <= |s|
    ensures s[..m][..l] == s[..l] && s[..m][l..] == s[l..m]
  {
  }

  // Backing off from inside a character stops right at its lead byte.
  lemma {:induction false} RetreatToLead(s: Bytes, max: nat) returns (l: nat)
    requires WellFormed(s) && max < |Escaped(s)| && Cont(Escaped(s)[max])
    ensures l < |s| && RetreatCont(Escaped(s), max) == |Escaped(s[..l])| && |Escaped(s[..l])| + 3 >= max
  {
    hide Escaped, WellFormed;
    var e := Escaped(s);
    var j := HighByteIsContent(s, max);
    l := LeadIsNear(s, j);
    HighRunKept(s, l, l);
    HighRunKept(s, l, j);
    var at := |Escaped(s[..l])|;
    forall k | at < k <= max
      ensures Cont(e[k])
    {
      HighRunKept(s, l, l + (k - at));
    }
  }

  lemma {:induction false} LastByteOfPrefix(s: Bytes, l: nat)
    requires l <= |s|
    ensures var at := |Escaped(s[..l])|;
            at <= |Escaped(s)| && RetreatLead(Escaped(s), at) == at
  {
    NoAdjacentLeads(s[..l]);
    EscapedPrefix(s, l);
    var at := |Escaped(s[..l])|;
    assert at > 0 ==> Escaped(s)[at - 1] == Escaped(s[..l])[at - 1];
  }

  /** On well-formed UTF-8 the cut gives up at most three of the bytes the limit allows. */
  lemma {:induction false} CutLosesAtMostThree(s: Bytes, max: nat)
    requires WellFormed(s) && |Escaped(s)| > max
    ensures |Cut(Escaped(s), max)| + 3 >= max
  {
    var e := Escaped(s);
    if Cont(e[max]) {
      var l := RetreatToLead(s, max);
      LastByteOfPrefix(s, l);
    } else {
      NoAdjacentLeads(s);
      assert max > 0 && Lead(e[max - 1]) ==> RetreatLead(e, max) == RetreatLead(e, max - 1) == max - 1;
    }
  }
}
