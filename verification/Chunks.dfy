/** Deferred rendering: the chunk the consumer renders for an object, reading a chunk back, and
    putting chunks in the place of their two-byte placeholders. */
module Chunks {
  import opened Bytes
  import opened Escape
  import opened Truncate

  // Wire kinds of rendered objects.
  const NULL := 0
  const STRING := 10
  const CLASS := 11
  const OBJECT := 12

  const NULL_CHUNK: Bytes := [112, 0x01, 110, 117, 108, 108, 0x02]

  function KindByte(kind: int): byte {
    if kind == STRING then 115 else if kind == CLASS then 99 else 76
  }

  function BodyText(str: Bytes, extra: Bytes): Bytes {
    if extra != [] then Escaped(str) + [0x03] + Escaped(extra) else Escaped(str)
  }

  function RenderChunk(kind: int, str: Bytes, extra: Bytes): Bytes {
    if kind != STRING && kind != CLASS && kind != OBJECT then NULL_CHUNK
    else [KindByte(kind), 0x01] + BodyText(str, extra) + [0x02]
  }

  datatype Rendered = Rendered(kind: int, str: Bytes, extra: Bytes)

  const NOTHING := Rendered(NULL, [], [])

  function WithoutEnd(body: Bytes): Bytes {
    if body != [] && body[|body| - 1] == 0x02 then body[..|body| - 1] else body
  }

  // The two texts of a body, split at its first 0x03.
  function ParseBody(body: Bytes): (Bytes, Bytes) {
    var i := IndexOf(body, 0x03);
    if i >= 0 then (Unescaped(body[..i]), Unescaped(body[i + 1..])) else (Unescaped(body), [])
  }

  function ParseChunk(chunk: Bytes): Rendered {
    if |chunk| < 2 then NOTHING
    else if chunk[0] !in {115, 99, 76, 112} then NOTHING
    else
      var kind := if chunk[0] == 115 then STRING else if chunk[0] == 99 then CLASS
                  else if chunk[0] == 76 then OBJECT else NULL;
      if |chunk| >= 3 && chunk[1] == 0x01 then
        var (str, extra) := ParseBody(WithoutEnd(chunk[2..]));
        Rendered(kind, if kind == NULL then [] else str, extra)
      else Rendered(kind, [], [])
  }

  lemma {:induction false} CleanOf(s: Bytes, b: byte)
    requires NeedsEscape(b) && b != ESC
    ensures b !in Escaped(s)
  {
    EscapedIsClean(s);
  }

  lemma {:induction false} ParseBodyText(str: Bytes, extra: Bytes)
    ensures ParseBody(BodyText(str, extra)) == (str, extra)
  {
    var text := BodyText(str, extra);
    EscapeRoundTrip(str);
    EscapeRoundTrip(extra);
    CleanOf(str, 0x03);
    if extra != [] {
      IndexOfAppend(Escaped(str), 0x03, Escaped(extra));
      assert text[..|Escaped(str)|] == Escaped(str) && text[|Escaped(str)| + 1..] == Escaped(extra);
    }
  }

  lemma {:induction false} ParseFramed(kind: int, body: Bytes)
    requires kind in {STRING, CLASS, OBJECT}
    ensures ParseChunk([KindByte(kind), 0x01] + body + [0x02])
            == Rendered(kind, ParseBody(body).0, ParseBody(body).1)
  {
    var chunk := [KindByte(kind), 0x01] + body + [0x02];
    assert chunk[2..] == body + [0x02];
    assert WithoutEnd(body + [0x02]) == body;
    assert |chunk| >= 3 && chunk[0] == KindByte(kind) && chunk[1] == 0x01;
  }

  lemma {:induction false} ParseNullChunk()
    ensures ParseChunk(NULL_CHUNK) == NOTHING
  {
    var body := WithoutEnd(NULL_CHUNK[2..]);
    assert body == [110, 117, 108, 108];
    assert 0x03 !in body;
    assert ParseBody(body).1 == [];
  }

  /** Reading back a rendered chunk gives the kind and both texts, for all content bytes. */
  lemma {:induction false} ParseInvertsRender(kind: int, str: Bytes, extra: Bytes)
    ensures ParseChunk(RenderChunk(kind, str, extra))
            == if kind in {STRING, CLASS, OBJECT} then Rendered(kind, str, extra) else NOTHING
  {
    if kind in {STRING, CLASS, OBJECT} {
      ParseFramed(kind, BodyText(str, extra));
      ParseBodyText(str, extra);
    } else {
      ParseNullChunk();
    }
  }

  /** What does not start with the character of a rendered kind, or is shorter than a record's front, reads as
      nothing; without the 0x01 only the kind is read. */
  lemma {:induction false} BrokenChunk(chunk: Bytes)
    ensures |chunk| < 2 || chunk[0] as char !in "scLp" ==> ParseChunk(chunk) == Rendered(0, [], [])
    ensures |chunk| >= 2 && chunk[0] as char in "scLp" && (|chunk| == 2 || chunk[1] != 1) ==>
              ParseChunk(chunk) == Rendered(match chunk[0] as char
                                            case 's' => 10
                                            case 'c' => 11
                                            case 'L' => 12
                                            case _ => 0, [], [])
  {
    hide ParseBody;
  }

  // ---------------------------------------------------------------------------------------------
  // Substitution
  // ---------------------------------------------------------------------------------------------

  predicate Marked(s: Bytes, i: nat, n: nat) {
    i + 1 < |s| && s[i] == MARK && 0 <= s[i + 1] - 1 < n
  }

  // Every in-range placeholder replaced, left to right; all other bytes kept.
  function Substituted(s: Bytes, rendered: seq<Bytes>): Bytes {
    if s == [] then []
    else if Marked(s, 0, |rendered|) then rendered[s[1] - 1] + Substituted(s[2..], rendered)
    else [s[0]] + Substituted(s[1..], rendered)
  }

  /** Text without an in-range placeholder is left alone. */
  lemma {:induction false} NothingToSubstitute(s: Bytes, rendered: seq<Bytes>)
    requires forall i: nat :: !Marked(s, i, |rendered|)
    ensures Substituted(s, rendered) == s
  {
    if s != [] {
      assert !Marked(s, 0, |rendered|);
      forall i: nat
        ensures !Marked(s[1..], i, |rendered|)
      {
        assert !Marked(s, i + 1, |rendered|);
      }
      NothingToSubstitute(s[1..], rendered);
    }
  }

  // Substitution from position i on: a placeholder at i is replaced, any other byte is kept.
  lemma {:induction false} SubstituteFrom(s: Bytes, i: nat, rendered: seq<Bytes>, out: Bytes)
    requires i < |s|
    ensures if Marked(s, i, |rendered|)
            then out + Substituted(s[i..], rendered) == out + rendered[s[i + 1] - 1] + Substituted(s[i + 2..], rendered)
            else out + Substituted(s[i..], rendered) == out + [s[i]] + Substituted(s[i + 1..], rendered)
  {
    assert Marked(s[i..], 0, |rendered|) == Marked(s, i, |rendered|);
    assert s[i..][1..] == s[i + 1..];
    if Marked(s, i, |rendered|) {
      assert s[i..][2..] == s[i + 2..];
      Associate(out, rendered[s[i + 1] - 1], Substituted(s[i + 2..], rendered));
    } else {
      Associate(out, [s[i]], Substituted(s[i + 1..], rendered));
    }
  }

  method SubstitutePlaceholders(s: Bytes, rendered: seq<Bytes>) returns (out: Bytes)
    ensures out == Substituted(s, rendered)
  {
    if |rendered| == 0 || |s| < 2 {
      NothingToSubstitute(s, rendered);
      return s;
    }
    hide Substituted;
    out := [];
    var i := 0;
    assert s[0..] == s && [] + Substituted(s, rendered) == Substituted(s, rendered);
    while i < |s|
      invariant 0 <= i <= |s|
      invariant out + Substituted(s[i..], rendered) == Substituted(s, rendered)
    {
      SubstituteFrom(s, i, rendered, out);
      if s[i] == MARK && i + 1 < |s| {
        var slot := s[i + 1] as int - 1;
        if 0 <= slot < |rendered| {
          out := out + rendered[slot];
          i := i + 2;
          continue;
        }
      }
      out := out + [s[i]];
      i := i + 1;
    }
    SubstitutedEmpty(rendered);
    assert s[i..] == [] && out + [] == out;
  }

  lemma {:induction false} SubstitutedEmpty(rendered: seq<Bytes>)
    ensures Substituted([], rendered) == []
  {
  }

  // ---------------------------------------------------------------------------------------------
  // Argument strings as records and placeholders
  // ---------------------------------------------------------------------------------------------

  // One argument: a record written inline, or a placeholder for the rendered object in a slot.
  datatype Elem = Record(sig: byte, body: seq<Token>) | Hole(slot: nat)

  // Tokens that may stand between a record's 0x01 and its 0x02.
  predicate BodyToken(t: Token) {
    match t
    case Plain(b) => !Lead(b) && b != 0x01 && b != 0x02
    case Pair(lead, c) => lead == ESC && c != MARK && c != 0x01 && c != 0x02
  }

  ghost predicate BodyTokens(ts: seq<Token>) {
    forall k :: 0 <= k < |ts| ==> BodyToken(ts[k])
  }

  ghost predicate ValidElem(e: Elem, nslots: nat) {
    match e
    case Record(sig, body) => !NeedsEscape(sig) && BodyTokens(body)
    case Hole(slot) => slot < nslots && slot < 255
  }

  ghost predicate ValidElems(es: seq<Elem>, nslots: nat) {
    forall k :: 0 <= k < |es| ==> ValidElem(es[k], nslots)
  }

  function RecordTokens(sig: byte, body: seq<Token>): seq<Token> {
    [Plain(sig), Plain(0x01)] + body + [Plain(0x02)]
  }

  function ElemTokens(e: Elem): seq<Token> {
    match e
    case Record(sig, body) => RecordTokens(sig, body)
    case Hole(slot) => if slot < 255 then [Pair(MARK, slot + 1)] else []
  }

  function AllTokens(es: seq<Elem>): seq<Token> {
    if es == [] then [] else ElemTokens(es[0]) + AllTokens(es[1..])
  }

  // The argument string as the hook sends it.
  function WithHoles(es: seq<Elem>): Bytes { Text(AllTokens(es)) }

  function InlineElem(e: Elem, rendered: seq<Bytes>): Bytes
    requires e.Hole? ==> e.slot < |rendered|
  {
    match e
    case Record(sig, body) => Text(RecordTokens(sig, body))
    case Hole(slot) => rendered[slot]
  }

  // The argument string with every rendered chunk written in its place from the start.
  ghost function Inline(es: seq<Elem>, rendered: seq<Bytes>): Bytes
    requires ValidElems(es, |rendered|)
  {
    if es == [] then []
    else
      assert ValidElem(es[0], |rendered|);
      InlineElem(es[0], rendered) + Inline(es[1..], rendered)
  }

  // Substitution passes over record tokens unchanged.
  predicate Inert(t: Token) { IsToken(t) && (t.Pair? ==> t.lead == ESC && t.companion != MARK) }

  lemma {:induction false} SubstituteInert(ts: seq<Token>, rest: Bytes, rendered: seq<Bytes>)
    requires forall k :: 0 <= k < |ts| ==> Inert(ts[k])
    ensures Substituted(Text(ts) + rest, rendered) == Text(ts) + Substituted(rest, rendered)
  {
    if ts == [] {
      assert Text(ts) + rest == rest;
    } else {
      var tail := Text(ts[1..]) + rest;
      assert Inert(ts[0]);
      assert Text(ts) == TokenText(ts[0]) + Text(ts[1..]);
      SubstituteInert(ts[1..], rest, rendered);
      hide Text, TokenText, Substituted, Inert;
      SubstituteToken(ts[0], tail, rendered);
      Associate(TokenText(ts[0]), Text(ts[1..]), rest);
      Associate(TokenText(ts[0]), Text(ts[1..]), Substituted(rest, rendered));
    }
  }

  lemma {:induction false} SubstituteToken(t: Token, tail: Bytes, rendered: seq<Bytes>)
    requires Inert(t)
    ensures Substituted(TokenText(t) + tail, rendered) == TokenText(t) + Substituted(tail, rendered)
  {
    var s := TokenText(t) + tail;
    match t
    case Plain(b) =>
      assert s[1..] == tail;
    case Pair(lead, c) =>
      assert s[1..] == [c] + tail;
      assert s[1..][1..] == tail;
      assert Substituted(s[1..], rendered) == [c] + Substituted(tail, rendered);
  }

  lemma {:induction false} BodyIsInert(sig: byte, body: seq<Token>)
    requires !NeedsEscape(sig) && BodyTokens(body)
    ensures forall k :: 0 <= k < |RecordTokens(sig, body)| ==> Inert(RecordTokens(sig, body)[k])
  {
    var ts := RecordTokens(sig, body);
    forall k | 0 <= k < |ts|
      ensures Inert(ts[k])
    {
      if 2 <= k < |ts| - 1 { assert BodyToken(body[k - 2]); }
    }
  }

  lemma {:induction false} SubstituteElem(e: Elem, rest: Bytes, rendered: seq<Bytes>)
    requires ValidElem(e, |rendered|)
    ensures Substituted(Text(ElemTokens(e)) + rest, rendered) == InlineElem(e, rendered) + Substituted(rest, rendered)
  {
    match e
    case Record(sig, body) =>
      BodyIsInert(sig, body);
      SubstituteInert(ElemTokens(e), rest, rendered);
    case Hole(slot) =>
      assert Text(ElemTokens(e)) == [MARK, slot + 1] + Text([]);
      var s := [MARK, slot + 1] + rest;
      assert s[2..] == rest && Marked(s, 0, |rendered|);
  }

  lemma {:induction false} WithHolesCons(es: seq<Elem>, rest: Bytes)
    requires es != []
    ensures WithHoles(es) + rest == Text(ElemTokens(es[0])) + (WithHoles(es[1..]) + rest)
  {
    TextConcat(ElemTokens(es[0]), AllTokens(es[1..]));
    Associate(Text(ElemTokens(es[0])), WithHoles(es[1..]), rest);
  }

  lemma {:induction false} SubstituteElems(es: seq<Elem>, rest: Bytes, rendered: seq<Bytes>)
    requires ValidElems(es, |rendered|)
    ensures Substituted(WithHoles(es) + rest, rendered) == Inline(es, rendered) + Substituted(rest, rendered)
  {
    if es == [] {
      assert WithHoles(es) + rest == rest;
    } else {
      assert ValidElem(es[0], |rendered|);
      var tail := WithHoles(es[1..]) + rest;
      WithHolesCons(es, rest);
      SubstituteElem(es[0], tail, rendered);
      SubstituteElems(es[1..], rest, rendered);
      Associate(InlineElem(es[0], rendered), Inline(es[1..], rendered), Substituted(rest, rendered));
    }
  }

  /** Substituting the chunks gives, byte for byte, what writing them inline would have given. */
  lemma {:induction false} SubstitutionIsInlining(es: seq<Elem>, rendered: seq<Bytes>)
    requires ValidElems(es, |rendered|)
    ensures Substituted(WithHoles(es), rendered) == Inline(es, rendered)
  {
    SubstituteElems(es, [], rendered);
    assert WithHoles(es) + [] == WithHoles(es);
  }
}
