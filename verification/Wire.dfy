/** The argument string end to end: encoded by a hook, cut to the field limit, filled in with the
    deferred objects and decoded by the consumer. */
module Wire {
  import opened Bytes
  import opened Escape
  import opened Truncate
  import opened Numbers
  import opened Records
  import opened Chunks
  import opened Args

  // ---------------------------------------------------------------------------------------------
  // Decoding a run of elements
  // ---------------------------------------------------------------------------------------------

  // A chunk is one complete record.
  predicate IsChunk(c: Bytes) {
    |c| >= 3 && c[|c| - 1] == 0x02 && 0x02 !in c[..|c| - 1]
  }

  predicate AreChunks(rendered: seq<Bytes>) {
    forall k :: 0 <= k < |rendered| ==> IsChunk(rendered[k])
  }

  lemma {:induction false} RenderedIsChunk(kind: int, str: Bytes, extra: Bytes)
    ensures IsChunk(RenderChunk(kind, str, extra))
  {
    hide Escaped;
    CleanOf(str, 0x02);
    CleanOf(extra, 0x02);
    var c := RenderChunk(kind, str, extra);
    if kind in {STRING, CLASS, OBJECT} {
      assert c[..|c| - 1] == [KindByte(kind), 0x01] + BodyText(str, extra);
    } else {
      assert c[..|c| - 1] == [112, 0x01, 110, 117, 108, 108];
    }
  }

  // The value an element decodes to; none for a record whose shape the decoder rejects.
  function ElemValues(e: Elem, rendered: seq<Bytes>): seq<Value>
    requires e.Hole? ==> e.slot < |rendered| && IsChunk(rendered[e.slot])
  {
    match e
    case Record(sig, body) => DecodeRecord([sig, 0x01] + Text(body))
    case Hole(slot) => DecodeRecord(rendered[slot][..|rendered[slot]| - 1])
  }

  ghost function ElemsValues(es: seq<Elem>, rendered: seq<Bytes>): seq<Value>
    requires ValidElems(es, |rendered|) && AreChunks(rendered)
  {
    if es == [] then []
    else
      assert ValidElem(es[0], |rendered|);
      ElemValues(es[0], rendered) + ElemsValues(es[1..], rendered)
  }

  lemma {:induction false} DecodeElem(e: Elem, rest: Bytes, rendered: seq<Bytes>)
    requires ValidElem(e, |rendered|) && AreChunks(rendered)
    ensures Decoded(InlineElem(e, rendered) + rest) == ElemValues(e, rendered) + Decoded(rest)
  {
    hide Decoded, DecodeRecord;
    match e
    case Record(sig, body) =>
      RecordText(sig, body);
      BodyHasNoEnd(body);
      DecodedCons([sig, 0x01] + Text(body), rest);
    case Hole(slot) =>
      var c := rendered[slot];
      assert c == c[..|c| - 1] + [0x02];
      DecodedCons(c[..|c| - 1], rest);
  }

  lemma {:induction false} DecodeElems(es: seq<Elem>, rest: Bytes, rendered: seq<Bytes>)
    requires ValidElems(es, |rendered|) && AreChunks(rendered)
    ensures Decoded(Inline(es, rendered) + rest) == ElemsValues(es, rendered) + Decoded(rest)
  {
    hide Decoded, ElemValues, InlineElem, IsChunk;
    if es == [] {
      assert Inline(es, rendered) + rest == rest;
    } else {
      assert ValidElem(es[0], |rendered|);
      DecodeElem(es[0], Inline(es[1..], rendered) + rest, rendered);
      DecodeElems(es[1..], rest, rendered);
      Associate(InlineElem(es[0], rendered), Inline(es[1..], rendered), rest);
      Associate(ElemValues(es[0], rendered), ElemsValues(es[1..], rendered), Decoded(rest));
    }
  }

  // ---------------------------------------------------------------------------------------------
  // Inline round trip
  // ---------------------------------------------------------------------------------------------

  predicate ValidArgs(args: seq<Arg>) {
    forall k :: 0 <= k < |args| ==> ValidArg(args[k])
  }

  lemma {:induction false} ArgElemsAreValid(args: seq<Arg>, nslots: nat)
    requires ValidArgs(args)
    ensures ValidElems(ArgElems(args), nslots)
  {
    forall k | 0 <= k < |args|
      ensures ValidElem(ArgElems(args)[k], nslots)
    {
      ArgElemIsValid(args[k], nslots);
    }
  }

  lemma {:induction false} ArgElemValue(a: Arg, rendered: seq<Bytes>)
    requires ValidArg(a)
    ensures ElemValues(ArgElem(a), rendered) == [ArgValue(a)]
  {
    hide DecodeRecord, Build, ArgValue;
    BuildArg(a);
    ArgElemIsValid(a, 0);
    DecodeFramed(ArgElem(a).sig, Text(ArgElem(a).body));
  }

  lemma {:induction false} ArgElemsValues(args: seq<Arg>, rendered: seq<Bytes>)
    requires ValidArgs(args) && AreChunks(rendered)
    requires ValidElems(ArgElems(args), |rendered|)
    ensures ElemsValues(ArgElems(args), rendered) == ArgValues(args)
  {
    hide ArgElem, ArgValue, ElemValues;
    if args != [] {
      assert ArgElems(args)[1..] == ArgElems(args[1..]);
      assert ValidElem(ArgElems(args)[0], |rendered|);
      ArgElemValue(args[0], rendered);
      ArgElemsValues(args[1..], rendered);
    }
  }

  lemma {:induction false} InlineRecords(es: seq<Elem>, rendered: seq<Bytes>)
    requires ValidElems(es, |rendered|) && forall k :: 0 <= k < |es| ==> es[k].Record?
    ensures Inline(es, rendered) == WithHoles(es)
  {
    if es != [] {
      assert ValidElem(es[0], |rendered|);
      InlineRecords(es[1..], rendered);
      TextConcat(ElemTokens(es[0]), AllTokens(es[1..]));
    }
  }

  // The argument string with everything written inline.
  function Encoded(args: seq<Arg>): Bytes { WithHoles(ArgElems(args)) }

  lemma {:induction false} ArgElemsAreRecords(args: seq<Arg>)
    ensures forall k :: 0 <= k < |args| ==> ArgElems(args)[k].Record?
  {
    forall k | 0 <= k < |args|
      ensures ArgElems(args)[k].Record?
    {
      ArgElemIsRecord(args[k]);
    }
  }

  lemma {:induction false} ArgElemIsRecord(a: Arg)
    ensures ArgElem(a).Record?
  {
  }

  /** Decoding an encoded argument list gives the list back: every 64-bit integer, every byte of
      every string, class and object, and arrays as their first sixteen items with the exact count
      of the rest. Class names come back dotted, and an object whose class name is the text null
      and that has no toString comes back as the null reference. */
  lemma {:induction false} DecodeInvertsEncode(args: seq<Arg>)
    requires ValidArgs(args)
    ensures Decoded(Encoded(args)) == ArgValues(args)
  {
    hide Decoded, ArgElem, ArgValue;
    var es := ArgElems(args);
    ArgElemsAreValid(args, 0);
    ArgElemsAreRecords(args);
    InlineRecords(es, []);
    DecodeElems(es, [], []);
    ArgElemsValues(args, []);
    DecodedNothing();
    assert Encoded(args) + [] == Encoded(args);
  }

  lemma {:induction false} DecodedNothing()
    ensures Decoded([]) == []
  {
    DecodedUnterminated([]);
  }

  // ---------------------------------------------------------------------------------------------
  // Deferred objects
  // ---------------------------------------------------------------------------------------------

  // The chunk the consumer renders for an object.
  function ChunkOf(o: Obj): Bytes {
    match o
    case StringObj(text) => RenderChunk(STRING, OrEmpty(text), [])
    case ClassObj(name) => RenderChunk(CLASS, OrEmpty(name), [])
    case OtherObj(name, text) => RenderChunk(OBJECT, OrEmpty(name), OrEmpty(text))
  }

  // A toString that returned the empty string, as opposed to none at all.
  predicate EmptyText(o: Obj) { o.OtherObj? && o.text == Some([]) }

  lemma {:induction false} ObjElemText(o: Obj)
    ensures Text(ElemTokens(ObjElem(o))) == [ObjElem(o).sig, 0x01] + Text(ObjElem(o).body) + [0x02]
    ensures Text(ObjElem(o).body)
            == match o
               case StringObj(text) => Escaped(OrEmpty(text))
               case ClassObj(name) => Escaped(OrEmpty(name))
               case OtherObj(name, text) => ObjectText(OrEmpty(name), text)
  {
    hide Escaped, ObjectText;
    RecordText(ObjElem(o).sig, ObjElem(o).body);
    match o
    case StringObj(text) => EscapeTokensText(OrEmpty(text));
    case ClassObj(name) => EscapeTokensText(OrEmpty(name));
    case OtherObj(name, text) => ObjectTokensText(OrEmpty(name), text);
  }

  /** The rendered chunk is byte for byte the record inline encoding writes, except for an object
      with an empty toString: there the inline record carries one more byte, an empty extra part. */
  lemma {:induction false} ChunkAgainstInline(o: Obj)
    ensures ChunkOf(o) == Text(ElemTokens(ObjElem(o))) <==> !EmptyText(o)
    ensures |Text(ElemTokens(ObjElem(o)))| == |ChunkOf(o)| + if EmptyText(o) then 1 else 0
  {
    hide Escaped;
    ObjElemText(o);
    if EmptyText(o) {
      EscapedNothing();
    }
  }

  lemma {:induction false} EscapedNothing()
    ensures Escaped([]) == []
  {
  }

  // es sends each argument inline or, for an object, as a placeholder whose slot was rendered.
  ghost predicate Defers(es: seq<Elem>, args: seq<Arg>, rendered: seq<Bytes>) {
    && |es| == |args|
    && forall k :: 0 <= k < |es| ==> DefersOne(es[k], args[k], rendered)
  }

  ghost predicate DefersOne(e: Elem, a: Arg, rendered: seq<Bytes>) {
    || e == ArgElem(a)
    || (&& e.Hole? && e.slot < |rendered| && e.slot < 255
        && a.Ref? && a.obj.Some? && rendered[e.slot] == ChunkOf(a.obj.value))
  }

  // How many deferred objects have an empty toString.
  function EmptyTexts(es: seq<Elem>, args: seq<Arg>): nat
    requires |es| == |args|
  {
    if es == [] then 0
    else EmptyTexts(es[1..], args[1..])
         + if es[0].Hole? && args[0].Ref? && args[0].obj.Some? && EmptyText(args[0].obj.value) then 1 else 0
  }

  lemma {:induction false} DefersIsValid(es: seq<Elem>, args: seq<Arg>, rendered: seq<Bytes>)
    requires ValidArgs(args) && Defers(es, args, rendered)
    ensures ValidElems(es, |rendered|)
  {
    forall k | 0 <= k < |es|
      ensures ValidElem(es[k], |rendered|)
    {
      assert DefersOne(es[k], args[k], rendered);
      ArgElemIsValid(args[k], |rendered|);
    }
  }

  lemma {:induction false} InlineOne(e: Elem, a: Arg, rendered: seq<Bytes>)
    requires DefersOne(e, a, rendered)
    ensures var n := if e.Hole? && a.Ref? && a.obj.Some? && EmptyText(a.obj.value) then 1 else 0;
            && |Text(ElemTokens(ArgElem(a)))| == |InlineElem(e, rendered)| + n
            && (n == 0 ==> InlineElem(e, rendered) == Text(ElemTokens(ArgElem(a))))
  {
    hide Text, ChunkOf, ObjElem;
    ArgElemIsRecord(a);
    if e.Hole? {
      ChunkAgainstInline(a.obj.value);
    }
  }

  lemma {:induction false} InlineOfDeferred(es: seq<Elem>, args: seq<Arg>, rendered: seq<Bytes>)
    requires ValidArgs(args) && Defers(es, args, rendered) && ValidElems(es, |rendered|)
    ensures |Encoded(args)| == |Inline(es, rendered)| + EmptyTexts(es, args)
    ensures EmptyTexts(es, args) == 0 ==> Inline(es, rendered) == Encoded(args)
  {
    hide Text, ElemTokens, ArgElem, InlineElem;
    if es != [] {
      assert DefersOne(es[0], args[0], rendered) && ValidElem(es[0], |rendered|);
      assert forall k :: 0 <= k < |es| - 1 ==> es[1..][k] == es[k + 1] && args[1..][k] == args[k + 1];
      InlineOne(es[0], args[0], rendered);
      InlineOfDeferred(es[1..], args[1..], rendered);
      assert ArgElems(args)[1..] == ArgElems(args[1..]);
      TextConcat(ElemTokens(ArgElem(args[0])), AllTokens(ArgElems(args[1..])));
      assert ArgElems(args)[0] == ArgElem(args[0]);
    } else {
      TextNothing();
      assert ArgElems(args) == [];
    }
  }

  lemma {:induction false} TextNothing()
    ensures Text([]) == []
  {
  }

  /** Filling in the deferred objects yields byte for byte what inline encoding would have sent if
      and only if no deferred object has an empty toString. */
  lemma {:induction false} DeferredIsInline(es: seq<Elem>, args: seq<Arg>, rendered: seq<Bytes>)
    requires ValidArgs(args) && Defers(es, args, rendered)
    ensures Substituted(WithHoles(es), rendered) == Encoded(args) <==> EmptyTexts(es, args) == 0
  {
    DefersIsValid(es, args, rendered);
    SubstitutionIsInlining(es, rendered);
    InlineOfDeferred(es, args, rendered);
  }

  // An object as its chunk shows it: an empty toString is left out.
  function Chunked(o: Obj): Obj {
    if EmptyText(o) then OtherObj(o.name, None) else o
  }

  lemma {:induction false} ChunkedText(o: Obj)
    ensures ChunkOf(o) == [ObjElem(Chunked(o)).sig, 0x01] + Text(ObjElem(Chunked(o)).body) + [0x02]
    ensures ObjElem(Chunked(o)).Record? && ObjElem(Chunked(o)).sig in {115, 99, 76}
    ensures IsChunk(ChunkOf(o))
  {
    hide Text, ElemTokens, RenderChunk;
    SameChunk(o);
    ChunkAgainstInline(Chunked(o));
    ObjElemText(Chunked(o));
    ChunkIsChunk(o);
  }

  lemma {:induction false} SameChunk(o: Obj)
    ensures ChunkOf(Chunked(o)) == ChunkOf(o) && !EmptyText(Chunked(o))
  {
    hide RenderChunk;
  }

  lemma {:induction false} ChunkIsChunk(o: Obj)
    ensures IsChunk(ChunkOf(o))
  {
    hide RenderChunk, IsChunk;
    match o
    case StringObj(text) => RenderedIsChunk(STRING, OrEmpty(text), []);
    case ClassObj(name) => RenderedIsChunk(CLASS, OrEmpty(name), []);
    case OtherObj(name, text) => RenderedIsChunk(OBJECT, OrEmpty(name), OrEmpty(text));
  }

  lemma {:induction false} ChunkDecodes(o: Obj)
    ensures IsChunk(ChunkOf(o))
    ensures DecodeRecord(ChunkOf(o)[..|ChunkOf(o)| - 1]) == [ObjValue(Chunked(o))]
  {
    hide Build, DecodeRecord, Escaped, ChunkOf, ObjElem, ObjValue, Text;
    var e := ObjElem(Chunked(o));
    ChunkedText(o);
    BuildObj(Chunked(o));
    DecodeFramed(e.sig, Text(e.body));
    assert ChunkOf(o)[..|ChunkOf(o)| - 1] == [e.sig, 0x01] + Text(e.body);
  }

  /** Deferring an object changes the value it arrives as only when its class is named null and its
      toString is empty: then the chunk cannot be told from a null reference. */
  lemma {:induction false} DeferredValue(o: Obj)
    ensures IsChunk(ChunkOf(o))
    ensures DecodeRecord(ChunkOf(o)[..|ChunkOf(o)| - 1]) == [ObjValue(o)]
            <==> !(EmptyText(o) && OrEmpty(o.name) == NULL_TEXT)
  {
    hide DecodeRecord, ChunkOf;
    ChunkDecodes(o);
  }

  // A placeholder whose object does not arrive as it would have inline.
  predicate Lost(e: Elem, a: Arg) {
    e.Hole? && a.Ref? && a.obj.Some? && EmptyText(a.obj.value) && OrEmpty(a.obj.value.name) == NULL_TEXT
  }

  // The value an argument arrives as when it is sent as e.
  function Arrived(e: Elem, a: Arg): Value {
    if e.Hole? && a.Ref? && a.obj.Some? then ObjValue(Chunked(a.obj.value)) else ArgValue(a)
  }

  function AllArrived(es: seq<Elem>, args: seq<Arg>): (vs: seq<Value>)
    requires |es| == |args|
    ensures |vs| == |es| && forall k :: 0 <= k < |es| ==> vs[k] == Arrived(es[k], args[k])
  {
    seq(|es|, k requires 0 <= k < |es| => Arrived(es[k], args[k]))
  }

  lemma {:induction false} ArrivedElemValue(e: Elem, a: Arg, rendered: seq<Bytes>)
    requires ValidArg(a) && DefersOne(e, a, rendered)
    requires e.Hole? ==> e.slot < |rendered| && IsChunk(rendered[e.slot])
    ensures ElemValues(e, rendered) == [Arrived(e, a)]
  {
    hide DecodeRecord, ChunkOf, ObjValue, ObjElem, Build, ArgValue, Lost;
    ArgElemIsRecord(a);
    if e.Hole? { ChunkDecodes(a.obj.value); } else { ArgElemValue(a, rendered); }
  }

  lemma {:induction false} ArrivedElemsValues(es: seq<Elem>, args: seq<Arg>, rendered: seq<Bytes>)
    requires ValidArgs(args) && Defers(es, args, rendered) && ValidElems(es, |rendered|) && AreChunks(rendered)
    ensures ElemsValues(es, rendered) == AllArrived(es, args)
  {
    hide ArgElem, ArgValue, ElemValues, IsChunk, DefersOne, Arrived;
    if es != [] {
      assert DefersOne(es[0], args[0], rendered) && ValidElem(es[0], |rendered|);
      ArrivedElemValue(es[0], args[0], rendered);
      ArrivedElemsValues(es[1..], args[1..], rendered);
      assert AllArrived(es, args) == [Arrived(es[0], args[0])] + AllArrived(es[1..], args[1..]);
    }
  }

  // No placeholder among the first m elements is lost.
  predicate NoneLost(es: seq<Elem>, args: seq<Arg>, m: nat)
    requires |es| == |args| && m <= |es|
  {
    forall k :: 0 <= k < m ==> !Lost(es[k], args[k])
  }

  lemma {:induction false} ArrivedIs(e: Elem, a: Arg)
    ensures Arrived(e, a) == ArgValue(a) <==> !Lost(e, a)
  {
    hide Dotted, ArrayText, ItemValues, Narrowed;
  }

  lemma {:induction false} ArgValuesAt(args: seq<Arg>)
    ensures |ArgValues(args)| == |args|
    ensures forall i :: 0 <= i < |args| ==> ArgValues(args)[i] == ArgValue(args[i])
  {
    hide ArgValue;
    if args != [] { ArgValuesAt(args[1..]); }
  }

  lemma {:induction false} AllArrivedIs(es: seq<Elem>, args: seq<Arg>)
    requires |es| == |args|
    ensures AllArrived(es, args) == ArgValues(args) <==> NoneLost(es, args, |es|)
    ensures |ArgValues(args)| == |args|
  {
    hide Arrived, Lost, ArgValue;
    ArgValuesAt(args);
    forall k | 0 <= k < |es|
      ensures AllArrived(es, args)[k] == ArgValues(args)[k] <==> !Lost(es[k], args[k])
    {
      ArrivedIs(es[k], args[k]);
    }
  }

  /** What the consumer decodes from the filled-in string is the argument list, whichever objects were
      deferred, if and only if no placeholder stands for an object whose class is named null and whose
      toString is empty; the values it decodes are known in any case. */
  lemma {:induction false} DeferredDecodes(es: seq<Elem>, args: seq<Arg>, rendered: seq<Bytes>)
    requires ValidArgs(args) && Defers(es, args, rendered) && AreChunks(rendered)
    ensures Decoded(Substituted(WithHoles(es), rendered)) == AllArrived(es, args)
    ensures Decoded(Substituted(WithHoles(es), rendered)) == ArgValues(args) <==> NoneLost(es, args, |es|)
  {
    hide Decoded, Substituted, Arrived, NoneLost;
    DefersIsValid(es, args, rendered);
    SubstitutionIsInlining(es, rendered);
    DecodeElems(es, [], rendered);
    ArrivedElemsValues(es, args, rendered);
    DecodedNothing();
    assert Inline(es, rendered) + [] == Inline(es, rendered);
    AllArrivedIs(es, args);
  }

  // ---------------------------------------------------------------------------------------------
  // Under a cut
  // ---------------------------------------------------------------------------------------------

  // The first k tokens of an argument string: m whole elements and the first j tokens of the next.
  lemma {:induction false} SplitTokens(es: seq<Elem>, k: nat) returns (m: nat, j: nat)
    requires k <= |AllTokens(es)|
    ensures m <= |es| && (m < |es| ==> j < |ElemTokens(es[m])|) && (m == |es| ==> j == 0)
    ensures AllTokens(es)[..k] == AllTokens(es[..m]) + if m < |es| then ElemTokens(es[m])[..j] else []
  {
    if es == [] {
      m, j := 0, 0;
    } else {
      var first := ElemTokens(es[0]);
      if k < |first| {
        m, j := 0, k;
        assert es[..0] == [];
        assert AllTokens(es)[..k] == first[..k];
      } else {
        m, j := SplitTokens(es[1..], k - |first|);
        m := m + 1;
        assert es[..m][1..] == es[1..][..m - 1] && es[..m][0] == es[0];
        var p := if m < |es| then ElemTokens(es[m])[..j] else [];
        Associate(first, AllTokens(es[..m][1..]), p);
        assert AllTokens(es)[..k] == first + AllTokens(es[1..])[..k - |first|];
      }
    }
  }

  lemma {:induction false} AllTokensAreTokens(es: seq<Elem>, nslots: nat)
    requires ValidElems(es, nslots)
    ensures IsTokens(AllTokens(es))
  {
    if es != [] {
      assert ValidElem(es[0], nslots);
      if es[0].Record? {
        forall k | 0 <= k < |es[0].body|
          ensures IsToken(es[0].body[k])
        {
          assert BodyToken(es[0].body[k]);
        }
      }
      AllTokensAreTokens(es[1..], nslots);
    }
  }

  // A record cut short: nothing in it ends it and nothing in it is a placeholder.
  lemma {:induction false} PartialRecord(e: Elem, j: nat, nslots: nat)
    requires ValidElem(e, nslots) && j < |ElemTokens(e)|
    ensures e.Hole? ==> j == 0
    ensures 0x02 !in Text(ElemTokens(e)[..j])
    ensures forall k :: 0 <= k < j ==> Inert(ElemTokens(e)[k])
  {
    if e.Record? {
      BodyIsInert(e.sig, e.body);
      var front := [Plain(e.sig), Plain(0x01)] + e.body;
      assert ElemTokens(e)[..j] == front[..j];
      forall k | 0 <= k < j
        ensures front[k].Plain? ==> front[k].b != 0x02
        ensures front[k].Pair? ==> front[k].lead != 0x02 && front[k].companion != 0x02
      {
        if k >= 2 { assert BodyToken(e.body[k - 2]); }
      }
      NoEndInText(front[..j]);
    } else {
      assert ElemTokens(e)[..j] == [];
    }
  }

  lemma {:induction false} NoEndInText(ts: seq<Token>)
    requires forall k :: 0 <= k < |ts| && ts[k].Plain? ==> ts[k].b != 0x02
    requires forall k :: 0 <= k < |ts| && ts[k].Pair? ==> ts[k].lead != 0x02 && ts[k].companion != 0x02
    ensures 0x02 !in Text(ts)
  {
    if ts != [] { NoEndInText(ts[1..]); }
  }

  lemma {:induction false} PrefixOfValid(es: seq<Elem>, m: nat, nslots: nat)
    requires ValidElems(es, nslots) && m <= |es|
    ensures ValidElems(es[..m], nslots)
  {
    forall k | 0 <= k < m
      ensures ValidElem(es[..m][k], nslots)
    {
      assert ValidElem(es[k], nslots);
    }
  }

  lemma {:induction false} ProperPrefixText(ts: seq<Token>, j: nat)
    requires j < |ts|
    ensures |Text(ts[..j])| < |Text(ts)| && Text(ts[..j]) <= Text(ts)
  {
    TextConcat(ts[..j], ts[j..]);
    assert ts[..j] + ts[j..] == ts;
    assert Text(ts[j..]) == TokenText(ts[j..][0]) + Text(ts[j..][1..]);
  }

  lemma {:induction false} NothingMissing(es: seq<Elem>, m: nat)
    requires m < |es|
    ensures |AllTokens(es[..m])| + |ElemTokens(es[m])| <= |AllTokens(es)|
  {
    AllTokensSplit(es, m);
    assert AllTokens(es[m..]) == ElemTokens(es[m..][0]) + AllTokens(es[m..][1..]);
  }

  lemma {:induction false} AllTokensSplit(es: seq<Elem>, m: nat)
    requires m <= |es|
    ensures AllTokens(es) == AllTokens(es[..m]) + AllTokens(es[m..])
  {
    if m == 0 {
      assert es[..0] == [] && es[0..] == es;
    } else {
      AllTokensSplit(es[1..], m - 1);
      assert es[1..][..m - 1] == es[..m][1..] && es[1..][m - 1..] == es[m..];
      Associate(ElemTokens(es[0]), AllTokens(es[..m][1..]), AllTokens(es[m..]));
    }
  }

  lemma {:induction false} SubstitutedNothing(rendered: seq<Bytes>)
    ensures Substituted([], rendered) == []
  {
  }

  // What is kept of element m when only its first j tokens are.
  function Part(es: seq<Elem>, m: nat, j: nat): Bytes
    requires m <= |es| && (m < |es| ==> j <= |ElemTokens(es[m])|)
  {
    if m < |es| then Text(ElemTokens(es[m])[..j]) else []
  }

  // m is the number of elements whose text lies within the first len bytes.
  ghost predicate WhollyKept(es: seq<Elem>, m: nat, len: nat) {
    m <= |es| && |WithHoles(es[..m])| <= len && (m < |es| ==> len < |WithHoles(es[..m + 1])|)
  }

  // Where a cut of the argument string falls: behind m whole elements and j tokens of the next.
  lemma {:induction false} CutSplits(es: seq<Elem>, nslots: nat, max: nat) returns (m: nat, j: nat)
    requires ValidElems(es, nslots)
    ensures m <= |es| && (m < |es| ==> j < |ElemTokens(es[m])|)
    ensures Cut(WithHoles(es), max) == WithHoles(es[..m]) + Part(es, m, j)
    ensures |WithHoles(es)| <= max ==> m == |es|
  {
    hide ElemTokens;
    AllTokensAreTokens(es, nslots);
    var k := CutIsTokenPrefix(AllTokens(es), max);
    m, j := SplitTokens(es, k);
    TextNothing();
    TextConcat(AllTokens(es[..m]), if m < |es| then ElemTokens(es[m])[..j] else []);
    if m < |es| { NothingMissing(es, m); }
  }

  lemma {:induction false} PartIsProper(es: seq<Elem>, m: nat, j: nat)
    requires m <= |es| && (m < |es| ==> j < |ElemTokens(es[m])|)
    ensures m < |es| ==> |Part(es, m, j)| < |Text(ElemTokens(es[m]))| && Part(es, m, j) <= Text(ElemTokens(es[m]))
    ensures WhollyKept(es, m, |WithHoles(es[..m])| + |Part(es, m, j)|)
  {
    hide ElemTokens, Text, WithHoles;
    if m < |es| {
      ProperPrefixText(ElemTokens(es[m]), j);
      WithHolesSnoc(es[..m], es[m]);
      assert es[..m + 1] == es[..m] + [es[m]];
    }
  }

  lemma {:induction false} PartIsInert(es: seq<Elem>, m: nat, j: nat, rendered: seq<Bytes>)
    requires ValidElems(es, |rendered|) && m <= |es| && (m < |es| ==> j < |ElemTokens(es[m])|)
    ensures Substituted(Part(es, m, j), rendered) == Part(es, m, j) && 0x02 !in Part(es, m, j)
  {
    hide ElemTokens, Substituted, Text;
    SubstitutedNothing(rendered);
    if m < |es| {
      var p := ElemTokens(es[m])[..j];
      assert ValidElem(es[m], |rendered|);
      PartialRecord(es[m], j, |rendered|);
      SubstituteInert(p, [], rendered);
      assert Text(p) + [] == Text(p);
    }
  }

  /** Cutting an argument string to any limit, filling in the placeholders that survive and decoding
      gives the exact values of all elements whose text lies within the cut, in order, and at most one
      value more, decoded from the part of the next record that was kept. */
  lemma {:induction false} CutThenDecode(es: seq<Elem>, rendered: seq<Bytes>, max: nat) returns (m: nat, j: nat)
    requires ValidElems(es, |rendered|) && AreChunks(rendered)
    ensures m <= |es| && (m < |es| ==> j < |ElemTokens(es[m])|) && ValidElems(es[..m], |rendered|)
    ensures Cut(WithHoles(es), max) == WithHoles(es[..m]) + Part(es, m, j)
    ensures WhollyKept(es, m, |Cut(WithHoles(es), max)|)
    ensures m < |es| ==> |Part(es, m, j)| < |Text(ElemTokens(es[m]))| && Part(es, m, j) <= Text(ElemTokens(es[m]))
    ensures Decoded(Substituted(Cut(WithHoles(es), max), rendered))
            == ElemsValues(es[..m], rendered) + DecodeRecord(Part(es, m, j))
    ensures |DecodeRecord(Part(es, m, j))| <= 1
    ensures |WithHoles(es)| <= max ==> m == |es|
  {
    hide Decoded, Substituted, DecodeRecord, Part, ElemTokens, Text, WhollyKept;
    m, j := CutSplits(es, |rendered|, max);
    PartIsProper(es, m, j);
    PartIsInert(es, m, j, rendered);
    PrefixOfValid(es, m, |rendered|);
    SubstituteElems(es[..m], Part(es, m, j), rendered);
    DecodeElems(es[..m], Part(es, m, j), rendered);
    DecodedUnterminated(Part(es, m, j));
  }

  function AtMost(s: Bytes, k: nat): Bytes { if |s| <= k then s else s[..k] }

  // The object that k tokens of the body of o's record stand for.
  function KeptObj(o: Obj, k: nat): Obj {
    match o
    case StringObj(text) => StringObj(Some(AtMost(OrEmpty(text), k)))
    case ClassObj(name) => ClassObj(Some(AtMost(OrEmpty(name), k)))
    case OtherObj(name, text) =>
      var n := OrEmpty(name);
      if text.None? || k <= |n| then OtherObj(Some(AtMost(n, k)), None)
      else OtherObj(Some(n), Some(AtMost(text.value, k - |n| - 1)))
  }

  lemma {:induction false} KeptBody(o: Obj, k: nat)
    requires k <= |ObjElem(o).body|
    ensures ObjElem(KeptObj(o, k)).sig == ObjElem(o).sig
    ensures ObjElem(KeptObj(o, k)).body == ObjElem(o).body[..k]
  {
    hide EscapeToken;
    var kept := KeptObj(o, k);
    match o
    case StringObj(text) =>
    case ClassObj(name) =>
    case OtherObj(name, text) =>
      var n := OrEmpty(name);
      if text.None? || k <= |n| {
        assert ObjElem(kept).body == EscapeTokens(AtMost(n, k));
      } else {
        assert ObjElem(kept).body == EscapeTokens(n) + ([Plain(0x03)] + EscapeTokens(AtMost(text.value, k - |n| - 1)));
      }
  }

  lemma {:induction false} PartialRecordText(sig: byte, body: seq<Token>, j: nat)
    requires j < |RecordTokens(sig, body)|
    ensures Text(RecordTokens(sig, body)[..j])
            == if j == 0 then [] else if j == 1 then [sig] else [sig, 0x01] + Text(body[..j - 2])
  {
    var ts := RecordTokens(sig, body)[..j];
    ShortTexts(sig);
    if j < 2 {
      assert ts == if j == 0 then [] else [Plain(sig)];
    } else {
      assert ts == [Plain(sig), Plain(0x01)] + body[..j - 2];
      TextConcat([Plain(sig), Plain(0x01)], body[..j - 2]);
    }
  }

  lemma {:induction false} ShortTexts(sig: byte)
    ensures Text([]) == [] && Text([Plain(sig)]) == [sig] && Text([Plain(sig), Plain(0x01)]) == [sig, 0x01]
  {
    assert [Plain(sig), Plain(0x01)][1..] == [Plain(0x01)];
    assert Text([Plain(0x01)]) == [0x01] + Text([]);
  }

  lemma {:induction false} ShortRecords(sig: byte)
    requires sig != 0x01
    ensures DecodeRecord([]) == [] && DecodeRecord([sig]) == []
  {
    assert IndexOf([sig], 0x01) == -1;
  }

  // An inline object cut short decodes to the value of the object its kept tokens stand for.
  lemma {:induction false} PartialObj(o: Obj, j: nat)
    requires j < |ElemTokens(ObjElem(o))|
    ensures DecodeRecord(Text(ElemTokens(ObjElem(o))[..j]))
            == if j < 2 then [] else [ObjValue(KeptObj(o, j - 2))]
  {
    hide Text, DecodeRecord, Build, ObjValue, KeptObj;
    var e := ObjElem(o);
    PartialRecordText(e.sig, e.body, j);
    ShortRecords(e.sig);
    if j >= 2 {
      KeptBody(o, j - 2);
      BuildObj(KeptObj(o, j - 2));
      DecodeFramed(e.sig, Text(e.body[..j - 2]));
    }
  }

  // v shows part of o: a prefix of its text or dotted class name; a toString only behind the whole
  // name; or, when what is left of the name reads null, the null reference.
  predicate ShowsPart(v: Value, o: Obj) {
    match o
    case StringObj(text) => v.kind == KString && v.str <= OrEmpty(text) && v.extra == []
    case ClassObj(name) => v.kind == KClass && v.str <= Dotted(OrEmpty(name)) && v.extra == []
    case OtherObj(name, text) =>
      if v.kind == KNull then NULL_TEXT <= OrEmpty(name)
      else v.kind == KObject && v.str <= Dotted(OrEmpty(name)) && v.extra <= OrEmpty(text)
           && (v.extra != [] ==> v.str == Dotted(OrEmpty(name)))
  }

  lemma {:induction false} KeptShowsPart(o: Obj, k: nat)
    ensures ShowsPart(ObjValue(KeptObj(o, k)), o)
  {
  }

  /** The same for an argument list, with any objects deferred. The arguments whose text lies within the
      cut arrive, exactly unless one of their placeholders is lost; at most one value follows, and for an
      inline string, class or object it shows part of that object. */
  lemma {:induction false} CutArgs(es: seq<Elem>, args: seq<Arg>, rendered: seq<Bytes>, max: nat)
    returns (m: nat, tail: seq<Value>)
    requires ValidArgs(args) && Defers(es, args, rendered) && AreChunks(rendered)
    ensures m <= |args| && WhollyKept(es, m, |Cut(WithHoles(es), max)|)
    ensures Decoded(Substituted(Cut(WithHoles(es), max), rendered)) == AllArrived(es[..m], args[..m]) + tail
    ensures Decoded(Substituted(Cut(WithHoles(es), max), rendered)) == ArgValues(args[..m]) + tail
            <==> NoneLost(es[..m], args[..m], m)
    ensures |tail| <= 1 && (m == |args| ==> tail == [])
    ensures |WithHoles(es)| <= max ==> m == |args|
    ensures tail != [] ==> es[m] == ArgElem(args[m])
    ensures tail != [] && args[m].Ref? && args[m].obj.Some? ==> ShowsPart(tail[0], args[m].obj.value)
  {
    hide Decoded, Substituted, DecodeRecord, ArgValue, IsChunk, DefersOne, ElemTokens, WithHoles, WhollyKept,
         NoneLost, Arrived, ShowsPart, Text;
    DefersIsValid(es, args, rendered);
    var j;
    m, j := CutThenDecode(es, rendered, max);
    tail := DecodeRecord(Part(es, m, j));
    ArrivedElemsValues(es[..m], args[..m], rendered);
    AllArrivedIs(es[..m], args[..m]);
    SameFront(AllArrived(es[..m], args[..m]), ArgValues(args[..m]), tail);
    TextNothing();
    ShortRecords(115);
    if m < |args| {
      assert DefersOne(es[m], args[m], rendered) && ValidElem(es[m], |rendered|);
      CutOne(es[m], args[m], j, rendered);
    }
  }

  lemma {:induction false} SameFront(vs: seq<Value>, ws: seq<Value>, tail: seq<Value>)
    requires |vs| == |ws|
    ensures vs + tail == ws + tail <==> vs == ws
  {
    assert (vs + tail)[..|vs|] == vs && (ws + tail)[..|ws|] == ws;
  }

  lemma {:induction false} CutOne(e: Elem, a: Arg, j: nat, rendered: seq<Bytes>)
    requires DefersOne(e, a, rendered) && ValidElem(e, |rendered|) && j < |ElemTokens(e)|
    ensures var tail := DecodeRecord(Text(ElemTokens(e)[..j]));
            tail != [] ==> && e == ArgElem(a)
                           && (a.Ref? && a.obj.Some? ==> ShowsPart(tail[0], a.obj.value))
  {
    hide Text, DecodeRecord, ShowsPart, ObjElem;
    PartialRecord(e, j, |rendered|);
    TextNothing();
    ShortRecords(115);
    if e.Hole? {
      assert ElemTokens(e)[..j] == [];
    } else if a.Ref? && a.obj.Some? {
      PartialObj(a.obj.value, j);
      if j >= 2 { KeptShowsPart(a.obj.value, j - 2); }
    }
  }

  // ---------------------------------------------------------------------------------------------
  // The hook side's loops
  // ---------------------------------------------------------------------------------------------

  lemma {:induction false} ItemsTextSnoc(items: seq<int>, v: int)
    ensures ItemsText(items + [v]) == ItemsText(items) + [0x04] + IntText(v)
  {
    hide IntText;
    if items == [] {
      assert [v][1..] == [];
      assert ItemsText([v]) == [0x04] + IntText(v) + ItemsText([]);
    } else {
      ItemsTextSnoc(items[1..], v);
      assert (items + [v])[1..] == items[1..] + [v];
    }
  }

  lemma {:induction false} ItemsTextUpTo(items: seq<int>, i: nat)
    requires i < |items|
    ensures ItemsText(items[..i + 1]) == ItemsText(items[..i]) + [0x04] + IntText(items[i])
  {
    ItemsTextSnoc(items[..i], items[i]);
    assert items[..i + 1] == items[..i] + [items[i]];
  }

  method EncodePtrArrayItems(items: seq<int>, elem: byte) returns (out: Bytes)
    ensures out == if items == [] then [] else ArrayText(elem, items)
  {
    hide ItemsText, IntText;
    if |items| == 0 { return []; }
    out := [elem];
    var limit := if |items| > MAX_ITEMS then MAX_ITEMS else |items|;
    ghost var done := [];
    ItemsTextNone(items);
    for i := 0 to limit
      invariant done == ItemsText(items[..i]) && out == [elem] + done
    {
      ItemsTextUpTo(items, i);
      out := out + ([0x04] + IntText(items[i]));
      Associate(done, [0x04], IntText(items[i]));
      Associate([elem], done, [0x04] + IntText(items[i]));
      done := done + ([0x04] + IntText(items[i]));
    }
    assert items[..limit] == Shown(items);
    if |items| > MAX_ITEMS {
      out := out + ([0x04, 43] + IntText(|items| - MAX_ITEMS));
    }
  }

  lemma {:induction false} ItemsTextNone(items: seq<int>)
    ensures ItemsText(items[..0]) == []
  {
  }

  lemma {:induction false} WithHolesSnoc(es: seq<Elem>, e: Elem)
    ensures WithHoles(es + [e]) == WithHoles(es) + Text(ElemTokens(e))
  {
    hide Text, ElemTokens;
    var all := es + [e];
    AllTokensSplit(all, |es|);
    assert all[..|es|] == es && all[|es|..] == [e];
    assert AllTokens([e]) == ElemTokens(e) by {
      assert [e][1..] == [];
      assert ElemTokens(e) + [] == ElemTokens(e);
    }
    TextConcat(AllTokens(es), ElemTokens(e));
  }

  lemma {:induction false} EncodedUpTo(args: seq<Arg>, i: nat)
    requires i < |args|
    ensures Encoded(args[..i + 1]) == Encoded(args[..i]) + Text(ElemTokens(ArgElem(args[i])))
  {
    hide Text, ElemTokens, ArgElem, WithHoles;
    WithHolesSnoc(ArgElems(args[..i]), ArgElem(args[i]));
    assert ArgElems(args[..i + 1]) == ArgElems(args[..i]) + [ArgElem(args[i])];
  }

  // The body text an argument's value is written as, and the kind byte in front of it.
  lemma {:induction false} ArgElemText(a: Arg)
    ensures Text(ElemTokens(ArgElem(a))) == [ArgElem(a).sig, 0x01] + ArgBody(a) + [0x02]
  {
    hide Escaped, IntText, Narrowed, ArrayText, Text, ObjectText;
    ArgElemIsRecord(a);
    RecordText(ArgElem(a).sig, ArgElem(a).body);
    TextNothing();
    match a
    case Number(sig, raw) => PlainTokensText(IntText(Narrowed(sig, raw)));
    case Ref(None) =>
    case Ref(Some(o)) => ObjElemText(o);
    case Array(_, None) =>
    case Array(elem, Some(items)) => PlainTokensText(ArrayText(elem, items));
  }

  function ArgBody(a: Arg): Bytes {
    match a
    case Number(sig, raw) => IntText(Narrowed(sig, raw))
    case Ref(None) => []
    case Ref(Some(StringObj(text))) => Escaped(OrEmpty(text))
    case Ref(Some(ClassObj(name))) => Escaped(OrEmpty(name))
    case Ref(Some(OtherObj(name, text))) => ObjectText(OrEmpty(name), text)
    case Array(_, None) => []
    case Array(elem, Some(items)) => ArrayText(elem, items)
  }

  // One record appended; a string or a class has its kind byte rewritten after the fact.
  method AppendArg(buf: Bytes, a: Arg) returns (out: Bytes)
    ensures out == buf + Text(ElemTokens(ArgElem(a)))
  {
    hide Escaped, IntText, Narrowed, ItemsText, Text, ArrayText, ElemTokens;
    var kind: byte := match a
      case Number(sig, _) => sig
      case Ref(_) => 76
      case Array(_, _) => 91;
    out := buf + [kind, 0x01];
    match a {
      case Number(sig, raw) =>
        out := out + IntText(Narrowed(sig, raw));
      case Ref(None) =>
      case Ref(Some(o)) =>
        out := AppendObj(buf, out, o);
      case Array(_, None) =>
      case Array(elem, Some(items)) =>
        out := out + ArrayText(elem, items);
    }
    assert out == buf + ([ArgElem(a).sig, 0x01] + ArgBody(a));
    out := out + [0x02];
    ArgElemText(a);
  }

  method AppendObj(buf: Bytes, started: Bytes, o: Obj) returns (out: Bytes)
    requires started == buf + [76, 0x01]
    ensures out == buf + ([ObjElem(o).sig, 0x01] + ArgBody(Ref(Some(o))))
  {
    hide Escaped, ArrayText, IntText, EscapeTokens;
    EscapedNothing();
    out := started;
    match o {
      case StringObj(text) =>
        out := out[|out| - 2 := 115];
        if text.Some? { out := out + Escaped(text.value); }
      case ClassObj(name) =>
        out := out[|out| - 2 := 99];
        if name.Some? { out := out + Escaped(name.value); }
      case OtherObj(name, text) =>
        if name.Some? { out := out + Escaped(name.value); }
        if text.Some? { out := out + [0x03] + Escaped(text.value); }
    }
  }

  method EncodeTypedArgs(args: seq<Arg>) returns (buf: Bytes)
    ensures buf == Encoded(args)
  {
    hide Text, ArgElem, ElemTokens;
    buf := [];
    TextNothing();
    assert ArgElems(args[..0]) == [];
    for i := 0 to |args|
      invariant buf == Encoded(args[..i])
    {
      EncodedUpTo(args, i);
      buf := AppendArg(buf, args[i]);
    }
    assert args[..|args|] == args;
  }

  // A call that logs object arguments writes a placeholder per deferred object and the null record
  // for a null object or a refused push (slot -1).
  function SlotElem(slot: int): Elem {
    if slot < 0 then Record(112, PlainTokens(NULL_TEXT)) else Hole(slot)
  }

  function SlotElems(slots: seq<int>): (es: seq<Elem>)
    ensures |es| == |slots|
    ensures forall k :: 0 <= k < |es| ==> es[k] == SlotElem(slots[k])
  {
    seq(|slots|, k requires 0 <= k < |slots| => SlotElem(slots[k]))
  }

  lemma {:induction false} SlotElemText(slot: int)
    requires slot < 255
    ensures Text(ElemTokens(SlotElem(slot))) == if slot < 0 then NULL_CHUNK else [MARK, slot + 1]
  {
    if slot < 0 {
      RecordText(112, PlainTokens(NULL_TEXT));
      PlainTokensText(NULL_TEXT);
    } else {
      assert Text([Pair(MARK, slot + 1)]) == [MARK, slot + 1] + Text([]);
    }
  }

  lemma {:induction false} SlotsUpTo(slots: seq<int>, i: nat)
    requires i < |slots|
    ensures WithHoles(SlotElems(slots[..i + 1]))
            == WithHoles(SlotElems(slots[..i])) + Text(ElemTokens(SlotElem(slots[i])))
  {
    hide Text, ElemTokens, SlotElem, WithHoles;
    WithHolesSnoc(SlotElems(slots[..i]), SlotElem(slots[i]));
    assert SlotElems(slots[..i + 1]) == SlotElems(slots[..i]) + [SlotElem(slots[i])];
  }

  method ObjectArgsText(slots: seq<int>) returns (enc: Bytes)
    requires |slots| <= 2 && forall k :: 0 <= k < |slots| ==> -1 <= slots[k] < 8
    ensures enc == WithHoles(SlotElems(slots)) && |enc| < 64
  {
    hide Text, ElemTokens, SlotElem;
    enc := [];
    TextNothing();
    assert SlotElems(slots[..0]) == [];
    for i := 0 to |slots|
      invariant enc == WithHoles(SlotElems(slots[..i])) && |enc| <= 7 * i
    {
      SlotsUpTo(slots, i);
      SlotElemText(slots[i]);
      if slots[i] < 0 {
        enc := enc + NULL_CHUNK;
      } else if |enc| + 2 < 64 {
        enc := enc + [MARK];
        enc := enc + [slots[i] + 1];
      }
    }
    assert slots[..|slots|] == slots;
  }
}
