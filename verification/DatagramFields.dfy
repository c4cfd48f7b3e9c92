/** The datagram field by field: which bytes carry which field of an event, and what each field arrives as. */
module DatagramFields {
  import opened Bytes
  import opened Truncate
  import opened Datagram

  // The event with each text cut to what its field can carry: 512 bytes, for the method list 2048.
  function Kept(e: Event): Event {
    match e
    case Call(_, _, _, _, _, _, _, _, _, _, _) =>
      Call(e.callId, e.offset, e.receiverKind, e.mid, Cut(e.jniName, 512), Cut(e.receiverStr, 512),
           Cut(e.receiverExtra, 512), Cut(e.className, 512), Cut(e.methodName, 512), Cut(e.args, 512),
           Cut(e.caller, 512))
    case Return(_, _, _, _, _, _, _) =>
      Return(e.callId, e.offset, e.retKind, e.retRaw, Cut(e.name, 512), Cut(e.retStr, 512), Cut(e.retExtra, 512))
    case Lookup(_, _, _, _, _, _) =>
      Lookup(e.clazz, Cut(e.lookupType, 512), Cut(e.name, 512), Cut(e.sig, 512), Cut(e.className, 512),
             Cut(e.caller, 512))
    case ObjReturn(_, _, _, _) => ObjReturn(e.callId, e.offset, e.gref, Cut(e.name, 512))
    case FieldAccess(_, _, _, _, _, _, _, _, _, _, _) =>
      FieldAccess(e.offset, Cut(e.name, 512), e.receiverKind, Cut(e.receiverStr, 512), Cut(e.receiverExtra, 512),
                  Cut(e.fieldName, 512), e.valueKind, e.valueRaw, Cut(e.valueStr, 512), Cut(e.valueExtra, 512),
                  Cut(e.caller, 512))
    case RegisterNatives(_, _, _, _) =>
      RegisterNatives(e.clazz, Cut(e.className, 512), Cut(e.methods, 2048), Cut(e.caller, 512))
  }

  lemma {:induction false} KeptIs(e: Event)
    ensures WithStrings(e, CutStrings(e)) == Kept(e)
  {
    hide Cut, CutStringsFrom;
    forall i | 0 <= i < |StringsOf(e)|
      ensures CutStrings(e)[i] == Cut(StringsOf(e)[i], LimitOf(e, i))
    {
      CutStringAt(e, 0, i);
    }
  }

  /** Every field of an event arrives as itself: numbers unchanged, each text cut to the limit of its field. */
  lemma {:induction false} FieldsArrive(e: Event, refs: seq<nat>)
    requires ValidEvent(e) && ValidRefs(refs)
    ensures Parse(Datagram.Datagram(e, refs)) == Some(Received(Kept(e), refs))
  {
    hide Parse, Datagram.Datagram, WithStrings, Kept, CutStrings;
    DatagramRoundTrip(e, refs);
    KeptIs(e);
  }

  predicate Short(s: Bytes) { |s| <= 512 }

  // No text is longer than its field can carry.
  predicate AllShort(e: Event) {
    match e
    case Call(_, _, _, _, jniName, receiverStr, receiverExtra, className, methodName, args, caller) =>
      && Short(jniName) && Short(receiverStr) && Short(receiverExtra) && Short(className) && Short(methodName)
      && Short(args) && Short(caller)
    case Return(_, _, _, _, name, retStr, retExtra) => Short(name) && Short(retStr) && Short(retExtra)
    case Lookup(_, lookupType, name, sig, className, caller) =>
      Short(lookupType) && Short(name) && Short(sig) && Short(className) && Short(caller)
    case ObjReturn(_, _, _, name) => Short(name)
    case FieldAccess(_, name, _, receiverStr, receiverExtra, fieldName, _, _, valueStr, valueExtra, caller) =>
      && Short(name) && Short(receiverStr) && Short(receiverExtra) && Short(fieldName) && Short(valueStr)
      && Short(valueExtra) && Short(caller)
    case RegisterNatives(_, className, methods, caller) => Short(className) && |methods| <= 2048 && Short(caller)
  }

  lemma {:induction false} ShortIsKept(e: Event)
    requires AllShort(e)
    ensures Kept(e) == e
  {
    hide TruncLen;
  }

  /** An event whose texts fit arrives unchanged, with its references. */
  lemma {:induction false} FittingArrives(e: Event, refs: seq<nat>)
    requires ValidEvent(e) && ValidRefs(refs) && AllShort(e)
    ensures Parse(Datagram.Datagram(e, refs)) == Some(Received(e, refs))
  {
    hide Parse, Datagram.Datagram, Kept;
    FieldsArrive(e, refs);
    ShortIsKept(e);
  }

  // ---------------------------------------------------------------------------------------------
  // The bytes
  // ---------------------------------------------------------------------------------------------

  // The 32 bytes in front: mark, type, two kinds, number of texts, offset, four unused bytes, two words.
  function Front(evType: byte, receiverKind: byte, retKind: byte, texts: byte, offset: int, id: nat, word: nat): Bytes
    requires I32(offset)
  {
    [0x45, 0x49, 0x4E, 0x4A, evType, receiverKind, retKind, texts]
    + LittleEndian(if offset < 0 then offset + 0x1_0000_0000 else offset, 4) + [0, 0, 0, 0]
    + LittleEndian(id, 8) + LittleEndian(word, 8)
  }

  // A text of at most max bytes behind its two-byte length.
  function Field(s: Bytes, max: nat): Bytes { LittleEndian(|Cut(s, max)|, 2) + Cut(s, max) }

  function Fields(texts: seq<Bytes>): Bytes {
    if texts == [] then [] else Field(texts[0], 512) + Fields(texts[1..])
  }

  // The bytes of an event in front of its references.
  function BodyOf(e: Event): Bytes
    requires ValidEvent(e)
  {
    match e
    case Call(callId, offset, receiverKind, mid, _, _, _, _, _, _, _) =>
      Front(1, receiverKind, 0, 7, offset, callId, mid)
      + Fields([e.jniName, e.receiverStr, e.receiverExtra, e.className, e.methodName, e.args, e.caller])
    case Return(callId, offset, retKind, retRaw, _, _, _) =>
      Front(2, 0, retKind, 3, offset, callId, retRaw) + Fields([e.name, e.retStr, e.retExtra])
    case Lookup(clazz, _, _, _, _, _) =>
      Front(3, 0, 0, 5, 0, 0, clazz) + Fields([e.lookupType, e.name, e.sig, e.className, e.caller])
    case ObjReturn(callId, offset, gref, _) => Front(4, 0, 0, 1, offset, callId, gref) + Fields([e.name])
    case FieldAccess(offset, _, receiverKind, _, _, _, valueKind, valueRaw, _, _, _) =>
      Front(5, receiverKind, valueKind, 7, offset, 0, valueRaw)
      + Fields([e.name, e.receiverStr, e.receiverExtra, e.fieldName, e.valueStr, e.valueExtra, e.caller])
    case RegisterNatives(clazz, _, _, _) =>
      Front(6, 0, 0, 3, 0, 0, clazz) + (Field(e.className, 512) + Field(e.methods, 2048) + Field(e.caller, 512))
  }

  lemma {:induction false} MagicBytes()
    ensures LittleEndian(0x4A4E_4945, 4) == [0x45, 0x49, 0x4E, 0x4A] && LittleEndian(0, 4) == [0, 0, 0, 0]
  {
    assert LittleEndian(0x4A4E, 2) == [0x4E, 0x4A];
    assert LittleEndian(0, 2) == [0, 0];
  }

  lemma {:induction false} FrontIs(h: Header)
    requires ValidHeader(h)
    ensures HeaderBytes(h) == Front(h.evType, h.receiverKind, h.retKind, h.nstrings, h.offset, h.callId, h.midOrRaw)
  {
    MagicBytes();
    hide LittleEndian;
    assert [0x45, 0x49, 0x4E, 0x4A] + [h.evType, h.receiverKind, h.retKind, h.nstrings]
        == [0x45, 0x49, 0x4E, 0x4A, h.evType, h.receiverKind, h.retKind, h.nstrings];
  }

  // Events but RegisterNatives have 512 bytes for every text.
  lemma {:induction false} FieldsAre(e: Event, k: nat)
    requires !e.RegisterNatives? && k <= |StringsOf(e)|
    ensures StringsBytes(CutStringsFrom(e, k)) == Fields(StringsOf(e)[k..])
    decreases |StringsOf(e)| - k
  {
    hide Cut, LittleEndian;
    if k < |StringsOf(e)| {
      FieldsAre(e, k + 1);
      assert StringsOf(e)[k..][1..] == StringsOf(e)[k + 1..];
      assert CutStringsFrom(e, k)[1..] == CutStringsFrom(e, k + 1);
    }
  }

  lemma {:induction false} MethodFieldsAre(e: Event)
    requires e.RegisterNatives?
    ensures StringsBytes(CutStrings(e)) == Field(e.className, 512) + Field(e.methods, 2048) + Field(e.caller, 512)
  {
    hide Cut, LittleEndian, CutStringsFrom;
    CutStringAt(e, 0, 0);
    CutStringAt(e, 0, 1);
    CutStringAt(e, 0, 2);
    ThreeStrings(CutStrings(e));
    Associate(Field(e.className, 512), Field(e.methods, 2048), Field(e.caller, 512));
  }

  lemma {:induction false} ThreeStrings(s: seq<Bytes>)
    requires |s| == 3
    ensures StringsBytes(s) == StringBytes(s[0]) + (StringBytes(s[1]) + StringBytes(s[2]))
  {
    hide StringBytes;
    assert s[1..][1..] == s[2..] && s[2..][1..] == [];
    assert StringsBytes(s[2..]) == StringBytes(s[2]) + [];
    assert StringsBytes(s[1..]) == StringBytes(s[1]) + StringsBytes(s[2..]);
  }

  /** Which bytes carry which field: the fixed front, the texts in their order, then the number of references
      and the references. */
  lemma {:induction false} BytesOfEvent(e: Event, refs: seq<nat>)
    requires ValidEvent(e) && ValidRefs(refs)
    ensures Datagram.Datagram(e, refs) == BodyOf(e) + [|refs|] + RefsBytes(refs)
  {
    hide Front, Field, Fields, StringsBytes, HeaderBytes, CutStringsFrom, RefsBytes;
    FrontIs(HeaderOf(e));
    if e.RegisterNatives? {
      MethodFieldsAre(e);
    } else {
      FieldsAre(e, 0);
      assert StringsOf(e)[0..] == StringsOf(e);
    }
  }

  /** The references lie behind their number, eight bytes each, least significant first. */
  lemma {:induction false} RefAt(refs: seq<nat>, k: nat)
    requires k < |refs| && ValidRefs(refs)
    ensures RefsBytes(refs)[8 * k..8 * k + 8] == LittleEndian(refs[k], 8)
  {
    hide LittleEndian;
    if k > 0 {
      assert ValidRefs(refs[1..]);
      RefAt(refs[1..], k - 1);
      assert RefsBytes(refs)[8 * k..8 * k + 8] == RefsBytes(refs[1..])[8 * (k - 1)..8 * (k - 1) + 8];
    }
  }

  // ---------------------------------------------------------------------------------------------
  // What the consumer accepts
  // ---------------------------------------------------------------------------------------------

  // An event type and the number of texts it comes with.
  predicate KnownType(evType: byte, texts: nat) {
    match evType
    case 1 => texts == 7
    case 2 => texts == 3
    case 3 => texts == 5
    case 4 => texts == 1
    case 5 => texts == 7
    case 6 => texts == 3
    case _ => false
  }

  lemma {:induction false} MagicIs(s: Bytes)
    requires |s| == 4
    ensures FromLittleEndian(s) == 0x4A4E_4945 <==> s == [0x45, 0x49, 0x4E, 0x4A]
  {
    assert FromLittleEndian(s[1..]) == s[1] + 256 * FromLittleEndian(s[2..]) by { assert s[1..][1..] == s[2..]; }
    assert FromLittleEndian(s[2..]) == s[2] + 256 * FromLittleEndian(s[3..]) by { assert s[2..][1..] == s[3..]; }
    assert FromLittleEndian(s[3..]) == s[3] by { assert s[3..][1..] == []; }
    assert s == [s[0], s[1], s[2], s[3]];
  }

  // The bytes between pos and used are the texts read there, each behind its length.
  lemma {:induction false} TextsInPlace(buf: Bytes, pos: nat, n: nat)
    requires pos <= |buf| && ReadStrings(buf, pos, n).Strings?
    ensures var r := ReadStrings(buf, pos, n); pos <= r.used && buf[pos..r.used] == StringsBytes(r.strs)
    decreases n
  {
    if n == 0 {
      assert buf[pos..pos] == [];
    } else {
      ReadStep(buf, pos, n);
      var l := FieldAt(buf, pos, 2);
      var rest := ReadStrings(buf, pos + 2 + l, n - 1);
      TextsInPlace(buf, pos + 2 + l, n - 1);
      hide *;
      TextInPlace(buf, pos, rest.strs, rest.used);
    }
  }

  lemma {:induction false} ReadStep(buf: Bytes, pos: nat, n: nat)
    requires pos <= |buf| && n > 0 && ReadStrings(buf, pos, n).Strings?
    ensures pos + 2 <= |buf| && pos + 2 + FieldAt(buf, pos, 2) <= |buf|
    ensures var end := pos + 2 + FieldAt(buf, pos, 2);
            var rest := ReadStrings(buf, end, n - 1);
            rest.Strings? && ReadStrings(buf, pos, n) == Strings([buf[pos + 2..end]] + rest.strs, rest.used)
  {
    hide FieldAt;
  }

  lemma {:induction false} TextInPlace(buf: Bytes, pos: nat, strs: seq<Bytes>, used: nat)
    requires pos + 2 <= |buf| && pos + 2 + FieldAt(buf, pos, 2) <= used <= |buf|
    requires buf[pos + 2 + FieldAt(buf, pos, 2)..used] == StringsBytes(strs)
    ensures buf[pos..used] == StringsBytes([buf[pos + 2..pos + 2 + FieldAt(buf, pos, 2)]] + strs)
  {
    var end := pos + 2 + FieldAt(buf, pos, 2);
    var s := buf[pos + 2..end];
    TwoBytes(buf[pos..pos + 2]);
    StringsCons(s, strs);
    hide StringsBytes, LittleEndian, FromLittleEndian;
    InThree(buf, pos, pos + 2, end, used);
  }

  lemma {:induction false} StringsCons(s: Bytes, strs: seq<Bytes>)
    ensures StringsBytes([s] + strs) == StringBytes(s) + StringsBytes(strs)
  {
    hide StringBytes;
    assert ([s] + strs)[1..] == strs;
  }

  lemma {:induction false} InThree(s: Bytes, a: nat, b: nat, c: nat, d: nat)
    requires a <= b <= c <= d <= |s|
    ensures s[a..d] == s[a..b] + s[b..c] + s[c..d]
  {
  }

  lemma {:induction false} TwoBytes(s: Bytes)
    requires |s| == 2
    ensures LittleEndian(FromLittleEndian(s), 2) == s
  {
    var v := FromLittleEndian(s);
    assert FromLittleEndian(s[1..]) == s[1] by { assert s[1..][1..] == []; }
    assert v == s[0] as int + 256 * (s[1] as int);
    assert LittleEndian(v / 256, 1) == [s[1]];
    assert s == [s[0], s[1]];
  }

  /** What is accepted: a datagram is taken for an event if and only if it has the 32 bytes in front, starts
      with the mark, has a known type with the number of texts that goes with it, and holds that many texts. */
  lemma {:induction false} AcceptedExactly(data: Bytes)
    ensures Parse(data).Some? <==>
            && |data| >= 32 && data[..4] == [0x45, 0x49, 0x4E, 0x4A] && KnownType(data[4], data[7])
            && ReadStrings(data, 32, data[7]).Strings?
  {
    hide ReadStrings, FromLittleEndian, ReadSidecar, Signed32;
    if |data| >= 32 {
      MagicIs(data[0..4]);
      assert data[0..4] == data[..4];
    }
  }

  /** Nothing is made up: the texts of an accepted event stand in the datagram behind the front, in order, and
      what follows them is the references, or no references are taken. */
  lemma {:induction false} AcceptedTexts(data: Bytes) returns (rest: Bytes)
    requires Parse(data).Some?
    ensures |data| >= 32
    ensures var r := Parse(data).value;
            && data == data[..32] + StringsBytes(StringsOf(r.event)) + rest
            && |r.refs| == if rest != [] && |rest| >= 1 + 8 * (rest[0] as int) then rest[0] as int else 0
  {
    hide FromLittleEndian, StringsBytes, ReadRefs;
    var h := ReadHeader(data);
    var read := ReadStrings(data, HEADER_BYTES, h.nstrings);
    rest := data[read.used..];
    TextsInPlace(data, HEADER_BYTES, h.nstrings);
    EventTexts(h, read.strs);
    hide ReadStrings, ReadHeader, EventOf, StringsOf;
    InThree(data, 0, 32, read.used, |data|);
    assert data == data[0..|data|] && data[..32] == data[0..32] && rest == data[read.used..|data|];
  }

  lemma {:induction false} EventTexts(h: Header, strs: seq<Bytes>)
    requires EventOf(h, strs).Some?
    ensures StringsOf(EventOf(h, strs).value) == strs
  {
  }
}
