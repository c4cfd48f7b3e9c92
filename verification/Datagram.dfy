/** The binary datagram: built in a fixed buffer by the emit functions, taken apart by the consumer. */
module Datagram {
  import opened Bytes
  import opened Truncate

  const MAGIC := 0x4A4E_4945
  const HEADER_BYTES := 32
  const BUFFER_BYTES := 8192
  const STR_MAX := 512
  const METHODS_MAX := 2048
  const MAX_REFS := 8

  const CALL: byte := 1
  const RETURN: byte := 2
  const LOOKUP: byte := 3
  const OBJ_RETURN: byte := 4
  const FIELD_ACCESS: byte := 5
  const REGISTER_NATIVES: byte := 6

  datatype Event =
    | Call(callId: nat, offset: int, receiverKind: byte, mid: nat, jniName: Bytes, receiverStr: Bytes,
           receiverExtra: Bytes, className: Bytes, methodName: Bytes, args: Bytes, caller: Bytes)
    | Return(callId: nat, offset: int, retKind: byte, retRaw: nat, name: Bytes, retStr: Bytes, retExtra: Bytes)
    | Lookup(clazz: nat, lookupType: Bytes, name: Bytes, sig: Bytes, className: Bytes, caller: Bytes)
    | ObjReturn(callId: nat, offset: int, gref: nat, name: Bytes)
    | FieldAccess(offset: int, name: Bytes, receiverKind: byte, receiverStr: Bytes, receiverExtra: Bytes,
                  fieldName: Bytes, valueKind: byte, valueRaw: nat, valueStr: Bytes, valueExtra: Bytes, caller: Bytes)
    | RegisterNatives(clazz: nat, className: Bytes, methods: Bytes, caller: Bytes)

  datatype Header = Header(evType: byte, receiverKind: byte, retKind: byte, nstrings: byte,
                           offset: int, callId: nat, midOrRaw: nat)

  predicate U64(v: nat) { v < 0x1_0000_0000_0000_0000 }

  predicate I32(v: int) { -0x8000_0000 <= v < 0x8000_0000 }

  predicate ValidHeader(h: Header) { I32(h.offset) && U64(h.callId) && U64(h.midOrRaw) }

  function HeaderOf(e: Event): Header {
    match e
    case Call(id, off, rk, mid, _, _, _, _, _, _, _) => Header(CALL, rk, 0, 7, off, id, mid)
    case Return(id, off, k, raw, _, _, _) => Header(RETURN, 0, k, 3, off, id, raw)
    case Lookup(clazz, _, _, _, _, _) => Header(LOOKUP, 0, 0, 5, 0, 0, clazz)
    case ObjReturn(id, off, gref, _) => Header(OBJ_RETURN, 0, 0, 1, off, id, gref)
    case FieldAccess(off, _, rk, _, _, _, vk, raw, _, _, _) => Header(FIELD_ACCESS, rk, vk, 7, off, 0, raw)
    case RegisterNatives(clazz, _, _, _) => Header(REGISTER_NATIVES, 0, 0, 3, 0, 0, clazz)
  }

  function StringsOf(e: Event): seq<Bytes> {
    match e
    case Call(_, _, _, _, a, b, c, d, f, g, h) => [a, b, c, d, f, g, h]
    case Return(_, _, _, _, a, b, c) => [a, b, c]
    case Lookup(_, a, b, c, d, f) => [a, b, c, d, f]
    case ObjReturn(_, _, _, a) => [a]
    case FieldAccess(_, a, _, b, c, d, _, _, f, g, h) => [a, b, c, d, f, g, h]
    case RegisterNatives(_, a, b, c) => [a, b, c]
  }

  // Only the method list of RegisterNatives has a larger limit.
  function LimitOf(e: Event, k: nat): nat {
    if e.RegisterNatives? && k == 1 then METHODS_MAX else STR_MAX
  }

  predicate ValidEvent(e: Event) { ValidHeader(HeaderOf(e)) }

  predicate ValidRefs(refs: seq<nat>) {
    |refs| <= 8 && forall k :: 0 <= k < |refs| ==> U64(refs[k])
  }

  // ---------------------------------------------------------------------------------------------
  // The bytes of a datagram
  // ---------------------------------------------------------------------------------------------

  function Unsigned32(v: int): nat
    requires I32(v)
  {
    if v < 0 then v + 0x1_0000_0000 else v
  }

  function Signed32(v: nat): int {
    if v >= 0x8000_0000 then v - 0x1_0000_0000 else v
  }

  function HeaderBytes(h: Header): (s: Bytes)
    requires ValidHeader(h)
    ensures |s| == HEADER_BYTES
  {
    LittleEndian(MAGIC, 4) + [h.evType, h.receiverKind, h.retKind, h.nstrings]
    + LittleEndian(Unsigned32(h.offset), 4) + LittleEndian(0, 4)
    + LittleEndian(h.callId, 8) + LittleEndian(h.midOrRaw, 8)
  }

  function StringBytes(s: Bytes): Bytes { LittleEndian(|s|, 2) + s }

  function StringsBytes(strs: seq<Bytes>): Bytes {
    if strs == [] then [] else StringBytes(strs[0]) + StringsBytes(strs[1..])
  }

  function RefsBytes(refs: seq<nat>): (s: Bytes)
    ensures |s| == 8 * |refs|
  {
    if refs == [] then [] else LittleEndian(refs[0], 8) + RefsBytes(refs[1..])
  }

  // The strings of e from position k on, each cut to its limit.
  function CutStringsFrom(e: Event, k: nat): (strs: seq<Bytes>)
    requires k <= |StringsOf(e)|
    ensures |strs| == |StringsOf(e)| - k
    decreases |StringsOf(e)| - k
  {
    if k == |StringsOf(e)| then [] else [Cut(StringsOf(e)[k], LimitOf(e, k))] + CutStringsFrom(e, k + 1)
  }

  function CutStrings(e: Event): (strs: seq<Bytes>)
    ensures |strs| == |StringsOf(e)|
  {
    CutStringsFrom(e, 0)
  }

  function Datagram(e: Event, refs: seq<nat>): Bytes
    requires ValidEvent(e) && |refs| < 256
  {
    HeaderBytes(HeaderOf(e)) + StringsBytes(CutStrings(e)) + [|refs|] + RefsBytes(refs)
  }

  // The same event with its strings replaced.
  function WithStrings(e: Event, s: seq<Bytes>): Event
    requires |s| == |StringsOf(e)|
  {
    match e
    case Call(id, off, rk, mid, _, _, _, _, _, _, _) => Call(id, off, rk, mid, s[0], s[1], s[2], s[3], s[4], s[5], s[6])
    case Return(id, off, k, raw, _, _, _) => Return(id, off, k, raw, s[0], s[1], s[2])
    case Lookup(clazz, _, _, _, _, _) => Lookup(clazz, s[0], s[1], s[2], s[3], s[4])
    case ObjReturn(id, off, gref, _) => ObjReturn(id, off, gref, s[0])
    case FieldAccess(off, _, rk, _, _, _, vk, raw, _, _, _) =>
      FieldAccess(off, s[0], rk, s[1], s[2], s[3], vk, raw, s[4], s[5], s[6])
    case RegisterNatives(clazz, _, _, _) => RegisterNatives(clazz, s[0], s[1], s[2])
  }

  // ---------------------------------------------------------------------------------------------
  // Taking a datagram apart
  // ---------------------------------------------------------------------------------------------

  function FieldAt(data: Bytes, off: nat, n: nat): nat
    requires off + n <= |data|
  {
    FromLittleEndian(data[off..off + n])
  }

  function ReadHeader(data: Bytes): Header
    requires |data| >= HEADER_BYTES
  {
    Header(data[4], data[5], data[6], data[7], Signed32(FieldAt(data, 8, 4)), FieldAt(data, 16, 8),
           FieldAt(data, 24, 8))
  }

  datatype Strings = Strings(strs: seq<Bytes>, used: nat) | Malformed

  // n length-prefixed strings starting at pos.
  function ReadStrings(buf: Bytes, pos: nat, n: nat): (r: Strings)
    requires pos <= |buf|
    ensures r.Strings? ==> |r.strs| == n && pos <= r.used <= |buf|
    decreases n
  {
    if n == 0 then Strings([], pos)
    else if pos + 2 > |buf| then Malformed
    else
      var l := FieldAt(buf, pos, 2);
      if pos + 2 + l > |buf| then Malformed
      else
        match ReadStrings(buf, pos + 2 + l, n - 1)
        case Malformed => Malformed
        case Strings(rest, used) => Strings([buf[pos + 2..pos + 2 + l]] + rest, used)
  }

  function ReadRefs(data: Bytes, pos: nat, n: nat): (refs: seq<nat>)
    requires pos + 8 * n <= |data|
    ensures |refs| == n
    decreases n
  {
    if n == 0 then [] else [FieldAt(data, pos, 8)] + ReadRefs(data, pos + 8, n - 1)
  }

  // The refs of the sidecar that starts at pos, if it is there and complete.
  function ReadSidecar(data: Bytes, pos: nat): seq<nat> {
    if pos < |data| && pos + 1 + 8 * (data[pos] as int) <= |data| then ReadRefs(data, pos + 1, data[pos]) else []
  }

  datatype Received = Received(event: Event, refs: seq<nat>)

  // The event a header and its strings stand for; None when the type is unknown or the string
  // count is not the one the type demands.
  function EventOf(h: Header, s: seq<Bytes>): Option<Event> {
    if h.evType == CALL && |s| == 7 then
      Some(Call(h.callId, h.offset, h.receiverKind, h.midOrRaw, s[0], s[1], s[2], s[3], s[4], s[5], s[6]))
    else if h.evType == RETURN && |s| == 3 then
      Some(Return(h.callId, h.offset, h.retKind, h.midOrRaw, s[0], s[1], s[2]))
    else if h.evType == LOOKUP && |s| == 5 then Some(Lookup(h.midOrRaw, s[0], s[1], s[2], s[3], s[4]))
    else if h.evType == OBJ_RETURN && |s| == 1 then Some(ObjReturn(h.callId, h.offset, h.midOrRaw, s[0]))
    else if h.evType == FIELD_ACCESS && |s| == 7 then
      Some(FieldAccess(h.offset, s[0], h.receiverKind, s[1], s[2], s[3], h.retKind, h.midOrRaw, s[4], s[5], s[6]))
    else if h.evType == REGISTER_NATIVES && |s| == 3 then Some(RegisterNatives(h.midOrRaw, s[0], s[1], s[2]))
    else None
  }

  function Parse(data: Bytes): Option<Received> {
    if |data| < HEADER_BYTES || FieldAt(data, 0, 4) != MAGIC then None
    else
      var h := ReadHeader(data);
      match ReadStrings(data, HEADER_BYTES, h.nstrings)
      case Malformed => None
      case Strings(strs, used) =>
        match EventOf(h, strs)
        case None => None
        case Some(e) => Some(Received(e, ReadSidecar(data, used)))
  }

  // Strings already read in front of what the rest gives.
  function After(out: seq<Bytes>, rest: Strings): Strings {
    match rest
    case Malformed => Malformed
    case Strings(strs, used) => Strings(out + strs, used)
  }

  lemma {:induction false} ReadOne(out: seq<Bytes>, buf: Bytes, pos: nat, n: nat)
    requires pos <= |buf| && n > 0
    ensures After(out, ReadStrings(buf, pos, n)) ==
              if pos + 2 > |buf| then Malformed
              else
                var l := FieldAt(buf, pos, 2);
                if pos + 2 + l > |buf| then Malformed
                else After(out + [buf[pos + 2..pos + 2 + l]], ReadStrings(buf, pos + 2 + l, n - 1))
  {
    hide FieldAt;
    if pos + 2 <= |buf| {
      var l := FieldAt(buf, pos, 2);
      if pos + 2 + l <= |buf| {
        var rest := ReadStrings(buf, pos + 2 + l, n - 1);
        if rest.Strings? { Associate(out, [buf[pos + 2..pos + 2 + l]], rest.strs); }
      }
    }
  }

  lemma {:induction false} ReadNone(out: seq<Bytes>, buf: Bytes, pos: nat, rest: Strings)
    requires pos <= |buf|
    ensures After(out, ReadStrings(buf, pos, 0)) == Strings(out, pos) && After([], rest) == rest
  {
    if rest.Strings? { assert [] + rest.strs == rest.strs; }
  }

  method ParseStringsCount(buf: Bytes, n: nat) returns (out: seq<Bytes>, pos: nat, ok: bool)
    ensures ok <==> ReadStrings(buf, 0, n).Strings?
    ensures ok ==> ReadStrings(buf, 0, n) == Strings(out, pos)
  {
    hide ReadStrings, FieldAt, After;
    out, pos := [], 0;
    ReadNone([], buf, 0, ReadStrings(buf, 0, n));
    for i := 0 to n
      invariant pos <= |buf| && ReadStrings(buf, 0, n) == After(out, ReadStrings(buf, pos, n - i))
    {
      ReadOne(out, buf, pos, n - i);
      if pos + 2 > |buf| { return [], 0, false; }
      var l := FieldAt(buf, pos, 2);
      if pos + 2 + l > |buf| { return [], 0, false; }
      out := out + [buf[pos + 2..pos + 2 + l]];
      pos := pos + 2 + l;
    }
    ReadNone(out, buf, pos, Malformed);
    ok := true;
  }

  // ---------------------------------------------------------------------------------------------
  // Round trip
  // ---------------------------------------------------------------------------------------------

  lemma {:induction false} FieldOfConcat(a: Bytes, v: nat, n: nat, b: Bytes)
    requires v < Pow256(n)
    ensures FieldAt(a + LittleEndian(v, n) + b, |a|, n) == v
  {
    var s := a + LittleEndian(v, n) + b;
    assert s[|a|..|a| + n] == LittleEndian(v, n);
    LittleEndianRoundTrip(v, n);
  }

  lemma {:induction false} HeaderRoundTrip(h: Header, rest: Bytes)
    requires ValidHeader(h)
    ensures ReadHeader(HeaderBytes(h) + rest) == h
    ensures FieldAt(HeaderBytes(h) + rest, 0, 4) == MAGIC
  {
    hide LittleEndian, FromLittleEndian, FieldAt;
    Pow256Values();
    var m, k, o, z := LittleEndian(MAGIC, 4), [h.evType, h.receiverKind, h.retKind, h.nstrings],
                      LittleEndian(Unsigned32(h.offset), 4), LittleEndian(0, 4);
    var c, x := LittleEndian(h.callId, 8), LittleEndian(h.midOrRaw, 8);
    var data := HeaderBytes(h) + rest;
    FieldOfConcat([], MAGIC, 4, k + o + z + c + x + rest);
    assert data == [] + m + (k + o + z + c + x + rest);
    FieldOfConcat(m + k, Unsigned32(h.offset), 4, z + c + x + rest);
    assert data == (m + k) + o + (z + c + x + rest);
    FieldOfConcat(m + k + o + z, h.callId, 8, x + rest);
    assert data == (m + k + o + z) + c + (x + rest);
    FieldOfConcat(m + k + o + z + c, h.midOrRaw, 8, rest);
  }

  predicate ShortStrings(strs: seq<Bytes>) {
    forall k :: 0 <= k < |strs| ==> |strs[k]| < 0x1_0000
  }

  lemma {:induction false} StringsRoundTrip(pre: Bytes, strs: seq<Bytes>, rest: Bytes)
    requires ShortStrings(strs)
    ensures ReadStrings(pre + StringsBytes(strs) + rest, |pre|, |strs|)
            == Strings(strs, |pre| + |StringsBytes(strs)|)
    decreases |strs|
  {
    hide LittleEndian, FromLittleEndian, FieldAt, StringBytes;
    if strs != [] {
      var s := strs[0];
      var more := StringsBytes(strs[1..]) + rest;
      var data := pre + StringsBytes(strs) + rest;
      StringAtFront(pre, s, more);
      Associate(StringBytes(s), StringsBytes(strs[1..]), rest);
      Associate(pre, StringsBytes(strs), rest);
      Associate(pre, StringBytes(s), more);
      assert data == pre + StringBytes(s) + more;
      StringsRoundTrip(pre + StringBytes(s), strs[1..], rest);
      Associate(pre + StringBytes(s), StringsBytes(strs[1..]), rest);
    }
  }

  lemma {:induction false} StringAtFront(pre: Bytes, s: Bytes, more: Bytes)
    requires |s| < 0x1_0000
    ensures var data := pre + StringBytes(s) + more;
            FieldAt(data, |pre|, 2) == |s| && data[|pre| + 2..|pre| + 2 + |s|] == s
    ensures |StringBytes(s)| == 2 + |s|
  {
    hide LittleEndian, FromLittleEndian, FieldAt;
    Pow256Values();
    FieldOfConcat(pre, |s|, 2, s + more);
    assert pre + StringBytes(s) + more == pre + LittleEndian(|s|, 2) + (s + more);
  }

  lemma {:induction false} RefsRoundTrip(pre: Bytes, refs: seq<nat>)
    requires forall k :: 0 <= k < |refs| ==> U64(refs[k])
    ensures ReadRefs(pre + RefsBytes(refs), |pre|, |refs|) == refs
    decreases |refs|
  {
    hide LittleEndian, FromLittleEndian, FieldAt;
    if refs != [] {
      var more := RefsBytes(refs[1..]);
      var data := pre + RefsBytes(refs);
      Pow256Values();
      FieldOfConcat(pre, refs[0], 8, more);
      assert data == pre + LittleEndian(refs[0], 8) + more;
      RefsRoundTrip(pre + LittleEndian(refs[0], 8), refs[1..]);
    }
  }

  lemma {:induction false} CutStringsAreShort(e: Event, k: nat)
    requires k <= |StringsOf(e)|
    ensures ShortStrings(CutStringsFrom(e, k))
    ensures |StringsBytes(CutStringsFrom(e, k))|
            <= (|StringsOf(e)| - k) * (2 + STR_MAX) + if e.RegisterNatives? && k <= 1 then METHODS_MAX - STR_MAX else 0
    decreases |StringsOf(e)| - k
  {
    hide Cut;
    if k < |StringsOf(e)| { CutStringsAreShort(e, k + 1); }
  }

  lemma {:induction false} EventRoundTrip(e: Event, strs: seq<Bytes>)
    requires |strs| == |StringsOf(e)|
    ensures EventOf(HeaderOf(e), strs) == Some(WithStrings(e, strs))
  {
  }

  lemma {:induction false} SidecarRoundTrip(pre: Bytes, refs: seq<nat>)
    requires ValidRefs(refs)
    ensures ReadSidecar(pre + [|refs|] + RefsBytes(refs), |pre|) == refs
  {
    hide RefsBytes, ReadRefs;
    var data := pre + [|refs|] + RefsBytes(refs);
    RefsRoundTrip(pre + [|refs|], refs);
    assert data[|pre|] == |refs|;
  }

  // Header, strings and what follows, read one after the other.
  lemma {:induction false} PartsRoundTrip(h: Header, strs: seq<Bytes>, rest: Bytes)
    requires ValidHeader(h) && ShortStrings(strs) && h.nstrings == |strs|
    ensures var data := HeaderBytes(h) + StringsBytes(strs) + rest;
            && FieldAt(data, 0, 4) == MAGIC
            && ReadHeader(data) == h
            && ReadStrings(data, HEADER_BYTES, h.nstrings) == Strings(strs, HEADER_BYTES + |StringsBytes(strs)|)
  {
    hide HeaderBytes, StringsBytes, ReadStrings, ReadHeader, FieldAt;
    Associate(HeaderBytes(h), StringsBytes(strs), rest);
    HeaderRoundTrip(h, StringsBytes(strs) + rest);
    StringsRoundTrip(HeaderBytes(h), strs, rest);
  }

  /** Parsing an emitted datagram recovers the event, with each string cut to its limit, and the
      sidecar refs; the string count is the one the consumer demands for the type. */
  lemma {:induction false} DatagramRoundTrip(e: Event, refs: seq<nat>)
    requires ValidEvent(e) && ValidRefs(refs)
    ensures Parse(Datagram(e, refs)) == Some(Received(WithStrings(e, CutStrings(e)), refs))
  {
    hide HeaderBytes, StringsBytes, RefsBytes, CutStrings, CutStringsFrom, WithStrings, EventOf, HeaderOf, StringsOf,
         FieldAt, ReadHeader, ReadStrings, ReadSidecar;
    var h, strs := HeaderOf(e), CutStrings(e);
    var front := HeaderBytes(h) + StringsBytes(strs);
    CutStringsWhole(e);
    CutStringsAreShort(e, 0);
    NStringsMatch(e);
    Associate(front, [|refs|], RefsBytes(refs));
    PartsRoundTrip(h, strs, [|refs|] + RefsBytes(refs));
    SidecarRoundTrip(front, refs);
    EventRoundTrip(e, strs);
    assert |front| == HEADER_BYTES + |StringsBytes(strs)|;
  }

  lemma {:induction false} CutStringsWhole(e: Event)
    ensures CutStrings(e) == CutStringsFrom(e, 0)
  {
  }

  lemma {:induction false} NStringsMatch(e: Event)
    ensures HeaderOf(e).nstrings == |StringsOf(e)|
  {
  }

  /** No event fills the buffer, whatever its strings and however full the sidecar. */
  lemma {:induction false} DatagramFits(e: Event, refs: seq<nat>)
    requires ValidEvent(e) && ValidRefs(refs)
    ensures |Datagram(e, refs)| <= 32 + 7 * (2 + 512) + (1 + 8 * 8) <= 8192
  {
    hide HeaderBytes, RefsBytes, CutStringsFrom, StringsBytes;
    CutStringsAreShort(e, 0);
  }

  // ---------------------------------------------------------------------------------------------
  // Building a datagram in place
  // ---------------------------------------------------------------------------------------------

  method PutByte(buf: array<byte>, off: nat, b: byte)
    requires off < buf.Length
    modifies buf
    ensures buf[..off + 1] == old(buf[..off]) + [b]
  {
    buf[off] := b;
  }

  lemma {:induction false} LittleEndianStep(pre: Bytes, v: nat, n: nat)
    requires n > 0
    ensures pre + LittleEndian(v, n) == pre + [v % 256] + LittleEndian(v / 256, n - 1)
  {
    Associate(pre, [v % 256], LittleEndian(v / 256, n - 1));
  }

  lemma {:induction false} LittleEndianNone(pre: Bytes, v: nat)
    ensures pre + LittleEndian(v, 0) == pre
  {
  }

  method PutLittleEndian(buf: array<byte>, off: nat, v: nat, n: nat)
    requires off + n <= buf.Length
    modifies buf
    ensures buf[..off + n] == old(buf[..off]) + LittleEndian(v, n)
  {
    hide LittleEndian;
    var rest := v;
    ghost var front := buf[..off];
    for i := 0 to n
      invariant front + LittleEndian(v, n) == buf[..off + i] + LittleEndian(rest, n - i)
    {
      LittleEndianStep(buf[..off + i], rest, n - i);
      PutByte(buf, off + i, rest % 256);
      rest := rest / 256;
    }
    LittleEndianNone(buf[..off + n], rest);
  }

  method PutHeader(buf: array<byte>, h: Header) returns (pos: nat)
    requires buf.Length >= HEADER_BYTES && ValidHeader(h)
    modifies buf
    ensures pos == HEADER_BYTES && buf[..pos] == HeaderBytes(h)
  {
    hide LittleEndian;
    assert buf[..0] == [];
    PutLittleEndian(buf, 0, MAGIC, 4);
    PutByte(buf, 4, h.evType);
    PutByte(buf, 5, h.receiverKind);
    PutByte(buf, 6, h.retKind);
    PutByte(buf, 7, h.nstrings);
    PutLittleEndian(buf, 8, Unsigned32(h.offset), 4);
    PutLittleEndian(buf, 12, 0, 4);
    PutLittleEndian(buf, 16, h.callId, 8);
    PutLittleEndian(buf, 24, h.midOrRaw, 8);
    pos := HEADER_BYTES;
  }

  method AppendStrMax(buf: array<byte>, pos: nat, s: Bytes, max: nat) returns (ok: bool, end: nat)
    requires pos <= buf.Length && max < 0x1_0000
    modifies buf
    ensures ok <==> pos + 2 + |Cut(s, max)| <= buf.Length
    ensures ok ==> end == pos + 2 + |Cut(s, max)| && buf[..end] == old(buf[..pos]) + StringBytes(Cut(s, max))
    ensures !ok ==> end == pos
  {
    hide LittleEndian;
    var len := |s|;
    if len > max {
      len := SafeTruncLen(s, max);
    }
    assert s[..len] == Cut(s, max);
    if pos + 2 + len > buf.Length { return false, pos; }
    PutLittleEndian(buf, pos, len, 2);
    ghost var front := buf[..pos + 2];
    forall k | 0 <= k < len { buf[pos + 2 + k] := s[k]; }
    end := pos + 2 + len;
    assert buf[..end] == front + s[..len];
    Associate(old(buf[..pos]), LittleEndian(len, 2), s[..len]);
    ok := true;
  }

  lemma {:induction false} StringsBytesSnoc(strs: seq<Bytes>, s: Bytes)
    ensures StringsBytes(strs + [s]) == StringsBytes(strs) + StringBytes(s)
  {
    hide StringBytes;
    if strs == [] {
      assert [s][1..] == [];
      assert StringsBytes([s]) == StringBytes(s) + StringsBytes([]);
    } else {
      StringsBytesSnoc(strs[1..], s);
      assert (strs + [s])[1..] == strs[1..] + [s];
    }
  }

  lemma {:induction false} CutStringAt(e: Event, k: nat, i: nat)
    requires k <= i < |StringsOf(e)|
    ensures CutStringsFrom(e, k)[i - k] == Cut(StringsOf(e)[i], LimitOf(e, i))
    decreases i - k
  {
    hide Cut;
    if k < i { CutStringAt(e, k + 1, i); }
  }

  lemma {:induction false} StringsBytesGrow(strs: seq<Bytes>, i: nat)
    requires i < |strs|
    ensures StringsBytes(strs[..i + 1]) == StringsBytes(strs[..i]) + StringBytes(strs[i])
  {
    StringsBytesSnoc(strs[..i], strs[i]);
    assert strs[..i + 1] == strs[..i] + [strs[i]];
  }

  lemma {:induction false} StringsBytesPrefix(strs: seq<Bytes>, i: nat)
    requires i <= |strs|
    ensures |StringsBytes(strs[..i])| <= |StringsBytes(strs)|
    decreases |strs| - i
  {
    hide StringBytes;
    if i < |strs| {
      StringsBytesGrow(strs, i);
      StringsBytesPrefix(strs, i + 1);
    } else {
      assert strs[..i] == strs;
    }
  }

  method AppendStrings(buf: array<byte>, pos: nat, e: Event) returns (end: nat)
    requires buf.Length == BUFFER_BYTES && pos == HEADER_BYTES
    modifies buf
    ensures end == pos + |StringsBytes(CutStrings(e))| <= BUFFER_BYTES - (1 + 8 * MAX_REFS)
    ensures buf[..end] == old(buf[..pos]) + StringsBytes(CutStrings(e))
  {
    hide StringsBytes, StringBytes, Cut, CutStringsFrom;
    ghost var strs := CutStrings(e);
    CutStringsAreShort(e, 0);
    end := pos;
    StringsBytesNone(strs);
    for i := 0 to |StringsOf(e)|
      invariant end == pos + |StringsBytes(strs[..i])| <= BUFFER_BYTES
      invariant buf[..end] == old(buf[..pos]) + StringsBytes(strs[..i])
    {
      CutStringAt(e, 0, i);
      StringsBytesGrow(strs, i);
      StringsBytesPrefix(strs, i + 1);
      StringLength(strs[i]);
      ghost var at := end;
      var ok;
      ok, end := AppendStrMax(buf, end, StringsOf(e)[i], LimitOf(e, i));
      assert ok;
      Associate(old(buf[..pos]), StringsBytes(strs[..i]), StringBytes(strs[i]));
    }
    assert strs[..|StringsOf(e)|] == strs;
  }

  lemma {:induction false} StringLength(s: Bytes)
    ensures |StringBytes(s)| == 2 + |s|
  {
  }

  lemma {:induction false} StringsBytesNone(strs: seq<Bytes>)
    ensures StringsBytes(strs[..0]) == []
  {
  }

  lemma {:induction false} RefsBytesGrow(refs: seq<nat>, i: nat)
    requires i < |refs|
    ensures RefsBytes(refs[..i + 1]) == RefsBytes(refs[..i]) + LittleEndian(refs[i], 8)
  {
    hide LittleEndian;
    if i == 0 {
      assert refs[..1][1..] == [];
      assert RefsBytes(refs[..1]) == LittleEndian(refs[0], 8) + RefsBytes([]);
    } else {
      RefsBytesGrow(refs[1..], i - 1);
      assert refs[..i + 1][1..] == refs[1..][..i] && refs[..i][1..] == refs[1..][..i - 1];
      Associate(LittleEndian(refs[0], 8), RefsBytes(refs[1..][..i - 1]), LittleEndian(refs[i], 8));
    }
  }

  // The sidecar behind the strings; 0 when it does not fit.
  method AppendRenderRefs(buf: array<byte>, pos: nat, refs: seq<nat>) returns (end: nat)
    requires pos <= buf.Length && ValidRefs(refs)
    modifies buf
    ensures end != 0 <==> pos + 1 + 8 * |refs| <= buf.Length
    ensures end != 0 ==> end == pos + 1 + 8 * |refs|
                         && buf[..end] == old(buf[..pos]) + ([|refs|] + RefsBytes(refs))
  {
    hide RefsBytes, LittleEndian;
    if pos + 1 + |refs| * 8 > buf.Length { return 0; }
    PutByte(buf, pos, |refs|);
    end := pos + 1;
    ghost var front := buf[..end];
    RefsBytesNone(refs);
    for i := 0 to |refs|
      invariant end == pos + 1 + 8 * i
      invariant buf[..end] == front + RefsBytes(refs[..i])
    {
      RefsBytesGrow(refs, i);
      PutLittleEndian(buf, end, refs[i], 8);
      end := end + 8;
      Associate(front, RefsBytes(refs[..i]), LittleEndian(refs[i], 8));
    }
    assert refs[..|refs|] == refs;
    Associate(old(buf[..pos]), [|refs|], RefsBytes(refs));
  }

  lemma {:induction false} RefsBytesNone(refs: seq<nat>)
    ensures RefsBytes(refs[..0]) == []
  {
  }

  /** Every emit: header, strings and sidecar into one stack buffer. None of its overflow exits is
      ever taken. */
  method Emit(e: Event, refs: seq<nat>) returns (sent: Bytes)
    requires ValidEvent(e) && ValidRefs(refs)
    ensures sent == Datagram(e, refs)
  {
    hide HeaderBytes, StringsBytes, RefsBytes, CutStrings;
    var buf := new byte[BUFFER_BYTES];
    var pos := PutHeader(buf, HeaderOf(e));
    pos := AppendStrings(buf, pos, e);
    pos := AppendRenderRefs(buf, pos, refs);
    assert pos != 0;
    sent := buf[..pos];
    Associate(HeaderBytes(HeaderOf(e)) + StringsBytes(CutStrings(e)), [|refs|], RefsBytes(refs));
  }
}
