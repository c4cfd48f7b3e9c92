/** Decoding of the argument string: records split at 0x02, each a kind character, 0x01 and a value. */
module Records {
  import opened Bytes
  import opened Escape
  import opened Numbers

  datatype Kind =
    | KNull | KVoid | KBoolean | KByte | KChar | KShort | KInt | KLong | KFloat | KDouble
    | KString | KClass | KObject | KArray | KPointer

  // A decoded value. Floating-point values stay as the text they are parsed from.
  datatype Value = Value(kind: Kind, num: int, float: Bytes, str: Bytes, extra: Bytes, items: seq<Value>)

  function Blank(kind: Kind): Value { Value(kind, 0, [], [], [], []) }

  const NullValue := Blank(KNull)

  function KindOf(sig: byte): Kind {
    match sig
    case 90 => KBoolean  // Z
    case 66 => KByte     // B
    case 67 => KChar     // C
    case 83 => KShort    // S
    case 73 => KInt      // I
    case 74 => KLong     // J
    case 70 => KFloat    // F
    case 68 => KDouble   // D
    case 86 => KVoid     // V
    case 91 => KArray    // [
    case 76 => KObject   // L
    case 112 => KPointer // p
    case 115 => KString  // s
    case 99 => KClass    // c
    case _ => KNull
  }

  predicate Integral(k: Kind) { k.KBoolean? || k.KByte? || k.KChar? || k.KShort? || k.KInt? || k.KLong? }

  // '/' becomes '.'
  function Dotted(s: Bytes): (r: Bytes)
    ensures |r| == |s|
    ensures forall k :: 0 <= k < |s| ==> r[k] == if s[k] == 47 then 46 else s[k]
  {
    seq(|s|, k requires 0 <= k < |s| => if s[k] == 47 then 46 else s[k])
  }

  const NULL_TEXT: Bytes := [110, 117, 108, 108]

  function Split(s: Bytes, sep: byte): (r: seq<Bytes>)
    ensures |r| >= 1
    ensures forall p :: p in r ==> |p| <= |s| && sep !in p
    decreases |s|
  {
    var i := IndexOf(s, sep);
    if i < 0 then [s] else [s[..i]] + Split(s[i + 1..], sep)
  }

  lemma {:induction false} SplitCons(a: Bytes, sep: byte, rest: Bytes)
    requires sep !in a
    ensures Split(a + [sep] + rest, sep) == [a] + Split(rest, sep)
  {
    var s := a + [sep] + rest;
    IndexOfAppend(a, sep, rest);
    assert s[..|a|] == a && s[|a| + 1..] == rest;
  }

  lemma {:induction false} SplitNone(a: Bytes, sep: byte)
    requires sep !in a
    ensures Split(a, sep) == [a]
  {
  }

  function ObjectValue(raw: Bytes): Value {
    if raw == NULL_TEXT then NullValue
    else
      var i := IndexOf(raw, 0x03);
      if i >= 0 then
        Blank(KObject).(str := Dotted(Unescaped(raw[..i])), extra := Unescaped(raw[i + 1..]))
      else
        Blank(KObject).(str := Dotted(Unescaped(raw)))
  }

  function Build(kind: Kind, raw: Bytes): Value
    decreases |raw|, 0
  {
    if Integral(kind) then Blank(kind).(num := IntOrDefault(raw))
    else if kind == KFloat || kind == KDouble then Blank(kind).(float := raw)
    else if kind == KString then Blank(kind).(str := Unescaped(raw))
    else if kind == KClass then Blank(kind).(str := Dotted(Unescaped(raw)))
    else if kind == KObject then ObjectValue(raw)
    else if kind == KPointer then Blank(kind).(str := raw)
    else if kind == KArray then
      if |raw| > 2 && raw[1] == 0x04 then
        var (items, more) := BuildItems(KindOf(raw[0]), Split(raw[2..], 0x04), |raw| - 2);
        Blank(kind).(str := raw, items := items, num := more)
      else Blank(kind).(str := raw)
    else Blank(kind)
  }

  lemma {:induction false} BuildText(raw: Bytes)
    ensures Build(KString, raw) == Blank(KString).(str := Unescaped(raw))
    ensures Build(KClass, raw) == Blank(KClass).(str := Dotted(Unescaped(raw)))
    ensures Build(KObject, raw) == ObjectValue(raw)
  {
    hide IndexOf, Unescaped, Dotted, Split, ParseInt;
  }

  lemma {:induction false} BuildInteger(kind: Kind, raw: Bytes)
    requires Integral(kind)
    ensures Build(kind, raw) == Blank(kind).(num := IntOrDefault(raw))
  {
    hide IndexOf, Unescaped, Dotted, Split, ParseInt, BuildItems;
  }

  lemma {:induction false} BuildShortArray(raw: Bytes)
    requires |raw| <= 2
    ensures Build(KArray, raw) == Blank(KArray).(str := raw)
  {
    hide IndexOf, Unescaped, Dotted, Split, ParseInt, BuildItems;
  }

  // The items, and the count carried by a final "+N" part (0 without one).
  function BuildItems(kind: Kind, parts: seq<Bytes>, bound: nat): (seq<Value>, int)
    requires forall p :: p in parts ==> |p| <= bound
    decreases bound, |parts|, 1
  {
    if parts == [] then ([], 0)
    else if |parts| == 1 && parts[0] != [] && parts[0][0] == 43 && ParseInt(parts[0][1..]).Ok? then
      ([], ParseInt(parts[0][1..]).v)
    else
      var (items, more) := BuildItems(kind, parts[1..], bound);
      ([Build(kind, parts[0])] + items, more)
  }

  // No value for an empty record, nor for one without a single byte before its first 0x01.
  function DecodeRecord(rec: Bytes): (vs: seq<Value>)
    ensures |vs| <= 1
  {
    if rec == [] || IndexOf(rec, 0x01) != 1 then [] else [Build(KindOf(rec[0]), rec[2..])]
  }

  function DecodeAll(recs: seq<Bytes>): seq<Value> {
    if recs == [] then [] else DecodeRecord(recs[0]) + DecodeAll(recs[1..])
  }

  function Decoded(encoded: Bytes): seq<Value> {
    DecodeAll(Split(encoded, 0x02))
  }

  lemma {:induction false} DecodedCons(rec: Bytes, rest: Bytes)
    requires 0x02 !in rec
    ensures Decoded(rec + [0x02] + rest) == DecodeRecord(rec) + Decoded(rest)
  {
    SplitCons(rec, 0x02, rest);
  }

  lemma {:induction false} DecodedUnterminated(rec: Bytes)
    requires 0x02 !in rec
    ensures Decoded(rec) == DecodeRecord(rec)
  {
    SplitNone(rec, 0x02);
    assert DecodeAll([rec]) == DecodeRecord(rec) + DecodeAll([]);
  }

  /** A record that is empty, or does not have exactly one byte in front of its first 0x01, is skipped and
      disturbs no other record. */
  lemma {:induction false} MalformedSkipped(rec: Bytes, rest: Bytes)
    requires 0x02 !in rec && (|rec| < 2 || rec[0] == 0x01 || rec[1] != 0x01)
    ensures Decoded(rec + [0x02] + rest) == Decoded(rest)
  {
    DecodedCons(rec, rest);
    hide Decoded, Build;
    assert DecodeRecord(rec) == [] by {
      if |rec| >= 1 && rec[0] == 0x01 { assert rec[..1][0] == 0x01; }
    }
  }

  // The last part says how many items were left out.
  predicate SaysMore(parts: seq<Bytes>) {
    parts != [] && var last := parts[|parts| - 1]; last != [] && last[0] == '+' as int && ParseInt(last[1..]).Ok?
  }

  /** Every part of an array is an item, in order, a part such as +5 too; only the last part may instead say how
      many items were left out. */
  lemma {:induction false} ItemsExactly(kind: Kind, parts: seq<Bytes>, bound: nat)
    requires forall p :: p in parts ==> |p| <= bound
    ensures var (items, more) := BuildItems(kind, parts, bound);
            && |items| == |parts| - (if SaysMore(parts) then 1 else 0)
            && (forall k :: 0 <= k < |items| ==> items[k] == Build(kind, parts[k]))
            && more == if SaysMore(parts) then ParseInt(parts[|parts| - 1][1..]).v else 0
    decreases |parts|
  {
    hide Build, ParseInt;
    if parts != [] && !(|parts| == 1 && SaysMore(parts)) {
      ItemsExactly(kind, parts[1..], bound);
      assert |parts| > 1 ==> SaysMore(parts) == SaysMore(parts[1..]);
    }
  }

  lemma {:induction false} DecodeAllSnoc(recs: seq<Bytes>, rec: Bytes)
    ensures DecodeAll(recs + [rec]) == DecodeAll(recs) + DecodeRecord(rec)
  {
    hide DecodeRecord;
    if recs == [] {
      assert recs + [rec] == [rec];
      assert DecodeAll([rec]) == DecodeRecord(rec) + DecodeAll([]);
    } else {
      assert (recs + [rec])[1..] == recs[1..] + [rec];
      DecodeAllSnoc(recs[1..], rec);
      Associate(DecodeRecord(recs[0]), DecodeAll(recs[1..]), DecodeRecord(rec));
    }
  }

  lemma {:induction false} DecodeAllUpTo(recs: seq<Bytes>, i: nat)
    requires i < |recs|
    ensures DecodeAll(recs[..i + 1]) == DecodeAll(recs[..i]) + DecodeRecord(recs[i])
  {
    DecodeAllSnoc(recs[..i], recs[i]);
    assert recs[..i + 1] == recs[..i] + [recs[i]];
  }

  method DecodeArgs(encoded: Bytes) returns (out: seq<Value>)
    ensures out == Decoded(encoded)
  {
    if encoded == [] {
      DecodedUnterminated([]);
      return [];
    }
    var records := Split(encoded, 0x02);
    out := [];
    for i := 0 to |records|
      invariant out == DecodeAll(records[..i])
    {
      DecodeAllUpTo(records, i);
      var rec := records[i];
      if rec == [] { continue; }
      var sep := IndexOf(rec, 0x01);
      if sep != 1 { continue; }
      out := out + [Build(KindOf(rec[0]), rec[2..])];
    }
    assert records[..|records|] == records;
  }
}
