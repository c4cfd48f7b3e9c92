/** What an argument arrives as, by its Java type. */
module ArgTypes {
  import opened Bytes
  import opened Truncate
  import opened Numbers
  import opened Records
  import opened Escape
  import opened Chunks
  import opened Args
  import opened Wire

  // The descriptor character of a kind; '?' for the kind that has none.
  function TypeChar(k: Kind): char {
    match k
    case KBoolean => 'Z'
    case KByte => 'B'
    case KChar => 'C'
    case KShort => 'S'
    case KInt => 'I'
    case KLong => 'J'
    case KFloat => 'F'
    case KDouble => 'D'
    case KVoid => 'V'
    case KArray => '['
    case KObject => 'L'
    case KPointer => 'p'
    case KString => 's'
    case KClass => 'c'
    case KNull => '?'
  }

  lemma {:induction false} KindOfChar(k: Kind)
    requires !k.KNull?
    ensures KindOf(TypeChar(k) as int) == k
  {
  }

  /** Each kind is read from its own character, and no other character stands for a kind. */
  lemma {:induction false} KindsRead(c: byte)
    ensures || TypeChar(KindOf(c)) as int == c
            || (KindOf(c).KNull? && forall k: Kind :: !k.KNull? ==> TypeChar(k) as int != c)
  {
    forall k: Kind | !k.KNull? && TypeChar(k) as int == c ensures KindOf(c) == k { KindOfChar(k); }
    KindIsRead(c);
  }

  lemma {:induction false} KindIsRead(c: byte)
    ensures KindOf(c).KNull? || TypeChar(KindOf(c)) as int == c
  {
  }

  /** A record opened by the character of a kind decodes to a value of that kind; only an object record that
      says null is the null reference. */
  lemma {:induction false} RecordOfKind(k: Kind, raw: Bytes)
    requires !k.KNull? && 0x02 !in raw
    ensures var vs := Decoded([TypeChar(k) as int, 0x01] + raw + [0x02]);
            |vs| == 1 && if k.KObject? && raw == NULL_TEXT then vs[0] == NullValue else vs[0].kind == k
  {
    var rec := [TypeChar(k) as int, 0x01] + raw;
    assert 0x02 !in rec;
    KindOfChar(k);
    hide DecodeRecord, TypeChar, Decoded;
    DecodedCons(rec, []);
    DecodedNothing();
    DecodeFramed(TypeChar(k) as int, raw);
    KindBuilt(k, raw);
    assert rec + [0x02] + [] == rec + [0x02];
  }

  /** The null texts: what stands for a null object in a record of its own, in a chunk, and as a value. */
  lemma {:induction false} NullTexts()
    ensures NULL_TEXT == Ascii("null") && NULL_CHUNK == Ascii("p") + [1] + Ascii("null") + [2]
  {
  }

  lemma {:induction false} KindBuilt(k: Kind, raw: Bytes)
    ensures if k.KObject? && raw == NULL_TEXT then Build(k, raw) == NullValue else Build(k, raw).kind == k
  {
    hide IndexOf, Unescaped, Dotted, Split, ParseInt, BuildItems;
  }

  // The least number of an integral kind, and how many there are.
  function Lowest(k: Kind): int {
    match k
    case KByte => -128
    case KShort => -32768
    case KInt => -2147483648
    case KLong => -9223372036854775808
    case _ => 0
  }

  function Span(k: Kind): int {
    match k
    case KBoolean => 2
    case KByte => 256
    case KChar => 65536
    case KShort => 65536
    case KInt => 4294967296
    case _ => 18446744073709551616
  }

  // An integer of the type with this character.
  predicate IsOfType(v: Value, sig: byte) { Integral(v.kind) && TypeChar(v.kind) as int == sig }

  // What each argument should arrive as.
  ghost predicate ArrivesAs(v: Value, a: Arg) {
    match a
    case Number(sig, raw) =>
      // the one number in the range of the kind that agrees with the captured word in the low bits
      IsOfType(v, sig) && Agrees(v.num, raw, Lowest(v.kind), Span(v.kind))
    case Ref(None) => v.kind == KObject && v.str == [] && v.extra == []
    case Ref(Some(StringObj(text))) => v.kind == KString && v.str == OrEmpty(text)
    case Ref(Some(ClassObj(name))) => v.kind == KClass && DotsFor(v.str, OrEmpty(name))
    case Ref(Some(OtherObj(name, text))) =>
      v == NullValue || (v.kind == KObject && DotsFor(v.str, OrEmpty(name)) && v.extra == OrEmpty(text))
    case Array(elem, None) => v.kind == KArray && v.items == [] && v.num == 0
    case Array(elem, Some(items)) =>
      && v.kind == KArray && |v.items| == (if |items| > 16 then 16 else |items|)
      && v.num == (if |items| > 16 then |items| - 16 else 0)
      && forall k :: 0 <= k < |v.items| ==> IsOfType(v.items[k], elem) && v.items[k].num == items[k]
  }

  // r is s with a dot for each slash.
  predicate DotsFor(r: Bytes, s: Bytes) {
    |r| == |s| && forall k :: 0 <= k < |s| ==> r[k] == if s[k] == '/' as int then '.' as int else s[k]
  }

  lemma {:induction false} IntegerKind(sig: byte)
    requires IntegerSig(sig)
    ensures Integral(KindOf(sig)) && TypeChar(KindOf(sig)) as int == sig
  {
  }

  lemma {:induction false} NumberArrives(sig: byte, raw: nat)
    requires IntegerSig(sig) && raw <= MAX_U64
    ensures ArrivesAs(ArgValue(Number(sig, raw)), Number(sig, raw))
  {
    IntegerKind(sig);
    NarrowedIsTheValue(sig, raw, Narrowed(sig, raw));
    hide Narrowed, Agrees;
  }

  lemma {:induction false} ArgArrives(a: Arg)
    requires ValidArg(a)
    ensures ArrivesAs(ArgValue(a), a)
  {
    hide Narrowed, Agrees, ArrayText, KindOf, TypeChar;
    match a
    case Number(sig, raw) => NumberArrives(sig, raw);
    case Array(elem, Some(items)) => IntegerKind(elem);
    case _ =>
  }

  /** The decoded arguments are those of the call, one by one, each with the kind of its Java type and, for an
      integer, the number of that type's range that agrees with the captured word; of an array the first
      sixteen elements and the number of the others. */
  lemma {:induction false} ArgsByType(args: seq<Arg>)
    requires ValidArgs(args)
    ensures var vs := Decoded(Encoded(args));
            |vs| == |args| && forall k :: 0 <= k < |args| ==> ArrivesAs(vs[k], args[k])
  {
    hide Decoded, Encoded, ArgValue, ArrivesAs, ValidArg;
    DecodeInvertsEncode(args);
    ArgValuesAt(args);
    forall k | 0 <= k < |args| ensures ArrivesAs(ArgValue(args[k]), args[k]) { ArgArrives(args[k]); }
  }
}
