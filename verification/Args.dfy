/** Encoding of a call's arguments on the hook side against their decoding on the consumer side:
    inline, through placeholders, and after the field was cut to its size limit. */
module Args {
  import opened Bytes
  import opened Escape
  import opened Truncate
  import opened Numbers
  import opened Records
  import opened Chunks

  // What introspection reports about an object; None where the call came back empty-handed.
  datatype Obj =
    | StringObj(text: Option<Bytes>)
    | ClassObj(name: Option<Bytes>)
    | OtherObj(name: Option<Bytes>, text: Option<Bytes>)

  datatype Arg =
    | Number(sig: byte, raw: nat)                       // Z B C S I J with the 64 bits captured
    | Ref(obj: Option<Obj>)                             // L; None is the null reference
    | Array(elem: byte, elements: Option<seq<int>>)     // [ of integers or booleans; None is null

  const MAX_ITEMS := 16

  predicate IntegerSig(sig: byte) { sig in {90, 66, 67, 83, 73, 74} }

  predicate AllI64(items: seq<int>) {
    forall k :: 0 <= k < |items| ==> MIN_I64 <= items[k] <= MAX_I64
  }

  predicate ValidArg(a: Arg) {
    match a
    case Number(sig, raw) => IntegerSig(sig) && raw <= MAX_U64
    case Ref(_) => true
    case Array(elem, elements) =>
      IntegerSig(elem) && (elements.Some? ==>
        |elements.value| <= 0x7FFF_FFFF && AllI64(elements.value))
  }

  function Signed(raw: nat, modulus: nat): int
    requires modulus > 0
  {
    if raw % modulus >= modulus / 2 then raw % modulus - modulus else raw % modulus
  }

  // The number the captured bits stand for under a descriptor.
  function Narrowed(sig: byte, raw: nat): int {
    match sig
    case 90 => raw % 2
    case 66 => Signed(raw, 0x100)
    case 67 => raw % 0x1_0000
    case 83 => Signed(raw, 0x1_0000)
    case 73 => Signed(raw, 0x1_0000_0000)
    case _ => Signed(raw, 0x1_0000_0000_0000_0000)
  }

  function Times(k: int, m: int): int { k * m }

  // Among the m numbers from lo on, v is the one that differs from raw by a multiple of m.
  ghost predicate Agrees(v: int, raw: int, lo: int, m: int) {
    lo <= v < lo + m && exists k :: Times(k, m) == v - raw
  }

  lemma {:induction false} AtLeastOnce(k: nat, m: nat)
    requires k > 0
    ensures Times(k, m) >= m
  {
    if k > 1 {
      AtLeastOnce(k - 1, m);
      assert Times(k, m) == Times(k - 1, m) + m;
    }
  }

  lemma {:induction false} TimesApart(d: int, k: int, m: int)
    ensures Times(d, m) - Times(k, m) == Times(d - k, m)
  {
  }

  lemma {:induction false} OneAgrees(v: int, r: int, raw: int, lo: int, m: int, k: int)
    requires m > 0 && Times(k, m) == r - raw && lo <= r < lo + m
    ensures Agrees(v, raw, lo, m) <==> v == r
  {
    hide Times;
    if Agrees(v, raw, lo, m) {
      var d :| Times(d, m) == v - raw;
      TimesApart(d, k, m);
      TimesApart(k, d, m);
      if d > k { AtLeastOnce(d - k, m); }
      if d < k { AtLeastOnce(k - d, m); }
    }
  }

  lemma {:induction false} UnsignedAgrees(raw: nat, m: nat, v: int)
    requires m > 0
    ensures v == raw % m <==> Agrees(v, raw, 0, m)
  {
    assert Times(-(raw / m), m) == raw % m - raw;
    OneAgrees(v, raw % m, raw, 0, m, -(raw / m));
  }

  lemma {:induction false} SignedAgrees(raw: nat, half: int, v: int)
    requires half > 0
    ensures v == Signed(raw, 2 * half) <==> Agrees(v, raw, -half, 2 * half)
  {
    var m, q := 2 * half, raw / (2 * half);
    var k := if raw % m >= half then -q - 1 else -q;
    assert raw == q * m + raw % m;
    assert (-q - 1) * m == -(q * m) - m && (-q) * m == -(q * m);
    OneAgrees(v, Signed(raw, m), raw, -half, m, k);
  }

  /** The number sent for a captured word is the one number in the range of the Java type that agrees
      with the word modulo the width of that type. */
  lemma {:induction false} NarrowedIsTheValue(sig: byte, raw: nat, v: int)
    requires IntegerSig(sig) && raw <= MAX_U64
    ensures v == Narrowed(sig, raw) <==>
            match sig
            case 90 => Agrees(v, raw, 0, 2)
            case 66 => Agrees(v, raw, -0x80, 0x100)
            case 67 => Agrees(v, raw, 0, 0x1_0000)
            case 83 => Agrees(v, raw, -0x8000, 0x1_0000)
            case 73 => Agrees(v, raw, -0x8000_0000, 0x1_0000_0000)
            case _ => Agrees(v, raw, MIN_I64, 0x1_0000_0000_0000_0000)
  {
    hide Agrees, Signed;
    match sig
    case 90 => UnsignedAgrees(raw, 2, v);
    case 66 => SignedAgrees(raw, 0x80, v);
    case 67 => UnsignedAgrees(raw, 0x1_0000, v);
    case 83 => SignedAgrees(raw, 0x8000, v);
    case 73 => SignedAgrees(raw, 0x8000_0000, v);
    case _ => SignedAgrees(raw, 0x8000_0000_0000_0000, v);
  }

  function OrEmpty(s: Option<Bytes>): Bytes {
    match s
    case None => []
    case Some(t) => t
  }

  function PlainTokens(s: Bytes): (ts: seq<Token>)
    ensures |ts| == |s|
    ensures forall k :: 0 <= k < |s| ==> ts[k] == Plain(s[k])
  {
    seq(|s|, k requires 0 <= k < |s| => Plain(s[k]))
  }

  lemma {:induction false} PlainTokensText(s: Bytes)
    ensures Text(PlainTokens(s)) == s
  {
    if s != [] {
      PlainTokensText(s[1..]);
      assert PlainTokens(s)[1..] == PlainTokens(s[1..]);
    }
  }

  // The items written one after the other, each behind a 0x04.
  function ItemsText(items: seq<int>): Bytes {
    if items == [] then [] else [0x04] + IntText(items[0]) + ItemsText(items[1..])
  }

  function Shown(items: seq<int>): seq<int> {
    if |items| > MAX_ITEMS then items[..MAX_ITEMS] else items
  }

  function Overflow(items: seq<int>): nat {
    if |items| > MAX_ITEMS then |items| - MAX_ITEMS else 0
  }

  function OverflowText(items: seq<int>): Bytes {
    if |items| > MAX_ITEMS then [0x04, 43] + IntText(Overflow(items)) else []
  }

  function ArrayText(elem: byte, items: seq<int>): Bytes {
    [elem] + ItemsText(Shown(items)) + OverflowText(items)
  }

  function ObjectTokens(name: Bytes, text: Option<Bytes>): seq<Token> {
    EscapeTokens(name) + (if text.Some? then [Plain(0x03)] + EscapeTokens(text.value) else [])
  }

  function ObjElem(o: Obj): Elem {
    match o
    case StringObj(text) => Record(115, EscapeTokens(OrEmpty(text)))
    case ClassObj(name) => Record(99, EscapeTokens(OrEmpty(name)))
    case OtherObj(name, text) => Record(76, ObjectTokens(OrEmpty(name), text))
  }

  // The record an argument is encoded as.
  function ArgElem(a: Arg): Elem {
    match a
    case Number(sig, raw) => Record(sig, PlainTokens(IntText(Narrowed(sig, raw))))
    case Ref(None) => Record(76, [])
    case Ref(Some(o)) => ObjElem(o)
    case Array(elem, None) => Record(91, [])
    case Array(elem, Some(items)) => Record(91, PlainTokens(ArrayText(elem, items)))
  }

  function ArgElems(args: seq<Arg>): (es: seq<Elem>)
    ensures |es| == |args|
    ensures forall k :: 0 <= k < |args| ==> es[k] == ArgElem(args[k])
  {
    seq(|args|, k requires 0 <= k < |args| => ArgElem(args[k]))
  }

  // The value an argument should arrive as.
  function ItemValues(elem: byte, items: seq<int>): (vs: seq<Value>)
    ensures |vs| == |items|
    ensures forall k :: 0 <= k < |items| ==> vs[k] == Blank(KindOf(elem)).(num := items[k])
  {
    seq(|items|, k requires 0 <= k < |items| => Blank(KindOf(elem)).(num := items[k]))
  }

  function ObjValue(o: Obj): Value {
    match o
    case StringObj(text) => Blank(KString).(str := OrEmpty(text))
    case ClassObj(name) => Blank(KClass).(str := Dotted(OrEmpty(name)))
    case OtherObj(name, text) =>
      if OrEmpty(name) == NULL_TEXT && text.None? then NullValue
      else Blank(KObject).(str := Dotted(OrEmpty(name)), extra := OrEmpty(text))
  }

  function ArgValue(a: Arg): Value {
    match a
    case Number(sig, raw) => Blank(KindOf(sig)).(num := Narrowed(sig, raw))
    case Ref(None) => Blank(KObject)
    case Ref(Some(o)) => ObjValue(o)
    case Array(elem, None) => Blank(KArray)
    case Array(elem, Some(items)) =>
      Blank(KArray).(str := ArrayText(elem, items), items := ItemValues(elem, Shown(items)), num := Overflow(items))
  }

  function ArgValues(args: seq<Arg>): seq<Value> {
    if args == [] then [] else [ArgValue(args[0])] + ArgValues(args[1..])
  }

  // ---------------------------------------------------------------------------------------------
  // Valid records
  // ---------------------------------------------------------------------------------------------

  lemma {:induction false} EscapeTokensAreBody(s: Bytes)
    ensures BodyTokens(EscapeTokens(s))
  {
  }

  lemma {:induction false} PlainTokensAreBody(s: Bytes)
    requires forall b :: b in s ==> !Lead(b) && b != 0x01 && b != 0x02
    ensures BodyTokens(PlainTokens(s))
  {
  }

  predicate NumberByte(b: byte) { IsDigit(b) || b == 45 || b == 43 || b == 0x04 }

  lemma {:induction false} ItemsTextBytes(items: seq<int>)
    ensures forall b :: b in ItemsText(items) ==> NumberByte(b)
  {
    if items != [] {
      IntTextBytes(items[0]);
      ItemsTextBytes(items[1..]);
    }
  }

  lemma {:induction false} ArrayTextBytes(elem: byte, items: seq<int>)
    ensures forall b :: b in ArrayText(elem, items) ==> b == elem || NumberByte(b)
  {
    ItemsTextBytes(Shown(items));
    IntTextBytes(Overflow(items));
  }

  lemma {:induction false} PlainRecordIsValid(sig: byte, s: Bytes, nslots: nat)
    requires !NeedsEscape(sig) && forall b :: b in s ==> !Lead(b) && b != 0x01 && b != 0x02
    ensures ValidElem(Record(sig, PlainTokens(s)), nslots)
  {
    hide PlainTokens;
    PlainTokensAreBody(s);
  }

  lemma {:induction false} ObjectTokensAreBody(name: Bytes, text: Option<Bytes>)
    ensures BodyTokens(ObjectTokens(name, text))
  {
    hide EscapeTokens;
    EscapeTokensAreBody(name);
    if text.Some? {
      EscapeTokensAreBody(text.value);
      var rest := [Plain(0x03)] + EscapeTokens(text.value);
      assert BodyTokens(rest) by { assert forall k :: 0 < k < |rest| ==> rest[k] == EscapeTokens(text.value)[k - 1]; }
      hide BodyToken;
      assert forall k :: |EscapeTokens(name)| <= k < |EscapeTokens(name) + rest| ==>
        (EscapeTokens(name) + rest)[k] == rest[k - |EscapeTokens(name)|];
    }
  }

  lemma {:induction false} ObjElemIsValid(o: Obj, nslots: nat)
    ensures ValidElem(ObjElem(o), nslots)
  {
    hide EscapeTokens, ObjectTokens, BodyTokens;
    match o
    case StringObj(text) => EscapeTokensAreBody(OrEmpty(text));
    case ClassObj(name) => EscapeTokensAreBody(OrEmpty(name));
    case OtherObj(name, text) => ObjectTokensAreBody(OrEmpty(name), text);
  }

  lemma {:induction false} ArgElemIsValid(a: Arg, nslots: nat)
    requires ValidArg(a)
    ensures ValidElem(ArgElem(a), nslots)
  {
    hide ArrayText, IntText, Narrowed, EscapeTokens, PlainTokens, ObjElem, ValidElem;
    match a
    case Number(sig, raw) =>
      IntTextBytes(Narrowed(sig, raw));
      PlainRecordIsValid(sig, IntText(Narrowed(sig, raw)), nslots);
    case Ref(None) => PlainRecordIsValid(76, [], nslots);
    case Ref(Some(o)) => ObjElemIsValid(o, nslots);
    case Array(elem, None) => PlainRecordIsValid(91, [], nslots);
    case Array(elem, Some(items)) =>
      ArrayTextBytes(elem, items);
      PlainRecordIsValid(91, ArrayText(elem, items), nslots);
  }

  // ---------------------------------------------------------------------------------------------
  // Decoding one record
  // ---------------------------------------------------------------------------------------------

  lemma {:induction false} BodyHasNoEnd(ts: seq<Token>)
    requires BodyTokens(ts)
    ensures 0x02 !in Text(ts)
  {
    if ts != [] {
      assert BodyToken(ts[0]);
      assert BodyTokens(ts[1..]);
      BodyHasNoEnd(ts[1..]);
    }
  }

  lemma {:induction false} RecordText(sig: byte, body: seq<Token>)
    ensures Text(RecordTokens(sig, body)) == [sig, 0x01] + Text(body) + [0x02]
  {
    TextConcat([Plain(sig), Plain(0x01)] + body, [Plain(0x02)]);
    TextConcat([Plain(sig), Plain(0x01)], body);
    assert Text([Plain(0x02)]) == [0x02] + Text([]);
    assert Text([Plain(0x01)]) == [0x01] + Text([]);
    assert [Plain(sig), Plain(0x01)][1..] == [Plain(0x01)];
    assert Text([Plain(sig), Plain(0x01)]) == [sig] + [0x01];
  }

  lemma {:induction false} DecodeFramed(sig: byte, t: Bytes)
    requires sig != 0x01
    ensures DecodeRecord([sig, 0x01] + t) == [Build(KindOf(sig), t)]
  {
    var rec := [sig, 0x01] + t;
    assert rec == [sig] + [0x01] + t;
    IndexOfAppend([sig], 0x01, t);
    assert rec[2..] == t;
  }

  lemma {:induction false} BuildItemsOfText(elem: byte, items: seq<int>, more: Option<nat>, bound: nat)
    requires IntegerSig(elem) && items != []
    requires AllI64(items)
    requires more.Some? ==> more.value <= MAX_I64
    requires forall p :: p in ItemParts(items, more) ==> |p| <= bound
    ensures BuildItems(KindOf(elem), ItemParts(items, more), bound)
            == (ItemValues(elem, items), if more.Some? then more.value else 0)
  {
    hide Build, ParseInt, IntText, Split;
    var parts := ItemParts(items, more);
    var rest := parts[1..];
    BuildInteger(KindOf(elem), parts[0]);
    ParseIntText(items[0]);
    IntTextBytes(items[0]);
    assert rest == ItemParts(items[1..], more);
    if |items| == 1 {
      BuildMore(KindOf(elem), more, bound);
      assert items[1..] == [];
    } else {
      BuildItemsOfText(elem, items[1..], more, bound);
    }
    assert ItemValues(elem, items) == [Blank(KindOf(elem)).(num := items[0])] + ItemValues(elem, items[1..]);
  }

  // The part that counts the items left out.
  lemma {:induction false} BuildMore(kind: Kind, more: Option<nat>, bound: nat)
    requires more.Some? ==> more.value <= MAX_I64
    requires forall p :: p in ItemParts([], more) ==> |p| <= bound
    ensures BuildItems(kind, ItemParts([], more), bound) == ([], if more.Some? then more.value else 0)
  {
    hide Build, ParseInt, IntText, Split;
    if more.Some? {
      ParseIntText(more.value);
      assert ([43] + IntText(more.value))[1..] == IntText(more.value);
    }
  }

  // The parts between the 0x04 separators.
  function ItemParts(items: seq<int>, more: Option<nat>): (parts: seq<Bytes>)
    ensures |parts| == |items| + if more.Some? then 1 else 0
  {
    if items == [] then (if more.Some? then [[43] + IntText(more.value)] else [])
    else [IntText(items[0])] + ItemParts(items[1..], more)
  }

  function MoreText(more: Option<nat>): Bytes {
    if more.Some? then [0x04, 43] + IntText(more.value) else []
  }

  lemma {:induction false} SplitLast(v: int, more: Option<nat>)
    ensures Split(IntText(v) + MoreText(more), 0x04) == ItemParts([v], more)
  {
    var t := IntText(v);
    IntTextBytes(v);
    assert [v][1..] == [];
    if more.Some? {
      var last := [43] + IntText(more.value);
      IntTextBytes(more.value);
      assert t + MoreText(more) == t + [0x04] + last;
      SplitCons(t, 0x04, last);
      SplitNone(last, 0x04);
    } else {
      assert t + MoreText(more) == t;
      SplitNone(t, 0x04);
    }
  }

  lemma {:induction false} Rejoined(t: Bytes, rest: Bytes, more: Bytes)
    requires rest != []
    ensures t + rest + more == t + [rest[0]] + (rest[1..] + more)
  {
    assert rest == [rest[0]] + rest[1..];
  }

  lemma {:induction false} SplitItemsStep(v: int, rest: Bytes, more: Bytes)
    requires rest != [] && rest[0] == 0x04
    ensures Split(IntText(v) + rest + more, 0x04) == [IntText(v)] + Split(rest[1..] + more, 0x04)
  {
    hide Split, IntText;
    IntTextBytes(v);
    Rejoined(IntText(v), rest, more);
    SplitCons(IntText(v), 0x04, rest[1..] + more);
  }

  lemma {:induction false} SplitItems(items: seq<int>, more: Option<nat>)
    requires items != []
    ensures ItemsText(items) != [] && ItemsText(items)[0] == 0x04
    ensures Split(ItemsText(items)[1..] + MoreText(more), 0x04) == ItemParts(items, more)
  {
    hide Split, IntText;
    var t, rest := IntText(items[0]), ItemsText(items[1..]);
    assert ItemsText(items) == [0x04] + t + rest;
    assert ItemsText(items)[1..] == t + rest;
    if |items| == 1 {
      SplitLast(items[0], more);
      assert items == [items[0]] && rest == [] && t + rest == t;
    } else {
      SplitItems(items[1..], more);
      SplitItemsStep(items[0], rest, MoreText(more));
    }
  }

  function MoreOf(items: seq<int>): Option<nat> {
    if |items| > MAX_ITEMS then Some(Overflow(items)) else None
  }

  lemma {:induction false} ArrayTextShape(elem: byte, items: seq<int>)
    requires items != []
    ensures var raw := ArrayText(elem, items);
            |raw| > 2 && raw[0] == elem && raw[1] == 0x04
            && raw[2..] == ItemsText(Shown(items))[1..] + MoreText(MoreOf(items))
  {
    hide Split, IntText;
    var shown := Shown(items);
    IntTextBytes(shown[0]);
    SplitItems(shown, MoreOf(items));
    assert OverflowText(items) == MoreText(MoreOf(items));
  }

  lemma {:induction false} BuildNonEmptyArray(raw: Bytes, elem: byte, shown: seq<int>, more: Option<nat>)
    requires IntegerSig(elem) && shown != [] && AllI64(shown)
    requires more.Some? ==> more.value <= MAX_I64
    requires |raw| > 2 && raw[0] == elem && raw[1] == 0x04
    requires Split(raw[2..], 0x04) == ItemParts(shown, more)
    ensures Build(KArray, raw)
            == Blank(KArray).(str := raw, items := ItemValues(elem, shown), num := if more.Some? then more.value else 0)
  {
    hide Split, BuildItems, Unescaped, IndexOf, ItemParts;
    BuildItemsOfText(elem, shown, more, |raw| - 2);
  }

  lemma {:induction false} EmptyArrayText(elem: byte)
    ensures ArrayText(elem, []) == [elem]
  {
  }

  lemma {:induction false} BuildArray(elem: byte, items: seq<int>)
    requires ValidArg(Array(elem, Some(items)))
    ensures Build(KArray, ArrayText(elem, items)) == ArgValue(Array(elem, Some(items)))
  {
    hide Build, Split, IntText, ItemParts, ItemsText;
    var raw := ArrayText(elem, items);
    if items == [] {
      EmptyArrayText(elem);
      BuildShortArray(raw);
      assert ItemValues(elem, Shown(items)) == [];
    } else {
      ArrayTextShape(elem, items);
      SplitItems(Shown(items), MoreOf(items));
      BuildNonEmptyArray(raw, elem, Shown(items), MoreOf(items));
    }
  }

  lemma {:induction false} EscapedIsNull(s: Bytes)
    ensures Escaped(s) == NULL_TEXT <==> s == NULL_TEXT
  {
    EscapedIdentity(NULL_TEXT);
    hide Escaped, Unescaped;
    EscapeRoundTrip(s);
    EscapeRoundTrip(NULL_TEXT);
  }

  function ObjectText(name: Bytes, text: Option<Bytes>): Bytes {
    if text.Some? then Escaped(name) + [0x03] + Escaped(text.value) else Escaped(name)
  }

  lemma {:induction false} ObjectTokensText(name: Bytes, text: Option<Bytes>)
    ensures Text(ObjectTokens(name, text)) == ObjectText(name, text)
  {
    hide Escaped, EscapeTokens;
    EscapeTokensText(name);
    if text.Some? {
      EscapeTokensText(text.value);
      TextConcat(EscapeTokens(name), [Plain(0x03)] + EscapeTokens(text.value));
      TextConcat([Plain(0x03)], EscapeTokens(text.value));
      assert Text([Plain(0x03)]) == [0x03] + Text([]);
      Associate(Escaped(name), [0x03], Escaped(text.value));
    } else {
      assert ObjectTokens(name, text) == EscapeTokens(name);
    }
  }

  lemma {:induction false} BuildObject(name: Bytes, text: Option<Bytes>)
    ensures ObjectValue(ObjectText(name, text))
            == if name == NULL_TEXT && text.None? then NullValue
               else Blank(KObject).(str := Dotted(name), extra := OrEmpty(text))
  {
    hide Escaped, Unescaped, Dotted;
    var raw := ObjectText(name, text);
    EscapeRoundTrip(name);
    CleanOf(name, 0x03);
    if text.Some? {
      var e := Escaped(text.value);
      EscapeRoundTrip(text.value);
      IndexOfAppend(Escaped(name), 0x03, e);
      assert raw[..|Escaped(name)|] == Escaped(name) && raw[|Escaped(name)| + 1..] == e;
      assert raw[|Escaped(name)|] == 0x03 && 0x03 !in NULL_TEXT;
    } else {
      EscapedIsNull(name);
    }
  }

  lemma {:induction false} BuildNumber(sig: byte, raw: nat)
    requires ValidArg(Number(sig, raw))
    ensures Build(KindOf(sig), IntText(Narrowed(sig, raw))) == ArgValue(Number(sig, raw))
  {
    hide Build, IntText;
    var v := Narrowed(sig, raw);
    ParseIntText(v);
    BuildInteger(KindOf(sig), IntText(v));
  }

  lemma {:induction false} BuildArg(a: Arg)
    requires ValidArg(a)
    ensures Build(KindOf(ArgElem(a).sig), Text(ArgElem(a).body)) == ArgValue(a)
  {
    hide Build, IntText, Narrowed, ArrayText, Escaped, Unescaped;
    match a
    case Number(sig, raw) =>
      PlainTokensText(IntText(Narrowed(sig, raw)));
      BuildNumber(sig, raw);
    case Ref(None) =>
      BuildText([]);
      NullReference();
    case Ref(Some(o)) =>
      BuildObj(o);
    case Array(elem, None) =>
      BuildShortArray([]);
    case Array(elem, Some(items)) =>
      PlainTokensText(ArrayText(elem, items));
      BuildArray(elem, items);
  }

  lemma {:induction false} NullReference()
    ensures ObjectValue([]) == Blank(KObject)
  {
  }

  lemma {:induction false} BuildObj(o: Obj)
    ensures Build(KindOf(ObjElem(o).sig), Text(ObjElem(o).body)) == ObjValue(o)
  {
    hide Build, Unescaped, Escaped, ObjectValue, ObjectText;
    BuildText(Text(ObjElem(o).body));
    match o
    case StringObj(text) =>
      EscapeTokensText(OrEmpty(text));
      EscapeRoundTrip(OrEmpty(text));
    case ClassObj(name) =>
      EscapeTokensText(OrEmpty(name));
      EscapeRoundTrip(OrEmpty(name));
    case OtherObj(name, text) =>
      ObjectTokensText(OrEmpty(name), text);
      BuildObject(OrEmpty(name), text);
  }
}
