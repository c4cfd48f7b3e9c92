/** Which arguments the consumer can tell apart. */
module SameArgs {
  import opened Bytes
  import opened Numbers
  import opened Records
  import opened Args
  import opened Wire

  // Another object whose class is named null and that has no toString.
  predicate NullLike(o: Obj) { o.OtherObj? && OrEmpty(o.name) == NULL_TEXT && o.text.None? }

  // Another object of which nothing is known.
  predicate Bare(o: Obj) { o.OtherObj? && OrEmpty(o.name) == [] && OrEmpty(o.text) == [] }

  // The number of values of the Java type of a descriptor.
  function Width(sig: byte): (w: nat)
    ensures w > 0
  {
    match sig
    case 90 => 2
    case 66 => 0x100
    case 67 => 0x1_0000
    case 83 => 0x1_0000
    case 73 => 0x1_0000_0000
    case _ => 0x1_0000_0000_0000_0000
  }

  predicate SameObj(a: Obj, b: Obj) {
    match (a, b)
    case (StringObj(s), StringObj(t)) => OrEmpty(s) == OrEmpty(t)
    case (ClassObj(s), ClassObj(t)) => Dotted(OrEmpty(s)) == Dotted(OrEmpty(t))
    case (OtherObj(n, t), OtherObj(m, u)) =>
      if NullLike(a) || NullLike(b) then NullLike(a) && NullLike(b)
      else Dotted(OrEmpty(n)) == Dotted(OrEmpty(m)) && OrEmpty(t) == OrEmpty(u)
    case _ => false
  }

  // Two arguments that say the same: captured words that agree in the Java type, texts that are equal
  // once slashes are dots, an absent text and an empty one, a null reference and an object of which
  // nothing is known, null arrays, arrays of one element type and length with the same first sixteen
  // items.
  predicate SameArg(a: Arg, b: Arg) {
    match (a, b)
    case (Number(s, r), Number(t, q)) => s == t && r % Width(s) == q % Width(s)
    case (Ref(None), Ref(None)) => true
    case (Ref(None), Ref(Some(o))) => Bare(o)
    case (Ref(Some(o)), Ref(None)) => Bare(o)
    case (Ref(Some(o)), Ref(Some(q))) => SameObj(o, q)
    case (Array(_, None), Array(_, None)) => true
    case (Array(e, Some(x)), Array(f, Some(y))) => e == f && |x| == |y| && Shown(x) == Shown(y)
    case _ => false
  }

  lemma {:induction false} SignedSame(r: nat, q: nat, m: nat)
    requires m > 0
    ensures Signed(r, m) == Signed(q, m) <==> r % m == q % m
  {
  }

  lemma {:induction false} NarrowedSame(sig: byte, r: nat, q: nat)
    requires IntegerSig(sig)
    ensures Narrowed(sig, r) == Narrowed(sig, q) <==> r % Width(sig) == q % Width(sig)
  {
    hide Signed;
    SignedSame(r, q, Width(sig));
  }

  lemma {:induction false} KindsDiffer(s: byte, t: byte)
    requires IntegerSig(s) && IntegerSig(t)
    ensures KindOf(s) == KindOf(t) <==> s == t
    ensures !KindOf(s).KNull? && !KindOf(s).KString? && !KindOf(s).KClass? && !KindOf(s).KObject? && !KindOf(s).KArray?
  {
  }

  lemma {:induction false} DottedEmpty(s: Bytes)
    ensures Dotted(s) == [] <==> s == []
  {
  }

  lemma {:induction false} ObjSame(a: Obj, b: Obj)
    ensures ObjValue(a) == ObjValue(b) <==> SameObj(a, b)
    ensures ObjValue(a) == Blank(KObject) <==> Bare(a)
  {
    hide Dotted;
    if a.OtherObj? { DottedEmpty(OrEmpty(a.name)); }
  }

  lemma {:induction false} ArraySame(e: byte, x: seq<int>, f: byte, y: seq<int>)
    ensures ArgValue(Array(e, Some(x))) == ArgValue(Array(f, Some(y)))
            <==> e == f && |x| == |y| && Shown(x) == Shown(y)
  {
    hide ItemsText, KindOf;
    var v, w := ArgValue(Array(e, Some(x))), ArgValue(Array(f, Some(y)));
    if v == w {
      assert v.str[0] == e && w.str[0] == f;
      assert |Shown(x)| == |v.items| == |Shown(y)|;
      forall k | 0 <= k < |Shown(x)| ensures Shown(x)[k] == Shown(y)[k] {
        assert v.items[k].num == w.items[k].num;
      }
    }
  }

  lemma {:induction false} ArrayShown(e: byte, x: seq<int>)
    ensures ArgValue(Array(e, Some(x))).str != [] && ArgValue(Array(e, None)).str == []
  {
  }

  lemma {:induction false} ArgSame(a: Arg, b: Arg)
    requires ValidArg(a) && ValidArg(b)
    ensures ArgValue(a) == ArgValue(b) <==> SameArg(a, b)
  {
    hide ObjValue, SameObj, Bare, Narrowed, Width, ArrayText, ItemValues;
    KindsOfValues(a);
    KindsOfValues(b);
    match (a, b)
    case (Number(s, r), Number(t, q)) =>
      KindsDiffer(s, t);
      NarrowedSame(s, r, q);
    case (Ref(None), Ref(Some(o))) => ObjSame(o, o);
    case (Ref(Some(o)), Ref(None)) => ObjSame(o, o);
    case (Ref(Some(o)), Ref(Some(q))) => ObjSame(o, q);
    case (Array(e, Some(x)), Array(f, Some(y))) => ArraySame(e, x, f, y);
    case (Array(e, Some(x)), Array(f, None)) => ArrayShown(e, x);
    case (Array(e, None), Array(f, Some(y))) => ArrayShown(f, y);
    case _ =>
  }

  // Numbers, references and arrays arrive as values of different kinds.
  lemma {:induction false} KindsOfValues(a: Arg)
    requires ValidArg(a)
    ensures var k := ArgValue(a).kind;
            && (a.Number? <==> Integral(k))
            && (a.Ref? <==> k.KNull? || k.KString? || k.KClass? || k.KObject?)
            && (a.Array? <==> k.KArray?)
  {
    hide Narrowed, ArrayText, ItemValues, Dotted;
  }

  /** Exactly which argument lists the consumer cannot tell apart: two lists decode alike if and only
      if they have the same length and say the same argument by argument. */
  lemma {:induction false} DecodedAlike(xs: seq<Arg>, ys: seq<Arg>)
    requires ValidArgs(xs) && ValidArgs(ys)
    ensures Decoded(Encoded(xs)) == Decoded(Encoded(ys))
            <==> |xs| == |ys| && forall i :: 0 <= i < |xs| ==> SameArg(xs[i], ys[i])
  {
    hide Decoded, Encoded, ArgValue, SameArg;
    DecodeInvertsEncode(xs);
    DecodeInvertsEncode(ys);
    ArgValuesAt(xs);
    ArgValuesAt(ys);
    if |xs| == |ys| {
      forall i | 0 <= i < |xs| ensures ArgValues(xs)[i] == ArgValues(ys)[i] <==> SameArg(xs[i], ys[i]) {
        ArgSame(xs[i], ys[i]);
      }
    }
  }

  /** Encoded and decoded, an object is taken for the null reference exactly when its class is named
      null and it has no toString; otherwise its kind, its text or dotted class name and its toString
      come back. */
  lemma {:induction false} OnlyNullNameIsLost(o: Obj)
    ensures var vs := Decoded(Encoded([Ref(Some(o))]));
            && |vs| == 1
            && (vs[0] == NullValue <==> o.OtherObj? && OrEmpty(o.name) == NULL_TEXT && o.text.None?)
            && (vs[0] != NullValue ==>
                  && vs[0].kind == (if o.StringObj? then KString else if o.ClassObj? then KClass else KObject)
                  && vs[0].str == (if o.StringObj? then OrEmpty(o.text) else Dotted(OrEmpty(o.name)))
                  && vs[0].extra == if o.OtherObj? then OrEmpty(o.text) else [])
  {
    hide Decoded, Encoded;
    var args := [Ref(Some(o))];
    assert ValidArg(args[0]);
    DecodeInvertsEncode(args);
    ArgValuesAt(args);
  }
}
