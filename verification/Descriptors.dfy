/** JNI type descriptors (section 4.3 of the Java Virtual Machine Specification): the C walks that
    extract and encode arguments, and the Go parser. */
module Descriptors {
  import opened Bytes
  import Records

  const OPEN: byte := 40
  const CLOSE: byte := 41
  const SEMI: byte := 59
  const CLASS: byte := 76
  const ARRAY: byte := 91
  const VOID: byte := 86

  // Z B C S I J F D
  predicate IsPrim(c: byte) {
    c == 90 || c == 66 || c == 67 || c == 83 || c == 73 || c == 74 || c == 70 || c == 68
  }

  // ---------------------------------------------------------------------------------------------
  // The C walks. A C string ends at its terminator, here at the end of the sequence.
  // ---------------------------------------------------------------------------------------------

  // The first position from i on that is not an opening bracket.
  function PastBrackets(s: Bytes, i: nat): (j: nat)
    requires i <= |s|
    ensures i <= j <= |s| && (j < |s| ==> s[j] != ARRAY)
    decreases |s| - i
  {
    if i < |s| && s[i] == ARRAY then PastBrackets(s, i + 1) else i
  }

  // Past a class name, or None when it is not terminated.
  function PastName(s: Bytes, i: nat): (r: Option<nat>)
    requires i <= |s|
    ensures r.Some? ==> i < r.value <= |s|
  {
    var e := IndexFrom(s, SEMI, i);
    if e < 0 then None else Some(e + 1)
  }

  // Past one descriptor, or None when it is malformed.
  function Advance(s: Bytes, i: nat): (r: Option<nat>)
    requires i < |s|
    ensures r.Some? ==> i < r.value <= |s|
  {
    if s[i] == CLASS then PastName(s, i)
    else if s[i] == ARRAY then
      var j := PastBrackets(s, i);
      if j == |s| then None else if s[j] == CLASS then PastName(s, j) else Some(j + 1)
    else Some(i + 1)
  }

  predicate AtEnd(s: Bytes, i: nat) { i >= |s| || s[i] == CLOSE }

  // The kinds under which the extraction of arguments fills its slots, from position i on.
  function KindsFrom(s: Bytes, i: nat, max: nat): (r: Bytes)
    ensures |r| <= max
    decreases |s| - i
  {
    if AtEnd(s, i) || max == 0 then []
    else if s[i] == CLASS || s[i] == ARRAY then
      [s[i]] + (match Advance(s, i) case None => [] case Some(j) => KindsFrom(s, j, max - 1))
    else if IsPrim(s[i]) then [s[i]] + KindsFrom(s, i + 1, max - 1)
    else []
  }

  function ExtractedKinds(s: Bytes, max: nat): Bytes {
    if s == [] || s[0] != OPEN then [] else KindsFrom(s, 1, max)
  }

  // Where the encoder goes on after a descriptor. It does not check: past the last bracket of an
  // unfinished array it ends up one beyond the terminator.
  function EncoderNext(s: Bytes, i: nat): (j: nat)
    requires i < |s|
    ensures i < j <= |s| + 1
  {
    var at := if s[i] == ARRAY then PastBrackets(s, i + 1) else i;
    if at < |s| && s[at] == CLASS then
      match PastName(s, at) case None => |s| case Some(j) => j
    else at + 1
  }

  // The kinds the encoder writes for count arguments from position i on, and whether it ever looks
  // at a position beyond the terminator.
  function EncoderKinds(s: Bytes, i: nat, count: nat): (r: (Bytes, bool))
    decreases count
  {
    if count == 0 then ([], false)
    else if i > |s| then ([], true)
    else if AtEnd(s, i) then ([], false)
    else
      var (rest, beyond) := EncoderKinds(s, EncoderNext(s, i), count - 1);
      ([s[i]] + rest, beyond)
  }

  function EncodedKinds(s: Bytes, count: nat): (Bytes, bool) {
    EncoderKinds(s, if s != [] && s[0] == OPEN then 1 else 0, count)
  }

  lemma {:induction false} SameStep(s: Bytes, i: nat)
    requires i < |s| && Advance(s, i).Some?
    ensures EncoderNext(s, i) == Advance(s, i).value
  {
  }

  lemma {:induction false} KindsAlignFrom(s: Bytes, i: nat, max: nat)
    requires i <= |s|
    ensures EncoderKinds(s, i, |KindsFrom(s, i, max)|) == (KindsFrom(s, i, max), false)
    decreases max
  {
    hide Advance, EncoderNext, EncoderKinds, PastBrackets;
    NoneEncoded(s, i);
    if !(AtEnd(s, i) || max == 0) {
      if s[i] == CLASS || s[i] == ARRAY {
        match Advance(s, i) {
          case None =>
            NoneEncoded(s, EncoderNext(s, i));
            OneEncoded(s, i, []);
          case Some(j) =>
            SameStep(s, i);
            KindsAlignFrom(s, j, max - 1);
            OneEncoded(s, i, KindsFrom(s, j, max - 1));
        }
      } else if IsPrim(s[i]) {
        PlainStep(s, i);
        KindsAlignFrom(s, i + 1, max - 1);
        OneEncoded(s, i, KindsFrom(s, i + 1, max - 1));
      }
    }
  }

  lemma {:induction false} NoneEncoded(s: Bytes, i: nat)
    ensures EncoderKinds(s, i, 0) == ([], false)
  {
  }

  // One kind written, and the rest from the next descriptor on.
  lemma {:induction false} OneEncoded(s: Bytes, i: nat, rest: Bytes)
    requires i < |s| && !AtEnd(s, i) && EncoderKinds(s, EncoderNext(s, i), |rest|) == (rest, false)
    ensures EncoderKinds(s, i, |[s[i]] + rest|) == ([s[i]] + rest, false)
  {
    hide EncoderNext;
  }

  lemma {:induction false} PlainStep(s: Bytes, i: nat)
    requires i < |s| && s[i] != CLASS && s[i] != ARRAY
    ensures EncoderNext(s, i) == i + 1
  {
  }

  /** For every string taken as a signature, well formed or not, and every number of slots: encoding as
      many arguments as were extracted writes, for each slot, the kind it was filled under, and never
      looks beyond the end of the string. */
  lemma {:induction false} KindsAlign(s: Bytes, max: nat)
    ensures EncodedKinds(s, |ExtractedKinds(s, max)|) == (ExtractedKinds(s, max), false)
  {
    if s != [] && s[0] == OPEN { KindsAlignFrom(s, 1, max); }
  }

  // ---------------------------------------------------------------------------------------------
  // Types
  // ---------------------------------------------------------------------------------------------

  datatype JType = Void | Prim(c: byte) | Obj(name: Bytes) | Arr(elem: JType)

  predicate WellFormed(t: JType) {
    match t
    case Void => true
    case Prim(c) => IsPrim(c)
    case Obj(name) => SEMI !in name
    case Arr(e) => !e.Void? && WellFormed(e)
  }

  function Descriptor(t: JType): (d: Bytes)
    ensures |d| > 0
  {
    match t
    case Void => [VOID]
    case Prim(c) => [c]
    case Obj(name) => [CLASS] + name + [SEMI]
    case Arr(e) => [ARRAY] + Descriptor(e)
  }

  // The Java keyword of a primitive descriptor.
  function Keyword(c: byte): Bytes {
    if c == VOID then [118, 111, 105, 100]
    else if c == 90 then [98, 111, 111, 108, 101, 97, 110]
    else if c == 66 then [98, 121, 116, 101]
    else if c == 67 then [99, 104, 97, 114]
    else if c == 83 then [115, 104, 111, 114, 116]
    else if c == 73 then [105, 110, 116]
    else if c == 74 then [108, 111, 110, 103]
    else if c == 70 then [102, 108, 111, 97, 116]
    else [100, 111, 117, 98, 108, 101]
  }

  const BRACKETS: Bytes := [91, 93]

  // The type as Java source writes it.
  function Shown(t: JType): Bytes {
    match t
    case Void => Keyword(VOID)
    case Prim(c) => Keyword(c)
    case Obj(name) => Records.Dotted(name)
    case Arr(e) => Shown(e) + BRACKETS
  }

  // The Go parser: the text of the type at idx and the position after it.
  function ParseType(s: Bytes, idx: nat): (r: Option<(Bytes, nat)>)
    ensures r.Some? ==> idx < r.value.1 <= |s|
    decreases |s| - idx
  {
    if idx >= |s| then None
    else if s[idx] == VOID || IsPrim(s[idx]) then Some((Keyword(s[idx]), idx + 1))
    else if s[idx] == ARRAY then
      match ParseType(s, idx + 1)
      case None => None
      case Some((inner, next)) => Some((inner + BRACKETS, next))
    else if s[idx] == CLASS then
      var e := IndexFrom(s, SEMI, idx);
      if e < 0 then None else Some((Records.Dotted(s[idx + 1..e]), e + 1))
    else None
  }

  /** The eight primitive types and void, by their letters. */
  lemma {:induction false} PrimitiveNames()
    ensures forall c: byte :: IsPrim(c) <==> c as char in "ZBCSIJFD"
    ensures Shown(Prim('Z' as int)) == Ascii("boolean") && Shown(Prim('B' as int)) == Ascii("byte")
    ensures Shown(Prim('C' as int)) == Ascii("char") && Shown(Prim('S' as int)) == Ascii("short")
    ensures Shown(Prim('I' as int)) == Ascii("int") && Shown(Prim('J' as int)) == Ascii("long")
    ensures Shown(Prim('F' as int)) == Ascii("float") && Shown(Prim('D' as int)) == Ascii("double")
    ensures Shown(Void) == Ascii("void") && Descriptor(Void) == Ascii("V")
  {
    hide Records.Dotted;
  }

  /** Classes are shown with dots, and arrays with a pair of brackets for each dimension. */
  lemma {:induction false} ClassNames(name: Bytes, e: JType)
    ensures Shown(Obj(name)) == seq(|name|, k requires 0 <= k < |name| =>
                                      if name[k] == '/' as int then '.' as int else name[k])
    ensures Descriptor(Obj(name)) == Ascii("L") + name + Ascii(";")
    ensures Shown(Arr(e)) == Shown(e) + Ascii("[]") && Descriptor(Arr(e)) == Ascii("[") + Descriptor(e)
  {
    assert Ascii("[]") == BRACKETS;
  }

  lemma {:induction false} Inside(pre: Bytes, body: Bytes, post: Bytes, k: nat)
    requires k < |body|
    ensures (pre + body + post)[|pre| + k] == body[k]
  {
  }

  lemma {:induction false} NameEnds(pre: Bytes, name: Bytes, post: Bytes)
    requires SEMI !in name
    ensures var s := pre + ([CLASS] + name + [SEMI]) + post;
            IndexFrom(s, SEMI, |pre|) == |pre| + 1 + |name| && s[|pre| + 1..|pre| + 1 + |name|] == name
  {
    hide IndexFrom;
    var body := [CLASS] + name + [SEMI];
    var s := pre + body + post;
    var e := |pre| + 1 + |name|;
    Inside(pre, body, post, |name| + 1);
    forall k | |pre| <= k < e
      ensures s[k] != SEMI
    {
      Inside(pre, body, post, k - |pre|);
    }
    IndexFromIs(s, SEMI, |pre|, e);
    NameCut(pre, name, post);
  }

  lemma {:induction false} NameCut(pre: Bytes, name: Bytes, post: Bytes)
    ensures (pre + ([CLASS] + name + [SEMI]) + post)[|pre| + 1..|pre| + 1 + |name|] == name
  {
    var body := [CLASS] + name + [SEMI];
    var cut := (pre + body + post)[|pre| + 1..|pre| + 1 + |name|];
    forall j | 0 <= j < |name| ensures cut[j] == name[j] {
      Inside(pre, body, post, j + 1);
    }
  }

  /** The Go parser inverts the printing of any well-formed type, nested arrays included, wherever the
      descriptor stands, and stops exactly behind it. */
  lemma {:induction false} ParseInvertsDescriptor(t: JType, pre: Bytes, post: Bytes)
    requires WellFormed(t)
    ensures ParseType(pre + Descriptor(t) + post, |pre|) == Some((Shown(t), |pre| + |Descriptor(t)|))
    decreases t
  {
    hide *;
    match t {
      case Void => PlainParses(t, pre, post);
      case Prim(c) => PlainParses(t, pre, post);
      case Obj(name) => NameParses(name, pre, post);
      case Arr(e) =>
        InnerWellFormed(t);
        ParseInvertsDescriptor(e, pre + [ARRAY], post);
        BracketParses(e, pre, post);
    }
  }

  lemma {:induction false} PlainParses(t: JType, pre: Bytes, post: Bytes)
    requires WellFormed(t) && (t.Void? || t.Prim?)
    ensures ParseType(pre + Descriptor(t) + post, |pre|) == Some((Shown(t), |pre| + |Descriptor(t)|))
  {
    Inside(pre, Descriptor(t), post, 0);
  }

  lemma {:induction false} NameParses(name: Bytes, pre: Bytes, post: Bytes)
    requires WellFormed(Obj(name))
    ensures ParseType(pre + Descriptor(Obj(name)) + post, |pre|)
         == Some((Shown(Obj(name)), |pre| + |Descriptor(Obj(name))|))
  {
    hide IndexFrom, Records.Dotted;
    Inside(pre, Descriptor(Obj(name)), post, 0);
    NameEnds(pre, name, post);
  }

  lemma {:induction false} BracketParses(e: JType, pre: Bytes, post: Bytes)
    requires ParseType(pre + [ARRAY] + Descriptor(e) + post, |pre + [ARRAY]|)
          == Some((Shown(e), |pre + [ARRAY]| + |Descriptor(e)|))
    ensures ParseType(pre + Descriptor(Arr(e)) + post, |pre|)
         == Some((Shown(Arr(e)), |pre| + |Descriptor(Arr(e))|))
  {
    var s := pre + Descriptor(Arr(e)) + post;
    Inside(pre, Descriptor(Arr(e)), post, 0);
    UnderBracket(e, pre, post);
    assert s == pre + [ARRAY] + Descriptor(e) + post;
    hide IndexFrom, Descriptor, IsPrim;
    assert ParseType(s, |pre| + 1) == Some((Shown(e), |pre| + 1 + |Descriptor(e)|));
  }

  // At position j of s a class name or a primitive type ends at position end.
  predicate PlainEnds(s: Bytes, j: nat, end: nat) {
    j < |s| && if s[j] == CLASS then PastName(s, j) == Some(end) else j + 1 == end && IsPrim(s[j])
  }

  lemma {:induction false} PrimEnds(s: Bytes, i: nat)
    requires i < |s| && IsPrim(s[i])
    ensures PastBrackets(s, i) == i && PlainEnds(s, i, i + 1)
  {
    hide IndexFrom;
  }

  lemma {:induction false} NameEndsAt(s: Bytes, i: nat, e: nat)
    requires i < |s| && s[i] == CLASS && IndexFrom(s, SEMI, i) == e
    ensures PastBrackets(s, i) == i && PlainEnds(s, i, e + 1)
  {
    hide IndexFrom;
  }

  lemma {:induction false} BracketSkipped(s: Bytes, i: nat)
    requires i < |s| && s[i] == ARRAY
    ensures PastBrackets(s, i) == PastBrackets(s, i + 1)
  {
  }

  // Under the brackets of an array lies the descriptor of a class or a primitive type.
  lemma {:induction false} ElementFound(t: JType, pre: Bytes, post: Bytes)
    requires WellFormed(t) && !t.Void?
    ensures var s := pre + Descriptor(t) + post;
            PlainEnds(s, PastBrackets(s, |pre|), |pre| + |Descriptor(t)|)
    decreases t
  {
    hide *;
    match t {
      case Prim(c) => PrimFound(c, pre, post);
      case Obj(name) => NameFound(name, pre, post);
      case Arr(e) =>
        InnerWellFormed(t);
        UnderBracket(e, pre, post);
        ElementFound(e, pre + [ARRAY], post);
    }
  }

  lemma {:induction false} PrimFound(c: byte, pre: Bytes, post: Bytes)
    requires WellFormed(Prim(c))
    ensures var s := pre + Descriptor(Prim(c)) + post;
            PlainEnds(s, PastBrackets(s, |pre|), |pre| + |Descriptor(Prim(c))|)
  {
    hide PlainEnds, PastBrackets, IsPrim;
    Inside(pre, Descriptor(Prim(c)), post, 0);
    PrimEnds(pre + Descriptor(Prim(c)) + post, |pre|);
  }

  lemma {:induction false} NameFound(name: Bytes, pre: Bytes, post: Bytes)
    requires WellFormed(Obj(name))
    ensures var s := pre + Descriptor(Obj(name)) + post;
            PlainEnds(s, PastBrackets(s, |pre|), |pre| + |Descriptor(Obj(name))|)
  {
    hide PlainEnds, PastBrackets;
    Inside(pre, Descriptor(Obj(name)), post, 0);
    NameEnds(pre, name, post);
    NameEndsAt(pre + Descriptor(Obj(name)) + post, |pre|, |pre| + 1 + |name|);
  }

  // The search under a bracket goes on with the element type, in the same text.
  lemma {:induction false} UnderBracket(e: JType, pre: Bytes, post: Bytes)
    ensures var s := pre + Descriptor(Arr(e)) + post;
            && s == (pre + [ARRAY]) + Descriptor(e) + post
            && |Descriptor(Arr(e))| == 1 + |Descriptor(e)|
            && |pre + [ARRAY]| == |pre| + 1
            && PastBrackets(s, |pre|) == PastBrackets(s, |pre| + 1)
  {
    hide PastBrackets;
    Inside(pre, Descriptor(Arr(e)), post, 0);
    BracketSkipped(pre + Descriptor(Arr(e)) + post, |pre|);
    Regrouped(pre, [ARRAY], Descriptor(e), post);
  }

  lemma {:induction false} InnerWellFormed(t: JType)
    requires WellFormed(t) && t.Arr?
    ensures WellFormed(t.elem) && !t.elem.Void?
  {
  }

  lemma {:induction false} FirstKind(t: JType)
    requires WellFormed(t) && !t.Void?
    ensures match t
            case Obj(_) => Descriptor(t)[0] == CLASS
            case Arr(_) => Descriptor(t)[0] == ARRAY
            case _ => IsPrim(Descriptor(t)[0]) && |Descriptor(t)| == 1
  {
  }

  /** The C walk advances exactly over the descriptor of any well-formed parameter type. */
  lemma {:induction false} AdvanceOverDescriptor(t: JType, pre: Bytes, post: Bytes)
    requires WellFormed(t) && !t.Void?
    ensures Advance(pre + Descriptor(t) + post, |pre|) == Some(|pre| + |Descriptor(t)|)
    ensures (pre + Descriptor(t) + post)[|pre|] == Descriptor(t)[0]
  {
    hide PastName, WellFormed;
    var s, d := pre + Descriptor(t) + post, Descriptor(t);
    Inside(pre, d, post, 0);
    ElementFound(t, pre, post);
    hide Descriptor;
    FirstKind(t);
  }

  // ---------------------------------------------------------------------------------------------
  // Method descriptors
  // ---------------------------------------------------------------------------------------------

  function Params(ps: seq<JType>): Bytes {
    if ps == [] then [] else Descriptor(ps[0]) + Params(ps[1..])
  }

  function MethodDescriptor(ps: seq<JType>, ret: JType): Bytes { [OPEN] + Params(ps) + [CLOSE] + Descriptor(ret) }

  function FirstBytes(ps: seq<JType>, max: nat): (r: Bytes)
    ensures |r| == if |ps| < max then |ps| else max
  {
    if ps == [] || max == 0 then [] else [Descriptor(ps[0])[0]] + FirstBytes(ps[1..], max - 1)
  }

  ghost predicate ParamTypes(ps: seq<JType>) {
    forall i :: 0 <= i < |ps| ==> WellFormed(ps[i]) && !ps[i].Void?
  }

  lemma {:induction false} Regrouped(pre: Bytes, d: Bytes, rest: Bytes, post: Bytes)
    ensures pre + (d + rest) + post == pre + d + (rest + post) == (pre + d) + rest + post
  {
  }

  lemma {:induction false} ParamsCons(ps: seq<JType>)
    requires ps != []
    ensures Params(ps) == Descriptor(ps[0]) + Params(ps[1..])
  {
  }

  lemma {:induction false} ParamsSplit(ps: seq<JType>)
    requires ParamTypes(ps) && ps != []
    ensures WellFormed(ps[0]) && !ps[0].Void? && ParamTypes(ps[1..])
  {
    hide WellFormed;
  }

  // One step over the first parameter of a list.
  lemma {:induction false} KindsOverOne(t: JType, pre: Bytes, post: Bytes, max: nat)
    requires WellFormed(t) && !t.Void? && max > 0
    ensures KindsFrom(pre + Descriptor(t) + post, |pre|, max) ==
            [Descriptor(t)[0]] + KindsFrom(pre + Descriptor(t) + post, |pre| + |Descriptor(t)|, max - 1)
  {
    hide KindsFrom, Advance, WellFormed, Descriptor, IsPrim;
    AdvanceOverDescriptor(t, pre, post);
    FirstKind(t);
    KindsAt(pre + Descriptor(t) + post, |pre|, |pre| + |Descriptor(t)|, max);
  }

  lemma {:induction false} KindsAt(s: Bytes, i: nat, j: nat, max: nat)
    requires i < |s| && Advance(s, i) == Some(j) && max > 0
    requires s[i] == CLASS || s[i] == ARRAY || IsPrim(s[i])
    ensures KindsFrom(s, i, max) == [s[i]] + KindsFrom(s, j, max - 1)
  {
    hide PastBrackets, PastName;
  }

  lemma {:induction false} KindsOfParams(ps: seq<JType>, pre: Bytes, post: Bytes, max: nat)
    requires ParamTypes(ps) && post != [] && post[0] == CLOSE
    ensures KindsFrom(pre + Params(ps) + post, |pre|, max) == FirstBytes(ps, max)
    decreases |ps|
  {
    FirstBytesCons(ps, max);
    hide *;
    if ps == [] {
      KindsAtClose(pre, post, max);
    } else if max > 0 {
      var d, rest := Descriptor(ps[0]), Params(ps[1..]);
      ParamsSplit(ps);
      ParamsCons(ps);
      Regrouped(pre, d, rest, post);
      KindsOverOne(ps[0], pre, rest + post, max);
      KindsOfParams(ps[1..], pre + d, post, max - 1);
    } else {
      KindsForNone(pre + Params(ps) + post, |pre|);
    }
  }

  lemma {:induction false} FirstBytesCons(ps: seq<JType>, max: nat)
    ensures FirstBytes(ps, max) ==
              if ps == [] || max == 0 then [] else [Descriptor(ps[0])[0]] + FirstBytes(ps[1..], max - 1)
  {
  }

  lemma {:induction false} KindsForNone(s: Bytes, i: nat)
    ensures KindsFrom(s, i, 0) == []
  {
  }

  lemma {:induction false} KindsAtClose(pre: Bytes, post: Bytes, max: nat)
    requires post != [] && post[0] == CLOSE
    ensures KindsFrom(pre + Params([]) + post, |pre|, max) == []
  {
    assert (pre + Params([]) + post)[|pre|] == CLOSE;
  }

  datatype Shape = Method(params: seq<Bytes>, ret: Bytes) | Plain(shown: Bytes) | AsIs

  // The parameters parsed from idx on, and where their list ends.
  function ParseParams(s: Bytes, idx: nat): (r: Option<(seq<Bytes>, nat)>)
    requires idx <= |s|
    ensures r.Some? ==> idx <= r.value.1 <= |s|
    decreases |s| - idx
  {
    if AtEnd(s, idx) then Some(([], idx))
    else
      match ParseType(s, idx)
      case None => None
      case Some((p, next)) =>
        match ParseParams(s, next)
        case None => None
        case Some((ps, end)) => Some(([p] + ps, end))
  }

  // What the signature is shown as; AsIs when it cannot be parsed.
  function ParseSignature(s: Bytes): Shape {
    if s == [] then AsIs
    else if s[0] != OPEN then
      match ParseType(s, 0) case None => AsIs case Some((t, _)) => Plain(t)
    else
      match ParseParams(s, 1)
      case None => AsIs
      case Some((ps, end)) =>
        if end >= |s| then AsIs
        else match ParseType(s, end + 1) case None => AsIs case Some((r, _)) => Method(ps, r)
  }

  function ShownAll(ps: seq<JType>): (r: seq<Bytes>)
    ensures |r| == |ps| && forall i :: 0 <= i < |ps| ==> r[i] == Shown(ps[i])
  {
    seq(|ps|, i requires 0 <= i < |ps| => Shown(ps[i]))
  }

  lemma {:induction false} ParamsParse(ps: seq<JType>, pre: Bytes, post: Bytes)
    requires ParamTypes(ps) && post != [] && post[0] == CLOSE
    ensures ParseParams(pre + Params(ps) + post, |pre|) == Some((ShownAll(ps), |pre| + |Params(ps)|))
    decreases |ps|
  {
    hide ParseType, WellFormed, Shown, Descriptor;
    var s := pre + Params(ps) + post;
    if ps == [] {
      assert s[|pre|] == CLOSE;
    } else {
      var d, rest := Descriptor(ps[0]), Params(ps[1..]);
      ParamsSplit(ps);
      ParamsCons(ps);
      hide ParamTypes, Params;
      Regrouped(pre, d, rest, post);
      ParseInvertsDescriptor(ps[0], pre, rest + post);
      Inside(pre, d, rest + post, 0);
      FirstKind(ps[0]);
      ParamsParse(ps[1..], pre + d, post);
      assert ShownAll(ps) == [Shown(ps[0])] + ShownAll(ps[1..]);
    }
  }

  /** On a well-formed method descriptor the C walks and the Go parser agree parameter by parameter:
      slot i is filled and encoded under the first byte of parameter i, for the first 32 of them, and
      the Go side shows parameter i and the return type as Java source does. */
  lemma {:induction false} WalksAgree(ps: seq<JType>, ret: JType)
    requires ParamTypes(ps) && WellFormed(ret)
    ensures var s, n := MethodDescriptor(ps, ret), if |ps| < 32 then |ps| else 32;
            && ExtractedKinds(s, 32) == FirstBytes(ps, 32)
            && EncodedKinds(s, n) == (FirstBytes(ps, 32), false)
            && ParseSignature(s) == Method(ShownAll(ps), Shown(ret))
  {
    hide KindsFrom, EncoderKinds, ParseParams, ParseType, WellFormed, Shown, Descriptor;
    var s, post := MethodDescriptor(ps, ret), [CLOSE] + Descriptor(ret);
    assert s == [OPEN] + Params(ps) + post;
    KindsOfParams(ps, [OPEN], post, 32);
    KindsAlign(s, 32);
    ParamsParse(ps, [OPEN], post);
    ParseInvertsDescriptor(ret, [OPEN] + Params(ps) + [CLOSE], []);
    assert s == ([OPEN] + Params(ps) + [CLOSE]) + Descriptor(ret) + [];
  }

  // ---------------------------------------------------------------------------------------------
  // The programs
  // ---------------------------------------------------------------------------------------------

  method FindSemi(s: Bytes, from: nat) returns (r: Option<nat>)
    requires from <= |s|
    ensures r == PastName(s, from)
  {
    hide IndexFrom;
    var i := from;
    while i < |s|
      invariant from <= i <= |s|
      invariant forall k :: from <= k < i ==> s[k] != SEMI
    {
      if s[i] == SEMI { IndexFromIs(s, SEMI, from, i); return Some(i + 1); }
      i := i + 1;
    }
    assert IndexFrom(s, SEMI, from) < 0;
    r := None;
  }

  method SkipBrackets(s: Bytes, from: nat) returns (j: nat)
    requires from <= |s|
    ensures j == PastBrackets(s, from)
  {
    j := from;
    while j < |s| && s[j] == ARRAY
      invariant from <= j <= |s| && PastBrackets(s, from) == PastBrackets(s, j)
    {
      j := j + 1;
    }
  }

  method SigAdvanceOne(s: Bytes, i: nat) returns (r: Option<nat>)
    requires i < |s|
    ensures r == Advance(s, i)
  {
    if s[i] == CLASS { r := FindSemi(s, i); return; }
    if s[i] == ARRAY {
      var j := SkipBrackets(s, i);
      if j < |s| && s[j] == CLASS { r := FindSemi(s, j); return; }
      return if j == |s| then None else Some(j + 1);
    }
    r := Some(i + 1);
  }

  lemma {:induction false} KindsStep(kinds: Bytes, s: Bytes, i: nat, max: nat)
    requires !AtEnd(s, i) && max > 0
    ensures kinds + KindsFrom(s, i, max) ==
              if s[i] == CLASS || s[i] == ARRAY then
                if Advance(s, i).None? then kinds + [s[i]]
                else kinds + [s[i]] + KindsFrom(s, Advance(s, i).value, max - 1)
              else if IsPrim(s[i]) then kinds + [s[i]] + KindsFrom(s, i + 1, max - 1)
              else kinds
  {
    hide Advance;
    assert kinds + [] == kinds;
  }

  lemma {:induction false} NoKinds(kinds: Bytes, s: Bytes, i: nat, max: nat)
    requires AtEnd(s, i) || max == 0
    ensures kinds + KindsFrom(s, i, max) == kinds
  {
  }

  // Fills at most max slots; kinds lists the kind each was read under.
  method ExtractArgs(s: Bytes, max: nat) returns (kinds: Bytes)
    ensures kinds == ExtractedKinds(s, max)
  {
    hide Advance, KindsFrom;
    kinds := [];
    if s == [] || s[0] != OPEN { return; }
    var i := 1;
    while !AtEnd(s, i) && |kinds| < max
      invariant 1 <= i <= |s| && |kinds| <= max
      invariant ExtractedKinds(s, max) == kinds + KindsFrom(s, i, max - |kinds|)
      decreases |s| - i
    {
      var c := s[i];
      KindsStep(kinds, s, i, max - |kinds|);
      if c == CLASS || c == ARRAY {
        kinds := kinds + [c];
        var next := SigAdvanceOne(s, i);
        if next.None? { return; }
        i := next.value;
      } else {
        if !IsPrim(c) { return; }
        kinds := kinds + [c];
        i := i + 1;
      }
    }
    NoKinds(kinds, s, i, max - |kinds|);
  }

  // The signature side of the encoder: the kind written for each of count arguments.
  method EncodeArgs(s: Bytes, count: nat) returns (kinds: Bytes)
    requires !EncodedKinds(s, count).1
    ensures kinds == EncodedKinds(s, count).0
  {
    hide PastBrackets;
    kinds := [];
    var p: nat := if s != [] && s[0] == OPEN then 1 else 0;
    var i: nat := 0;
    while i < count && !AtEnd(s, p)
      invariant 0 <= i <= count && !EncoderKinds(s, p, count - i).1
      invariant EncodedKinds(s, count).0 == kinds + EncoderKinds(s, p, count - i).0
    {
      var c := s[p];
      ghost var at := p;
      Associate(kinds, [c], EncoderKinds(s, EncoderNext(s, p), count - i - 1).0);
      kinds := kinds + [c];
      if c == ARRAY { p := SkipBrackets(s, p + 1); }
      if p < |s| && s[p] == CLASS {
        var next := FindSemi(s, p);
        p := if next.None? then |s| else next.value;
      } else {
        p := p + 1;
      }
      assert p == EncoderNext(s, at);
      i := i + 1;
    }
  }

  // Parameters already parsed in front of what the rest gives.
  function Behind(params: seq<Bytes>, rest: Option<(seq<Bytes>, nat)>): Option<(seq<Bytes>, nat)> {
    match rest case None => None case Some((ps, end)) => Some((params + ps, end))
  }

  lemma {:induction false} BehindOne(params: seq<Bytes>, p: Bytes, rest: Option<(seq<Bytes>, nat)>)
    ensures Behind(params, Behind([p], rest)) == Behind(params + [p], rest)
  {
    if rest.Some? { assert params + ([p] + rest.value.0) == params + [p] + rest.value.0; }
  }

  lemma {:induction false} BehindNone(rest: Option<(seq<Bytes>, nat)>)
    ensures Behind([], rest) == rest
  {
    if rest.Some? { assert [] + rest.value.0 == rest.value.0; }
  }

  method ParseJNISignature(s: Bytes) returns (r: Shape)
    ensures r == ParseSignature(s)
  {
    hide ParseType;
    if s == [] { return AsIs; }
    if s[0] != OPEN {
      return match ParseType(s, 0) case None => AsIs case Some((t, _)) => Plain(t);
    }
    var idx: nat := 1;
    var params: seq<Bytes> := [];
    BehindNone(ParseParams(s, 1));
    while idx < |s| && s[idx] != CLOSE
      invariant 1 <= idx <= |s|
      invariant ParseParams(s, 1) == Behind(params, ParseParams(s, idx))
      decreases |s| - idx
    {
      var parsed := ParseType(s, idx);
      if parsed.None? { return AsIs; }
      var (param, next) := parsed.value;
      BehindOne(params, param, ParseParams(s, next));
      params := params + [param];
      idx := next;
    }
    assert params + [] == params;
    if idx >= |s| { return AsIs; }
    r := match ParseType(s, idx + 1) case None => AsIs case Some((ret, _)) => Method(params, ret);
  }
}
