/** Calls that log objects: the hook pushes each object for deferred rendering and writes a placeholder
    or the null record; the consumer renders what the sidecar carries and decodes. */
module ObjectCalls {
  import opened Bytes
  import opened Records
  import opened Truncate
  import opened Chunks
  import opened Args
  import opened Wire
  import opened ThreadState

  // What a null object, or one whose push was refused, arrives as.
  const NULL_POINTER := Blank(KPointer).(str := NULL_TEXT)

  // What the reference in a slot arrives as; slots hold references, numbered in the order they were
  // minted, and table lists the objects behind them.
  function SlotValue(slot: int, refs: seq<nat>, table: seq<Obj>): Value {
    if 0 <= slot < |refs| && refs[slot] < |table| then ObjValue(Chunked(table[refs[slot]])) else NULL_POINTER
  }

  predicate Known(refs: seq<nat>, table: seq<Obj>) { forall i :: 0 <= i < |refs| ==> refs[i] < |table| }

  // The chunks the consumer renders for the references of a datagram.
  function Rendered(refs: seq<nat>, table: seq<Obj>): (r: seq<Bytes>)
    requires Known(refs, table)
    ensures |r| == |refs|
  {
    seq(|refs|, i requires 0 <= i < |refs| => ChunkOf(table[refs[i]]))
  }

  predicate InSlots(slots: seq<int>, n: nat) { forall k :: 0 <= k < |slots| ==> -1 <= slots[k] < n }

  function SlotValues(slots: seq<int>, refs: seq<nat>, table: seq<Obj>): (vs: seq<Value>)
    ensures |vs| == |slots| && forall k :: 0 <= k < |vs| ==> vs[k] == SlotValue(slots[k], refs, table)
  {
    seq(|slots|, k requires 0 <= k < |slots| => SlotValue(slots[k], refs, table))
  }

  lemma {:induction false} BuildPointer(raw: Bytes)
    ensures Build(KPointer, raw) == Blank(KPointer).(str := raw)
  {
    hide IndexOf, Split, BuildItems;
  }

  lemma {:induction false} NullRecordDecodes(rendered: seq<Bytes>)
    ensures ValidElem(SlotElem(-1), |rendered|) && ElemValues(SlotElem(-1), rendered) == [NULL_POINTER]
  {
    hide DecodeRecord, Build, PlainTokens, Text;
    BuildPointer(NULL_TEXT);
    PlainRecordIsValid(112, NULL_TEXT, |rendered|);
    PlainTokensText(NULL_TEXT);
    DecodeFramed(112, NULL_TEXT);
  }

  lemma {:induction false} SlotDecodes(slot: int, refs: seq<nat>, table: seq<Obj>)
    requires Known(refs, table) && |refs| <= MAX_REFS && -1 <= slot < |refs|
    ensures var rendered := Rendered(refs, table);
            && AreChunks(rendered) && ValidElem(SlotElem(slot), |rendered|)
            && ElemValues(SlotElem(slot), rendered) == [SlotValue(slot, refs, table)]
  {
    hide DecodeRecord, ChunkOf, IsChunk;
    forall k | 0 <= k < |refs| ensures IsChunk(Rendered(refs, table)[k]) { ChunkIsChunk(table[refs[k]]); }
    if slot < 0 { NullRecordDecodes(Rendered(refs, table)); } else { ChunkDecodes(table[refs[slot]]); }
  }

  lemma {:induction false} SlotsDecode(slots: seq<int>, refs: seq<nat>, table: seq<Obj>)
    requires Known(refs, table) && |refs| <= MAX_REFS && InSlots(slots, |refs|)
    ensures var rendered := Rendered(refs, table);
            && AreChunks(rendered) && ValidElems(SlotElems(slots), |rendered|)
            && ElemsValues(SlotElems(slots), rendered) == SlotValues(slots, refs, table)
  {
    hide SlotElem, ElemValues, IsChunk, SlotValue, ValidElem;
    var rendered := Rendered(refs, table);
    forall k | 0 <= k < |slots| ensures ValidElem(SlotElems(slots)[k], |rendered|) {
      SlotDecodes(slots[k], refs, table);
    }
    if slots == [] {
      forall k | 0 <= k < |refs| ensures IsChunk(rendered[k]) { ChunkIsChunk(table[refs[k]]); }
    } else {
      SlotDecodes(slots[0], refs, table);
      SlotsDecode(slots[1..], refs, table);
      assert SlotElems(slots)[1..] == SlotElems(slots[1..]);
      assert SlotValues(slots, refs, table)
          == [SlotValue(slots[0], refs, table)] + SlotValues(slots[1..], refs, table);
    }
  }

  /** What the consumer decodes from the argument text of an object call, with the chunks of the references
      its datagram carries: for every object pushed, that object, and the null pointer for the others. */
  lemma {:induction false} ObjectCallDecodes(slots: seq<int>, refs: seq<nat>, table: seq<Obj>)
    requires Known(refs, table) && |refs| <= MAX_REFS && InSlots(slots, |refs|)
    ensures Decoded(Substituted(WithHoles(SlotElems(slots)), Rendered(refs, table))) == SlotValues(slots, refs, table)
  {
    hide Decoded, Substituted, ElemsValues;
    var es, rendered := SlotElems(slots), Rendered(refs, table);
    SlotsDecode(slots, refs, table);
    SubstitutionIsInlining(es, rendered);
    DecodeElems(es, [], rendered);
    DecodedNothing();
    assert Inline(es, rendered) + [] == Inline(es, rendered);
    assert SlotValues(slots, refs, table) + [] == SlotValues(slots, refs, table);
  }

  // Slots taken before keep naming their references when more are pushed.
  lemma {:induction false} SlotsGrow(slots: seq<int>, refs: seq<nat>, table: seq<Obj>, refs': seq<nat>,
                                     table': seq<Obj>)
    requires Known(refs, table) && InSlots(slots, |refs|) && refs <= refs' && table <= table'
    ensures SlotValues(slots, refs', table') == SlotValues(slots, refs, table)
  {
    forall k | 0 <= k < |slots|
      ensures SlotValue(slots[k], refs', table') == SlotValue(slots[k], refs, table)
    {
      if slots[k] >= 0 { assert refs[slots[k]] < |table|; }
    }
  }

  predicate Pushable(obj: Option<Obj>, ready: bool, mintable: bool, parked: nat) {
    obj.Some? && ready && mintable && parked < 8
  }

  // One object is pushed; mintable says whether the JNI table still hands out references.
  method PushObject(sc: Sidecar, obj: Option<Obj>, table: seq<Obj>, ready: bool, mintable: bool)
    returns (slot: int, table': seq<Obj>)
    requires sc.Valid() && Known(sc.Contents(), table) && sc.minted == |table|
    modifies sc, sc.refs
    ensures sc.Valid() && sc.minted == |table'| && old(sc.Contents()) <= sc.Contents() && table <= table'
    ensures Known(sc.Contents(), table') && -1 <= slot < |sc.Contents()|
    ensures slot >= 0 <==> Pushable(obj, ready, mintable, |old(sc.Contents())|)
    ensures |sc.Contents()| <= |old(sc.Contents())| + 1
    ensures SlotValue(slot, sc.Contents(), table') == Wanted(obj, slot)
  {
    hide ObjValue, Chunked;
    slot, table' := -1, table;
    if obj.Some? {
      slot := sc.DeferRenderPush(ready, mintable);
      if slot >= 0 { table' := table + [obj.value]; }
    }
  }

  // The value object obj should arrive as when its push gave slot.
  function Wanted(obj: Option<Obj>, slot: int): Value {
    if slot >= 0 && obj.Some? then ObjValue(Chunked(obj.value)) else NULL_POINTER
  }

  // Each object has the slot its push gave, and what lies there is that object.
  ghost predicate Pushed(objs: seq<Option<Obj>>, slots: seq<int>, refs: seq<nat>, table: seq<Obj>) {
    && |slots| <= |objs| && InSlots(slots, |refs|)
    && forall k :: 0 <= k < |slots| ==>
         (slots[k] >= 0 ==> objs[k].Some?) && SlotValue(slots[k], refs, table) == Wanted(objs[k], slots[k])
  }

  lemma {:induction false} OneMorePushed(objs: seq<Option<Obj>>, slots: seq<int>, refs: seq<nat>, table: seq<Obj>,
                      slot: int, refs': seq<nat>, table': seq<Obj>)
    requires Pushed(objs, slots, refs, table) && Known(refs, table) && |slots| < |objs|
    requires refs <= refs' && table <= table' && -1 <= slot < |refs'|
    requires slot >= 0 ==> objs[|slots|].Some?
    requires SlotValue(slot, refs', table') == Wanted(objs[|slots|], slot)
    ensures Pushed(objs, slots + [slot], refs', table')
  {
    hide SlotValue, Wanted;
    SlotsGrow(slots, refs, table, refs', table');
    forall k | 0 <= k < |slots|
      ensures SlotValue(slots[k], refs', table') == Wanted(objs[k], slots[k])
    {
      assert SlotValues(slots, refs', table')[k] == SlotValues(slots, refs, table)[k];
    }
  }

  /** The hooks that log one or two objects. The text they write decodes, against the references then
      parked, to the objects that were pushed and null pointers in the place of the others; an object is
      pushed whenever a consumer is there, a reference can be minted and the sidecar has room. */
  method LogObjects(sc: Sidecar, objs: seq<Option<Obj>>, table: seq<Obj>, ready: bool, mintable: seq<bool>)
    returns (enc: Bytes, table': seq<Obj>, slots: seq<int>)
    requires sc.Valid() && Known(sc.Contents(), table) && sc.minted == |table|
    requires |objs| == |mintable| <= 2
    modifies sc, sc.refs
    ensures sc.Valid() && sc.minted == |table'| && old(sc.Contents()) <= sc.Contents() && table <= table'
    ensures Known(sc.Contents(), table') && |slots| == |objs|
    ensures forall k :: 0 <= k < |objs| && Pushable(objs[k], ready, mintable[k], |old(sc.Contents())| + k) ==>
              slots[k] >= 0
    ensures var vs := Decoded(Substituted(enc, Rendered(sc.Contents(), table')));
            |vs| == |objs| && forall k :: 0 <= k < |objs| ==> vs[k] == Wanted(objs[k], slots[k])
  {
    hide Decoded, Substituted, WithHoles, SlotValue, Wanted, Rendered, SlotElems;
    table', slots := table, [];
    for i := 0 to |objs|
      invariant sc.Valid() && sc.minted == |table'| && Known(sc.Contents(), table') && |slots| == i
      invariant old(sc.Contents()) <= sc.Contents() && table <= table'
      invariant |sc.Contents()| <= |old(sc.Contents())| + i
      invariant Pushed(objs, slots, sc.Contents(), table')
      invariant forall k :: 0 <= k < i && Pushable(objs[k], ready, mintable[k], |old(sc.Contents())| + k) ==>
                  slots[k] >= 0
    {
      ghost var refs, known := sc.Contents(), table';
      var slot;
      slot, table' := PushObject(sc, objs[i], table', ready, mintable[i]);
      OneMorePushed(objs, slots, refs, known, slot, sc.Contents(), table');
      slots := slots + [slot];
    }
    enc := ObjectArgsText(slots);
    ObjectCallDecodes(slots, sc.Contents(), table');
  }
}
