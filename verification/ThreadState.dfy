/** What a hook thread keeps between JNI calls: the stack of ids of its logged calls, and the global
    references minted for deferred rendering that no datagram carries yet. */
module ThreadState {

  const DEPTH := 32
  const MAX_REFS := 8

  // ---------------------------------------------------------------------------------------------
  // Call ids
  // ---------------------------------------------------------------------------------------------

  // The logical nesting may exceed the array; frames past it are counted but not stored.
  datatype CallIds = CallIds(ids: seq<nat>, depth: int)

  const NO_CALLS := CallIds(seq(DEPTH, _ => 0), 0)

  function PushId(c: CallIds, id: nat): CallIds
    requires |c.ids| == DEPTH
  {
    CallIds(if 0 <= c.depth < DEPTH then c.ids[c.depth := id] else c.ids, c.depth + 1)
  }

  function PopDepth(c: CallIds): CallIds {
    c.(depth := if c.depth <= 0 then 0 else c.depth - 1)
  }

  // The id a pop returns; 0 stands for an unpaired return.
  function PoppedId(c: CallIds): nat
    requires |c.ids| == DEPTH
  {
    if 0 < c.depth <= DEPTH then c.ids[c.depth - 1] else 0
  }

  // The array and depth stand for the stack of ids st.
  ghost predicate Holds(c: CallIds, st: seq<nat>) {
    && |c.ids| == DEPTH && c.depth == |st|
    && forall k :: 0 <= k < |st| && k < DEPTH ==> c.ids[k] == st[k]
  }

  lemma {:induction false} PushHolds(c: CallIds, st: seq<nat>, id: nat)
    requires Holds(c, st)
    ensures Holds(PushId(c, id), st + [id])
  {
  }

  /** A pop returns the id on top of the stack, or 0 for a frame that was pushed past the array, and
      leaves the frames below intact. */
  lemma {:induction false} PopHolds(c: CallIds, st: seq<nat>)
    requires Holds(c, st)
    ensures st != [] ==> PoppedId(c) == (if |st| <= 32 then st[|st| - 1] else 0)
                         && Holds(PopDepth(c), st[..|st| - 1])
    ensures st == [] ==> PoppedId(c) == 0 && Holds(PopDepth(c), st)
  {
  }

  class TlsCallIds {
    const ids: array<nat>
    var depth: int

    ghost predicate Valid()
      reads this
    {
      ids.Length == DEPTH
    }

    ghost function Now(): CallIds
      reads this, ids
    {
      CallIds(ids[..], depth)
    }

    constructor ()
      ensures Valid() && Now() == NO_CALLS && fresh(ids)
    {
      ids := new nat[DEPTH](_ => 0);
      depth := 0;
    }

    method Push(id: nat)
      requires Valid()
      modifies this, ids
      ensures Valid() && Now() == PushId(old(Now()), id)
    {
      var d := depth;
      depth := depth + 1;
      if 0 <= d < DEPTH { ids[d] := id; }
    }

    method Pop() returns (id: nat)
      requires Valid()
      modifies this
      ensures Valid() && Now() == PopDepth(old(Now())) && id == PoppedId(old(Now()))
    {
      if depth <= 0 { depth := 0; return 0; }
      depth := depth - 1;
      var d := depth;
      if d < DEPTH { return ids[d]; }
      return 0;
    }
  }

  // ---------------------------------------------------------------------------------------------
  // The sidecar
  // ---------------------------------------------------------------------------------------------

  /** References minted by this thread; minting and deleting go through the JNI table, whose count
      of references handed out and list of deleted ones are kept beside it. */
  class Sidecar {
    const refs: array<nat>
    var nrefs: nat
    var minted: nat
    var deleted: seq<nat>

    ghost predicate Valid()
      reads this, refs
    {
      refs.Length == MAX_REFS && nrefs <= MAX_REFS
    }

    function Contents(): seq<nat>
      reads this, refs
      requires Valid()
    {
      refs[..nrefs]
    }

    constructor ()
      ensures Valid() && Contents() == [] && minted == 0 && deleted == []
      ensures fresh(refs)
    {
      refs := new nat[MAX_REFS](_ => 0);
      nrefs, minted, deleted := 0, 0, [];
    }

    // The slot taken, or -1 when nothing was minted.
    method DeferRenderPush(consumerReady: bool, mintable: bool) returns (slot: int)
      requires Valid()
      modifies this, refs
      ensures Valid() && deleted == old(deleted)
      ensures slot == if consumerReady && mintable && |old(Contents())| < 8 then |old(Contents())| else -1
      ensures slot < 0 ==> Contents() == old(Contents()) && minted == old(minted)
      ensures slot >= 0 ==> Contents() == old(Contents()) + [old(minted)] && minted == old(minted) + 1
      ensures slot >= 0 ==> Contents()[slot] == old(minted)
    {
      if !consumerReady { return -1; }
      if nrefs >= MAX_REFS { return -1; }
      if !mintable { return -1; }
      refs[nrefs] := minted;
      minted := minted + 1;
      slot := nrefs;
      nrefs := nrefs + 1;
    }

    // Delivered: the consumer owns the references now.
    method Reset()
      requires Valid()
      modifies this
      ensures Valid() && Contents() == [] && minted == old(minted) && deleted == old(deleted)
    {
      nrefs := 0;
    }

    // Not delivered: delete them here.
    method Drop()
      requires Valid()
      modifies this
      ensures Valid() && Contents() == [] && minted == old(minted)
      ensures deleted == old(deleted) + old(Contents())
    {
      for i := 0 to nrefs
        invariant Valid() && nrefs == old(nrefs) && minted == old(minted)
        invariant deleted == old(deleted) + refs[..i]
      {
        assert refs[..i + 1] == refs[..i] + [refs[i]];
        deleted := deleted + [refs[i]];
      }
      nrefs := 0;
    }

    // The end of every emit; delivered is what send reported.
    method FinishRecord(delivered: bool) returns (carried: seq<nat>)
      requires Valid()
      modifies this
      ensures Valid() && Contents() == [] && minted == old(minted)
      ensures carried == if delivered then old(Contents()) else []
      ensures deleted == old(deleted) + if delivered then [] else old(Contents())
    {
      if !delivered {
        Drop();
        return [];
      }
      carried := Contents();
      Reset();
    }
  }
}
