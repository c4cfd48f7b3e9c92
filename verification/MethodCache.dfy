/** The method signature cache: open addressing with linear probing over a fixed table, entries never
    removed. The field cache is the same table under other names. */
module MethodCache {
  import opened Bytes
  import opened Sizes

  const SIZE := 2048
  const NAME_MAX := 128
  const SIG_MAX := 256

  datatype Info = Info(name: Bytes, sig: Bytes, clazz: Bytes)

  datatype Slot = Free | Used(id: int, info: Info)

  // The hash of an id, reduced to the table; any function will do.
  type Hash = f: int -> nat | forall x :: f(x) < SIZE witness (x: int) => 0

  // What a fixed buffer of n + 1 bytes keeps of a string.
  function Clip(s: Bytes, n: nat): Bytes { if |s| <= n then s else s[..n] }

  function Place(start: nat, n: nat): (i: nat)
    ensures i < SIZE
  {
    (start + n) % SIZE
  }

  // The number of probes from start until slot i is met.
  function Distance(start: nat, i: nat): (n: nat)
    requires start < SIZE && i < SIZE
    ensures n < SIZE && Place(start, n) == i
  {
    if i >= start then i - start else i + SIZE - start
  }

  // A store that the table ignores altogether.
  predicate Ignored(id: int, sig: Option<Bytes>) { id == 0 || sig.None? || sig.value == [] }

  // What a store leaves in an entry that held old.
  function Updated(prior: Info, name: Option<Bytes>, sig: Bytes, clazz: Option<Bytes>): Info {
    Info(if name.Some? then Clip(name.value, NAME_MAX - 1) else prior.name,
         Clip(sig, SIG_MAX - 1),
         if clazz.Some? then Clip(clazz.value, NAME_MAX - 1) else prior.clazz)
  }

  const BLANK := Info([], [], [])

  // ---------------------------------------------------------------------------------------------
  // The cache as a map of bounded size
  // ---------------------------------------------------------------------------------------------

  datatype Store = Store(id: int, name: Option<Bytes>, sig: Option<Bytes>, clazz: Option<Bytes>)

  // Last write wins, while there is room for a new id.
  function Put(m: map<int, Info>, limit: nat, s: Store): map<int, Info> {
    if Ignored(s.id, s.sig) then m
    else if s.id in m then m[s.id := Updated(m[s.id], s.name, s.sig.value, s.clazz)]
    else if |m| < limit then m[s.id := Updated(BLANK, s.name, s.sig.value, s.clazz)]
    else m
  }

  function PutAll(m: map<int, Info>, limit: nat, stores: seq<Store>): map<int, Info>
    decreases |stores|
  {
    if stores == [] then m else PutAll(Put(m, limit, stores[0]), limit, stores[1..])
  }

  function Got(m: map<int, Info>, id: int): Option<Info> { if id in m then Some(m[id]) else None }

  // ---------------------------------------------------------------------------------------------
  // The table
  // ---------------------------------------------------------------------------------------------

  type Slots = s: seq<Slot> | |s| == SIZE witness seq(SIZE, _ => Free)

  predicate Stops(slots: Slots, id: int, i: nat)
    requires i < SIZE
  {
    slots[i].Free? || slots[i].id == id
  }

  // Probes from n on until a free slot or one holding id; SIZE when there is none.
  function Probe(slots: Slots, id: int, start: nat, n: nat): (r: nat)
    requires n <= SIZE
    ensures n <= r <= SIZE
    ensures r < SIZE ==> Stops(slots, id, Place(start, r))
    ensures forall k :: n <= k < r ==> !Stops(slots, id, Place(start, k))
    decreases SIZE - n
  {
    if n == SIZE || Stops(slots, id, Place(start, n)) then n else Probe(slots, id, start, n + 1)
  }

  function StoreInto(slots: Slots, hash: Hash, s: Store): Slots {
    if Ignored(s.id, s.sig) then slots
    else
      var n := Probe(slots, s.id, hash(s.id), 0);
      if n == SIZE then slots
      else
        var i := Place(hash(s.id), n);
        slots[i := Used(s.id, Updated(if slots[i].Used? then slots[i].info else BLANK, s.name, s.sig.value, s.clazz))]
  }

  function Found(slots: Slots, hash: Hash, id: int): Option<Info> {
    var n := Probe(slots, id, hash(id), 0);
    if n == SIZE || slots[Place(hash(id), n)].Free? then None else Some(slots[Place(hash(id), n)].info)
  }

  // The entry in slot i can be reached from its hash without crossing a free slot.
  ghost predicate Reached(slots: Slots, hash: Hash, i: nat)
    requires i < SIZE && slots[i].Used?
  {
    forall k :: 0 <= k < Distance(hash(slots[i].id), i) ==> slots[Place(hash(slots[i].id), k)].Used?
  }

  ghost predicate Reachable(slots: Slots, hash: Hash) {
    forall i :: 0 <= i < SIZE && slots[i].Used? ==> Reached(slots, hash, i)
  }

  function InUse(slots: Slots): set<nat> { set i | 0 <= i < |slots| && slots[i].Used? }

  // at names the slot of every id in the table.
  ghost predicate Located(slots: Slots, at: map<int, nat>) {
    && (forall i :: 0 <= i < SIZE && slots[i].Used? ==> slots[i].id in at && at[slots[i].id] == i)
    && (forall id :: id in at ==> at[id] < SIZE && slots[at[id]].Used? && slots[at[id]].id == id)
    && |at| == |InUse(slots)|
  }

  ghost predicate Good(slots: Slots, hash: Hash, at: map<int, nat>) {
    Located(slots, at) && Reachable(slots, hash)
  }

  // The table read as a map.
  ghost function Entries(slots: Slots, at: map<int, nat>): (m: map<int, Info>)
    requires Located(slots, at)
    ensures m.Keys == at.Keys && |m| == |at|
  {
    var m := map id | id in at :: slots[at[id]].info;
    assert |m| == |m.Keys| && |at| == |at.Keys| && m.Keys == at.Keys;
    m
  }

  lemma {:induction false} EntryAt(slots: Slots, at: map<int, nat>, id: int)
    requires Located(slots, at) && id in at
    ensures at[id] < SIZE && slots[at[id]] == Used(id, Entries(slots, at)[id])
  {
  }

  lemma {:induction false} PlaceInverse(start: nat, n: nat)
    requires start < SIZE && n < SIZE
    ensures Distance(start, Place(start, n)) == n
  {
  }

  // Probing for a stored id stops at its slot.
  lemma {:induction false} ProbeMeets(slots: Slots, hash: Hash, at: map<int, nat>, id: int)
    requires Good(slots, hash, at) && id in at
    ensures at[id] < SIZE && slots[at[id]].Used? && slots[at[id]].id == id
    ensures Probe(slots, id, hash(id), 0) < SIZE && Place(hash(id), Probe(slots, id, hash(id), 0)) == at[id]
  {
    hide Place, Distance, Probe, Reached, Located, Reachable;
    var i := at[id];
    SlotOf(slots, hash, at, id);
    var n, d := Probe(slots, id, hash(id), 0), Distance(hash(id), i);
    assert Stops(slots, id, Place(hash(id), d));
    assert n <= d;
    if n < d {
      ReachedAt(slots, hash, i, n);
      OnlySlot(slots, at, id, Place(hash(id), n));
      PlaceInverse(hash(id), n);
      PlaceInverse(hash(id), d);
    }
  }

  lemma {:induction false} SlotOf(slots: Slots, hash: Hash, at: map<int, nat>, id: int)
    requires Good(slots, hash, at) && id in at
    ensures at[id] < SIZE && slots[at[id]].Used? && slots[at[id]].id == id && Reached(slots, hash, at[id])
  {
    hide Reached;
  }

  lemma {:induction false} OnlySlot(slots: Slots, at: map<int, nat>, id: int, j: nat)
    requires Located(slots, at) && j < SIZE && slots[j].Used? && slots[j].id == id
    ensures id in at && at[id] == j
  {
  }

  lemma {:induction false} ReachedAt(slots: Slots, hash: Hash, i: nat, k: nat)
    requires i < SIZE && slots[i].Used? && Reached(slots, hash, i) && k < Distance(hash(slots[i].id), i)
    ensures slots[Place(hash(slots[i].id), k)].Used?
  {
  }

  lemma {:induction false} FullCount(slots: Slots)
    requires forall i :: 0 <= i < SIZE ==> slots[i].Used?
    ensures |InUse(slots)| == SIZE
  {
    hide UpTo;
    assert InUse(slots) == UpTo(SIZE);
  }

  lemma {:induction false} RoomCount(slots: Slots, i: nat)
    requires i < SIZE && slots[i].Free?
    ensures |InUse(slots)| < SIZE
  {
    hide UpTo;
    SubsetSize(InUse(slots), UpTo(SIZE) - {i});
  }

  lemma {:induction false} InsertCount(slots: Slots, i: nat, id: int, info: Info)
    requires i < SIZE
    ensures |InUse(slots[i := Used(id, info)])| == |InUse(slots)| + if slots[i].Free? then 1 else 0
  {
    assert InUse(slots[i := Used(id, info)]) == InUse(slots) + {i};
    if slots[i].Used? { assert InUse(slots) + {i} == InUse(slots); }
  }

  // A probe for an absent id stops at a free slot, or nowhere when every slot is in use.
  lemma {:induction false} ProbeAbsent(slots: Slots, hash: Hash, at: map<int, nat>, id: int)
    requires Located(slots, at) && id !in at
    ensures var n := Probe(slots, id, hash(id), 0); n < SIZE ==> slots[Place(hash(id), n)].Free?
    ensures Probe(slots, id, hash(id), 0) == SIZE <==> |at| >= SIZE
  {
    hide Place, Distance, InUse, Probe;
    var n := Probe(slots, id, hash(id), 0);
    if n < SIZE {
      RoomCount(slots, Place(hash(id), n));
    } else {
      forall i | 0 <= i < SIZE ensures slots[i].Used? { NowhereStopped(slots, id, hash(id), i); }
      FullCount(slots);
    }
  }

  // A probe that stops nowhere has passed every slot.
  lemma {:induction false} NowhereStopped(slots: Slots, id: int, start: nat, i: nat)
    requires start < SIZE && i < SIZE && Probe(slots, id, start, 0) == SIZE
    ensures !Stops(slots, id, i)
  {
    assert !Stops(slots, id, Place(start, Distance(start, i)));
  }

  lemma {:induction false} ProbeStep(slots: Slots, id: int, start: nat, n: nat)
    requires n < SIZE
    ensures Probe(slots, id, start, n) ==
              if Stops(slots, id, Place(start, n)) then n else Probe(slots, id, start, n + 1)
  {
  }

  // What a store writes once its probe has stopped.
  lemma {:induction false} StoreAt(slots: Slots, hash: Hash, s: Store, n: nat)
    requires !Ignored(s.id, s.sig) && n <= SIZE && Probe(slots, s.id, hash(s.id), 0) == n
    ensures n == SIZE ==> StoreInto(slots, hash, s) == slots
    ensures n < SIZE ==>
              var i := Place(hash(s.id), n);
              var prior := if slots[i].Used? then slots[i].info else BLANK;
              StoreInto(slots, hash, s) == slots[i := Used(s.id, Updated(prior, s.name, s.sig.value, s.clazz))]
  {
    hide Probe, Place, Updated;
  }

  /** A lookup answers exactly as the map does. */
  lemma {:induction false} FoundIsMap(slots: Slots, hash: Hash, at: map<int, nat>, id: int)
    requires Good(slots, hash, at)
    ensures Found(slots, hash, id) == Got(Entries(slots, at), id)
  {
    hide Place, Reachable, InUse, Probe;
    if id in at { ProbeMeets(slots, hash, at, id); } else { ProbeAbsent(slots, hash, at, id); }
  }

  lemma {:induction false} UpdateReachable(slots: Slots, hash: Hash, i: nat, info: Info)
    requires Reachable(slots, hash) && i < SIZE && slots[i].Used?
    ensures Reachable(slots[i := Used(slots[i].id, info)], hash)
  {
    hide Place, Distance;
    var slots' := slots[i := Used(slots[i].id, info)];
    forall j | 0 <= j < SIZE && slots'[j].Used? ensures Reached(slots', hash, j) {
      assert Reached(slots, hash, j);
    }
  }

  // Slot i is written with an entry for id, which had that slot before or none.
  lemma {:induction false} WriteLocated(slots: Slots, at: map<int, nat>, id: int, i: nat, info: Info)
    requires Located(slots, at) && i < SIZE
    requires if id in at then at[id] == i else slots[i].Free?
    ensures Located(slots[i := Used(id, info)], at[id := i])
  {
    hide InUse;
    InsertCount(slots, i, id, info);
    var at' := at[id := i];
    assert at'.Keys == at.Keys + {id};
    assert |at'| == |at'.Keys| && |at| == |at.Keys|;
    if id in at { assert at.Keys + {id} == at.Keys; }
  }

  lemma {:induction false} WriteEntries(slots: Slots, at: map<int, nat>, id: int, i: nat, info: Info)
    requires Located(slots, at) && i < SIZE
    requires if id in at then at[id] == i else slots[i].Free?
    requires Located(slots[i := Used(id, info)], at[id := i])
    ensures Entries(slots[i := Used(id, info)], at[id := i]) == Entries(slots, at)[id := info]
  {
    hide InUse;
    var m', m := Entries(slots[i := Used(id, info)], at[id := i]), Entries(slots, at)[id := info];
    assert m'.Keys == m.Keys;
    forall x | x in m' ensures m'[x] == m[x] {
      if x != id { assert at[x] != i; }
    }
  }

  lemma {:induction false} InsertReachable(slots: Slots, hash: Hash, id: int, n: nat, info: Info)
    requires Reachable(slots, hash) && n == Probe(slots, id, hash(id), 0) < SIZE
    requires slots[Place(hash(id), n)].Free?
    ensures Reachable(slots[Place(hash(id), n) := Used(id, info)], hash)
  {
    hide Place, Distance, Probe;
    var i := Place(hash(id), n);
    PlaceInverse(hash(id), n);
    var slots' := slots[i := Used(id, info)];
    forall j | 0 <= j < SIZE && slots'[j].Used? ensures Reached(slots', hash, j) {
      if j == i {
        assert forall k :: 0 <= k < n ==> !Stops(slots, id, Place(hash(id), k));
      } else {
        assert Reached(slots, hash, j);
      }
    }
  }

  lemma {:induction false} WriteGood(slots: Slots, hash: Hash, at: map<int, nat>, id: int, i: nat, info: Info)
    requires Good(slots, hash, at) && i < SIZE
    requires if id in at then at[id] == i && slots[i].Used? && slots[i].id == id else slots[i].Free?
    requires id in at || Reachable(slots[i := Used(id, info)], hash)
    ensures Good(slots[i := Used(id, info)], hash, at[id := i])
    ensures Entries(slots[i := Used(id, info)], at[id := i]) == Entries(slots, at)[id := info]
  {
    hide Located, Reachable, Entries;
    WriteLocated(slots, at, id, i, info);
    WriteEntries(slots, at, id, i, info);
    if id in at { UpdateReachable(slots, hash, i, info); }
  }

  // What a store that is not ignored writes, and where.
  lemma {:induction false} StoreWrites(slots: Slots, hash: Hash, at: map<int, nat>, s: Store)
    returns (full: bool, i: nat, info: Info)
    requires Good(slots, hash, at) && !Ignored(s.id, s.sig)
    ensures full <==> s.id !in at && |at| >= SIZE
    ensures full ==> StoreInto(slots, hash, s) == slots
    ensures i < SIZE
    ensures !full ==> && StoreInto(slots, hash, s) == slots[i := Used(s.id, info)]
                      && (if s.id in at then at[s.id] == i && slots[i].Used? && slots[i].id == s.id else slots[i].Free?)
                      && (s.id in at || Reachable(slots[i := Used(s.id, info)], hash))
                      && info == Updated(if slots[i].Used? then slots[i].info else BLANK, s.name, s.sig.value, s.clazz)
  {
    hide Place, Distance, Updated, Probe, Located, Reachable;
    var n := Probe(slots, s.id, hash(s.id), 0);
    full, i, info := n == SIZE, 0, BLANK;
    if s.id in at { ProbeMeets(slots, hash, at, s.id); } else { ProbeAbsent(slots, hash, at, s.id); }
    if n < SIZE {
      i := Place(hash(s.id), n);
      info := Updated(if slots[i].Used? then slots[i].info else BLANK, s.name, s.sig.value, s.clazz);
      if s.id !in at { InsertReachable(slots, hash, s.id, n, info); }
    }
  }

  lemma {:induction false} PutWrites(slots: Slots, at: map<int, nat>, s: Store, i: nat, info: Info)
    requires Located(slots, at) && !Ignored(s.id, s.sig)
    requires i < SIZE && (s.id in at ==> at[s.id] == i) && (s.id !in at && |at| < SIZE ==> slots[i].Free?)
    requires s.id in at || |at| < SIZE ==>
               info == Updated(if slots[i].Used? then slots[i].info else BLANK, s.name, s.sig.value, s.clazz)
    ensures Put(Entries(slots, at), SIZE, s) ==
              if s.id !in at && |at| >= SIZE then Entries(slots, at) else Entries(slots, at)[s.id := info]
  {
    hide Updated, Located, Entries;
    if s.id in at { EntryAt(slots, at, s.id); }
  }

  /** A store acts on the table as on the map: an id already there is updated wherever it lies, a new
      one is added while fewer than 2048 ids are held, and is dropped after that. */
  lemma {:induction false} StoreIsPut(slots: Slots, hash: Hash, at: map<int, nat>, s: Store)
    returns (at': map<int, nat>)
    requires Good(slots, hash, at)
    ensures var slots' := StoreInto(slots, hash, s);
            Good(slots', hash, at') && Entries(slots', at') == Put(Entries(slots, at), SIZE, s)
  {
    hide Updated, Located, Reachable, Entries, Probe, Place;
    at' := at;
    assert Ignored(s.id, s.sig) ==> StoreInto(slots, hash, s) == slots;
    hide StoreInto;
    if !Ignored(s.id, s.sig) {
      var full, i, info := StoreWrites(slots, hash, at, s);
      PutWrites(slots, at, s, i, info);
      hide Put, Good;
      if !full {
        at' := at[s.id := i];
        WriteGood(slots, hash, at, s.id, i, info);
      }
    }
  }

  // What is found for an id after a store.
  predicate StoredAs(before: Option<Info>, after: Option<Info>, s: Store)
    requires s.sig.Some?
  {
    var prior := if before.Some? then before.value else BLANK;
    && after.Some?
    && IsCut(after.value.sig, s.sig.value, 255)
    && (if s.name.Some? then IsCut(after.value.name, s.name.value, 127) else after.value.name == prior.name)
    && (if s.clazz.Some? then IsCut(after.value.clazz, s.clazz.value, 127) else after.value.clazz == prior.clazz)
  }

  // r is s, or its first n bytes when it is longer than that.
  predicate IsCut(r: Bytes, s: Bytes, n: nat) { r <= s && |r| == if |s| <= n then |s| else n }

  lemma {:induction false} PutThenGot(m: map<int, Info>, s: Store, id: int)
    requires !Ignored(s.id, s.sig)
    ensures id != s.id ==> Got(Put(m, SIZE, s), id) == Got(m, id)
    ensures s.id in m || |m| < SIZE ==> StoredAs(Got(m, s.id), Got(Put(m, SIZE, s), s.id), s)
  {
  }

  /** What a lookup finds after a store: under the stored id the signature, cut to 255 bytes, and the
      name and class, cut to 127, or the old ones, or nothing for a new id; under every other id what
      it found before. A new id is lost exactly when 2048 others are held. */
  lemma {:induction false} StoreThenFind(slots: Slots, hash: Hash, at: map<int, nat>, s: Store, id: int)
    requires Good(slots, hash, at) && s.id != 0 && s.sig.Some? && s.sig.value != []
    ensures id != s.id ==> Found(StoreInto(slots, hash, s), hash, id) == Found(slots, hash, id)
    ensures if s.id in at || |at| < SIZE
            then StoredAs(Found(slots, hash, s.id), Found(StoreInto(slots, hash, s), hash, s.id), s)
            else Found(StoreInto(slots, hash, s), hash, s.id) == None
  {
    assert !Ignored(s.id, s.sig);
    hide Good, Found, StoreInto, Entries, StoredAs, Ignored, Got;
    assert Located(slots, at) by { GoodLocated(slots, hash, at); }
    var m := Entries(slots, at);
    var at' := StoreIsPut(slots, hash, at, s);
    FoundIsMap(slots, hash, at, id);
    FoundIsMap(slots, hash, at, s.id);
    FoundIsMap(StoreInto(slots, hash, s), hash, at', id);
    FoundIsMap(StoreInto(slots, hash, s), hash, at', s.id);
    PutThenGot(m, s, id);
    FullDrops(m, s);
  }

  lemma {:induction false} GoodLocated(slots: Slots, hash: Hash, at: map<int, nat>)
    requires Good(slots, hash, at)
    ensures Located(slots, at)
  {
  }

  lemma {:induction false} FullDrops(m: map<int, Info>, s: Store)
    requires !Ignored(s.id, s.sig)
    ensures s.id !in m && |m| >= SIZE ==> Got(Put(m, SIZE, s), s.id) == None
  {
  }

  /** A store for id 0, or without a signature, changes nothing. */
  lemma {:induction false} EmptyStore(slots: Slots, hash: Hash, s: Store)
    requires s.id == 0 || s.sig.None? || s.sig.value == []
    ensures StoreInto(slots, hash, s) == slots
  {
    IgnoredStore(slots, hash, s);
  }

  lemma {:induction false} IgnoredStore(slots: Slots, hash: Hash, s: Store)
    requires Ignored(s.id, s.sig)
    ensures StoreInto(slots, hash, s) == slots
  {
  }

  lemma {:induction false} ProbeEnds(slots: Slots, id: int, start: nat)
    ensures Probe(slots, id, start, SIZE) == SIZE
  {
  }

  const EMPTY: Slots := seq(SIZE, _ => Free)

  function StoreAll(slots: Slots, hash: Hash, stores: seq<Store>): Slots
    decreases |stores|
  {
    if stores == [] then slots else StoreAll(StoreInto(slots, hash, stores[0]), hash, stores[1..])
  }

  lemma {:induction false} StoreAllIsPutAll(slots: Slots, hash: Hash, at: map<int, nat>, stores: seq<Store>)
    returns (at': map<int, nat>)
    requires Good(slots, hash, at)
    ensures var slots' := StoreAll(slots, hash, stores);
            Good(slots', hash, at') && Entries(slots', at') == PutAll(Entries(slots, at), SIZE, stores)
    decreases |stores|
  {
    hide Good, StoreInto, Put;
    at' := at;
    if stores != [] {
      at' := StoreIsPut(slots, hash, at, stores[0]);
      at' := StoreAllIsPutAll(StoreInto(slots, hash, stores[0]), hash, at', stores[1..]);
    }
  }

  // The distinct ids stored by stores that are not ignored.
  function IdsOf(stores: seq<Store>): set<int>
    decreases |stores|
  {
    if stores == [] then {}
    else (if Ignored(stores[0].id, stores[0].sig) then {} else {stores[0].id}) + IdsOf(stores[1..])
  }

  // Put without a limit: a plain map, last write wins.
  lemma {:induction false} RoomForAll(m: map<int, Info>, stores: seq<Store>, bound: set<int>, huge: nat)
    requires m.Keys + IdsOf(stores) <= bound && |bound| <= SIZE <= huge
    ensures PutAll(m, SIZE, stores) == PutAll(m, huge, stores)
    decreases |stores|
  {
    if stores != [] {
      var s := stores[0];
      if !Ignored(s.id, s.sig) && s.id !in m {
        assert m.Keys + {s.id} <= bound;
        SubsetSize(m.Keys + {s.id}, bound);
        assert |m.Keys + {s.id}| == |m.Keys| + 1;
        assert |m| == |m.Keys|;
      }
      RoomForAll(Put(m, SIZE, s), stores[1..], bound, huge);
    }
  }

  /** After any stores, every lookup answers as the map they build would: last write wins, and while
      at most 2048 distinct ids are stored nothing is ever dropped. */
  lemma {:induction false} CacheIsMap(hash: Hash, stores: seq<Store>, id: int)
    ensures Found(StoreAll(EMPTY, hash, stores), hash, id) == Got(PutAll(map[], SIZE, stores), id)
    ensures |IdsOf(stores)| <= SIZE ==>
              forall huge: nat :: huge >= SIZE ==> PutAll(map[], SIZE, stores) == PutAll(map[], huge, stores)
  {
    assert InUse(EMPTY) == {};
    var at := StoreAllIsPutAll(EMPTY, hash, map[], stores);
    assert Entries(EMPTY, map[]) == map[];
    FoundIsMap(StoreAll(EMPTY, hash, stores), hash, at, id);
    if |IdsOf(stores)| <= SIZE {
      forall huge: nat | huge >= SIZE ensures PutAll(map[], SIZE, stores) == PutAll(map[], huge, stores) {
        RoomForAll(map[], stores, IdsOf(stores), huge);
      }
    }
  }

  // ---------------------------------------------------------------------------------------------
  // The program
  // ---------------------------------------------------------------------------------------------

  // What a lookup hands back in a buffer of size bytes.
  function Copied(s: Bytes, size: nat): Option<Bytes> {
    if size == 0 then None else Some(Clip(s, size - 1))
  }

  /** A buffer of some size gets the text, cut to leave room for its terminator; one of no size gets nothing. */
  lemma {:induction false} CopiedFits(s: Bytes, size: nat)
    ensures Copied(s, size).None? <==> size == 0
    ensures size > 0 ==> IsCut(Copied(s, size).value, s, size - 1)
  {
  }

  class SignatureCache {
    const entries: array<Slot>
    const hash: Hash

    ghost predicate Valid()
      reads this
    {
      entries.Length == SIZE
    }

    ghost function Now(): Slots
      requires Valid()
      reads this, entries
    {
      entries[..]
    }

    constructor (h: Hash)
      ensures Valid() && Now() == EMPTY && hash == h && fresh(entries)
    {
      hash := h;
      entries := new Slot[SIZE](_ => Free);
      new;
      assert entries[..] == EMPTY;
    }

    method CacheMethodSignature(id: int, name: Option<Bytes>, sig: Option<Bytes>, clazz: Option<Bytes>)
      requires Valid()
      modifies entries
      ensures Now() == StoreInto(old(Now()), hash, Store(id, name, sig, clazz))
    {
      hide Place, Clip, Probe, StoreInto;
      ghost var was, s := Now(), Store(id, name, sig, clazz);
      if id == 0 || sig.None? || sig.value == [] {
        IgnoredStore(was, hash, s);
        return;
      }
      var start := hash(id);
      var firstFree := SIZE;
      var n := 0;
      while n < SIZE
        invariant n <= SIZE && firstFree == SIZE && Now() == was
        invariant Probe(was, id, start, n) == Probe(was, id, start, 0)
      {
        var i := Place(start, n);
        ProbeStep(was, id, start, n);
        assert entries[i] == was[i];
        if entries[i].Used? {
          if entries[i].id == id {
            StoreAt(was, hash, s, n);
            var info := entries[i].info;
            if name.Some? { info := info.(name := Clip(name.value, NAME_MAX - 1)); }
            if clazz.Some? { info := info.(clazz := Clip(clazz.value, NAME_MAX - 1)); }
            info := info.(sig := Clip(sig.value, SIG_MAX - 1));
            entries[i] := Used(id, info);
            assert Now() == was[i := Used(id, info)];
            return;
          }
          n := n + 1;
          continue;
        }
        if firstFree == SIZE { firstFree := i; }
        break;
      }
      ProbeEnds(was, id, start);
      StoreAt(was, hash, s, n);
      if firstFree != SIZE {
        var newName: Bytes := if name.Some? then Clip(name.value, NAME_MAX - 1) else [];
        var newClazz: Bytes := if clazz.Some? then Clip(clazz.value, NAME_MAX - 1) else [];
        entries[firstFree] := Used(id, Info(newName, Clip(sig.value, SIG_MAX - 1), newClazz));
        assert Now() == was[firstFree := Used(id, Updated(BLANK, name, sig.value, clazz))];
      }
    }

    method LookupMethodInfo(id: int, nameSize: nat, sigSize: nat, clazzSize: nat)
      returns (name: Option<Bytes>, sig: Option<Bytes>, clazz: Option<Bytes>)
      requires Valid()
      ensures var found := if id == 0 then None else Found(Now(), hash, id);
              if found.None? then name == None && sig == None && clazz == None
              else && name == Copied(found.value.name, nameSize) && sig == Copied(found.value.sig, sigSize)
                   && clazz == Copied(found.value.clazz, clazzSize)
    {
      hide Place, Copied;
      name, sig, clazz := None, None, None;
      if id == 0 { return; }
      var start := hash(id);
      var n := 0;
      while n < SIZE
        invariant n <= SIZE && name == None && sig == None && clazz == None
        invariant Probe(Now(), id, start, n) == Probe(Now(), id, start, 0)
      {
        var i := Place(start, n);
        if !entries[i].Used? { break; }
        if entries[i].id == id {
          name := Copied(entries[i].info.name, nameSize);
          sig := Copied(entries[i].info.sig, sigSize);
          clazz := Copied(entries[i].info.clazz, clazzSize);
          break;
        }
        n := n + 1;
      }
    }
  }
}
