/** Where malloc finds room: freed blocks are handed out again before memory is carved or mapped. */
module FreeLists {
  import opened SizeClasses
  import opened Sizes
  import opened Allocator

  // Class k is the least whose blocks hold n bytes; the classes are 16, 32, 64, ... 65536 bytes.
  predicate LeastClass(n: nat, k: nat) {
    k < 13 && n <= 16 * Pow2(k) && (k > 0 ==> 16 * Pow2(k - 1) < n)
  }

  // Neither the free list of class k nor the rest of the superblock has room for n bytes.
  predicate NeedsMapping(s: Heap, n: nat, k: nat)
    requires n <= 65536 ==> k < |s.l.lists|
  {
    n > 65536 || (s.l.lists[k] == [] && (s.bump == 0 || s.end < s.bump + 16 + 16 * Pow2(k)))
  }

  lemma {:induction false} LeastIsUnique(n: nat, k: nat, j: nat)
    requires LeastClass(n, k) && LeastClass(n, j)
    ensures k == j
  {
    if k < j { Pow2Grows(k, j - 1); }
    if j < k { Pow2Grows(j, k - 1); }
  }

  lemma {:induction false} ClassForIsLeast(n: nat)
    requires n <= 65536
    ensures LeastClass(n, ClassFor(n))
  {
    hide SizeToPow2;
    LeastAdequateClass(AtLeastOne(n));
    if n == 0 { assert Pow2(0) == 1; PowerSteps(ClassFor(n)); }
  }

  lemma {:induction false} PowerSteps(k: nat)
    ensures k > 0 ==> Pow2(k - 1) >= 1
  {
  }

  lemma {:induction false} LeastIsFor(n: nat, k: nat)
    requires n <= 65536 && LeastClass(n, k)
    ensures k == ClassFor(n) && ClassSize(k) == 16 * Pow2(k)
  {
    ClassForIsLeast(n);
    LeastIsUnique(n, k, ClassFor(n));
  }

  // ---------------------------------------------------------------------------------------------
  // One call
  // ---------------------------------------------------------------------------------------------

  /** While the free list of the least adequate class holds a block, malloc hands out its first one, whatever
      the kernel would answer; nothing is mapped or carved, and exactly that block leaves the list. */
  lemma {:induction false} MallocReuses(s: Heap, n: nat, k: nat, answer: int)
    requires Ok(s) && n <= 65536 && LeastClass(n, k) && s.l.lists[k] != []
    ensures var (s', p) := Malloced(s, n, answer);
            var list := s.l.lists[k];
            && p == list[0] + 16 && s'.bump == s.bump && s'.end == s.end
            && s'.l == s.l.(lists := s.l.lists[k := list[1..]], live := s.l.live + {list[0]})
  {
    LeastIsFor(n, k);
    hide ClassFor, ClassSize, WithHeader, LeastClass, RegionsOk, BlocksOk, BumpOk, ListOk, Conserved, HeadersOk;
  }

  /** malloc fails if and only if a mapping is needed and refused. */
  lemma {:induction false} MallocFails(s: Heap, n: nat, k: nat, answer: int)
    requires Ok(s) && n < SIZE_RANGE && Answer(s, n, answer) && (n <= 65536 ==> LeastClass(n, k))
    ensures Malloced(s, n, answer).1 == 0 <==> NeedsMapping(s, n, k) && answer == 0
  {
    MallocOk(s, n, answer);
    if n <= 65536 { LeastIsFor(n, k); }
    hide ClassFor, HandsOut, MapLarge, Pop, Carve, NewArena, PagesFor, SizeToPow2, LeastClass,
         RegionsOk, BlocksOk, BumpOk, ListOk, Conserved, HeadersOk;
    if n <= 65536 && s.l.lists[k] != [] { PopPositive(s, k); }
    if n <= 65536 && Fits(s, k) { BumpNever0(s, k, answer); }
  }

  /** What malloc maps: whole pages for a large request, one superblock of a megabyte for a small one that
      finds no room, and otherwise nothing. Only an empty free list makes it carve a block. */
  lemma {:induction false} MallocMaps(s: Heap, n: nat, k: nat, answer: int)
    requires Ok(s) && (n <= 65536 ==> LeastClass(n, k))
    ensures var s' := Malloced(s, n, answer).0;
            && s'.l.regions == (if NeedsMapping(s, n, k) && answer != 0
                                then s.l.regions[answer := if n > 65536 then PagesFor(16 + n) else 0x10_0000]
                                else s.l.regions)
            && (s'.l.blocks != s.l.blocks ==> n <= 65536 && s.l.lists[k] == [])
  {
    if n <= 65536 { LeastIsFor(n, k); }
    hide ClassFor, PagesFor, LeastClass, WithHeader, RegionsOk, BlocksOk, BumpOk, ListOk, Conserved, HeadersOk;
  }

  /** A small request that finds its free list empty gets the place right behind what was carved last, or the
      start of a new superblock, and nothing lies idle between two blocks. */
  lemma {:induction false} MallocCarves(s: Heap, n: nat, k: nat, answer: int)
    requires Ok(s) && n <= 65536 && LeastClass(n, k) && s.l.lists[k] == [] && (answer != 0 || !NeedsMapping(s, n, k))
    ensures var (s', p) := Malloced(s, n, answer);
            var start := if NeedsMapping(s, n, k) then answer else s.bump;
            && p == start + 16 && s'.bump == start + 16 + 16 * Pow2(k)
            && s'.end == (if NeedsMapping(s, n, k) then answer + 0x10_0000 else s.end)
            && s'.l.blocks == s.l.blocks[start := k] && s'.l.live == s.l.live + {start} && s'.l.lists == s.l.lists
  {
    LeastIsFor(n, k);
    hide ClassFor, LeastClass, WithHeader, RegionsOk, BlocksOk, BumpOk, ListOk, Conserved, HeadersOk;
  }

  // A small block in use carries its class, and its address is not 0.
  lemma {:induction false} LiveBlock(s: Heap, h: int)
    requires Ok(s) && h in s.l.live
    ensures h in s.l.blocks && s.l.blocks[h] < 13 && h !in s.l.large && h > 0
    ensures Cell(s.mem, h) == ClassSize(s.l.blocks[h]) && Cell(s.mem, h + 8) == 0
  {
    hide BumpOk, ListOk, RegionsOk, ClassSize;
    NotLarge(s, h);
    BlockPositive(s, h);
    assert BlockOk(s.l, h);
  }

  /** Last freed, first reused: a malloc of the class of the block just freed returns that block, whatever
      the kernel would answer, and leaves the heap, cell by cell, as it was before the free. */
  lemma {:induction false} LastFreedFirst(s: Heap, p: int, n: nat, answer: int)
    requires Ok(s) && p - 16 in s.l.live && n <= 65536 && p - 16 in s.l.blocks && LeastClass(n, s.l.blocks[p - 16])
    ensures var (s', q) := Malloced(Freed(s, p), n, answer);
            && q == p && s'.l == s.l && s'.heads == s.heads && s'.bump == s.bump && s'.end == s.end
            && forall a :: Cell(s'.mem, a) == Cell(s.mem, a)
  {
    var h, k := p - 16, s.l.blocks[p - 16];
    LiveBlock(s, h);
    LeastIsFor(n, k);
    hide ClassFor, ClassSize, LeastClass, RegionsOk, BlocksOk, BumpOk, ListOk, Conserved, HeadersOk;
    var f := Freed(s, p);
    assert f == PushFree(s, h, k);
    assert f.l.lists[k] == [h] + s.l.lists[k] && f.heads[k] == h && Cell(f.mem, h + 8) == s.heads[k];
    assert Malloced(f, n, answer) == (Pop(f, k), h + 16);
    PushThenPop(s, h, k);
  }

  lemma {:induction false} PushThenPop(s: Heap, h: int, k: nat)
    requires k < |s.heads| == |s.l.lists| && h in s.l.live
    requires Cell(s.mem, h) == ClassSize(k) && Cell(s.mem, h + 8) == 0
    ensures var f := PushFree(s, h, k);
            var s' := Pop(f, k);
            && s'.l == s.l && s'.heads == s.heads && s'.bump == s.bump && s'.end == s.end
            && forall a :: Cell(s'.mem, a) == Cell(s.mem, a)
  {
    hide ClassSize;
    var f := PushFree(s, h, k);
    var s' := Pop(f, k);
    assert ([h] + s.l.lists[k])[1..] == s.l.lists[k];
    assert s'.l.lists == s.l.lists && s'.heads == s.heads;
    assert s.l.live - {h} + {h} == s.l.live;
  }

  /** free gives a large block back to the kernel, that mapping and no other; a small block stays mapped and
      goes to the front of the free list of its class. */
  lemma {:induction false} FreeReturns(s: Heap, p: int)
    requires Ok(s) && InUse(s.l, p - 16)
    ensures var s', h := Freed(s, p), p - 16;
            if h in s.l.large then s'.l.regions == s.l.regions - {h} && s'.l.lists == s.l.lists
            else && h in s.l.blocks && s.l.blocks[h] < |s.l.lists| && s'.l.regions == s.l.regions
                 && s'.l.lists == s.l.lists[s.l.blocks[h] := [h] + s.l.lists[s.l.blocks[h]]]
    ensures Freed(s, p).bump == s.bump && Freed(s, p).l.blocks == s.l.blocks
  {
    var h := p - 16;
    if h in s.l.large { assert h != -16 by { LargeAddress(s, h); } } else { LiveBlock(s, h); }
    hide ClassSize, RegionsOk, BlocksOk, BumpOk, ListOk, Conserved, HeadersOk;
  }

  lemma {:induction false} LargeAddress(s: Heap, h: int)
    requires Ok(s) && h in s.l.large
    ensures h > 0
  {
  }

  /** realloc without a pointer is malloc; a block that holds the new size is returned as it is and the heap
      is untouched; a size of 0 frees the block and returns 0; else the block moves to what malloc gives, or
      stays, with 0 returned, when malloc fails. */
  lemma {:induction false} ReallocGives(s: Heap, p: int, n: nat, answer: int)
    requires Ok(s) && (p == 0 || InUse(s.l, p - 16)) && n < SIZE_RANGE && Answer(s, n, answer)
    ensures var (s', q) := Reallocated(s, p, n, answer);
            && (p == 0 ==> (s', q) == Malloced(s, n, answer))
            && (p != 0 && n == 0 ==> q == 0 && s' == Freed(s, p))
            && (p != 0 && n > 0 ==> (q == p <==> n <= Usable(s.l, p - 16)))
            && (p != 0 && 0 < n <= Usable(s.l, p - 16) ==> s' == s)
            && (p != 0 && n > Usable(s.l, p - 16) ==> q == Malloced(s, n, answer).1)
            && (p != 0 && n > Usable(s.l, p - 16) && q == 0 ==> s' == s)
  {
    hide Ok, Malloced, Freed, InUse, Usable, Copied, Cell, Answer;
    OneHeadPerClass(s);
    if p != 0 {
      HeaderHoldsSize(s, p - HEADER);
      if n > Usable(s.l, p - 16) { ReallocMoves(s, p, n, answer); }
    }
  }

  lemma {:induction false} ReallocMoves(s: Heap, p: int, n: nat, answer: int)
    requires Ok(s) && p != 0 && InUse(s.l, p - 16) && n > Usable(s.l, p - 16) && n < SIZE_RANGE && Answer(s, n, answer)
    ensures var (s', q) := Reallocated(s, p, n, answer);
            q == Malloced(s, n, answer).1 && q != p && (q == 0 ==> s' == s)
  {
    OneHeadPerClass(s);
    HeaderHoldsSize(s, p - HEADER);
    MallocEither(s, n, answer);
    hide *;
    var (s1, np) := Malloced(s, n, answer);
    if np != 0 {
      FreshBlock(s, s1, np - HEADER);
      HeldHeader(s, s1, p - HEADER, np - HEADER);
    }
    MovedPointer(s, p, n, answer);
  }

  lemma {:induction false} MallocEither(s: Heap, n: nat, answer: int)
    requires Ok(s) && n < SIZE_RANGE && Answer(s, n, answer)
    ensures var (s1, np) := Malloced(s, n, answer); if np == 0 then s1 == s else HandsOut(s, s1, np - HEADER)
  {
    MallocOk(s, n, answer);
    hide Ok, Malloced, HandsOut, SizeToPow2, PagesFor;
  }

  lemma {:induction false} MovedPointer(s: Heap, p: int, n: nat, answer: int)
    requires |s.heads| == CLASSES == |s.l.lists| && p != 0 && n > 0 && n > Cell(s.mem, p - HEADER)
    requires var (s1, np) := Malloced(s, n, answer); np == 0 || Cell(s1.mem, p - HEADER) >= 0
    ensures var (s1, np) := Malloced(s, n, answer);
            var (s', q) := Reallocated(s, p, n, answer);
            q == np && (np == 0 ==> s' == s1)
  {
    hide Malloced, Freed, Copied, Cell;
  }

  lemma {:induction false} HeldHeader(s: Heap, s1: Heap, h: int, g: int)
    requires Ok(s) && InUse(s.l, h) && HandsOut(s, s1, g)
    ensures Cell(s1.mem, h) == Cell(s.mem, h) == Usable(s.l, h) >= 16
  {
    HeaderHoldsSize(s, h);
    hide Ok, InUse, Usable, Cell;
  }

  // ---------------------------------------------------------------------------------------------
  // Whole runs
  // ---------------------------------------------------------------------------------------------

  // The blocks of class k carved so far, and those of them in the hands of callers.
  function CarvedOf(l: Layout, k: nat): set<int> { set h | h in l.blocks && l.blocks[h] == k }

  function LiveOf(l: Layout, k: nat): set<int> { set h | h in l.live && h in l.blocks && l.blocks[h] == k }

  function Max(a: nat, b: nat): nat { if a < b then b else a }

  // The most blocks of class k in use at once, over the states of a run.
  ghost function Peak(s: Heap, calls: seq<Call>, k: nat): nat
    decreases |calls|
  {
    Max(|LiveOf(s.l, k)|,
        if calls == [] || !(|s.heads| == CLASSES == |s.l.lists|) then 0
        else Peak(AfterCall(s, calls[0]), calls[1..], k))
  }

  // The carved blocks of class k are all there still; when there are new ones, all of them are in use.
  ghost predicate GrowsInUse(s: Heap, s': Heap, k: nat) {
    && CarvedOf(s.l, k) <= CarvedOf(s'.l, k)
    && (CarvedOf(s'.l, k) == CarvedOf(s.l, k) || CarvedOf(s'.l, k) == LiveOf(s'.l, k))
  }

  lemma {:induction false} CarveGrows(s: Heap, j: nat, k: nat)
    requires Conserved(s.l) && j < |s.l.lists| && s.l.lists[j] == [] && s.bump !in s.l.blocks
    ensures GrowsInUse(s, Carve(s, j), k)
    ensures k != j ==> CarvedOf(Carve(s, j).l, k) == CarvedOf(s.l, k)
  {
    var s' := Carve(s, j);
    assert s'.l.blocks == s.l.blocks[s.bump := j];
    if k == j {
      assert forall h :: h in s.l.blocks && s.l.blocks[h] == j ==> h in s.l.live;
      assert CarvedOf(s'.l, k) == LiveOf(s'.l, k);
    } else {
      assert CarvedOf(s'.l, k) == CarvedOf(s.l, k);
    }
  }

  lemma {:induction false} MallocGrows(s: Heap, n: nat, answer: int, k: nat)
    requires Ok(s) && Answer(s, n, answer)
    ensures var s' := Malloced(s, n, answer).0;
            GrowsInUse(s, s', k) && (CarvedOf(s'.l, k) != CarvedOf(s.l, k) ==> n <= MAX_CLASS && k == ClassFor(n))
  {
    hide RegionsOk, BlocksOk, BumpOk, HeadersOk, ListOk, Mappable, ClassFor, ClassSize, PagesFor, WithHeader, Carve,
         GrowsInUse;
    var s' := Malloced(s, n, answer).0;
    if n <= MAX_CLASS && s.l.lists[ClassFor(n)] == [] && (Fits(s, ClassFor(n)) || answer != 0) {
      var j := ClassFor(n);
      var from := if Fits(s, j) then s else NewArena(s, answer, ARENA);
      BumpUncarved(s, j, answer);
      assert from.l.blocks == s.l.blocks && from.l.live == s.l.live && from.l.lists == s.l.lists;
      CarveGrows(from, j, k);
      SameCarved(s, from, s', k);
    } else {
      SameBlocksGrow(s, s', k);
    }
  }

  lemma {:induction false} BumpUncarved(s: Heap, j: nat, answer: int)
    requires Ok(s) && j < CLASSES && (Fits(s, j) || (answer != 0 && Mappable(s.l, answer, ARENA)))
    ensures (if Fits(s, j) then s.bump else answer) !in s.l.blocks
  {
    hide RegionsOk, BlocksOk, BumpOk, Conserved, HeadersOk, ListsOk, ClassSize, Carve, NewArena;
    if Fits(s, j) {
      CarveOk(s, j);
    } else {
      NewArenaOk(s, answer, ARENA);
      IndexOfClass(j);
      ArenaFits(s, j, answer);
      CarveOk(NewArena(s, answer, ARENA), j);
      ArenaBlocks(s, answer);
    }
  }

  lemma {:induction false} ArenaFits(s: Heap, j: nat, a: int)
    requires a > 0 && ClassSize(j) <= MAX_CLASS
    ensures Fits(NewArena(s, a, ARENA), j)
  {
  }

  lemma {:induction false} ArenaBlocks(s: Heap, a: int)
    ensures NewArena(s, a, ARENA).l.blocks == s.l.blocks && NewArena(s, a, ARENA).bump == a
  {
  }

  lemma {:induction false} SameCarved(s: Heap, from: Heap, s': Heap, k: nat)
    requires from.l.blocks == s.l.blocks && GrowsInUse(from, s', k)
    ensures GrowsInUse(s, s', k) && CarvedOf(from.l, k) == CarvedOf(s.l, k)
  {
  }

  lemma {:induction false} SameBlocksGrow(s: Heap, s': Heap, k: nat)
    requires s'.l.blocks == s.l.blocks
    ensures GrowsInUse(s, s', k) && CarvedOf(s'.l, k) == CarvedOf(s.l, k)
  {
  }

  // A realloc that moves frees a block of another class than the one it takes.
  lemma {:induction false} ReallocGrows(s: Heap, p: int, n: nat, answer: int, k: nat)
    requires Ok(s) && Legal(s, CallRealloc(p, n, answer))
    ensures GrowsInUse(s, Reallocated(s, p, n, answer).0, k)
  {
    var (s', q) := Reallocated(s, p, n, answer);
    MallocGrows(s, n, answer, k);
    ReallocGives(s, p, n, answer);
    hide GrowsInUse, Malloced, Reallocated, Usable, Answer, Overruns, RegionsOk, BlocksOk, BumpOk, HeadersOk, ListsOk;
    if p != 0 && n == 0 {
      FreeReturns(s, p);
      SameBlocksGrow(s, s', k);
    } else if p != 0 && (q == p || q == 0) {
      SameBlocksGrow(s, s', k);
    } else if p != 0 {
      MoveGrows(s, p, n, answer, k);
    }
  }

  // A block of the class that holds n bytes has room for n bytes.
  lemma {:induction false} ClassHolds(s: Heap, h: int, n: nat)
    requires n <= MAX_CLASS && h in s.l.live && h in s.l.blocks && s.l.blocks[h] == ClassFor(n)
    ensures n <= Usable(s.l, h)
  {
    ClassOk(n);
    hide ClassFor, ClassSize;
  }

  // The heap after a move: malloc, copy, free.
  lemma {:induction false} MoveIs(s: Heap, p: int, n: nat, answer: int)
    requires Ok(s) && p != 0 && InUse(s.l, p - 16) && n > Usable(s.l, p - 16) && n < SIZE_RANGE && Answer(s, n, answer)
    requires Reallocated(s, p, n, answer).1 != 0
    ensures var (s1, np) := Malloced(s, n, answer);
            && np != 0 && Ok(s1) && HandsOut(s, s1, np - HEADER)
            && exists m: Memory :: Reallocated(s, p, n, answer).0 == Freed(s1.(mem := m), p)
  {
    var (s1, np) := Malloced(s, n, answer);
    HeaderHoldsSize(s, p - 16);
    MallocOk(s, n, answer);
    hide Ok, Malloced, Freed, HandsOut, Copied, InUse, Usable, Answer;
    if np != 0 {
      HeldHeader(s, s1, p - 16, np - HEADER);
      assert Reallocated(s, p, n, answer).0
          == Freed(s1.(mem := Copied(s1.mem, p, np, Cell(s1.mem, p - HEADER))), p);
    }
  }

  lemma {:induction false} MoveGrows(s: Heap, p: int, n: nat, answer: int, k: nat)
    requires Ok(s) && p != 0 && InUse(s.l, p - 16) && n > Usable(s.l, p - 16) && n < SIZE_RANGE && Answer(s, n, answer)
    requires Reallocated(s, p, n, answer).1 != 0
    ensures GrowsInUse(s, Reallocated(s, p, n, answer).0, k)
  {
    hide *;
    OneHeadPerClass(s);
    var (s1, np) := Malloced(s, n, answer);
    MallocGrows(s, n, answer, k);
    MoveIs(s, p, n, answer);
    OneHeadPerClass(s1);
    var m: Memory :| Reallocated(s, p, n, answer).0 == Freed(s1.(mem := m), p);
    if n <= MAX_CLASS { OtherClass(s, s1, p - 16, np - HEADER, n); }
    FreedLive(s1.(mem := m), p, k);
    GrowsThrough(s, s1, Freed(s1.(mem := m), p), k);
  }

  lemma {:induction false} OneHeadPerClass(s: Heap)
    requires Ok(s)
    ensures |s.heads| == CLASSES == |s.l.lists|
  {
  }

  lemma {:induction false} GrowsThrough(s: Heap, s1: Heap, s': Heap, k: nat)
    requires GrowsInUse(s, s1, k) && CarvedOf(s'.l, k) == CarvedOf(s1.l, k)
    requires CarvedOf(s1.l, k) == CarvedOf(s.l, k) || LiveOf(s'.l, k) == LiveOf(s1.l, k)
    ensures GrowsInUse(s, s', k)
  {
    hide CarvedOf, LiveOf;
  }

  lemma {:induction false} OtherClass(s: Heap, s1: Heap, h: int, g: int, n: nat)
    requires Ok(s1) && InUse(s.l, h) && HandsOut(s, s1, g) && Usable(s.l, h) < n <= MAX_CLASS
    ensures !(h in s1.l.blocks && s1.l.blocks[h] == ClassFor(n))
  {
    hide Ok, Usable, Cell, ClassFor;
    if h in s1.l.blocks && s1.l.blocks[h] == ClassFor(n) {
      NotLarge(s1, h);
      ClassHolds(s1, h, n);
    }
  }

  lemma {:induction false} FreedLive(s: Heap, p: int, k: nat)
    requires |s.heads| == |s.l.lists|
    ensures CarvedOf(Freed(s, p).l, k) == CarvedOf(s.l, k) && LiveOf(Freed(s, p).l, k) <= LiveOf(s.l, k)
    ensures !(p - 16 in s.l.blocks && s.l.blocks[p - 16] == k) ==> LiveOf(Freed(s, p).l, k) == LiveOf(s.l, k)
  {
  }

  lemma {:induction false} CallGrows(s: Heap, c: Call, k: nat)
    requires Ok(s) && Legal(s, c)
    ensures GrowsInUse(s, AfterCall(s, c), k)
  {
    match c
    case CallMalloc(n, answer) => MallocGrows(s, n, answer, k);
    case CallFree(p) =>
      if p != 0 { FreeReturns(s, p); }
      SameBlocksGrow(s, Freed(s, p), k);
    case CallRealloc(p, n, answer) => ReallocGrows(s, p, n, answer, k);
    case CallWrite(p, i, b) => SameBlocksGrow(s, AfterCall(s, c), k);
  }

  lemma {:induction false} LiveAreCarved(s: Heap, k: nat)
    ensures |LiveOf(s.l, k)| <= |CarvedOf(s.l, k)|
  {
    SubsetSize(LiveOf(s.l, k), CarvedOf(s.l, k));
  }

  lemma {:induction false} PeakOverRun(s: Heap, calls: seq<Call>, s': Heap, k: nat)
    requires Ok(s) && Run(s, calls, s')
    ensures |CarvedOf(s.l, k)| <= |CarvedOf(s'.l, k)|
    ensures Peak(s, calls, k) <= |CarvedOf(s'.l, k)| <= Max(|CarvedOf(s.l, k)|, Peak(s, calls, k))
    decreases |calls|
  {
    hide Ok, Legal, AfterCall, CarvedOf, LiveOf;
    LiveAreCarved(s, k);
    if calls != [] {
      var s1 := AfterCall(s, calls[0]);
      CallOk(s, calls[0]);
      CallGrows(s, calls[0], k);
      SubsetSize(CarvedOf(s.l, k), CarvedOf(s1.l, k));
      PeakOverRun(s1, calls[1..], s', k);
    }
  }

  /** Memory is reused: after any sequence of calls, the blocks ever carved of a class are exactly as many as
      were in use at once at most. */
  lemma {:induction false} CarvedIsPeak(calls: seq<Call>, s: Heap, k: nat)
    requires Run(EMPTY, calls, s)
    ensures |CarvedOf(s.l, k)| == Peak(EMPTY, calls, k)
  {
    EmptyOk();
    PeakOverRun(EMPTY, calls, s, k);
    assert CarvedOf(EMPTY.l, k) == {};
  }
}
