/** The freestanding heap: segregated free lists threaded through block headers, carved from mapped
    superblocks.

    Memory is a map from addresses to cells: the two words of a header lie at h and h + 8, the data
    bytes from h + 16 on. The word at h + 8 is the mapping length of a large block, 0 for a small
    block in use, and the address of the next free block, or 0, for a small block on a free list. */
module Allocator {
  import opened SizeClasses

  const ARENA := 0x10_0000

  type Memory = map<int, int>

  function Cell(mem: Memory, a: int): int { if a in mem then mem[a] else 0 }

  // What the memory is used for. Regions are the mappings in force, by start address; large holds the
  // dedicated ones. Blocks are the blocks carved so far, by header address, with their class and the
  // superblock each lies in; lists are the free lists and live the small blocks in the hands of callers.
  datatype Layout = Layout(regions: map<int, nat>, large: set<int>, blocks: map<int, nat>,
                           home: map<int, int>, lists: seq<seq<int>>, live: set<int>, current: int)

  datatype Heap = Heap(mem: Memory, heads: seq<int>, bump: int, end: int, l: Layout)

  predicate Apart(a: int, alen: int, b: int, blen: int) { a + alen <= b || b + blen <= a }

  // The kernel's answer to a request to map len bytes.
  ghost predicate Mappable(l: Layout, a: int, len: nat) {
    && a > 0 && a % PAGE == 0 && len > 0
    && forall r :: r in l.regions ==> Apart(a, len, r, l.regions[r])
  }

  function Extent(l: Layout, h: int): nat
    requires h in l.blocks
  {
    HEADER + ClassSize(l.blocks[h])
  }

  ghost predicate RegionsOk(l: Layout) {
    && (forall r :: r in l.regions ==> r > 0 && r % PAGE == 0 && l.regions[r] > 0)
    && (forall r, r' :: r in l.regions && r' in l.regions && r != r' ==> Apart(r, l.regions[r], r', l.regions[r']))
    && l.large <= l.regions.Keys
  }

  // Block h lies inside a superblock.
  predicate BlockOk(l: Layout, h: int) {
    && h in l.blocks && l.blocks[h] < CLASSES && h % 16 == 0
    && h in l.home && l.home[h] in l.regions && l.home[h] !in l.large
    && l.home[h] <= h && h + Extent(l, h) <= l.home[h] + l.regions[l.home[h]]
  }

  ghost predicate BlocksOk(l: Layout) {
    && (forall h :: h in l.blocks ==> BlockOk(l, h))
    && forall h, q :: h in l.blocks && q in l.blocks && h != q ==> Apart(h, Extent(l, h), q, Extent(l, q))
  }

  // The rest of the current superblock lies above every block carved from it.
  ghost predicate BumpOk(l: Layout, bump: int, end: int) {
    bump != 0 ==>
      && l.current in l.regions && l.current !in l.large
      && l.current <= bump <= end == l.current + l.regions[l.current] && bump % 16 == 0
      && forall h :: h in l.blocks && h in l.home && l.home[h] == l.current ==> h + Extent(l, h) <= bump
  }

  function First(list: seq<int>): int { if list == [] then 0 else list[0] }

  // The blocks of list are distinct and linked through their next words, the last one to 0.
  predicate Chained(mem: Memory, list: seq<int>) {
    list == []
    || (Cell(mem, list[0] + 8) == First(list[1..]) && list[0] !in list[1..] && Chained(mem, list[1..]))
  }

  predicate Member(l: Layout, k: nat, q: int) { q in l.blocks && l.blocks[q] == k && q !in l.live }

  ghost predicate ListOk(mem: Memory, l: Layout, k: nat, list: seq<int>) {
    && (forall i :: 0 <= i < |list| ==> Member(l, k, list[i]))
    && Chained(mem, list)
  }

  ghost predicate ListsOk(mem: Memory, heads: seq<int>, l: Layout) {
    && |heads| == CLASSES == |l.lists|
    && forall k :: 0 <= k < CLASSES ==> heads[k] == First(l.lists[k]) && ListOk(mem, l, k, l.lists[k])
  }

  // Every carved block is either in use or on the free list of its class.
  ghost predicate Conserved(l: Layout) {
    && l.live <= l.blocks.Keys
    && forall h :: h in l.blocks ==>
         l.blocks[h] < |l.lists| && (h in l.live || h in l.lists[l.blocks[h]])
  }

  predicate HeaderIs(mem: Memory, h: int, usable: int, mlen: int) {
    Cell(mem, h) == usable && Cell(mem, h + 8) == mlen
  }

  ghost predicate HeadersOk(mem: Memory, l: Layout) {
    && (forall h :: h in l.live && h in l.blocks ==> HeaderIs(mem, h, ClassSize(l.blocks[h]), 0))
    && (forall r :: r in l.large && r in l.regions ==>
          l.regions[r] >= PAGE && HeaderIs(mem, r, l.regions[r] - HEADER, l.regions[r]))
  }

  ghost predicate Ok(s: Heap) {
    && RegionsOk(s.l) && BlocksOk(s.l) && BumpOk(s.l, s.bump, s.end)
    && ListsOk(s.mem, s.heads, s.l) && Conserved(s.l) && HeadersOk(s.mem, s.l)
  }

  const EMPTY := Heap(map[], seq(CLASSES, _ => 0), 0, 0,
                      Layout(map[], {}, map[], map[], seq(CLASSES, _ => []), {}, 0))

  // The blocks in the hands of callers, by header address.
  predicate InUse(l: Layout, h: int) { h in l.live || h in l.large }

  // Bytes a caller may use behind the header of h.
  function Usable(l: Layout, h: int): int {
    if h in l.live && h in l.blocks then ClassSize(l.blocks[h])
    else if h in l.regions then l.regions[h] - HEADER
    else 0
  }

  // ---------------------------------------------------------------------------------------------
  // What a good heap promises
  // ---------------------------------------------------------------------------------------------

  lemma {:induction false} BlockSize(l: Layout, h: int)
    requires BlockOk(l, h)
    ensures Extent(l, h) >= 32 && Extent(l, h) % 16 == 0
  {
    var size := ClassSize(l.blocks[h]);
    IndexOfClass(l.blocks[h]);
    hide ClassSize, BlockOk;
    Sixteen(size);
  }

  lemma {:induction false} Sixteen(n: nat)
    requires n >= 16 && n % 16 == 0
    ensures HEADER + n >= 32 && (HEADER + n) % 16 == 0
  {
  }

  // A small block and a dedicated mapping do not overlap.
  lemma {:induction false} BlockApartFromLarge(l: Layout, h: int, r: int)
    requires RegionsOk(l) && BlockOk(l, h) && r in l.large
    ensures Apart(h, Extent(l, h), r, l.regions[r]) && h != r
  {
    BlockSize(l, h);
    assert Apart(l.home[h], l.regions[l.home[h]], r, l.regions[r]);
  }

  lemma {:induction false} SmallUsable(s: Heap, h: int)
    requires Ok(s) && h in s.l.live
    ensures h in s.l.blocks && BlockOk(s.l, h) && HEADER + Usable(s.l, h) == Extent(s.l, h) && h > 0 && h % 16 == 0
  {
    hide ListsOk, BumpOk, HeadersOk, ClassSize;
    assert h in s.l.blocks;
    assert BlockOk(s.l, h);
  }

  lemma {:induction false} LargeUsable(s: Heap, r: int)
    requires Ok(s) && r in s.l.large
    ensures r in s.l.regions && r > 0 && r % 16 == 0 && HEADER + Usable(s.l, r) == s.l.regions[r]
  {
    hide ListsOk, BumpOk, HeadersOk, ClassSize;
    if r in s.l.live {
      SmallUsable(s, r);
      BlockApartFromLarge(s.l, r, r);
    }
  }

  /** Two blocks in use, small or large, never share a byte, headers included, and each is 16-byte
      aligned. */
  lemma {:induction false} InUseApart(s: Heap, h: int, q: int)
    requires Ok(s) && InUse(s.l, h) && InUse(s.l, q) && h != q
    ensures Apart(h, HEADER + Usable(s.l, h), q, HEADER + Usable(s.l, q))
    ensures h > 0 && h % 16 == 0
  {
    hide ListsOk, BumpOk, HeadersOk, Conserved, Usable, BlockOk, Extent;
    if h in s.l.live { SmallUsable(s, h); } else { LargeUsable(s, h); }
    if q in s.l.live { SmallUsable(s, q); } else { LargeUsable(s, q); }
    if h in s.l.live && q !in s.l.live { BlockApartFromLarge(s.l, h, q); }
    if h !in s.l.live && q in s.l.live { BlockApartFromLarge(s.l, q, h); }
  }

  // The address reached from a by following the next word n times.
  function Follow(mem: Memory, a: int, n: nat): int
    decreases n
  {
    if n == 0 then a else Follow(mem, Cell(mem, a + 8), n - 1)
  }

  lemma {:induction false} FollowList(mem: Memory, list: seq<int>, i: nat)
    requires Chained(mem, list) && i <= |list|
    ensures Follow(mem, First(list), i) == if i < |list| then list[i] else 0
  {
    if i > 0 { FollowList(mem, list[1..], i - 1); }
  }

  lemma {:induction false} ChainedDistinct(mem: Memory, list: seq<int>, i: nat, j: nat)
    requires Chained(mem, list) && i < j < |list|
    ensures list[i] != list[j]
  {
    if i > 0 {
      ChainedDistinct(mem, list[1..], i - 1, j - 1);
    } else {
      assert list[j] == list[1..][j - 1];
    }
  }

  /** Walking a free list from its head through the next words meets each free block of that class
      once, meets nothing else, and ends: no list has a cycle. */
  lemma {:induction false} FreeListIsWalkable(s: Heap, k: nat)
    requires Ok(s) && k < CLASSES
    ensures forall i :: 0 <= i < |s.l.lists[k]| ==> Follow(s.mem, s.heads[k], i) == s.l.lists[k][i]
    ensures Follow(s.mem, s.heads[k], |s.l.lists[k]|) == 0
    ensures forall i, j :: 0 <= i < j < |s.l.lists[k]| ==> s.l.lists[k][i] != s.l.lists[k][j]
    ensures forall h :: h in s.l.lists[k] <==> Member(s.l, k, h)
  {
    var list := s.l.lists[k];
    assert ListOk(s.mem, s.l, k, list);
    forall i | 0 <= i <= |list|
      ensures Follow(s.mem, s.heads[k], i) == if i < |list| then list[i] else 0
    {
      FollowList(s.mem, list, i);
    }
    forall i, j | 0 <= i < j < |list| ensures list[i] != list[j] { ChainedDistinct(s.mem, list, i, j); }
  }

  // ---------------------------------------------------------------------------------------------
  // The steps
  // ---------------------------------------------------------------------------------------------

  function WithHeader(mem: Memory, h: int, usable: int, mlen: int): Memory { mem[h := usable][h + 8 := mlen] }

  // The first free block of class k is handed out.
  function Pop(s: Heap, k: nat): Heap
    requires k < |s.heads| && k < |s.l.lists| && s.l.lists[k] != []
  {
    var h := s.heads[k];
    s.(mem := WithHeader(s.mem, h, ClassSize(k), 0), heads := s.heads[k := Cell(s.mem, h + 8)],
       l := s.l.(lists := s.l.lists[k := s.l.lists[k][1..]], live := s.l.live + {h}))
  }

  // A block of class k is carved at the bump pointer and handed out.
  function Carve(s: Heap, k: nat): Heap {
    var h := s.bump;
    s.(mem := WithHeader(s.mem, h, ClassSize(k), 0), bump := h + HEADER + ClassSize(k),
       l := s.l.(blocks := s.l.blocks[h := k], home := s.l.home[h := s.l.current], live := s.l.live + {h}))
  }

  // A new superblock of len bytes at a becomes the current one.
  function NewArena(s: Heap, a: int, len: nat): Heap {
    s.(bump := a, end := a + len, l := s.l.(regions := s.l.regions[a := len], current := a))
  }

  function MapLarge(s: Heap, a: int, len: nat): Heap {
    s.(mem := WithHeader(s.mem, a, len - HEADER, len),
       l := s.l.(regions := s.l.regions[a := len], large := s.l.large + {a}))
  }

  // A small block goes to the front of the list of class k.
  function PushFree(s: Heap, h: int, k: nat): Heap
    requires k < |s.heads| && k < |s.l.lists|
  {
    s.(mem := s.mem[h + 8 := s.heads[k]], heads := s.heads[k := h],
       l := s.l.(lists := s.l.lists[k := [h] + s.l.lists[k]], live := s.l.live - {h}))
  }

  function UnmapLarge(s: Heap, h: int): Heap {
    s.(l := s.l.(regions := s.l.regions - {h}, large := s.l.large - {h}))
  }

  // ---------------------------------------------------------------------------------------------
  // Every step keeps the heap good
  // ---------------------------------------------------------------------------------------------

  // mem' differs from mem in the header of block h only.
  ghost predicate OnlyHeader(mem: Memory, mem': Memory, h: int) {
    forall a :: a != h && a != h + 8 ==> Cell(mem', a) == Cell(mem, a)
  }

  // Both memories hold the same header at h.
  predicate SameHeader(mem: Memory, mem': Memory, h: int) {
    Cell(mem', h) == Cell(mem, h) && Cell(mem', h + 8) == Cell(mem, h + 8)
  }

  lemma {:induction false} OtherBlocksKeepHeaders(l: Layout, mem: Memory, mem': Memory, h: int)
    requires RegionsOk(l) && BlocksOk(l) && h in l.blocks && OnlyHeader(mem, mem', h)
    ensures forall q :: q in l.blocks && q != h ==> SameHeader(mem, mem', q)
    ensures forall r :: r in l.large && l.regions[r] >= PAGE ==>
              SameHeader(mem, mem', r)
  {
    BlockSize(l, h);
    forall q | q in l.blocks && q != h
      ensures SameHeader(mem, mem', q)
    {
      BlockSize(l, q);
      assert Apart(h, Extent(l, h), q, Extent(l, q));
    }
    forall r | r in l.large && l.regions[r] >= PAGE
      ensures SameHeader(mem, mem', r)
    {
      BlockApartFromLarge(l, h, r);
    }
  }

  lemma {:induction false} ListTail(mem: Memory, l: Layout, k: nat, list: seq<int>)
    requires ListOk(mem, l, k, list) && list != []
    ensures ListOk(mem, l, k, list[1..])
    ensures Cell(mem, list[0] + 8) == First(list[1..]) && list[0] !in list[1..]
    ensures forall q :: q in list ==> q == list[0] || q in list[1..]
  {
    hide Member;
  }

  // A list none of whose blocks is touched stays good.
  lemma {:induction false} ListUntouched(mem: Memory, mem': Memory, l: Layout, l': Layout, k: nat, list: seq<int>)
    requires ListOk(mem, l, k, list)
    requires forall i :: 0 <= i < |list| ==> Cell(mem', list[i] + 8) == Cell(mem, list[i] + 8) && Member(l', k, list[i])
    ensures ListOk(mem', l', k, list)
  {
    hide Member, Cell;
    if list != [] {
      assert Cell(mem', list[0] + 8) == Cell(mem, list[0] + 8);
      ListUntouched(mem, mem', l, l', k, list[1..]);
    }
  }

  // Only block h, of class k, changed between the two heaps: it was carved, handed out or given back.
  ghost predicate OneBlockChanged(s: Heap, s': Heap, h: int, k: nat) {
    && OnlyHeader(s.mem, s'.mem, h)
    && h in s'.l.blocks && s'.l.blocks[h] == k
    && (forall q :: q in s.l.blocks ==> q in s'.l.blocks && s'.l.blocks[q] == s.l.blocks[q])
    && (forall q :: q in s'.l.live ==> q == h || q in s.l.live)
    && s'.l.large == s.l.large && s'.l.regions == s.l.regions
    && RegionsOk(s'.l) && BlocksOk(s'.l)
  }

  lemma {:induction false} OtherList(s: Heap, s': Heap, h: int, k: nat, j: nat, list: seq<int>)
    requires OneBlockChanged(s, s', h, k) && ListOk(s.mem, s.l, j, list) && h !in list
    ensures ListOk(s'.mem, s'.l, j, list)
  {
    OtherBlocksKeepHeaders(s'.l, s.mem, s'.mem, h);
    hide RegionsOk, BlocksOk, OnlyHeader, Chained, Cell;
    ListUntouched(s.mem, s'.mem, s.l, s'.l, j, list);
  }

  // List k is now list, the others are as before.
  lemma {:induction false} ListsChanged(s: Heap, s': Heap, h: int, k: nat, list: seq<int>)
    requires ListsOk(s.mem, s.heads, s.l) && k < CLASSES && OneBlockChanged(s, s', h, k)
    requires s'.l.lists == s.l.lists[k := list]
    requires s'.heads == s.heads[k := First(list)] && ListOk(s'.mem, s'.l, k, list)
    ensures ListsOk(s'.mem, s'.heads, s'.l)
  {
    forall j | 0 <= j < CLASSES && j != k
      ensures s'.heads[j] == First(s'.l.lists[j]) && ListOk(s'.mem, s'.l, j, s'.l.lists[j])
    {
      var other := s.l.lists[j];
      assert ListOk(s.mem, s.l, j, other);
      assert h !in other by { assert forall i :: 0 <= i < |other| ==> Member(s.l, j, other[i]); }
      OtherList(s, s', h, k, j, other);
    }
    hide OneBlockChanged, ListOk;
  }

  lemma {:induction false} HeadersChanged(s: Heap, s': Heap, h: int, k: nat)
    requires HeadersOk(s.mem, s.l) && s.l.live <= s.l.blocks.Keys && OneBlockChanged(s, s', h, k)
    requires h in s'.l.live ==> HeaderIs(s'.mem, h, ClassSize(k), 0)
    ensures HeadersOk(s'.mem, s'.l)
  {
    hide RegionsOk, BlocksOk, OnlyHeader, ClassSize, Cell;
    OtherBlocksKeepHeaders(s'.l, s.mem, s'.mem, h);
    forall q | q in s'.l.live ensures q in s.l.live + {h} { assert q == h || q in s.l.live; }
    HeadersFollow(s.mem, s'.mem, s.l, s'.l, h, k);
  }

  lemma {:induction false} HeadersFollow(mem: Memory, mem': Memory, l: Layout, l': Layout, h: int, k: nat)
    requires HeadersOk(mem, l) && l.live <= l.blocks.Keys && l'.live <= l.live + {h}
    requires l'.large == l.large && l'.regions == l.regions && h in l'.blocks && l'.blocks[h] == k
    requires forall q :: q in l.blocks ==> q in l'.blocks && l'.blocks[q] == l.blocks[q]
    requires forall q :: q in l'.blocks && q != h ==> SameHeader(mem, mem', q)
    requires forall r :: r in l.large && r in l.regions && l.regions[r] >= PAGE ==>
               SameHeader(mem, mem', r)
    requires h in l'.live ==> HeaderIs(mem', h, ClassSize(k), 0)
    ensures HeadersOk(mem', l')
  {
    hide ClassSize, Cell;
  }

  lemma {:induction false} PopOk(s: Heap, k: nat)
    requires Ok(s) && k < CLASSES && s.l.lists[k] != []
    ensures Ok(Pop(s, k))
    ensures var h := s.heads[k];
            && h in s.l.blocks && h !in s.l.live
            && InUse(Pop(s, k).l, h) && Usable(Pop(s, k).l, h) == ClassSize(k)
  {
    hide RegionsOk, BlocksOk, BumpOk, HeadersOk, Chained, ClassSize, WithHeader;
    var s' := Pop(s, k);
    var h, list := s.heads[k], s.l.lists[k];
    assert ListOk(s.mem, s.l, k, list);
    ListTail(s.mem, s.l, k, list);
    assert Member(s.l, k, list[0]);
    SameBlocks(s, s');
    HeaderOnly(s.mem, h, ClassSize(k), 0);
    assert OneBlockChanged(s, s', h, k);
    TailUntouched(s, s', h, k, list);
    ListsChanged(s, s', h, k, list[1..]);
    HeadersChanged(s, s', h, k);
    hide ListsOk, ListOk, OneBlockChanged;
    assert Conserved(s'.l);
  }

  lemma {:induction false} TailUntouched(s: Heap, s': Heap, h: int, k: nat, list: seq<int>)
    requires OneBlockChanged(s, s', h, k) && list != [] && h == list[0] && ListOk(s.mem, s.l, k, list)
    ensures ListOk(s'.mem, s'.l, k, list[1..])
  {
    hide OneBlockChanged;
    ListTail(s.mem, s.l, k, list);
    OtherList(s, s', h, k, k, list[1..]);
  }

  lemma {:induction false} HeaderOnly(mem: Memory, h: int, u: int, m: int)
    ensures OnlyHeader(mem, WithHeader(mem, h, u, m), h)
    ensures Cell(WithHeader(mem, h, u, m), h) == u && Cell(WithHeader(mem, h, u, m), h + 8) == m
  {
  }

  // The placement of blocks does not depend on which of them are in use.
  lemma {:induction false} SameBlocks(s: Heap, s': Heap)
    requires Ok(s) && s'.l.blocks == s.l.blocks && s'.l.home == s.l.home && s'.l.regions == s.l.regions
    requires s'.l.large == s.l.large && s'.l.current == s.l.current && s'.bump == s.bump && s'.end == s.end
    ensures RegionsOk(s'.l) && BlocksOk(s'.l) && BumpOk(s'.l, s'.bump, s'.end)
  {
    assert forall h :: h in s.l.blocks ==> BlockOk(s'.l, h) == BlockOk(s.l, h) && Extent(s'.l, h) == Extent(s.l, h);
    hide ClassSize, BlockOk, ListsOk, Conserved, HeadersOk;
  }

  predicate Fits(s: Heap, k: nat) {
    s.bump != 0 && s.bump + HEADER + ClassSize(k) <= s.end
  }

  // What lies at or above the bump pointer has not been carved.
  lemma {:induction false} BumpIsClear(s: Heap, k: nat, q: int)
    requires Ok(s) && Fits(s, k) && q in s.l.blocks
    ensures Apart(s.bump, HEADER + ClassSize(k), q, Extent(s.l, q)) && q != s.bump
  {
    BlockSize(s.l, q);
    hide ListsOk, Conserved, HeadersOk;
    if s.l.home[q] != s.l.current {
      assert Apart(s.l.current, s.l.regions[s.l.current], s.l.home[q], s.l.regions[s.l.home[q]]);
    }
  }

  lemma {:induction false} CarvedBlock(s: Heap, k: nat)
    requires Ok(s) && Fits(s, k) && k < CLASSES
    ensures BlockOk(Carve(s, k).l, s.bump) && Extent(Carve(s, k).l, s.bump) == HEADER + ClassSize(k)
  {
    hide ListsOk, Conserved, HeadersOk, BlocksOk;
    IndexOfClass(k);
  }

  lemma {:induction false} CarvedOthers(s: Heap, k: nat, q: int)
    requires Ok(s) && Fits(s, k) && k < CLASSES && q in s.l.blocks
    ensures Apart(s.bump, HEADER + ClassSize(k), q, Extent(s.l, q)) && q != s.bump
    ensures BlockOk(Carve(s, k).l, q) && Extent(Carve(s, k).l, q) == Extent(s.l, q)
  {
    BumpIsClear(s, k, q);
    hide ListsOk, Conserved, HeadersOk, ClassSize, BumpOk, RegionsOk;
    assert BlockOk(s.l, q);
  }

  lemma {:induction false} CarvePlaces(s: Heap, k: nat)
    requires Ok(s) && Fits(s, k) && k < CLASSES
    ensures var s' := Carve(s, k); RegionsOk(s'.l) && BlocksOk(s'.l) && BumpOk(s'.l, s'.bump, s'.end)
    ensures s.bump !in s.l.blocks
  {
    var s' := Carve(s, k);
    var h := s.bump;
    CarvedBlock(s, k);
    assert ClassSize(k) % 16 == 0 by { IndexOfClass(k); }
    forall q | q in s.l.blocks
      ensures Apart(h, HEADER + ClassSize(k), q, Extent(s.l, q)) && q != h
      ensures BlockOk(s'.l, q) && Extent(s'.l, q) == Extent(s.l, q)
    {
      CarvedOthers(s, k, q);
    }
    hide ListsOk, Conserved, HeadersOk, ClassSize, Extent, BlockOk;
    CarvedBump(s, k);
    hide BumpOk;
    forall q, q' | q in s'.l.blocks && q' in s'.l.blocks && q != q'
      ensures Apart(q, Extent(s'.l, q), q', Extent(s'.l, q'))
    {
      if q != h && q' != h { assert Apart(q, Extent(s.l, q), q', Extent(s.l, q')); }
    }
  }

  lemma {:induction false} CarvedBump(s: Heap, k: nat)
    requires BumpOk(s.l, s.bump, s.end) && Fits(s, k) && ClassSize(k) % 16 == 0
    requires Extent(Carve(s, k).l, s.bump) == HEADER + ClassSize(k)
    requires forall q :: q in s.l.blocks ==> q != s.bump && Extent(Carve(s, k).l, q) == Extent(s.l, q)
    ensures BumpOk(Carve(s, k).l, Carve(s, k).bump, Carve(s, k).end)
  {
    hide ClassSize, Extent;
  }

  lemma {:induction false} CarveOk(s: Heap, k: nat)
    requires Ok(s) && Fits(s, k) && k < CLASSES
    ensures Ok(Carve(s, k))
    ensures s.bump !in s.l.blocks && InUse(Carve(s, k).l, s.bump) && Usable(Carve(s, k).l, s.bump) == ClassSize(k)
  {
    hide RegionsOk, BlocksOk, BumpOk, HeadersOk, Chained, ClassSize, WithHeader;
    var s' := Carve(s, k);
    var h, list := s.bump, s.l.lists[k];
    CarvePlaces(s, k);
    HeaderOnly(s.mem, h, ClassSize(k), 0);
    assert OneBlockChanged(s, s', h, k);
    assert ListOk(s.mem, s.l, k, list);
    assert h !in list by { assert forall i :: 0 <= i < |list| ==> Member(s.l, k, list[i]); }
    OtherList(s, s', h, k, k, list);
    assert s.l.lists[k := list] == s.l.lists && s.heads[k := First(list)] == s.heads;
    ListsChanged(s, s', h, k, list);
    HeadersChanged(s, s', h, k);
    hide ListsOk, ListOk, OneBlockChanged;
    assert Conserved(s'.l);
  }

  lemma {:induction false} PushFreeOk(s: Heap, h: int)
    requires Ok(s) && h in s.l.live && h in s.l.blocks && s.l.blocks[h] < CLASSES
    ensures Ok(PushFree(s, h, s.l.blocks[h]))
  {
    hide RegionsOk, BlocksOk, BumpOk, HeadersOk, Chained, ClassSize;
    var k := s.l.blocks[h];
    var s', list := PushFree(s, h, k), s.l.lists[k];
    SameBlocks(s, s');
    assert OneBlockChanged(s, s', h, k);
    assert ListOk(s.mem, s.l, k, list);
    assert h !in list by { assert forall i :: 0 <= i < |list| ==> Member(s.l, k, list[i]); }
    OtherList(s, s', h, k, k, list);
    PrependList(s'.mem, s'.l, k, h, list);
    ListsChanged(s, s', h, k, [h] + list);
    HeadersChanged(s, s', h, k);
    hide ListsOk, ListOk, OneBlockChanged;
    assert h in [h] + list;
    assert Conserved(s'.l);
  }

  lemma {:induction false} PrependList(mem: Memory, l: Layout, k: nat, h: int, list: seq<int>)
    requires ListOk(mem, l, k, list) && Member(l, k, h)
    requires Cell(mem, h + 8) == First(list) && h !in list
    ensures ListOk(mem, l, k, [h] + list)
  {
    assert ([h] + list)[1..] == list;
  }

  lemma {:induction false} BlockInNewRegions(s: Heap, a: int, len: nat, h: int)
    requires BlockOk(s.l, h) && a !in s.l.regions
    ensures BlockOk(NewArena(s, a, len).l, h) && Extent(NewArena(s, a, len).l, h) == Extent(s.l, h)
    ensures s.l.home[h] != a
  {
    hide ClassSize;
  }

  lemma {:induction false} NewRegionApart(l: Layout, a: int, len: nat)
    requires RegionsOk(l) && Mappable(l, a, len)
    ensures a !in l.regions && RegionsOk(l.(regions := l.regions[a := len], current := a))
  {
    assert a !in l.regions;
  }

  lemma {:induction false} NewArenaPlaces(s: Heap, a: int, len: nat)
    requires RegionsOk(s.l) && BlocksOk(s.l) && Mappable(s.l, a, len)
    ensures var s' := NewArena(s, a, len); RegionsOk(s'.l) && BlocksOk(s'.l) && BumpOk(s'.l, s'.bump, s'.end)
    ensures a !in s.l.regions
  {
    var s' := NewArena(s, a, len);
    NewRegionApart(s.l, a, len);
    assert a % 16 == 0 && a !in s.l.large;
    hide RegionsOk, Mappable;
    forall h | h in s.l.blocks
      ensures BlockOk(s'.l, h) && Extent(s'.l, h) == Extent(s.l, h) && s.l.home[h] != a
    {
      BlockInNewRegions(s, a, len, h);
    }
    hide BlockOk, Extent, ClassSize;
    assert BumpOk(s'.l, s'.bump, s'.end);
  }

  lemma {:induction false} NewArenaOk(s: Heap, a: int, len: nat)
    requires Ok(s) && Mappable(s.l, a, len)
    ensures Ok(NewArena(s, a, len))
  {
    hide BlocksOk, BumpOk, Chained, ClassSize, Mappable;
    var s' := NewArena(s, a, len);
    NewArenaPlaces(s, a, len);
    forall k | 0 <= k < CLASSES ensures ListOk(s'.mem, s'.l, k, s'.l.lists[k]) {
      assert ListOk(s.mem, s.l, k, s.l.lists[k]);
    }
  }

  lemma {:induction false} MapLargePlaces(s: Heap, a: int, len: nat)
    requires RegionsOk(s.l) && BlocksOk(s.l) && BumpOk(s.l, s.bump, s.end) && Mappable(s.l, a, len)
    ensures var s' := MapLarge(s, a, len); RegionsOk(s'.l) && BlocksOk(s'.l) && BumpOk(s'.l, s'.bump, s'.end)
    ensures a !in s.l.regions
  {
    var s' := MapLarge(s, a, len);
    assert a !in s.l.regions;
    assert forall h :: h in s.l.blocks ==> Extent(s'.l, h) == Extent(s.l, h);
    hide ClassSize, Extent;
    forall h | h in s.l.blocks ensures BlockOk(s'.l, h) {
      assert BlockOk(s.l, h);
    }
  }

  lemma {:induction false} MapLargeOk(s: Heap, a: int, len: nat)
    requires Ok(s) && Mappable(s.l, a, len) && len >= PAGE
    ensures Ok(MapLarge(s, a, len))
    ensures !InUse(s.l, a) && InUse(MapLarge(s, a, len).l, a) && Usable(MapLarge(s, a, len).l, a) == len - HEADER
  {
    hide BumpOk, Chained, ClassSize, Mappable, WithHeader, ListsOk, HeadersOk, Conserved;
    var s' := MapLarge(s, a, len);
    MapLargePlaces(s, a, len);
    HeaderOnly(s.mem, a, len - HEADER, len);
    assert a in s'.l.large && s'.l.regions[a] == len;
    forall q | q in s.l.blocks
      ensures SameHeader(s.mem, s'.mem, q) && q != a
    {
      BlockSize(s'.l, q);
      BlockApartFromLarge(s'.l, q, a);
    }
    SmallSideKept(s, s');
    LargeSideGrown(s, s', a, len);
    assert a !in s.l.live by { LiveAreBlocks(s.l); }
  }

  lemma {:induction false} LiveAreBlocks(l: Layout)
    requires Conserved(l)
    ensures l.live <= l.blocks.Keys
  {
  }

  // Cells of blocks untouched, blocks, lists and use the same: the small side is as good as before.
  lemma {:induction false} SmallSideKept(s: Heap, s': Heap)
    requires ListsOk(s.mem, s.heads, s.l) && Conserved(s.l)
    requires s'.l.blocks == s.l.blocks && s'.l.live == s.l.live && s'.l.lists == s.l.lists && s'.heads == s.heads
    requires forall q :: q in s.l.blocks ==> SameHeader(s.mem, s'.mem, q)
    ensures ListsOk(s'.mem, s'.heads, s'.l) && Conserved(s'.l)
  {
    hide Chained;
    forall k | 0 <= k < CLASSES ensures ListOk(s'.mem, s'.l, k, s'.l.lists[k]) {
      var list := s.l.lists[k];
      assert ListOk(s.mem, s.l, k, list);
      assert forall i :: 0 <= i < |list| ==> Member(s.l, k, list[i]);
      ListUntouched(s.mem, s'.mem, s.l, s'.l, k, list);
    }
  }

  lemma {:induction false} LargeSideGrown(s: Heap, s': Heap, a: int, len: nat)
    requires HeadersOk(s.mem, s.l) && Conserved(s.l) && RegionsOk(s'.l) && OnlyHeader(s.mem, s'.mem, a) && len >= PAGE
    requires a !in s.l.regions && s'.l == s.l.(regions := s.l.regions[a := len], large := s.l.large + {a})
    requires Cell(s'.mem, a) == len - HEADER && Cell(s'.mem, a + 8) == len
    requires forall q :: q in s.l.blocks ==> SameHeader(s.mem, s'.mem, q)
    ensures HeadersOk(s'.mem, s'.l)
  {
    hide ClassSize, Cell;
    forall r | r in s'.l.large && r in s'.l.regions
      ensures Cell(s'.mem, r) == s'.l.regions[r] - HEADER && Cell(s'.mem, r + 8) == s'.l.regions[r] >= PAGE
    {
      if r != a {
        assert r in s.l.large && r in s.l.regions;
        assert Apart(a, len, r, s.l.regions[r]);
      }
    }
  }

  lemma {:induction false} UnmapLargeOk(s: Heap, h: int)
    requires Ok(s) && h in s.l.large
    ensures Ok(UnmapLarge(s, h))
  {
    hide Chained, ClassSize, ListsOk, HeadersOk, Conserved;
    var s' := UnmapLarge(s, h);
    assert forall q :: q in s.l.blocks ==> Extent(s'.l, q) == Extent(s.l, q);
    forall q | q in s.l.blocks ensures BlockOk(s'.l, q) { assert BlockOk(s.l, q); }
    SmallSideKept(s, s');
    assert HeadersOk(s'.mem, s'.l) by { LargeSideShrunk(s, h); }
  }

  lemma {:induction false} LargeSideShrunk(s: Heap, h: int)
    requires HeadersOk(s.mem, s.l)
    ensures HeadersOk(UnmapLarge(s, h).mem, UnmapLarge(s, h).l)
  {
    hide ClassSize, Cell;
  }

  // A caller writes byte i of a block it holds.
  function Poke(s: Heap, h: int, i: int, b: int): Heap { s.(mem := s.mem[h + HEADER + i := b]) }

  /** Writing inside a block one holds disturbs neither the heap nor any other block in use. */
  lemma {:induction false} PokeOk(s: Heap, h: int, i: int, b: int)
    requires Ok(s) && InUse(s.l, h) && 0 <= i < Usable(s.l, h)
    ensures Ok(Poke(s, h, i, b))
    ensures forall q, a :: InUse(s.l, q) && q != h && q <= a < q + HEADER + Usable(s.l, q)
                           ==> Cell(Poke(s, h, i, b).mem, a) == Cell(s.mem, a)
  {
    hide Chained, ClassSize, ListsOk, HeadersOk, BumpOk;
    var s' := Poke(s, h, i, b);
    var x := h + HEADER + i;
    forall q | q in s.l.blocks
      ensures SameHeader(s.mem, s'.mem, q)
    {
      BlockSize(s.l, q);
      if h in s.l.live {
        assert q != h ==> Apart(h, Extent(s.l, h), q, Extent(s.l, q));
      } else {
        BlockApartFromLarge(s.l, q, h);
      }
    }
    forall q | InUse(s.l, q) && q != h
      ensures x < q || q + HEADER + Usable(s.l, q) <= x
    {
      InUseApart(s, h, q);
    }
    SmallSideKept(s, s');
    PokeHeaders(s, x, b);
  }

  lemma {:induction false} CellAfter(mem: Memory, x: int, b: int, a: int)
    ensures Cell(mem[x := b], a) == if a == x then b else Cell(mem, a)
  {
  }

  lemma {:induction false} PokeHeaders(s: Heap, x: int, b: int)
    requires HeadersOk(s.mem, s.l) && Conserved(s.l) && s.l.large <= s.l.regions.Keys
    requires forall q :: q in s.l.blocks ==> x != q && x != q + 8
    requires forall r :: r in s.l.large ==> x < r || x >= r + HEADER
    ensures HeadersOk(s.mem[x := b], s.l)
  {
    hide ClassSize;
    var mem := s.mem[x := b];
    forall h | h in s.l.live && h in s.l.blocks
      ensures Cell(mem, h) == ClassSize(s.l.blocks[h]) && Cell(mem, h + 8) == 0
    {
      CellAfter(s.mem, x, b, h);
      CellAfter(s.mem, x, b, h + 8);
    }
    forall r | r in s.l.large && r in s.l.regions
      ensures Cell(mem, r) == s.l.regions[r] - HEADER && Cell(mem, r + 8) == s.l.regions[r] >= PAGE
    {
      CellAfter(s.mem, x, b, r);
      CellAfter(s.mem, x, b, r + 8);
    }
  }

  // ---------------------------------------------------------------------------------------------
  // malloc, free and realloc as functions of the heap
  // ---------------------------------------------------------------------------------------------

  // The length malloc asks the kernel for, when it asks.
  function AskedLength(n: nat): nat {
    if n > MAX_CLASS then PagesFor(HEADER + n) else ARENA
  }

  // What the kernel may answer to that: a fresh place, or 0 when it refuses.
  ghost predicate Answer(s: Heap, n: nat, answer: int) {
    answer == 0 || Mappable(s.l, answer, AskedLength(n))
  }

  function AtLeastOne(n: nat): nat { if n == 0 then 1 else n }

  function ClassFor(n: nat): (k: nat)
    requires n <= MAX_CLASS
    ensures k < CLASSES
  {
    LeastAdequateClass(AtLeastOne(n));
    ClassIndex(SizeToPow2(AtLeastOne(n)))
  }

  // The heap after malloc and the pointer it returns.
  function Malloced(s: Heap, n: nat, answer: int): (Heap, int)
    requires |s.heads| == CLASSES == |s.l.lists|
  {
    if n > MAX_CLASS then
      if answer == 0 then (s, 0)
      else (MapLarge(s, answer, PagesFor(HEADER + n)), answer + HEADER)
    else
      var k := ClassFor(n);
      if s.l.lists[k] != [] then (Pop(s, k), s.heads[k] + HEADER)
      else if Fits(s, k) then (Carve(s, k), s.bump + HEADER)
      else if answer == 0 then (s, 0)
      else (Carve(NewArena(s, answer, ARENA), k), answer + HEADER)
  }

  function Freed(s: Heap, p: int): Heap
    requires |s.heads| == |s.l.lists|
  {
    var h := p - HEADER;
    if p == 0 then s
    else if h in s.l.large then UnmapLarge(s, h)
    else if h in s.l.blocks && s.l.blocks[h] < |s.heads| then PushFree(s, h, s.l.blocks[h])
    else s
  }

  // The n bytes at p.
  function Contents(mem: Memory, p: int, n: nat): (r: seq<int>)
    ensures |r| == n && forall i :: 0 <= i < n ==> r[i] == Cell(mem, p + i)
  {
    seq(n, i => Cell(mem, p + i))
  }

  // n cells copied one by one, upwards.
  function Copied(mem: Memory, from: int, to: int, n: nat): Memory {
    if n == 0 then mem
    else
      var m := Copied(mem, from, to, n - 1);
      m[to + n - 1 := Cell(m, from + n - 1)]
  }

  lemma {:induction false} ClassOk(n: nat)
    requires n <= MAX_CLASS
    ensures n <= ClassSize(ClassFor(n))
    ensures ClassSize(ClassFor(n)) == SizeToPow2(AtLeastOne(n)) > 0
  {
    LeastAdequateClass(AtLeastOne(n));
  }

  // Every block other than h and g is in use or not as before, with the same size and the same cells.
  ghost predicate KeptExcept(s: Heap, s': Heap, h: int, g: int) {
    forall q :: q != h && q != g ==>
      && (InUse(s'.l, q) <==> InUse(s.l, q))
      && (InUse(s.l, q) ==> && Usable(s'.l, q) == Usable(s.l, q)
                            && forall a :: q <= a < q + HEADER + Usable(s.l, q) ==> Cell(s'.mem, a) == Cell(s.mem, a))
  }

  ghost predicate OthersKept(s: Heap, s': Heap, h: int) { KeptExcept(s, s', h, h) }

  // A heap that changed only inside a block that is in use before or after keeps the other blocks.
  lemma {:induction false} OthersUntouched(s: Heap, s': Heap, h: int, one: Heap)
    requires Ok(one) && InUse(one.l, h) && OnlyHeader(s.mem, s'.mem, h)
    requires forall q :: q != h ==> (InUse(s'.l, q) <==> InUse(s.l, q)) && (InUse(s.l, q) ==> InUse(one.l, q))
    requires forall q :: q != h && InUse(s.l, q) ==> Usable(s'.l, q) == Usable(s.l, q) == Usable(one.l, q)
    requires Usable(one.l, h) >= 16
    ensures OthersKept(s, s', h)
  {
    hide Ok, Usable, InUse, Cell;
    forall q | q != h && InUse(s.l, q)
      ensures forall a :: q <= a < q + HEADER + Usable(s.l, q) ==> Cell(s'.mem, a) == Cell(s.mem, a)
    {
      InUseApart(one, h, q);
    }
  }

  // The step hands out block h.
  ghost predicate HandsOut(s: Heap, s': Heap, h: int) {
    && !InUse(s.l, h) && InUse(s'.l, h) && h > 0 && h % 16 == 0
    && Usable(s'.l, h) >= 16
    && Cell(s'.mem, h) == Usable(s'.l, h)
    && OthersKept(s, s', h)
  }

  lemma {:induction false} PopHandsOut(s: Heap, k: nat)
    requires Ok(s) && k < CLASSES && s.l.lists[k] != []
    ensures HandsOut(s, Pop(s, k), s.heads[k]) && Usable(Pop(s, k).l, s.heads[k]) == ClassSize(k)
  {
    hide ListOk, BumpOk, ClassSize;
    var s', h := Pop(s, k), s.heads[k];
    PopOk(s, k);
    HeaderOnly(s.mem, h, ClassSize(k), 0);
    IndexOfClass(k);
    NotLarge(s, h);
    OthersUntouched(s, s', h, s');
    BlockPositive(s, h);
  }

  lemma {:induction false} NotLarge(s: Heap, h: int)
    requires Ok(s) && h in s.l.blocks
    ensures h !in s.l.large
  {
    hide ListsOk, BumpOk, Conserved, HeadersOk;
    if h in s.l.large { BlockApartFromLarge(s.l, h, h); }
  }

  lemma {:induction false} BlockPositive(s: Heap, h: int)
    requires Ok(s) && h in s.l.blocks
    ensures h > 0 && h % 16 == 0
  {
    hide ListsOk, BumpOk, Conserved, HeadersOk;
    assert BlockOk(s.l, h);
  }

  lemma {:induction false} CarveHandsOut(s: Heap, k: nat)
    requires Ok(s) && k < CLASSES && Fits(s, k)
    ensures HandsOut(s, Carve(s, k), s.bump) && Usable(Carve(s, k).l, s.bump) == ClassSize(k)
  {
    hide ListsOk, BumpOk, BlocksOk, RegionsOk, HeadersOk, Chained, ClassSize, Fits;
    var s', h := Carve(s, k), s.bump;
    CarveOk(s, k);
    HeaderOnly(s.mem, h, ClassSize(k), 0);
    IndexOfClass(k);
    NotLarge(s', h);
    OthersUntouched(s, s', h, s');
    BlockPositive(s', h);
  }

  lemma {:induction false} LargeAdded(l: Layout, a: int, len: nat, q: int)
    requires a !in l.regions && q != a
    ensures var l' := l.(regions := l.regions[a := len], large := l.large + {a});
            (InUse(l', q) <==> InUse(l, q)) && (Usable(l', q) == Usable(l, q))
  {
  }

  lemma {:induction false} MapLargeHandsOut(s: Heap, a: int, len: nat)
    requires Ok(s) && Mappable(s.l, a, len) && len >= PAGE
    ensures HandsOut(s, MapLarge(s, a, len), a)
    ensures Usable(MapLarge(s, a, len).l, a) == len - HEADER
  {
    var s' := MapLarge(s, a, len);
    assert a > 0 && a % 16 == 0 && a !in s.l.regions by { hide Ok; MapAddress(s.l, a, len); }
    MapLargeOk(s, a, len);
    HeaderOnly(s.mem, a, len - HEADER, len);
    hide Ok, Mappable, WithHeader, OnlyHeader, ClassSize;
    forall q | q != a ensures (InUse(s'.l, q) <==> InUse(s.l, q)) && Usable(s'.l, q) == Usable(s.l, q) {
      LargeAdded(s.l, a, len, q);
    }
    hide InUse, Usable;
    OthersUntouched(s, s', a, s');
  }

  lemma {:induction false} MapAddress(l: Layout, a: int, len: nat)
    requires Mappable(l, a, len) && len >= PAGE
    requires forall r :: r in l.regions ==> l.regions[r] > 0
    ensures a > 0 && a % 16 == 0 && a !in l.regions
  {
  }

  lemma {:induction false} NewArenaKeeps(s: Heap, a: int, len: nat)
    requires Ok(s) && Mappable(s.l, a, len)
    ensures forall h :: InUse(NewArena(s, a, len).l, h) <==> InUse(s.l, h)
    ensures forall h :: InUse(s.l, h) ==> Usable(NewArena(s, a, len).l, h) == Usable(s.l, h)
  {
    hide ListsOk, BumpOk, BlocksOk, HeadersOk, ClassSize;
    assert a !in s.l.regions;
  }

  /** malloc keeps the heap good. What it returns is 0, when the kernel refused and nothing changed, or
      an aligned block that no one else holds, every other block staying as it was: for a small request
      of the least adequate class, for a large one of whole pages. The block covers the request if and
      only if the request is not one of the last fifteen sizes there are. */
  lemma {:induction false} MallocOk(s: Heap, n: nat, answer: int)
    requires Ok(s) && n < SIZE_RANGE && Answer(s, n, answer)
    ensures var (s', p) := Malloced(s, n, answer);
            && Ok(s')
            && (p == 0 ==> s' == s && answer == 0)
            && (p != 0 ==> && HandsOut(s, s', p - HEADER)
                           && Usable(s'.l, p - HEADER) == (if n <= MAX_CLASS then SizeToPow2(AtLeastOne(n))
                                                           else PagesFor(HEADER + n) - HEADER)
                           && (n <= Usable(s'.l, p - HEADER) <==> n < SIZE_RANGE - 15))
  {
    hide RegionsOk, BlocksOk, BumpOk, Conserved, HeadersOk, HandsOut, Mappable, ClassFor, SizeToPow2,
         ClassSize, PagesFor, Fits, MapLarge, Pop, Carve, NewArena, ListOk;
    if n > MAX_CLASS {
      if answer != 0 {
        LargeLengthCovers(n);
        MappableLength(s.l, answer, PagesFor(HEADER + n));
        MapLargeOk(s, answer, PagesFor(HEADER + n));
        MapLargeHandsOut(s, answer, PagesFor(HEADER + n));
      }
    } else {
      ClassOk(n);
      var k := ClassFor(n);
      if s.l.lists[k] != [] {
        PopOk(s, k);
        PopHandsOut(s, k);
        PopPositive(s, k);
      } else if Fits(s, k) {
        CarveOk(s, k);
        CarveHandsOut(s, k);
        HandsOutPositive(s, Carve(s, k), s.bump);
      } else if answer != 0 {
        FromNewArena(s, k, answer);
      }
    }
  }

  lemma {:induction false} MappableLength(l: Layout, a: int, len: nat)
    requires Mappable(l, a, len) && len % PAGE == 0
    ensures len >= PAGE && a > 0
  {
  }

  lemma {:induction false} HandsOutPositive(s: Heap, s': Heap, h: int)
    requires HandsOut(s, s', h)
    ensures h > 0
  {
  }

  lemma {:induction false} PopPositive(s: Heap, k: nat)
    requires Ok(s) && k < CLASSES && s.l.lists[k] != []
    ensures s.heads[k] > 0
  {
    hide ListsOk, Pop, BumpOk, BlocksOk, HeadersOk, Conserved, RegionsOk;
    PopHandsOut(s, k);
  }

  lemma {:induction false} FromNewArena(s: Heap, k: nat, answer: int)
    requires Ok(s) && k < CLASSES && Mappable(s.l, answer, ARENA)
    ensures var s' := Carve(NewArena(s, answer, ARENA), k);
            Ok(s') && HandsOut(s, s', answer) && answer > 0 && Usable(s'.l, answer) == ClassSize(k)
  {
    hide RegionsOk, BlocksOk, BumpOk, Conserved, HeadersOk, ListsOk, ClassSize, Carve, OnlyHeader, Usable, InUse;
    var s1 := NewArena(s, answer, ARENA);
    NewArenaOk(s, answer, ARENA);
    NewArenaKeeps(s, answer, ARENA);
    IndexOfClass(k);
    CarveOk(s1, k);
    CarveHandsOut(s1, k);
  }

  /** free takes back exactly the given block: the heap stays good, and every other block stays in
      use, as long and holding what it held. */
  lemma {:induction false} FreeOk(s: Heap, p: int)
    requires Ok(s) && (p == 0 || InUse(s.l, p - HEADER))
    ensures Ok(Freed(s, p))
    ensures p == 0 ==> Freed(s, p) == s
    ensures p != 0 ==> !InUse(Freed(s, p).l, p - HEADER) && OthersKept(s, Freed(s, p), p - HEADER)
  {
    hide ListOk, BumpOk, RegionsOk, BlocksOk, HeadersOk, ClassSize, OthersKept, OnlyHeader, PushFree, UnmapLarge;
    var h := p - HEADER;
    if p != 0 {
      if h in s.l.large {
        UnmapLargeOk(s, h);
        UnmapKeepsOthers(s, h);
      } else {
        PushFreeOk(s, h);
        PushFreeKeepsOthers(s, h);
      }
    }
  }

  lemma {:induction false} UnmapKeepsOthers(s: Heap, h: int)
    requires Ok(s) && h in s.l.large
    ensures !InUse(UnmapLarge(s, h).l, h) && OthersKept(s, UnmapLarge(s, h), h)
  {
    hide ListsOk, BumpOk, HeadersOk, ClassSize;
    if h in s.l.blocks { NotLarge(s, h); }
  }

  lemma {:induction false} PushFreeKeepsOthers(s: Heap, h: int)
    requires Ok(s) && h in s.l.live && h in s.l.blocks && s.l.blocks[h] < CLASSES
    ensures !InUse(PushFree(s, h, s.l.blocks[h]).l, h) && OthersKept(s, PushFree(s, h, s.l.blocks[h]), h)
  {
    hide ListOk, BumpOk, HeadersOk, ClassSize;
    var s' := PushFree(s, h, s.l.blocks[h]);
    NotLarge(s, h);
    IndexOfClass(s.l.blocks[h]);
    OthersUntouched(s, s', h, s);
  }

  lemma {:induction false} CopiedCell(mem: Memory, from: int, to: int, n: nat, a: int)
    requires Apart(from, n, to, n)
    ensures Cell(Copied(mem, from, to, n), a) == Cell(mem, if to <= a < to + n then from + (a - to) else a)
    decreases n
  {
    if n > 0 {
      CopiedCell(mem, from, to, n - 1, a);
      CopiedCell(mem, from, to, n - 1, from + n - 1);
    }
  }

  lemma {:induction false} CopiedOk(s: Heap, h: int, from: int, n: nat)
    requires Ok(s) && InUse(s.l, h) && n <= Usable(s.l, h)
    ensures Ok(s.(mem := Copied(s.mem, from, h + HEADER, n)))
  {
    hide RegionsOk, BlocksOk, BumpOk, Conserved, HeadersOk, ListsOk, Usable;
    if n > 0 {
      CopiedOk(s, h, from, n - 1);
      var m := s.(mem := Copied(s.mem, from, h + HEADER, n - 1));
      PokeOk(m, h, n - 1, Cell(m.mem, from + n - 1));
    }
  }

  // The heap after realloc and the pointer it returns.
  function Reallocated(s: Heap, p: int, n: nat, answer: int): (Heap, int)
    requires |s.heads| == CLASSES == |s.l.lists|
  {
    if p == 0 then Malloced(s, n, answer)
    else if n == 0 then (Freed(s, p), 0)
    else if n <= Cell(s.mem, p - HEADER) then (s, p)
    else
      var (s1, np) := Malloced(s, n, answer);
      var usable := Cell(s1.mem, p - HEADER);
      if np == 0 || usable < 0 then (s1, 0)
      else (Freed(s1.(mem := Copied(s1.mem, p, np, usable)), p), np)
  }

  // A block in use holds its size in its header.
  lemma {:induction false} HeaderHoldsSize(s: Heap, h: int)
    requires Ok(s) && InUse(s.l, h)
    ensures Cell(s.mem, h) == Usable(s.l, h) >= 16
  {
    hide ListsOk, BumpOk;
    if h in s.l.live {
      assert BlockOk(s.l, h);
      IndexOfClass(s.l.blocks[h]);
    } else if h in s.l.blocks {
      NotLarge(s, h);
    }
  }

  lemma {:induction false} CopiedContents(s: Heap, s1: Heap, p: int, np: int, n: nat)
    requires Apart(p, n, np, n) && InUse(s.l, p - HEADER) && n == Usable(s.l, p - HEADER)
    requires p != np && OthersKept(s, s1, np - HEADER)
    ensures Contents(Copied(s1.mem, p, np, n), np, n) == Contents(s.mem, p, n)
  {
    hide InUse, Usable, Copied, Cell;
    var there, here := Contents(Copied(s1.mem, p, np, n), np, n), Contents(s.mem, p, n);
    forall i | 0 <= i < n ensures there[i] == here[i] {
      CopiedCell(s1.mem, p, np, n, np + i);
      assert there[i] == Cell(s1.mem, p + i);
    }
  }

  lemma {:induction false} KeptContents(s: Heap, s': Heap, h: int, g: int, n: nat)
    requires OthersKept(s, s', h) && g != h && InUse(s.l, g) && n <= Usable(s.l, g)
    ensures Contents(s'.mem, g + HEADER, n) == Contents(s.mem, g + HEADER, n)
  {
    hide InUse, Usable, Cell;
  }

  // The move to a larger block: malloc, copy, free.
  lemma {:induction false} MoveOk(s: Heap, p: int, np: int, s1: Heap)
    requires Ok(s) && InUse(s.l, p - HEADER) && Ok(s1) && HandsOut(s, s1, np - HEADER)
    requires Usable(s.l, p - HEADER) <= Usable(s1.l, np - HEADER)
    ensures var n := Usable(s.l, p - HEADER);
            && Cell(s1.mem, p - HEADER) == n >= 0
            && var s' := Freed(s1.(mem := Copied(s1.mem, p, np, n)), p);
               && Ok(s') && InUse(s'.l, np - HEADER) && Usable(s'.l, np - HEADER) == Usable(s1.l, np - HEADER)
               && !InUse(s'.l, p - HEADER) && KeptExcept(s, s', p - HEADER, np - HEADER)
               && Contents(s'.mem, np, n) == Contents(s.mem, p, n)
  {
    hide RegionsOk, BlocksOk, BumpOk, Conserved, HeadersOk, ListOk, Usable, InUse, Cell, Freed, Copied;
    var h, g := p - HEADER, np - HEADER;
    HeaderHoldsSize(s, h);
    HeaderHoldsSize(s1, h);
    var n := Usable(s.l, h);
    InUseApart(s1, h, g);
    CopiedOk(s1, g, p, n);
    forall a ensures !(np <= a < np + n) ==> Cell(Copied(s1.mem, p, np, n), a) == Cell(s1.mem, a) {
      CopiedCell(s1.mem, p, np, n, a);
    }
    CopiedContents(s, s1, p, np, n);
    var s2 := s1.(mem := Copied(s1.mem, p, np, n));
    SameUse(s1, s2);
    FreeOk(s2, p);
    KeptContents(s2, Freed(s2, p), h, g, n);
    hide Ok, Contents;
    forall q | q != h && q != g && InUse(s.l, q)
      ensures forall a :: q <= a < q + HEADER + Usable(s.l, q) ==> Cell(s2.mem, a) == Cell(s.mem, a)
    {
      InUseApart(s1, g, q);
    }
  }

  lemma {:induction false} SameUse(s: Heap, s': Heap)
    requires s'.l == s.l
    ensures forall h :: InUse(s.l, h) <==> InUse(s'.l, h)
    ensures forall h :: Usable(s.l, h) == Usable(s'.l, h)
  {
  }

  // What malloc returns covers all but the last fifteen sizes; for those it is one page.
  lemma {:induction false} Covers(s: Heap, n: nat, answer: int)
    requires Ok(s) && n < SIZE_RANGE && Answer(s, n, answer)
    ensures var (s', p) := Malloced(s, n, answer);
            p != 0 ==> && InUse(s'.l, p - HEADER) && OthersKept(s, s', p - HEADER)
                       && (if n < SIZE_RANGE - 15 then n <= Usable(s'.l, p - HEADER)
                           else Usable(s'.l, p - HEADER) == PAGE - HEADER)
  {
    hide RegionsOk, BlocksOk, BumpOk, Conserved, HeadersOk, ListOk, Usable, InUse, Cell, Malloced,
         SizeToPow2, ClassFor, ClassSize;
    MallocOk(s, n, answer);
    if n > MAX_CLASS { LargeLengthCovers(n); }
  }

  // A realloc whose copy would leave the new block: one of the last fifteen sizes, which malloc serves
  // with one page, for a block that holds more than fits there.
  predicate Overruns(s: Heap, p: int, n: nat) {
    p != 0 && n >= SIZE_RANGE - 15 && PAGE - HEADER < Usable(s.l, p - HEADER) < n
  }

  /** realloc returns a block that starts with the old contents, leaving every other block as it was;
      when it cannot, the old block is untouched. What it returns covers the request if and only if the
      old block did or the request is not one of the last fifteen sizes. All of this unless the kernel
      grants a request whose copy overruns, which ReallocOverruns is about. */
  lemma {:induction false} ReallocOk(s: Heap, p: int, n: nat, answer: int)
    requires Ok(s) && (p == 0 || InUse(s.l, p - HEADER)) && n < SIZE_RANGE && Answer(s, n, answer)
    ensures answer == 0 || !Overruns(s, p, n) ==>
            var (s', np) := Reallocated(s, p, n, answer);
            && Ok(s')
            && (np != 0 ==> && InUse(s'.l, np - HEADER) && KeptExcept(s, s', p - HEADER, np - HEADER)
                            && (n <= Usable(s'.l, np - HEADER)
                                <==> n < SIZE_RANGE - 15 || (p != 0 && n <= Usable(s.l, p - HEADER)))
                            && (p != 0 ==> var len := Usable(s.l, p - HEADER);
                                         len >= 0 && Contents(s'.mem, np, len) == Contents(s.mem, p, len))
                            && (p != 0 && np != p ==> !InUse(s'.l, p - HEADER)))
            && (np == 0 ==> if p != 0 && n == 0 then s' == Freed(s, p) else s' == s)
  {
    hide RegionsOk, BlocksOk, BumpOk, Conserved, HeadersOk, ListOk, Usable, InUse, Cell, Freed, Copied,
         Mappable, HandsOut, Malloced, PagesFor, SizeToPow2, ClassFor, ClassSize;
    MallocOk(s, n, answer);
    if p == 0 {
      Covers(s, n, answer);
    } else if n == 0 {
      FreeOk(s, p);
    } else {
      HeaderHoldsSize(s, p - HEADER);
      var (s1, np) := Malloced(s, n, answer);
      if n > Cell(s.mem, p - HEADER) && np != 0 && (answer == 0 || !Overruns(s, p, n)) {
        Covers(s, n, answer);
        if answer == 0 { Refused(s, n); }
        MoveOk(s, p, np, s1);
      }
    }
  }

  // A refused mapping leaves no large block to return.
  lemma {:induction false} Refused(s: Heap, n: nat)
    requires |s.heads| == CLASSES == |s.l.lists|
    ensures n > MAX_CLASS ==> Malloced(s, n, 0).1 == 0
  {
  }

  /** Where realloc fails: asked to grow a block to one of the last fifteen sizes, it gets a block of one
      page that does not cover the request, and the copy of the old usable size stays inside that block
      exactly when the old block holds no more than a page less its header. */
  lemma {:induction false} ReallocOverruns(s: Heap, p: int, n: nat, answer: int)
    requires Ok(s) && p != 0 && InUse(s.l, p - HEADER) && n < SIZE_RANGE && Answer(s, n, answer)
    requires n >= SIZE_RANGE - 15 && n > Usable(s.l, p - HEADER) && Malloced(s, n, answer).1 != 0
    ensures var (s1, np) := Malloced(s, n, answer);
            var len := Cell(s1.mem, p - HEADER);
            && len == Usable(s.l, p - HEADER) >= 16
            && Usable(s1.l, np - HEADER) == PAGE - HEADER < n
            && (StaysInside(s1.l, np - HEADER, np, len) <==> !Overruns(s, p, n))
            && (!Overruns(s, p, n) <==> len <= PAGE - HEADER)
  {
    hide RegionsOk, BlocksOk, BumpOk, Conserved, HeadersOk, ListOk, Usable, InUse, Cell, Malloced, Mappable,
         PagesFor, SizeToPow2, ClassFor, ClassSize, HandsOut;
    Covers(s, n, answer);
    HeaderHoldsSize(s, p - HEADER);
    var (s1, np) := Malloced(s, n, answer);
    MallocOk(s, n, answer);
    assert np - HEADER != p - HEADER by { FreshBlock(s, s1, np - HEADER); }
    HeaderHoldsSize(s1, p - HEADER);
    assert !InBlock(s1.l, np - HEADER, np + PAGE - HEADER);
  }

  predicate InBlock(l: Layout, h: int, a: int) { h <= a < h + HEADER + Usable(l, h) }

  // len bytes from a on lie inside block h.
  ghost predicate StaysInside(l: Layout, h: int, a: int, len: int) {
    forall x :: a <= x < a + len ==> InBlock(l, h, x)
  }

  lemma {:induction false} FreshBlock(s: Heap, s1: Heap, h: int)
    requires HandsOut(s, s1, h)
    ensures !InUse(s.l, h)
  {
  }

  // ---------------------------------------------------------------------------------------------
  // Whole runs
  // ---------------------------------------------------------------------------------------------

  datatype Call =
    | CallMalloc(n: nat, answer: int)
    | CallFree(p: int)
    | CallRealloc(p: int, n: nat, answer: int)
    | CallWrite(p: int, i: int, b: int)

  // Callers pass back only pointers they hold, write only inside their blocks, and do not make a realloc
  // overrun.
  ghost predicate Legal(s: Heap, c: Call) {
    match c
    case CallMalloc(n, answer) => n < SIZE_RANGE && Answer(s, n, answer)
    case CallFree(p) => p == 0 || InUse(s.l, p - HEADER)
    case CallRealloc(p, n, answer) =>
      n < SIZE_RANGE && (p == 0 || InUse(s.l, p - HEADER)) && Answer(s, n, answer)
      && (answer == 0 || !Overruns(s, p, n))
    case CallWrite(p, i, _) => InUse(s.l, p - HEADER) && 0 <= i < Usable(s.l, p - HEADER)
  }

  function AfterCall(s: Heap, c: Call): Heap
    requires |s.heads| == CLASSES == |s.l.lists|
  {
    match c
    case CallMalloc(n, answer) => Malloced(s, n, answer).0
    case CallFree(p) => Freed(s, p)
    case CallRealloc(p, n, answer) => Reallocated(s, p, n, answer).0
    case CallWrite(p, i, b) => Poke(s, p - HEADER, i, b)
  }

  lemma {:induction false} CallOk(s: Heap, c: Call)
    requires Ok(s) && Legal(s, c)
    ensures |s.heads| == CLASSES == |s.l.lists|
    ensures Ok(AfterCall(s, c))
  {
    hide RegionsOk, BlocksOk, BumpOk, Conserved, HeadersOk, ListOk, InUse, Usable, Answer, HandsOut, KeptExcept,
         Malloced, Freed, Reallocated, ClassFor;
    match c {
      case CallMalloc(n, answer) => MallocOk(s, n, answer);
      case CallFree(p) => FreeOk(s, p);
      case CallRealloc(p, n, answer) => ReallocOk(s, p, n, answer);
      case CallWrite(p, i, b) => PokeOk(s, p - HEADER, i, b);
    }
  }

  ghost predicate Run(s: Heap, calls: seq<Call>, s': Heap)
    decreases |calls|
  {
    if calls == [] then s == s'
    else
      && Legal(s, calls[0]) && |s.heads| == CLASSES == |s.l.lists|
      && Run(AfterCall(s, calls[0]), calls[1..], s')
  }

  lemma {:induction false} RunKeepsOk(s: Heap, calls: seq<Call>, s': Heap)
    requires Ok(s) && Run(s, calls, s')
    ensures Ok(s')
    decreases |calls|
  {
    hide Legal, AfterCall, RegionsOk, BlocksOk, BumpOk, Conserved, HeadersOk, ListOk;
    if calls != [] {
      CallOk(s, calls[0]);
      RunKeepsOk(AfterCall(s, calls[0]), calls[1..], s');
    }
  }

  /** After any sequence of malloc, free, realloc and writes inside held blocks: every carved block is
      in use or on the free list of its class, never both, and all carved blocks are disjoint and lie
      inside superblocks. */
  lemma {:induction false} RunOk(calls: seq<Call>, s: Heap)
    requires Run(EMPTY, calls, s)
    ensures Ok(s)
    ensures forall h :: h in s.l.blocks ==> BlockOk(s.l, h) && s.l.blocks[h] < |s.l.lists|
    ensures forall h :: h in s.l.blocks ==> (h in s.l.live <==> h !in s.l.lists[s.l.blocks[h]])
    ensures forall h, q :: h in s.l.blocks && q in s.l.blocks && h != q ==>
              Apart(h, Extent(s.l, h), q, Extent(s.l, q))
  {
    EmptyOk();
    RunKeepsOk(EMPTY, calls, s);
    hide Run, HeadersOk, BumpOk, RegionsOk, ClassSize, ListOk;
    forall h | h in s.l.blocks ensures h in s.l.live <==> h !in s.l.lists[s.l.blocks[h]] {
      FreeXorLive(s, h);
    }
  }

  lemma {:induction false} FreeXorLive(s: Heap, h: int)
    requires Ok(s) && h in s.l.blocks
    ensures s.l.blocks[h] < |s.l.lists| && (h in s.l.live <==> h !in s.l.lists[s.l.blocks[h]])
  {
    hide HeadersOk, BumpOk, RegionsOk, ClassSize, Chained, Extent;
    var k := s.l.blocks[h];
    var list := s.l.lists[k];
    assert BlockOk(s.l, h);
    assert ListOk(s.mem, s.l, k, list);
    assert forall i :: 0 <= i < |list| ==> Member(s.l, k, list[i]);
  }

  /** The overrun can be reached: after a malloc of more than 4080 bytes that is granted, a granted realloc
      of its block to the greatest size there is copies beyond the new block. */
  lemma {:induction false} OverrunReached(n: nat, a: int, b: int)
    requires PAGE - HEADER < n < SIZE_RANGE - 15 && a != 0 && Legal(EMPTY, CallMalloc(n, a))
    requires b != 0 && Answer(AfterCall(EMPTY, CallMalloc(n, a)), SIZE_RANGE - 1, b)
    ensures var s, p := AfterCall(EMPTY, CallMalloc(n, a)), Malloced(EMPTY, n, a).1;
            && Run(EMPTY, [CallMalloc(n, a)], s) && p != 0 && InUse(s.l, p - HEADER)
            && Overruns(s, p, SIZE_RANGE - 1)
            && var (s1, np) := Malloced(s, SIZE_RANGE - 1, b);
               !StaysInside(s1.l, np - HEADER, np, Cell(s1.mem, p - HEADER))
  {
    EmptyOk();
    MallocOk(EMPTY, n, a);
    var s, p := AfterCall(EMPTY, CallMalloc(n, a)), Malloced(EMPTY, n, a).1;
    assert [CallMalloc(n, a)][1..] == [];
    assert Run(s, [], s);
    hide RegionsOk, BlocksOk, BumpOk, Conserved, HeadersOk, ListsOk, PagesFor, SizeToPow2, ClassFor, ClassSize,
         Cell, StaysInside, Malloced, Mappable, Usable, OthersKept;
    RoomFor(n);
    assert InUse(s.l, p - HEADER) && PAGE - HEADER < Usable(s.l, p - HEADER) < SIZE_RANGE - 1;
    assert Malloced(s, SIZE_RANGE - 1, b).1 != 0 by { Granted(s, SIZE_RANGE - 1, b); }
    ReallocOverruns(s, p, SIZE_RANGE - 1, b);
  }

  // What malloc gives for n bytes holds them, and is not the whole size range.
  lemma {:induction false} RoomFor(n: nat)
    requires 0 < n < SIZE_RANGE - 15 && (n > MAX_CLASS ==> PagesFor(HEADER + n) > 0)
    ensures (if n <= MAX_CLASS then SizeToPow2(AtLeastOne(n)) else PagesFor(HEADER + n) - HEADER) < SIZE_RANGE - HEADER
  {
    if n > MAX_CLASS {
      LargeLengthCovers(n);
      hide PagesFor;
    } else {
      LeastAdequateClass(n);
      IndexOfClass(ClassIndex(SizeToPow2(n)));
      hide SizeToPow2, ClassSize;
    }
  }

  lemma {:induction false} Granted(s: Heap, n: nat, answer: int)
    requires |s.heads| == CLASSES == |s.l.lists| && n > MAX_CLASS && answer != 0 && Answer(s, n, answer)
    ensures Malloced(s, n, answer).1 != 0
  {
  }

  // Such answers of the kernel exist.
  lemma {:induction false} OverrunExists()
    ensures Legal(EMPTY, CallMalloc(5000, PAGE))
    ensures Answer(AfterCall(EMPTY, CallMalloc(5000, PAGE)), SIZE_RANGE - 1, PAGE + ARENA)
  {
    FirstArena(5000, PAGE);
    LargeLengthCovers(SIZE_RANGE - 1);
    OneRegion(EMPTY.l, PAGE, ARENA);
    OneRegion(Malloced(EMPTY, 5000, PAGE).0.l, PAGE + ARENA, PAGE);
    hide Malloced, PagesFor, Mappable, EMPTY;
  }

  // A place behind the only region there is, if any, can be mapped.
  lemma {:induction false} OneRegion(l: Layout, a: int, len: nat)
    requires a > 0 && a % PAGE == 0 && len > 0 && forall r :: r in l.regions ==> r + l.regions[r] <= a
    ensures Mappable(l, a, len)
  {
  }

  lemma {:induction false} FirstArena(n: nat, a: int)
    requires n <= MAX_CLASS && a != 0
    ensures Malloced(EMPTY, n, a).0.l.regions == map[a := ARENA]
  {
    hide ClassFor, ClassSize;
  }

  lemma {:induction false} EmptyOk()
    ensures Ok(EMPTY)
  {
  }

  // ---------------------------------------------------------------------------------------------
  // The program
  // ---------------------------------------------------------------------------------------------

  lemma {:induction false} HeadsTell(s: Heap, k: nat)
    requires Ok(s) && k < CLASSES
    ensures s.heads[k] == 0 <==> s.l.lists[k] == []
  {
    if s.l.lists[k] != [] { PopPositive(s, k); }
  }

  class JlHeap {
    var mem: Memory
    const free: array<int>
    var bump: int
    var end: int
    ghost var l: Layout

    ghost predicate Valid()
      reads this, free
    {
      free.Length == CLASSES && Ok(Now())
    }

    ghost function Now(): Heap
      reads this, free
    {
      Heap(mem, free[..], bump, end, l)
    }

    constructor ()
      ensures Valid() && Now() == EMPTY
      ensures fresh(free)
    {
      mem, bump, end := map[], 0, 0;
      free := new int[CLASSES](_ => 0);
      l := EMPTY.l;
      new;
      assert free[..] == EMPTY.heads;
    }

    // Room for total bytes at the bump pointer, in a new superblock when the current one is used up.
    method ArenaBump(total: nat, answer: int) returns (p: int)
      requires Valid() && 0 < total <= ARENA
      requires answer == 0 || Mappable(l, answer, ARENA)
      modifies this
      ensures mem == old(mem)
      ensures var s := old(Now());
              if s.bump != 0 && s.bump + total <= s.end then p == s.bump && Now() == s.(bump := p + total)
              else if answer == 0 then p == 0 && Now() == s
              else p == answer && Now() == NewArena(s, answer, ARENA).(bump := p + total)
    {
      if bump == 0 || bump + total > end {
        var base := answer;
        if base == 0 { return 0; }
        bump := base;
        end := base + ARENA;
        l := l.(regions := l.regions[base := ARENA], current := base);
      }
      p := bump;
      bump := bump + total;
    }

    method Malloc(n0: nat, answer: int) returns (p: int)
      requires Valid() && n0 < SIZE_RANGE && Answer(Now(), n0, answer)
      modifies this, free
      ensures Valid() && (Now(), p) == Malloced(old(Now()), n0, answer)
    {
      hide RegionsOk, BlocksOk, BumpOk, ListOk, Conserved, HeadersOk, HandsOut, Mappable, Cell,
           SizeToPow2, ClassIndex, ClassSize, PagesFor, InUse, Usable;
      ghost var s := Now();
      MallocOk(s, n0, answer);
      var n := if n0 == 0 then 1 else n0;
      if n > MAX_CLASS {
        var mlen := PagesFor(HEADER + n);
        if answer == 0 { return 0; }
        mem := WithHeader(mem, answer, mlen - HEADER, mlen);
        l := l.(regions := l.regions[answer := mlen], large := l.large + {answer});
        return answer + HEADER;
      }
      var usable := SizeToPow2(n);
      ClassOk(n0);
      var idx := ClassIndex(usable);
      HeadsTell(s, idx);
      IndexOfClass(idx);
      var h := free[idx];
      if h != 0 {
        free[idx] := Cell(mem, h + 8);
        l := l.(lists := l.lists[idx := l.lists[idx][1..]], live := l.live + {h});
      } else {
        h := ArenaBump(HEADER + usable, answer);
        if h == 0 { BumpNever0(s, idx, answer); return 0; }
        l := l.(blocks := l.blocks[h := idx], home := l.home[h := l.current], live := l.live + {h});
      }
      mem := WithHeader(mem, h, usable, 0);
      p := h + HEADER;
    }

    method Free(p: int)
      requires Valid() && (p == 0 || InUse(l, p - HEADER))
      modifies this, free
      ensures Valid() && Now() == Freed(old(Now()), p)
    {
      if p == 0 { return; }
      ghost var s := Now();
      FreeOk(s, p);
      var h := p - HEADER;
      FreeBranch(s, h);
      if Cell(mem, h + 8) != 0 {
        l := l.(regions := l.regions - {h}, large := l.large - {h});
        return;
      }
      var idx := ClassIndex(Cell(mem, h));
      mem := mem[h + 8 := free[idx]];
      free[idx] := h;
      l := l.(lists := l.lists[idx := [h] + l.lists[idx]], live := l.live - {h});
    }

    method Realloc(p: int, n: nat, answer: int) returns (np: int)
      requires Valid() && (p == 0 || InUse(l, p - HEADER)) && n < SIZE_RANGE && Answer(Now(), n, answer)
      requires answer == 0 || !Overruns(Now(), p, n)
      modifies this, free
      ensures Valid() && (Now(), np) == Reallocated(old(Now()), p, n, answer)
    {
      hide Ok, Malloced, Freed, HandsOut, KeptExcept, InUse, Usable, Mappable, Cell, Contents;
      ghost var s := Now();
      ReallocOk(s, p, n, answer);
      if p == 0 { np := Malloc(n, answer); return; }
      if n == 0 { Free(p); return 0; }
      var h := p - HEADER;
      HeaderHoldsSize(s, h);
      if n <= Cell(mem, h) { return p; }
      MovePossible(s, h, n, answer);
      np := Malloc(n, answer);
      if np == 0 { return 0; }
      ghost var s1 := Now();
      var usable := Cell(mem, h);
      for i := 0 to usable
        invariant Now() == s1.(mem := Copied(s1.mem, p, np, i))
      {
        mem := mem[np + i := Cell(mem, p + i)];
      }
      Free(p);
    }
  }

  lemma {:induction false} BumpNever0(s: Heap, k: nat, answer: int)
    requires Ok(s) && k < CLASSES
    ensures Fits(s, k) ==> s.bump > 0
  {
  }

  // Which branch free takes, and the class it finds.
  lemma {:induction false} FreeBranch(s: Heap, h: int)
    requires Ok(s) && InUse(s.l, h)
    ensures Cell(s.mem, h + 8) != 0 <==> h in s.l.large
    ensures h !in s.l.large ==>
              && Cell(s.mem, h) > 0 && h in s.l.blocks
              && s.l.blocks[h] == ClassIndex(Cell(s.mem, h)) < CLASSES
  {
    hide ListsOk, BumpOk;
    if h in s.l.large {
      if h in s.l.blocks { NotLarge(s, h); }
    } else {
      assert BlockOk(s.l, h);
      IndexOfClass(s.l.blocks[h]);
    }
  }

  // After malloc the old block is still in use, and copying it keeps the heap good.
  lemma {:induction false} MovePossible(s: Heap, h: int, n: nat, answer: int)
    requires Ok(s) && InUse(s.l, h) && Cell(s.mem, h) < n < SIZE_RANGE && Answer(s, n, answer)
    requires h != -HEADER && (answer == 0 || !Overruns(s, h + HEADER, n))
    ensures var (s1, np) := Malloced(s, n, answer);
            np != 0 ==> && Cell(s1.mem, h) == Cell(s.mem, h) >= 0 && InUse(s1.l, h)
                        && Ok(s1.(mem := Copied(s1.mem, h + HEADER, np, Cell(s1.mem, h))))
  {
    hide RegionsOk, BlocksOk, BumpOk, Conserved, HeadersOk, ListOk, Usable, InUse, Cell, Malloced,
         SizeToPow2, ClassFor, PagesFor;
    MallocOk(s, n, answer);
    Covers(s, n, answer);
    Refused(s, n);
    HeaderHoldsSize(s, h);
    var (s1, np) := Malloced(s, n, answer);
    if np != 0 {
      HeaderHoldsSize(s1, h);
      CopiedOk(s1, np - HEADER, h + HEADER, Cell(s1.mem, h));
    }
  }
}
