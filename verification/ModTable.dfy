/** The module table built from the memory map of the process, and the lookup of an address in it. */
module ModTable {
  import opened Bytes

  const MAX_MODULES := 1024
  const PATH_MAX := 256

  // A line of the memory map; path is its sixth field, if it has one.
  datatype Mapping = Mapping(lo: nat, hi: nat, exec: bool, path: Option<Bytes>)

  // The bytes from base to end, of which those up to fend come from the file.
  datatype Mod = Mod(base: nat, end: nat, fend: nat, path: Bytes)

  const SLASH: byte := 0x2F
  const DELETED: Bytes := [0x20, 0x28, 0x64, 0x65, 0x6C, 0x65, 0x74, 0x65, 0x64, 0x29]   // " (deleted)"

  predicate FileBacked(m: Mapping) { m.path.Some? && m.path.value != [] && m.path.value[0] == SLASH }

  predicate Occurs(s: Bytes, what: Bytes, i: nat) { i + |what| <= |s| && s[i..i + |what|] == what }

  // The path up to the first mark of a deleted file.
  function Stripped(path: Bytes, i: nat): (r: Bytes)
    requires i <= |path|
    ensures r <= path && |r| >= i
    decreases |path| - i
  {
    if i == |path| || Occurs(path, DELETED, i) then path[..i] else Stripped(path, i + 1)
  }

  predicate StartsWith(s: Bytes, i: nat, what: Bytes) { i <= |s| && what <= s[i..] }

  /** The path of an unlinked file loses the mark the kernel adds, and all that follows its first occurrence;
      every other path is kept. */
  lemma {:induction false} StrippedExactly(path: Bytes, i: nat)
    requires i <= |path|
    ensures var r := Stripped(path, i);
            && r <= path && (r == path || StartsWith(path, |r|, Ascii(" (deleted)")))
            && forall j :: i <= j < |r| ==> !StartsWith(path, j, Ascii(" (deleted)"))
    decreases |path| - i
  {
    DeletedMark();
    OccursIs(path, i);
    hide Occurs;
    if i < |path| && !Occurs(path, DELETED, i) { StrippedExactly(path, i + 1); }
  }

  lemma {:induction false} DeletedMark()
    ensures DELETED == Ascii(" (deleted)")
  {
  }

  lemma {:induction false} OccursIs(path: Bytes, i: nat)
    ensures Occurs(path, DELETED, i) <==> StartsWith(path, i, DELETED)
  {
    if i + |DELETED| <= |path| { assert path[i..][..|DELETED|] == path[i..i + |DELETED|]; }
  }

  /** A module keeps the first 255 bytes of its path. */
  lemma {:induction false} ClipExactly(s: Bytes)
    ensures Clip(s) <= s && |Clip(s)| == if |s| <= 255 then |s| else 255
  {
  }

  function FilePath(m: Mapping): Bytes
    requires FileBacked(m)
  {
    Stripped(m.path.value, 0)
  }

  function Clip(s: Bytes): Bytes { if |s| < PATH_MAX then s else s[..PATH_MAX - 1] }

  function Last(mods: seq<Mod>): Mod
    requires mods != []
  {
    mods[|mods| - 1]
  }

  // The line extends the module before it.
  predicate Extends(mods: seq<Mod>, m: Mapping) {
    mods != [] &&
    if FileBacked(m) then Last(mods).path == FilePath(m)
    else m.exec && m.lo == Last(mods).end
  }

  function Extended(l: Mod, m: Mapping): Mod {
    if !FileBacked(m) then l.(end := m.hi)
    else if m.hi > l.end then l.(end := m.hi, fend := m.hi)
    else l
  }

  // The modules after one more line.
  function Added(mods: seq<Mod>, m: Mapping): seq<Mod> {
    if Extends(mods, m) then mods[|mods| - 1 := Extended(Last(mods), m)]
    else if FileBacked(m) then mods + [Mod(m.lo, m.hi, m.hi, Clip(FilePath(m)))]
    else mods
  }

  // The modules after the first n lines.
  function Built(maps: seq<Mapping>, n: nat): seq<Mod>
    requires n <= |maps|
  {
    if n == 0 then [] else Added(Built(maps, n - 1), maps[n - 1])
  }

  ghost predicate Listing(maps: seq<Mapping>) {
    && (forall i :: 0 <= i < |maps| ==> maps[i].lo < maps[i].hi)
    && forall i, j :: 0 <= i < j < |maps| ==> maps[i].hi <= maps[j].lo
  }

  // ---------------------------------------------------------------------------------------------
  // Where lines end up
  // ---------------------------------------------------------------------------------------------

  // The file-backed line that line i belongs to: itself, or for executable anonymous memory the one
  // it continues without a gap.
  function Source(maps: seq<Mapping>, i: nat): (r: Option<nat>)
    requires i < |maps|
    ensures r.Some? ==> r.value <= i && FileBacked(maps[r.value])
  {
    if FileBacked(maps[i]) then Some(i)
    else if maps[i].exec && i > 0 && maps[i - 1].hi == maps[i].lo then Source(maps, i - 1)
    else None
  }

  ghost predicate Ordered(mods: seq<Mod>) {
    && (forall i :: 0 <= i < |mods| ==> mods[i].base < mods[i].fend <= mods[i].end && |mods[i].path| < PATH_MAX)
    && forall i, j :: 0 <= i < j < |mods| ==> mods[i].end <= mods[j].base
  }

  // The last module ends no later than line n - 1, and exactly there when that line belongs to it.
  predicate EndsAt(maps: seq<Mapping>, n: nat)
    requires 0 < n <= |maps|
  {
    var mods := Built(maps, n);
    && (mods != [] ==> Last(mods).end <= maps[n - 1].hi)
    && (Source(maps, n - 1).Some? <==> mods != [] && Last(mods).end == maps[n - 1].hi)
    && (Source(maps, n - 1).Some? ==>
          && Last(mods).base <= maps[n - 1].lo
          && Last(mods).path == Clip(FilePath(maps[Source(maps, n - 1).value]))
          && (FileBacked(maps[n - 1]) ==> Last(mods).fend == maps[n - 1].hi))
  }

  lemma {:induction false} AddedOrdered(mods: seq<Mod>, m: Mapping)
    requires Ordered(mods) && m.lo < m.hi && (mods != [] ==> Last(mods).end <= m.lo)
    ensures Ordered(Added(mods, m))
  {
    hide FileBacked, FilePath;
  }

  lemma {:induction false} BuiltInOrder(maps: seq<Mapping>, n: nat)
    requires Listing(maps) && n <= |maps|
    ensures Ordered(Built(maps, n))
    ensures n > 0 ==> EndsAt(maps, n)
  {
    if n > 0 {
      hide FileBacked, FilePath, Clip, Ordered, EndsAt, Extends;
      BuiltInOrder(maps, n - 1);
      LinesBelow(maps, n);
      AddedOrdered(Built(maps, n - 1), maps[n - 1]);
      if Extends(Built(maps, n - 1), maps[n - 1]) { ExtendedEnds(maps, n); } else { UnextendedEnds(maps, n); }
    }
  }

  // What has been built lies below the next line.
  lemma {:induction false} LinesBelow(maps: seq<Mapping>, n: nat)
    requires Listing(maps) && 0 < n <= |maps| && (n > 1 ==> EndsAt(maps, n - 1))
    ensures Built(maps, n - 1) != [] ==> Last(Built(maps, n - 1)).end <= maps[n - 1].lo
    ensures maps[n - 1].lo < maps[n - 1].hi
  {
    hide FileBacked, FilePath, Clip, Added;
    if n > 1 { assert maps[n - 2].hi <= maps[n - 1].lo; }
  }

  lemma {:induction false} ExtendedEnds(maps: seq<Mapping>, n: nat)
    requires Listing(maps) && 0 < n <= |maps| && (n > 1 ==> EndsAt(maps, n - 1)) && Ordered(Built(maps, n - 1))
    requires Built(maps, n - 1) != [] && Last(Built(maps, n - 1)).end <= maps[n - 1].lo < maps[n - 1].hi
    requires Extends(Built(maps, n - 1), maps[n - 1])
    ensures EndsAt(maps, n)
  {
    hide FileBacked, FilePath, Ordered;
    var mods, m := Built(maps, n - 1), maps[n - 1];
    assert |Last(mods).path| < PATH_MAX && Last(mods).base < Last(mods).end by { OrderedLast(mods); }
    assert Built(maps, n) == mods[|mods| - 1 := Extended(Last(mods), m)];
    assert Last(Built(maps, n)) == Extended(Last(mods), m);
    if !FileBacked(m) {
      assert n > 1 && maps[n - 2].hi <= m.lo;
    }
  }

  lemma {:induction false} OrderedLast(mods: seq<Mod>)
    requires Ordered(mods) && mods != []
    ensures |Last(mods).path| < PATH_MAX && Last(mods).base < Last(mods).fend <= Last(mods).end
  {
  }

  lemma {:induction false} UnextendedEnds(maps: seq<Mapping>, n: nat)
    requires Listing(maps) && 0 < n <= |maps| && (n > 1 ==> EndsAt(maps, n - 1))
    requires Built(maps, n - 1) != [] ==> Last(Built(maps, n - 1)).end <= maps[n - 1].lo
    requires maps[n - 1].lo < maps[n - 1].hi && !Extends(Built(maps, n - 1), maps[n - 1])
    ensures EndsAt(maps, n)
  {
    hide FileBacked, FilePath, Clip;
    var mods, m := Built(maps, n - 1), maps[n - 1];
    if FileBacked(m) {
      assert Built(maps, n) == mods + [Mod(m.lo, m.hi, m.hi, Clip(FilePath(m)))];
    } else {
      assert Built(maps, n) == mods;
    }
  }

  // A module keeps its base and path, and only the last one still grows.
  lemma {:induction false} ModulesStay(maps: seq<Mapping>, n: nat, n': nat, k: nat)
    requires Listing(maps) && n <= n' <= |maps| && k < |Built(maps, n)|
    ensures |Built(maps, n)| <= |Built(maps, n')|
    ensures var a, b := Built(maps, n)[k], Built(maps, n')[k];
            b.base == a.base && b.path == a.path && b.end >= a.end && b.fend >= a.fend
    decreases n'
  {
    hide FileBacked, FilePath, Clip, EndsAt, Ordered, Extends;
    if n < n' {
      ModulesStay(maps, n, n' - 1, k);
      BuiltInOrder(maps, n' - 1);
      LinesBelow(maps, n');
      OrderedLast(Built(maps, n' - 1));
      AddedGrows(Built(maps, n' - 1), maps[n' - 1], k);
      hide Added;
    }
  }

  lemma {:induction false} AddedGrows(mods: seq<Mod>, m: Mapping, k: nat)
    requires k < |mods| && Last(mods).fend <= Last(mods).end <= m.lo < m.hi
    ensures |mods| <= |Added(mods, m)|
    ensures var a, b := mods[k], Added(mods, m)[k];
            b.base == a.base && b.path == a.path && b.end >= a.end && b.fend >= a.fend
  {
    hide FileBacked, FilePath, Clip, Extends;
  }

  // The first module from position i on that contains a.
  function Resolve(mods: seq<Mod>, a: nat, i: nat): (r: Option<nat>)
    requires i <= |mods|
    ensures r.Some? ==> i <= r.value < |mods| && mods[r.value].base <= a < mods[r.value].end
    ensures r.None? ==> forall k :: i <= k < |mods| ==> !(mods[k].base <= a < mods[k].end)
    decreases |mods| - i
  {
    if i == |mods| then None
    else if mods[i].base <= a < mods[i].end then Some(i)
    else Resolve(mods, a, i + 1)
  }

  /** Every address of a file-backed line resolves to that line's own file, and so does every address
      of executable anonymous memory that continues it without a gap; an address in the file image is
      never flagged as lying outside it. */
  lemma {:induction false} ResolvesToSource(maps: seq<Mapping>, n: nat, i: nat, a: nat)
    requires Listing(maps) && i < n <= |maps| && maps[i].lo <= a < maps[i].hi && Source(maps, i).Some?
    ensures var mods, k := Built(maps, n), |Built(maps, i + 1)| - 1;
            && 0 <= k < |mods| && Resolve(mods, a, 0) == Some(k)
            && mods[k].path == Clip(FilePath(maps[Source(maps, i).value]))
            && (FileBacked(maps[i]) ==> a < mods[k].fend)
  {
    hide FileBacked, FilePath, Clip, Built, Source;
    BuiltInOrder(maps, i + 1);
    BuiltInOrder(maps, n);
    var k := |Built(maps, i + 1)| - 1;
    ModulesStay(maps, i + 1, n, k);
    hide EndsAt;
    var mods := Built(maps, n);
    assert mods[k].base <= a < mods[k].end;
  }

  /** What a module holds beyond its file image is executable anonymous memory that continues it
      without a gap. */
  lemma {:induction false} TailIsAdjacent(maps: seq<Mapping>, n: nat, k: nat, x: nat) returns (i: nat)
    requires Listing(maps) && n <= |maps| && k < |Built(maps, n)|
    requires Built(maps, n)[k].fend <= x < Built(maps, n)[k].end
    ensures i < n && maps[i].lo <= x < maps[i].hi && !FileBacked(maps[i]) && Source(maps, i).Some?
  {
    hide FileBacked, FilePath, Clip, Ordered;
    var mods, m := Built(maps, n - 1), maps[n - 1];
    BuiltInOrder(maps, n);
    BuiltInOrder(maps, n - 1);
    if k < |mods| && mods[k].fend <= x < mods[k].end {
      i := TailIsAdjacent(maps, n - 1, k, x);
    } else {
      i := n - 1;
      assert k == |mods| - 1 && Extends(mods, m) && !FileBacked(m);
    }
  }

  /** Every module ends where a line that belongs to it ends. */
  lemma {:induction false} EndIsOwn(maps: seq<Mapping>, n: nat, k: nat) returns (i: nat)
    requires Listing(maps) && n <= |maps| && k < |Built(maps, n)|
    ensures i < n && Source(maps, i).Some? && |Built(maps, i + 1)| == k + 1 && Built(maps, n)[k].end == maps[i].hi
  {
    hide FileBacked, FilePath, Clip, EndsAt;
    BuiltInOrder(maps, n);
    BuiltInOrder(maps, n - 1);
    LinesBelow(maps, n);
    OneLine(maps, n);
    if k < |Built(maps, n - 1)| && Built(maps, n)[k] == Built(maps, n - 1)[k] {
      i := EndIsOwn(maps, n - 1, k);
    } else {
      i := n - 1;
      LastEnds(maps, n, k);
    }
  }

  // Line n - 1 leaves the modules alone, extends the last one, or opens a new last one.
  lemma {:induction false} OneLine(maps: seq<Mapping>, n: nat)
    requires 0 < n <= |maps|
    ensures var mods, mods' := Built(maps, n - 1), Built(maps, n);
            && |mods| <= |mods'| <= |mods| + 1
            && forall k :: 0 <= k < |mods| && (k + 1 < |mods| || |mods'| > |mods|) ==> mods'[k] == mods[k]
  {
    hide FileBacked, FilePath, Clip, Extends, Extended;
    assert Built(maps, n) == Added(Built(maps, n - 1), maps[n - 1]);
    AddedOne(Built(maps, n - 1), maps[n - 1]);
  }

  lemma {:induction false} AddedOne(mods: seq<Mod>, m: Mapping)
    ensures |mods| <= |Added(mods, m)| <= |mods| + 1
    ensures forall k :: 0 <= k < |mods| && (k + 1 < |mods| || |Added(mods, m)| > |mods|) ==>
              Added(mods, m)[k] == mods[k]
  {
    hide FileBacked, FilePath, Clip, Extended;
  }

  lemma {:induction false} LastEnds(maps: seq<Mapping>, n: nat, k: nat)
    requires Listing(maps) && 0 < n <= |maps| && k < |Built(maps, n)| && EndsAt(maps, n)
    requires Built(maps, n - 1) != [] ==> Last(Built(maps, n - 1)).end <= maps[n - 1].lo
    requires k < |Built(maps, n - 1)| ==> Built(maps, n)[k] != Built(maps, n - 1)[k]
    ensures k == |Built(maps, n)| - 1 && Built(maps, n)[k].end == maps[n - 1].hi && Source(maps, n - 1).Some?
  {
    hide FileBacked, FilePath, Clip;
    OneLine(maps, n);
    assert maps[n - 1].lo < maps[n - 1].hi;
  }

  /** Every module starts where a line of its own file starts. */
  lemma {:induction false} BaseIsOwn(maps: seq<Mapping>, n: nat, k: nat) returns (j: nat)
    requires Listing(maps) && n <= |maps| && k < |Built(maps, n)|
    ensures j < n && FileBacked(maps[j]) && |Built(maps, j + 1)| == k + 1
    ensures Built(maps, n)[k].base == maps[j].lo && Built(maps, n)[k].path == Clip(FilePath(maps[j]))
  {
    hide FileBacked, FilePath, Clip;
    if k < |Built(maps, n - 1)| {
      j := BaseIsOwn(maps, n - 1, k);
    } else {
      j := n - 1;
    }
  }

  // Address a lies at or behind the start of line j and before the end of line i, and both lines belong
  // to one module.
  ghost predicate Spanned(maps: seq<Mapping>, a: nat, j: nat, i: nat)
    requires j < |maps| && i < |maps|
  {
    && Source(maps, j).Some? && Source(maps, i).Some?
    && |Built(maps, j + 1)| == |Built(maps, i + 1)|
    && maps[j].lo <= a < maps[i].hi
  }

  /** Exactly which addresses resolve: those from a line of a module to a later, or the same, line of
      that module, the gaps between them included. */
  lemma {:induction false} ResolvesExactly(maps: seq<Mapping>, n: nat, a: nat)
    requires Listing(maps) && n <= |maps|
    ensures Resolve(Built(maps, n), a, 0).Some? <==> exists j, i :: 0 <= j < n && 0 <= i < n && Spanned(maps, a, j, i)
  {
    hide FileBacked, FilePath, Clip, Built, Source, Ordered, EndsAt;
    var mods := Built(maps, n);
    var r := Resolve(mods, a, 0);
    if r.Some? {
      var j := BaseIsOwn(maps, n, r.value);
      var i := EndIsOwn(maps, n, r.value);
      assert Spanned(maps, a, j, i) by { OwnSource(maps, j); }
    }
    if j, i :| 0 <= j < n && 0 <= i < n && Spanned(maps, a, j, i) {
      SpanCovered(maps, n, a, j, i);
    }
  }

  lemma {:induction false} OwnSource(maps: seq<Mapping>, j: nat)
    requires j < |maps| && FileBacked(maps[j])
    ensures Source(maps, j).Some?
  {
  }

  lemma {:induction false} SpanCovered(maps: seq<Mapping>, n: nat, a: nat, j: nat, i: nat)
    requires Listing(maps) && j < n <= |maps| && i < n && Spanned(maps, a, j, i)
    ensures var k := |Built(maps, i + 1)| - 1;
            0 <= k < |Built(maps, n)| && Built(maps, n)[k].base <= a < Built(maps, n)[k].end
  {
    hide FileBacked, FilePath, Clip, Built, Source;
    BuiltInOrder(maps, j + 1);
    BuiltInOrder(maps, i + 1);
    var k := |Built(maps, i + 1)| - 1;
    ModulesStay(maps, j + 1, n, k);
    ModulesStay(maps, i + 1, n, k);
  }

  /** An address that resolves although no line of its module contains it, such as one between two
      mappings of one file, is not flagged as lying beyond the file image. */
  lemma {:induction false} GapIsUnflagged(maps: seq<Mapping>, n: nat, a: nat, k: nat)
    requires Listing(maps) && n <= |maps| && k < |Built(maps, n)|
    requires Built(maps, n)[k].base <= a < Built(maps, n)[k].end
    requires forall i :: 0 <= i < n && Source(maps, i).Some? ==> !(maps[i].lo <= a < maps[i].hi)
    ensures a < Built(maps, n)[k].fend
  {
    hide Source, Built;
    if a >= Built(maps, n)[k].fend {
      var i := TailIsAdjacent(maps, n, k, a);
    }
  }

  // Line i is file-backed and went into module k.
  predicate FileLineOf(maps: seq<Mapping>, i: nat, k: nat)
    requires i < |maps|
  {
    FileBacked(maps[i]) && |Built(maps, i + 1)| == k + 1
  }

  // The file image of a module ends where a file-backed line of it ends.
  lemma {:induction false} FileEndIsOwn(maps: seq<Mapping>, n: nat, k: nat) returns (i: nat)
    requires Listing(maps) && n <= |maps| && k < |Built(maps, n)|
    ensures i < n && FileLineOf(maps, i, k) && Built(maps, n)[k].fend == maps[i].hi
  {
    hide FileBacked, FilePath, Clip, Extends, Added;
    var mods, m := Built(maps, n - 1), maps[n - 1];
    assert Built(maps, n) == Added(mods, m);
    if k < |mods| && Built(maps, n)[k].fend == mods[k].fend {
      i := FileEndIsOwn(maps, n - 1, k);
    } else {
      i := n - 1;
      FileEndAdded(mods, m, k);
    }
  }

  lemma {:induction false} FileEndAdded(mods: seq<Mod>, m: Mapping, k: nat)
    requires k < |Added(mods, m)| && (k < |mods| ==> Added(mods, m)[k].fend != mods[k].fend)
    ensures FileBacked(m) && |Added(mods, m)| == k + 1 && Added(mods, m)[k].fend == m.hi
  {
    hide FileBacked, FilePath, Clip;
  }

  // ... and no file-backed line of it ends later.
  lemma {:induction false} FileEndIsLast(maps: seq<Mapping>, n: nat, k: nat, i: nat)
    requires Listing(maps) && i < n <= |maps| && FileLineOf(maps, i, k)
    ensures k < |Built(maps, n)| && maps[i].hi <= Built(maps, n)[k].fend
  {
    hide FileBacked, FilePath, Clip, Built, Ordered;
    BuiltInOrder(maps, i + 1);
    OwnSource(maps, i);
    ModulesStay(maps, i + 1, n, k);
  }

  /** Exactly which addresses of a module are flagged: those that lie behind every file-backed line
      of it. */
  lemma {:induction false} FlaggedExactly(maps: seq<Mapping>, n: nat, a: nat, k: nat)
    requires Listing(maps) && n <= |maps| && k < |Built(maps, n)|
    ensures a >= Built(maps, n)[k].fend <==> forall j :: 0 <= j < n && FileLineOf(maps, j, k) ==> maps[j].hi <= a
  {
    hide Built, FileLineOf;
    var i := FileEndIsOwn(maps, n, k);
    forall j | 0 <= j < n && FileLineOf(maps, j, k)
      ensures maps[j].hi <= Built(maps, n)[k].fend
    {
      FileEndIsLast(maps, n, k, j);
    }
  }

  /** Absorbed code is flagged, unless a later line of the same file takes the file image past it. */
  lemma {:induction false} AbsorbedIsFlagged(maps: seq<Mapping>, n: nat, i: nat, a: nat)
    requires Listing(maps) && i < n <= |maps| && maps[i].lo <= a < maps[i].hi
    requires !FileBacked(maps[i]) && Source(maps, i).Some?
    ensures var k := |Built(maps, i + 1)| - 1;
            && 0 <= k < |Built(maps, n)|
            && (a >= Built(maps, n)[k].fend <==> forall j :: i < j < n ==> !FileLineOf(maps, j, k))
  {
    hide FilePath, Clip, Built, Source;
    ResolvesToSource(maps, n, i, a);
    var k := |Built(maps, i + 1)| - 1;
    FlaggedExactly(maps, n, a, k);
    forall j | 0 <= j < n && FileLineOf(maps, j, k)
      ensures maps[j].hi <= a <==> j < i
    {
      assert j != i;
    }
  }

  // A file mapped on both sides of anonymous code: the code is absorbed and not flagged.
  lemma {:induction false} AbsorbedUnflagged()
    ensures var p: Option<Bytes> := Some([SLASH]);
            var maps := [Mapping(0, 10, true, p), Mapping(10, 20, true, None), Mapping(20, 30, true, p)];
            && Listing(maps) && Source(maps, 1) == Some(0)
            && Built(maps, 3) == [Mod(0, 30, 30, [SLASH])] && Resolve(Built(maps, 3), 15, 0) == Some(0)
  {
    var p: Option<Bytes> := Some([SLASH]);
    var maps := [Mapping(0, 10, true, p), Mapping(10, 20, true, None), Mapping(20, 30, true, p)];
    assert FilePath(maps[0]) == [SLASH] && FilePath(maps[2]) == [SLASH] by {
      assert Stripped([SLASH], 1) == [SLASH];
    }
    assert Built(maps, 1) == [Mod(0, 10, 10, [SLASH])];
    assert Built(maps, 2) == [Mod(0, 20, 10, [SLASH])];
  }

  // The last file-backed line before line n.
  function LastFile(maps: seq<Mapping>, n: nat): (r: Option<nat>)
    requires n <= |maps|
    ensures r.Some? ==> r.value < n && FileBacked(maps[r.value]) && forall j :: r.value < j < n ==> !FileBacked(maps[j])
    ensures r.None? ==> forall j :: 0 <= j < n ==> !FileBacked(maps[j])
  {
    if n == 0 then None else if FileBacked(maps[n - 1]) then Some(n - 1) else LastFile(maps, n - 1)
  }

  lemma {:induction false} LastFileIs(maps: seq<Mapping>, n: nat)
    requires n <= |maps|
    ensures LastFile(maps, n).None? <==> Built(maps, n) == []
    ensures LastFile(maps, n).Some? ==>
              Built(maps, n) != [] && Last(Built(maps, n)).path == Clip(FilePath(maps[LastFile(maps, n).value]))
  {
    hide FileBacked, FilePath;
    if n > 0 {
      LastFileIs(maps, n - 1);
      assert Built(maps, n) == Added(Built(maps, n - 1), maps[n - 1]);
    }
  }

  /** Lines of one file make one module: a file-backed line joins the module of the file-backed line before it
      if and only if its path is that line's, cut to 255 bytes; otherwise it opens a module. No other line opens
      one. */
  lemma {:induction false} MergedExactly(maps: seq<Mapping>, i: nat)
    requires i < |maps|
    ensures |Built(maps, i + 1)| == |Built(maps, i)| || |Built(maps, i + 1)| == |Built(maps, i)| + 1
    ensures |Built(maps, i + 1)| > |Built(maps, i)| <==>
              && FileBacked(maps[i])
              && match LastFile(maps, i)
                 case None => true
                 case Some(j) =>
                   var p := FilePath(maps[j]);
                   FilePath(maps[i]) != if |p| <= 255 then p else p[..255]
  {
    LastFileIs(maps, i);
    assert Built(maps, i + 1) == Added(Built(maps, i), maps[i]);
    hide FileBacked, FilePath, Built;
  }

  /** A reading of the whole map: the modules are sorted and disjoint. */
  lemma {:induction false} ModulesSortedDisjoint(maps: seq<Mapping>, n: nat, i: nat, j: nat)
    requires Listing(maps) && n <= |maps| && i < j < |Built(maps, n)|
    ensures var mods := Built(maps, n); mods[i].base < mods[i].end <= mods[j].base < mods[j].end
  {
    BuiltInOrder(maps, n);
  }

  // ---------------------------------------------------------------------------------------------
  // The program
  // ---------------------------------------------------------------------------------------------

  // How many of the lines from n on are read before the table is full.
  function Read(maps: seq<Mapping>, n: nat): (r: nat)
    requires n <= |maps|
    ensures n <= r <= |maps|
    decreases |maps| - n
  {
    if n == |maps| || |Built(maps, n + 1)| > MAX_MODULES then n else Read(maps, n + 1)
  }

  lemma {:induction false} ReadAll(maps: seq<Mapping>, n: nat)
    requires n <= |maps| && |Built(maps, |maps|)| <= MAX_MODULES
    ensures Read(maps, n) == |maps|
    decreases |maps| - n
  {
    hide *;
    ReadOne(maps, n);
    if n < |maps| {
      BuiltGrows(maps, n + 1, |maps|);
      ReadAll(maps, n + 1);
    }
  }

  lemma {:induction false} ReadOne(maps: seq<Mapping>, n: nat)
    requires n <= |maps|
    ensures Read(maps, n) == if n == |maps| || |Built(maps, n + 1)| > MAX_MODULES then n else Read(maps, n + 1)
  {
  }

  lemma {:induction false} BuiltGrows(maps: seq<Mapping>, n: nat, n': nat)
    requires n <= n' <= |maps|
    ensures |Built(maps, n)| <= |Built(maps, n')|
    decreases n'
  {
    hide Extends, FileBacked, FilePath, Extended;
    if n < n' { BuiltGrows(maps, n, n' - 1); }
  }

  class ModuleTable {
    const mods: array<Mod>
    var count: nat

    ghost predicate Valid()
      reads this
    {
      mods.Length == MAX_MODULES && count <= MAX_MODULES
    }

    ghost function Now(): seq<Mod>
      requires Valid()
      reads this, mods
    {
      mods[..count]
    }

    constructor ()
      ensures Valid() && Now() == [] && fresh(mods)
    {
      mods := new Mod[MAX_MODULES](_ => Mod(0, 0, 0, []));
      count := 0;
    }

    // One line of the map; full when it would open a module too many.
    method AddLine(m: Mapping) returns (full: bool)
      requires Valid()
      modifies this, mods
      ensures Valid() && full == (|Added(old(Now()), m)| > MAX_MODULES)
      ensures Now() == if full then old(Now()) else Added(old(Now()), m)
    {
      hide FileBacked, FilePath, Clip;
      full := false;
      if !FileBacked(m) {
        if m.exec && count > 0 && m.lo == mods[count - 1].end {
          mods[count - 1] := mods[count - 1].(end := m.hi);
        }
        return;
      }
      var path := FilePath(m);
      if count > 0 && mods[count - 1].path == path {
        if m.hi > mods[count - 1].end {
          mods[count - 1] := mods[count - 1].(end := m.hi, fend := m.hi);
        }
        return;
      }
      if count >= MAX_MODULES { return true; }
      mods[count] := Mod(m.lo, m.hi, m.hi, Clip(path));
      count := count + 1;
    }

    method Build(maps: seq<Mapping>)
      requires Valid()
      modifies this, mods
      ensures Valid() && Now() == Built(maps, Read(maps, 0))
    {
      hide FileBacked, FilePath, Clip, Added;
      count := 0;
      var n := 0;
      while n < |maps|
        invariant n <= |maps| && Valid() && Now() == Built(maps, n)
        invariant Read(maps, 0) == Read(maps, n)
      {
        var full := AddLine(maps[n]);
        if full { return; }
        n := n + 1;
      }
    }

    // The base and path of the module an address lies in, and whether it lies beyond the file image.
    method Dladdr(a: nat) returns (found: bool, base: nat, path: Bytes, synth: bool)
      requires Valid()
      ensures found <==> Resolve(Now(), a, 0).Some?
      ensures found ==> var m := Now()[Resolve(Now(), a, 0).value];
                        base == m.base && path == Clip(m.path) && synth == (a >= m.fend)
    {
      found, base, path, synth := false, 0, [], false;
      for i := 0 to count
        invariant !found && Resolve(Now(), a, 0) == Resolve(Now(), a, i)
      {
        if mods[i].base <= a < mods[i].end {
          return true, mods[i].base, Clip(mods[i].path), a >= mods[i].fend;
        }
      }
    }
  }
}
