/** Truncation: which blocks release_block gives back, and when that is what a shorter file no longer needs. */
module FileRelease {
  import opened Bytes
  import opened Counting
  import opened FileLayout
  import opened FileSteps
  import opened TableSteps

  /** The file position at which a slot comes into use. */
  function Start(s: Slot): nat {
    match s
    case Data(k) => k * BLOCK_SIZE
    case Single => LEVEL_END0
    case Double => LEVEL_END1
    case Table(i) => LEVEL_END1 + i * INDEX_ONE_SIZE
  }

  lemma StartIsActive(size: nat, s: Slot)
    ensures Active(size, s) <==> Start(s) < size
  {
  }

  /** The slots of a tree that come into use in [lo, hi). */
  ghost function Gone(t: Tree, lo: nat, hi: nat): set<Slot> {
    set s | s in t && lo <= Start(s) < hi
  }

  lemma NothingGone(bm: seq<bool>, t: Tree, lo: nat)
    ensures Gone(t, lo, lo) == {} && Image(t, {}) == {}
    ensures Cleared(bm, bm, {})
  {
  }

  lemma GoneSplit(t: Tree, lo: nat, mid: nat, hi: nat)
    requires lo <= mid <= hi
    ensures Gone(t, lo, hi) == Gone(t, lo, mid) + Gone(t, mid, hi)
  {
  }

  /** Below one index block only data slots come into use, besides the index blocks at its start. */
  lemma GoneStep(t: Tree, p: Slot, k: nat)
    requires (p.Single? || p.Table?) && InTree(p) && Base(p) <= k < Base(p) + 64
    requires Data(k) in t
    ensures Gone(t, k * BLOCK_SIZE, (k + 1) * BLOCK_SIZE) + Above(p) == {Data(k)} + Above(p)
  {
    forall s | s in t && k * BLOCK_SIZE <= Start(s) < (k + 1) * BLOCK_SIZE
      ensures s == Data(k) || s in Above(p)
    {
      match s
      case Data(j) => BoundaryStep(k, 0, BLOCK_SIZE, j);
      case Table(i) => BoundaryStep(k, 0, BLOCK_SIZE, 76 + 64 * i);
      case _ =>
    }
  }

  /** No slot comes into use strictly inside a block. */
  lemma GoneInside(t: Tree, k: nat, o: nat)
    requires 0 < o < BLOCK_SIZE
    ensures Gone(t, k * BLOCK_SIZE + o, (k + 1) * BLOCK_SIZE) == {}
  {
    forall s | s in t
      ensures !(k * BLOCK_SIZE + o <= Start(s) < (k + 1) * BLOCK_SIZE)
    {
      match s
      case Data(j) => BoundaryStep(k, 0, BLOCK_SIZE, j);
      case Single => BoundaryStep(k, 0, BLOCK_SIZE, 12);
      case Double => BoundaryStep(k, 0, BLOCK_SIZE, 76);
      case Table(i) => BoundaryStep(k, 0, BLOCK_SIZE, 76 + 64 * i);
    }
  }

  /** All slots of a file of `size` bytes come into use before `size`. */
  lemma GonePastEnd(t: Tree, lo: nat, hi: nat, size: nat)
    requires t.Keys == ActiveSet(size) && size <= hi
    ensures Gone(t, lo, hi) == Gone(t, lo, size)
  {
    forall s | s in t ensures Start(s) < size { StartIsActive(size, s); }
  }

  /** The blocks release_block gives back when a file is cut to `off` bytes. */
  ghost function Released(t: Tree, index: seq<nat>, size: nat, off: nat): set<nat>
    requires |index| == 15
  {
    if off >= size then {}
    else if off >= LEVEL_END0 then Image(t, Gone(t, off, size))
    else {BlockIndex(index[12])} + Image(t, Gone(t, LEVEL_END0 + BLOCK_SIZE, size))
  }

  /** Leaving the inner loop: the data slots of [lo, hi) and the index blocks that begin there. */
  lemma GoneOfTable(t: Tree, p: Slot, lo: nat, hi: nat)
    requires p.Single? || p.Table?
    requires InTree(p) && Base(p) * BLOCK_SIZE <= lo < hi <= Base(p) * BLOCK_SIZE + INDEX_ONE_SIZE
    requires p in t
    ensures Gone(t, lo, hi) ==
            (Gone(t, lo, hi) - Above(p)) +
            (if lo == Base(p) * BLOCK_SIZE then {p} else {}) +
            (if lo == LEVEL_END1 && Double in t then {Double} else {})
  {
    if p.Table? && p.i > 0 { assert Start(Double) < lo; }
  }

  /** One index block: the block itself when its range begins at lo, then the data blocks below it. */
  lemma ClearTable(bm0: seq<bool>, bm1: seq<bool>, bm2: seq<bool>, t: Tree, p: Slot, lo: nat, hi: nat)
    requires p.Single? || p.Table?
    requires InTree(p) && Base(p) * BLOCK_SIZE <= lo < hi <= Base(p) * BLOCK_SIZE + INDEX_ONE_SIZE
    requires p in t && t[p] < |bm0|
    requires bm1 == if lo == Base(p) * BLOCK_SIZE then bm0[t[p] := false] else bm0
    requires Cleared(bm1, bm2, Image(t, Gone(t, lo, hi) - Above(p)))
    ensures Cleared(bm0, bm2, Image(t, Gone(t, lo, hi) - {Double}))
  {
    hide Image, Gone, Cleared;
    var own := if lo == Base(p) * BLOCK_SIZE then {p} else {};
    NothingGone(bm0, t, lo);
    if lo == Base(p) * BLOCK_SIZE {
      ClearMore(bm0, bm0, t, {}, p);
      assert {} + {p} == {p};
    }
    assert Cleared(bm0, bm1, Image(t, own));
    var g := Gone(t, lo, hi) - Above(p);
    ClearTwice(bm0, bm1, bm2, Image(t, own), Image(t, g));
    ImageUnion(t, own, g);
    GoneOfTable(t, p, lo, hi);
    if p.Single? { NoDoubleGone(t, lo, hi); }
    assert own + g == Gone(t, lo, hi) - {Double};
  }

  lemma NoDoubleGone(t: Tree, lo: nat, hi: nat)
    requires hi <= LEVEL_END1 || lo > LEVEL_END1
    ensures Gone(t, lo, hi) - {Double} == Gone(t, lo, hi)
  {
  }

  lemma DoubleGone(t: Tree, hi: nat)
    requires hi > LEVEL_END1 && Double in t
    ensures Double in Gone(t, LEVEL_END1, hi)
  {
  }

  /** What is left of a tree when the file is cut to `off` bytes. */
  ghost function Cut(t: Tree, off: nat): Tree {
    map s | s in t && Start(s) < off :: t[s]
  }

  lemma CutIsDiskTree(d: seq<byte>, index: seq<nat>, size: nat, off: nat)
    requires |index| == 15 && off <= size
    ensures Cut(DiskTree(d, index, size), off) == DiskTree(d, index, off)
  {
    forall s ensures Active(size, s) <==> Start(s) < size { StartIsActive(size, s); }
    forall s ensures Active(off, s) <==> Start(s) < off { StartIsActive(off, s); }
    assert Cut(DiskTree(d, index, size), off).Keys == ActiveSet(off);
  }

  lemma CutImage(t: Tree, off: nat, size: nat)
    requires Injective(t) && t.Keys == ActiveSet(size) && off <= size
    ensures Cut(t, off).Values !! Image(t, Gone(t, off, size))
    ensures t.Values == Cut(t, off).Values + Image(t, Gone(t, off, size))
  {
    var u, g := Cut(t, off), Gone(t, off, size);
    forall x | x in t.Values ensures x in u.Values + Image(t, g) {
      var s :| s in t && t[s] == x;
      StartIsActive(size, s);
      if Start(s) < off { assert u[s] == x; } else { assert s in g; }
    }
  }

  /** The bitmap is right for the shorter file exactly when what was released is what it no longer needs. */
  lemma CutMarks(t: Tree, bm0: seq<bool>, bm: seq<bool>, keep: set<nat>, f: set<nat>, off: nat, size: nat)
    requires Closed(t) && Injective(t) && Marks(t, bm0, keep) && t.Keys == ActiveSet(size) && off <= size
    requires Cleared(bm0, bm, f)
    ensures Marks(Cut(t, off), bm, keep) <==>
            (forall b :: 0 <= b < BLOCK_NUM ==> (b in f && bm0[b] <==> b in Image(t, Gone(t, off, size))))
  {
    hide Gone, Image, ActiveSet, Injective;
    var u, n := Cut(t, off), Image(t, Gone(t, off, size));
    CutImage(t, off, size);
    assert forall b :: b in n ==> b in t.Values;
    assert forall b :: b in t.Values ==> b !in keep && b < BLOCK_NUM;
    assert forall s :: s in u ==> u[s] == t[s];
    if forall b :: 0 <= b < BLOCK_NUM ==> (b in f && bm0[b] <==> b in n) {
      assert Marks(u, bm, keep);
    } else {
      var b :| 0 <= b < BLOCK_NUM && (b in f && bm0[b]) != (b in n);
      assert bm[b] != (b in keep || b in u.Values);
    }
  }

  lemma CutClosed(t: Tree, off: nat)
    requires Closed(t)
    ensures Closed(Cut(t, off))
  {
    var u := Cut(t, off);
    forall s | s in u
      ensures HasParent(s) ==> Parent(s) in u
    {
      if HasParent(s) { assert Start(Parent(s)) <= Start(s); }
    }
  }

  lemma CutLayout(d: seq<byte>, bm0: seq<bool>, bm: seq<bool>, index: seq<nat>, t: Tree, keep: set<nat>,
                  keep': set<nat>, off: nat)
    requires Layout(d, bm0, index, t, keep)
    requires Marks(Cut(t, off), bm, keep')
    ensures Layout(d, bm, index, Cut(t, off), keep')
  {
    hide Block, WordAt, Marks;
    var u := Cut(t, off);
    CutClosed(t, off);
    hide Start;
    forall s | s in u
      ensures Pointer(d, index, u, s) == BlockAddr(u[s])
    {
      assert Pointer(d, index, t, s) == BlockAddr(t[s]);
    }
  }

  /** Cutting inside the direct range does the right thing only by luck: nothing but direct blocks is in use,
      and the stale index[12] names the one block to be given back, or an idle block when there is none. */
  predicate LuckyDirectCut(bm: seq<bool>, index: seq<nat>, size: nat, off: nat)
    requires |index| == 15
  {
    var first, end := (off + BLOCK_SIZE - 1) / BLOCK_SIZE, (size + BLOCK_SIZE - 1) / BLOCK_SIZE;
    var stale := BlockIndex(index[12]);
    && size <= LEVEL_END0
    && ((first + 1 == end && stale == BlockIndex(index[first])) || (first == end && stale < |bm| && !bm[stale]))
  }

  /** When a cut gives back exactly the blocks the shorter file does not need. */
  predicate CutIsClean(bm: seq<bool>, index: seq<nat>, size: nat, off: nat)
    requires |index| == 15
  {
    off >= size || off >= LEVEL_END0 || LuckyDirectCut(bm, index, size, off)
  }

  /** Whether release_block stays inside the bitmap. Its direct branch takes index[12] as it is, and a file that has
      never reached the single-indirect level has anything there. */
  predicate StaysInside(index: seq<nat>, size: nat, off: nat)
    requires |index| == 15
  {
    off >= size || off >= LEVEL_END0 || BlockIndex(index[12]) < BLOCK_NUM
  }

  lemma CleanStaysInside(d: seq<byte>, bm: seq<bool>, index: seq<nat>, size: nat, off: nat, keep: set<nat>)
    requires WellFormed(d, bm, index, size, keep) && CutIsClean(bm, index, size, off)
    ensures StaysInside(index, size, off)
  {
    hide ActiveSet, Injective;
    if off < size && off < LEVEL_END0 {
      var t, first := DiskTree(d, index, size), (off + BLOCK_SIZE - 1) / BLOCK_SIZE;
      TreeKeys(d, index, size);
      if first + 1 == (size + BLOCK_SIZE - 1) / BLOCK_SIZE { DirectPointer(d, bm, index, t, keep, size, first); }
    }
  }

  /** A file with an indirect part, cut inside the direct range, leaks data block 12. */
  lemma DirectCutLeaks(d: seq<byte>, bm0: seq<bool>, index: seq<nat>, t: Tree, keep: set<nat>, size: nat, off: nat)
    requires Layout(d, bm0, index, t, keep) && t.Keys == ActiveSet(size)
    requires off < LEVEL_END0 < size
    ensures Data(12) in t && t[Data(12)] < BLOCK_NUM && bm0[t[Data(12)]]
    ensures t[Data(12)] in Image(t, Gone(t, off, size)) && t[Data(12)] !in Released(t, index, size, off)
  {
    hide Block, WordAt;
    var s := Data(12);
    assert s in ActiveSet(size) && Single in ActiveSet(size);
    assert Start(s) == LEVEL_END0;
    assert s in Gone(t, off, size);
    assert Pointer(d, index, t, Single) == BlockAddr(t[Single]);
    assert BlockIndex(index[12]) == t[Single];
    assert s !in Gone(t, LEVEL_END0 + BLOCK_SIZE, size);
  }

  /** The direct blocks a cut of a purely direct file should give back. */
  lemma DirectNeed(d: seq<byte>, bm0: seq<bool>, index: seq<nat>, t: Tree, keep: set<nat>, size: nat, off: nat, b: nat)
    requires Layout(d, bm0, index, t, keep) && t.Keys == ActiveSet(size)
    requires off < size <= LEVEL_END0
    ensures var first, end := (off + BLOCK_SIZE - 1) / BLOCK_SIZE, (size + BLOCK_SIZE - 1) / BLOCK_SIZE;
            b in Image(t, Gone(t, off, size)) <==> exists k :: first <= k < end && k < 12 && b == BlockIndex(index[k])
  {
    hide Block, WordAt, Marks;
    var first, end := (off + BLOCK_SIZE - 1) / BLOCK_SIZE, (size + BLOCK_SIZE - 1) / BLOCK_SIZE;
    if b in Image(t, Gone(t, off, size)) {
      var s :| s in Gone(t, off, size) && s in t && t[s] == b;
      StartIsActive(size, s);
      assert s.Data? && first <= s.k < end && s.k < 12;
      assert Pointer(d, index, t, s) == BlockAddr(b);
    }
    if k :| first <= k < end && k < 12 && b == BlockIndex(index[k]) {
      var s := Data(k);
      assert off <= k * BLOCK_SIZE < size;
      assert s in ActiveSet(size) && s in Gone(t, off, size);
      assert Pointer(d, index, t, s) == BlockAddr(t[s]);
    }
  }

  lemma NothingIndirect(t: Tree, size: nat)
    requires t.Keys == ActiveSet(size) && size <= LEVEL_END0
    ensures Image(t, Gone(t, LEVEL_END0 + BLOCK_SIZE, size)) == {}
  {
  }

  /** release_block followed by the new size, for every well-formed file and every offset: the bitmap is not left and
      the file is well-formed exactly when the cut is clean. */
  lemma TruncationExact(d: seq<byte>, bm0: seq<bool>, bm: seq<bool>, index: seq<nat>, size: nat, off: nat,
                        keep: set<nat>)
    requires WellFormed(d, bm0, index, size, keep)
    requires StaysInside(index, size, off) ==> Cleared(bm0, bm, Released(DiskTree(d, index, size), index, size, off))
    ensures StaysInside(index, size, off) && WellFormed(d, bm, index, if off < size then off else size, keep) <==>
            CutIsClean(bm0, index, size, off)
  {
    Shape(d, bm0, index, size, keep);
    hide WellFormed, CutIsClean, Cleared, Released;
    if CutIsClean(bm0, index, size, off) { CleanStaysInside(d, bm0, index, size, off, keep); }
    if StaysInside(index, size, off) { InsideExact(d, bm0, bm, index, size, off, keep); }
  }

  lemma InsideExact(d: seq<byte>, bm0: seq<bool>, bm: seq<bool>, index: seq<nat>, size: nat, off: nat, keep: set<nat>)
    requires WellFormed(d, bm0, index, size, keep) && StaysInside(index, size, off)
    requires Cleared(bm0, bm, Released(DiskTree(d, index, size), index, size, off))
    ensures WellFormed(d, bm, index, if off < size then off else size, keep) <==> CutIsClean(bm0, index, size, off)
  {
    var t, cut := DiskTree(d, index, size), if off < size then off else size;
    hide DiskTree, Points, Injective, Image, Gone, ActiveSet, Cleared, LuckyDirectCut;
    TreeKeys(d, index, size);
    CutIsDiskTree(d, index, size, cut);
    var f, n := Released(t, index, size, off), Image(t, Gone(t, cut, size));
    CutMarks(t, bm0, bm, keep, f, cut, size);
    if Marks(Cut(t, cut), bm, keep) { CutLayout(d, bm0, bm, index, t, keep, keep, cut); }
    CutImage(t, cut, size);
    if off >= size {
      NothingGone(bm0, t, size);
    } else if off >= LEVEL_END0 {
      assert forall b :: b in n ==> b in t.Values;
    } else {
      CutDirect(d, bm0, index, t, keep, size, off);
    }
  }

  lemma CutDirect(d: seq<byte>, bm0: seq<bool>, index: seq<nat>, t: Tree, keep: set<nat>, size: nat, off: nat)
    requires Layout(d, bm0, index, t, keep) && t.Keys == ActiveSet(size)
    requires off < size && off < LEVEL_END0 && BlockIndex(index[12]) < BLOCK_NUM
    ensures (forall b :: 0 <= b < BLOCK_NUM ==>
               (b in Released(t, index, size, off) && bm0[b] <==> b in Image(t, Gone(t, off, size)))) <==>
            LuckyDirectCut(bm0, index, size, off)
  {
    if size > LEVEL_END0 {
      hide Points, Injective, Image, Gone, ActiveSet, Marks;
      DirectCutLeaks(d, bm0, index, t, keep, size, off);
    } else {
      CutDirectOnly(d, bm0, index, t, keep, size, off);
    }
  }

  lemma CutDirectOnly(d: seq<byte>, bm0: seq<bool>, index: seq<nat>, t: Tree, keep: set<nat>, size: nat, off: nat)
    requires Layout(d, bm0, index, t, keep) && t.Keys == ActiveSet(size)
    requires off < size <= LEVEL_END0 && BlockIndex(index[12]) < BLOCK_NUM
    ensures (forall b :: 0 <= b < BLOCK_NUM ==>
               (b in Released(t, index, size, off) && bm0[b] <==> b in Image(t, Gone(t, off, size)))) <==>
            LuckyDirectCut(bm0, index, size, off)
  {
    hide Points, Image, Gone, ActiveSet, Block, WordAt;
    NothingIndirect(t, size);
    var stale := BlockIndex(index[12]);
    var first, end := (off + BLOCK_SIZE - 1) / BLOCK_SIZE, (size + BLOCK_SIZE - 1) / BLOCK_SIZE;
    var n := Image(t, Gone(t, off, size));
    forall b ensures b in n <==> exists k :: first <= k < end && k < 12 && b == BlockIndex(index[k]) {
      DirectNeed(d, bm0, index, t, keep, size, off, b);
    }
    forall k | 0 <= k < end
      ensures k < 12 && BlockIndex(index[k]) < BLOCK_NUM && bm0[BlockIndex(index[k])]
      ensures Data(k) in t && BlockIndex(index[k]) == t[Data(k)]
    {
      DirectPointer(d, bm0, index, t, keep, size, k);
    }
    if first + 1 < end {
      assert t[Data(first)] != t[Data(first + 1)];
      assert BlockIndex(index[first]) in n && BlockIndex(index[first + 1]) in n;
    } else if first + 1 == end {
      assert BlockIndex(index[first]) in n;
    } else {
      assert forall b :: b !in n;
    }
  }

  lemma DirectPointer(d: seq<byte>, bm0: seq<bool>, index: seq<nat>, t: Tree, keep: set<nat>, size: nat, k: nat)
    requires Layout(d, bm0, index, t, keep) && t.Keys == ActiveSet(size) && size <= LEVEL_END0
    requires k < (size + BLOCK_SIZE - 1) / BLOCK_SIZE
    ensures k < 12 && Data(k) in t && BlockIndex(index[k]) == t[Data(k)] < BLOCK_NUM && bm0[t[Data(k)]]
  {
    hide Block, WordAt;
    assert k * BLOCK_SIZE < size;
    assert Data(k) in ActiveSet(size);
    assert Pointer(d, index, t, Data(k)) == BlockAddr(t[Data(k)]);
  }

  lemma Shape(d: seq<byte>, bm: seq<bool>, index: seq<nat>, size: nat, keep: set<nat>)
    requires WellFormed(d, bm, index, size, keep)
    ensures |d| == RAMDISK_SIZE && |bm| == BLOCK_NUM && |index| == 15 && size < LEVEL_END2
  {
    hide ActiveSet, DiskTree, Points;
    TreeKeys(d, index, size);
    NoTripleLevel(d, bm, index, DiskTree(d, index, size), keep, size);
  }

  lemma Prefix(d: seq<byte>, index: seq<nat>, size: nat, off: nat)
    requires |index| == 15 && off <= size
    ensures FileBytes(d, index, off) == FileBytes(d, index, size)[..off]
  {
  }

  /** Every block a well-formed file gives up becomes free: tree and free blocks are conserved. */
  lemma Conserved(d: seq<byte>, bm: seq<bool>, index: seq<nat>, size: nat, keep: set<nat>)
    requires WellFormed(d, bm, index, size, keep)
    ensures |FreeSet(bm)| + |ActiveSet(size)| + |keep| == BLOCK_NUM
  {
    var t := DiskTree(d, index, size);
    hide ActiveSet, DiskTree, Points;
    TreeKeys(d, index, size);
    TreeCard(t);
    FullCard(t.Values + keep + FreeSet(bm), BLOCK_NUM);
    assert t.Values !! keep && (t.Values + keep) !! FreeSet(bm);
  }

  // Cuts that are not clean.

  /** What is marked after a cut and is none of the shorter file's blocks: everybody else's, and what has leaked, less
      what was released by mistake. */
  ghost function KeepAfter(d: seq<byte>, index: seq<nat>, size: nat, off: nat, keep: set<nat>): set<nat>
    requires |index| == 15
  {
    var t := DiskTree(d, index, size);
    if off >= size then keep else (keep + Image(t, Gone(t, off, size))) - Released(t, index, size, off)
  }

  /** The stale index[12] names a block of the disk, and none of the blocks that the file keeps. */
  predicate SparesOwn(index: seq<nat>, size: nat, off: nat)
    requires |index| == 15
  {
    || off >= size || off >= LEVEL_END0
    || (BlockIndex(index[12]) < BLOCK_NUM &&
        forall k :: 0 <= k < 12 && k * BLOCK_SIZE < off ==> BlockIndex(index[k]) != BlockIndex(index[12]))
  }

  lemma SparesInside(index: seq<nat>, size: nat, off: nat)
    requires |index| == 15 && SparesOwn(index, size, off)
    ensures StaysInside(index, size, off)
  {
  }

  lemma NothingCut(d: seq<byte>, bm: seq<bool>, index: seq<nat>, size: nat, off: nat, keep: set<nat>)
    requires |index| == 15 && size <= off
    ensures KeepAfter(d, index, size, off, keep) == keep && CutIsClean(bm, index, size, off)
  {
  }

  /** Such a cut may leak blocks, and free one of somebody else's, but the shorter file is sound in itself. */
  lemma SparedCut(d: seq<byte>, bm0: seq<bool>, bm: seq<bool>, index: seq<nat>, size: nat, off: nat, keep: set<nat>)
    requires WellFormed(d, bm0, index, size, keep) && off < size && SparesOwn(index, size, off)
    requires Cleared(bm0, bm, Released(DiskTree(d, index, size), index, size, off))
    ensures WellFormed(d, bm, index, off, KeepAfter(d, index, size, off, keep))
  {
    var t := DiskTree(d, index, size);
    hide DiskTree, Points, Injective, Image, Gone, ActiveSet, SparesOwn, Released;
    TreeKeys(d, index, size);
    CutIsDiskTree(d, index, size, off);
    CutImage(t, off, size);
    ReleasedOutside(d, bm0, index, t, keep, size, off);
    var u, n, f := Cut(t, off), Image(t, Gone(t, off, size)), Released(t, index, size, off);
    SparedMarks(t, u, n, bm0, bm, keep, f);
    CutLayout(d, bm0, bm, index, t, keep, (keep + n) - f, off);
  }

  lemma ReleasedOutside(d: seq<byte>, bm: seq<bool>, index: seq<nat>, t: Tree, keep: set<nat>, size: nat, off: nat)
    requires Layout(d, bm, index, t, keep) && t.Keys == ActiveSet(size) && off < size && SparesOwn(index, size, off)
    ensures forall s :: s in Cut(t, off) ==> t[s] !in Released(t, index, size, off)
  {
    hide Block, WordAt, Marks, ActiveSet, Points;
    var lo := if off >= LEVEL_END0 then off else LEVEL_END0 + BLOCK_SIZE;
    forall s | s in Cut(t, off) ensures t[s] !in Released(t, index, size, off) {
      NotGone(t, s, lo, size);
      if off < LEVEL_END0 { OwnDirect(d, bm, index, t, keep, s, off); }
    }
  }

  lemma NotGone(t: Tree, s: Slot, lo: nat, hi: nat)
    requires Injective(t) && s in t && Start(s) < lo
    ensures t[s] !in Image(t, Gone(t, lo, hi))
  {
  }

  lemma OwnDirect(d: seq<byte>, bm: seq<bool>, index: seq<nat>, t: Tree, keep: set<nat>, s: Slot, off: nat)
    requires Layout(d, bm, index, t, keep) && s in t && Start(s) < off < LEVEL_END0
    ensures s.Data? && s.k < 12 && s.k * BLOCK_SIZE < off && BlockIndex(index[s.k]) == t[s]
  {
    hide Block, WordAt, Marks;
    assert Pointer(d, index, t, s) == BlockAddr(t[s]);
  }

  lemma SparedMarks(t: Tree, u: Tree, n: set<nat>, bm0: seq<bool>, bm: seq<bool>, keep: set<nat>, f: set<nat>)
    requires Marks(t, bm0, keep) && Cleared(bm0, bm, f) && t.Values == u.Values + n && u.Values !! n
    requires (forall s :: s in u ==> s in t && u[s] == t[s] && u[s] !in f) && forall s :: s in t ==> t[s] < BLOCK_NUM
    ensures Marks(u, bm, (keep + n) - f)
  {
    assert forall b :: b in n ==> b in t.Values;
    assert forall s :: s in u ==> u[s] in u.Values;
  }

  /** After a cut that spares its own blocks, everybody else's are as before exactly when the cut is clean. */
  lemma KeepExact(d: seq<byte>, bm0: seq<bool>, bm: seq<bool>, index: seq<nat>, size: nat, off: nat, keep: set<nat>)
    requires WellFormed(d, bm0, index, size, keep) && off < size && SparesOwn(index, size, off)
    requires Cleared(bm0, bm, Released(DiskTree(d, index, size), index, size, off))
    ensures KeepAfter(d, index, size, off, keep) == keep <==> CutIsClean(bm0, index, size, off)
  {
    SparedCut(d, bm0, bm, index, size, off, keep);
    SparesInside(index, size, off);
    hide WellFormed, KeepAfter, Cleared, Released, CutIsClean, SparesOwn, StaysInside;
    TruncationExact(d, bm0, bm, index, size, off, keep);
    if CutIsClean(bm0, index, size, off) { OneKeep(d, bm, index, off, keep, KeepAfter(d, index, size, off, keep)); }
  }

  /** A clean cut spares its own blocks and leaves everybody else's. */
  lemma CleanKeeps(d: seq<byte>, bm: seq<bool>, index: seq<nat>, size: nat, off: nat, keep: set<nat>)
    requires WellFormed(d, bm, index, size, keep) && CutIsClean(bm, index, size, off)
    ensures SparesOwn(index, size, off) && KeepAfter(d, index, size, off, keep) == keep
  {
    if off < size {
      CleanSpares(d, bm, index, size, off, keep);
      hide WellFormed, CutIsClean, SparesOwn, KeepAfter, Released, DiskTree;
      var f := Released(DiskTree(d, index, size), index, size, off);
      KeepExact(d, bm, seq(|bm|, b requires 0 <= b < |bm| => bm[b] && b !in f), index, size, off, keep);
    }
  }

  lemma CleanSpares(d: seq<byte>, bm: seq<bool>, index: seq<nat>, size: nat, off: nat, keep: set<nat>)
    requires WellFormed(d, bm, index, size, keep) && CutIsClean(bm, index, size, off) && off < size
    ensures SparesOwn(index, size, off)
  {
    var t := DiskTree(d, index, size);
    hide DiskTree, Points, ActiveSet, Closed;
    TreeKeys(d, index, size);
    if off < LEVEL_END0 {
      CleanStaysInside(d, bm, index, size, off, keep);
      var first := (off + BLOCK_SIZE - 1) / BLOCK_SIZE;
      forall k | 0 <= k < 12 && k * BLOCK_SIZE < off ensures BlockIndex(index[k]) != BlockIndex(index[12]) {
        DirectPointer(d, bm, index, t, keep, size, k);
        if first + 1 == (size + BLOCK_SIZE - 1) / BLOCK_SIZE { DirectPointer(d, bm, index, t, keep, size, first); }
      }
    }
  }

  /** The bitmap tells whose the marked blocks are. */
  lemma OneKeep(d: seq<byte>, bm: seq<bool>, index: seq<nat>, size: nat, keep: set<nat>, keep': set<nat>)
    requires WellFormed(d, bm, index, size, keep) && WellFormed(d, bm, index, size, keep')
    ensures keep == keep'
  {
    hide DiskTree, Points, Injective;
    var t := DiskTree(d, index, size);
    assert forall s :: s in t ==> t[s] in t.Values;
    forall b ensures b in keep <==> b in keep' { }
  }

  /** An empty file on an empty disk. */
  lemma EmptyFile(d: seq<byte>, bm: seq<bool>, index: seq<nat>, end: nat)
    requires |d| == RAMDISK_SIZE && |index| == 15 && |bm| == BLOCK_NUM && (forall b :: 0 <= b < BLOCK_NUM ==> !bm[b])
    requires end <= LEVEL_END0 + 1
    ensures WellFormed(d, bm, index, 0, {})
    ensures |FreeSet(bm)| + |ActiveSet(0)| >= |ActiveSet(end)|
  {
    EmptyTree(d, index);
    FullCard(FreeSet(bm), BLOCK_NUM);
    SmallDemand(end);
  }

  lemma EmptyTree(d: seq<byte>, index: seq<nat>)
    requires |index| == 15
    ensures DiskTree(d, index, 0) == map[] && DiskTree(d, index, 0).Values == {}
  {
    assert ActiveSet(0) == {};
  }

  lemma SmallDemand(end: nat)
    requires end <= LEVEL_END0 + 1
    ensures |ActiveSet(end)| <= 14
  {
    DataCard(13);
    var data := set k: nat | k < 13 :: Data(k);
    assert ActiveSet(end) <= data + {Single};
    SubsetCard(ActiveSet(end), data + {Single});
  }

  lemma SinglePointer(d: seq<byte>, bm: seq<bool>, index: seq<nat>, size: nat, keep: set<nat>)
    requires WellFormed(d, bm, index, size, keep) && size > LEVEL_END0
    ensures BlockIndex(index[12]) < BLOCK_NUM
  {
    var t := DiskTree(d, index, size);
    assert Single in t;
    assert Pointer(d, index, t, Single) == BlockAddr(t[Single]);
  }
}
