/** Offsets beyond the size of a file. lseek sets any; write_data puts the bytes there, but adds only their number to
    the size. */
module FileGaps {
  import opened Bytes
  import opened Counting
  import opened FileLayout
  import opened FileSteps
  import opened FileRelease

  function DataBlocks(size: nat): nat { (size + BLOCK_SIZE - 1) / BLOCK_SIZE }

  /** Two sizes need the same blocks, index blocks included, exactly when they need as many data blocks. */
  lemma SameBlocks(size: nat, off: nat)
    requires size <= off <= LEVEL_END2
    ensures ActiveSet(size) == ActiveSet(off) <==> DataBlocks(size) == DataBlocks(off)
  {
    if DataBlocks(size) == DataBlocks(off) {
      forall s ensures Active(size, s) <==> Active(off, s) { SameSlot(size, off, s); }
    } else {
      var s := Data(DataBlocks(size));
      assert s !in ActiveSet(size) && s in ActiveSet(off);
    }
  }

  lemma SameSlot(size: nat, off: nat, s: Slot)
    requires DataBlocks(size) == DataBlocks(off)
    ensures Active(size, s) <==> Active(off, s)
  {
    var n := match s case Data(k) => k case Single => 12 case Double => 76 case Table(i) => 76 + 64 * i;
    assert n * BLOCK_SIZE < size <==> n < DataBlocks(size);
    assert n * BLOCK_SIZE < off <==> n < DataBlocks(off);
  }

  /** Up to the end of its last data block a file is as well-formed as at its size; what the block holds there is
      whatever it held. */
  lemma TailRoom(d: seq<byte>, bm: seq<bool>, index: seq<nat>, size: nat, off: nat, keep: set<nat>)
    requires WellFormed(d, bm, index, size, keep) && size <= off && DataBlocks(size) == DataBlocks(off)
    ensures WellFormed(d, bm, index, off, keep) && ActiveSet(off) == ActiveSet(size)
  {
    hide WellFormed, ActiveSet;
    Shape(d, bm, index, size, keep);
    SameBlocks(size, off);
    SameFile(d, bm, index, size, off, keep);
  }

  lemma SameFile(d: seq<byte>, bm: seq<bool>, index: seq<nat>, size: nat, off: nat, keep: set<nat>)
    requires |index| == 15 && ActiveSet(size) == ActiveSet(off)
    ensures WellFormed(d, bm, index, size, keep) <==> WellFormed(d, bm, index, off, keep)
  {
    hide Layout, ActiveSet, Addr, BlockIndex;
    assert DiskTree(d, index, size) == DiskTree(d, index, off);
  }

  /** n bytes written at off, beyond the size: the file is well-formed at its new size if and only if the new size needs
      as many blocks as the end of the bytes written. */
  lemma GapExact(d: seq<byte>, bm: seq<bool>, index: seq<nat>, size: nat, off: nat, n: nat, keep: set<nat>)
    requires WellFormed(d, bm, index, off + n, keep) && size <= off
    ensures WellFormed(d, bm, index, size + n, keep) <==> DataBlocks(size + n) == DataBlocks(off + n)
  {
    hide WellFormed, ActiveSet;
    Shape(d, bm, index, off + n, keep);
    SameBlocks(size + n, off + n);
    if DataBlocks(size + n) == DataBlocks(off + n) {
      SameFile(d, bm, index, size + n, off + n, keep);
    } else if WellFormed(d, bm, index, size + n, keep) {
      Conserved(d, bm, index, size + n, keep);
      Conserved(d, bm, index, off + n, keep);
      ActiveGrows(size + n, off + n);
    }
  }

  /** Well-formed with everybody's blocks as they were, or as they are now. */
  lemma Whose(d: seq<byte>, bm: seq<bool>, index: seq<nat>, size: nat, keep: set<nat>, keep': set<nat>, fits: bool)
    requires |index| == 15 && (WellFormed(d, bm, index, size, keep') <==> fits) && (!fits ==> keep == keep')
    ensures WellFormed(d, bm, index, size, keep) <==> keep' == keep && fits
  {
    hide WellFormed;
    if fits && WellFormed(d, bm, index, size, keep) { OneKeep(d, bm, index, size, keep, keep'); }
  }

  lemma ActiveGrows(size: nat, off: nat)
    requires size <= off && |ActiveSet(size)| == |ActiveSet(off)|
    ensures ActiveSet(size) == ActiveSet(off)
  {
    assert ActiveSet(size) <= ActiveSet(off);
    assert ActiveSet(off) == ActiveSet(size) + (ActiveSet(off) - ActiveSet(size));
  }

  // Past the last block.

  /** The pointer happens to be the address of a free block. */
  predicate NamesFree(bm: seq<bool>, a: nat) {
    && a >= BLOCK_BASE && (a - BLOCK_BASE) % BLOCK_SIZE == 0
    && BlockIndex(a) < |bm| && !bm[BlockIndex(a)]
  }

  /** A block border past the file's last block, and a write that stays in the direct range. */
  predicate PastBlocks(size: nat, off: nat, n: nat) {
    off % BLOCK_SIZE == 0 && DataBlocks(size) * BLOCK_SIZE < off && 0 < n && off + n <= LEVEL_END0
  }

  /** n bytes written there: the file cannot be well-formed at its new size unless the pointer behind its old last
      block, which nobody has set, named a block that was free. */
  lemma PastBreaks(d0: seq<byte>, bm0: seq<bool>, index0: seq<nat>, t0: Tree, d: seq<byte>, bm: seq<bool>,
                   index: seq<nat>, t: Tree, keep: set<nat>, size: nat, off: nat, n: nat)
    requires Layout(d0, bm0, index0, t0, keep) && t0.Keys == ActiveSet(size) && PastBlocks(size, off, n)
    requires Layout(d, bm, index, t, keep) && t.Keys == t0.Keys + Direct(off, off + n)
    requires forall s :: s in t0 ==> t[s] == t0[s]
    requires WellFormed(d, bm, index, size + n, keep)
    ensures DataBlocks(size) < 12 && NamesFree(bm0, index[DataBlocks(size)])
  {
    var u, k := DiskTree(d, index, size + n), DataBlocks(size);
    hide DiskTree, Points, ActiveSet, Injective, Marks, Direct, DataBlocks, Closed, NamesFree, BlockIndex;
    TreeKeys(d, index, size + n);
    BlocksReach(size);
    SameValues(t, u, bm, keep);
    OldSlots(d, index, t0, t, u, size, n);
    NewInside(t0, t, u, size, off, n);
    NewWasFree(t0, t, u, bm0, bm, keep, Data(k));
    DirectAddr(d, index, u, k);
    FreeAddr(bm0, u[Data(k)]);
  }

  /** The tree that such a write starts from, with nothing between its last block and the offset. */
  lemma PastStart(d: seq<byte>, bm: seq<bool>, index: seq<nat>, size: nat, off: nat, n: nat, keep: set<nat>)
      returns (t: Tree)
    requires WellFormed(d, bm, index, size, keep) && PastBlocks(size, off, n) && |FreeSet(bm)| >= |Direct(off, off + n)|
    ensures |index| == 15 && t.Keys == ActiveSet(size) && Layout(d, bm, index, t, keep) && Reaches(t, off)
    ensures Writing(d, d, bm, index, t, keep, off, Content(d, t, off), t.Keys + Direct(off, off + n))
  {
    t := DiskTree(d, index, size);
    hide Layout, DiskTree, Content, Direct, FreeSet;
    TreeKeys(d, index, size);
    PastReaches(t, size, off, n);
    Shape(d, bm, index, size, keep);
    assert |t| == |t.Keys|;
  }

  lemma PastReaches(t: Tree, size: nat, off: nat, n: nat)
    requires t.Keys == ActiveSet(size) && PastBlocks(size, off, n)
    ensures Reaches(t, off)
  {
    BlocksReach(size);
    hide DataBlocks;
    forall k: nat | Data(k) in t ensures k * BLOCK_SIZE < off { assert Active(size, Data(k)); }
  }

  lemma FreeAddr(bm: seq<bool>, b: nat)
    requires b < |bm| && !bm[b]
    ensures NamesFree(bm, BlockAddr(b))
  {
  }

  lemma BlocksReach(size: nat)
    ensures size <= DataBlocks(size) * BLOCK_SIZE < size + BLOCK_SIZE
  {
  }

  lemma SameValues(t: Tree, u: Tree, bm: seq<bool>, keep: set<nat>)
    requires Closed(t) && Closed(u) && Marks(t, bm, keep) && Marks(u, bm, keep)
    ensures t.Values == u.Values
  {
    assert forall s :: s in t ==> t[s] in t.Values;
    assert forall s :: s in u ==> u[s] in u.Values;
    forall b | b in t.Values ensures b in u.Values { var s :| s in t && t[s] == b; }
    forall b | b in u.Values ensures b in t.Values { var s :| s in u && u[s] == b; }
  }

  lemma DirectAddr(d: seq<byte>, index: seq<nat>, u: Tree, k: nat)
    requires |d| == RAMDISK_SIZE && |index| == 15 && Closed(u) && Points(d, index, u) && Data(k) in u && k < 12
    ensures index[k] == BlockAddr(u[Data(k)]) && BlockIndex(index[k]) == u[Data(k)] < BLOCK_NUM
  {
    hide Block, WordAt;
    assert Pointer(d, index, u, Data(k)) == BlockAddr(u[Data(k)]);
  }

  /** The old slots are found again in the new tree, with the same blocks. */
  lemma OldSlots(d: seq<byte>, index: seq<nat>, t0: Tree, t: Tree, u: Tree, size: nat, n: nat)
    requires |d| == RAMDISK_SIZE && |index| == 15 && Closed(t) && Closed(u) && Points(d, index, t) &&
             Points(d, index, u)
    requires t0.Keys == ActiveSet(size) && t0.Keys <= t.Keys && u.Keys == ActiveSet(size + n) && size + n <= LEVEL_END0
    ensures forall s :: s in t0 ==> s in u && u[s] == t[s]
    ensures forall s :: s in t0 ==> s.Data? && s.k * BLOCK_SIZE < size
  {
    hide Points;
    forall s | s in t0 ensures s.Data? && s.k * BLOCK_SIZE < size && s in u && u[s] == t[s] {
      assert Active(size, s);
      DirectAddr(d, index, t, s.k);
      DirectAddr(d, index, u, s.k);
    }
  }

  /** The block behind the old last one is needed at the new size, or else the first new block has leaked. */
  lemma NewInside(t0: Tree, t: Tree, u: Tree, size: nat, off: nat, n: nat)
    requires t0.Keys == ActiveSet(size) && PastBlocks(size, off, n) && u.Keys == ActiveSet(size + n)
    requires t.Keys == t0.Keys + Direct(off, off + n) && t.Values == u.Values && Injective(t)
    requires forall s :: s in t0 ==> s in u && u[s] == t[s]
    ensures DataBlocks(size) < 12 && Data(DataBlocks(size)) in u && Data(DataBlocks(size)) !in t0
  {
    var s := Data(off / BLOCK_SIZE);
    FirstNew(size, off, n);
    var v := NewSlot(t0, t, u, s);
    NextBlock(size, size + n, v);
  }

  lemma FirstNew(size: nat, off: nat, n: nat)
    requires PastBlocks(size, off, n)
    ensures Data(off / BLOCK_SIZE) in Direct(off, off + n) && Data(off / BLOCK_SIZE) !in ActiveSet(size)
    ensures size + n <= LEVEL_END0
  {
    BlocksReach(size);
    hide DataBlocks;
  }

  lemma NewSlot(t0: Tree, t: Tree, u: Tree, s: Slot) returns (v: Slot)
    requires s in t && s !in t0 && t0.Keys <= t.Keys && t.Values == u.Values && Injective(t)
    requires forall r :: r in t0 ==> r in u && u[r] == t[r]
    ensures v in u && v !in t0
  {
    assert t[s] in u.Values;
    v :| v in u && u[v] == t[s];
  }

  /** A slot that the larger size needs besides: then it needs the block behind the last one. */
  lemma NextBlock(size: nat, end: nat, v: Slot)
    requires size <= end <= LEVEL_END0 && v in ActiveSet(end) && v !in ActiveSet(size)
    ensures DataBlocks(size) < 12 && Data(DataBlocks(size)) in ActiveSet(end)
    ensures Data(DataBlocks(size)) !in ActiveSet(size)
  {
    BlocksReach(size);
    hide DataBlocks;
    assert Active(end, v) && !Active(size, v);
    assert v.Data? && DataBlocks(size) <= v.k;
    assert Active(end, Data(DataBlocks(size)));
  }

  /** A block of the new tree that the old tree does not have was free. */
  lemma NewWasFree(t0: Tree, t: Tree, u: Tree, bm0: seq<bool>, bm: seq<bool>, keep: set<nat>, v: Slot)
    requires Closed(t) && Injective(t) && Injective(u) && Marks(t0, bm0, keep) && Marks(t, bm, keep) &&
             t.Values == u.Values
    requires t0.Keys <= t.Keys && forall s :: s in t0 ==> t[s] == t0[s] && s in u && u[s] == t[s]
    requires v in u && v !in t0
    ensures u[v] < |bm0| && !bm0[u[v]]
  {
    assert u[v] in t.Values;
    var s :| s in t && t[s] == u[v];
    assert s !in t0;
    forall r | r in t0 ensures t0[r] != t[s] { }
  }
}
