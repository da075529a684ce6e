/** Writes through a buffered index block. While write_data fills an index block it keeps the block in a
    memory buffer and writes it back at the end, so the disk is behind. What is well-formed in between is
    the image the disk would be after the pending write-backs. */
module TableSteps {
  import opened Bytes
  import opened Counting
  import opened FileLayout
  import opened FileSteps

  /** The disk once buffer `table` is written back to block `tb`, and buffer `up` (if any) to block `ub`. */
  ghost function Pending(d: seq<byte>, tb: nat, table: seq<byte>, ub: nat, up: seq<byte>): (r: seq<byte>)
    requires |d| == RAMDISK_SIZE && tb < BLOCK_NUM && |table| == BLOCK_SIZE
    requires ub < BLOCK_NUM && (up == [] || |up| == BLOCK_SIZE)
    ensures |r| == RAMDISK_SIZE
  {
    Splice(Splice(d, BlockAddr(tb), table), BlockAddr(ub), up)
  }

  /** The buffers belong to two different blocks of the ramdisk. */
  ghost predicate Buffers(d: seq<byte>, tb: nat, table: seq<byte>, ub: nat, up: seq<byte>) {
    && |d| == RAMDISK_SIZE && tb < BLOCK_NUM && |table| == BLOCK_SIZE
    && ub < BLOCK_NUM && (up == [] || (|up| == BLOCK_SIZE && ub != tb))
  }

  lemma PendingBlocks(d: seq<byte>, tb: nat, table: seq<byte>, ub: nat, up: seq<byte>)
    requires Buffers(d, tb, table, ub, up)
    ensures var r := Pending(d, tb, table, ub, up);
            && Block(r, tb) == table
            && (up != [] ==> Block(r, ub) == up)
            && (forall b :: 0 <= b < BLOCK_NUM && b != tb && (up == [] || b != ub) ==> Block(r, b) == Block(d, b))
  {
    hide Block, Splice;
    var r1 := Splice(d, BlockAddr(tb), table);
    SpliceBlock(d, tb, 0, table);
    SpliceBlock(r1, ub, 0, up);
    SpliceWhole(Block(d, tb), table);
    if up != [] { SpliceWhole(Block(r1, ub), up); } else { SpliceNothing(r1, BlockAddr(ub)); }
  }

  lemma SpliceWhole(a: seq<byte>, b: seq<byte>)
    requires |a| == |b|
    ensures Splice(a, 0, b) == b
  {
  }

  lemma SpliceNothing(a: seq<byte>, p: nat)
    requires p <= |a|
    ensures Splice(a, p, []) == a
  {
  }

  lemma PendingPut(d: seq<byte>, tb: nat, table: seq<byte>, ub: nat, up: seq<byte>, p: nat, w: seq<byte>)
    requires Buffers(d, tb, table, ub, up) && p + |w| <= BLOCK_SIZE
    ensures Pending(d, tb, Splice(table, p, w), ub, up) == Splice(Pending(d, tb, table, ub, up), BlockAddr(tb) + p, w)
  {
    hide Splice;
    var r1 := Splice(d, BlockAddr(tb), table);
    SpliceNests(d, BlockAddr(tb), table, p, w);
    if up == [] {
      SpliceNothing(r1, BlockAddr(ub));
      SpliceNothing(Splice(r1, BlockAddr(tb) + p, w), BlockAddr(ub));
    } else {
      SpliceCommutes(r1, BlockAddr(tb) + p, w, BlockAddr(ub), up);
    }
  }

  lemma PendingData(d: seq<byte>, tb: nat, table: seq<byte>, ub: nat, up: seq<byte>, b: nat, o: nat, x: seq<byte>)
    requires Buffers(d, tb, table, ub, up) && b < BLOCK_NUM && b != tb && (up == [] || b != ub)
    requires o + |x| <= BLOCK_SIZE
    ensures Pending(Splice(d, BlockAddr(b) + o, x), tb, table, ub, up) ==
            Splice(Pending(d, tb, table, ub, up), BlockAddr(b) + o, x)
  {
    hide Splice;
    var d' := Splice(d, BlockAddr(b) + o, x);
    var r1 := Splice(d, BlockAddr(tb), table);
    SpliceCommutes(d, BlockAddr(b) + o, x, BlockAddr(tb), table);
    if up == [] {
      SpliceNothing(r1, BlockAddr(ub));
      SpliceNothing(Splice(r1, BlockAddr(b) + o, x), BlockAddr(ub));
    } else {
      SpliceCommutes(r1, BlockAddr(b) + o, x, BlockAddr(ub), up);
    }
  }

  /** A buffer equal to its block has nothing to write back. */
  lemma NothingPending(d: seq<byte>, tb: nat)
    requires |d| == RAMDISK_SIZE && tb < BLOCK_NUM
    ensures Splice(d, BlockAddr(tb), Block(d, tb)) == d
  {
    SpliceIdentity(d, BlockAddr(tb), BLOCK_SIZE);
  }

  /** Slot s is word j of the index block in slot p. */
  predicate IsChild(p: Slot, j: nat, s: Slot) {
    InTree(s) && HasParent(s) && Parent(s) == p && WordIndex(s) == j
  }

  /** First data block below an index block. */
  function Base(p: Slot): nat {
    match p
    case Table(i) => 76 + 64 * i
    case _ => 12
  }

  lemma DataChild(p: Slot, j: nat)
    requires p.Single? || p.Table?
    requires InTree(p) && j < 64
    ensures IsChild(p, j, Data(Base(p) + j))
  {
  }

  lemma TableChild(i: nat)
    requires i < 64
    ensures IsChild(Double, i, Table(i))
  {
  }

  lemma TableAllocate(d0: seq<byte>, d: seq<byte>, bm: seq<bool>, index: seq<nat>, t: Tree, keep: set<nat>,
                      size: nat, c: seq<byte>, goal: set<Slot>,
                      p: Slot, table: seq<byte>, ub: nat, up: seq<byte>, j: nat, s: Slot, b: nat)
    requires p in t && Buffers(d, t[p], table, ub, up)
    requires Writing(d0, Pending(d, t[p], table, ub, up), bm, index, t, keep, size, c, goal)
    requires IsChild(p, j, s) && s !in t && s in goal && (s.Data? ==> size <= s.k * BLOCK_SIZE)
    requires b < BLOCK_NUM && !bm[b] && j < 64
    ensures Writing(d0, Pending(d, t[p], Splice(table, 4 * j, WordBytes(BlockAddr(b))), ub, up), bm[b := true], index,
                    t[s := b], keep, size, c, goal)
  {
    hide Writing, Pending, Splice;
    var r := Pending(d, t[p], table, ub, up);
    AllocateStep(d0, r, bm, index, t, keep, size, c, goal, s, b);
    PendingPut(d, t[p], table, ub, up, 4 * j, WordBytes(BlockAddr(b)));
  }

  lemma TableLookup(d0: seq<byte>, d: seq<byte>, bm: seq<bool>, index: seq<nat>, t: Tree, keep: set<nat>,
                    size: nat, c: seq<byte>, goal: set<Slot>,
                    p: Slot, table: seq<byte>, ub: nat, up: seq<byte>, j: nat, s: Slot)
    requires p in t && Buffers(d, t[p], table, ub, up)
    requires Writing(d0, Pending(d, t[p], table, ub, up), bm, index, t, keep, size, c, goal)
    requires IsChild(p, j, s) && s in t
    ensures WordAt(table, 4 * j) == BlockAddr(t[s])
    ensures t[s] < BLOCK_NUM && t[s] != t[p] && BlockAddr(t[s]) + BLOCK_SIZE < RAMDISK_SIZE
  {
    hide Writing, Pending;
    Lookup(d0, Pending(d, t[p], table, ub, up), bm, index, t, keep, size, c, goal, s);
    PendingBlocks(d, t[p], table, ub, up);
  }

  lemma TableChunk(d0: seq<byte>, d: seq<byte>, bm: seq<bool>, index: seq<nat>, t: Tree, keep: set<nat>,
                   k: nat, o: nat, c: seq<byte>, goal: set<Slot>,
                   p: Slot, table: seq<byte>, ub: nat, up: seq<byte>, x: seq<byte>)
    requires p in t && Buffers(d, t[p], table, ub, up)
    requires Writing(d0, Pending(d, t[p], table, ub, up), bm, index, t, keep, k * BLOCK_SIZE + o, c, goal)
    requires Data(k) in t && 0 < |x| && o + |x| <= BLOCK_SIZE && t[Data(k)] < BLOCK_NUM
    requires t[Data(k)] != t[p] && (up == [] || t[Data(k)] != ub)
    ensures Writing(d0, Pending(Splice(d, BlockAddr(t[Data(k)]) + o, x), t[p], table, ub, up), bm, index, t, keep,
                    k * BLOCK_SIZE + o + |x|, c + x, goal)
  {
    hide Writing, Pending, Splice;
    ChunkStep(d0, Pending(d, t[p], table, ub, up), bm, index, t, keep, k, o, c, goal, x);
    PendingData(d, t[p], table, ub, up, t[Data(k)], o, x);
  }

  /** A fresh index block may hold anything: nothing is looked up through it yet. */
  lemma Scribble(d0: seq<byte>, d: seq<byte>, bm: seq<bool>, index: seq<nat>, t: Tree, keep: set<nat>,
                 size: nat, c: seq<byte>, goal: set<Slot>, p: Slot, x: seq<byte>)
    requires Writing(d0, d, bm, index, t, keep, size, c, goal)
    requires p in t && !p.Data? && |x| == BLOCK_SIZE && t[p] < BLOCK_NUM
    requires forall s :: s in t && HasParent(s) ==> Parent(s) != p
    ensures Writing(d0, Splice(d, BlockAddr(t[p]), x), bm, index, t, keep, size, c, goal)
  {
    hide Splice, Block, Content, FreeSet, Framed, Injective, Marks, Points;
    var d' := Splice(d, BlockAddr(t[p]), x);
    ScribbleBlocks(d0, d, bm, t, keep, p, x);
    ScribblePoints(d, d', index, t, p);
    ContentStable(d, d', t, t, size);
  }

  lemma ScribbleBlocks(d0: seq<byte>, d: seq<byte>, bm: seq<bool>, t: Tree, keep: set<nat>, p: Slot, x: seq<byte>)
    requires |d| == RAMDISK_SIZE && Closed(t) && Injective(t) && Marks(t, bm, keep) && Framed(d0, d, keep)
    requires p in t && |x| == BLOCK_SIZE && t[p] < BLOCK_NUM
    ensures var d' := Splice(d, BlockAddr(t[p]), x);
            && |d'| == RAMDISK_SIZE && Framed(d0, d', keep)
            && forall s :: s in t && s != p ==> Block(d', t[s]) == Block(d, t[s])
  {
    hide Splice, Block;
    SpliceBlock(d, t[p], 0, x);
  }

  lemma ScribblePoints(d: seq<byte>, d': seq<byte>, index: seq<nat>, t: Tree, p: Slot)
    requires |d| == |d'| == RAMDISK_SIZE && |index| == 15 && Closed(t) && Points(d, index, t)
    requires forall s :: s in t && s != p ==> Block(d', t[s]) == Block(d, t[s])
    requires forall s :: s in t && HasParent(s) ==> Parent(s) != p
    ensures Points(d', index, t)
  {
    hide WordAt, Block;
    forall s | s in t
      ensures Pointer(d', index, t, s) == BlockAddr(t[s])
    {
      assert Pointer(d, index, t, s) == BlockAddr(t[s]);
    }
  }

  /** ... growing below an index block brings only data slots into use, besides the index blocks above. */
  lemma GrowTable(p: Slot, k: nat, o: nat, n: nat)
    requires p.Single? || p.Table?
    requires InTree(p) && Base(p) <= k < Base(p) + 64
    requires 0 < n && o + n <= BLOCK_SIZE
    ensures ActiveSet(k * BLOCK_SIZE + o + n) + Above(p) == ActiveSet(k * BLOCK_SIZE + o) + Above(p) + {Data(k)}
  {
    var size := k * BLOCK_SIZE + o;
    forall s: Slot | s !in Above(p)
      ensures Active(size + n, s) <==> Active(size, s) || s == Data(k)
    {
      SlotStep(k, o, n, s);
      match s
      case Data(j) => BoundaryStep(k, o, n, j);
      case Table(i) => BoundaryStep(k, o, n, 76 + 64 * i);
      case _ =>
    }
  }

  /** The index blocks in use while the data blocks below p are filled. */
  function Above(p: Slot): set<Slot> {
    if p.Single? then {Single} else {Double, p}
  }

  lemma DataNotAbove(p: Slot, k: nat)
    requires p.Single? || p.Table?
    ensures Data(k) !in Above(p)
  {
  }

  /** Entry j of an index block and what lies behind it. */
  lemma InTable(p: Slot, j: nat, off: nat, len: nat)
    requires (p.Single? || p.Table?) && InTree(p) && 0 < len
    requires Base(p) * BLOCK_SIZE <= off < Base(p) * BLOCK_SIZE + INDEX_ONE_SIZE &&
             j == (off - Base(p) * BLOCK_SIZE) / BLOCK_SIZE
    ensures j < 64 && off == (Base(p) + j) * BLOCK_SIZE + off % BLOCK_SIZE && Data(Base(p) + j) in ActiveSet(off + len)
  {
    DataSlot(Base(p) + j, off % BLOCK_SIZE, off + len);
  }

  /** A data block is never the double index block. */
  lemma NotDouble(d0: seq<byte>, d: seq<byte>, bm: seq<bool>, index: seq<nat>, t: Tree, keep: set<nat>,
                  size: nat, c: seq<byte>, goal: set<Slot>, k: nat)
    requires Writing(d0, d, bm, index, t, keep, size, c, goal) && Data(k) in t && Double in t
    ensures t[Data(k)] != t[Double]
  {
  }

  /** With a single buffer, writing it back is all that is pending. */
  lemma PendingOne(d: seq<byte>, tb: nat, table: seq<byte>)
    requires |d| == RAMDISK_SIZE && tb < BLOCK_NUM && |table| == BLOCK_SIZE
    ensures Pending(d, tb, table, tb, []) == Splice(d, BlockAddr(tb), table)
    ensures table == Block(d, tb) ==> Pending(d, tb, table, tb, []) == d
    ensures Buffers(d, tb, table, tb, [])
  {
    hide Splice, Block;
    SpliceNothing(Splice(d, BlockAddr(tb), table), BlockAddr(tb));
    NothingPending(d, tb);
  }

  /** Adding the inner buffer of the double level to the outer one. */
  lemma PendingTwo(d: seq<byte>, tb: nat, table: seq<byte>, ub: nat, up: seq<byte>)
    requires |d| == RAMDISK_SIZE && tb < BLOCK_NUM && |table| == BLOCK_SIZE
    requires ub < BLOCK_NUM && |up| == BLOCK_SIZE && ub != tb
    ensures Pending(d, tb, table, ub, up) == Splice(Pending(d, ub, up, ub, []), BlockAddr(tb), table)
    ensures Pending(d, tb, table, ub, up) == Pending(Splice(d, BlockAddr(tb), table), ub, up, ub, [])
    ensures table == Block(d, tb) ==> Pending(d, tb, table, ub, up) == Pending(d, ub, up, ub, [])
    ensures Buffers(d, tb, table, ub, up)
  {
    hide Splice, Block;
    PendingOne(d, ub, up);
    PendingOne(Splice(d, BlockAddr(tb), table), ub, up);
    SpliceCommutes(d, BlockAddr(tb), table, BlockAddr(ub), up);
    NothingPending(d, tb);
  }

  lemma IndexSlots(size: nat, end: nat)
    requires size < end
    ensures size >= LEVEL_END0 ==> Single in ActiveSet(end)
    ensures Single in ActiveSet(size) <==> size > LEVEL_END0
    ensures size >= LEVEL_END1 ==> Double in ActiveSet(end)
    ensures Double in ActiveSet(size) <==> size > LEVEL_END1
  {
  }

  lemma TableSlot(i: nat, size: nat, end: nat)
    requires i < 64 && LEVEL_END1 + i * INDEX_ONE_SIZE <= size < end
    ensures Table(i) in ActiveSet(end)
    ensures Table(i) in ActiveSet(size) <==> size > LEVEL_END1 + i * INDEX_ONE_SIZE
  {
  }

  /** When an index block comes into use, nothing hangs below it yet. */
  lemma NoChildYet(p: Slot, size: nat, s: Slot)
    requires !p.Data? && InTree(p) && Fresh(size, p)
    requires s in ActiveSet(size) + {Single, Double} && HasParent(s)
    ensures Parent(s) != p
  {
  }

  lemma FreshRoot(p: Slot, size: nat)
    requires (p.Single? && size == LEVEL_END0) || (p.Double? && size == LEVEL_END1)
    ensures InTree(p) && Fresh(size, p)
  {
  }

  predicate IsIndexRoot(p: Slot, w: nat) { (p.Single? && w == 12) || (p.Double? && w == 13) }

  lemma IndexRoot(p: Slot, w: nat)
    requires IsIndexRoot(p, w)
    ensures IsRoot(p, w)
  {
  }

  /** A level's index block, just allocated: whatever the buffer for it holds, no pointer of the file is read there. */
  lemma NewRoot(d0: seq<byte>, d: seq<byte>, bm: seq<bool>, index: seq<nat>, t: Tree, keep: set<nat>, size: nat,
                c: seq<byte>, goal: set<Slot>, p: Slot, w: nat, table: seq<byte>)
    requires Writing(d0, d, bm, index, t, keep, size, c, goal) && p in t && t.Keys == ActiveSet(size) + {p}
    requires IsIndexRoot(p, w) && size == (if p.Single? then LEVEL_END0 else LEVEL_END1) && |table| == BLOCK_SIZE
    ensures w < |index| && t[p] < BLOCK_NUM && index[w] == BlockAddr(t[p]) &&
            BlockAddr(t[p]) + BLOCK_SIZE < RAMDISK_SIZE
    ensures Buffers(d, t[p], table, t[p], [])
    ensures Writing(d0, Pending(d, t[p], table, t[p], []), bm, index, t, keep, size, c, goal)
  {
    hide Writing, Pending, ActiveSet, Splice, IsRoot, InTree, HasParent, Parent, Fresh;
    IndexRoot(p, w);
    LookupRoot(d0, d, bm, index, t, keep, size, c, goal, p, w);
    PendingOne(d, t[p], table);
    FreshRoot(p, size);
    forall s | s in t && HasParent(s) ensures Parent(s) != p { NoChildYet(p, size, s); }
    Scribble(d0, d, bm, index, t, keep, size, c, goal, p, table);
  }

  lemma RootRoom(d0: seq<byte>, d: seq<byte>, bm: seq<bool>, index: seq<nat>, t: Tree, keep: set<nat>, size: nat,
                 c: seq<byte>, goal: set<Slot>, p: Slot, w: nat)
    requires Writing(d0, d, bm, index, t, keep, size, c, goal) && t.Keys == ActiveSet(size) && p in goal
    requires IsIndexRoot(p, w) && size == if p.Single? then LEVEL_END0 else LEVEL_END1
    ensures p !in t && exists b :: 0 <= b < |bm| && !bm[b]
  {
    hide Writing, ActiveSet;
    IndexSlots(size, size + 1);
    Budget(d0, d, bm, index, t, keep, size, c, goal, p);
  }

  lemma RootMade(d0: seq<byte>, d: seq<byte>, bm: seq<bool>, index: seq<nat>, t: Tree, keep: set<nat>, size: nat,
                 c: seq<byte>, goal: set<Slot>, p: Slot, w: nat, b: nat, table: seq<byte>)
    requires Writing(d0, d, bm, index, t, keep, size, c, goal) && t.Keys == ActiveSet(size) && p in goal && p !in t
    requires IsIndexRoot(p, w) && size == if p.Single? then LEVEL_END0 else LEVEL_END1
    requires |index| == 15 && |bm| == BLOCK_NUM && b < BLOCK_NUM && !bm[b] && |table| == BLOCK_SIZE
    ensures BlockAddr(b) + BLOCK_SIZE < RAMDISK_SIZE && Buffers(d, b, table, b, [])
    ensures Writing(d0, Pending(d, b, table, b, []), bm[b := true], index[w := BlockAddr(b)], t[p := b], keep, size, c,
                    goal)
  {
    hide Writing, Pending, ActiveSet, IsRoot;
    IndexRoot(p, w);
    AllocateRoot(d0, d, bm, index, t, keep, size, c, goal, p, w, b);
    NewRoot(d0, d, bm[b := true], index[w := BlockAddr(b)], t[p := b], keep, size, c, goal, p, w, table);
  }

  lemma AboveTable(i: nat)
    ensures Above(Table(i)) == {Double, Table(i)}
  {
  }

  lemma FreshTable(i: nat, size: nat)
    requires size == LEVEL_END1 + i * INDEX_ONE_SIZE && i < 64
    ensures InTree(Table(i)) && Fresh(size, Table(i))
  {
  }

  lemma BlockIs(d: seq<byte>, b: nat)
    requires |d| == RAMDISK_SIZE && b < BLOCK_NUM
    ensures Block(d, b) == d[BlockAddr(b)..BlockAddr(b) + BLOCK_SIZE]
  {
  }
}
