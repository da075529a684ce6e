/** The two steps every file write is made of, allocate-a-slot and write-a-chunk, on disk images;
    block accounting; and the pigeonhole bound on file size. */
module FileSteps {
  import opened Bytes
  import opened Counting
  import opened FileLayout

  /** Distinct slots hold distinct blocks, so a tree occupies as many blocks as it has slots. */
  lemma TreeCard(t: Tree)
    requires Injective(t)
    ensures |t.Values| == |t|
  {
    ValuesCard(t);
  }

  /** A tree's blocks and the free blocks together fit in the bitmap. */
  lemma TreeFits(t: Tree, bm: seq<bool>, keep: set<nat>)
    requires Closed(t) && Injective(t) && Marks(t, bm, keep)
    ensures |t| + |FreeSet(bm)| <= BLOCK_NUM
  {
    TreeCard(t);
    BoundedCard(t.Values + FreeSet(bm), BLOCK_NUM);
    assert t.Values !! FreeSet(bm);
  }

  lemma {:induction false} DataCard(n: nat)
    ensures |set k: nat | k < n :: Data(k)| == n
  {
    if n > 0 {
      DataCard(n - 1);
      assert (set k: nat | k < n :: Data(k)) == (set k: nat | k < n - 1 :: Data(k)) + {Data(n - 1)};
    }
  }

  /** A file that reached the triple level would need more data blocks than the bitmap has bits. */
  lemma TripleLevelDemand(size: nat)
    requires size >= LEVEL_END2
    ensures |ActiveSet(size)| > BLOCK_NUM
  {
    DataCard(TREE_BLOCKS);
    var data := set k: nat | k < TREE_BLOCKS :: Data(k);
    assert data <= ActiveSet(size);
    SubsetCard(data, ActiveSet(size));
  }

  lemma ActiveMonotone(s: nat, s': nat)
    requires s <= s'
    ensures ActiveSet(s) <= ActiveSet(s')
  {
  }

  /** No well-formed file reaches the triple level, whatever its inode says. */
  lemma NoTripleLevel(d: seq<byte>, bm: seq<bool>, index: seq<nat>, t: Tree, keep: set<nat>, size: nat)
    requires Layout(d, bm, index, t, keep) && t.Keys == ActiveSet(size)
    ensures size < LEVEL_END2
  {
    TreeFits(t, bm, keep);
    if size >= LEVEL_END2 { TripleLevelDemand(size); }
  }

  /** Slots that come into use when a file of `size` bytes grows inside its next block. */
  predicate Fresh(size: nat, s: Slot) {
    match s
    case Data(k) => k * BLOCK_SIZE <= size < k * BLOCK_SIZE + BLOCK_SIZE
    case Single => size == LEVEL_END0
    case Double => size == LEVEL_END1
    case Table(i) => size == LEVEL_END1 + i * INDEX_ONE_SIZE
  }

  lemma SlotStep(k: nat, o: nat, n: nat, s: Slot)
    requires 0 < n && o + n <= BLOCK_SIZE
    ensures var size := k * BLOCK_SIZE + o;
            Active(size + n, s) <==> Active(size, s) || Fresh(size, s)
  {
    match s
    case Data(j) => BoundaryStep(k, o, n, j);
    case Single => BoundaryStep(k, o, n, 12);
    case Double => BoundaryStep(k, o, n, 76);
    case Table(i) => BoundaryStep(k, o, n, 76 + 64 * i);
  }

  /** Growing inside block k passes the start of block m only when standing on it. */
  lemma BoundaryStep(k: nat, o: nat, n: nat, m: nat)
    requires 0 < n && o + n <= BLOCK_SIZE
    ensures m * BLOCK_SIZE < k * BLOCK_SIZE + o + n <==>
            m * BLOCK_SIZE < k * BLOCK_SIZE + o || m * BLOCK_SIZE == k * BLOCK_SIZE + o
    ensures m * BLOCK_SIZE <= k * BLOCK_SIZE + o < m * BLOCK_SIZE + BLOCK_SIZE <==> m == k
  {
    if m < k {
      assert m + 1 <= k;
    } else if k < m {
      assert k + 1 <= m;
    }
  }

  /** A write in progress: the content of the first `size` bytes is `c`, the tree stays within the slots
      `goal`, and the free blocks cover the slots of `goal` not allocated yet. */
  ghost predicate Writing(d0: seq<byte>, d: seq<byte>, bm: seq<bool>, index: seq<nat>, t: Tree, keep: set<nat>,
                          size: nat, c: seq<byte>, goal: set<Slot>)
  {
    && Layout(d, bm, index, t, keep) && Framed(d0, d, keep)
    && Content(d, t, size) == c
    && t.Keys <= goal && |FreeSet(bm)| + |t| >= |goal|
  }

  lemma ContentStable(d: seq<byte>, d': seq<byte>, t: Tree, t': Tree, size: nat)
    requires |d| == |d'| == RAMDISK_SIZE && Closed(t) && Closed(t')
    requires forall k: nat :: k * BLOCK_SIZE < size ==> (Data(k) in t <==> Data(k) in t')
    requires forall k: nat :: k * BLOCK_SIZE < size && Data(k) in t ==>
               t'[Data(k)] == t[Data(k)] && Block(d', t[Data(k)]) == Block(d, t[Data(k)])
    ensures Content(d', t', size) == Content(d, t, size)
  {
    forall p | 0 <= p < size
      ensures FileByte(d', t', p) == FileByte(d, t, p)
    {
      assert p / BLOCK_SIZE * BLOCK_SIZE < size;
    }
  }

  lemma AllocateContent(d: seq<byte>, index: seq<nat>, t: Tree, size: nat, s: Slot, b: nat)
    requires |d| == RAMDISK_SIZE && Closed(t) && Injective(t)
    requires InTree(s) && s !in t && (HasParent(s) ==> Parent(s) in t)
    requires b < BLOCK_NUM && (s.Data? ==> size <= s.k * BLOCK_SIZE)
    ensures Content(SetDisk(d, t, s, BlockAddr(b)), t[s := b], size) == Content(d, t, size)
  {
    var d' := SetDisk(d, t, s, BlockAddr(b));
    if HasParent(s) { SpliceBlock(d, t[Parent(s)], 4 * WordIndex(s), WordBytes(BlockAddr(b))); }
    ContentStable(d, d', t, t[s := b], size);
  }

  /** Allocation step of a write in progress. */
  lemma AllocateStep(d0: seq<byte>, d: seq<byte>, bm: seq<bool>, index: seq<nat>, t: Tree, keep: set<nat>,
                     size: nat, c: seq<byte>, goal: set<Slot>, s: Slot, b: nat)
    requires Writing(d0, d, bm, index, t, keep, size, c, goal)
    requires InTree(s) && s !in t && s in goal && (HasParent(s) ==> Parent(s) in t)
    requires s.Data? ==> size <= s.k * BLOCK_SIZE
    requires b < BLOCK_NUM && !bm[b]
    ensures Writing(d0, SetDisk(d, t, s, BlockAddr(b)), bm[b := true], SetIndex(index, s, BlockAddr(b)), t[s := b],
                    keep, size, c, goal)
  {
    hide Points, Injective, Splice, Block, WordAt, Content, SetDisk, SetIndex;
    Allocate(d, bm, index, t, keep, s, b);
    SetDiskFramed(d, t, keep, s, BlockAddr(b));
    TakeFree(bm, b);
    assert t[s := b].Keys == t.Keys + {s};
    AllocateContent(d, index, t, size, s, b);
  }

  /** Data step of a write in progress. */
  lemma ChunkStep(d0: seq<byte>, d: seq<byte>, bm: seq<bool>, index: seq<nat>, t: Tree, keep: set<nat>,
                  k: nat, o: nat, c: seq<byte>, goal: set<Slot>, x: seq<byte>)
    requires Writing(d0, d, bm, index, t, keep, k * BLOCK_SIZE + o, c, goal)
    requires Data(k) in t && 0 < |x| && o + |x| <= BLOCK_SIZE
    ensures Writing(d0, Splice(d, BlockAddr(t[Data(k)]) + o, x), bm, index, t, keep,
                    k * BLOCK_SIZE + o + |x|, c + x, goal)
  {
    WriteChunk(d, bm, index, t, keep, k, o, x);
    ContentAfterChunk(d, t, k, o, x);
  }

  /** What a write in progress knows about an allocated slot: its block is on the ramdisk,
      and its pointer is where the code looks it up. */
  lemma Lookup(d0: seq<byte>, d: seq<byte>, bm: seq<bool>, index: seq<nat>, t: Tree, keep: set<nat>,
               size: nat, c: seq<byte>, goal: set<Slot>, s: Slot)
    requires Writing(d0, d, bm, index, t, keep, size, c, goal) && s in t
    ensures |index| == 15 && |d| == RAMDISK_SIZE && t[s] < BLOCK_NUM
    ensures BlockAddr(t[s]) + BLOCK_SIZE < RAMDISK_SIZE
    ensures InTree(s) && (!HasParent(s) ==> index[RootIndex(s)] == BlockAddr(t[s]))
    ensures HasParent(s) ==> Parent(s) in t && t[Parent(s)] < BLOCK_NUM && t[Parent(s)] != t[s]
    ensures HasParent(s) ==> WordAt(Block(d, t[Parent(s)]), 4 * WordIndex(s)) == BlockAddr(t[s])
  {
    assert Pointer(d, index, t, s) == BlockAddr(t[s]);
  }

  lemma Budget(d0: seq<byte>, d: seq<byte>, bm: seq<bool>, index: seq<nat>, t: Tree, keep: set<nat>,
               size: nat, c: seq<byte>, goal: set<Slot>, s: Slot)
    requires Writing(d0, d, bm, index, t, keep, size, c, goal)
    requires s in goal && s !in t
    ensures exists b :: 0 <= b < |bm| && !bm[b]
  {
    MissingMeansFree(t.Keys, bm, goal, s);
  }

  /** Slot bookkeeping when a file of k blocks and o bytes starts or continues block k. */
  lemma DataSlot(k: nat, o: nat, end: nat)
    requires o < BLOCK_SIZE && k * BLOCK_SIZE + o < end && k < TREE_BLOCKS
    ensures Data(k) in ActiveSet(end)
    ensures Data(k) in ActiveSet(k * BLOCK_SIZE + o) <==> o > 0
  {
  }

  /** The direct blocks that begin in [lo, hi). */
  ghost function Direct(lo: nat, hi: nat): set<Slot> {
    set k: nat | k < 12 && lo <= k * BLOCK_SIZE < hi :: Data(k)
  }

  /** No data block of the tree begins at `off` or later, and a block that `off` lies inside is there. */
  ghost predicate Reaches(t: Tree, off: nat) {
    && (forall k: nat :: Data(k) in t ==> k * BLOCK_SIZE < off)
    && (off % BLOCK_SIZE > 0 && off < LEVEL_END0 ==> Data(off / BLOCK_SIZE) in t)
  }

  /** Growing inside the direct blocks brings only data slots into use ... */
  lemma GrowDirect(off: nat, end: nat)
    requires off <= end
    ensures ActiveSet(off) + Direct(off, end) <= ActiveSet(end)
    ensures end <= LEVEL_END0 || off == end ==> ActiveSet(off) + Direct(off, end) == ActiveSet(end)
  {
  }

  lemma NoDirect(off: nat)
    ensures Direct(off, off) == {}
  {
  }

  lemma DirectWithin(lo: nat, mid: nat, hi: nat)
    requires mid <= hi
    ensures Direct(lo, mid) <= Direct(lo, hi)
  {
  }

  lemma WholeReaches(t: Tree, off: nat)
    requires t.Keys == ActiveSet(off)
    ensures Reaches(t, off)
  {
    if off % BLOCK_SIZE > 0 && off < LEVEL_END0 { DataSlot(off / BLOCK_SIZE, off % BLOCK_SIZE, off + 1); }
  }

  /** The direct block that `off` lies in, and whether it has to be made. */
  lemma DirectHere(t0: Tree, t: Tree, lo: nat, off: nat, n: nat)
    requires Reaches(t0, lo) && t.Keys == t0.Keys + Direct(lo, off) && lo <= off < LEVEL_END0
    requires (off == lo || off % BLOCK_SIZE == 0) && 0 < n && off % BLOCK_SIZE + n <= BLOCK_SIZE
    ensures var k := off / BLOCK_SIZE;
            && k < 12 && (Data(k) in t <==> off % BLOCK_SIZE > 0)
            && t.Keys + {Data(k)} == t0.Keys + Direct(lo, off + n)
            && Data(k) in t0.Keys + Direct(lo, off + n)
  {
    var k := off / BLOCK_SIZE;
    if off % BLOCK_SIZE == 0 {
      assert forall j :: 0 <= j < 12 && off <= j * BLOCK_SIZE < off + n ==> j == k;
      assert Direct(lo, off + n) == Direct(lo, off) + {Data(k)};
    } else {
      assert Direct(lo, off + n) == {} == Direct(lo, off);
    }
  }

  /** Slot s is the inode's index entry w. */
  predicate IsRoot(s: Slot, w: nat) { InTree(s) && !HasParent(s) && RootIndex(s) == w }

  lemma DirectRoot(k: nat)
    requires k < 12
    ensures IsRoot(Data(k), k)
  {
  }

  lemma AllocateRoot(d0: seq<byte>, d: seq<byte>, bm: seq<bool>, index: seq<nat>, t: Tree, keep: set<nat>,
                     size: nat, c: seq<byte>, goal: set<Slot>, s: Slot, w: nat, b: nat)
    requires Writing(d0, d, bm, index, t, keep, size, c, goal)
    requires IsRoot(s, w) && s !in t && s in goal && (s.Data? ==> size <= s.k * BLOCK_SIZE)
    requires b < BLOCK_NUM && !bm[b] && w < |index|
    ensures Writing(d0, d, bm[b := true], index[w := BlockAddr(b)], t[s := b], keep, size, c, goal)
  {
    AllocateStep(d0, d, bm, index, t, keep, size, c, goal, s, b);
  }

  lemma LookupRoot(d0: seq<byte>, d: seq<byte>, bm: seq<bool>, index: seq<nat>, t: Tree, keep: set<nat>,
                   size: nat, c: seq<byte>, goal: set<Slot>, s: Slot, w: nat)
    requires Writing(d0, d, bm, index, t, keep, size, c, goal) && s in t && IsRoot(s, w)
    ensures w < |index| && |d| == RAMDISK_SIZE && t[s] < BLOCK_NUM
    ensures index[w] == BlockAddr(t[s]) && BlockAddr(t[s]) + BLOCK_SIZE < RAMDISK_SIZE
  {
    Lookup(d0, d, bm, index, t, keep, size, c, goal, s);
  }

  /** The disk address in a slot, found by chasing pointers from the inode. */
  function Addr(d: seq<byte>, index: seq<nat>, s: Slot): nat
    requires |index| == 15
  {
    match s
    case Single => index[12]
    case Double => index[13]
    case Table(i) => WordAt(d, index[13] + 4 * i)
    case Data(k) =>
      if k < 12 then index[k]
      else if k < 76 then WordAt(d, index[12] + 4 * (k - 12))
      else WordAt(d, WordAt(d, index[13] + 4 * ((k - 76) / 64)) + 4 * ((k - 76) % 64))
  }

  /** The tree of a file of `size` bytes, as the disk and the inode spell it out. */
  ghost function DiskTree(d: seq<byte>, index: seq<nat>, size: nat): Tree
    requires |index| == 15
  {
    map s | s in ActiveSet(size) :: BlockIndex(Addr(d, index, s))
  }

  /** The bitmap index of an address, as set_block_idle computes it. */
  function BlockIndex(a: nat): nat {
    if a >= BLOCK_BASE then (a - BLOCK_BASE) / BLOCK_SIZE else BLOCK_NUM
  }

  /** A file as everybody else may rely on: its blocks are valid, distinct and marked, nobody else's (`keep`),
      and no other block is marked. */
  ghost predicate WellFormed(d: seq<byte>, bm: seq<bool>, index: seq<nat>, size: nat, keep: set<nat>) {
    |index| == 15 && Layout(d, bm, index, DiskTree(d, index, size), keep)
  }

  /** The bytes of the file, each found by chasing pointers. */
  ghost function FileBytes(d: seq<byte>, index: seq<nat>, size: nat): (c: seq<byte>)
    requires |index| == 15
    ensures |c| == size
  {
    seq(size, p requires 0 <= p < size =>
      var a := Addr(d, index, Data(p / BLOCK_SIZE)) + p % BLOCK_SIZE; if a < |d| then d[a] else 0)
  }

  lemma BlockWord(d: seq<byte>, b: nat, w: nat)
    requires |d| == RAMDISK_SIZE && b < BLOCK_NUM && w < 64
    ensures WordAt(Block(d, b), 4 * w) == WordAt(d, BlockAddr(b) + 4 * w)
  {
    var r := Block(d, b);
    assert r[4 * w] == d[BlockAddr(b) + 4 * w] && r[4 * w + 1] == d[BlockAddr(b) + 4 * w + 1];
    assert r[4 * w + 2] == d[BlockAddr(b) + 4 * w + 2] && r[4 * w + 3] == d[BlockAddr(b) + 4 * w + 3];
  }

  /** Chasing pointers finds the block the tree says. */
  lemma AddrInTree(d: seq<byte>, index: seq<nat>, t: Tree, s: Slot)
    requires |d| == RAMDISK_SIZE && |index| == 15 && Closed(t) && Points(d, index, t) && s in t
    ensures Addr(d, index, s) == BlockAddr(t[s])
    decreases s.Data?
  {
    hide WordAt, Block;
    assert Pointer(d, index, t, s) == BlockAddr(t[s]);
    if HasParent(s) {
      var p := Parent(s);
      assert p in t;
      BlockWord(d, t[p], WordIndex(s));
      if p.Table? { AddrInTree(d, index, t, p); }
      assert Pointer(d, index, t, p) == BlockAddr(t[p]);
    }
  }

  lemma TreeOnDisk(d: seq<byte>, bm: seq<bool>, index: seq<nat>, t: Tree, keep: set<nat>, size: nat)
    requires Layout(d, bm, index, t, keep) && t.Keys == ActiveSet(size) && size <= LEVEL_END2
    ensures DiskTree(d, index, size) == t
    ensures FileBytes(d, index, size) == Content(d, t, size)
  {
    hide WordAt, Block, ActiveSet, Points, Marks, Injective, Addr;
    forall s | s in t
      ensures Addr(d, index, s) == BlockAddr(t[s])
    {
      AddrInTree(d, index, t, s);
    }
    forall p | 0 <= p < size
      ensures FileBytes(d, index, size)[p] == Content(d, t, size)[p]
    {
      var k, o := p / BLOCK_SIZE, p % BLOCK_SIZE;
      DataSlot(k, 0, size);
      ByteOfBlock(d, t[Data(k)], o);
    }
  }

  lemma ByteOfBlock(d: seq<byte>, b: nat, o: nat)
    requires |d| == RAMDISK_SIZE && b < BLOCK_NUM && o < BLOCK_SIZE
    ensures Block(d, b)[o] == d[BlockAddr(b) + o]
  {
  }

  lemma StartWriting(d: seq<byte>, bm: seq<bool>, index: seq<nat>, size: nat, keep: set<nat>, end: nat)
    requires WellFormed(d, bm, index, size, keep) && size <= end
    requires |FreeSet(bm)| + |ActiveSet(size)| >= |ActiveSet(end)|
    ensures end < LEVEL_END2
    ensures DiskTree(d, index, size).Keys == ActiveSet(size)
    ensures Writing(d, d, bm, index, DiskTree(d, index, size), keep, size, FileBytes(d, index, size), ActiveSet(end))
  {
    var t := DiskTree(d, index, size);
    hide Points, Injective, ActiveSet, FileBytes, DiskTree;
    TreeKeys(d, index, size);
    TreeFits(t, bm, keep);
    if end >= LEVEL_END2 { TripleLevelDemand(end); }
    TreeOnDisk(d, bm, index, t, keep, size);
    ActiveMonotone(size, end);
  }

  lemma TreeKeys(d: seq<byte>, index: seq<nat>, size: nat)
    requires |index| == 15
    ensures DiskTree(d, index, size).Keys == ActiveSet(size)
    ensures |DiskTree(d, index, size)| == |ActiveSet(size)|
  {
    assert DiskTree(d, index, size).Keys == ActiveSet(size);
  }

  lemma EndWriting(d0: seq<byte>, d: seq<byte>, bm: seq<bool>, index: seq<nat>, t: Tree, keep: set<nat>,
                   size: nat, c: seq<byte>, goal: set<Slot>)
    requires Writing(d0, d, bm, index, t, keep, size, c, goal) && t.Keys == ActiveSet(size) && size < LEVEL_END2
    ensures WellFormed(d, bm, index, size, keep) && FileBytes(d, index, size) == c && Framed(d0, d, keep)
  {
    hide Points, Injective, ActiveSet, FileBytes, DiskTree;
    TreeOnDisk(d, bm, index, t, keep, size);
  }

  /** What reading relies on: the tree is on disk and covers the file. */
  ghost predicate Readable(d: seq<byte>, index: seq<nat>, t: Tree, size: nat, c: seq<byte>) {
    && |d| == RAMDISK_SIZE && |index| == 15 && Closed(t) && Points(d, index, t)
    && t.Keys == ActiveSet(size) && size < LEVEL_END2 && c == Content(d, t, size)
  }

  lemma StartReading(d: seq<byte>, bm: seq<bool>, index: seq<nat>, size: nat, keep: set<nat>)
    requires WellFormed(d, bm, index, size, keep)
    ensures size < LEVEL_END2
    ensures Readable(d, index, DiskTree(d, index, size), size, FileBytes(d, index, size))
  {
    var t := DiskTree(d, index, size);
    hide Points, Injective, ActiveSet, FileBytes, DiskTree;
    TreeKeys(d, index, size);
    NoTripleLevel(d, bm, index, t, keep, size);
    TreeOnDisk(d, bm, index, t, keep, size);
  }

  /** Data block k of a readable file holds bytes [k * BLOCK_SIZE, (k + 1) * BLOCK_SIZE) of its content. */
  lemma ReadChunk(d: seq<byte>, index: seq<nat>, t: Tree, size: nat, c: seq<byte>, k: nat, o: nat, n: nat)
    requires Readable(d, index, t, size, c)
    requires 0 < n && o + n <= BLOCK_SIZE && k * BLOCK_SIZE + o + n <= size && k < TREE_BLOCKS
    ensures Data(k) in t && t[Data(k)] < BLOCK_NUM && BlockAddr(t[Data(k)]) + BLOCK_SIZE < RAMDISK_SIZE
    ensures var a := BlockAddr(t[Data(k)]) + o;
            d[a..a + n] == c[k * BLOCK_SIZE + o..k * BLOCK_SIZE + o + n]
  {
    hide Points, ActiveSet, Block, FileByte, Content;
    DataSlot(k, 0, size);
    var b, start := t[Data(k)], k * BLOCK_SIZE + o;
    var x, y := d[BlockAddr(b) + o..BlockAddr(b) + o + n], c[start..start + n];
    forall i | 0 <= i < n
      ensures x[i] == y[i]
    {
      ByteAt(d, t, size, start + i);
      ReadByte(d, t, k, o + i);
      assert y[i] == c[start + i] && x[i] == d[BlockAddr(b) + (o + i)];
    }
  }

  lemma ByteAt(d: seq<byte>, t: Tree, size: nat, p: nat)
    requires |d| == RAMDISK_SIZE && p < size
    ensures Content(d, t, size)[p] == FileByte(d, t, p)
  {
    hide FileByte;
  }

  lemma ReadByte(d: seq<byte>, t: Tree, k: nat, o: nat)
    requires |d| == RAMDISK_SIZE && Data(k) in t && t[Data(k)] < BLOCK_NUM && o < BLOCK_SIZE
    ensures FileByte(d, t, k * BLOCK_SIZE + o) == d[BlockAddr(t[Data(k)]) + o]
  {
    var p := k * BLOCK_SIZE + o;
    assert p / BLOCK_SIZE == k && p % BLOCK_SIZE == o;
    ByteOfBlock(d, t[Data(k)], o);
  }

  /** The pointers the reader follows. */
  lemma ReadPointer(d: seq<byte>, index: seq<nat>, t: Tree, size: nat, c: seq<byte>, s: Slot)
    requires Readable(d, index, t, size, c) && InTree(s) && Active(size, s)
    ensures |index| == 15 && s in t && t[s] < BLOCK_NUM && BlockAddr(t[s]) + BLOCK_SIZE < RAMDISK_SIZE
    ensures !HasParent(s) ==> index[RootIndex(s)] == BlockAddr(t[s])
    ensures HasParent(s) ==> Parent(s) in t && t[Parent(s)] < BLOCK_NUM
    ensures HasParent(s) ==> WordAt(Block(d, t[Parent(s)]), 4 * WordIndex(s)) == BlockAddr(t[s])
  {
    assert Pointer(d, index, t, s) == BlockAddr(t[s]);
  }

  /** Bytes [off, off + n) of c. */
  ghost function Slice(c: seq<byte>, off: nat, n: nat): (r: seq<byte>)
    requires n == 0 || off + n <= |c|
    ensures |r| == n
  {
    if n == 0 then [] else c[off..off + n]
  }

  lemma SliceSplit(c: seq<byte>, off: nat, n: nat, m: nat)
    requires (n == 0 || off + n <= |c|) && (m == 0 || off + n + m <= |c|)
    ensures Slice(c, off, n + m) == Slice(c, off, n) + Slice(c, off + n, m)
  {
  }

  lemma SliceAppend(s: seq<byte>, at: nat, c: seq<byte>, off: nat, n: nat, m: nat)
    requires (n == 0 || off + n <= |c|) && (m == 0 || off + n + m <= |c|) && at + n + m <= |s|
    ensures Splice(Splice(s, at, Slice(c, off, n)), at + n, Slice(c, off + n, m)) == Splice(s, at, Slice(c, off, n + m))
  {
    SliceSplit(c, off, n, m);
    hide Splice, Slice;
    SpliceConcat(s, at, Slice(c, off, n), Slice(c, off + n, m));
  }

  lemma SliceIs(c: seq<byte>, off: nat, n: nat)
    requires 0 < n && off + n <= |c|
    ensures Slice(c, off, n) == c[off..off + n]
  {
  }

  lemma SliceNone(s: seq<byte>, at: nat, c: seq<byte>, off: nat)
    requires at <= |s|
    ensures Splice(s, at, Slice(c, off, 0)) == s
  {
  }

  /** How many blocks a file of `size` bytes occupies, index blocks included. */
  lemma Demand(size: nat)
    requires size <= LEVEL_END2
    ensures |ActiveSet(size)| ==
            (size + BLOCK_SIZE - 1) / BLOCK_SIZE
            + (if size > LEVEL_END0 then 1 else 0)
            + (if size > LEVEL_END1 then 1 + (size - LEVEL_END1 + INDEX_ONE_SIZE - 1) / INDEX_ONE_SIZE else 0)
  {
    DemandSets(size, (size + BLOCK_SIZE - 1) / BLOCK_SIZE,
               if size > LEVEL_END1 then (size - LEVEL_END1 + INDEX_ONE_SIZE - 1) / INDEX_ONE_SIZE else 0);
  }

  lemma DemandSets(size: nat, n: nat, m: nat)
    requires size <= LEVEL_END2 && n == (size + BLOCK_SIZE - 1) / BLOCK_SIZE
    requires m == if size > LEVEL_END1 then (size - LEVEL_END1 + INDEX_ONE_SIZE - 1) / INDEX_ONE_SIZE else 0
    ensures |ActiveSet(size)| == n + (if size > LEVEL_END0 then 1 else 0) + (if size > LEVEL_END1 then 1 + m else 0)
  {
    forall s ensures s in ActiveSet(size) <==> Wanted(n, m, size > LEVEL_END0, size > LEVEL_END1, s) {
      DemandSlot(size, n, m, s);
    }
    hide ActiveSet, Active;
    WantedCard(ActiveSet(size), n, m, size > LEVEL_END0, size > LEVEL_END1);
  }

  predicate Wanted(n: nat, m: nat, one: bool, two: bool, s: Slot) {
    match s
    case Data(k) => k < n
    case Single => one
    case Double => two
    case Table(i) => i < m
  }

  lemma {:induction false} WantedCard(a: set<Slot>, n: nat, m: nat, one: bool, two: bool)
    requires forall s :: s in a <==> Wanted(n, m, one, two, s)
    ensures |a| == n + (if one then 1 else 0) + (if two then 1 else 0) + m
    decreases n, m, one, two
  {
    if n == 0 && m == 0 && !one && !two {
      forall s ensures s !in a { assert !Wanted(n, m, one, two, s); }
    } else {
      var s := if n > 0 then Data(n - 1) else if m > 0 then Table(m - 1) else if one then Single else Double;
      assert s in a;
      WantedCard(a - {s}, if n > 0 then n - 1 else n, if n == 0 && m > 0 then m - 1 else m, one && !s.Single?,
                 two && !s.Double?);
    }
  }

  lemma DemandSlot(size: nat, n: nat, m: nat, s: Slot)
    requires size <= LEVEL_END2 && n == (size + BLOCK_SIZE - 1) / BLOCK_SIZE
    requires m == if size > LEVEL_END1 then (size - LEVEL_END1 + INDEX_ONE_SIZE - 1) / INDEX_ONE_SIZE else 0
    ensures s in ActiveSet(size) <==>
            Wanted(n, m, size > LEVEL_END0, size > LEVEL_END1, s)
  {
    if s.Data? {
      assert s.k * BLOCK_SIZE < size <==> s.k < n;
    } else if s.Table? {
      assert LEVEL_END1 + s.i * INDEX_ONE_SIZE < size <==> s.i < m;
    }
  }
}
