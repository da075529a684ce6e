/** Where the bytes of a file live: an inode with 12 direct pointers, a single
    and a double indirect tree of 256-byte index blocks, and a block bitmap. */
module FileLayout {
  import opened Bytes

  const BLOCK_SIZE: nat := 256
  const BLOCK_NUM: nat := 4096
  const INODE_NUM: nat := 1024
  const INODE_SIZE: nat := 76
  const INODE_BASE: nat := INODE_NUM + BLOCK_NUM
  const BLOCK_BASE: nat := INODE_BASE + INODE_NUM * INODE_SIZE
  const RAMDISK_SIZE: nat := 4 * 1024 * 1024

  const LEVEL_END0: nat := 12 * BLOCK_SIZE
  const LEVEL_END1: nat := (12 + 64) * BLOCK_SIZE
  const LEVEL_END2: nat := (12 + 64 + 64 * 64) * BLOCK_SIZE
  const INDEX_ONE_SIZE: nat := 64 * BLOCK_SIZE

  /** Data blocks reachable without the triple level. */
  const TREE_BLOCKS: nat := 4172

  /** The places of a file's tree that hold a block of their own. */
  datatype Slot = Data(k: nat) | Single | Double | Table(i: nat)

  /** Which block (bitmap index) each allocated slot holds. */
  type Tree = map<Slot, nat>

  function BlockAddr(b: nat): nat { BLOCK_BASE + b * BLOCK_SIZE }

  /** The contents of block b of a ramdisk. */
  function Block(d: seq<byte>, b: nat): (r: seq<byte>)
    requires |d| == RAMDISK_SIZE && b < BLOCK_NUM
    ensures |r| == BLOCK_SIZE
  {
    d[BlockAddr(b)..BlockAddr(b) + BLOCK_SIZE]
  }

  /** Writing inside one block changes that block and nothing else. */
  lemma SpliceBlock(d: seq<byte>, b: nat, o: nat, t: seq<byte>)
    requires |d| == RAMDISK_SIZE && b < BLOCK_NUM && o + |t| <= BLOCK_SIZE
    ensures var d' := Splice(d, BlockAddr(b) + o, t);
            && d'[..BLOCK_BASE] == d[..BLOCK_BASE]
            && Block(d', b) == Splice(Block(d, b), o, t)
            && (forall c :: 0 <= c < BLOCK_NUM && c != b ==> Block(d', c) == Block(d, c))
  {
    var d' := Splice(d, BlockAddr(b) + o, t);
    forall c | 0 <= c < BLOCK_NUM && c != b
      ensures Block(d', c) == Block(d, c)
    {
      assert BlockAddr(c) + BLOCK_SIZE <= BlockAddr(b) || BlockAddr(b) + BLOCK_SIZE <= BlockAddr(c);
    }
  }

  predicate InTree(s: Slot) {
    match s
    case Data(k) => k < TREE_BLOCKS
    case Table(i) => i < 64
    case _ => true
  }

  ghost function AllSlots(): (r: set<Slot>)
    ensures forall s :: s in r <==> InTree(s)
  {
    (set k: nat | k < TREE_BLOCKS :: Data(k)) + {Single, Double} + (set i: nat | i < 64 :: Table(i))
  }

  /** Whether a file of `size` bytes needs the slot. */
  predicate Active(size: nat, s: Slot) {
    match s
    case Data(k) => k * BLOCK_SIZE < size
    case Single => LEVEL_END0 < size
    case Double => LEVEL_END1 < size
    case Table(i) => LEVEL_END1 + i * INDEX_ONE_SIZE < size
  }

  ghost function ActiveSet(size: nat): set<Slot> {
    set s | s in AllSlots() && Active(size, s)
  }

  /** Slots whose pointer is stored in an index block; the others are stored in the inode. */
  predicate HasParent(s: Slot) { s.Table? || (s.Data? && s.k >= 12) }

  function Parent(s: Slot): Slot
    requires HasParent(s)
  {
    match s
    case Table(_) => Double
    case Data(k) => if k < 76 then Single else Table((k - 76) / 64)
  }

  /** Which of the parent's 64 words holds the slot's pointer. */
  function WordIndex(s: Slot): (w: nat)
    requires InTree(s) && HasParent(s)
    ensures w < 64
  {
    match s
    case Table(i) => i
    case Data(k) => if k < 76 then k - 12 else (k - 76) % 64
  }

  /** Which entry of the inode's index array holds the slot's pointer. */
  function RootIndex(s: Slot): (w: nat)
    requires !HasParent(s)
    ensures w < 15
  {
    match s
    case Data(k) => k
    case Single => 12
    case Double => 13
  }

  lemma WordIndexInjective(s: Slot, t: Slot)
    requires InTree(s) && HasParent(s) && InTree(t) && HasParent(t)
    requires Parent(s) == Parent(t) && WordIndex(s) == WordIndex(t)
    ensures s == t
  {
  }

  ghost predicate Closed(t: Tree) {
    forall s :: s in t ==> InTree(s) && t[s] < BLOCK_NUM && (HasParent(s) ==> Parent(s) in t)
  }

  ghost predicate Injective(t: Tree) {
    forall s, u :: s in t && u in t && s != u ==> t[s] != t[u]
  }

  /** The bitmap marks exactly the tree's blocks and the blocks `keep` of everybody else. */
  ghost predicate Marks(t: Tree, bm: seq<bool>, keep: set<nat>) {
    && |bm| == BLOCK_NUM
    && (forall s :: s in t ==> t[s] !in keep)
    && (forall b :: b in keep ==> b < BLOCK_NUM)
    && (forall b :: 0 <= b < BLOCK_NUM ==> (bm[b] <==> b in keep || b in t.Values))
  }

  /** The pointer stored for slot s: in the inode's index array or in its parent's block. */
  ghost function Pointer(d: seq<byte>, index: seq<nat>, t: Tree, s: Slot): nat
    requires |d| == RAMDISK_SIZE && |index| == 15 && Closed(t) && s in t
  {
    if HasParent(s) then WordAt(Block(d, t[Parent(s)]), 4 * WordIndex(s)) else index[RootIndex(s)]
  }

  ghost predicate Points(d: seq<byte>, index: seq<nat>, t: Tree)
    requires |d| == RAMDISK_SIZE && |index| == 15 && Closed(t)
  {
    forall s :: s in t ==> Pointer(d, index, t, s) == BlockAddr(t[s])
  }

  /** A well-formed tree: its blocks are valid, distinct, marked, disjoint from `keep`, and found on disk. */
  ghost predicate Layout(d: seq<byte>, bm: seq<bool>, index: seq<nat>, t: Tree, keep: set<nat>) {
    && |d| == RAMDISK_SIZE && |index| == 15
    && Closed(t) && Injective(t) && Marks(t, bm, keep)
    && Points(d, index, t)
  }

  /** Nothing but this file's blocks may differ: `keep` and everything below the data area stay. */
  ghost predicate Framed(d: seq<byte>, d': seq<byte>, keep: set<nat>) {
    && |d| == |d'| == RAMDISK_SIZE
    && d'[..BLOCK_BASE] == d[..BLOCK_BASE]
    && (forall b :: b in keep && b < BLOCK_NUM ==> Block(d', b) == Block(d, b))
  }

  /** Pointers only depend on the index blocks above them. */
  lemma PointsStable(d: seq<byte>, d': seq<byte>, index: seq<nat>, t: Tree)
    requires |d| == |d'| == RAMDISK_SIZE && |index| == 15 && Closed(t) && Points(d, index, t)
    requires forall s :: s in t && !s.Data? ==> Block(d', t[s]) == Block(d, t[s])
    ensures Points(d', index, t)
  {
    forall s | s in t
      ensures Pointer(d', index, t, s) == BlockAddr(t[s])
    {
      assert Pointer(d, index, t, s) == BlockAddr(t[s]);
    }
  }

  /** Storing a pointer: into the inode, or into a word of the slot's index block. */
  function SetIndex(index: seq<nat>, s: Slot, a: nat): seq<nat>
    requires |index| == 15
  {
    if HasParent(s) then index else index[RootIndex(s) := a]
  }

  ghost function SetDisk(d: seq<byte>, t: Tree, s: Slot, a: nat): (d': seq<byte>)
    requires |d| == RAMDISK_SIZE && InTree(s) && a < WORD_LIMIT
    requires HasParent(s) ==> Parent(s) in t && t[Parent(s)] < BLOCK_NUM
    ensures |d'| == |d|
  {
    if HasParent(s) then Splice(d, BlockAddr(t[Parent(s)]) + 4 * WordIndex(s), WordBytes(a)) else d
  }

  /** Words other than the one stored are kept. */
  lemma SiblingWord(r: seq<byte>, s: Slot, u: Slot, a: nat)
    requires |r| == BLOCK_SIZE && a < WORD_LIMIT
    requires InTree(s) && HasParent(s) && InTree(u) && HasParent(u) && Parent(u) == Parent(s) && u != s
    ensures WordAt(Splice(r, 4 * WordIndex(s), WordBytes(a)), 4 * WordIndex(u)) == WordAt(r, 4 * WordIndex(u))
  {
    assert WordIndex(u) != WordIndex(s) by { if WordIndex(u) == WordIndex(s) { WordIndexInjective(s, u); } }
    WordLocal(r, Splice(r, 4 * WordIndex(s), WordBytes(a)), 4 * WordIndex(u));
  }

  /** A fresh pointer stored in an empty slot's index block leaves every other pointer alone. */
  lemma PointerAfterWord(d: seq<byte>, index: seq<nat>, t: Tree, s: Slot, b: nat, u: Slot)
    requires |d| == RAMDISK_SIZE && |index| == 15 && Closed(t) && Injective(t)
    requires InTree(s) && s !in t && HasParent(s) && Parent(s) in t
    requires b < BLOCK_NUM && u in t[s := b] && Closed(t[s := b])
    ensures Pointer(SetDisk(d, t, s, BlockAddr(b)), index, t[s := b], u) ==
            if u == s then BlockAddr(b) else Pointer(d, index, t, u)
  {
    hide Splice, WordAt, WordBytes, Block;
    var a, pb := BlockAddr(b), t[Parent(s)];
    SpliceBlock(d, pb, 4 * WordIndex(s), WordBytes(a));
    if u == s {
      WordRoundTrip(Block(d, pb), 4 * WordIndex(s), a);
    } else if HasParent(u) {
      assert Parent(u) != s && t[s := b][Parent(u)] == t[Parent(u)];
      if Parent(u) == Parent(s) { SiblingWord(Block(d, pb), s, u, a); } else { assert t[Parent(u)] != pb; }
    }
  }

  lemma AllocateMarks(t: Tree, bm: seq<bool>, keep: set<nat>, s: Slot, b: nat)
    requires Closed(t) && Injective(t) && Marks(t, bm, keep)
    requires InTree(s) && s !in t && (HasParent(s) ==> Parent(s) in t)
    requires b < BLOCK_NUM && !bm[b]
    ensures Closed(t[s := b]) && Injective(t[s := b]) && Marks(t[s := b], bm[b := true], keep)
  {
    var t' := t[s := b];
    assert b !in t.Values && b !in keep;
    assert t'.Values == t.Values + {b} by {
      forall x | x in t.Values ensures x in t'.Values { var u :| u in t && t[u] == x; assert t'[u] == x; }
      assert t'[s] == b;
    }
  }

  /** Allocation step: a free block, marked and hung into an empty slot, keeps the layout. */
  lemma Allocate(d: seq<byte>, bm: seq<bool>, index: seq<nat>, t: Tree, keep: set<nat>, s: Slot, b: nat)
    requires Layout(d, bm, index, t, keep)
    requires InTree(s) && s !in t && (HasParent(s) ==> Parent(s) in t)
    requires b < BLOCK_NUM && !bm[b]
    ensures Layout(SetDisk(d, t, s, BlockAddr(b)), bm[b := true], SetIndex(index, s, BlockAddr(b)), t[s := b], keep)
  {
    var a := BlockAddr(b);
    var d', index', t' := SetDisk(d, t, s, a), SetIndex(index, s, a), t[s := b];
    AllocateMarks(t, bm, keep, s, b);
    forall u | u in t'
      ensures Pointer(d', index', t', u) == BlockAddr(t'[u])
    {
      if HasParent(s) { PointerAfterWord(d, index, t, s, b, u); }
      if u != s { assert Pointer(d, index, t, u) == BlockAddr(t[u]); }
    }
  }

  lemma SetDiskFramed(d: seq<byte>, t: Tree, keep: set<nat>, s: Slot, a: nat)
    requires |d| == RAMDISK_SIZE && InTree(s) && a < WORD_LIMIT
    requires HasParent(s) ==> Parent(s) in t && t[Parent(s)] < BLOCK_NUM && t[Parent(s)] !in keep
    ensures Framed(d, SetDisk(d, t, s, a), keep)
  {
    if HasParent(s) { SpliceBlock(d, t[Parent(s)], 4 * WordIndex(s), WordBytes(a)); }
  }

  /** The byte of the file at position p. */
  ghost function FileByte(d: seq<byte>, t: Tree, p: nat): byte
    requires |d| == RAMDISK_SIZE
  {
    var s := Data(p / BLOCK_SIZE);
    if s in t && t[s] < BLOCK_NUM then Block(d, t[s])[p % BLOCK_SIZE] else 0
  }

  ghost function Content(d: seq<byte>, t: Tree, size: nat): (c: seq<byte>)
    requires |d| == RAMDISK_SIZE
    ensures |c| == size
  {
    seq(size, p requires 0 <= p < size => FileByte(d, t, p))
  }

  lemma ContentAfterChunk(d: seq<byte>, t: Tree, k: nat, o: nat, x: seq<byte>)
    requires |d| == RAMDISK_SIZE && Closed(t) && Injective(t)
    requires Data(k) in t && o + |x| <= BLOCK_SIZE && 0 < |x|
    ensures var size := k * BLOCK_SIZE + o;
            Content(Splice(d, BlockAddr(t[Data(k)]) + o, x), t, size + |x|) == Content(d, t, size) + x
  {
    var size, b := k * BLOCK_SIZE + o, t[Data(k)];
    var d' := Splice(d, BlockAddr(b) + o, x);
    SpliceBlock(d, b, o, x);
    forall p | 0 <= p < size + |x|
      ensures FileByte(d', t, p) == if p < size then FileByte(d, t, p) else x[p - size]
    {
      if p / BLOCK_SIZE == k {
        assert Block(d', b)[p % BLOCK_SIZE] == if p < size then Block(d, b)[p % BLOCK_SIZE] else x[p - size];
      }
    }
  }

  /** Data step: bytes written into the last block extend the content and keep the layout. */
  lemma WriteChunk(d: seq<byte>, bm: seq<bool>, index: seq<nat>, t: Tree, keep: set<nat>, k: nat, o: nat, x: seq<byte>)
    requires Layout(d, bm, index, t, keep)
    requires Data(k) in t && o + |x| <= BLOCK_SIZE
    ensures var d' := Splice(d, BlockAddr(t[Data(k)]) + o, x);
            Layout(d', bm, index, t, keep) && Framed(d, d', keep)
  {
    hide Splice, Block;
    var b := t[Data(k)];
    var d' := Splice(d, BlockAddr(b) + o, x);
    SpliceBlock(d, b, o, x);
    assert forall s :: s in t && s != Data(k) ==> t[s] != b;
    PointsStable(d, d', index, t);
  }
}
