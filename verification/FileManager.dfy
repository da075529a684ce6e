/** The FILE server's storage operations over the ramdisk, the block bitmap and the shared index buffers. */
module FileManager {
  import opened Bytes
  import opened Counting
  import opened FileLayout
  import opened FileSteps
  import opened TableSteps
  import opened FileRelease
  import opened FileGaps

  /** iNode_entry, as far as storage is concerned. */
  class INode {
    var size: nat
    var index: seq<nat>

    constructor (size: nat, index: seq<nat>)
      ensures this.size == size && this.index == index
    {
      this.size := size;
      this.index := index;
    }
  }

  /** The pointers are 32-bit words. */
  predicate Words(index: seq<nat>) { forall j :: 0 <= j < |index| ==> index[j] < WORD_LIMIT }

  function Min(a: int, b: int): int { if a < b then a else b }

  /** cur_read_len: how much one round of a read may take without leaving its block, the request or the file. */
  function CurReadLen(len: int, fileOffset: nat, size: nat): (n: int)
    ensures len > 0 && fileOffset < size ==>
              0 < n <= len && fileOffset + n <= size && fileOffset % BLOCK_SIZE + n <= BLOCK_SIZE
    ensures len > 0 && fileOffset < size && fileOffset % BLOCK_SIZE + n < BLOCK_SIZE ==>
              n == len || fileOffset + n == size
  {
    var blockRest := BLOCK_SIZE - fileOffset % BLOCK_SIZE;
    var restSize := size - fileOffset;
    Min(Min(blockRest, len), restSize)
  }

  /** How many of `len` bytes from `off` on lie before `end`. */
  function Clip(off: nat, len: int, end: nat): (n: nat)
    ensures n == 0 || (n <= len && off + n <= end)
  {
    if len <= 0 || off >= end then 0 else Min(len, end - off)
  }

  class Store {
    const disk: array<byte>
    const blockBitmap: array<bool>
    var blockCursor: nat
    const indexBlock1: array<byte>
    const indexBlock2: array<byte>

    ghost predicate Valid()
      reads this
    {
      && disk.Length == RAMDISK_SIZE && blockBitmap.Length == BLOCK_NUM
      && indexBlock1.Length == indexBlock2.Length == BLOCK_SIZE
      && disk != indexBlock1 && disk != indexBlock2 && indexBlock1 != indexBlock2
      && blockCursor < BLOCK_NUM
    }

    constructor ()
      ensures Valid()
      ensures fresh(disk) && fresh(blockBitmap) && fresh(indexBlock1) && fresh(indexBlock2)
    {
      disk := new byte[RAMDISK_SIZE];
      blockBitmap := new bool[BLOCK_NUM];
      indexBlock1 := new byte[BLOCK_SIZE];
      indexBlock2 := new byte[BLOCK_SIZE];
      blockCursor := 0;
    }

    /** get_free_block: the first free block at or after the cursor, cyclically. The search is endless
        when every block is used, so a free block is what the operation needs. */
    method GetFreeBlock() returns (ghost b: nat, addr: nat)
      requires Valid()
      requires exists x :: 0 <= x < BLOCK_NUM && !blockBitmap[x]
      modifies blockBitmap, this`blockCursor
      ensures Valid()
      ensures b < BLOCK_NUM && addr == BlockAddr(b)
      ensures !old(blockBitmap[b]) && blockBitmap[..] == old(blockBitmap[..])[b := true]
    {
      ghost var x :| 0 <= x < BLOCK_NUM && !blockBitmap[x];
      while blockBitmap[blockCursor]
        modifies this`blockCursor
        invariant blockCursor < BLOCK_NUM
        decreases if x >= blockCursor then x - blockCursor else x - blockCursor + BLOCK_NUM
      {
        blockCursor := blockCursor + 1;
        blockCursor := blockCursor % BLOCK_NUM;
      }
      b := blockCursor;
      blockBitmap[blockCursor] := true;
      addr := BLOCK_BASE + blockCursor * BLOCK_SIZE;
    }

    /** dev_write to the ramdisk; the bound is the driver's own assertion. */
    method DevWrite(src: seq<byte>, offset: nat)
      requires Valid() && offset + |src| < RAMDISK_SIZE
      modifies disk
      ensures disk[..] == Splice(old(disk[..]), offset, src)
    {
      forall i | 0 <= i < |src| { disk[offset + i] := src[i]; }
    }

    /** dev_read of one index block into a buffer. */
    method LoadBlock(buffer: array<byte>, offset: nat)
      requires Valid() && buffer.Length == BLOCK_SIZE && buffer != disk
      requires offset + BLOCK_SIZE < RAMDISK_SIZE
      modifies buffer
      ensures buffer[..] == disk[offset..offset + BLOCK_SIZE]
    {
      forall i | 0 <= i < BLOCK_SIZE { buffer[i] := disk[offset + i]; }
    }

    /** `*((uint32_t*)buffer + i) = w` */
    method PutWord(buffer: array<byte>, i: nat, w: nat)
      requires buffer.Length == BLOCK_SIZE && i < 64 && w < WORD_LIMIT
      modifies buffer
      ensures buffer[..] == Splice(old(buffer[..]), 4 * i, WordBytes(w))
    {
      var b := WordBytes(w);
      buffer[4 * i], buffer[4 * i + 1], buffer[4 * i + 2], buffer[4 * i + 3] := b[0], b[1], b[2], b[3];
    }

    /** The direct block that byte k * BLOCK_SIZE + o goes to: a new one at the start of a block. */
    method DirectBlock(inode: INode, ghost off: nat, k: nat, o: nat, ghost d0: seq<byte>, ghost t0: Tree,
                       ghost keep: set<nat>, ghost c: seq<byte>, ghost goal: set<Slot>)
      returns (ramdiskOffset: nat, ghost t: Tree)
      requires Valid() && |inode.index| == 15 && k < 12 && o < BLOCK_SIZE && off == k * BLOCK_SIZE + o
      requires Writing(d0, disk[..], blockBitmap[..], inode.index, t0, keep, off, c, goal)
      requires Data(k) in goal && (Data(k) in t0 <==> o > 0)
      modifies blockBitmap, this`blockCursor, inode`index
      ensures Valid() && |inode.index| == 15
      ensures inode.index[12..] == old(inode.index)[12..]
      ensures Words(old(inode.index)) ==> Words(inode.index)
      ensures Writing(d0, disk[..], blockBitmap[..], inode.index, t, keep, off, c, goal)
      ensures t.Keys == t0.Keys + {Data(k)} && forall s :: s in t0 ==> t[s] == t0[s]
      ensures forall j :: 0 <= j < 12 && (j != k || o > 0) ==> inode.index[j] == old(inode.index[j])
      ensures ramdiskOffset == BlockAddr(t[Data(k)]) + o && ramdiskOffset + BLOCK_SIZE - o < RAMDISK_SIZE
    {
      hide Writing, ActiveSet, IsRoot, Splice, Block, Active;
      t := t0;
      ghost var d, bm := disk[..], blockBitmap[..];
      DirectRoot(k);
      if o == 0 {
        Budget(d0, d, bm, inode.index, t, keep, off, c, goal, Data(k));
        ghost var b;
        var addr;
        b, addr := GetFreeBlock();
        AllocateRoot(d0, d, bm, inode.index, t, keep, off, c, goal, Data(k), k, b);
        inode.index := inode.index[k := addr];
        t, bm := t[Data(k) := b], bm[b := true];
      }
      LookupRoot(d0, d, bm, inode.index, t, keep, off, c, goal, Data(k), k);
      ramdiskOffset := inode.index[k] + o;
    }

    /** One round of the direct-block loop. */
    method DirectStep(inode: INode, ghost off: nat, k: nat, o: nat, x: seq<byte>, ghost d0: seq<byte>, ghost t0: Tree,
                      ghost keep: set<nat>, ghost c: seq<byte>, ghost goal: set<Slot>)
      returns (ghost t: Tree)
      requires Valid() && |inode.index| == 15 && k < 12 && off == k * BLOCK_SIZE + o
      requires o < BLOCK_SIZE && 0 < |x| <= BLOCK_SIZE - o
      requires Writing(d0, disk[..], blockBitmap[..], inode.index, t0, keep, off, c, goal)
      requires Data(k) in goal && (Data(k) in t0 <==> o > 0)
      modifies disk, blockBitmap, this`blockCursor, inode
      ensures Valid() && |inode.index| == 15 && inode.size == old(inode.size) + |x|
      ensures inode.index[12..] == old(inode.index)[12..]
      ensures Words(old(inode.index)) ==> Words(inode.index)
      ensures Writing(d0, disk[..], blockBitmap[..], inode.index, t, keep, off + |x|, c + x, goal)
      ensures t.Keys == t0.Keys + {Data(k)} && forall s :: s in t0 ==> t[s] == t0[s]
      ensures forall j :: 0 <= j < 12 && (j != k || o > 0) ==> inode.index[j] == old(inode.index[j])
    {
      hide Words, Writing, ActiveSet, IsRoot, Splice, Block, Active;
      var ramdiskOffset;
      ramdiskOffset, t := DirectBlock(inode, off, k, o, d0, t0, keep, c, goal);
      ghost var d, bm := disk[..], blockBitmap[..];
      ChunkStep(d0, d, bm, inode.index, t, keep, k, o, c, goal, x);
      DevWrite(x, ramdiskOffset);
      assert blockBitmap[..] == bm;
      inode.size := inode.size + |x|;
    }

    /** The direct-block loop of write_data. Blocks before the offset may be missing, if it is at the start of one. */
    method WriteDirect(inode: INode, off: nat, buf: seq<byte>, ghost d0: seq<byte>, ghost t0: Tree,
                       ghost keep: set<nat>, ghost c0: seq<byte>, ghost goal: set<Slot>)
      returns (written: nat, ghost t: Tree)
      requires Valid() && |inode.index| == 15 && Reaches(t0, off)
      requires Writing(d0, disk[..], blockBitmap[..], inode.index, t0, keep, off, c0, goal)
      requires t0.Keys + Direct(off, off + |buf|) <= goal
      modifies disk, blockBitmap, this`blockCursor, inode
      ensures Valid() && |inode.index| == 15
      ensures inode.index[12..] == old(inode.index)[12..]
      ensures Words(old(inode.index)) ==> Words(inode.index)
      ensures forall j :: 0 <= j < 12 && !(off <= j * BLOCK_SIZE < off + written) ==>
              inode.index[j] == old(inode.index[j])
      ensures written <= |buf| && inode.size == old(inode.size) + written
      ensures Writing(d0, disk[..], blockBitmap[..], inode.index, t, keep, off + written, c0 + buf[..written], goal)
      ensures t.Keys == t0.Keys + Direct(off, off + written) && forall s :: s in t0 ==> t[s] == t0[s]
      ensures written < |buf| ==> off + written >= LEVEL_END0
      ensures off + written <= LEVEL_END0 || written == 0
    {
      hide Words, Writing, ActiveSet, IsRoot, Splice, Block, Active, Reaches, Direct;
      written, t := 0, t0;
      var fileOffset, len := off, |buf|;
      ghost var c := c0;
      assert c0 + buf[..0] == c0;
      NoDirect(off);
      while fileOffset < LEVEL_END0 && len > 0
        invariant Valid() && |inode.index| == 15 && inode.index[12..] == old(inode.index)[12..]
        invariant Words(old(inode.index)) ==> Words(inode.index)
        invariant 0 <= len && written + len == |buf| && c == c0 + buf[..written]
        invariant fileOffset == off + written && inode.size == old(inode.size) + written
        invariant Writing(d0, disk[..], blockBitmap[..], inode.index, t, keep, fileOffset, c, goal)
        invariant t.Keys == t0.Keys + Direct(off, fileOffset) && forall s :: s in t0 ==> t[s] == t0[s]
        invariant forall j :: 0 <= j < 12 && !(off <= j * BLOCK_SIZE < fileOffset) ==>
                  inode.index[j] == old(inode.index[j])
        invariant written > 0 && len > 0 ==> fileOffset % BLOCK_SIZE == 0
        invariant fileOffset <= LEVEL_END0 || written == 0
      {
        var k, o := fileOffset / BLOCK_SIZE, fileOffset % BLOCK_SIZE;
        var curLen := if BLOCK_SIZE - o < len then BLOCK_SIZE - o else len;
        DirectHere(t0, t, off, fileOffset, curLen);
        DirectWithin(off, fileOffset + curLen, off + |buf|);
        var x := buf[written..written + curLen];
        t := DirectStep(inode, fileOffset, k, o, x, d0, t, keep, c, goal);
        c := c + x;
        assert c == c0 + buf[..written + curLen];
        fileOffset := fileOffset + curLen;
        written := written + curLen;
        len := len - curLen;
      }
    }

    /** The same for a file that is whole up to the offset. */
    method DirectPhase(inode: INode, off: nat, buf: seq<byte>, ghost d0: seq<byte>, ghost t0: Tree,
                       ghost keep: set<nat>, ghost c0: seq<byte>, ghost goal: set<Slot>)
      returns (written: nat, ghost t: Tree)
      requires Valid() && |inode.index| == 15
      requires Writing(d0, disk[..], blockBitmap[..], inode.index, t0, keep, off, c0, goal)
      requires t0.Keys == ActiveSet(off) && goal == ActiveSet(off + |buf|)
      modifies disk, blockBitmap, this`blockCursor, inode
      ensures Valid() && |inode.index| == 15
      ensures inode.index[12..] == old(inode.index)[12..]
      ensures Words(old(inode.index)) ==> Words(inode.index)
      ensures written <= |buf| && inode.size == old(inode.size) + written
      ensures Writing(d0, disk[..], blockBitmap[..], inode.index, t, keep, off + written, c0 + buf[..written], goal)
      ensures t.Keys == ActiveSet(off + written)
      ensures written < |buf| ==> off + written >= LEVEL_END0
      ensures off + written <= LEVEL_END0 || written == 0
    {
      hide Words, Writing, ActiveSet, Reaches, Direct;
      WholeReaches(t0, off);
      GrowDirect(off, off + |buf|);
      written, t := WriteDirect(inode, off, buf, d0, t0, keep, c0, goal);
      GrowDirect(off, off + written);
    }

    /** The block that byte k * BLOCK_SIZE + o goes to: a new one at the start of a block, else the one in the table. */
    method TableBlock(inode: INode, ghost off: nat, table: array<byte>, j: nat, o: nat,
                      ghost p: Slot, ghost ub: nat, ghost up: seq<byte>, ghost d0: seq<byte>, ghost t0: Tree,
                      ghost keep: set<nat>, ghost c: seq<byte>, ghost goal: set<Slot>)
      returns (ramdiskOffset: nat, flag: bool, ghost t: Tree)
      requires Valid() && (table == indexBlock1 || table == indexBlock2)
      requires (p.Single? || p.Table?) && InTree(p) && p in t0 && j < 64 && o < BLOCK_SIZE
      requires off == (Base(p) + j) * BLOCK_SIZE + o
      requires Buffers(disk[..], t0[p], table[..], ub, up) && (up != [] ==> Double in t0 && t0[Double] == ub)
      requires Writing(d0, Pending(disk[..], t0[p], table[..], ub, up), blockBitmap[..], inode.index, t0, keep,
                       off, c, goal)
      requires Data(Base(p) + j) in goal && (Data(Base(p) + j) in t0 <==> o > 0)
      modifies blockBitmap, this`blockCursor, table
      ensures Valid()
      ensures Buffers(disk[..], t0[p], table[..], ub, up) && p in t && t[p] == t0[p]
      ensures Double in t0 ==> Double in t && t[Double] == t0[Double]
      ensures Writing(d0, Pending(disk[..], t[p], table[..], ub, up), blockBitmap[..], inode.index, t, keep,
                      off, c, goal)
      ensures t.Keys == t0.Keys + {Data(Base(p) + j)}
      ensures t[Data(Base(p) + j)] < BLOCK_NUM && t[Data(Base(p) + j)] != t[p]
      ensures up != [] ==> t[Data(Base(p) + j)] != ub
      ensures ramdiskOffset == BlockAddr(t[Data(Base(p) + j)]) + o && ramdiskOffset + BLOCK_SIZE - o < RAMDISK_SIZE
      ensures flag <==> o == 0
      ensures !flag ==> table[..] == old(table[..])
    {
      hide Writing, Pending, ActiveSet, Splice, Block, Active, Above;
      ghost var s, d, bm, w := Data(Base(p) + j), disk[..], blockBitmap[..], table[..];
      t, flag := t0, o == 0;
      DataChild(p, j);
      if o == 0 {
        Budget(d0, Pending(d, t[p], w, ub, up), bm, inode.index, t, keep, off, c, goal, s);
        ghost var b;
        b, ramdiskOffset := GetFreeBlock();
        TableAllocate(d0, d, bm, inode.index, t, keep, off, c, goal, p, w, ub, up, j, s, b);
        PutWord(table, j, ramdiskOffset);
        t, bm, w := t[s := b], bm[b := true], Splice(w, 4 * j, WordBytes(ramdiskOffset));
      } else {
        ramdiskOffset := WordAt(table[..], 4 * j);
        ramdiskOffset := ramdiskOffset + o;
      }
      TableLookup(d0, d, bm, inode.index, t, keep, off, c, goal, p, w, ub, up, j, s);
      if up != [] { NotDouble(d0, Pending(d, t[p], w, ub, up), bm, inode.index, t, keep, off, c, goal, s.k); }
    }

    /** One round of the loop that fills an index block. */
    method TableStep(inode: INode, ghost off: nat, table: array<byte>, j: nat, o: nat, x: seq<byte>,
                     ghost p: Slot, ghost ub: nat, ghost up: seq<byte>, ghost d0: seq<byte>, ghost t0: Tree,
                     ghost keep: set<nat>, ghost c: seq<byte>, ghost goal: set<Slot>)
      returns (flag: bool, ghost t: Tree)
      requires Valid() && (table == indexBlock1 || table == indexBlock2)
      requires (p.Single? || p.Table?) && InTree(p) && p in t0 && j < 64
      requires o < BLOCK_SIZE && 0 < |x| <= BLOCK_SIZE - o && off == (Base(p) + j) * BLOCK_SIZE + o
      requires Buffers(disk[..], t0[p], table[..], ub, up) && (up != [] ==> Double in t0 && t0[Double] == ub)
      requires Writing(d0, Pending(disk[..], t0[p], table[..], ub, up), blockBitmap[..], inode.index, t0, keep,
                       off, c, goal)
      requires t0.Keys == ActiveSet(off) + Above(p) && Data(Base(p) + j) in goal
      modifies disk, blockBitmap, this`blockCursor, inode`size, table
      ensures Valid() && inode.size == old(inode.size) + |x|
      ensures Buffers(disk[..], t0[p], table[..], ub, up) && p in t && t[p] == t0[p]
      ensures Double in t0 ==> Double in t && t[Double] == t0[Double]
      ensures Writing(d0, Pending(disk[..], t[p], table[..], ub, up), blockBitmap[..], inode.index, t, keep,
                      off + |x|, c + x, goal)
      ensures t.Keys == ActiveSet(off + |x|) + Above(p)
      ensures Block(disk[..], t[p]) == old(Block(disk[..], t0[p]))
      ensures up != [] ==> Block(disk[..], ub) == old(Block(disk[..], ub))
      ensures flag <==> o == 0
      ensures !flag ==> table[..] == old(table[..])
    {
      hide Writing, Pending, ActiveSet, Splice, Block, Above, Active;
      ghost var k, d := Base(p) + j, disk[..];
      DataSlot(k, o, off + 1);
      DataNotAbove(p, k);
      var ramdiskOffset;
      ramdiskOffset, flag, t := TableBlock(inode, off, table, j, o, p, ub, up, d0, t0, keep, c, goal);
      ghost var bm, w := blockBitmap[..], table[..];
      TableChunk(d0, d, bm, inode.index, t, keep, k, o, c, goal, p, w, ub, up, x);
      GrowTable(p, k, o, |x|);
      SpliceBlock(d, t[Data(k)], o, x);
      DevWrite(x, ramdiskOffset);
      assert blockBitmap[..] == bm && table[..] == w;
      inode.size := inode.size + |x|;
    }

    /** The innermost loop of write_data below an index block held in `table`, the one for the single level and the one
        for the double level. `flag` says whether the buffer must be written back. */
    method FillTable(inode: INode, off: nat, table: array<byte>, start: nat, levelEnd: nat, buf: seq<byte>,
                     ghost p: Slot, ghost ub: nat, ghost up: seq<byte>,
                     ghost d0: seq<byte>, ghost t0: Tree, ghost keep: set<nat>, ghost c0: seq<byte>,
                         ghost goal: set<Slot>)
      returns (written: nat, flag: bool, ghost t: Tree)
      requires Valid() && (table == indexBlock1 || table == indexBlock2)
      requires (p.Single? || p.Table?) && InTree(p) && p in t0
      requires start == Base(p) * BLOCK_SIZE && levelEnd == start + INDEX_ONE_SIZE
      requires start <= off < levelEnd && 0 < |buf| && goal == ActiveSet(off + |buf|)
      requires Buffers(disk[..], t0[p], table[..], ub, up) && (up != [] ==> Double in t0 && t0[Double] == ub)
      requires Writing(d0, Pending(disk[..], t0[p], table[..], ub, up), blockBitmap[..], inode.index, t0, keep,
                       off, c0, goal)
      requires t0.Keys == ActiveSet(off) + Above(p)
      modifies disk, blockBitmap, this`blockCursor, inode`size, table
      ensures Valid()
      ensures 0 < written <= |buf| && inode.size == old(inode.size) + written && off + written <= levelEnd
      ensures written < |buf| ==> off + written == levelEnd
      ensures p in t && t[p] == t0[p] && (Double in t0 ==> Double in t && t[Double] == t0[Double])
      ensures Buffers(disk[..], t[p], table[..], ub, up)
      ensures Writing(d0, Pending(disk[..], t[p], table[..], ub, up), blockBitmap[..], inode.index, t, keep,
                      off + written, c0 + buf[..written], goal)
      ensures t.Keys == ActiveSet(off + written) + Above(p)
      ensures Block(disk[..], t[p]) == old(Block(disk[..], t0[p]))
      ensures up != [] ==> Block(disk[..], ub) == old(Block(disk[..], ub))
      ensures !flag ==> table[..] == old(table[..])
      ensures off % BLOCK_SIZE == 0 ==> flag
    {
      hide Writing, Pending, ActiveSet, Splice, Block, Above, Active;
      var fileOffset, len := off, |buf|;
      var j := (fileOffset - start) / BLOCK_SIZE;
      written, flag, t := 0, false, t0;
      ghost var c := c0;
      ghost var tb, size0 := t[p], inode.size;
      assert c0 + buf[..0] == c0;
      while fileOffset < levelEnd && len > 0
        invariant Valid() && Buffers(disk[..], tb, table[..], ub, up)
        invariant 0 <= len && written + len == |buf| && c == c0 + buf[..written]
        invariant fileOffset == off + written && inode.size == size0 + written && fileOffset <= levelEnd
        invariant len > 0 && fileOffset < levelEnd ==> j == (fileOffset - start) / BLOCK_SIZE
        invariant p in t && t[p] == tb && (Double in t0 ==> Double in t && t[Double] == t0[Double])
        invariant Writing(d0, Pending(disk[..], tb, table[..], ub, up), blockBitmap[..], inode.index, t, keep,
                          fileOffset, c, goal)
        invariant t.Keys == ActiveSet(fileOffset) + Above(p)
        invariant Block(disk[..], tb) == old(Block(disk[..], t0[p]))
        invariant up != [] ==> Block(disk[..], ub) == old(Block(disk[..], ub))
        invariant !flag ==> table[..] == old(table[..])
        invariant off % BLOCK_SIZE == 0 && written > 0 ==> flag
      {
        var o := fileOffset % BLOCK_SIZE;
        InTable(p, j, fileOffset, len);
        var curLen := if BLOCK_SIZE - o < len then BLOCK_SIZE - o else len;
        var x := buf[written..written + curLen];
        var newBlock;
        newBlock, t := TableStep(inode, fileOffset, table, j, o, x, p, ub, up, d0, t, keep, c, goal);
        flag := flag || newBlock;
        c := c + x;
        assert c == c0 + buf[..written + curLen];
        fileOffset := fileOffset + curLen;
        written := written + curLen;
        len := len - curLen;
        j := j + 1;
      }
    }

    /** The top index block of a level: a new one when the level begins, else the one on disk. */
    method OpenLevel(inode: INode, off: nat, p: Slot, w: nat, levelStart: nat, ghost d0: seq<byte>, ghost t0: Tree,
                     ghost keep: set<nat>, ghost c: seq<byte>, ghost goal: set<Slot>)
      returns (indexOffset: nat, ghost t: Tree)
      requires Valid() && IsIndexRoot(p, w) && levelStart == (if p.Single? then LEVEL_END0 else LEVEL_END1)
      requires |inode.index| == 15 && levelStart <= off && p in goal
      requires Writing(d0, disk[..], blockBitmap[..], inode.index, t0, keep, off, c, goal)
      requires t0.Keys == ActiveSet(off)
      modifies blockBitmap, this`blockCursor, inode`index, indexBlock1
      ensures Valid() && |inode.index| == 15
      ensures inode.index[14] == old(inode.index)[14]
      ensures Words(old(inode.index)) ==> Words(inode.index)
      ensures p in t && t.Keys == ActiveSet(off) + {p}
      ensures Buffers(disk[..], t[p], indexBlock1[..], t[p], []) && indexOffset == BlockAddr(t[p])
      ensures Writing(d0, Pending(disk[..], t[p], indexBlock1[..], t[p], []), blockBitmap[..], inode.index, t, keep,
                      off, c, goal)
      ensures off != levelStart ==> indexBlock1[..] == Block(disk[..], t[p])
      ensures BlockAddr(t[p]) + BLOCK_SIZE < RAMDISK_SIZE
    {
      hide Words, Writing, Pending, ActiveSet, Splice, Active, IsRoot, InTree, HasParent, Parent, Fresh;
      t := t0;
      ghost var d, bm := disk[..], blockBitmap[..];
      IndexSlots(off, off + 1);
      IndexRoot(p, w);
      if off == levelStart {
        indexOffset, t := NewLevel(inode, off, p, w, d0, t, keep, c, goal);
      } else {
        LookupRoot(d0, d, bm, inode.index, t, keep, off, c, goal, p, w);
        indexOffset := inode.index[w];
        LoadBlock(indexBlock1, indexOffset);
        assert indexBlock1[..] == Block(d, t[p]);
        PendingOne(d, t[p], indexBlock1[..]);
      }
    }

    /** get_free_block for the top index block. The buffer keeps its old bytes: no entry has been written yet. */
    method NewLevel(inode: INode, ghost off: nat, p: Slot, w: nat, ghost d0: seq<byte>, ghost t0: Tree,
                    ghost keep: set<nat>, ghost c: seq<byte>, ghost goal: set<Slot>)
      returns (indexOffset: nat, ghost t: Tree)
      requires Valid() && IsIndexRoot(p, w) && p in goal
      requires |inode.index| == 15 && off == if p.Single? then LEVEL_END0 else LEVEL_END1
      requires Writing(d0, disk[..], blockBitmap[..], inode.index, t0, keep, off, c, goal)
      requires t0.Keys == ActiveSet(off)
      modifies blockBitmap, this`blockCursor, inode`index
      ensures Valid() && |inode.index| == 15 && inode.index[14] == old(inode.index)[14]
      ensures Words(old(inode.index)) ==> Words(inode.index)
      ensures p in t && t.Keys == ActiveSet(off) + {p}
      ensures Buffers(disk[..], t[p], indexBlock1[..], t[p], []) && indexOffset == BlockAddr(t[p])
      ensures Writing(d0, Pending(disk[..], t[p], indexBlock1[..], t[p], []), blockBitmap[..], inode.index, t, keep,
                      off, c, goal)
      ensures BlockAddr(t[p]) + BLOCK_SIZE < RAMDISK_SIZE
    {
      hide Writing, Pending, ActiveSet;
      ghost var d, bm, index := disk[..], blockBitmap[..], inode.index;
      RootRoom(d0, d, bm, index, t0, keep, off, c, goal, p, w);
      ghost var b;
      b, indexOffset := GetFreeBlock();
      inode.index := inode.index[w := indexOffset];
      t := t0[p := b];
      RootMade(d0, d, bm, index, t0, keep, off, c, goal, p, w, b, indexBlock1[..]);
    }

    /** The single-indirect phase of write_data. */
    method WriteSingle(inode: INode, off: nat, buf: seq<byte>, ghost d0: seq<byte>, ghost t0: Tree,
                       ghost keep: set<nat>, ghost c0: seq<byte>, ghost goal: set<Slot>)
      returns (written: nat, ghost t: Tree)
      requires Valid() && |inode.index| == 15 && LEVEL_END0 <= off < LEVEL_END1 && 0 < |buf|
      requires Writing(d0, disk[..], blockBitmap[..], inode.index, t0, keep, off, c0, goal)
      requires t0.Keys == ActiveSet(off) && goal == ActiveSet(off + |buf|)
      modifies disk, blockBitmap, this`blockCursor, inode, indexBlock1
      ensures Valid() && |inode.index| == 15
      ensures inode.index[14] == old(inode.index)[14]
      ensures Words(old(inode.index)) ==> Words(inode.index)
      ensures 0 < written <= |buf| && inode.size == old(inode.size) + written && off + written <= LEVEL_END1
      ensures Writing(d0, disk[..], blockBitmap[..], inode.index, t, keep, off + written, c0 + buf[..written], goal)
      ensures t.Keys == ActiveSet(off + written)
      ensures written < |buf| ==> off + written == LEVEL_END1
    {
      hide Words, Writing, Pending, ActiveSet, Splice, Active, Block;
      IndexSlots(off, off + |buf|);
      var indexOffset1;
      indexOffset1, t := OpenLevel(inode, off, Single, 12, LEVEL_END0, d0, t0, keep, c0, goal);
      ghost var tb := t[Single];
      var flag;
      written, flag, t := FillTable(inode, off, indexBlock1, LEVEL_END0, LEVEL_END1, buf, Single, tb, [],
                                    d0, t, keep, c0, goal);
      ghost var d := disk[..];
      PendingOne(d, tb, indexBlock1[..]);
      if flag {
        DevWrite(indexBlock1[..], indexOffset1);
      }
      IndexSlots(off + written, off + written + 1);
      assert Above(Single) == {Single};
      assert ActiveSet(off + written) + {Single} == ActiveSet(off + written);
    }

    /** The second-level index block i: a new one when its range begins, else the one on disk. */
    method OpenTable(inode: INode, off: nat, i: nat, ghost d0: seq<byte>, ghost t0: Tree, ghost keep: set<nat>,
                     ghost c: seq<byte>, ghost goal: set<Slot>)
      returns (indexOffset2: nat, flag: bool, ghost t: Tree)
      requires Valid() && i < 64 && LEVEL_END1 + i * INDEX_ONE_SIZE <= off
      requires Double in t0 && Table(i) in goal && Buffers(disk[..], t0[Double], indexBlock1[..], t0[Double], [])
      requires Writing(d0, Pending(disk[..], t0[Double], indexBlock1[..], t0[Double], []), blockBitmap[..], inode.index,
                       t0, keep, off, c, goal)
      requires t0.Keys == ActiveSet(off) + {Double}
      modifies blockBitmap, this`blockCursor, indexBlock1, indexBlock2
      ensures Valid()
      ensures Double in t && t[Double] == t0[Double] && Table(i) in t && t.Keys == ActiveSet(off) + Above(Table(i))
      ensures Buffers(disk[..], t[Table(i)], indexBlock2[..], t[Double], indexBlock1[..])
      ensures Writing(d0, Pending(disk[..], t[Table(i)], indexBlock2[..], t[Double], indexBlock1[..]), blockBitmap[..],
                      inode.index, t, keep, off, c, goal)
      ensures indexOffset2 == BlockAddr(t[Table(i)]) && indexOffset2 + BLOCK_SIZE < RAMDISK_SIZE
      ensures flag <==> off == LEVEL_END1 + i * INDEX_ONE_SIZE
      ensures !flag ==> indexBlock1[..] == old(indexBlock1[..]) && indexBlock2[..] == Block(disk[..], t[Table(i)])
    {
      hide Writing, Pending, ActiveSet, Splice, Active, Block, Fresh, Above;
      ghost var p, d, bm, w, ub := Table(i), disk[..], blockBitmap[..], indexBlock1[..], t0[Double];
      t, flag := t0, off == LEVEL_END1 + i * INDEX_ONE_SIZE;
      TableSlot(i, off, off + 1);
      TableChild(i);
      AboveTable(i);
      if flag {
        Budget(d0, Pending(d, ub, w, ub, []), bm, inode.index, t, keep, off, c, goal, p);
        ghost var b;
        b, indexOffset2 := GetFreeBlock();
        TableAllocate(d0, d, bm, inode.index, t, keep, off, c, goal, Double, w, ub, [], i, p, b);
        PutWord(indexBlock1, i, indexOffset2);
        t, bm, w := t[p := b], bm[b := true], Splice(w, 4 * i, WordBytes(indexOffset2));
        TableLookup(d0, d, bm, inode.index, t, keep, off, c, goal, Double, w, ub, [], i, p);
        FreshTable(i, off);
        forall s | s in t && HasParent(s) ensures Parent(s) != p {
          if s != p { NoChildYet(p, off, s); }
        }
        Scribble(d0, Pending(d, ub, w, ub, []), bm, inode.index, t, keep, off, c, goal, p, indexBlock2[..]);
        PendingTwo(d, b, indexBlock2[..], ub, w);
      } else {
        indexOffset2 := WordAt(indexBlock1[..], 4 * i);
        TableLookup(d0, d, bm, inode.index, t, keep, off, c, goal, Double, w, ub, [], i, p);
        LoadBlock(indexBlock2, indexOffset2);
        BlockIs(d, t[p]);
        PendingTwo(d, t[p], indexBlock2[..], ub, w);
      }
    }

    /** One round of the outer loop of the double-indirect phase: fill second-level index block i. */
    method DoubleRound(inode: INode, off: nat, i: nat, buf: seq<byte>, ghost d0: seq<byte>, ghost t0: Tree,
                       ghost keep: set<nat>, ghost c: seq<byte>, ghost goal: set<Slot>)
      returns (written: nat, flag: bool, ghost t: Tree)
      requires Valid() && i < 64 && 0 < |buf| && goal == ActiveSet(off + |buf|)
      requires LEVEL_END1 + i * INDEX_ONE_SIZE <= off < LEVEL_END1 + (i + 1) * INDEX_ONE_SIZE
      requires Double in t0 && Buffers(disk[..], t0[Double], indexBlock1[..], t0[Double], [])
      requires Writing(d0, Pending(disk[..], t0[Double], indexBlock1[..], t0[Double], []), blockBitmap[..], inode.index,
                       t0, keep, off, c, goal)
      requires t0.Keys == ActiveSet(off) + {Double}
      modifies disk, blockBitmap, this`blockCursor, inode`size, indexBlock1, indexBlock2
      ensures Valid()
      ensures 0 < written <= |buf| && inode.size == old(inode.size) + written
      ensures off + written <= LEVEL_END1 + (i + 1) * INDEX_ONE_SIZE
      ensures written < |buf| ==> off + written == LEVEL_END1 + (i + 1) * INDEX_ONE_SIZE
      ensures Double in t && t[Double] == t0[Double] && Buffers(disk[..], t[Double], indexBlock1[..], t[Double], [])
      ensures Writing(d0, Pending(disk[..], t[Double], indexBlock1[..], t[Double], []), blockBitmap[..], inode.index,
                      t, keep, off + written, c + buf[..written], goal)
      ensures t.Keys == ActiveSet(off + written) + {Double}
      ensures flag <==> off == LEVEL_END1 + i * INDEX_ONE_SIZE
      ensures !flag ==> indexBlock1[..] == old(indexBlock1[..])
      ensures Block(disk[..], t[Double]) == old(Block(disk[..], t0[Double]))
    {
      hide Writing, Pending, ActiveSet, Splice, Active, Block, Fresh, Above;
      TableSlot(i, off, off + |buf|);
      var indexOffset2;
      indexOffset2, flag, t := OpenTable(inode, off, i, d0, t0, keep, c, goal);
      ghost var tb, ub := t[Table(i)], t[Double];
      var flag2;
      written, flag2, t := FillTable(inode, off, indexBlock2, LEVEL_END1 + i * INDEX_ONE_SIZE,
                                     LEVEL_END1 + (i + 1) * INDEX_ONE_SIZE, buf, Table(i), ub, indexBlock1[..],
                                     d0, t, keep, c, goal);
      ghost var d := disk[..];
      PendingTwo(d, tb, indexBlock2[..], ub, indexBlock1[..]);
      SpliceBlock(d, tb, 0, indexBlock2[..]);
      if flag2 {
        DevWrite(indexBlock2[..], indexOffset2);
      }
      TableSlot(i, off + written, off + written + 1);
      AboveTable(i);
      assert ActiveSet(off + written) + {Double, Table(i)} == ActiveSet(off + written) + {Double};
    }

    /** The double-indirect phase of write_data. */
    method WriteDouble(inode: INode, off: nat, buf: seq<byte>, ghost d0: seq<byte>, ghost t0: Tree,
                       ghost keep: set<nat>, ghost c0: seq<byte>, ghost goal: set<Slot>)
      returns (written: nat, ghost t: Tree)
      requires Valid() && |inode.index| == 15 && 0 < |buf|
      requires LEVEL_END1 <= off && off + |buf| < LEVEL_END2
      requires Writing(d0, disk[..], blockBitmap[..], inode.index, t0, keep, off, c0, goal)
      requires t0.Keys == ActiveSet(off) && goal == ActiveSet(off + |buf|)
      modifies disk, blockBitmap, this`blockCursor, inode, indexBlock1, indexBlock2
      ensures Valid() && |inode.index| == 15
      ensures inode.index[14] == old(inode.index)[14]
      ensures Words(old(inode.index)) ==> Words(inode.index)
      ensures written == |buf| && inode.size == old(inode.size) + written
      ensures Writing(d0, disk[..], blockBitmap[..], inode.index, t, keep, off + written, c0 + buf, goal)
      ensures t.Keys == ActiveSet(off + written)
    {
      hide Words, Writing, Pending, ActiveSet, Splice, Active, Block, Fresh, Above;
      IndexSlots(off, off + |buf|);
      var indexOffset1;
      indexOffset1, t := OpenLevel(inode, off, Double, 13, LEVEL_END1, d0, t0, keep, c0, goal);
      ghost var b1, size0 := t[Double], inode.size;
      var fileOffset := off;
      var i := (fileOffset - LEVEL_END1) / INDEX_ONE_SIZE;
      var flag1 := false;
      written := 0;
      ghost var c := c0;
      assert c0 + buf[..0] == c0;
      while fileOffset < LEVEL_END2 && written < |buf|
        invariant Valid() && |inode.index| == 15 && inode.index[14] == old(inode.index)[14]
        invariant Words(old(inode.index)) ==> Words(inode.index)
        invariant written <= |buf| && inode.size == size0 + written && fileOffset == off + written &&
                  c == c0 + buf[..written]
        invariant written < |buf| ==> i < 64
        invariant written < |buf| ==>
                  LEVEL_END1 + i * INDEX_ONE_SIZE <= fileOffset < LEVEL_END1 + (i + 1) * INDEX_ONE_SIZE
        invariant Double in t && t[Double] == b1 && Buffers(disk[..], b1, indexBlock1[..], b1, [])
        invariant Writing(d0, Pending(disk[..], b1, indexBlock1[..], b1, []), blockBitmap[..], inode.index,
                          t, keep, fileOffset, c, goal)
        invariant t.Keys == ActiveSet(fileOffset) + {Double}
        invariant flag1 || Block(disk[..], b1) == indexBlock1[..] || (off == LEVEL_END1 && written == 0)
      {
        var n, newTable;
        n, newTable, t := DoubleRound(inode, fileOffset, i, buf[written..], d0, t, keep, c, goal);
        flag1 := flag1 || newTable;
        c := c + buf[written..][..n];
        assert c == c0 + buf[..written + n];
        fileOffset, written := fileOffset + n, written + n;
        i := i + 1;
      }
      ghost var d := disk[..];
      PendingOne(d, b1, indexBlock1[..]);
      if flag1 {
        DevWrite(indexBlock1[..], indexOffset1);
      }
      IndexSlots(fileOffset, fileOffset + 1);
      assert ActiveSet(fileOffset) + {Double} == ActiveSet(fileOffset);
      assert buf[..written] == buf;
    }

    /** write_data at any offset up to which the file's blocks are there: its size, or further on in its last block.
        The demand on free blocks is what keeps get_free_block from searching forever; it also rules the triple-indirect
        level out. */
    method WriteData(inode: INode, fileOffset0: nat, buf: seq<byte>, ghost keep: set<nat>) returns (written: nat)
      requires Valid() && WellFormed(disk[..], blockBitmap[..], inode.index, fileOffset0, keep)
      requires |FreeSet(blockBitmap[..])| + |ActiveSet(fileOffset0)| >= |ActiveSet(fileOffset0 + |buf|)|
      modifies disk, blockBitmap, this`blockCursor, inode, indexBlock1, indexBlock2
      ensures Valid() && WellFormed(disk[..], blockBitmap[..], inode.index, fileOffset0 + |buf|, keep)
      ensures written == |buf| && inode.size == old(inode.size) + |buf|
      ensures FileBytes(disk[..], inode.index, fileOffset0 + |buf|) ==
              old(FileBytes(disk[..], inode.index, fileOffset0)) + buf
      ensures Framed(old(disk[..]), disk[..], keep)
      ensures |inode.index| == 15 && |old(inode.index)| == 15 && inode.index[14] == old(inode.index)[14]
      ensures fileOffset0 + |buf| <= LEVEL_END0 ==> inode.index[12..] == old(inode.index)[12..]
      ensures Words(old(inode.index)) ==> Words(inode.index)
    {
      hide Words, Layout, Writing, ActiveSet, Active, Content, FileBytes, DiskTree, Framed;
      ghost var d0, end := disk[..], fileOffset0 + |buf|;
      ghost var t, c := DiskTree(d0, inode.index, fileOffset0), FileBytes(d0, inode.index, fileOffset0);
      ghost var goal := ActiveSet(end);
      StartWriting(d0, blockBitmap[..], inode.index, fileOffset0, keep, end);
      var fileOffset := fileOffset0;
      written := 0;
      assert c + buf[..0] == c;
      if fileOffset < LEVEL_END0 {
        written, t := DirectPhase(inode, fileOffset, buf, d0, t, keep, c, goal);
        fileOffset := fileOffset + written;
      }
      if fileOffset < LEVEL_END1 && written < |buf| {
        ghost var c1 := c + buf[..written];
        var n;
        n, t := WriteSingle(inode, fileOffset, buf[written..], d0, t, keep, c1, goal);
        assert c1 + buf[written..][..n] == c + buf[..written + n];
        fileOffset, written := fileOffset + n, written + n;
      }
      if fileOffset < LEVEL_END2 && written < |buf| {
        ghost var c1 := c + buf[..written];
        var n;
        n, t := WriteDouble(inode, fileOffset, buf[written..], d0, t, keep, c1, goal);
        assert c1 + buf[written..] == c + buf;
        fileOffset, written := fileOffset + n, written + n;
      }
      if written < |buf| {
        assert false;  // the triple-indirect level
      }
      assert buf[..written] == buf;
      EndWriting(d0, disk[..], blockBitmap[..], inode.index, t, keep, end, c + buf, goal);
    }

    /** write_data from a block border past the file's last block, where all of buf fits into the direct range: only the
        direct phase runs. The blocks between are not there, and the size grows by the bytes written; so unless the
        pointer behind the last block already named a free block, the file is not well-formed afterwards. */
    method WritePast(inode: INode, fileOffset: nat, buf: seq<byte>, ghost keep: set<nat>) returns (written: nat)
      requires Valid() && WellFormed(disk[..], blockBitmap[..], inode.index, inode.size, keep)
      requires PastBlocks(inode.size, fileOffset, |buf|)
      requires |FreeSet(blockBitmap[..])| >= |Direct(fileOffset, fileOffset + |buf|)|
      modifies disk, blockBitmap, this`blockCursor, inode
      ensures Valid() && |inode.index| == 15 && Framed(old(disk[..]), disk[..], keep)
      ensures written == |buf| && inode.size == old(inode.size) + |buf|
      ensures WellFormed(disk[..], blockBitmap[..], inode.index, inode.size, keep) ==>
                |old(inode.index)| == 15 && DataBlocks(old(inode.size)) < 12 &&
                NamesFree(old(blockBitmap[..]), old(inode.index)[DataBlocks(old(inode.size))])
    {
      hide Layout, WellFormed, DiskTree, Content, DataBlocks, Direct, ActiveSet, NamesFree, FreeSet;
      ghost var d0, bm0, index0, size, n := disk[..], blockBitmap[..], inode.index, inode.size, |buf|;
      ghost var t0 := PastStart(d0, bm0, index0, size, fileOffset, n, keep);
      ghost var t;
      written, t := WriteDirect(inode, fileOffset, buf, d0, t0, keep, Content(d0, t0, fileOffset),
                                t0.Keys + Direct(fileOffset, fileOffset + n));
      BlocksReach(size);
      assert written == n;
      if WellFormed(disk[..], blockBitmap[..], inode.index, inode.size, keep) {
        PastBreaks(d0, bm0, index0, t0, disk[..], blockBitmap[..], inode.index, t, keep, size, fileOffset, n);
        assert inode.index[DataBlocks(size)] == index0[DataBlocks(size)];
      }
    }

    /** dev_read into the requester's buffer. */
    method DevRead(dest: array<byte>, at: nat, offset: nat, len: nat)
      requires Valid() && dest != disk && at + len <= dest.Length
      requires offset + len < RAMDISK_SIZE
      modifies dest
      ensures dest[..] == Splice(old(dest[..]), at, disk[offset..offset + len])
    {
      forall i | 0 <= i < len { dest[at + i] := disk[offset + i]; }
    }

    /** One round of a read loop: `len` bytes of data block k from offset o within it. */
    method ReadStep(inode: INode, dest: array<byte>, at: nat, ramdiskOffset: nat, len: nat,
                    ghost k: nat, ghost o: nat, ghost off: nat, ghost dest0: seq<byte>, ghost at0: nat,
                    ghost t: Tree, ghost c: seq<byte>)
      requires Valid() && Readable(disk[..], inode.index, t, inode.size, c)
      requires dest != disk && at + len <= dest.Length && 0 < len
      requires o + len <= BLOCK_SIZE && k * BLOCK_SIZE + o + len <= inode.size
      requires k < TREE_BLOCKS && Data(k) in t && ramdiskOffset == BlockAddr(t[Data(k)]) + o
      requires at0 <= at && off + (at - at0) == k * BLOCK_SIZE + o
      requires |dest0| == dest.Length && |c| == inode.size
      requires dest[..] == Splice(dest0, at0, Slice(c, off, at - at0))
      modifies dest
      ensures dest[..] == Splice(dest0, at0, Slice(c, off, at + len - at0))
    {
      hide Readable, Splice, Slice, Block, ActiveSet;
      ReadChunk(disk[..], inode.index, t, inode.size, c, k, o, len);
      ghost var n, d := at - at0, disk[..];
      SliceIs(c, off + n, len);
      assert Slice(c, off + n, len) == d[ramdiskOffset..ramdiskOffset + len];
      SliceAppend(dest0, at0, c, off, n, len);
      DevRead(dest, at, ramdiskOffset, len);
    }

    /** The direct-block loop of read_data. */
    method ReadDirect(inode: INode, fileOffset0: nat, dest: array<byte>, len0: nat, ghost t: Tree, ghost c: seq<byte>)
      returns (readedLen: nat)
      requires Valid() && Readable(disk[..], inode.index, t, inode.size, c) && |c| == inode.size
      requires len0 <= dest.Length && dest != disk
      modifies dest
      ensures readedLen == Clip(fileOffset0, len0, Min(inode.size, LEVEL_END0))
      ensures dest[..] == Splice(old(dest[..]), 0, Slice(c, fileOffset0, readedLen))
    {
      hide Readable, Splice, Slice, ActiveSet;
      readedLen := 0;
      var fileOffset, len := fileOffset0, len0;
      var minEnd := Min(inode.size, LEVEL_END0);
      ghost var dest0 := dest[..];
      SliceNone(dest0, 0, c, fileOffset0);
      while fileOffset < minEnd && len > 0
        invariant fileOffset == fileOffset0 + readedLen && 0 <= len && readedLen + len == len0
        invariant fileOffset <= minEnd || readedLen == 0
        invariant readedLen == 0 || fileOffset <= |c|
        invariant dest[..] == Splice(dest0, 0, Slice(c, fileOffset0, readedLen))
      {
        var k, o := fileOffset / BLOCK_SIZE, fileOffset % BLOCK_SIZE;
        assert fileOffset == k * BLOCK_SIZE + o && k < 12;
        assert 0 < CurReadLen(len, fileOffset, inode.size);
        ReadPointer(disk[..], inode.index, t, inode.size, c, Data(k));
        var curLen := CurReadLen(len, fileOffset, inode.size);
        ReadStep(inode, dest, readedLen, inode.index[k] + o, curLen, k, o, fileOffset0, dest0, 0, t, c);
        fileOffset := fileOffset + curLen;
        readedLen := readedLen + curLen;
        len := len - curLen;
      }
    }

    /** The innermost loop of read_data below the index block held in `table`. */
    method ReadTable(inode: INode, table: array<byte>, start: nat, levelEnd: nat, fileOffset0: nat,
                     dest: array<byte>, at: nat, len0: nat, ghost p: Slot, ghost t: Tree, ghost c: seq<byte>)
      returns (readedLen: nat)
      requires Valid() && (table == indexBlock1 || table == indexBlock2) && dest != table && dest != disk
      requires Readable(disk[..], inode.index, t, inode.size, c) && |c| == inode.size
      requires (p.Single? || p.Table?) && InTree(p) && p in t && t[p] < BLOCK_NUM && table[..] == Block(disk[..], t[p])
      requires start == Base(p) * BLOCK_SIZE && levelEnd == start + INDEX_ONE_SIZE
      requires start <= fileOffset0 < Min(inode.size, levelEnd) && at + len0 <= dest.Length
      modifies dest
      ensures readedLen == Clip(fileOffset0, len0, Min(inode.size, levelEnd))
      ensures dest[..] == Splice(old(dest[..]), at, Slice(c, fileOffset0, readedLen))
    {
      hide Readable, Splice, Slice, ActiveSet, Block;
      readedLen := 0;
      var fileOffset, len := fileOffset0, len0;
      var minEnd := Min(inode.size, levelEnd);
      var j := (fileOffset - start) / BLOCK_SIZE;
      ghost var dest0 := dest[..];
      SliceNone(dest0, at, c, fileOffset0);
      while fileOffset < minEnd && len > 0
        invariant fileOffset == fileOffset0 + readedLen && 0 <= len && readedLen + len == len0
        invariant fileOffset <= minEnd
        invariant len > 0 && fileOffset < minEnd ==> j == (fileOffset - start) / BLOCK_SIZE
        invariant dest[..] == Splice(dest0, at, Slice(c, fileOffset0, readedLen))
      {
        var curLen := ReadTableRound(inode, table, j, fileOffset, dest, at + readedLen, len, p, t, c, fileOffset0,
                                     dest0, at);
        fileOffset := fileOffset + curLen;
        readedLen := readedLen + curLen;
        len := len - curLen;
        j := j + 1;
      }
    }

    /** One round of it: entry j of the table. */
    method ReadTableRound(inode: INode, table: array<byte>, j: nat, fileOffset: nat, dest: array<byte>, at: nat,
                          len: nat, ghost p: Slot, ghost t: Tree, ghost c: seq<byte>, ghost off: nat,
                              ghost dest0: seq<byte>,
                          ghost at0: nat)
      returns (curLen: nat)
      requires Valid() && (table == indexBlock1 || table == indexBlock2) && dest != table && dest != disk
      requires Readable(disk[..], inode.index, t, inode.size, c) && |c| == inode.size
      requires (p.Single? || p.Table?) && InTree(p) && p in t && t[p] < BLOCK_NUM && table[..] == Block(disk[..], t[p])
      requires j == fileOffset / BLOCK_SIZE - Base(p) < 64 && fileOffset < inode.size && 0 < len &&
               at + len <= dest.Length
      requires at0 <= at && off + (at - at0) == fileOffset && |dest0| == dest.Length
      requires dest[..] == Splice(dest0, at0, Slice(c, off, at - at0))
      modifies dest
      ensures 0 < curLen <= len && fileOffset + curLen <= inode.size && fileOffset % BLOCK_SIZE + curLen <= BLOCK_SIZE
      ensures || curLen == len || fileOffset + curLen == inode.size
              || (fileOffset + curLen) / BLOCK_SIZE == fileOffset / BLOCK_SIZE + 1
      ensures dest[..] == Splice(dest0, at0, Slice(c, off, at + curLen - at0))
    {
      hide Readable, Splice, Slice, ActiveSet, Block;
      ghost var k := Base(p) + j;
      var o := fileOffset % BLOCK_SIZE;
      DataChild(p, j);
      ReadPointer(disk[..], inode.index, t, inode.size, c, Data(k));
      var ramdiskOffset := WordAt(table[..], 4 * j);
      curLen := CurReadLen(len, fileOffset, inode.size);
      ReadStep(inode, dest, at, ramdiskOffset + o, curLen, k, o, off, dest0, at0, t, c);
    }

    /** One round of the outer loop of the double-indirect phase: read below second-level index block i. */
    method ReadDoubleRound(inode: INode, i: nat, fileOffset: nat, dest: array<byte>, at: nat, len: nat,
                           ghost t: Tree, ghost c: seq<byte>)
      returns (readedLen: nat)
      requires Valid() && dest != indexBlock1 && dest != indexBlock2 && dest != disk
      requires Readable(disk[..], inode.index, t, inode.size, c) && |c| == inode.size
      requires Double in t && t[Double] < BLOCK_NUM && indexBlock1[..] == Block(disk[..], t[Double])
      requires i < 64 && LEVEL_END1 + i * INDEX_ONE_SIZE <= fileOffset < LEVEL_END1 + (i + 1) * INDEX_ONE_SIZE
      requires fileOffset < inode.size && at + len <= dest.Length
      modifies dest, indexBlock2
      ensures readedLen == Clip(fileOffset, len, Min(inode.size, LEVEL_END1 + (i + 1) * INDEX_ONE_SIZE))
      ensures dest[..] == Splice(old(dest[..]), at, Slice(c, fileOffset, readedLen))
    {
      hide Readable, Splice, Slice, ActiveSet, Block;
      TableChild(i);
      ReadPointer(disk[..], inode.index, t, inode.size, c, Table(i));
      var indexOffset2 := WordAt(indexBlock1[..], 4 * i);
      LoadBlock(indexBlock2, indexOffset2);
      BlockIs(disk[..], t[Table(i)]);
      var tempEnd := LEVEL_END1 + (i + 1) * INDEX_ONE_SIZE;
      readedLen := ReadTable(inode, indexBlock2, tempEnd - INDEX_ONE_SIZE, tempEnd, fileOffset, dest, at, len, Table(i),
                             t, c);
    }

    /** The double-indirect phase of read_data. */
    method ReadDouble(inode: INode, fileOffset0: nat, dest: array<byte>, at: nat, len0: nat,
                      ghost t: Tree, ghost c: seq<byte>)
      returns (readedLen: nat)
      requires Valid() && dest != indexBlock1 && dest != indexBlock2 && dest != disk
      requires Readable(disk[..], inode.index, t, inode.size, c) && |c| == inode.size < LEVEL_END2
      requires LEVEL_END1 <= fileOffset0 < inode.size && 0 < len0 && at + len0 <= dest.Length
      modifies dest, indexBlock1, indexBlock2
      ensures readedLen == Clip(fileOffset0, len0, inode.size)
      ensures dest[..] == Splice(old(dest[..]), at, Slice(c, fileOffset0, readedLen))
    {
      hide Readable, Splice, Slice, ActiveSet, Block;
      ghost var d := disk[..];
      ReadPointer(d, inode.index, t, inode.size, c, Double);
      LoadBlock(indexBlock1, inode.index[13]);
      BlockIs(d, t[Double]);
      readedLen := 0;
      var fileOffset, len := fileOffset0, len0;
      var minEnd1 := Min(inode.size, LEVEL_END2);
      var i := (fileOffset - LEVEL_END1) / INDEX_ONE_SIZE;
      ghost var dest0 := dest[..];
      SliceNone(dest0, at, c, fileOffset0);
      while fileOffset < minEnd1 && len > 0
        invariant fileOffset == fileOffset0 + readedLen && 0 <= len && readedLen + len == len0
        invariant fileOffset <= minEnd1
        invariant len > 0 && fileOffset < minEnd1 ==> i == (fileOffset - LEVEL_END1) / INDEX_ONE_SIZE
        invariant indexBlock1[..] == Block(d, t[Double])
        invariant dest[..] == Splice(dest0, at, Slice(c, fileOffset0, readedLen))
      {
        RoundOf(fileOffset, i);
        var n := ReadDoubleRound(inode, i, fileOffset, dest, at + readedLen, len, t, c);
        SliceAppend(dest0, at, c, fileOffset0, readedLen, n);
        fileOffset := fileOffset + n;
        readedLen := readedLen + n;
        len := len - n;
        i := i + 1;
      }
    }

    /** The single-indirect phase of read_data. */
    method ReadSingle(inode: INode, fileOffset: nat, dest: array<byte>, at: nat, len: nat, ghost t: Tree,
                      ghost c: seq<byte>)
      returns (readedLen: nat)
      requires Valid() && dest != indexBlock1 && dest != disk
      requires Readable(disk[..], inode.index, t, inode.size, c) && |c| == inode.size
      requires LEVEL_END0 <= fileOffset < Min(inode.size, LEVEL_END1) && at + len <= dest.Length
      modifies dest, indexBlock1
      ensures readedLen == Clip(fileOffset, len, Min(inode.size, LEVEL_END1))
      ensures dest[..] == Splice(old(dest[..]), at, Slice(c, fileOffset, readedLen))
    {
      hide Readable, Splice, Slice, ActiveSet, Block;
      ReadPointer(disk[..], inode.index, t, inode.size, c, Single);
      LoadBlock(indexBlock1, inode.index[12]);
      BlockIs(disk[..], t[Single]);
      readedLen := ReadTable(inode, indexBlock1, LEVEL_END0, LEVEL_END1, fileOffset, dest, at, len, Single, t, c);
    }

    /** read_data: deliver the bytes of the request that lie in the file. A request that runs past the end of a
        file reaching into the double level fetches index[14] before it stops, whatever that entry holds. */
    method ReadData(inode: INode, fileOffset0: nat, dest: array<byte>, len0: int, ghost keep: set<nat>)
      returns (readedLen: nat)
      requires Valid() && dest != indexBlock1 && dest != indexBlock2 && dest != disk
      requires WellFormed(disk[..], blockBitmap[..], inode.index, inode.size, keep)
      requires len0 <= dest.Length
      requires fileOffset0 < inode.size < fileOffset0 + len0 && inode.size > LEVEL_END1 ==>
                 inode.index[14] + BLOCK_SIZE < RAMDISK_SIZE
      modifies dest, indexBlock1, indexBlock2
      ensures readedLen == Clip(fileOffset0, len0, inode.size)
      ensures dest[..] == Splice(old(dest[..]), 0,
                                 Slice(FileBytes(disk[..], inode.index, inode.size), fileOffset0, readedLen))
    {
      hide Readable, Splice, Slice, ActiveSet, Block, FileBytes, DiskTree, Layout;
      ghost var d := disk[..];
      ghost var t, c := DiskTree(d, inode.index, inode.size), FileBytes(d, inode.index, inode.size);
      StartReading(d, blockBitmap[..], inode.index, inode.size, keep);
      readedLen := 0;
      var fileOffset, len := fileOffset0, len0;
      ghost var dest0 := dest[..];
      SliceNone(dest0, 0, c, fileOffset0);
      if fileOffset < LEVEL_END0 && len > 0 {
        readedLen := ReadDirect(inode, fileOffset, dest, len, t, c);
        fileOffset, len := fileOffset + readedLen, len - readedLen;
      }
      if fileOffset >= inode.size { return; }
      var n := ReadIndexed(inode, fileOffset, dest, readedLen, len, t, c);
      SliceAppend(dest0, 0, c, fileOffset0, readedLen, n);
      readedLen := readedLen + n;
    }

    /** The levels behind index blocks. */
    method ReadIndexed(inode: INode, fileOffset0: nat, dest: array<byte>, at: nat, len0: int,
                       ghost t: Tree, ghost c: seq<byte>) returns (readedLen: nat)
      requires Valid() && dest != indexBlock1 && dest != indexBlock2 && dest != disk
      requires Readable(disk[..], inode.index, t, inode.size, c) && |c| == inode.size < LEVEL_END2
      requires |inode.index| == 15 && fileOffset0 < inode.size && (LEVEL_END0 <= fileOffset0 || len0 <= 0)
      requires at <= dest.Length && at + len0 <= dest.Length
      requires inode.size < fileOffset0 + len0 && inode.size > LEVEL_END1 ==>
               inode.index[14] + BLOCK_SIZE < RAMDISK_SIZE
      modifies dest, indexBlock1, indexBlock2
      ensures readedLen == Clip(fileOffset0, len0, inode.size)
      ensures dest[..] == Splice(old(dest[..]), at, Slice(c, fileOffset0, readedLen))
    {
      hide Readable, Splice, Slice, ActiveSet, Block;
      readedLen := 0;
      var fileOffset, len := fileOffset0, len0;
      ghost var dest0 := dest[..];
      SliceNone(dest0, at, c, fileOffset0);
      if fileOffset < LEVEL_END1 && len > 0 {
        readedLen := ReadSingle(inode, fileOffset, dest, at, len, t, c);
        fileOffset, len := fileOffset + readedLen, len - readedLen;
      }
      if fileOffset >= inode.size { return; }
      if fileOffset < LEVEL_END2 && len > 0 {
        var n := ReadDouble(inode, fileOffset, dest, at + readedLen, len, t, c);
        SliceAppend(dest0, at, c, fileOffset0, readedLen, n);
        fileOffset, readedLen, len := fileOffset + n, readedLen + n, len - n;
      }
      if fileOffset > inode.size { return; }
      if len > 0 {
        LoadBlock(indexBlock1, inode.index[14]);
        if fileOffset < inode.size {
          assert false;  // the triple-indirect level
        }
      }
    }

    /** set_block_idle. */
    method SetBlockIdle(blockAddr: nat)
      requires Valid() && BlockIndex(blockAddr) < BLOCK_NUM
      modifies blockBitmap
      ensures blockBitmap[..] == old(blockBitmap[..])[BlockIndex(blockAddr) := false]
    {
      var index := (blockAddr - BLOCK_BASE) / BLOCK_SIZE;
      blockBitmap[index] := false;
    }

    /** The innermost loop of release_block below the index block held in `table`. */
    method FreeTable(inode: INode, table: array<byte>, start: nat, levelEnd: nat, fileOffset0: nat,
                     ghost p: Slot, ghost t: Tree, ghost c: seq<byte>)
      returns (fileOffset: nat)
      requires Valid() && (table == indexBlock1 || table == indexBlock2)
      requires Readable(disk[..], inode.index, t, inode.size, c)
      requires (p.Single? || p.Table?) && InTree(p) && p in t && t[p] < BLOCK_NUM && table[..] == Block(disk[..], t[p])
      requires start == Base(p) * BLOCK_SIZE && levelEnd == start + INDEX_ONE_SIZE
      requires start <= fileOffset0 < Min(inode.size, levelEnd)
      modifies blockBitmap
      ensures Valid() && fileOffset0 < fileOffset <= levelEnd && Min(inode.size, levelEnd) <= fileOffset
      ensures Cleared(old(blockBitmap[..]), blockBitmap[..], Image(t, Gone(t, fileOffset0, fileOffset) - Above(p)))
    {
      hide Readable, ActiveSet, Block, Image, Gone, Above, Cleared, WordAt;
      fileOffset := fileOffset0;
      var minEnd := Min(inode.size, levelEnd);
      var j := (fileOffset - start) / BLOCK_SIZE;
      ghost var bm0 := blockBitmap[..];
      NothingGone(bm0, t, fileOffset0);
      assert {} - Above(p) == {};
      while fileOffset < minEnd
        invariant Valid() && fileOffset0 <= fileOffset <= levelEnd
        invariant j == (fileOffset - start) / BLOCK_SIZE
        invariant Cleared(bm0, blockBitmap[..], Image(t, Gone(t, fileOffset0, fileOffset) - Above(p)))
      {
        fileOffset := FreeTableRound(inode, table, j, fileOffset, p, t, c, fileOffset0, bm0);
        j := j + 1;
      }
    }

    /** One round of it: entry j of the table. */
    method FreeTableRound(inode: INode, table: array<byte>, j: nat, fileOffset: nat,
                          ghost p: Slot, ghost t: Tree, ghost c: seq<byte>, ghost lo: nat, ghost bm0: seq<bool>)
      returns (next: nat)
      requires Valid() && (table == indexBlock1 || table == indexBlock2)
      requires Readable(disk[..], inode.index, t, inode.size, c)
      requires (p.Single? || p.Table?) && InTree(p) && p in t && t[p] < BLOCK_NUM && table[..] == Block(disk[..], t[p])
      requires j == fileOffset / BLOCK_SIZE - Base(p) < 64 && lo <= fileOffset < inode.size
      requires Cleared(bm0, blockBitmap[..], Image(t, Gone(t, lo, fileOffset) - Above(p)))
      modifies blockBitmap
      ensures Valid() && next == (fileOffset / BLOCK_SIZE + 1) * BLOCK_SIZE
      ensures Cleared(bm0, blockBitmap[..], Image(t, Gone(t, lo, next) - Above(p)))
    {
      hide Readable, ActiveSet, Block, Image, Gone, Above, Cleared, WordAt;
      ghost var k, bm, g := Base(p) + j, blockBitmap[..], Gone(t, lo, fileOffset) - Above(p);
      var o := fileOffset % BLOCK_SIZE;
      DataChild(p, j);
      ReadPointer(disk[..], inode.index, t, inode.size, c, Data(k));
      var ramdiskOffset := WordAt(table[..], 4 * j);
      next := fileOffset;
      GoneSplit(t, lo, fileOffset, (k + 1) * BLOCK_SIZE);
      assert fileOffset == k * BLOCK_SIZE + o;
      if o == 0 {
        SetBlockIdle(ramdiskOffset);
        assert blockBitmap[..] == bm[t[Data(k)] := false];
        ClearMore(bm0, bm, t, g, Data(k));
        GoneStep(t, p, k);
        DataNotAbove(p, k);
        assert Gone(t, lo, (k + 1) * BLOCK_SIZE) - Above(p) == g + {Data(k)};
      } else {
        GoneInside(t, k, o);
        assert Gone(t, lo, (k + 1) * BLOCK_SIZE) - Above(p) == g;
        next := next - o;
      }
      next := next + BLOCK_SIZE;
    }

    /** The single-indirect phase of release_block. */
    method ReleaseSingle(inode: INode, fileOffset0: nat, ghost t: Tree, ghost c: seq<byte>) returns (fileOffset: nat)
      requires Valid() && Readable(disk[..], inode.index, t, inode.size, c)
      requires LEVEL_END0 <= fileOffset0 < Min(inode.size, LEVEL_END1)
      modifies blockBitmap, indexBlock1
      ensures Valid() && fileOffset0 < fileOffset <= LEVEL_END1 && Min(inode.size, LEVEL_END1) <= fileOffset
      ensures Cleared(old(blockBitmap[..]), blockBitmap[..], Image(t, Gone(t, fileOffset0, fileOffset)))
    {
      hide Readable, ActiveSet, Block, Image, Gone, Above, Cleared, WordAt;
      ReadPointer(disk[..], inode.index, t, inode.size, c, Single);
      var indexOffset1 := inode.index[12];
      LoadBlock(indexBlock1, indexOffset1);
      BlockIs(disk[..], t[Single]);
      ghost var bm0 := blockBitmap[..];
      if fileOffset0 == LEVEL_END0 {
        SetBlockIdle(indexOffset1);
      }
      ghost var bm1 := blockBitmap[..];
      fileOffset := FreeTable(inode, indexBlock1, LEVEL_END0, LEVEL_END1, fileOffset0, Single, t, c);
      ClearTable(bm0, bm1, blockBitmap[..], t, Single, fileOffset0, fileOffset);
      NoDoubleGone(t, fileOffset0, fileOffset);
    }

    /** One round of the outer loop of the double-indirect phase of release_block. */
    method ReleaseRound(inode: INode, i: nat, fileOffset0: nat, ghost t: Tree, ghost c: seq<byte>)
        returns (fileOffset: nat)
      requires Valid() && Readable(disk[..], inode.index, t, inode.size, c)
      requires Double in t && t[Double] < BLOCK_NUM && indexBlock1[..] == Block(disk[..], t[Double])
      requires i < 64 && LEVEL_END1 + i * INDEX_ONE_SIZE <= fileOffset0 < LEVEL_END1 + (i + 1) * INDEX_ONE_SIZE
      requires fileOffset0 < inode.size
      modifies blockBitmap, indexBlock2
      ensures Valid() && fileOffset0 < fileOffset <= LEVEL_END1 + (i + 1) * INDEX_ONE_SIZE
      ensures Min(inode.size, LEVEL_END1 + (i + 1) * INDEX_ONE_SIZE) <= fileOffset
      ensures Cleared(old(blockBitmap[..]), blockBitmap[..], Image(t, Gone(t, fileOffset0, fileOffset) - {Double}))
    {
      hide Readable, ActiveSet, Block, Image, Gone, Above, Cleared, WordAt;
      TableChild(i);
      ReadPointer(disk[..], inode.index, t, inode.size, c, Table(i));
      var indexOffset2 := WordAt(indexBlock1[..], 4 * i);
      LoadBlock(indexBlock2, indexOffset2);
      BlockIs(disk[..], t[Table(i)]);
      var tempEnd := LEVEL_END1 + (i + 1) * INDEX_ONE_SIZE;
      ghost var bm0 := blockBitmap[..];
      if fileOffset0 == tempEnd - INDEX_ONE_SIZE {
        SetBlockIdle(indexOffset2);
      }
      ghost var bm1 := blockBitmap[..];
      fileOffset := FreeTable(inode, indexBlock2, tempEnd - INDEX_ONE_SIZE, tempEnd, fileOffset0, Table(i), t, c);
      ClearTable(bm0, bm1, blockBitmap[..], t, Table(i), fileOffset0, fileOffset);
    }

    /** The double-indirect phase of release_block. */
    method ReleaseDouble(inode: INode, fileOffset0: nat, ghost t: Tree, ghost c: seq<byte>) returns (fileOffset: nat)
      requires Valid() && Readable(disk[..], inode.index, t, inode.size, c)
      requires LEVEL_END1 <= fileOffset0 < inode.size < LEVEL_END2
      modifies blockBitmap, indexBlock1, indexBlock2
      ensures Valid() && fileOffset >= inode.size
      ensures Cleared(old(blockBitmap[..]), blockBitmap[..], Image(t, Gone(t, fileOffset0, fileOffset)))
    {
      hide Readable, ActiveSet, Block, Image, Gone, Above, Cleared, WordAt;
      ReadPointer(disk[..], inode.index, t, inode.size, c, Double);
      var indexOffset1 := inode.index[13];
      LoadBlock(indexBlock1, indexOffset1);
      BlockIs(disk[..], t[Double]);
      ghost var bm0 := blockBitmap[..];
      ghost var g: set<Slot> := {};
      NothingGone(bm0, t, fileOffset0);
      fileOffset := fileOffset0;
      if fileOffset == LEVEL_END1 {
        SetBlockIdle(indexOffset1);
        ClearMore(bm0, bm0, t, g, Double);
        g := g + {Double};
      }
      ghost var top := g;
      var minEnd1 := Min(inode.size, LEVEL_END2);
      var i := (fileOffset - LEVEL_END1) / INDEX_ONE_SIZE;
      while fileOffset < minEnd1
        invariant Valid() && fileOffset0 <= fileOffset && g == top + (Gone(t, fileOffset0, fileOffset) - {Double})
        invariant fileOffset < minEnd1 ==> i < 64
        invariant fileOffset < minEnd1 ==>
                    LEVEL_END1 + i * INDEX_ONE_SIZE <= fileOffset < LEVEL_END1 + (i + 1) * INDEX_ONE_SIZE
        invariant indexBlock1[..] == Block(disk[..], t[Double])
        invariant Cleared(bm0, blockBitmap[..], Image(t, g))
      {
        ghost var bm1, prev := blockBitmap[..], fileOffset;
        fileOffset := ReleaseRound(inode, i, fileOffset, t, c);
        ghost var h := Gone(t, prev, fileOffset) - {Double};
        ClearTwice(bm0, bm1, blockBitmap[..], Image(t, g), Image(t, h));
        ImageUnion(t, g, h);
        GoneSplit(t, fileOffset0, prev, fileOffset);
        g := g + h;
        i := i + 1;
      }
      if fileOffset0 == LEVEL_END1 { DoubleGone(t, fileOffset); } else { NoDoubleGone(t, fileOffset0, fileOffset); }
      assert g == Gone(t, fileOffset0, fileOffset);
    }

    /** release_block, with its direct-range branch as it stands: an offset inside the direct blocks is moved to
        LEVEL_END0 before anything is released, and index[12] is released whatever it holds. The result is false when
        that is no block of the disk; the source then stores outside the bitmap. */
    method ReleaseBlock(inode: INode, fileOffset0: nat, ghost t: Tree, ghost c: seq<byte>) returns (ok: bool)
      requires Valid() && Readable(disk[..], inode.index, t, inode.size, c) && inode.size < LEVEL_END2
      requires |inode.index| == 15 && t.Keys == ActiveSet(inode.size)
      modifies blockBitmap, indexBlock1, indexBlock2
      ensures Valid() && ok == StaysInside(inode.index, inode.size, fileOffset0)
      ensures ok ==> Cleared(old(blockBitmap[..]), blockBitmap[..], Released(t, inode.index, inode.size, fileOffset0))
    {
      hide Readable, ActiveSet, Block, Image, Gone, Above, WordAt;
      ok := true;
      var fileOffset := fileOffset0;
      ghost var bm0, size := blockBitmap[..], inode.size;
      if fileOffset < inode.size && fileOffset < LEVEL_END0 {
        fileOffset := LEVEL_END0;
        var i := fileOffset / BLOCK_SIZE;
        if fileOffset % BLOCK_SIZE == 0 {
          if BlockIndex(inode.index[i]) >= BLOCK_NUM { return false; }
          SetBlockIdle(inode.index[i]);
        }
        fileOffset := fileOffset - fileOffset % BLOCK_SIZE + BLOCK_SIZE;
      }
      ghost var bm1, lo := blockBitmap[..], fileOffset;
      NothingGone(bm1, t, lo);
      assert Cleared(bm1, bm1, Image(t, Gone(t, lo, lo)));
      if fileOffset < inode.size && fileOffset < LEVEL_END1 {
        fileOffset := ReleaseSingle(inode, fileOffset, t, c);
      }
      ghost var bm2, mid := blockBitmap[..], fileOffset;
      if fileOffset < inode.size && fileOffset < LEVEL_END2 {
        fileOffset := ReleaseDouble(inode, fileOffset, t, c);
        ClearTwice(bm1, bm2, blockBitmap[..], Image(t, Gone(t, lo, mid)), Image(t, Gone(t, mid, fileOffset)));
        ImageUnion(t, Gone(t, lo, mid), Gone(t, mid, fileOffset));
        GoneSplit(t, lo, mid, fileOffset);
      }
      if fileOffset < inode.size {
        assert false;  // the triple-indirect level
      }
      GonePastEnd(t, lo, fileOffset, size);
      if lo >= size { GonePastEnd(t, lo, lo, size); }
    }

    /** fm_write to a plain file at an open file's offset: cut the file there, then append. A cut that is not clean
        leaks blocks or frees somebody else's; `keep` says whose the blocks were, KeepAfter whose they are. An offset
        beyond the size is taken as it is: the bytes go there, but the file grows by their number only, so its last
        ones are outside. */
    method FmWrite(inode: INode, fileOffset: nat, buf: seq<byte>, ghost keep: set<nat>)
      returns (written: nat, newOffset: nat)
      requires Valid() && WellFormed(disk[..], blockBitmap[..], inode.index, inode.size, keep)
      requires SparesOwn(inode.index, inode.size, fileOffset)
      requires fileOffset > inode.size ==> DataBlocks(fileOffset) == DataBlocks(inode.size)
      requires |KeepAfter(disk[..], inode.index, inode.size, fileOffset, keep)| +
               |ActiveSet(fileOffset + |buf|)| <= BLOCK_NUM
      modifies disk, blockBitmap, this`blockCursor, inode, indexBlock1, indexBlock2
      ensures Valid() && |inode.index| == |old(inode.index)| == 15
      ensures written == |buf| && newOffset == inode.size == Min(fileOffset, old(inode.size)) + |buf|
      ensures WellFormed(disk[..], blockBitmap[..], inode.index, inode.size, keep) <==>
              CutIsClean(old(blockBitmap[..]), old(inode.index), old(inode.size), fileOffset) &&
              DataBlocks(inode.size) == DataBlocks(fileOffset + |buf|)
      ensures FileBytes(disk[..], inode.index, inode.size) ==
              (old(FileBytes(disk[..], inode.index, fileOffset)) + buf)[..inode.size]
      ensures fileOffset <= old(inode.size) ==>
                FileBytes(disk[..], inode.index, inode.size) ==
                old(FileBytes(disk[..], inode.index, inode.size))[..fileOffset] + buf
      ensures var keep' := old(KeepAfter(disk[..], inode.index, inode.size, fileOffset, keep));
              && Framed(old(disk[..]), disk[..], keep')
              && (keep' == keep <==> CutIsClean(old(blockBitmap[..]), old(inode.index), old(inode.size), fileOffset))
              && (DataBlocks(inode.size) == DataBlocks(fileOffset + |buf|) ==>
                    WellFormed(disk[..], blockBitmap[..], inode.index, inode.size, keep'))
    {
      hide Layout, ActiveSet, FileBytes, DiskTree, Framed, CutIsClean, WellFormed, DataBlocks, KeepAfter, SparesOwn;
      ghost var d, bm0, index, size := disk[..], blockBitmap[..], inode.index, inode.size;
      Shape(d, bm0, index, size, keep);
      ghost var keep' := KeepAfter(d, index, size, fileOffset, keep);
      if fileOffset < inode.size {
        CutOff(inode, fileOffset, keep);
      } else {
        NothingCut(d, bm0, index, size, fileOffset, keep);
        if fileOffset > inode.size { TailRoom(d, bm0, index, size, fileOffset, keep); }
      }
      ghost var size1 := inode.size;
      if fileOffset <= size { Prefix(d, index, size, fileOffset); }
      Conserved(d, blockBitmap[..], index, fileOffset, keep');
      written := WriteData(inode, fileOffset, buf, keep');
      ghost var d', bm', index' := disk[..], blockBitmap[..], inode.index;
      GapExact(d', bm', index', size1, fileOffset, |buf|, keep');
      Prefix(d', index', fileOffset + |buf|, inode.size);
      newOffset := inode.size;
      Whose(d', bm', index', newOffset, keep, keep', DataBlocks(newOffset) == DataBlocks(fileOffset + |buf|));
    }

    /** The cut of fm_write. */
    method CutOff(inode: INode, off: nat, ghost keep: set<nat>)
      requires Valid() && WellFormed(disk[..], blockBitmap[..], inode.index, inode.size, keep)
      requires off < inode.size && SparesOwn(inode.index, inode.size, off)
      modifies blockBitmap, inode`size, indexBlock1, indexBlock2
      ensures Valid() && inode.size == off
      ensures var keep' := KeepAfter(disk[..], inode.index, old(inode.size), off, keep);
              && WellFormed(disk[..], blockBitmap[..], inode.index, off, keep')
              && (keep' == keep <==> CutIsClean(old(blockBitmap[..]), inode.index, old(inode.size), off))
    {
      hide WellFormed, SparesOwn, CutIsClean, KeepAfter, Cleared, Released, DiskTree, StaysInside;
      ghost var d, bm0, index, size := disk[..], blockBitmap[..], inode.index, inode.size;
      Shape(d, bm0, index, size, keep);
      SparesInside(index, size, off);
      var ok := Truncate(inode, off, keep);
      SparedCut(d, bm0, blockBitmap[..], index, size, off, keep);
      KeepExact(d, bm0, blockBitmap[..], index, size, off, keep);
    }

    /** release_block and the new size. */
    method Truncate(inode: INode, off: nat, ghost keep: set<nat>) returns (ok: bool)
      requires Valid() && WellFormed(disk[..], blockBitmap[..], inode.index, inode.size, keep) && off < inode.size
      modifies blockBitmap, inode`size, indexBlock1, indexBlock2
      ensures Valid() && inode.size == off && ok == StaysInside(inode.index, old(inode.size), off)
      ensures ok && WellFormed(disk[..], blockBitmap[..], inode.index, off, keep) <==>
              CutIsClean(old(blockBitmap[..]), inode.index, old(inode.size), off)
      ensures ok ==> Cleared(old(blockBitmap[..]), blockBitmap[..],
                             Released(DiskTree(disk[..], inode.index, old(inode.size)), inode.index, old(inode.size),
                                      off))
    {
      hide Layout, ActiveSet, FileBytes, DiskTree, Readable, Cleared, Released, CutIsClean, WellFormed, StaysInside;
      ghost var d, bm0, index, size := disk[..], blockBitmap[..], inode.index, inode.size;
      Shape(d, bm0, index, size, keep);
      ghost var t, c := DiskTree(d, index, size), FileBytes(d, index, size);
      StartReading(d, bm0, index, size, keep);
      TreeKeys(d, index, size);
      ok := ReleaseBlock(inode, off, t, c);
      inode.size := off;
      TruncationExact(d, bm0, blockBitmap[..], index, size, off, keep);
    }
  }

  /** Which second-level table an offset lies under. */
  lemma RoundOf(off: nat, i: nat)
    requires LEVEL_END1 <= off < LEVEL_END2 && i == (off - LEVEL_END1) / INDEX_ONE_SIZE
    ensures i < 64 && LEVEL_END1 + i * INDEX_ONE_SIZE <= off < LEVEL_END1 + (i + 1) * INDEX_ONE_SIZE
  {
  }

  /** A file of one byte, and two bytes written at offset 255: the second takes a block that no size of three bytes
      accounts for. */
  method GapExample(s: Store, inode: INode, a: byte, b: byte, c: byte)
    requires s.Valid() && inode.size == 0 && |inode.index| == 15
    requires s.blockBitmap[..] == seq(BLOCK_NUM, _ => false)
    modifies s.disk, s.blockBitmap, s`blockCursor, inode, s.indexBlock1, s.indexBlock2
    ensures inode.size == 3 && !WellFormed(s.disk[..], s.blockBitmap[..], inode.index, inode.size, {})
  {
    hide ActiveSet, WellFormed, FileBytes, FreeSet;
    EmptyFile(s.disk[..], s.blockBitmap[..], inode.index, 1);
    var _ := s.WriteData(inode, 0, [a], {});
    NothingCut(s.disk[..], s.blockBitmap[..], inode.index, 1, 255, {});
    SmallDemand(257);
    var _, _ := s.FmWrite(inode, 255, [b, c], {});
    assert DataBlocks(3) == 1 && DataBlocks(257) == 2;
  }

  /** A file of one byte whose inode was made with a zero in index[12]: rewriting it from the start leaves the
      bitmap. */
  method StaleIndexExample(s: Store, inode: INode, a: byte) returns (ok: bool)
    requires s.Valid() && inode.size == 0 && |inode.index| == 15 && inode.index[12] == 0
    requires s.blockBitmap[..] == seq(BLOCK_NUM, _ => false)
    modifies s.disk, s.blockBitmap, s`blockCursor, inode, s.indexBlock1, s.indexBlock2
    ensures !ok
  {
    hide ActiveSet, WellFormed, FileBytes, FreeSet;
    EmptyFile(s.disk[..], s.blockBitmap[..], inode.index, 1);
    var _ := s.WriteData(inode, 0, [a], {});
    assert inode.index[12] == inode.index[12..][0];
    ok := s.Truncate(inode, 0, {});
  }

  /** An empty file whose first pointer is zero, and a byte written at the start of the second block. */
  method PastExample(s: Store, inode: INode, a: byte)
    requires s.Valid() && inode.size == 0 && |inode.index| == 15 && inode.index[0] == 0
    requires s.blockBitmap[..] == seq(BLOCK_NUM, _ => false)
    modifies s.disk, s.blockBitmap, s`blockCursor, inode, s.indexBlock1, s.indexBlock2
    ensures inode.size == 1 && !WellFormed(s.disk[..], s.blockBitmap[..], inode.index, inode.size, {})
  {
    hide ActiveSet, WellFormed, FreeSet, Direct;
    EmptyFile(s.disk[..], s.blockBitmap[..], inode.index, BLOCK_SIZE + 1);
    EmptyTree(s.disk[..], inode.index);
    TreeKeys(s.disk[..], inode.index, 0);
    GrowDirect(BLOCK_SIZE, BLOCK_SIZE + 1);
    SubsetCard(Direct(BLOCK_SIZE, BLOCK_SIZE + 1), ActiveSet(BLOCK_SIZE + 1));
    var _ := s.WritePast(inode, BLOCK_SIZE, [a], {});
  }

  /** Cutting a file that reaches the single-indirect level inside its direct range breaks it: one byte past the
      twelve direct blocks is enough. */
  method DirectTruncationExample(s: Store, inode: INode)
    requires s.Valid() && inode.size == 0 && |inode.index| == 15
    requires s.blockBitmap[..] == seq(BLOCK_NUM, _ => false)
    modifies s.disk, s.blockBitmap, s`blockCursor, inode, s.indexBlock1, s.indexBlock2
    ensures inode.size == 0 && !WellFormed(s.disk[..], s.blockBitmap[..], inode.index, inode.size, {})
  {
    hide ActiveSet, Released, Cleared, Readable, DiskTree;
    EmptyFile(s.disk[..], s.blockBitmap[..], inode.index, LEVEL_END0 + 1);
    var zeros := seq(LEVEL_END0 + 1, _ => 0 as byte);
    var _ := s.WriteData(inode, 0, zeros, {});
    ghost var d, bm, index, size := s.disk[..], s.blockBitmap[..], inode.index, inode.size;
    StartReading(d, bm, index, size, {});
    TreeKeys(d, index, size);
    SinglePointer(d, bm, index, size, {});
    var _ := s.ReleaseBlock(inode, 0, DiskTree(d, index, size), FileBytes(d, index, size));
    inode.size := 0;
    TruncationExact(d, bm, s.blockBitmap[..], index, size, 0, {});
  }
}
