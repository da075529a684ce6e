/** Many files on one disk: each write leaves every other file alone, and over any run of writes the disk
    refines a map from file numbers to byte sequences. */
module FileSystem {
  import opened Bytes
  import opened Counting
  import opened FileLayout
  import opened FileSteps
  import opened FileRelease
  import opened FileGaps
  import opened InodeTable
  import FileManager

  /** The ramdisk image, the block bitmap and the inodes of the existing files. */
  datatype FsState = FsState(disk: seq<byte>, bitmap: seq<bool>, files: map<nat, Inode>)

  ghost function Owned(d: seq<byte>, ino: Inode): set<nat>
    requires |ino.index| == 15
  {
    DiskTree(d, ino.index, ino.size).Values
  }

  /** The marked blocks that are not this file's. */
  ghost function Others(d: seq<byte>, bm: seq<bool>, ino: Inode): set<nat>
    requires |ino.index| == 15
  {
    (set b: nat | b < |bm| && bm[b]) - Owned(d, ino)
  }

  ghost predicate Sound(st: FsState, i: nat)
    requires i in st.files
  {
    var f := st.files[i];
    |f.index| == 15 && WellFormed(st.disk, st.bitmap, f.index, f.size, Others(st.disk, st.bitmap, f))
  }

  /** Every file is well-formed, no two files share a block, and every marked block belongs to a file. */
  ghost predicate Consistent(st: FsState) {
    && (forall i :: i in st.files ==> Sound(st, i))
    && (forall i, j :: i in st.files && j in st.files && i != j ==>
          Owned(st.disk, st.files[i]) !! Owned(st.disk, st.files[j]))
    && (forall b :: 0 <= b < |st.bitmap| && st.bitmap[b] ==>
          exists i :: i in st.files && b in Owned(st.disk, st.files[i]))
  }

  ghost function ContentOf(st: FsState, i: nat): seq<byte>
    requires i in st.files && |st.files[i].index| == 15
  {
    FileBytes(st.disk, st.files[i].index, st.files[i].size)
  }

  /** The abstract file system: what is in each file. */
  ghost function Abstract(st: FsState): map<nat, seq<byte>>
    requires Consistent(st)
  {
    map i | i in st.files :: assert Sound(st, i); ContentOf(st, i)
  }

  /** A write of `buf` to file i at offset `off`. */
  datatype Write = Write(i: nat, off: nat, buf: seq<byte>)

  /** Every block of `keep` holds what it held. */
  ghost predicate Kept(d: seq<byte>, d': seq<byte>, keep: set<nat>) {
    |d| == |d'| == RAMDISK_SIZE && forall b :: b in keep && b < BLOCK_NUM ==> Block(d', b) == Block(d, b)
  }

  lemma FramedKept(d: seq<byte>, d': seq<byte>, keep: set<nat>)
    requires Framed(d, d', keep)
    ensures Kept(d, d', keep)
  {
  }

  /** File i now holds c, and the blocks of the others have not been touched. */
  ghost predicate Rewrote(st: FsState, st': FsState, i: nat, c: seq<byte>) {
    && i in st.files && st'.files.Keys == st.files.Keys
    && (forall j :: j in st.files && j != i ==> st'.files[j] == st.files[j])
    && var f, f' := st.files[i], st'.files[i];
    && |f.index| == 15 && |f'.index| == 15
    && var keep := Others(st.disk, st.bitmap, f);
    && WellFormed(st'.disk, st'.bitmap, f'.index, f'.size, keep)
    && Kept(st.disk, st'.disk, keep)
    && FileBytes(st'.disk, f'.index, f'.size) == c
  }

  /** What fm_write guarantees of the state after the write. */
  ghost predicate Wrote(st: FsState, st': FsState, w: Write) {
    && w.i in st.files && |st.files[w.i].index| == 15 && w.off <= st.files[w.i].size
    && Rewrote(st, st', w.i, ContentOf(st, w.i)[..w.off] + w.buf)
  }

  /** A file whose blocks are untouched keeps its tree and its bytes. */
  lemma Untouched(d: seq<byte>, d': seq<byte>, bm: seq<bool>, g: Inode, keep: set<nat>, own: set<nat>)
    requires |g.index| == 15 && WellFormed(d, bm, g.index, g.size, keep)
    requires Kept(d, d', own) && Owned(d, g) <= own
    ensures DiskTree(d', g.index, g.size) == DiskTree(d, g.index, g.size)
    ensures FileBytes(d', g.index, g.size) == FileBytes(d, g.index, g.size)
    ensures Points(d', g.index, DiskTree(d, g.index, g.size))
  {
    var t := DiskTree(d, g.index, g.size);
    hide Block, WordAt, ActiveSet, DiskTree, FileBytes, Content;
    TreeKeys(d, g.index, g.size);
    NoTripleLevel(d, bm, g.index, t, keep, g.size);
    assert forall s :: s in t ==> t[s] in t.Values && Block(d', t[s]) == Block(d, t[s]);
    PointsStable(d, d', g.index, t);
    assert Layout(d', bm, g.index, t, keep);
    TreeOnDisk(d, bm, g.index, t, keep, g.size);
    TreeOnDisk(d', bm, g.index, t, keep, g.size);
    ContentStable(d, d', t, t, g.size);
  }

  /** A file that owns its marked blocks is well-formed with everybody else's blocks as `keep`. */
  lemma SoundAgain(d: seq<byte>, bm: seq<bool>, g: Inode)
    requires |d| == RAMDISK_SIZE && |bm| == BLOCK_NUM && |g.index| == 15
    requires var t := DiskTree(d, g.index, g.size);
             Closed(t) && Injective(t) && Points(d, g.index, t) && forall s :: s in t ==> bm[t[s]]
    ensures WellFormed(d, bm, g.index, g.size, Others(d, bm, g))
  {
    hide DiskTree, Points, Injective;
    var t := DiskTree(d, g.index, g.size);
    assert forall s :: s in t ==> t[s] in t.Values;
    assert forall b :: b in t.Values ==> exists s :: s in t && t[s] == b;
  }

  lemma OwnedMarked(st: FsState, i: nat, b: nat)
    requires i in st.files && Sound(st, i) && b in Owned(st.disk, st.files[i])
    ensures b < |st.bitmap| && st.bitmap[b]
  {
    hide DiskTree, Points, Injective;
  }

  /** After a write, the marked blocks are the others' and the written file's new ones. */
  lemma WrittenFile(st: FsState, st': FsState, i: nat, c: seq<byte>)
    requires Rewrote(st, st', i, c)
    ensures var keep := Others(st.disk, st.bitmap, st.files[i]);
            && Others(st'.disk, st'.bitmap, st'.files[i]) == keep
            && Owned(st'.disk, st'.files[i]) !! keep
            && |st'.bitmap| == BLOCK_NUM && |st'.disk| == RAMDISK_SIZE
            && (forall b :: 0 <= b < BLOCK_NUM ==>
                  (st'.bitmap[b] <==> b in keep || b in Owned(st'.disk, st'.files[i])))
    ensures Sound(st', i)
  {
    hide DiskTree, Points, Injective, FileBytes, Kept;
    var keep := Others(st.disk, st.bitmap, st.files[i]);
    assert Others(st'.disk, st'.bitmap, st'.files[i]) == keep;
  }

  /** The other files keep their blocks, their bytes and their well-formedness. */
  lemma OtherFile(st: FsState, st': FsState, i: nat, c: seq<byte>, j: nat)
    requires Consistent(st) && Rewrote(st, st', i, c) && j in st.files && j != i
    ensures Sound(st, j) && Sound(st', j)
    ensures Owned(st'.disk, st'.files[j]) == Owned(st.disk, st.files[j])
    ensures Owned(st.disk, st.files[j]) <= Others(st.disk, st.bitmap, st.files[i])
    ensures ContentOf(st', j) == ContentOf(st, j)
  {
    hide DiskTree, Points, FileBytes, Kept, Marks, Injective, Closed;
    var g := st.files[j];
    var keep := Others(st.disk, st.bitmap, st.files[i]);
    assert Sound(st, j);
    assert Owned(st.disk, st.files[i]) !! Owned(st.disk, g);
    forall b | b in Owned(st.disk, g) ensures b in keep { OwnedMarked(st, j, b); }
    Untouched(st.disk, st'.disk, st.bitmap, g, Others(st.disk, st.bitmap, g), keep);
    WrittenFile(st, st', i, c);
    TreeMarked(st.disk, st'.bitmap, g, keep);
    SoundAgain(st'.disk, st'.bitmap, g);
  }

  lemma TreeMarked(d: seq<byte>, bm: seq<bool>, g: Inode, keep: set<nat>)
    requires |g.index| == 15 && Owned(d, g) <= keep && forall b :: b in keep ==> b < |bm| && bm[b]
    ensures forall s :: s in DiskTree(d, g.index, g.size) ==>
              DiskTree(d, g.index, g.size)[s] < |bm| && bm[DiskTree(d, g.index, g.size)[s]]
  {
    hide DiskTree;
    var t := DiskTree(d, g.index, g.size);
    assert forall s :: s in t ==> t[s] in t.Values;
  }

  /** The effect of a write on the abstract file system. */
  ghost function Apply(fs: map<nat, seq<byte>>, w: Write): map<nat, seq<byte>>
    requires w.i in fs && w.off <= |fs[w.i]|
  {
    fs[w.i := fs[w.i][..w.off] + w.buf]
  }

  /** One file rewritten: consistency is kept, and exactly one abstract file changes. */
  lemma RewriteStep(st: FsState, st': FsState, i: nat, c: seq<byte>)
    requires Consistent(st) && Rewrote(st, st', i, c)
    ensures Consistent(st')
    ensures i in Abstract(st) && Abstract(st') == Abstract(st)[i := c]
  {
    hide FileBytes, Kept, WellFormed, Owned, Others;
    WrittenFile(st, st', i, c);
    assert Sound(st, i);
    forall j | j in st.files && j != i
      ensures Sound(st', j) && Sound(st, j) && ContentOf(st', j) == ContentOf(st, j)
      ensures Owned(st'.disk, st'.files[j]) == Owned(st.disk, st.files[j])
      ensures Owned(st.disk, st.files[j]) <= Others(st.disk, st.bitmap, st.files[i])
    {
      OtherFile(st, st', i, c, j);
    }
    forall b | 0 <= b < |st'.bitmap| && st'.bitmap[b]
      ensures exists j :: j in st'.files && b in Owned(st'.disk, st'.files[j])
    {
      Covered(st, st', i, c, b);
    }
  }

  /** One write. */
  lemma WriteStep(st: FsState, st': FsState, w: Write)
    requires Consistent(st) && Wrote(st, st', w)
    ensures Consistent(st')
    ensures w.i in Abstract(st) && w.off <= |Abstract(st)[w.i]| && Abstract(st') == Apply(Abstract(st), w)
  {
    hide Rewrote, FileBytes, Sound;
    RewriteStep(st, st', w.i, ContentOf(st, w.i)[..w.off] + w.buf);
  }

  lemma Covered(st: FsState, st': FsState, i: nat, c: seq<byte>, b: nat)
    requires Consistent(st) && Rewrote(st, st', i, c) && b < |st'.bitmap| && st'.bitmap[b]
    ensures exists j :: j in st'.files && b in Owned(st'.disk, st'.files[j])
  {
    WrittenFile(st, st', i, c);
    hide FileBytes, Kept, WellFormed, Owned;
    if b !in Owned(st'.disk, st'.files[i]) {
      assert b < |st.bitmap| && st.bitmap[b] && b !in Owned(st.disk, st.files[i]);
      var j :| j in st.files && b in Owned(st.disk, st.files[j]);
      OtherFile(st, st', i, c, j);
      assert j in st'.files && b in Owned(st'.disk, st'.files[j]);
    }
  }

  // New files.

  lemma EmptyOwns(d: seq<byte>, index: seq<nat>)
    requires |index| == 15
    ensures Owned(d, Inode(0, index)) == {} && FileBytes(d, index, 0) == []
  {
    EmptyTree(d, index);
  }

  lemma EmptySound(st: FsState, i: nat, index: seq<nat>)
    requires |st.disk| == RAMDISK_SIZE && |st.bitmap| == BLOCK_NUM && i in st.files && |index| == 15
    requires st.files[i] == Inode(0, index)
    ensures Sound(st, i) && Owned(st.disk, st.files[i]) == {} && ContentOf(st, i) == []
  {
    EmptyOwns(st.disk, index);
    EmptyTree(st.disk, index);
    SoundAgain(st.disk, st.bitmap, Inode(0, index));
    hide Others, WellFormed, FileBytes, DiskTree;
  }

  lemma NewFileCovers(st: FsState, st': FsState, i: nat, f: Inode, b: nat)
    requires Consistent(st) && i !in st.files && st' == st.(files := st.files[i := f]) && |f.index| == 15
    requires b < |st.bitmap| && st.bitmap[b]
    ensures exists j :: j in st'.files && |st'.files[j].index| == 15 && b in Owned(st'.disk, st'.files[j])
  {
    hide Owned;
    var j :| j in st.files && b in Owned(st.disk, st.files[j]);
    assert Sound(st, j);
    assert j in st'.files && st'.files[j] == st.files[j];
  }

  /** Every block holds what it held; what lies below the blocks may differ. */
  ghost predicate SameContents(d: seq<byte>, d': seq<byte>) {
    |d| == |d'| == RAMDISK_SIZE && forall b :: 0 <= b < BLOCK_NUM ==> Block(d', b) == Block(d, b)
  }

  /** No file depends on what lies below the blocks. */
  lemma OnlyBlocks(st: FsState, d': seq<byte>)
    requires Consistent(st) && SameContents(st.disk, d')
    ensures Consistent(st.(disk := d')) && Abstract(st.(disk := d')) == Abstract(st)
  {
    hide DiskTree, FileBytes, WellFormed, SameContents, Others;
    forall i | i in st.files
      ensures Sound(st, i) && Sound(st.(disk := d'), i) && Owned(d', st.files[i]) == Owned(st.disk, st.files[i])
      ensures ContentOf(st.(disk := d'), i) == ContentOf(st, i)
    {
      BlocksOfFile(st, d', i);
    }
    hide Owned, Sound;
  }

  lemma SameFileBlocks(d: seq<byte>, d': seq<byte>, bm: seq<bool>, g: Inode, keep: set<nat>)
    requires |g.index| == 15 && WellFormed(d, bm, g.index, g.size, keep) && SameContents(d, d')
    ensures WellFormed(d', bm, g.index, g.size, keep)
    ensures FileBytes(d', g.index, g.size) == FileBytes(d, g.index, g.size)
  {
    hide DiskTree, FileBytes, Points, Block;
    Untouched(d, d', bm, g, keep, Owned(d, g));
  }

  lemma BlocksOfFile(st: FsState, d': seq<byte>, i: nat)
    requires Consistent(st) && SameContents(st.disk, d') && i in st.files
    ensures Sound(st, i) && Sound(st.(disk := d'), i) && Owned(d', st.files[i]) == Owned(st.disk, st.files[i])
    ensures ContentOf(st.(disk := d'), i) == ContentOf(st, i)
  {
    hide DiskTree, FileBytes, Points;
    assert Sound(st, i);
    var g := st.files[i];
    Untouched(st.disk, d', st.bitmap, g, Others(st.disk, st.bitmap, g), Owned(st.disk, g));
    forall b | b in Owned(st.disk, g) ensures b < |st.bitmap| && st.bitmap[b] { OwnedMarked(st, i, b); }
    TreeMarked(d', st.bitmap, g, Owned(d', g));
    SoundAgain(d', st.bitmap, g);
  }

  /** An empty file more: nobody's blocks change. */
  lemma NewFile(st: FsState, st': FsState, i: nat, index: seq<nat>)
    requires Consistent(st) && Did(st, st', New(i, index))
    ensures Consistent(st') && Abstract(st') == Abstract(st)[i := []]
  {
    hide Consistent, Abstract, SameContents;
    var st1 := st.(files := st.files[i := Inode(0, index)]);
    FilesOnly(st, i, index);
    OnlyBlocks(st1, st'.disk);
    assert st' == st1.(disk := st'.disk);
  }

  lemma FilesOnly(st: FsState, i: nat, index: seq<nat>)
    requires Consistent(st) && |st.disk| == RAMDISK_SIZE && |st.bitmap| == BLOCK_NUM && i !in st.files && |index| == 15
    ensures var st' := st.(files := st.files[i := Inode(0, index)]);
            Consistent(st') && Abstract(st') == Abstract(st)[i := []]
  {
    var st' := st.(files := st.files[i := Inode(0, index)]);
    EmptySound(st', i, index);
    NewFileConsistent(st, st', i, index);
    hide Consistent, Sound, Owned, FileBytes, Abstract;
    var a, a' := Abstract(st), Abstract(st');
    AbstractKeys(st);
    AbstractKeys(st');
    forall j | j in a' ensures a'[j] == a[i := []][j] {
      AbstractFile(st', j);
      if j != i { AbstractFile(st, j); }
    }
  }

  lemma AbstractKeys(st: FsState)
    requires Consistent(st)
    ensures Abstract(st).Keys == st.files.Keys
  {
    hide Sound;
  }

  lemma AbstractFile(st: FsState, d: nat)
    requires Consistent(st) && d in Abstract(st)
    ensures d in st.files && |st.files[d].index| == 15 && |Abstract(st)[d]| == st.files[d].size
    ensures Abstract(st)[d] == ContentOf(st, d)
  {
    assert Sound(st, d);
  }

  lemma NewFileConsistent(st: FsState, st': FsState, i: nat, index: seq<nat>)
    requires Consistent(st) && i !in st.files && |index| == 15 && st' == st.(files := st.files[i := Inode(0, index)])
    requires Sound(st', i) && Owned(st.disk, Inode(0, index)) == {}
    ensures Consistent(st')
  {
    hide Owned, WellFormed;
    forall j | j in st'.files ensures Sound(st', j) { if j != i { assert Sound(st, j); } }
    hide Sound;
    forall b | 0 <= b < |st.bitmap| && st.bitmap[b]
      ensures exists j :: j in st'.files && b in Owned(st'.disk, st'.files[j])
    {
      NewFileCovers(st, st', i, Inode(0, index), b);
    }
  }

  lemma FileSound(st: FsState, i: nat)
    requires Consistent(st) && i in st.files
    ensures |st.files[i].index| == 15
    ensures WellFormed(st.disk, st.bitmap, st.files[i].index, st.files[i].size, Others(st.disk, st.bitmap, st.files[i]))
  {
    assert Sound(st, i);
  }

  // Whole runs.

  /** What happens to a disk: a write to a file; a write beyond its end, over a gap that shows what the block held; or a
      new empty inode whose pointers hold anything. */
  datatype Change = Put(w: Write) | Past(w: Write, gap: seq<byte>) | New(i: nat, index: seq<nat>)

  /** What a file holds after a write beyond its end: it has grown by the bytes written, so the last are outside. */
  function PastEnd(c: seq<byte>, gap: seq<byte>, buf: seq<byte>): seq<byte> { (c + gap + buf)[..|c| + |buf|] }

  ghost predicate Did(st: FsState, st': FsState, c: Change) {
    match c
    case Put(w) => Wrote(st, st', w)
    case Past(w, gap) =>
      && w.i in st.files && |st.files[w.i].index| == 15 && w.off == st.files[w.i].size + |gap| && gap != []
      && Rewrote(st, st', w.i, PastEnd(ContentOf(st, w.i), gap, w.buf))
    case New(i, index) =>
      && |st.disk| == RAMDISK_SIZE && |st.bitmap| == BLOCK_NUM && |index| == 15 && i !in st.files
      && st' == FsState(st'.disk, st.bitmap, st.files[i := Inode(0, index)]) && SameContents(st.disk, st'.disk)
  }

  ghost predicate Allowed(fs: map<nat, seq<byte>>, c: Change) {
    match c
    case Put(w) => w.i in fs && w.off <= |fs[w.i]|
    case Past(w, gap) => w.i in fs && w.off == |fs[w.i]| + |gap| && gap != []
    case New(i, _) => i !in fs
  }

  ghost function Changed(fs: map<nat, seq<byte>>, c: Change): map<nat, seq<byte>>
    requires Allowed(fs, c)
  {
    match c
    case Put(w) => Apply(fs, w)
    case Past(w, gap) => fs[w.i := PastEnd(fs[w.i], gap, w.buf)]
    case New(i, _) => fs[i := []]
  }

  lemma ChangeStep(st: FsState, st': FsState, c: Change)
    requires Consistent(st) && Did(st, st', c)
    ensures Consistent(st') && Allowed(Abstract(st), c) && Abstract(st') == Changed(Abstract(st), c)
  {
    hide Consistent, Abstract, Wrote, Rewrote, Apply, PastEnd;
    match c
    case Put(w) => WriteStep(st, st', w);
    case Past(w, gap) =>
      RewriteStep(st, st', w.i, PastEnd(ContentOf(st, w.i), gap, w.buf));
      AbstractFile(st, w.i);
    case New(i, index) => AbstractKeys(st); NewFile(st, st', i, index);
  }

  /** A run: states[k] is followed by states[k + 1] through the k-th change. */
  ghost predicate Run(states: seq<FsState>, cs: seq<Change>) {
    |states| == |cs| + 1 && forall k :: 0 <= k < |cs| ==> Did(states[k], states[k + 1], cs[k])
  }

  ghost predicate AllAllowed(fs: map<nat, seq<byte>>, cs: seq<Change>)
    decreases |cs|
  {
    cs == [] || (Allowed(fs, cs[0]) && AllAllowed(Changed(fs, cs[0]), cs[1..]))
  }

  ghost function AllChanged(fs: map<nat, seq<byte>>, cs: seq<Change>): map<nat, seq<byte>>
    requires AllAllowed(fs, cs)
    decreases |cs|
  {
    if cs == [] then fs else AllChanged(Changed(fs, cs[0]), cs[1..])
  }

  /** Over every run of writes to any files, beyond their end or not, and of new files, the disk stays consistent and
      refines the abstract file system. */
  lemma {:induction false} RunRefines(states: seq<FsState>, cs: seq<Change>)
    requires Run(states, cs) && Consistent(states[0])
    ensures Consistent(states[|cs|])
    ensures AllAllowed(Abstract(states[0]), cs) && Abstract(states[|cs|]) == AllChanged(Abstract(states[0]), cs)
    decreases |cs|
  {
    hide Did, Consistent, Abstract, Changed, Allowed;
    if cs != [] {
      assert Did(states[0], states[1], cs[0]);
      ChangeStep(states[0], states[1], cs[0]);
      var rest := states[1..];
      forall k | 0 <= k < |cs[1..]| ensures Did(rest[k], rest[k + 1], cs[1..][k]) {
        assert Did(states[k + 1], states[k + 2], cs[k + 1]);
      }
      RunRefines(rest, cs[1..]);
    }
  }

  /** fm_write on one file of a consistent file system is one abstract write; beyond the end of the file it is one as
      long as the file's new size and the end of the bytes written need the same blocks. */
  method WriteFile(s: FileManager.Store, inode: FileManager.INode, i: nat, off: nat, buf: seq<byte>,
                   ghost files: map<nat, Inode>)
    returns (written: nat, newOffset: nat, ghost files': map<nat, Inode>, ghost change: Change)
    requires s.Valid() && Consistent(FsState(s.disk[..], s.blockBitmap[..], files))
    requires i in files && files[i] == Inode(inode.size, inode.index)
    requires |inode.index| == 15 && CutIsClean(s.blockBitmap[..], inode.index, inode.size, off)
    requires off > inode.size ==>
               DataBlocks(off) == DataBlocks(inode.size) && DataBlocks(off + |buf|) == DataBlocks(inode.size + |buf|)
    requires |FreeSet(s.blockBitmap[..])| + |ActiveSet(inode.size)| >= |ActiveSet(off + |buf|)|
    modifies s.disk, s.blockBitmap, s`blockCursor, inode, s.indexBlock1, s.indexBlock2
    ensures s.Valid() && Consistent(FsState(s.disk[..], s.blockBitmap[..], files'))
    ensures i in files' && files'[i] == Inode(inode.size, inode.index)
    ensures written == |buf| && newOffset == (if off <= old(inode.size) then off else old(inode.size)) + |buf|
    ensures if off <= old(inode.size) then change == Put(Write(i, off, buf))
            else change.Past? && change.w == Write(i, off, buf)
    ensures var fs := old(Abstract(FsState(s.disk[..], s.blockBitmap[..], files)));
            Allowed(fs, change) && Abstract(FsState(s.disk[..], s.blockBitmap[..], files')) == Changed(fs, change)
  {
    hide DiskTree, FileBytes, Framed, Kept, WellFormed, CutIsClean, ActiveSet, FreeSet, Abstract, Others, DataBlocks,
      Changed, Allowed;
    ghost var st := FsState(s.disk[..], s.blockBitmap[..], files);
    FileSound(st, i);
    ghost var keep := Others(st.disk, st.bitmap, st.files[i]);
    CleanKeeps(st.disk, st.bitmap, inode.index, inode.size, off, keep);
    Conserved(st.disk, st.bitmap, inode.index, inode.size, keep);
    change := if off <= inode.size then Put(Write(i, off, buf))
              else Past(Write(i, off, buf), FileBytes(st.disk, inode.index, off)[inode.size..]);
    if off > inode.size { Prefix(st.disk, inode.index, off, inode.size); }
    written, newOffset := s.FmWrite(inode, off, buf, keep);
    files' := files[i := Inode(inode.size, inode.index)];
    FramedKept(st.disk, s.disk[..], keep);
    ChangeStep(st, FsState(s.disk[..], s.blockBitmap[..], files'), change);
  }

  /** read_data on one file of a consistent file system delivers a slice of the abstract file. */
  method ReadFile(s: FileManager.Store, inode: FileManager.INode, i: nat, off: nat, dest: array<byte>, len: int,
                  ghost files: map<nat, Inode>)
    returns (n: nat)
    requires s.Valid() && Consistent(FsState(s.disk[..], s.blockBitmap[..], files))
    requires i in files && files[i] == Inode(inode.size, inode.index)
    requires dest != s.indexBlock1 && dest != s.indexBlock2 && dest != s.disk && len <= dest.Length
    requires |inode.index| == 15
    requires off < inode.size < off + len && inode.size > LEVEL_END1 ==> inode.index[14] + BLOCK_SIZE < RAMDISK_SIZE
    modifies dest, s.indexBlock1, s.indexBlock2
    ensures var c := Abstract(FsState(s.disk[..], s.blockBitmap[..], files))[i];
            && n == (if len <= 0 || off >= |c| then 0 else if len < |c| - off then len else |c| - off)
            && dest[..n] == Slice(c, off, n) && dest[n..] == old(dest[..])[n..]
  {
    hide DiskTree, FileBytes, WellFormed, ActiveSet, Others;
    ghost var st := FsState(s.disk[..], s.blockBitmap[..], files);
    assert Sound(st, i);
    n := s.ReadData(inode, off, dest, len, Others(st.disk, st.bitmap, st.files[i]));
  }
}
