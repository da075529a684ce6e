/** read_dir_entry, add_inode_into_dir and _create_dir over the storage operations. */
module Directories {
  import opened Wrappers
  import opened Bytes
  import opened Counting
  import opened FileLayout
  import opened FileSteps
  import opened FileRelease
  import opened InodeTable
  import opened FileSystem
  import opened DirEntries

  const SLASH: byte := 47

  /** The files whose inodes are in use. */
  ghost function Files(inodes: seq<Inode>, used: seq<bool>): map<nat, Inode>
    requires |inodes| == |used| == INODE_NUM
  {
    map i: nat | i < INODE_NUM && used[i] :: inodes[i]
  }

  // Paths.

  function SlashAt(p: seq<byte>): (i: nat)
    ensures i <= |p| && (i < |p| ==> p[i] == SLASH) && forall k :: 0 <= k < i ==> p[k] != SLASH
  {
    if p == [] || p[0] == SLASH then 0 else 1 + SlashAt(p[1..])
  }

  function Components(p: seq<byte>): (names: seq<Name>)
    ensures |names| > 0
    decreases |p|
  {
    var i := SlashAt(p);
    if i == |p| then [p] else [p[..i]] + Components(p[i + 1..])
  }

  function Joined(names: seq<Name>): seq<byte> {
    if |names| == 0 then [] else if |names| == 1 then names[0] else names[0] + ['/' as int as byte] + Joined(names[1..])
  }

  /** The components are the path cut at its slashes, every one of them. */
  lemma {:induction false} ComponentsCut(p: seq<byte>)
    ensures Joined(Components(p)) == p
    ensures forall k :: 0 <= k < |Components(p)| ==> '/' as int as byte !in Components(p)[k]
    decreases |p|
  {
    var i := SlashAt(p);
    if i < |p| {
      ComponentsCut(p[i + 1..]);
      assert p == p[..i] + [p[i]] + p[i + 1..];
      assert Components(p)[1..] == Components(p[i + 1..]);
    }
  }

  /** Entry j is there, and is not called n. */
  predicate Miss(c: seq<byte>, j: nat, n: Name)
    requires |n| < NAME_SZ
  {
    ENTRY * j + ENTRY <= |c| && !Matches(Entry(c, j), n)
  }

  lemma {:induction false} SkipMisses(c: seq<byte>, k: nat, k': nat, n: Name)
    requires |n| < NAME_SZ && k <= k' && forall j :: k <= j < k' ==> Miss(c, j, n)
    ensures Find(c, k, n) == Find(c, k', n)
    decreases k' - k
  {
    if k < k' {
      assert Miss(c, k, n);
      SkipMisses(c, k + 1, k', n);
    }
  }

  /** Nothing is found in a front part all of whose entries were misses. */
  lemma {:induction false} PrefixMisses(c: seq<byte>, m: nat, k: nat, n: Name)
    requires |n| < NAME_SZ && m <= |c| && forall j :: k <= j && ENTRY * j + ENTRY <= m ==> Miss(c, j, n)
    ensures Find(c[..m], k, n) == None
    decreases m - ENTRY * k
  {
    if ENTRY * k + ENTRY <= m {
      assert Miss(c, k, n);
      SameEntry(c[..m], c, k);
      PrefixMisses(c, m, k + 1, n);
    }
  }

  /** The inner loop of read_dir_entry: the entries in the buffer, the first of which is the directory's k-th. */
  method ScanBuffer(buf: array<byte>, readedLen: nat, name: Name, ghost c: seq<byte>, ghost k: nat)
      returns (r: Option<nat>)
    requires readedLen <= buf.Length && readedLen % ENTRY == 0 && |name| < NAME_SZ
    requires ENTRY * k + readedLen <= |c| && buf[..readedLen] == c[ENTRY * k..ENTRY * k + readedLen]
    ensures r.Some? ==> r == Find(c, k, name)
    ensures r.None? ==> forall j :: k <= j < k + readedLen / ENTRY ==> Miss(c, j, name)
  {
    hide Find, Matches, IndexIn;
    var p: nat, rest: nat := 0, readedLen;
    ghost var j: nat := 0;
    while rest > 0
      invariant p == ENTRY * j && p + rest == readedLen && rest % ENTRY == 0
      invariant forall x :: k <= x < k + j ==> Miss(c, x, name)
    {
      var e := buf[p..p + ENTRY];
      BufferEntry(c, buf[..readedLen], k, j);
      ghost var front := buf[..readedLen];
      forall x | 0 <= x < ENTRY ensures e[x] == front[p..p + ENTRY][x] { assert front[p + x] == buf[p + x]; }
      assert e == front[p..p + ENTRY];
      if Matches(e, name) {
        SkipMisses(c, k, k + j, name);
        FoundHere(c, k + j, name);
        return Some(IndexIn(e));
      }
      p, rest, j := p + ENTRY, rest - ENTRY, j + 1;
    }
    assert j == readedLen / ENTRY;
    r := None;
  }

  lemma FoundHere(c: seq<byte>, k: nat, n: Name)
    requires |n| < NAME_SZ && ENTRY * k + ENTRY <= |c| && Matches(Entry(c, k), n)
    ensures Find(c, k, n) == Some(IndexIn(Entry(c, k)))
  {
  }

  lemma BufferEntry(c: seq<byte>, b: seq<byte>, k: nat, j: nat)
    requires ENTRY * k + |b| <= |c| && b == c[ENTRY * k..ENTRY * k + |b|] && ENTRY * j + ENTRY <= |b|
    ensures ENTRY * (k + j) + ENTRY <= |c| && Entry(c, k + j) == b[ENTRY * j..ENTRY * j + ENTRY]
  {
    var x, y := Entry(c, k + j), b[ENTRY * j..ENTRY * j + ENTRY];
    forall i | 0 <= i < ENTRY ensures x[i] == y[i] { assert b[ENTRY * j + i] == c[ENTRY * k + (ENTRY * j + i)]; }
  }

  class Catalog {
    const store: FileManager.Store
    const inodeBitmap: array<bool>
    var inodeCursor: nat
    const blockBuf: array<byte>

    constructor (store: FileManager.Store, inodeBitmap: array<bool>)
      requires store.Valid() && inodeBitmap.Length == INODE_NUM && inodeBitmap != store.blockBitmap
      requires Consistent(FsState(store.disk[..], store.blockBitmap[..],
                                  Files(Inodes(store.disk[..]), inodeBitmap[..])))
      ensures Valid() && this.store == store && this.inodeBitmap == inodeBitmap
    {
      this.store, this.inodeBitmap := store, inodeBitmap;
      inodeCursor := 0;
      blockBuf := new byte[BLOCK_SIZE];
    }

    ghost predicate Shapes()
      reads this, store
    {
      && store.Valid() && inodeBitmap.Length == INODE_NUM && blockBuf.Length == BLOCK_SIZE
      && blockBuf != store.indexBlock1 && blockBuf != store.indexBlock2 && blockBuf != store.disk
      && inodeBitmap != store.blockBitmap && inodeCursor < INODE_NUM
    }

    ghost function State(): FsState
      requires Shapes()
      reads this, store, store.disk, store.blockBitmap, inodeBitmap
    {
      FsState(store.disk[..], store.blockBitmap[..], Files(Inodes(store.disk[..]), inodeBitmap[..]))
    }

    ghost predicate Valid()
      reads this, store, store.disk, store.blockBitmap, inodeBitmap
    {
      Shapes() && Consistent(State())
    }

    /** read_inode_from_disk: the inode and its type, device and link count. */
    method ReadInode(i: nat) returns (inode: FileManager.INode, meta: Meta)
      requires Shapes() && i < INODE_NUM
      ensures fresh(inode) && Inode(inode.size, inode.index) == Inodes(store.disk[..])[i]
      ensures Storable(Inode(inode.size, inode.index)) && meta == Metas(store.disk[..])[i]
      ensures StoredAt(store.disk[..], InodeAddr(i), Inode(inode.size, inode.index), meta)
    {
      TablesAt(store.disk[..], i);
      var a := InodeAddr(i);
      var b := store.disk[a..a + INODE_SIZE];
      var ino := Decode(b);
      inode := new FileManager.INode(ino.size, ino.index);
      meta := MetaOf(b);
    }

    /** write_inode_to_disk */
    method WriteInode(i: nat, ino: Inode, meta: Meta)
      requires Shapes() && i < INODE_NUM && Storable(ino)
      modifies store.disk
      ensures Inodes(store.disk[..]) == Inodes(old(store.disk[..]))[i := ino]
      ensures Metas(store.disk[..]) == Metas(old(store.disk[..]))[i := meta]
      ensures StoredAt(store.disk[..], InodeAddr(i), ino, meta)
      ensures SameContents(old(store.disk[..]), store.disk[..])
      ensures store.disk[..INODE_BASE] == old(store.disk[..INODE_BASE])
    {
      hide Encode, Inodes, Metas, Splice, StoredAt;
      WriteExact(store.disk[..], i, ino, meta);
      ghost var d := store.disk[..];
      store.DevWrite(Encode(ino, meta), InodeAddr(i));
      TablesAt(store.disk[..], i);
      assert store.disk[..][..INODE_BASE] == store.disk[..INODE_BASE] &&
             d[..INODE_BASE] == old(store.disk[..INODE_BASE]);
    }

    /** get_free_disk_inode: the first unused inode at or after the cursor, cyclically. */
    method GetFreeDiskInode() returns (i: nat)
      requires Shapes() && exists x :: 0 <= x < INODE_NUM && !inodeBitmap[x]
      modifies inodeBitmap, this`inodeCursor
      ensures Shapes() && i < INODE_NUM && !old(inodeBitmap[i]) && inodeBitmap[..] == old(inodeBitmap[..])[i := true]
    {
      ghost var x :| 0 <= x < INODE_NUM && !inodeBitmap[x];
      while inodeBitmap[inodeCursor]
        modifies this`inodeCursor
        invariant inodeCursor < INODE_NUM
        decreases if x >= inodeCursor then x - inodeCursor else x - inodeCursor + INODE_NUM
      {
        inodeCursor := inodeCursor + 1;
        inodeCursor := inodeCursor % INODE_NUM;
      }
      inodeBitmap[inodeCursor] := true;
      i := inodeCursor;
    }

    /** What a local iNode_entry and a local dir_entry hold before they are filled in. */
    method StackInode() returns (b: seq<byte>)
      ensures |b| == INODE_SIZE
    {
      var a := new byte[INODE_SIZE];
      b := a[..];
    }

    method StackEntry() returns (e: Raw)
    {
      var a := new byte[ENTRY];
      e := a[..];
    }

    /** A new inode of size 0; its pointers are whatever the local variable held. */
    method NewInode() returns (i: nat, ghost index: seq<nat>)
      requires Valid() && FreeSet(inodeBitmap[..]) != {}
      modifies store.disk, inodeBitmap, this`inodeCursor
      ensures Valid() && i < INODE_NUM && Did(old(State()), State(), New(i, index))
      ensures i !in old(Abstract(State())) && Abstract(State()) == old(Abstract(State()))[i := []]
      ensures Safe(old(State())) <= Safe(State())
      ensures |FreeSet(inodeBitmap[..])| == old(|FreeSet(inodeBitmap[..])|) - 1
      ensures OneDirectory(old(store.disk[..]), store.disk[..], i)
    {
      hide Consistent, Abstract, Owned, Inodes, Metas, IsDirectory, Decode, SameContents, StoredAt;
      ghost var st, used, nodes := State(), inodeBitmap[..], Inodes(store.disk[..]);
      AbstractKeys(st);
      SomeFree(used);
      i := GetFreeDiskInode();
      var b := StackInode();
      var inode := Decode(b).(size := 0);
      index := inode.index;
      WriteInode(i, inode, DirMeta(MetaOf(b)));
      DirMetaMeans(store.disk[..], i, MetaOf(b));
      TakeFree(used, i);
      OneMoreFile(nodes, used, i, inode);
      NewFile(st, State(), i, index);
    }

    /** The branch of _create_dir for a component that is not there. */
    method CreateOne(d: nat, name: Name) returns (i: nat, ghost g: Garbage)
      requires Valid() && d in Abstract(State()) && |name| < NAME_SZ
      requires |FreeSet(store.blockBitmap[..])| >= Cost(|Abstract(State())[d]|) + 1 && FreeSet(inodeBitmap[..]) != {}
      modifies store.disk, store.blockBitmap, store`blockCursor, store.indexBlock1, store.indexBlock2, inodeBitmap,
               this`inodeCursor
      ensures Valid() && d < WORD_LIMIT && i !in old(Abstract(State())) && i < WORD_LIMIT
      ensures Abstract(State()) == MakeOne(old(Abstract(State())), d, name, i, g)
      ensures Safe(old(State())) <= Safe(State())
      ensures |FreeSet(store.blockBitmap[..])| ==
              old(|FreeSet(store.blockBitmap[..])| - Cost(|Abstract(State())[d]|)) - 1
      ensures |FreeSet(inodeBitmap[..])| == old(|FreeSet(inodeBitmap[..])|) - 1
      ensures i < INODE_NUM && OneDirectory(old(store.disk[..]), store.disk[..], i)
    {
      hide Consistent, Abstract, EntryOf, FreeSet, Did, Cost, Metas, Inodes, IsDirectory;
      ghost var fs := Abstract(State());
      DirNumber(State(), d);
      NewDirCost();
      ghost var index, a, b, c;
      i, index := NewInode();
      ghost var made := store.disk[..];
      a := AddInodeIntoDir(d, name, i);
      b := AddInodeIntoDir(i, DOT, i);
      c := AddInodeIntoDir(i, DOTDOT, d);
      DirectoryByMeta(made, store.disk[..], i);
      g := Garbage(a, b, c);
    }

    /** _create_dir: walk the path, and make the directories that are missing. `safe` are directories whose unused last
        pointer lies on the disk. */
    method CreateDir(dir: nat, path0: seq<byte>, ghost safe: set<nat>) returns (r: nat)
      requires Valid() && safe <= Safe(State())
      requires WalkOk(Abstract(State()), safe, dir, Components(path0), |FreeSet(store.blockBitmap[..])|,
                      |FreeSet(inodeBitmap[..])|)
      modifies store.disk, store.blockBitmap, store`blockCursor, store.indexBlock1, store.indexBlock2, inodeBitmap,
               this`inodeCursor, blockBuf
      ensures Valid()
      ensures Makes(old(Abstract(State())), dir, Components(path0), Abstract(State()), r)
      ensures forall k :: 0 <= k < |Components(path0)| ==> |Components(path0)[k]| < NAME_SZ
      ensures Resolve(Abstract(State()), dir, Components(path0)) == Some(r)
      ensures Grows(old(Abstract(State())), Abstract(State()))
      ensures NewDirectories(old(store.disk[..]), old(Abstract(State()).Keys), store.disk[..], Abstract(State()).Keys)
    {
      hide Consistent, Abstract, MakeOne, FindName, WalkOk, Makes, IsDir, NameOk, FreeSet, Components, SlashAt, Leads,
        Resolve, Grows, Linked, Searchable, Safe, Cost, NewDirectories, OneDirectory, Metas, Inodes, IsDirectory;
      ghost var fs0, names0, d0 := Abstract(State()), Components(path0), store.disk[..];
      NothingNew(d0, fs0.Keys);
      var cur, path, flag := dir, path0, false;
      LeadsStart(fs0, dir, names0);
      while true
        invariant Valid() && safe <= Safe(State())
        invariant WalkOk(Abstract(State()), safe, cur, Components(path), |FreeSet(store.blockBitmap[..])|,
                         |FreeSet(inodeBitmap[..])|)
        invariant Leads(fs0, dir, names0, Abstract(State()), cur, Components(path))
        invariant NewDirectories(d0, fs0.Keys, store.disk[..], Abstract(State()).Keys)
        decreases |path|
      {
        var i := FindSlash(path);
        flag := i == |path|;
        var name := path[..i];
        ghost var d := store.disk[..];
        ghost var fs, blocks, free := Abstract(State()), |FreeSet(store.blockBitmap[..])|, |FreeSet(inodeBitmap[..])|;
        FirstComponent(path, i);
        WalkStep(fs, safe, cur, Components(path), blocks, free);
        SearchMore(fs[cur], name, cur in safe, cur in Safe(State()));
        var next := ReadDirEntry(cur, name);
        LeadsStep(fs0, dir, names0, fs, cur, Components(path));
        if next.None? {
          var index;
          ghost var g;
          index, g := CreateOne(cur, name);
          OneMoreDirectory(d0, fs0.Keys, d, fs, store.disk[..], cur, name, index, g);
          WalkMade(fs, safe, cur, Components(path), blocks, free, index, g);
          LeadsMade(fs0, dir, names0, fs, cur, Components(path), index, g);
          cur := index;
        } else {
          cur := next.value;
        }
        if flag {
          LeadsEnd(fs0, dir, names0, Abstract(State()), cur);
          MakesPath(fs0, dir, names0, Abstract(State()), cur);
          return cur;
        }
        path := path[i + 1..];
      }
    }

    method FindSlash(path: seq<byte>) returns (i: nat)
      ensures i == SlashAt(path)
    {
      i := 0;
      assert path[0..] == path;
      while i < |path| && path[i] != SLASH
        invariant i <= |path| && SlashAt(path) == i + SlashAt(path[i..])
      {
        assert path[i..][1..] == path[i + 1..];
        i := i + 1;
      }
    }

    /** add_inode_into_dir: append an entry, and store the grown inode. */
    method AddInodeIntoDir(p: nat, name: Name, i: nat) returns (ghost prior: Raw)
      requires Valid() && p in Abstract(State()) && |name| < NAME_SZ && i < INODE_NUM
      requires |FreeSet(store.blockBitmap[..])| >= Cost(|Abstract(State())[p]|)
      modifies store.disk, store.blockBitmap, store`blockCursor, store.indexBlock1, store.indexBlock2
      ensures Valid() && Abstract(State()) == AddEntry(old(Abstract(State())), p, name, i, prior)
      ensures Did(old(State()), State(), Put(Write(p, old(|Abstract(State())[p]|), EntryOf(prior, name, i))))
      ensures |FreeSet(store.blockBitmap[..])| == old(|FreeSet(store.blockBitmap[..])| - Cost(|Abstract(State())[p]|))
      ensures Safe(old(State())) <= Safe(State()) && Metas(store.disk[..]) == Metas(old(store.disk[..]))
    {
      hide Consistent, FileBytes, WellFormed, Framed, Others, ActiveSet, Abstract, EntryOf, FreeSet, Wrote, Kept,
        SameContents, Inodes, Metas, StoredAt, FileManager.Words;
      ghost var st := State();
      AbstractFile(st, p);
      FileSound(st, p);
      var raw := StackEntry();
      prior := raw;
      var e := EntryOf(raw, name, i);
      var inode, meta := ReadInode(p);
      WordsFit(inode.index);
      ghost var keep := Others(st.disk, st.bitmap, st.files[p]);
      var n := store.WriteData(inode, inode.size, e, keep);
      var ino := Inode(inode.size, inode.index);
      ghost var d := store.disk[..];
      Shape(d, store.blockBitmap[..], inode.index, inode.size, keep);
      WordsFit(inode.index);
      DiskBelow(st.disk, d, keep);
      WriteInode(p, ino, meta);
      SameFileBlocks(d, store.disk[..], store.blockBitmap[..], ino, keep);
      KeptOn(st.disk, d, store.disk[..], keep);
      Appended(st, State(), p, e, keep);
    }

    /** read_dir_entry: whole entries at a time, seven to a buffer. */
    method ReadDirEntry(d: nat, name: Name) returns (r: Option<nat>)
      requires Valid() && |name| < NAME_SZ && d in Abstract(State())
      requires Searchable(Abstract(State())[d], name, d in Safe(State()))
      modifies blockBuf, store.indexBlock1, store.indexBlock2
      ensures Valid() && State() == old(State()) && r == FindName(Abstract(State())[d], name)
    {
      hide Consistent, Find, FileBytes, ReadTo, Searchable, Inodes, Decode, Abstract;
      ghost var st, c := State(), Abstract(State())[d];
      ghost var k: nat := 0;
      AbstractFile(st, d);
      ReadStart(c, name, d in Safe(st));
      var inode, _ := ReadInode(d);
      var offset: nat, readedLen := 0, 0;
      r := None;
      while true
        invariant Shapes() && State() == st && d < INODE_NUM && inodeBitmap[d]
        invariant Inode(inode.size, inode.index) == Inodes(store.disk[..])[d]
        invariant ReadTo(c, offset, k, name) && offset <= |c|
        decreases |c| - offset
      {
        LastRead(c, offset, k, name, d in Safe(st));
        readedLen, r := ReadEntries(inode, d, name, offset, k);
        if r.Some? { return; }
        if readedLen == 0 { return None; }
        offset := offset + readedLen;
        k := k + readedLen / ENTRY;
      }
    }

    /** One turn of the outer loop: a read, and the search of what it brought. */
    method ReadEntries(inode: FileManager.INode, d: nat, name: Name, offset: nat, ghost k: nat)
      returns (readedLen: nat, r: Option<nat>)
      requires Valid() && d in Abstract(State()) && ReadTo(Abstract(State())[d], offset, k, name)
      requires d < INODE_NUM && inodeBitmap[d] && Inode(inode.size, inode.index) == Inodes(store.disk[..])[d]
      requires var c := Abstract(State())[d];
               offset < |c| < offset + READ_LEN && |c| > LEVEL_END1 ==> d in Safe(State())
      modifies blockBuf, store.indexBlock1, store.indexBlock2
      ensures Shapes() && State() == old(State()) && |name| < NAME_SZ
      ensures var c := Abstract(State())[d];
              && (r.Some? ==> r == FindName(c, name))
              && (r.None? && readedLen == 0 ==> FindName(c, name) == None)
              && (r.None? && readedLen > 0 ==>
                    offset + readedLen <= |c| && ReadTo(c, offset + readedLen, k + readedLen / ENTRY, name))
    {
      hide Consistent, Find, FileBytes, ReadTo, Abstract, Splice, Slice, Inodes;
      ghost var st, c := State(), Abstract(State())[d];
      AbstractFile(st, d);
      ReadMeans(c, offset, k, name);
      readedLen := ReadFile(store, inode, d, offset, blockBuf, READ_LEN, st.files);
      if readedLen == 0 {
        NotThere(c, offset, k, name);
        r := None;
      } else {
        SliceIs(c, offset, readedLen);
        ReadLenIs(c, offset, k, name, readedLen);
        r := ScanBuffer(blockBuf, readedLen, name, c, k);
        if r.Some? { FoundThere(c, offset, k, name); } else { ReadMore(c, offset, k, name, readedLen); }
      }
    }
  }

  /** Inode i is now a directory's, and no other inode's type, device or link count has changed. */
  ghost predicate OneDirectory(d: seq<byte>, d': seq<byte>, i: nat) {
    && |d| == |d'| == RAMDISK_SIZE && IsDirectory(d', i)
    && forall j :: 0 <= j < INODE_NUM && j != i ==> Metas(d')[j] == Metas(d)[j]
  }

  /** The files that are new are directories, and no other inode's type, device or link count has changed. */
  ghost predicate NewDirectories(d: seq<byte>, files: set<nat>, d': seq<byte>, files': set<nat>) {
    && |d| == |d'| == RAMDISK_SIZE && files <= files'
    && forall j :: 0 <= j < INODE_NUM ==>
         if j in files' && j !in files then IsDirectory(d', j) else Metas(d')[j] == Metas(d)[j]
  }

  lemma NothingNew(d: seq<byte>, files: set<nat>)
    requires |d| == RAMDISK_SIZE
    ensures NewDirectories(d, files, d, files)
  {
  }

  lemma OneMoreDirectory(d0: seq<byte>, files: set<nat>, d: seq<byte>, fs: Fs, d': seq<byte>, dir: nat, name: Name,
                         i: nat, g: Garbage)
    requires NewDirectories(d0, files, d, fs.Keys) && i !in fs && OneDirectory(d, d', i) && dir in fs
    requires |name| < NAME_SZ && i < WORD_LIMIT && dir < WORD_LIMIT
    ensures NewDirectories(d0, files, d', MakeOne(fs, dir, name, i, g).Keys)
  {
    hide Metas, IsDirectory, EntryOf;
    assert MakeOne(fs, dir, name, i, g).Keys == fs.Keys + {i};
    forall j | 0 <= j < INODE_NUM && j in fs && j !in files ensures IsDirectory(d', j) { DirectoryByMeta(d, d', j); }
  }

  lemma ReadMeans(c: seq<byte>, offset: nat, k: nat, n: Name)
    requires ReadTo(c, offset, k, n)
    ensures |n| < NAME_SZ && offset <= |c|
  {
  }

  lemma SearchMore(c: seq<byte>, n: Name, safe: bool, safe': bool)
    requires |n| < NAME_SZ && Searchable(c, n, safe) && (safe ==> safe')
    ensures Searchable(c, n, safe')
  {
  }

  /** read_dir_entry has read the first `offset` bytes, k entries, and none of them is called n. */
  ghost predicate ReadTo(c: seq<byte>, offset: nat, k: nat, n: Name) {
    && |n| < NAME_SZ && |c| % ENTRY == 0
    && offset == ENTRY * k <= |c| && (offset < |c| ==> offset % READ_LEN == 0)
    && forall j :: 0 <= j < k ==> Miss(c, j, n)
  }

  lemma ReadStart(c: seq<byte>, n: Name, safe: bool)
    requires |n| < NAME_SZ && Searchable(c, n, safe)
    ensures ReadTo(c, 0, 0, n)
  {
  }

  lemma ReadLenIs(c: seq<byte>, offset: nat, k: nat, n: Name, len: nat)
    requires ReadTo(c, offset, k, n) && offset < |c|
    requires len == if READ_LEN < |c| - offset then READ_LEN else |c| - offset
    ensures len % ENTRY == 0 && offset == ENTRY * k && offset + len <= |c|
  {
    assert |c| == ENTRY * (|c| / ENTRY);
    assert len == READ_LEN || len == ENTRY * (|c| / ENTRY - k);
  }

  lemma ReadMore(c: seq<byte>, offset: nat, k: nat, n: Name, len: nat)
    requires ReadTo(c, offset, k, n) && offset < |c| && len % ENTRY == 0
    requires len == if READ_LEN < |c| - offset then READ_LEN else |c| - offset
    requires forall j :: k <= j < k + len / ENTRY ==> Miss(c, j, n)
    ensures ReadTo(c, offset + len, k + len / ENTRY, n)
  {
    hide Miss;
    assert len == ENTRY * (len / ENTRY);
  }

  lemma NotThere(c: seq<byte>, offset: nat, k: nat, n: Name)
    requires ReadTo(c, offset, k, n) && offset == |c|
    ensures FindName(c, n) == None
  {
    SkipMisses(c, 0, k, n);
    NoMoreEntries(c, k, n);
  }

  lemma FoundThere(c: seq<byte>, offset: nat, k: nat, n: Name)
    requires ReadTo(c, offset, k, n)
    ensures FindName(c, n) == Find(c, k, n)
  {
    SkipMisses(c, 0, k, n);
  }

  /** The inodes whose unused last pointer lies on the disk. */
  ghost function Safe(st: FsState): set<nat> {
    set i | i in st.files && |st.files[i].index| == 15 && st.files[i].index[14] + BLOCK_SIZE < RAMDISK_SIZE
  }

  /** A read that runs past the end is the last one, and every entry before it was a miss. */
  lemma LastRead(c: seq<byte>, offset: nat, k: nat, n: Name, safe: bool)
    requires |n| < NAME_SZ && Searchable(c, n, safe) && ReadTo(c, offset, k, n)
    ensures offset < |c| < offset + READ_LEN && |c| > LEVEL_END1 ==> safe
  {
    hide Find, Miss;
    if offset < |c| < offset + READ_LEN {
      LastStart(|c|, offset);
      PrefixMisses(c, offset, 0, n);
    }
  }

  lemma LastStart(len: nat, offset: nat)
    requires offset % READ_LEN == 0 && offset < len < offset + READ_LEN
    ensures len / READ_LEN * READ_LEN == offset && len % READ_LEN != 0
  {
    var q := offset / READ_LEN;
    assert offset == q * READ_LEN && len / READ_LEN == q;
  }

  lemma WordsFit(index: seq<nat>)
    ensures FileManager.Words(index) <==> forall j :: 0 <= j < |index| ==> index[j] < WORD_LIMIT
  {
  }

  lemma DiskBelow(d: seq<byte>, d': seq<byte>, keep: set<nat>)
    requires Framed(d, d', keep)
    ensures Inodes(d') == Inodes(d) && Metas(d') == Metas(d)
  {
    InodesBelow(d, d');
  }

  lemma KeptOn(d: seq<byte>, d1: seq<byte>, d2: seq<byte>, keep: set<nat>)
    requires Framed(d, d1, keep) && SameContents(d1, d2)
    ensures Kept(d, d2, keep)
  {
    hide Block;
  }

  /** The append of an entry, seen from the whole file system. */
  lemma Appended(st: FsState, st': FsState, p: nat, e: seq<byte>, keep: set<nat>)
    requires Consistent(st) && p in st.files && |st.files[p].index| == 15 && st'.files.Keys == st.files.Keys
    requires forall j :: j in st.files && j != p ==> st'.files[j] == st.files[j]
    requires keep == Others(st.disk, st.bitmap, st.files[p]) && |st'.files[p].index| == 15
    requires var f, f' := st.files[p], st'.files[p];
             && WellFormed(st'.disk, st'.bitmap, f'.index, f'.size, keep) && Kept(st.disk, st'.disk, keep)
             && FileBytes(st'.disk, f'.index, f'.size) == FileBytes(st.disk, f.index, f.size) + e
             && f'.size == f.size + |e| && |e| == ENTRY
    ensures Consistent(st') && p in Abstract(st) && Abstract(st') == Abstract(st)[p := Abstract(st)[p] + e]
    ensures Did(st, st', Put(Write(p, |Abstract(st)[p]|, e)))
    ensures |FreeSet(st'.bitmap)| == |FreeSet(st.bitmap)| - Cost(|Abstract(st)[p]|)
  {
    var f, f', w := st.files[p], st'.files[p], Write(p, st.files[p].size, e);
    FileSound(st, p);
    hide Consistent, FileBytes, WellFormed, Kept, Others, ActiveSet, Abstract, FreeSet;
    var c := FileBytes(st.disk, f.index, f.size);
    assert c[..f.size] == c;
    assert Wrote(st, st', w);
    hide Wrote;
    WriteStep(st, st', w);
    AbstractKeys(st);
    AbstractFile(st, p);
    assert Abstract(st)[p][..w.off] == Abstract(st)[p];
    Conserved(st.disk, st.bitmap, f.index, f.size, keep);
    Conserved(st'.disk, st'.bitmap, f'.index, f'.size, keep);
  }

  /** "." and ".." of a new directory take one block together. */
  lemma NewDirCost()
    ensures Cost(0) == 1 && Cost(ENTRY) == 0
  {
    Demand(0);
    Demand(ENTRY);
    Demand(2 * ENTRY);
  }

  lemma SomeFree(used: seq<bool>)
    requires FreeSet(used) != {}
    ensures exists x :: 0 <= x < |used| && !used[x]
  {
    var x :| x in FreeSet(used);
  }

  lemma OneMoreFile(nodes: seq<Inode>, used: seq<bool>, i: nat, f: Inode)
    requires |nodes| == |used| == INODE_NUM && i < INODE_NUM && !used[i]
    ensures i !in Files(nodes, used) && Files(nodes[i := f], used[i := true]) == Files(nodes, used)[i := f]
  {
  }

  lemma DirNumber(st: FsState, d: nat)
    requires Consistent(st) && d in Abstract(st)
    ensures d in st.files
  {
    AbstractKeys(st);
  }

  // The loop of _create_dir.

  /** What the rest of the walk makes of the present state is what the whole walk makes of the first. */
  ghost predicate Leads(fs0: Fs, d0: nat, names0: seq<Name>, fs: Fs, d: nat, names: seq<Name>) {
    forall fs': Fs, r: nat :: Makes(fs, d, names, fs', r) ==> Makes(fs0, d0, names0, fs', r)
  }

  lemma LeadsStart(fs: Fs, d: nat, names: seq<Name>)
    ensures Leads(fs, d, names, fs, d, names)
  {
    hide Makes;
  }

  lemma LeadsEnd(fs0: Fs, d0: nat, names0: seq<Name>, fs: Fs, d: nat)
    requires Leads(fs0, d0, names0, fs, d, [])
    ensures Makes(fs0, d0, names0, fs, d)
  {
    assert Makes(fs, d, [], fs, d);
  }

  lemma WalkStep(fs: Fs, safe: set<nat>, d: nat, names: seq<Name>, blocks: nat, inodes: nat)
    requires WalkOk(fs, safe, d, names, blocks, inodes) && names != []
    ensures IsDir(fs, d) && d in fs && d < WORD_LIMIT && NameOk(names[0]) && |names[0]| < NAME_SZ
    ensures Searchable(fs[d], names[0], d in safe)
    ensures FindName(fs[d], names[0]).Some? ==>
              WalkOk(fs, safe, FindName(fs[d], names[0]).value, names[1..], blocks, inodes)
    ensures FindName(fs[d], names[0]).None? ==> inodes > 0 && blocks >= Cost(|fs[d]|) + 1
  {
    hide FindName, MakeOne;
  }

  lemma WalkMade(fs: Fs, safe: set<nat>, d: nat, names: seq<Name>, blocks: nat, inodes: nat, i: nat, g: Garbage)
    requires WalkOk(fs, safe, d, names, blocks, inodes) && names != [] && d in fs && |names[0]| < NAME_SZ
    requires FindName(fs[d], names[0]).None? && i !in fs && i < WORD_LIMIT && d < WORD_LIMIT
    ensures inodes > 0 && blocks >= Cost(|fs[d]|) + 1
    ensures WalkOk(MakeOne(fs, d, names[0], i, g), safe, i, names[1..], blocks - Cost(|fs[d]|) - 1, inodes - 1)
  {
    hide FindName, MakeOne;
  }

  lemma LeadsStep(fs0: Fs, d0: nat, names0: seq<Name>, fs: Fs, d: nat, names: seq<Name>)
    requires Leads(fs0, d0, names0, fs, d, names) && names != []
    requires IsDir(fs, d) && NameOk(names[0])
    ensures FindName(fs[d], names[0]).Some? ==> Leads(fs0, d0, names0, fs, FindName(fs[d], names[0]).value, names[1..])
  {
    hide FindName, MakeOne;
  }

  lemma LeadsMade(fs0: Fs, d0: nat, names0: seq<Name>, fs: Fs, d: nat, names: seq<Name>, i: nat, g: Garbage)
    requires Leads(fs0, d0, names0, fs, d, names) && names != []
    requires IsDir(fs, d) && NameOk(names[0]) && FindName(fs[d], names[0]).None? && i !in fs && i < WORD_LIMIT
    ensures Leads(fs0, d0, names0, MakeOne(fs, d, names[0], i, g), i, names[1..])
  {
    hide FindName, MakeOne;
  }

  // Making directories is a run of the file system.

  /** The changes that make one directory. */
  function OneDir(fs: Fs, d: nat, n: Name, i: nat, g: Garbage, index: seq<nat>): seq<Change>
    requires d in fs && i !in fs && |n| < NAME_SZ && i < WORD_LIMIT && d < WORD_LIMIT
  {
    [New(i, index), Put(Write(d, |fs[d]|, EntryOf(g.a, n, i))), Put(Write(i, 0, EntryOf(g.b, DOT, i))),
     Put(Write(i, ENTRY, EntryOf(g.c, DOTDOT, d)))]
  }

  lemma OneDirIsRun(fs: Fs, d: nat, n: Name, i: nat, g: Garbage, index: seq<nat>)
    requires d in fs && i !in fs && |n| < NAME_SZ && i < WORD_LIMIT && d < WORD_LIMIT
    ensures AllAllowed(fs, OneDir(fs, d, n, i, g, index))
    ensures AllChanged(fs, OneDir(fs, d, n, i, g, index)) == MakeOne(fs, d, n, i, g)
  {
    hide EntryOf, AllAllowed, AllChanged;
    var f1 := fs[i := []];
    var f2 := AddEntry(f1, d, n, i, g.a);
    var f3 := AddEntry(f2, i, DOT, i, g.b);
    assert f1[d][..|fs[d]|] == fs[d] && f2[i][..0] == [] && f3[i][..ENTRY] == f3[i];
    var a, b := New(i, index), Put(Write(d, |fs[d]|, EntryOf(g.a, n, i)));
    var c, e := Put(Write(i, 0, EntryOf(g.b, DOT, i))), Put(Write(i, ENTRY, EntryOf(g.c, DOTDOT, d)));
    assert f1 == Changed(fs, a) && f2 == Changed(f1, b) && f3 == Changed(f2, c);
    NoChange(fs);
    RunMore(fs, [], a);
    RunMore(fs, [] + [a], b);
    RunMore(fs, [] + [a] + [b], c);
    RunMore(fs, [] + [a] + [b] + [c], e);
    assert OneDir(fs, d, n, i, g, index) == [] + [a] + [b] + [c] + [e];
  }

  lemma NoChange(fs: Fs)
    ensures AllAllowed(fs, []) && AllChanged(fs, []) == fs
  {
  }

  lemma RunMore(fs: Fs, cs: seq<Change>, c: Change)
    requires AllAllowed(fs, cs) && Allowed(AllChanged(fs, cs), c)
    ensures AllAllowed(fs, cs + [c]) && AllChanged(fs, cs + [c]) == Changed(AllChanged(fs, cs), c)
  {
    assert [c][1..] == [];
    RunsJoin(fs, cs, [c]);
  }

  lemma {:induction false} RunsJoin(fs: Fs, cs: seq<Change>, ds: seq<Change>)
    requires AllAllowed(fs, cs) && AllAllowed(AllChanged(fs, cs), ds)
    ensures AllAllowed(fs, cs + ds) && AllChanged(fs, cs + ds) == AllChanged(AllChanged(fs, cs), ds)
    decreases |cs|
  {
    hide Allowed, Changed;
    if cs == [] {
      assert cs + ds == ds;
    } else {
      assert (cs + ds)[1..] == cs[1..] + ds;
      RunsJoin(Changed(fs, cs[0]), cs[1..], ds);
    }
  }

  /** So _create_dir is a run of new files and writes, and what holds over such runs holds with it. */
  lemma {:induction false} MakesIsRun(fs: Fs, d: nat, names: seq<Name>, fs': Fs, r: nat) returns (cs: seq<Change>)
    requires Makes(fs, d, names, fs', r)
    ensures AllAllowed(fs, cs) && AllChanged(fs, cs) == fs'
    decreases |names|
  {
    cs := [];
    if names != [] {
      hide MakeOne, FindName, OneDir;
      match FindName(fs[d], names[0]) {
        case Some(i) => cs := MakesIsRun(fs, i, names[1..], fs', r);
        case None =>
          var i: nat, g: Garbage :|
            i !in fs && i < WORD_LIMIT && Makes(MakeOne(fs, d, names[0], i, g), i, names[1..], fs', r);
          OneDirIsRun(fs, d, names[0], i, g, []);
          cs := MakesIsRun(MakeOne(fs, d, names[0], i, g), i, names[1..], fs', r);
          RunsJoin(fs, OneDir(fs, d, names[0], i, g, []), cs);
          cs := OneDir(fs, d, names[0], i, g, []) + cs;
      }
    }
  }

  lemma FirstComponent(path: seq<byte>, i: nat)
    requires i == SlashAt(path)
    ensures Components(path)[0] == path[..i]
    ensures i == |path| ==> Components(path)[1..] == []
    ensures i < |path| ==> Components(path)[1..] == Components(path[i + 1..])
    ensures i <= |path|
  {
    hide SlashAt;
    if i == |path| {
      assert path[..i] == path && [path][1..] == [];
    } else {
      var rest := Components(path[i + 1..]);
      assert Components(path) == [path[..i]] + rest;
      assert ([path[..i]] + rest)[1..] == rest;
    }
  }

  lemma NoMoreEntries(c: seq<byte>, k: nat, n: Name)
    requires ENTRY * k >= |c| && |n| < NAME_SZ
    ensures Find(c, k, n) == None
  {
  }
}
