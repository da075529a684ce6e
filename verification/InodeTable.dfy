/** The inodes as they lie in the ramdisk, between the bitmaps and the blocks: 76 bytes each, words least significant
    byte first. */
module InodeTable {
  import opened Bytes
  import opened FileLayout

  datatype Inode = Inode(size: nat, index: seq<nat>)

  /** type, dev_id and link: four bytes each. */
  const META: nat := 12
  const DIR: nat := 1
  const INDEX_AT: nat := 16

  type Meta = b: seq<byte> | |b| == META witness seq(META, _ => 0)

  function InodeAddr(i: nat): nat { INODE_BASE + i * INODE_SIZE }

  /** What fits into an iNode_entry. */
  predicate Storable(ino: Inode) {
    ino.size < WORD_LIMIT && |ino.index| == 15 && forall j :: 0 <= j < 15 ==> ino.index[j] < WORD_LIMIT
  }

  function WordsBytes(ws: seq<nat>): (b: seq<byte>)
    requires forall j :: 0 <= j < |ws| ==> ws[j] < WORD_LIMIT
    ensures |b| == 4 * |ws|
  {
    if ws == [] then [] else WordBytes(ws[0]) + WordsBytes(ws[1..])
  }

  function Encode(ino: Inode, meta: Meta): (b: seq<byte>)
    requires Storable(ino)
    ensures |b| == INODE_SIZE
  {
    WordBytes(ino.size) + meta + WordsBytes(ino.index)
  }

  function Decode(b: seq<byte>): (ino: Inode)
    requires |b| == INODE_SIZE
    ensures Storable(ino)
  {
    Inode(WordAt(b, 0), seq(15, j requires 0 <= j < 15 => WordAt(b, INDEX_AT + 4 * j)))
  }

  function MetaOf(b: seq<byte>): Meta
    requires |b| == INODE_SIZE
  {
    b[4..INDEX_AT]
  }

  /** A new directory's: the device is whatever the local variable held. */
  function DirMeta(b: Meta): Meta { WordBytes(DIR) + b[4..8] + WordBytes(1) }

  lemma WordInside(pre: seq<byte>, w: nat, post: seq<byte>)
    requires w < WORD_LIMIT
    ensures WordAt(pre + WordBytes(w) + post, |pre|) == w
  {
    hide WordAt, WordBytes;
    var s := pre + WordBytes(w) + post;
    assert Splice(s, |pre|, WordBytes(w)) == s;
    WordRoundTrip(s, |pre|, w);
  }

  lemma {:induction false} WordsInside(pre: seq<byte>, ws: seq<nat>, j: nat)
    requires j < |ws| && forall k :: 0 <= k < |ws| ==> ws[k] < WORD_LIMIT
    ensures WordAt(pre + WordsBytes(ws), |pre| + 4 * j) == ws[j]
    decreases |ws|
  {
    hide WordAt, WordBytes;
    var b, rest := WordBytes(ws[0]), WordsBytes(ws[1..]);
    if j == 0 {
      WordInside(pre, ws[0], rest);
      assert pre + (b + rest) == pre + b + rest;
    } else {
      WordsInside(pre + b, ws[1..], j - 1);
      assert pre + (b + rest) == (pre + b) + rest;
    }
  }

  /** What is stored is what is loaded again. */
  lemma InodeRoundTrip(ino: Inode, meta: Meta)
    requires Storable(ino)
    ensures Decode(Encode(ino, meta)) == ino && MetaOf(Encode(ino, meta)) == meta
  {
    hide WordAt, WordBytes, WordsBytes;
    var b, head := Encode(ino, meta), WordBytes(ino.size) + meta;
    WordInside([], ino.size, meta + WordsBytes(ino.index));
    assert b == [] + WordBytes(ino.size) + (meta + WordsBytes(ino.index));
    forall j | 0 <= j < 15 ensures Decode(b).index[j] == ino.index[j] { WordsInside(head, ino.index, j); }
  }

  /** All the inodes of a disk. */
  function Inodes(d: seq<byte>): (t: seq<Inode>)
    requires |d| == RAMDISK_SIZE
    ensures |t| == INODE_NUM
  {
    seq(INODE_NUM, i requires 0 <= i < INODE_NUM => Decode(d[InodeAddr(i)..InodeAddr(i) + INODE_SIZE]))
  }

  /** Type, device and link count of all of them. */
  function Metas(d: seq<byte>): (t: seq<Meta>)
    requires |d| == RAMDISK_SIZE
    ensures |t| == INODE_NUM
  {
    seq(INODE_NUM, i requires 0 <= i < INODE_NUM => MetaOf(d[InodeAddr(i)..InodeAddr(i) + INODE_SIZE]))
  }

  /** iNode_entry in memory order: size, type, dev_id, link, and the fifteen pointers. */
  ghost predicate StoredAt(d: seq<byte>, a: nat, ino: Inode, meta: Meta) {
    && a + INODE_SIZE <= |d| && |ino.index| == 15
    && WordAt(d, a) == ino.size && d[a + 4..a + 16] == meta
    && forall j :: 0 <= j < 15 ==> WordAt(d, a + 16 + 4 * j) == ino.index[j]
  }

  /** A directory with one link. */
  predicate IsDirectory(d: seq<byte>, i: nat) { WordAt(d, InodeAddr(i) + 4) == 1 && WordAt(d, InodeAddr(i) + 12) == 1 }

  lemma SliceWord(d: seq<byte>, a: nat, p: nat)
    requires a + INODE_SIZE <= |d| && p + 4 <= INODE_SIZE
    ensures WordAt(d[a..a + INODE_SIZE], p) == WordAt(d, a + p)
  {
  }

  /** The tables are what lies at the inodes' places. */
  lemma TablesAt(d: seq<byte>, i: nat)
    requires |d| == RAMDISK_SIZE && i < INODE_NUM
    ensures StoredAt(d, InodeAddr(i), Inodes(d)[i], Metas(d)[i])
  {
    var a := InodeAddr(i);
    assert a + INODE_SIZE <= |d|;
    var b := d[a..a + INODE_SIZE];
    hide WordAt;
    SliceWord(d, a, 0);
    forall j | 0 <= j < 15 ensures WordAt(d, a + 16 + 4 * j) == Inodes(d)[i].index[j] { SliceWord(d, a, 16 + 4 * j); }
    SubSlice(d, a, INODE_SIZE, 4, 16);
  }

  lemma SubSlice(d: seq<byte>, a: nat, n: nat, p: nat, q: nat)
    requires a + n <= |d| && p <= q <= n
    ensures d[a..a + n][p..q] == d[a + p..a + q]
  {
    var x, y := d[a..a + n][p..q], d[a + p..a + q];
    forall k | 0 <= k < q - p ensures x[k] == y[k] { assert x[k] == d[a + (p + k)]; }
  }

  lemma DirectoryByMeta(d: seq<byte>, d': seq<byte>, i: nat)
    requires |d| == |d'| == RAMDISK_SIZE && i < INODE_NUM && Metas(d)[i] == Metas(d')[i]
    ensures IsDirectory(d, i) <==> IsDirectory(d', i)
  {
    TablesAt(d, i);
    TablesAt(d', i);
    hide Metas, Inodes, WordAt;
    var a := InodeAddr(i);
    MetaWord(d, d', a, 0);
    MetaWord(d, d', a, 8);
  }

  lemma MetaWord(d: seq<byte>, d': seq<byte>, a: nat, p: nat)
    requires |d| == |d'| && a + 16 <= |d| && p + 4 <= META && d[a + 4..a + 16] == d'[a + 4..a + 16]
    ensures WordAt(d, a + 4 + p) == WordAt(d', a + 4 + p)
  {
    forall k | a + 4 + p <= k < a + 8 + p ensures d[k] == d'[k] {
      assert d[k] == d[a + 4..a + 16][k - a - 4] && d'[k] == d'[a + 4..a + 16][k - a - 4];
    }
    WordLocal(d, d', a + 4 + p);
  }

  /** What a new directory's inode is stored with. */
  lemma DirMetaMeans(d: seq<byte>, i: nat, b: Meta)
    requires |d| == RAMDISK_SIZE && i < INODE_NUM && Metas(d)[i] == DirMeta(b)
    ensures IsDirectory(d, i)
  {
    TablesAt(d, i);
    hide Metas, Inodes, WordAt, WordBytes;
    var a, m := InodeAddr(i), DirMeta(b);
    assert m == [] + WordBytes(1) + (b[4..8] + WordBytes(1)) == (WordBytes(1) + b[4..8]) + WordBytes(1) + [];
    WordInside([], 1, b[4..8] + WordBytes(1));
    WordInside(WordBytes(1) + b[4..8], 1, []);
    WordOfSlice(d, a + 4, m, 0);
    WordOfSlice(d, a + 4, m, 8);
  }

  lemma WordOfSlice(d: seq<byte>, a: nat, m: seq<byte>, p: nat)
    requires a + |m| <= |d| && d[a..a + |m|] == m && p + 4 <= |m|
    ensures WordAt(d, a + p) == WordAt(m, p)
  {
    assert forall k :: 0 <= k < |m| ==> d[a + k] == m[k];
  }

  /** Storing an inode changes that inode only: no other one, no bitmap, no block. */
  lemma WriteExact(d: seq<byte>, i: nat, ino: Inode, meta: Meta)
    requires |d| == RAMDISK_SIZE && i < INODE_NUM && Storable(ino)
    ensures InodeAddr(i) + INODE_SIZE <= BLOCK_BASE
    ensures var d' := Splice(d, InodeAddr(i), Encode(ino, meta));
            && Inodes(d') == Inodes(d)[i := ino] && Metas(d') == Metas(d)[i := meta]
            && d'[..INODE_BASE] == d[..INODE_BASE] && d'[BLOCK_BASE..] == d[BLOCK_BASE..]
            && forall b :: 0 <= b < BLOCK_NUM ==> Block(d', b) == Block(d, b)
  {
    var x := Encode(ino, meta);
    var d' := Splice(d, InodeAddr(i), x);
    InodeRoundTrip(ino, meta);
    hide Encode, Decode, MetaOf;
    forall k | 0 <= k < INODE_NUM
      ensures Inodes(d')[k] == Inodes(d)[i := ino][k] && Metas(d')[k] == Metas(d)[i := meta][k]
    {
      var a := InodeAddr(k);
      if k == i { assert d'[a..a + INODE_SIZE] == x; } else { assert d'[a..a + INODE_SIZE] == d[a..a + INODE_SIZE]; }
    }
  }

  /** Storing into blocks changes no inode. */
  lemma InodesBelow(d: seq<byte>, d': seq<byte>)
    requires |d| == |d'| == RAMDISK_SIZE && d'[..BLOCK_BASE] == d[..BLOCK_BASE]
    ensures Inodes(d') == Inodes(d) && Metas(d') == Metas(d)
  {
    forall k | 0 <= k < INODE_NUM ensures Inodes(d')[k] == Inodes(d)[k] && Metas(d')[k] == Metas(d)[k] {
      BelowBlocks(k);
      hide Decode, MetaOf, InodeAddr;
      var a := InodeAddr(k);
      SameSlice(d, d', BLOCK_BASE, a, a + INODE_SIZE);
    }
  }

  lemma BelowBlocks(k: nat)
    requires k < INODE_NUM
    ensures InodeAddr(k) + INODE_SIZE <= BLOCK_BASE
  {
  }

  lemma SameSlice(d: seq<byte>, d': seq<byte>, n: nat, a: nat, b: nat)
    requires n <= |d| == |d'| && d[..n] == d'[..n] && a <= b <= n
    ensures d[a..b] == d'[a..b]
  {
    forall k | 0 <= k < b - a ensures d[a..b][k] == d'[a..b][k] { assert d[..n][a + k] == d'[..n][a + k]; }
  }
}
