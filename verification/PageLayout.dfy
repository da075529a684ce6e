/** Address spaces in physical memory: a page directory per process, page tables and user frames in pages handed
    out by a bitmap. Translation follows section 5.2 (Page Translation) of the Intel 80386 Programmer's Reference
    Manual: 10 bits of directory index, 10 bits of table index, 12 bits of offset. */
module PageLayout {
  import opened Bytes

  const PAGE_SIZE: nat := 4096
  const PAGE_NUM: nat := 28 * 1024
  const KERNEL_PAGES: nat := 4096
  const KERNEL_MEM: nat := KERNEL_PAGES * PAGE_SIZE
  const PHY_MEM: nat := (KERNEL_PAGES + PAGE_NUM) * PAGE_SIZE
  const NR_PDE: nat := 1024
  const NR_PTE: nat := 1024

  /** Directory entries [0, 4) map the kernel, and again at 0xC0000000; [4, 768) are the user's. */
  const KERNEL_TABLES: nat := 4
  const USER_END: nat := 768
  const USER_START: nat := KERNEL_MEM
  const USER_LIMIT: nat := 0xC0000000

  /** The roles in which a process owns a page. */
  datatype Slot = KTable(i: nat) | UTable(i: nat) | Frame(i: nat, j: nat)

  /** Which page of the pool each slot holds. */
  type Tree = map<Slot, nat>

  function PageAddr(b: nat): nat { (KERNEL_PAGES + b) * PAGE_SIZE }

  function Page(m: seq<byte>, b: nat): (r: seq<byte>)
    requires |m| == PHY_MEM && b < PAGE_NUM
    ensures |r| == PAGE_SIZE
  {
    m[PageAddr(b)..PageAddr(b) + PAGE_SIZE]
  }

  /** Writing inside one page changes that page and nothing else. */
  lemma SplicePage(m: seq<byte>, b: nat, o: nat, x: seq<byte>)
    requires |m| == PHY_MEM && b < PAGE_NUM && o + |x| <= PAGE_SIZE
    ensures var m' := Splice(m, PageAddr(b) + o, x);
            && m'[..KERNEL_MEM] == m[..KERNEL_MEM]
            && Page(m', b) == Splice(Page(m, b), o, x)
            && (forall c :: 0 <= c < PAGE_NUM && c != b ==> Page(m', c) == Page(m, c))
  {
    var m' := Splice(m, PageAddr(b) + o, x);
    forall c | 0 <= c < PAGE_NUM && c != b
      ensures Page(m', c) == Page(m, c)
    {
      assert PageAddr(c) + PAGE_SIZE <= PageAddr(b) || PageAddr(b) + PAGE_SIZE <= PageAddr(c);
    }
  }

  // Directory and table entries.

  predicate Present(w: nat) { w % 2 == 1 }

  /** The low twelve bits of an entry: present and writable, and with bit 2 set for user mode too. */
  const KERNEL_ONLY: nat := 3
  const USER_TOO: nat := 7

  /** An entry that is present, names page b of the pool, and has these access bits. */
  predicate Maps(w: nat, b: nat, access: nat) {
    Present(w) && w / PAGE_SIZE == KERNEL_PAGES + b && w % PAGE_SIZE == access
  }

  /** make_pde / make_pte: frame number, present, writable, user. */
  function Entry(b: nat): (w: nat)
    requires b < PAGE_NUM
    ensures w < WORD_LIMIT && Maps(w, b, USER_TOO)
  {
    PageAddr(b) + 7
  }

  /** make_pde, then user_supervisor = 0. */
  function KernelEntry(b: nat): (w: nat)
    requires b < PAGE_NUM
    ensures Maps(w, b, KERNEL_ONLY)
  {
    PageAddr(b) + 3
  }

  /** Table entry j of the table in page b. */
  function Pte(m: seq<byte>, b: nat, j: nat): (w: nat)
    requires |m| == PHY_MEM && b < PAGE_NUM && j < NR_PTE
  {
    WordAt(Page(m, b), 4 * j)
  }

  predicate InSpace(s: Slot) {
    match s
    case KTable(i) => i < KERNEL_TABLES
    case UTable(i) => KERNEL_TABLES <= i < USER_END
    case Frame(i, j) => KERNEL_TABLES <= i < USER_END && j < NR_PTE
  }

  ghost predicate Closed(t: Tree) {
    forall s :: s in t ==> InSpace(s) && t[s] < PAGE_NUM && (s.Frame? ==> UTable(s.i) in t)
  }

  ghost predicate Injective(t: Tree) {
    forall s, u :: s in t && u in t && s != u ==> t[s] != t[u]
  }

  /** The bitmap marks exactly this process's pages and the pages `keep` of everybody else. */
  ghost predicate Marks(t: Tree, bm: seq<bool>, keep: set<nat>) {
    && |bm| == PAGE_NUM
    && (forall s :: s in t ==> t[s] !in keep)
    && (forall b :: b in keep ==> b < PAGE_NUM)
    && (forall b :: 0 <= b < PAGE_NUM ==> (bm[b] <==> b in keep || b in t.Values))
  }

  /** The user half of the directory spells out the tree's tables ... */
  ghost predicate DirPoints(pdir: seq<nat>, t: Tree)
    requires |pdir| == NR_PDE
  {
    && (forall i :: 0 <= i < KERNEL_TABLES && KTable(i) in t ==>
          Maps(pdir[i], t[KTable(i)], KERNEL_ONLY) && Maps(pdir[i + USER_END], t[KTable(i)], USER_TOO))
    && (forall i :: KERNEL_TABLES <= i < USER_END ==>
          (UTable(i) in t <==> Present(pdir[i])) && (UTable(i) in t ==> Maps(pdir[i], t[UTable(i)], USER_TOO)))
    && (forall i :: USER_END + KERNEL_TABLES <= i < NR_PDE ==> !Present(pdir[i]))
  }

  /** Kernel table i maps its 4 MB to themselves. */
  ghost predicate Identity(m: seq<byte>, b: nat, i: nat)
    requires |m| == PHY_MEM && b < PAGE_NUM
  {
    forall j :: 0 <= j < NR_PTE ==> Pte(m, b, j) == (i * NR_PTE + j) * PAGE_SIZE + 7
  }

  ghost predicate KernelPoints(m: seq<byte>, t: Tree)
    requires |m| == PHY_MEM && Closed(t)
  {
    forall i :: KTable(i) in t ==> Identity(m, t[KTable(i)], i)
  }

  /** ... and the tables spell out its frames. */
  ghost predicate TablePoints(m: seq<byte>, t: Tree)
    requires |m| == PHY_MEM && Closed(t)
  {
    forall i, j :: UTable(i) in t && 0 <= j < NR_PTE ==>
      (Frame(i, j) in t <==> Present(Pte(m, t[UTable(i)], j))) &&
      (Frame(i, j) in t ==> Maps(Pte(m, t[UTable(i)], j), t[Frame(i, j)], USER_TOO))
  }

  ghost predicate Layout(m: seq<byte>, bm: seq<bool>, pdir: seq<nat>, t: Tree, keep: set<nat>) {
    && |m| == PHY_MEM && |pdir| == NR_PDE
    && Closed(t) && Injective(t) && Marks(t, bm, keep)
    && DirPoints(pdir, t) && TablePoints(m, t) && KernelPoints(m, t)
  }

  /** Nothing but this process's pages may differ. */
  ghost predicate Framed(m: seq<byte>, m': seq<byte>, keep: set<nat>) {
    && |m| == |m'| == PHY_MEM
    && m'[..KERNEL_MEM] == m[..KERNEL_MEM]
    && (forall b :: b in keep && b < PAGE_NUM ==> Page(m', b) == Page(m, b))
  }

  /** The tree only depends on the pages of its tables. */
  lemma TableStable(m: seq<byte>, m': seq<byte>, t: Tree)
    requires |m| == |m'| == PHY_MEM && Closed(t) && TablePoints(m, t) && KernelPoints(m, t)
    requires forall s :: s in t && !s.Frame? ==> Page(m', t[s]) == Page(m, t[s])
    ensures TablePoints(m', t) && KernelPoints(m', t)
  {
    hide Page;
    forall i, j | UTable(i) in t && 0 <= j < NR_PTE
      ensures Pte(m', t[UTable(i)], j) == Pte(m, t[UTable(i)], j)
    {
    }
    forall i | KTable(i) in t ensures Identity(m', t[KTable(i)], i) {
      assert Identity(m, t[KTable(i)], i);
      SamePage(m, m', t[KTable(i)], i);
    }
  }

  lemma SamePage(m: seq<byte>, m': seq<byte>, b: nat, i: nat)
    requires |m| == |m'| == PHY_MEM && b < PAGE_NUM && Page(m', b) == Page(m, b) && Identity(m, b, i)
    ensures Identity(m', b, i)
  {
    hide Page;
    forall j | 0 <= j < NR_PTE ensures Pte(m', b, j) == (i * NR_PTE + j) * PAGE_SIZE + 7 {
      assert Pte(m, b, j) == (i * NR_PTE + j) * PAGE_SIZE + 7;
    }
  }

  lemma AddMarks(t: Tree, bm: seq<bool>, keep: set<nat>, s: Slot, b: nat)
    requires Closed(t) && Injective(t) && Marks(t, bm, keep)
    requires InSpace(s) && s !in t && (s.Frame? ==> UTable(s.i) in t)
    requires b < PAGE_NUM && !bm[b]
    ensures Closed(t[s := b]) && Injective(t[s := b]) && Marks(t[s := b], bm[b := true], keep)
    ensures b !in t.Values && b !in keep
  {
    PutMarks(t, bm, keep, s, b);
    assert keep + Old(t, s) == keep;
  }

  /** A page that is not in use can be filled with anything. */
  lemma FillFree(m: seq<byte>, bm: seq<bool>, pdir: seq<nat>, t: Tree, keep: set<nat>, b: nat, o: nat, x: seq<byte>)
    requires Layout(m, bm, pdir, t, keep) && b < PAGE_NUM && b !in t.Values && b !in keep && o + |x| <= PAGE_SIZE
    ensures Layout(Splice(m, PageAddr(b) + o, x), bm, pdir, t, keep)
    ensures Framed(m, Splice(m, PageAddr(b) + o, x), keep)
  {
    hide Splice, Page;
    SplicePage(m, b, o, x);
    assert forall s :: s in t ==> t[s] in t.Values;
    TableStable(m, Splice(m, PageAddr(b) + o, x), t);
  }

  /** memset(page, 0, PAGE_SIZE) */
  function Zeros(): (z: seq<byte>)
    ensures |z| == PAGE_SIZE && forall i :: 0 <= i < PAGE_SIZE ==> z[i] == 0
  {
    seq(PAGE_SIZE, _ => 0)
  }

  lemma ZeroTable(m: seq<byte>, b: nat, j: nat)
    requires |m| == PHY_MEM && b < PAGE_NUM && j < NR_PTE && Page(m, b) == Zeros()
    ensures !Present(Pte(m, b, j))
  {
    assert Pte(m, b, j) == 0;
  }

  /** Hanging an empty page table into a free directory entry. */
  lemma AddTable(m: seq<byte>, bm: seq<bool>, pdir: seq<nat>, t: Tree, keep: set<nat>, i: nat, b: nat)
    requires Layout(m, bm, pdir, t, keep) && KERNEL_TABLES <= i < USER_END && UTable(i) !in t
    requires b < PAGE_NUM && !bm[b] && Page(m, b) == Zeros()
    ensures Layout(m, bm[b := true], pdir[i := Entry(b)], t[UTable(i) := b], keep)
  {
    PutTable(m, bm, pdir, t, keep, i, b);
    assert Drop(t, i) == t && keep + PagesUnder(t, i) == keep;
  }

  /** The first four directory entries and their copies at 0xC0000000. */
  lemma AddKernelTable(m: seq<byte>, bm: seq<bool>, pdir: seq<nat>, t: Tree, keep: set<nat>, i: nat, b: nat)
    requires Layout(m, bm, pdir, t, keep) && i < KERNEL_TABLES && KTable(i) !in t && b < PAGE_NUM && !bm[b]
    requires Identity(m, b, i)
    ensures Layout(m, bm[b := true], pdir[i := KernelEntry(b)][i + USER_END := Entry(b)], t[KTable(i) := b], keep)
  {
    AddMarks(t, bm, keep, KTable(i), b);
    hide Page, Pte, Marks, Injective, Entry, KernelEntry, Maps, Present, Identity;
  }

  lemma PteAfterPut(m: seq<byte>, b: nat, j: nat, w: nat, c: nat, k: nat)
    requires |m| == PHY_MEM && b < PAGE_NUM && j < NR_PTE && w < WORD_LIMIT && c < PAGE_NUM && k < NR_PTE
    ensures Pte(Splice(m, PageAddr(b) + 4 * j, WordBytes(w)), c, k) == if c == b && k == j then w else Pte(m, c, k)
  {
    hide Splice, WordBytes, WordAt, Page;
    SplicePage(m, b, 4 * j, WordBytes(w));
    if c == b {
      if k == j { WordRoundTrip(Page(m, b), 4 * j, w); } else { OtherWord(Page(m, b), j, w, k); }
    }
  }

  lemma OtherWord(r: seq<byte>, j: nat, w: nat, k: nat)
    requires |r| == PAGE_SIZE && j < NR_PTE && k < NR_PTE && j != k && w < WORD_LIMIT
    ensures WordAt(Splice(r, 4 * j, WordBytes(w)), 4 * k) == WordAt(r, 4 * k)
  {
    WordLocal(r, Splice(r, 4 * j, WordBytes(w)), 4 * k);
  }

  /** The page that a new one displaces. */
  ghost function Old(t: Tree, s: Slot): set<nat> { if s in t then {t[s]} else {} }

  lemma PutMarks(t: Tree, bm: seq<bool>, keep: set<nat>, s: Slot, b: nat)
    requires Closed(t) && Injective(t) && Marks(t, bm, keep)
    requires InSpace(s) && (s.Frame? ==> UTable(s.i) in t) && b < PAGE_NUM && !bm[b]
    ensures Closed(t[s := b]) && Injective(t[s := b]) && Marks(t[s := b], bm[b := true], keep + Old(t, s))
    ensures b !in t.Values && b !in keep
  {
    assert b !in t.Values && b !in keep;
    PutValues(t, s, b);
    hide InSpace;
  }

  lemma PutValues(t: Tree, s: Slot, b: nat)
    requires Injective(t) && b !in t.Values
    ensures Injective(t[s := b])
    ensures forall x :: x in t[s := b].Values <==> (x in t.Values && x !in Old(t, s)) || x == b
  {
    var t' := t[s := b];
    forall x ensures x in t'.Values <==> (x in t.Values && x !in Old(t, s)) || x == b {
      if x in t.Values && x !in Old(t, s) { var u :| u in t && t[u] == x; assert u != s && t'[u] == x; }
      if x in t'.Values { var u :| u in t' && t'[u] == x; assert u != s ==> t[u] == x; }
      if x == b { assert t'[s] == b; }
    }
  }

  /** make_pte, whether or not the entry was in use: a frame that was there stays marked, and drops out of the tree. */
  lemma PutFrame(m: seq<byte>, bm: seq<bool>, pdir: seq<nat>, t: Tree, keep: set<nat>, i: nat, j: nat, b: nat)
    requires Layout(m, bm, pdir, t, keep) && UTable(i) in t && j < NR_PTE && b < PAGE_NUM && !bm[b]
    ensures var m' := Splice(m, PageAddr(t[UTable(i)]) + 4 * j, WordBytes(Entry(b)));
            Layout(m', bm[b := true], pdir, t[Frame(i, j) := b], keep + Old(t, Frame(i, j))) && Framed(m, m', keep)
  {
    hide Splice, WordBytes, Page, Entry, Pte, Identity;
    PutMarks(t, bm, keep, Frame(i, j), b);
    SplicePage(m, t[UTable(i)], 4 * j, WordBytes(Entry(b)));
    AddFrameEntry(m, t, i, j, b);
    KernelStays(m, t, t[UTable(i)], 4 * j, WordBytes(Entry(b)), Frame(i, j), b);
  }

  /** Entering a frame into an empty slot of a table. */
  lemma AddFrame(m: seq<byte>, bm: seq<bool>, pdir: seq<nat>, t: Tree, keep: set<nat>, i: nat, j: nat, b: nat)
    requires Layout(m, bm, pdir, t, keep) && UTable(i) in t && j < NR_PTE && Frame(i, j) !in t
    requires b < PAGE_NUM && !bm[b]
    ensures var m' := Splice(m, PageAddr(t[UTable(i)]) + 4 * j, WordBytes(Entry(b)));
            Layout(m', bm[b := true], pdir, t[Frame(i, j) := b], keep) && Framed(m, m', keep)
  {
    PutFrame(m, bm, pdir, t, keep, i, j, b);
    assert keep + Old(t, Frame(i, j)) == keep;
  }

  /** A table and its frames. */
  predicate Under(s: Slot, i: nat) { !s.KTable? && s.i == i }

  ghost function Drop(t: Tree, i: nat): Tree {
    map s | s in t && !Under(s, i) :: t[s]
  }

  ghost function PagesUnder(t: Tree, i: nat): set<nat> {
    set s | s in t && Under(s, i) :: t[s]
  }

  lemma DropMarks(t: Tree, bm: seq<bool>, keep: set<nat>, i: nat)
    requires Closed(t) && Injective(t) && Marks(t, bm, keep)
    ensures Closed(Drop(t, i)) && Injective(Drop(t, i)) && Marks(Drop(t, i), bm, keep + PagesUnder(t, i))
  {
    var t' := Drop(t, i);
    forall x ensures x in t.Values <==> x in t'.Values || x in PagesUnder(t, i) {
      if x in t.Values { var u :| u in t && t[u] == x; if !Under(u, i) { assert t'[u] == x; } }
      if x in t'.Values { var u :| u in t' && t'[u] == x; assert t[u] == x; }
    }
  }

  /** make_pde with an empty table, whether or not the entry was in use: everything under the old table drops out. */
  lemma PutTable(m: seq<byte>, bm: seq<bool>, pdir: seq<nat>, t: Tree, keep: set<nat>, i: nat, b: nat)
    requires Layout(m, bm, pdir, t, keep) && KERNEL_TABLES <= i < USER_END
    requires b < PAGE_NUM && !bm[b] && Page(m, b) == Zeros()
    ensures Layout(m, bm[b := true], pdir[i := Entry(b)], Drop(t, i)[UTable(i) := b], keep + PagesUnder(t, i))
  {
    var u := Drop(t, i);
    DropMarks(t, bm, keep, i);
    AddMarks(u, bm, keep + PagesUnder(t, i), UTable(i), b);
    hide Page, Zeros, Pte, Marks, Injective, Entry, Identity, PagesUnder;
    NewTablePoints(m, t, i, b);
    NewDirPoints(pdir, t, i, b);
    hide TablePoints, DirPoints;
  }

  lemma NewDirPoints(pdir: seq<nat>, t: Tree, i: nat, b: nat)
    requires |pdir| == NR_PDE && DirPoints(pdir, t) && KERNEL_TABLES <= i < USER_END && b < PAGE_NUM
    ensures DirPoints(pdir[i := Entry(b)], Drop(t, i)[UTable(i) := b])
  {
    hide Entry, Maps, Present;
    assert Maps(Entry(b), b, USER_TOO);
    assert Present(Entry(b)) by { PresentIfMapped(Entry(b), b, USER_TOO); }
  }

  lemma PresentIfMapped(w: nat, b: nat, access: nat)
    requires Maps(w, b, access)
    ensures Present(w)
  {
  }

  lemma NewTablePoints(m: seq<byte>, t: Tree, i: nat, b: nat)
    requires |m| == PHY_MEM && Closed(t) && TablePoints(m, t) && Closed(Drop(t, i)[UTable(i) := b])
    requires b < PAGE_NUM && Page(m, b) == Zeros()
    ensures TablePoints(m, Drop(t, i)[UTable(i) := b])
  {
    hide Page, Zeros, Pte;
    var t' := Drop(t, i)[UTable(i) := b];
    forall i', j | UTable(i') in t' && 0 <= j < NR_PTE
      ensures (Frame(i', j) in t' <==> Present(Pte(m, t'[UTable(i')], j)))
      ensures Frame(i', j) in t' ==> Maps(Pte(m, t'[UTable(i')], j), t'[Frame(i', j)], USER_TOO)
    {
      if i' == i { ZeroTable(m, b, j); } else { assert UTable(i') in t && t'[UTable(i')] == t[UTable(i')]; }
    }
  }

  /** Writing to a page that is no kernel table leaves the kernel tables alone. */
  lemma KernelStays(m: seq<byte>, t: Tree, c: nat, o: nat, x: seq<byte>, s: Slot, b: nat)
    requires |m| == PHY_MEM && Closed(t) && KernelPoints(m, t) && Closed(t[s := b]) && !s.KTable?
    requires c < PAGE_NUM && o + |x| <= PAGE_SIZE && forall i :: KTable(i) in t ==> t[KTable(i)] != c
    ensures KernelPoints(Splice(m, PageAddr(c) + o, x), t[s := b])
  {
    hide Splice, Page, Pte, Identity;
    var m' := Splice(m, PageAddr(c) + o, x);
    SplicePage(m, c, o, x);
    forall i | KTable(i) in t[s := b] ensures Identity(m', t[s := b][KTable(i)], i) {
      SamePage(m, m', t[KTable(i)], i);
    }
  }

  lemma AddFrameEntry(m: seq<byte>, t: Tree, i: nat, j: nat, b: nat)
    requires |m| == PHY_MEM && Closed(t) && Injective(t) && TablePoints(m, t) && Closed(t[Frame(i, j) := b])
    requires UTable(i) in t && j < NR_PTE && b < PAGE_NUM
    ensures TablePoints(Splice(m, PageAddr(t[UTable(i)]) + 4 * j, WordBytes(Entry(b))), t[Frame(i, j) := b])
  {
    hide Splice, WordBytes, Page, Pte;
    var tb, t' := t[UTable(i)], t[Frame(i, j) := b];
    var m' := Splice(m, PageAddr(tb) + 4 * j, WordBytes(Entry(b)));
    forall i', j' | UTable(i') in t' && 0 <= j' < NR_PTE
      ensures (Frame(i', j') in t' <==> Present(Pte(m', t'[UTable(i')], j')))
      ensures Frame(i', j') in t' ==> Maps(Pte(m', t'[UTable(i')], j'), t'[Frame(i', j')], USER_TOO)
    {
      PteAfterPut(m, tb, j, Entry(b), t[UTable(i')], j');
      assert i' != i ==> t[UTable(i')] != tb;
    }
  }
}
