/** The steps by which an address space is built, on memory images, with page accounting. */
module PageSteps {
  import opened Bytes
  import opened Counting
  import opened PageLayout

  /** An address space under construction: its slots stay within `goal`, and the free pages cover what is missing. */
  ghost predicate Building(m0: seq<byte>, m: seq<byte>, bm: seq<bool>, pdir: seq<nat>, t: Tree, keep: set<nat>,
                           goal: set<Slot>)
  {
    && Layout(m, bm, pdir, t, keep) && Framed(m0, m, keep)
    && t.Keys <= goal && |FreeSet(bm)| + |t| >= |goal|
  }

  lemma Room(m0: seq<byte>, m: seq<byte>, bm: seq<bool>, pdir: seq<nat>, t: Tree, keep: set<nat>, goal: set<Slot>,
             s: Slot)
    requires Building(m0, m, bm, pdir, t, keep, goal) && s in goal && s !in t
    ensures exists b :: 0 <= b < |bm| && !bm[b]
  {
    MissingMeansFree(t.Keys, bm, goal, s);
  }

  /** Pages other than those in `touched` are as they were. */
  ghost predicate OnlyPages(m: seq<byte>, m': seq<byte>, touched: set<nat>) {
    |m| == |m'| == PHY_MEM && forall c :: 0 <= c < PAGE_NUM && c !in touched ==> Page(m', c) == Page(m, c)
  }

  lemma FramedTrans(m0: seq<byte>, m1: seq<byte>, m2: seq<byte>, keep: set<nat>)
    requires Framed(m0, m1, keep) && Framed(m1, m2, keep)
    ensures Framed(m0, m2, keep)
  {
  }

  /** Filling a page that is not in use yet. */
  lemma FillStep(m0: seq<byte>, m: seq<byte>, bm: seq<bool>, pdir: seq<nat>, t: Tree, keep: set<nat>, goal: set<Slot>,
                 b: nat, o: nat, x: seq<byte>)
    requires Building(m0, m, bm, pdir, t, keep, goal) && b < PAGE_NUM && !bm[b] && o + |x| <= PAGE_SIZE
    ensures var m' := Splice(m, PageAddr(b) + o, x);
            && Building(m0, m', bm, pdir, t, keep, goal) && OnlyPages(m, m', {b})
            && Page(m', b) == Splice(Page(m, b), o, x)
  {
    hide Splice, Page, DirPoints, TablePoints, KernelPoints, Injective;
    assert b !in t.Values && b !in keep;
    FillFree(m, bm, pdir, t, keep, b, o, x);
    SplicePage(m, b, o, x);
    FramedTrans(m0, m, Splice(m, PageAddr(b) + o, x), keep);
  }

  lemma SpliceAll(a: seq<byte>, b: seq<byte>)
    requires |a| == |b|
    ensures Splice(a, 0, b) == b
  {
  }

  lemma TableStep(m0: seq<byte>, m: seq<byte>, bm: seq<bool>, pdir: seq<nat>, t: Tree, keep: set<nat>, goal: set<Slot>,
                  i: nat, b: nat)
    requires Building(m0, m, bm, pdir, t, keep, goal) && b < PAGE_NUM && !bm[b] && Page(m, b) == Zeros()
    requires KERNEL_TABLES <= i < USER_END && UTable(i) in goal && UTable(i) !in t
    ensures |pdir| == NR_PDE
    ensures Building(m0, m, bm[b := true], pdir[i := Entry(b)], t[UTable(i) := b], keep, goal)
  {
    AddTable(m, bm, pdir, t, keep, i, b);
    hide Page, DirPoints, TablePoints, KernelPoints, Injective, Marks, Closed;
    TakeFree(bm, b);
    assert t[UTable(i) := b].Keys == t.Keys + {UTable(i)};
  }

  lemma KernelTableStep(m0: seq<byte>, m: seq<byte>, bm: seq<bool>, pdir: seq<nat>, t: Tree, keep: set<nat>,
                        goal: set<Slot>, i: nat, b: nat)
    requires Building(m0, m, bm, pdir, t, keep, goal) && b < PAGE_NUM && !bm[b]
    requires i < KERNEL_TABLES && KTable(i) in goal && KTable(i) !in t && |m| == PHY_MEM && Identity(m, b, i)
    ensures |pdir| == NR_PDE
    ensures Building(m0, m, bm[b := true], pdir[i := KernelEntry(b)][i + USER_END := Entry(b)], t[KTable(i) := b], keep,
                     goal)
  {
    AddKernelTable(m, bm, pdir, t, keep, i, b);
    hide Page, DirPoints, TablePoints, KernelPoints, Injective, Marks, Closed;
    TakeFree(bm, b);
    assert t[KTable(i) := b].Keys == t.Keys + {KTable(i)};
  }

  lemma FrameStep(m0: seq<byte>, m: seq<byte>, bm: seq<bool>, pdir: seq<nat>, t: Tree, keep: set<nat>, goal: set<Slot>,
                  i: nat, j: nat, b: nat)
    requires Building(m0, m, bm, pdir, t, keep, goal) && b < PAGE_NUM && !bm[b]
    requires UTable(i) in t && j < NR_PTE && Frame(i, j) in goal && Frame(i, j) !in t
    ensures t[UTable(i)] < PAGE_NUM && t[UTable(i)] != b
    ensures var m' := Splice(m, PageAddr(t[UTable(i)]) + 4 * j, WordBytes(Entry(b)));
            && Building(m0, m', bm[b := true], pdir, t[Frame(i, j) := b], keep, goal)
            && OnlyPages(m, m', {t[UTable(i)]})
  {
    hide Layout, Page, Splice, WordBytes, Entry, Framed, FreeSet;
    AddFrame(m, bm, pdir, t, keep, i, j, b);
    OwnPage(m, bm, pdir, t, keep, UTable(i), b);
    TakeFree(bm, b);
    assert t[Frame(i, j) := b].Keys == t.Keys + {Frame(i, j)};
    SplicePage(m, t[UTable(i)], 4 * j, WordBytes(Entry(b)));
    FramedTrans(m0, m, Splice(m, PageAddr(t[UTable(i)]) + 4 * j, WordBytes(Entry(b))), keep);
  }

  lemma OwnPage(m: seq<byte>, bm: seq<bool>, pdir: seq<nat>, t: Tree, keep: set<nat>, s: Slot, b: nat)
    requires Layout(m, bm, pdir, t, keep) && s in t && b < PAGE_NUM
    ensures |m| == PHY_MEM && |bm| == PAGE_NUM && t[s] < PAGE_NUM && bm[t[s]] && (!bm[b] ==> t[s] != b)
  {
    hide DirPoints, TablePoints, KernelPoints, Injective;
    assert t[s] in t.Values;
  }
}
