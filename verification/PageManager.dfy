/** The MEMORY server: the page allocator and the operations that build, copy and tear down address spaces. */
module PageManager {
  import opened Wrappers
  import opened Bytes
  import opened Counting
  import opened PageLayout
  import opened PageSteps
  import opened SegmentSteps

  class Pool {
    const mem: array<byte>
    const pageBitmap: array<bool>
    var bitmapIdx: nat

    ghost predicate Valid()
      reads this
    {
      mem.Length == PHY_MEM && pageBitmap.Length == PAGE_NUM && bitmapIdx < PAGE_NUM
    }

    constructor ()
      ensures Valid() && fresh(mem) && fresh(pageBitmap)
    {
      mem := new byte[PHY_MEM];
      pageBitmap := new bool[PAGE_NUM];
      bitmapIdx := 0;
    }

    /** get_idle_page: the first idle page at or after the cursor, cyclically; endless when there is none. */
    method GetIdlePage() returns (ghost b: nat, page: nat)
      requires Valid() && exists x :: 0 <= x < PAGE_NUM && !pageBitmap[x]
      modifies pageBitmap, this`bitmapIdx
      ensures Valid()
      ensures b < PAGE_NUM && page == PageAddr(b)
      ensures !old(pageBitmap[b]) && pageBitmap[..] == old(pageBitmap[..])[b := true]
    {
      ghost var x :| 0 <= x < PAGE_NUM && !pageBitmap[x];
      while pageBitmap[bitmapIdx]
        modifies this`bitmapIdx
        invariant bitmapIdx < PAGE_NUM
        decreases if x >= bitmapIdx then x - bitmapIdx else x - bitmapIdx + PAGE_NUM
      {
        bitmapIdx := (bitmapIdx + 1) % PAGE_NUM;
      }
      b := bitmapIdx;
      pageBitmap[bitmapIdx] := true;
      page := KERNEL_MEM + bitmapIdx * PAGE_SIZE;
    }

    /** set_page_idle */
    method SetPageIdle(page: nat, ghost b: nat)
      requires Valid() && b < PAGE_NUM && page == PageAddr(b)
      modifies pageBitmap
      ensures pageBitmap[..] == old(pageBitmap[..])[b := false]
    {
      var idx := (page - KERNEL_MEM) / PAGE_SIZE;
      assert idx == b;
      pageBitmap[idx] := false;
    }

    /** memcpy of x to a physical address. */
    method Write(addr: nat, x: seq<byte>)
      requires Valid() && addr + |x| <= PHY_MEM
      modifies mem
      ensures mem[..] == Splice(old(mem[..]), addr, x)
    {
      forall i | 0 <= i < |x| { mem[addr + i] := x[i]; }
    }

    /** A new page table in directory entry i. */
    method NewTable(pdir: array<nat>, i: nat, ghost m0: seq<byte>, ghost t0: Tree, ghost keep: set<nat>,
                    ghost goal: set<Slot>)
      returns (ptable: nat, ghost t: Tree)
      requires Valid() && pdir.Length == NR_PDE
      requires Building(m0, mem[..], pageBitmap[..], pdir[..], t0, keep, goal)
      requires KERNEL_TABLES <= i < USER_END && UTable(i) in goal && UTable(i) !in t0
      modifies mem, pageBitmap, this`bitmapIdx, pdir
      ensures Valid()
      ensures UTable(i) in t && t == t0[UTable(i) := t[UTable(i)]] && t[UTable(i)] < PAGE_NUM
      ensures ptable == PageAddr(t[UTable(i)])
      ensures Building(m0, mem[..], pageBitmap[..], pdir[..], t, keep, goal)
      ensures OnlyPages(old(mem[..]), mem[..], {t[UTable(i)]}) && !old(pageBitmap[t[UTable(i)]])
    {
      hide Building, Splice, Page, OnlyPages, Entry, FreeSet;
      ghost var m, bm, pd := mem[..], pageBitmap[..], pdir[..];
      Room(m0, m, bm, pd, t0, keep, goal, UTable(i));
      ghost var b;
      b, ptable := GetIdlePage();
      FillStep(m0, m, bm, pd, t0, keep, goal, b, 0, Zeros());
      WholePage(m, b, Zeros());
      Write(ptable, Zeros());
      TableStep(m0, mem[..], bm, pd, t0, keep, goal, i, b);
      pdir[i] := EntryWord(ptable, b);
      t := t0[UTable(i) := b];
      assert pdir[..] == pd[i := Entry(b)];
    }

    /** make_pde / make_pte: the word for a page address. */
    method EntryWord(page: nat, ghost b: nat) returns (w: nat)
      requires b < PAGE_NUM && page == PageAddr(b)
      ensures w == Entry(b)
    {
      w := page + 7;
    }

    /** A new zeroed frame as entry j of the table of directory entry i. */
    method NewFrame(ptable: nat, j: nat, x: seq<byte>, ghost i: nat, ghost pd: seq<nat>, ghost m0: seq<byte>,
                    ghost t0: Tree, ghost keep: set<nat>, ghost goal: set<Slot>)
      returns (ghost t: Tree)
      requires Valid() && Building(m0, mem[..], pageBitmap[..], pd, t0, keep, goal)
      requires UTable(i) in t0 && t0[UTable(i)] < PAGE_NUM && ptable == PageAddr(t0[UTable(i)])
      requires j < NR_PTE && Frame(i, j) in goal && Frame(i, j) !in t0 && |x| == PAGE_SIZE
      modifies mem, pageBitmap, this`bitmapIdx
      ensures Valid()
      ensures Frame(i, j) in t && t == t0[Frame(i, j) := t[Frame(i, j)]] && t[Frame(i, j)] < PAGE_NUM
      ensures Building(m0, mem[..], pageBitmap[..], pd, t, keep, goal)
      ensures Page(mem[..], t[Frame(i, j)]) == x
      ensures OnlyPages(old(mem[..]), mem[..], {t[Frame(i, j)], t0[UTable(i)]}) && !old(pageBitmap[t[Frame(i, j)]])
    {
      hide Building, Splice, Page, OnlyPages, Entry, FreeSet, WordBytes;
      ghost var m, bm := mem[..], pageBitmap[..];
      Room(m0, m, bm, pd, t0, keep, goal, Frame(i, j));
      ghost var b;
      var pframe;
      b, pframe := GetIdlePage();
      FillStep(m0, m, bm, pd, t0, keep, goal, b, 0, x);
      WholePage(m, b, x);
      Write(pframe, x);
      ghost var m1 := mem[..];
      FrameStep(m0, m1, bm, pd, t0, keep, goal, i, j, b);
      var w := EntryWord(pframe, b);
      Write(ptable + 4 * j, WordBytes(w));
      t := t0[Frame(i, j) := b];
      TwoPages(m, m1, mem[..], b, t0[UTable(i)]);
    }

    /** A new frame with whatever it holds, as entry j of the table of directory entry i. */
    method RawFrame(ptable: nat, j: nat, ghost i: nat, ghost pd: seq<nat>, ghost m0: seq<byte>, ghost t0: Tree,
                    ghost keep: set<nat>, ghost goal: set<Slot>)
      returns (ghost t: Tree)
      requires Valid() && Building(m0, mem[..], pageBitmap[..], pd, t0, keep, goal)
      requires UTable(i) in t0 && t0[UTable(i)] < PAGE_NUM && ptable == PageAddr(t0[UTable(i)])
      requires j < NR_PTE && Frame(i, j) in goal && Frame(i, j) !in t0
      modifies mem, pageBitmap, this`bitmapIdx
      ensures Valid()
      ensures Frame(i, j) in t && t == t0[Frame(i, j) := t[Frame(i, j)]]
      ensures Building(m0, mem[..], pageBitmap[..], pd, t, keep, goal)
    {
      hide Building, Splice, Page, OnlyPages, Entry, FreeSet, WordBytes;
      ghost var m, bm := mem[..], pageBitmap[..];
      Room(m0, m, bm, pd, t0, keep, goal, Frame(i, j));
      ghost var b;
      var pframe;
      b, pframe := GetIdlePage();
      FrameStep(m0, m, bm, pd, t0, keep, goal, i, j, b);
      var w := EntryWord(pframe, b);
      Write(ptable + 4 * j, WordBytes(w));
      t := t0[Frame(i, j) := b];
    }

    /** Kernel page table i: the 4 MB from i * 4 MB on, mapped to themselves. */
    method KernelTable(pdir: array<nat>, i: nat, ghost m0: seq<byte>, ghost t0: Tree, ghost keep: set<nat>,
                       ghost goal: set<Slot>)
      returns (ghost t: Tree)
      requires Valid() && pdir.Length == NR_PDE && i < KERNEL_TABLES
      requires Building(m0, mem[..], pageBitmap[..], pdir[..], t0, keep, goal) && KTable(i) in goal && KTable(i) !in t0
      modifies mem, pageBitmap, this`bitmapIdx, pdir
      ensures Valid()
      ensures KTable(i) in t && t == t0[KTable(i) := t[KTable(i)]]
      ensures Building(m0, mem[..], pageBitmap[..], pdir[..], t, keep, goal)
    {
      hide Building, Splice, Page, OnlyPages, FreeSet, WordBytes, Pte, WordAt;
      ghost var m, bm := mem[..], pageBitmap[..];
      ghost var pd: seq<nat> := pdir[..];
      Room(m0, m, bm, pd, t0, keep, goal, KTable(i));
      ghost var b;
      var ptable;
      b, ptable := GetIdlePage();
      FillStep(m0, m, bm, pd, t0, keep, goal, b, 0, Zeros());
      Write(ptable, Zeros());
      var w := EntryWord(ptable, b);
      assert w - 4 == KernelEntry(b);
      pdir[i] := w - 4;
      pdir[i + USER_END] := w;
      var pframe := i * NR_PTE;
      for j := 0 to NR_PTE
        invariant Valid() && pframe == i * NR_PTE + j
        invariant pageBitmap[..] == bm[b := true] && pdir[..] == pd[i := KernelEntry(b)][i + USER_END := Entry(b)]
        invariant Building(m0, mem[..], bm, pd, t0, keep, goal)
        invariant forall k :: 0 <= k < j ==> Pte(mem[..], b, k) == (i * NR_PTE + k) * PAGE_SIZE + 7
      {
        m := mem[..];
        FillStep(m0, m, bm, pd, t0, keep, goal, b, 4 * j, WordBytes(pframe * PAGE_SIZE + 7));
        Write(ptable + 4 * j, WordBytes(pframe * PAGE_SIZE + 7));
        forall k | 0 <= k <= j ensures Pte(mem[..], b, k) == (i * NR_PTE + k) * PAGE_SIZE + 7 {
          PteAfterPut(m, b, j, pframe * PAGE_SIZE + 7, b, k);
        }
        pframe := pframe + 1;
      }
      assert Identity(mem[..], b, i);
      KernelTableStep(m0, mem[..], bm, pd, t0, keep, goal, i, b);
      t := t0[KTable(i) := b];
    }

    /** make_invalid_pde on every entry. */
    method ClearDir(pdir: array<nat>)
      requires pdir.Length == NR_PDE
      modifies pdir
      ensures forall x :: 0 <= x < NR_PDE ==> pdir[x] == 0
    {
      for k := 0 to NR_PDE
        invariant forall x :: 0 <= x < k ==> pdir[x] == 0
      {
        pdir[k] := 0;
      }
    }

    /** create_kernel_dir: an empty directory, then the kernel's four tables. */
    method CreateKernelDir(pdir: array<nat>, ghost m0: seq<byte>, ghost keep: set<nat>, ghost goal: set<Slot>)
      returns (ghost t: Tree)
      requires Valid() && pdir.Length == NR_PDE && m0 == mem[..]
      requires Marks(map[], pageBitmap[..], keep) && |FreeSet(pageBitmap[..])| >= |goal|
      requires KernelKeys(KERNEL_TABLES) <= goal
      modifies mem, pageBitmap, this`bitmapIdx, pdir
      ensures Valid() && t.Keys == KernelKeys(KERNEL_TABLES)
      ensures Building(m0, mem[..], pageBitmap[..], pdir[..], t, keep, goal)
    {
      hide Building, FreeSet, Marks, KernelKeys;
      ClearDir(pdir);
      assert pageBitmap[..] == old(pageBitmap[..]) && mem[..] == m0;
      EmptySpace(m0, pageBitmap[..], pdir[..], keep, goal);
      t := map[];
      KernelKeysStep(0);
      for k := 0 to KERNEL_TABLES
        invariant Valid() && t.Keys == KernelKeys(k)
        invariant Building(m0, mem[..], pageBitmap[..], pdir[..], t, keep, goal)
      {
        KernelKeysStep(k);
        t := KernelTable(pdir, k, m0, t, keep, goal);
      }
    }

    /** create_stack_page: ten pages below 0xC0000000. */
    method CreateStackPage(pdir: array<nat>, ghost m0: seq<byte>, ghost t0: Tree, ghost keep: set<nat>,
                           ghost goal: set<Slot>)
      returns (ghost t: Tree)
      requires Valid() && pdir.Length == NR_PDE
      requires Building(m0, mem[..], pageBitmap[..], pdir[..], t0, keep, goal)
      requires StackKeys(10) <= goal && StackKeys(10) !! t0.Keys
      modifies mem, pageBitmap, this`bitmapIdx, pdir
      ensures Valid() && t.Keys == t0.Keys + StackKeys(10)
      ensures Building(m0, mem[..], pageBitmap[..], pdir[..], t, keep, goal)
    {
      hide Building, Page, OnlyPages;
      var pdirIdx := 0xbffff000 / 0x400000;
      assert UTable(767) in StackKeys(10);
      var ptable;
      ptable, t := NewTable(pdir, pdirIdx, m0, t0, keep, goal);
      var ptableIdx := 0xbffff000 / 0x1000 % 0x400;
      ghost var pd, tb := pdir[..], t[UTable(767)];
      assert t.Keys == t0.Keys + StackKeys(0);
      for i := 0 to 10
        invariant Valid() && ptableIdx == 1023 - i && pd == pdir[..]
        invariant t.Keys == t0.Keys + StackKeys(i) && UTable(767) in t && t[UTable(767)] == tb
        invariant Building(m0, mem[..], pageBitmap[..], pd, t, keep, goal)
      {
        assert Frame(767, ptableIdx) in StackKeys(10) && Frame(767, ptableIdx) !in StackKeys(i);
        t := RawFrame(ptable, ptableIdx, 767, pd, m0, t, keep, goal);
        assert StackKeys(i + 1) == StackKeys(i) + {Frame(767, ptableIdx)};
        ptableIdx := ptableIdx - 1;
      }
    }

    /** The inner loop of copy_process: the frames below directory entry i. */
    method CopyTable(i: nat, pPtable: nat, cPtable: nat, ghost ppd: seq<nat>, ghost cpd: seq<nat>, ghost tp: Tree,
                     ghost m0: seq<byte>, ghost t0: Tree, ghost keep: set<nat>, ghost goal: set<Slot>)
      returns (ghost t: Tree)
      requires Valid() && Readable(m0, ppd, tp, keep) && UTable(i) in tp && pPtable == PageAddr(tp[UTable(i)])
      requires Building(m0, mem[..], pageBitmap[..], cpd, t0, keep, goal) && goal == tp.Keys
      requires UTable(i) in t0 && t0[UTable(i)] < PAGE_NUM && cPtable == PageAddr(t0[UTable(i)])
      requires t0.Keys == Upto(tp, i) + {UTable(i)} && Copied(m0, tp, mem[..], t0)
      modifies mem, pageBitmap, this`bitmapIdx
      ensures Valid()
      ensures Building(m0, mem[..], pageBitmap[..], cpd, t, keep, goal)
      ensures t.Keys == Upto(tp, i + 1) && Copied(m0, tp, mem[..], t)
    {
      hide Building, Page, OnlyPages, Copied, Splice, WordAt, Pte, Readable;
      t := t0;
      ghost var tb := t[UTable(i)];
      assert Part(tp, i, 0) == {};
      for j := 0 to NR_PTE
        invariant Valid() && t.Keys == Upto(tp, i) + {UTable(i)} + Part(tp, i, j)
        invariant UTable(i) in t && t[UTable(i)] == tb
        invariant Building(m0, mem[..], pageBitmap[..], cpd, t, keep, goal) && Copied(m0, tp, mem[..], t)
      {
        ghost var m, bm := mem[..], pageBitmap[..];
        var w := WordAt(mem[..], pPtable + 4 * j);
        ParentEntry(m0, m, bm, cpd, t, keep, goal, ppd, tp, i, j);
        if w % 2 == 1 {
          var pPframe := w / PAGE_SIZE * PAGE_SIZE;
          ghost var t1 := t;
          var x := mem[pPframe..pPframe + PAGE_SIZE];
          assert x == m[pPframe..pPframe + PAGE_SIZE];
          t := NewFrame(cPtable, j, x, i, cpd, m0, t, keep, goal);
          CopiedStep(m0, tp, m, bm, mem[..], t1, t, cpd, keep, goal, i, j);
        }
        assert Part(tp, i, j + 1) == Part(tp, i, j) + (if Frame(i, j) in tp then {Frame(i, j)} else {});
      }
      TableDone(m0, ppd, tp, keep, i);
    }

    /** copy_process: for each user table of the parent a table of the child, for each frame a copy. */
    method CopyProcess(pPdir: array<nat>, cPdir: array<nat>, ghost tp: Tree, ghost m0: seq<byte>, ghost t0: Tree,
                       ghost keep: set<nat>, ghost goal: set<Slot>)
      returns (ghost t: Tree)
      requires Valid() && pPdir.Length == NR_PDE && cPdir.Length == NR_PDE && pPdir != cPdir
      requires Readable(m0, pPdir[..], tp, keep) && KernelKeys(KERNEL_TABLES) <= tp.Keys
      requires Building(m0, mem[..], pageBitmap[..], cPdir[..], t0, keep, goal) && goal == tp.Keys
      requires t0.Keys == KernelKeys(KERNEL_TABLES)
      modifies mem, pageBitmap, this`bitmapIdx, cPdir
      ensures Valid()
      ensures Building(m0, mem[..], pageBitmap[..], cPdir[..], t, keep, goal)
      ensures t.Keys == tp.Keys && Copied(m0, tp, mem[..], t)
    {
      hide Building, Page, OnlyPages, Copied, Splice, WordAt, Pte, Readable;
      t := t0;
      ghost var ppd := pPdir[..];
      NothingCopied(m0, tp, mem[..], pageBitmap[..], cPdir[..], t, keep, goal, ppd);
      for i := KERNEL_TABLES to USER_END
        invariant Valid() && pPdir[..] == ppd && t.Keys == Upto(tp, i)
        invariant Building(m0, mem[..], pageBitmap[..], cPdir[..], t, keep, goal) && Copied(m0, tp, mem[..], t)
      {
        ParentDir(m0, ppd, tp, keep, i);
        if pPdir[i] % 2 == 1 {
          var pPtable := pPdir[i] / PAGE_SIZE * PAGE_SIZE;
          ghost var m, bm, cpd, t1 := mem[..], pageBitmap[..], cPdir[..], t;
          var cPtable;
          cPtable, t := NewTable(cPdir, i, m0, t, keep, goal);
          CopiedTable(m0, tp, m, bm, mem[..], t1, t, cpd, keep, goal, i);
          t := CopyTable(i, pPtable, cPtable, ppd, cPdir[..], tp, m0, t, keep, goal);
        } else {
          NoTable(m0, ppd, tp, keep, i);
        }
      }
      EverythingCopied(m0, ppd, tp, keep);
    }

    /** The inner loop of takeback_page: give back the frames below directory entry i and wipe their entries. */
    method TakebackTable(ptable: nat, ghost i: nat, ghost m0: seq<byte>, ghost bm0: seq<bool>, ghost pd: seq<nat>,
                         ghost t: Tree, ghost keep: set<nat>, ghost g0: set<Slot>)
      returns (ghost g: set<Slot>)
      requires Valid() && Layout(m0, bm0, pd, t, keep) && UTable(i) in t && ptable == PageAddr(t[UTable(i)])
      requires Framed(m0, mem[..], keep) && Page(mem[..], t[UTable(i)]) == Page(m0, t[UTable(i)])
      requires Cleared(bm0, pageBitmap[..], Image(t, g0))
      modifies mem, pageBitmap
      ensures Framed(m0, mem[..], keep) && OnlyPages(old(mem[..]), mem[..], {t[UTable(i)]})
      ensures g == g0 + Part(t, i, NR_PTE) && Cleared(bm0, pageBitmap[..], Image(t, g))
    {
      hide Layout, Page, OnlyPages, Splice, WordAt, Pte, Framed, Cleared, Image;
      ghost var tb, mi := t[UTable(i)], mem[..];
      g := g0;
      assert Part(t, i, 0) == {};
      OwnPage(m0, bm0, pd, t, keep, UTable(i), 0);
      SameMemory(mi, tb);
      forall k | 0 <= k < NR_PTE ensures Pte(mi, tb, k) == Pte(m0, tb, k) { PteSame(m0, mi, tb, k); }
      for j := 0 to NR_PTE
        invariant Framed(m0, mem[..], keep) && OnlyPages(mi, mem[..], {tb})
        invariant forall k :: j <= k < NR_PTE ==> Pte(mem[..], tb, k) == Pte(m0, tb, k)
        invariant g == g0 + Part(t, i, j) && Cleared(bm0, pageBitmap[..], Image(t, g))
      {
        ghost var m := mem[..];
        PteIsWord(m, tb, j);
        OwnEntry(m0, bm0, pd, t, keep, i, j);
        var w := WordAt(mem[..], ptable + 4 * j);
        if w % 2 == 1 {
          var pframe := w / PAGE_SIZE * PAGE_SIZE;
          ghost var b := t[Frame(i, j)];
          OwnPage(m0, bm0, pd, t, keep, Frame(i, j), 0);
          ClearedLength(bm0, pageBitmap[..], Image(t, g));
          ClearMore(bm0, pageBitmap[..], t, g, Frame(i, j));
          SetPageIdle(pframe, b);
          g := g + {Frame(i, j)};
          OwnWrite(m0, m, bm0, pd, t, keep, UTable(i), 4 * j, WordBytes(0));
          Write(ptable + 4 * j, WordBytes(0));
          TwoPages(mi, m, mem[..], tb, tb);
          assert {tb, tb} == {tb};
          forall k | j < k < NR_PTE ensures Pte(mem[..], tb, k) == Pte(m0, tb, k) {
            PteAfterPut(m, tb, j, 0, tb, k);
          }
        }
        assert Part(t, i, j + 1) == Part(t, i, j) + (if Frame(i, j) in t then {Frame(i, j)} else {});
      }
    }

    /** takeback_page: give back every page the process owns. */
    method TakebackPage(pdir: array<nat>, ghost t: Tree, ghost keep: set<nat>)
      requires Valid() && pdir.Length == NR_PDE && KernelKeys(KERNEL_TABLES) <= t.Keys
      requires Layout(mem[..], pageBitmap[..], pdir[..], t, keep)
      modifies mem, pageBitmap, pdir
      ensures Marks(map[], pageBitmap[..], keep) && Framed(old(mem[..]), mem[..], keep)
    {
      hide Layout, Page, OnlyPages, Framed, Cleared, Image, KernelKeys, Marks;
      ghost var m0, bm0 := mem[..], pageBitmap[..];
      ghost var pd: seq<nat> := pdir[..];
      ghost var g: set<Slot> := KernelKeys(0);
      StartTakeback(m0, bm0, pd, t, keep);
      for i := 0 to KERNEL_TABLES
        modifies pageBitmap
        invariant pdir[..] == pd && mem[..] == m0
        invariant g == KernelKeys(i) && Cleared(bm0, pageBitmap[..], Image(t, g))
      {
        OwnKernel(m0, bm0, pd, t, keep, i);
        ClearedLength(bm0, pageBitmap[..], Image(t, g));
        var ptable := pdir[i] / PAGE_SIZE * PAGE_SIZE;
        ClearMore(bm0, pageBitmap[..], t, g, KTable(i));
        SetPageIdle(ptable, t[KTable(i)]);
        g := g + {KTable(i)};
      }
      KernelUpto(m0, bm0, pd, t, keep);
      for i := KERNEL_TABLES to USER_END
        invariant forall k :: i <= k < NR_PDE ==> pdir[k] == pd[k]
        invariant Framed(m0, mem[..], keep) && TablesFrom(m0, mem[..], t, i)
        invariant g == Upto(t, i) && Cleared(bm0, pageBitmap[..], Image(t, g))
      {
        OwnDir(m0, bm0, pd, t, keep, i);
        if pdir[i] % 2 == 1 {
          var ptable := pdir[i] / PAGE_SIZE * PAGE_SIZE;
          ghost var m := mem[..];
          g := TakebackTable(ptable, i, m0, bm0, pd, t, keep, g);
          ClearedLength(bm0, pageBitmap[..], Image(t, g));
          ClearMore(bm0, pageBitmap[..], t, g, UTable(i));
          SetPageIdle(ptable, t[UTable(i)]);
          g := g + {UTable(i)};
          TablesNext(m0, m, mem[..], bm0, pd, t, keep, i);
          pdir[i] := 0;
        }
        UptoNext(m0, bm0, pd, t, keep, i);
      }
      AllGone(m0, bm0, pageBitmap[..], pd, t, keep);
    }

    /** A page of zeros that is in no tree yet; `bm` is the bitmap without the pages taken so far. */
    method ZeroPage(ghost m0: seq<byte>, ghost bm: seq<bool>, ghost pd: seq<nat>, ghost t: Tree, ghost keep: set<nat>,
                    ghost lost: set<nat>)
      returns (ghost b: nat, page: nat)
      requires Valid() && Loading(m0, mem[..], bm, pd, t, keep, lost) && |bm| == PAGE_NUM
      requires forall x :: 0 <= x < PAGE_NUM && bm[x] ==> pageBitmap[x]
      requires FreeSet(pageBitmap[..]) != {}
      modifies mem, pageBitmap, this`bitmapIdx
      ensures Valid() && b < PAGE_NUM && page == PageAddr(b) && !bm[b]
      ensures !old(pageBitmap[b]) && pageBitmap[..] == old(pageBitmap[..])[b := true]
      ensures |FreeSet(pageBitmap[..])| == |FreeSet(old(pageBitmap[..]))| - 1
      ensures Loading(m0, mem[..], bm, pd, t, keep, lost)
      ensures OnlyPages(old(mem[..]), mem[..], {b}) && Page(mem[..], b) == Zeros()
    {
      hide Loading, Splice, Page, OnlyPages, FreeSet, Zeros;
      ghost var used := pageBitmap[..];
      SomeIdle(used);
      b, page := GetIdlePage();
      TakeFree(used, b);
      LoadFill(m0, mem[..], bm, pd, t, keep, lost, b, Zeros());
      Write(page, Zeros());
    }

    /** One page of a segment after the first: a zeroed frame, and a new table when the old one is full, each entered
        without a look at what was there. The frame is taken from the pool before the table. */
    method SegmentPage(pdir: array<nat>, pdirIdx0: nat, ptableIdx0: nat, ptable0: nat, ghost m0: seq<byte>,
                       ghost t0: Tree, ghost keep: set<nat>, ghost lost0: set<nat>)
      returns (pdirIdx: nat, ptableIdx: nat, ptable: nat, ghost t: Tree, ghost lost: set<nat>, ghost touched: set<nat>)
      requires Valid() && pdir.Length == NR_PDE && 0 < ptableIdx0 <= NR_PTE
      requires Loading(m0, mem[..], pageBitmap[..], pdir[..], t0, keep, lost0)
      requires UTable(pdirIdx0) in t0 && t0[UTable(pdirIdx0)] < PAGE_NUM && ptable0 == PageAddr(t0[UTable(pdirIdx0)])
      requires ptableIdx0 == NR_PTE ==> KERNEL_TABLES <= pdirIdx0 + 1 < USER_END
      requires |FreeSet(pageBitmap[..])| >= if ptableIdx0 == NR_PTE then 2 else 1
      modifies mem, pageBitmap, this`bitmapIdx, pdir
      ensures Valid()
      ensures ptableIdx0 < NR_PTE ==> pdirIdx == pdirIdx0 && ptableIdx == ptableIdx0 + 1
      ensures ptableIdx0 == NR_PTE ==> pdirIdx == pdirIdx0 + 1 && ptableIdx == 1
      ensures |FreeSet(pageBitmap[..])| == |FreeSet(old(pageBitmap[..]))| - if ptableIdx0 == NR_PTE then 2 else 1
      ensures Loading(m0, mem[..], pageBitmap[..], pdir[..], t, keep, lost)
      ensures Paged(t0, t, lost0, lost, pdirIdx, ptableIdx - 1)
      ensures t[UTable(pdirIdx)] < PAGE_NUM && ptable == PageAddr(t[UTable(pdirIdx)])
      ensures OnlyPages(old(mem[..]), mem[..], touched) &&
              Touchable(touched, old(pageBitmap[..]), t0, pdirIdx, ptableIdx - 1)
      ensures t[Frame(pdirIdx, ptableIdx - 1)] < PAGE_NUM && Page(mem[..], t[Frame(pdirIdx, ptableIdx - 1)]) == Zeros()
    {
      hide Loading, Splice, Page, OnlyPages, Entry, FreeSet, WordBytes, Zeros, Paged, Touchable;
      pdirIdx, ptableIdx, ptable, t, lost := pdirIdx0, ptableIdx0, ptable0, t0, lost0;
      ghost var m, bm := mem[..], pageBitmap[..];
      ghost var pd: seq<nat> := pdir[..];
      SomeFree(bm);
      ghost var b;
      var pframe;
      b, pframe := ZeroPage(m0, bm, pd, t, keep, lost);
      ghost var m1, bm1 := mem[..], bm;
      touched := {b};
      if ptableIdx == NR_PTE {
        SomeFree(pageBitmap[..]);
        pdirIdx := pdirIdx + 1;
        ghost var b2;
        b2, ptable := ZeroPage(m0, bm, pd, t, keep, lost);
        LoadTable(m0, mem[..], bm, pd, t, keep, lost, pdirIdx, b2);
        var w := EntryWord(ptable, b2);
        pdir[pdirIdx] := w;
        assert pdir[..] == pd[pdirIdx := Entry(b2)];
        ptableIdx := 0;
        t, lost, bm1 := Drop(t, pdirIdx)[UTable(pdirIdx) := b2], lost + PagesUnder(t, pdirIdx), bm[b2 := true];
        TwoPages(m, m1, mem[..], b, b2);
        touched := {b, b2};
      }
      ghost var m2 := mem[..];
      LoadFrame(m0, m2, bm1, pdir[..], t, keep, lost, pdirIdx, ptableIdx, b);
      var w := EntryWord(pframe, b);
      Write(ptable + 4 * ptableIdx, WordBytes(w));
      assert pageBitmap[..] == bm1[b := true];
      ghost var tb := t[UTable(pdirIdx)];
      lost := lost + Old(t, Frame(pdirIdx, ptableIdx));
      t := t[Frame(pdirIdx, ptableIdx) := b];
      MorePages(m, m2, mem[..], touched, tb);
      OtherPage(m2, mem[..], b, tb);
      touched := touched + {tb};
      PagedMeans(t0, t, lost0, lost, pdirIdx, ptableIdx, tb, b);
      TouchableMeans(touched, bm, t0, pdirIdx, ptableIdx);
      ptableIdx := ptableIdx + 1;
    }

    /** The first page of a segment: its table and its frame are made only if they are not there yet. */
    method FirstPage(pdir: array<nat>, pdirIdx: nat, ptableIdx: nat, ghost m0: seq<byte>, ghost t0: Tree,
                     ghost keep: set<nat>, ghost goal: set<Slot>)
      returns (ptable: nat, ghost t: Tree)
      requires Valid() && pdir.Length == NR_PDE && KERNEL_TABLES <= pdirIdx < USER_END && ptableIdx < NR_PTE
      requires Building(m0, mem[..], pageBitmap[..], pdir[..], t0, keep, goal)
      requires UTable(pdirIdx) in goal && Frame(pdirIdx, ptableIdx) in goal
      modifies mem, pageBitmap, this`bitmapIdx, pdir
      ensures Valid()
      ensures t.Keys == t0.Keys + {UTable(pdirIdx), Frame(pdirIdx, ptableIdx)} &&
              (forall s :: s in t0 ==> t[s] == t0[s])
      ensures t[UTable(pdirIdx)] < PAGE_NUM && ptable == PageAddr(t[UTable(pdirIdx)])
      ensures Building(m0, mem[..], pageBitmap[..], pdir[..], t, keep, goal) && ZeroNew(mem[..], t, t0.Keys)
      ensures SameFrames(old(mem[..]), mem[..], t0)
    {
      hide Building, Splice, Page, OnlyPages, Entry, FreeSet, WordBytes, ZeroNew, Zeros, WordAt, Pte, SameFrames;
      t := t0;
      ghost var m, bm := mem[..], pageBitmap[..];
      ghost var pd: seq<nat> := pdir[..];
      NothingTouched(m);
      FramesStay(m0, m, bm, pd, t, keep, goal, m, {}, pdirIdx);
      NothingNew(m0, m, bm, pd, t, keep, goal);
      BuildingDir(m0, m, bm, pd, t, keep, goal, pdirIdx);
      if pdir[pdirIdx] % 2 != 1 {
        ptable, t := NewTable(pdir, pdirIdx, m0, t, keep, goal);
        ZeroFill(m0, m, bm, pd, mem[..], t0, keep, goal, t[UTable(pdirIdx)], t0.Keys);
        ZeroTableOnly(mem[..], t0, t, pdirIdx, t0.Keys);
        FramesStay(m0, m, bm, pd, t0, keep, goal, mem[..], {t[UTable(pdirIdx)]}, pdirIdx);
      }
      ghost var m00 := m;
      m, bm, pd := mem[..], pageBitmap[..], pdir[..];
      ghost var t1 := t;
      BuildingDir(m0, m, bm, pd, t, keep, goal, pdirIdx);
      ptable := pdir[pdirIdx] / PAGE_SIZE * PAGE_SIZE;
      BuildingPte(m0, m, bm, pd, t, keep, goal, pdirIdx, ptableIdx);
      if WordAt(mem[..], ptable + 4 * ptableIdx) % 2 != 1 {
        t := NewFrame(ptable, ptableIdx, Zeros(), pdirIdx, pd, m0, t, keep, goal);
        ZeroFrame(m0, m, bm, pd, mem[..], t1, t, keep, goal, pdirIdx, ptableIdx, t0.Keys);
        FramesStay(m0, m, bm, pd, t1, keep, goal, mem[..], {t[Frame(pdirIdx, ptableIdx)], t1[UTable(pdirIdx)]},
                   pdirIdx);
        SameOnward(m00, m, mem[..], t0, t1);
      }
    }

    /** load_segment, up to the reading of the file: the pages of [vaddr, vaddr + memsz). Pages after the first and
        tables after the first are made without looking whether they exist; the pages displaced stay marked. */
    method LoadSegment(pdir: array<nat>, vaddr: nat, memsz: nat, ghost t0: Tree, ghost keep: set<nat>)
      returns (ghost t: Tree, ghost lost: set<nat>)
      requires Valid() && pdir.Length == NR_PDE && memsz > 0
      requires USER_START <= vaddr && vaddr + memsz <= USER_LIMIT
      requires Layout(mem[..], pageBitmap[..], pdir[..], t0, keep)
      requires |FreeSet(pageBitmap[..])| >=
               |SegKeys(vaddr, memsz) - (t0.Keys * UptoPage(vaddr, vaddr / PAGE_SIZE))|
      modifies mem, pageBitmap, this`bitmapIdx, pdir
      ensures Valid()
      ensures Loading(old(mem[..]), mem[..], pageBitmap[..], pdir[..], t, keep, lost)
      ensures Progress(t0, t, lost, vaddr, (vaddr + memsz - 1) / PAGE_SIZE)
      ensures ZeroFrames(mem[..], t, NewFrames(t0.Keys, vaddr, (vaddr + memsz - 1) / PAGE_SIZE))
      ensures KeptFrames(old(mem[..]), mem[..], t0, vaddr, (vaddr + memsz - 1) / PAGE_SIZE)
    {
      hide KeptFrames, Loading, Layout, ZeroFrames, NewFrames, SegKeys, UptoPage, FreeSet, Progress, OnlyPages, Zeros,
           RestLen;
      ghost var m0 := mem[..];
      LayoutClosed(m0, pageBitmap[..], pdir[..], t0, keep);
      var pdirIdx := vaddr / 0x400000;
      var ptableIdx := vaddr / PAGE_SIZE % NR_PTE;
      var ptable;
      ptable, t := LoadFirst(pdir, pdirIdx, ptableIdx, vaddr, memsz, t0, keep);
      var temp := PAGE_SIZE - vaddr % PAGE_SIZE;
      var firstMemLen := if temp < memsz then temp else memsz;
      t, lost := LoadRest(pdir, memsz - firstMemLen, pdirIdx, ptableIdx + 1, ptable, vaddr, memsz, m0, t0, t, keep);
    }

    /** The first page, which may be there already, as may its table. */
    method LoadFirst(pdir: array<nat>, pdirIdx: nat, ptableIdx: nat, ghost vaddr: nat, ghost memsz: nat,
                     ghost t0: Tree, ghost keep: set<nat>)
      returns (ptable: nat, ghost t: Tree)
      requires Valid() && pdir.Length == NR_PDE && memsz > 0 && USER_START <= vaddr && vaddr + memsz <= USER_LIMIT
      requires pdirIdx == vaddr / 0x400000 && ptableIdx == vaddr / PAGE_SIZE % NR_PTE
      requires Layout(mem[..], pageBitmap[..], pdir[..], t0, keep)
      requires |FreeSet(pageBitmap[..])| >=
               |SegKeys(vaddr, memsz) - (t0.Keys * UptoPage(vaddr, vaddr / PAGE_SIZE))|
      modifies mem, pageBitmap, this`bitmapIdx, pdir
      ensures Valid() && UTable(pdirIdx) in t && t[UTable(pdirIdx)] < PAGE_NUM && ptable == PageAddr(t[UTable(pdirIdx)])
      ensures Loading(old(mem[..]), mem[..], pageBitmap[..], pdir[..], t, keep, {})
      ensures Progress(t0, t, {}, vaddr, vaddr / PAGE_SIZE)
      ensures ZeroFrames(mem[..], t, NewFrames(t0.Keys, vaddr, vaddr / PAGE_SIZE))
      ensures KeptFrames(old(mem[..]), mem[..], t0, vaddr, vaddr / PAGE_SIZE)
      ensures |FreeSet(pageBitmap[..])| + |UptoPage(vaddr, vaddr / PAGE_SIZE)| >= |SegKeys(vaddr, memsz)|
    {
      hide Building, Loading, Layout, ZeroNew, ZeroFrames, NewFrames, SegKeys, UptoPage, InRange, FreeSet, Page,
           Progress, Displaced, Paged, Touchable, OnlyPages, Zeros, SameFrames, KeptFrames;
      ghost var m0, bm0 := mem[..], pageBitmap[..];
      ghost var pd0: seq<nat> := pdir[..];
      SplitAddr(vaddr);
      PageInSeg(vaddr, memsz, pdirIdx, ptableIdx);
      FirstKeys(vaddr, pdirIdx, ptableIdx);
      ghost var goal := t0.Keys + UptoPage(vaddr, vaddr / PAGE_SIZE);
      FirstBudget(m0, bm0, pd0, t0, keep, vaddr, memsz);
      ptable, t := FirstPage(pdir, pdirIdx, ptableIdx, m0, t0, keep, goal);
      AfterFirst(m0, mem[..], bm0, pageBitmap[..], pd0, pdir[..], t0, t, keep, vaddr, memsz);
      KeptStart(m0, mem[..], t0, vaddr);
    }

    /** The pages after the first. */
    method LoadRest(pdir: array<nat>, memRestSize0: int, pdirIdx0: nat, ptableIdx0: nat, ptable0: nat, ghost vaddr: nat,
                    ghost memsz: nat, ghost m0: seq<byte>, ghost t0: Tree, ghost t1: Tree, ghost keep: set<nat>)
      returns (ghost t: Tree, ghost lost: set<nat>)
      requires Valid() && pdir.Length == NR_PDE && memsz > 0 && Closed(t0)
      requires USER_START <= vaddr && vaddr + memsz <= USER_LIMIT
      requires pdirIdx0 == vaddr / 0x400000 && ptableIdx0 == vaddr / PAGE_SIZE % NR_PTE + 1
      requires memRestSize0 ==
               memsz - if PAGE_SIZE - vaddr % PAGE_SIZE < memsz then PAGE_SIZE - vaddr % PAGE_SIZE else memsz
      requires UTable(pdirIdx0) in t1 && t1[UTable(pdirIdx0)] < PAGE_NUM && ptable0 == PageAddr(t1[UTable(pdirIdx0)])
      requires Loading(m0, mem[..], pageBitmap[..], pdir[..], t1, keep, {}) &&
               Progress(t0, t1, {}, vaddr, vaddr / PAGE_SIZE)
      requires ZeroFrames(mem[..], t1, NewFrames(t0.Keys, vaddr, vaddr / PAGE_SIZE))
      requires KeptFrames(m0, mem[..], t0, vaddr, vaddr / PAGE_SIZE)
      requires |FreeSet(pageBitmap[..])| + |UptoPage(vaddr, vaddr / PAGE_SIZE)| >= |SegKeys(vaddr, memsz)|
      modifies mem, pageBitmap, this`bitmapIdx, pdir
      ensures Valid()
      ensures Loading(m0, mem[..], pageBitmap[..], pdir[..], t, keep, lost)
      ensures Progress(t0, t, lost, vaddr, (vaddr + memsz - 1) / PAGE_SIZE)
      ensures ZeroFrames(mem[..], t, NewFrames(t0.Keys, vaddr, (vaddr + memsz - 1) / PAGE_SIZE))
      ensures KeptFrames(m0, mem[..], t0, vaddr, (vaddr + memsz - 1) / PAGE_SIZE)
    {
      hide Loading, ZeroFrames, NewFrames, SegKeys, UptoPage, FreeSet, Page, Progress, Paged, Touchable, OnlyPages,
           Zeros, Closed, Old, PagesUnder, Drop, RestLen, KeptFrames;
      SplitAddr(vaddr);
      RestStart(vaddr, memsz, memsz - memRestSize0);
      var pdirIdx, ptableIdx, ptable, memRestSize := pdirIdx0, ptableIdx0, ptable0, memRestSize0;
      t, lost := t1, {};
      ghost var v: nat := vaddr / PAGE_SIZE;
      while memRestSize > 0
        invariant Valid() && 0 < ptableIdx <= NR_PTE && pdirIdx * NR_PTE + ptableIdx == v + 1
        invariant RestLen(vaddr, memsz, v, memRestSize)
        invariant UTable(pdirIdx) in t && t[UTable(pdirIdx)] < PAGE_NUM && ptable == PageAddr(t[UTable(pdirIdx)])
        invariant Loading(m0, mem[..], pageBitmap[..], pdir[..], t, keep, lost) && Progress(t0, t, lost, vaddr, v)
        invariant ZeroFrames(mem[..], t, NewFrames(t0.Keys, vaddr, v)) && KeptFrames(m0, mem[..], t0, vaddr, v)
        invariant |FreeSet(pageBitmap[..])| + |UptoPage(vaddr, v)| >= |SegKeys(vaddr, memsz)|
      {
        ghost var i, j := if ptableIdx == NR_PTE then pdirIdx + 1 else pdirIdx,
                  if ptableIdx == NR_PTE then 0 else ptableIdx;
        RestStep(vaddr, memsz, v, memRestSize);
        NextPage(vaddr, memsz, v, i, j);
        SubsetCard(UptoPage(vaddr, v + 1), SegKeys(vaddr, memsz));
        ghost var m, bm, u, gone, touched := mem[..], pageBitmap[..], t, lost, {};
        ghost var pd: seq<nat> := pdir[..];
        pdirIdx, ptableIdx, ptable, t, lost, touched :=
          SegmentPage(pdir, pdirIdx, ptableIdx, ptable, m0, t, keep, lost);
        KeptStep(m0, t0, m0, m, bm, pd, u, keep, gone, mem[..], vaddr, v, i, j, touched);
        PageLoaded(t0, vaddr, v, i, j, m0, m, bm, pd, u, keep, gone, mem[..], t, lost, touched);
        v := v + 1;
        memRestSize := memRestSize - PAGE_SIZE;
      }
      RestEnd(vaddr, memsz, v, memRestSize);
    }

    /** A segment whose later pages and tables are free is built like everything else. */
    method BuildSegment(pdir: array<nat>, vaddr: nat, memsz: nat, ghost m0: seq<byte>, ghost t0: Tree,
                        ghost keep: set<nat>, ghost goal: set<Slot>)
      returns (ghost t: Tree)
      requires Valid() && pdir.Length == NR_PDE && memsz > 0
      requires USER_START <= vaddr && vaddr + memsz <= USER_LIMIT
      requires Building(m0, mem[..], pageBitmap[..], pdir[..], t0, keep, goal)
      requires SegKeys(vaddr, memsz) <= goal && RestUnmapped(t0.Keys, vaddr, memsz)
      modifies mem, pageBitmap, this`bitmapIdx, pdir
      ensures Valid() && t.Keys == t0.Keys + SegKeys(vaddr, memsz) && forall s :: s in t0 ==> t[s] == t0[s]
      ensures Building(m0, mem[..], pageBitmap[..], pdir[..], t, keep, goal)
      ensures SameFrames(old(mem[..]), mem[..], t0) && ZeroNew(mem[..], t, t0.Keys)
    {
      hide Building, SegKeys, RestUnmapped, Loading, Layout, Progress, UptoPage, FreeSet, ZeroFrames, NewFrames,
           KeptFrames, SameFrames, ZeroNew, Closed;
      ghost var m, bm, lost := mem[..], pageBitmap[..], {};
      ghost var pd: seq<nat> := pdir[..];
      SegmentBudget(m0, m, bm, pd, t0, keep, goal, vaddr, memsz);
      t, lost := LoadSegment(pdir, vaddr, memsz, t0, keep);
      SegmentBuilt(m0, m, bm, pd, mem[..], pageBitmap[..], pdir[..], t0, t, keep, lost, goal, vaddr, memsz);
      LayoutClosed(m, bm, pd, t0, keep);
      SegmentClean(m, mem[..], t0, t, lost, vaddr, memsz);
    }

    /** The loop of load_program over the program headers. */
    method LoadSegments(pdir: array<nat>, segs: seq<Segment>, ghost m0: seq<byte>, ghost t0: Tree, ghost keep: set<nat>,
                        ghost goal: set<Slot>)
      returns (ghost t: Tree)
      requires Valid() && pdir.Length == NR_PDE && Loadable(t0.Keys, segs) && ProgramKeys(t0.Keys, segs) == goal
      requires Building(m0, mem[..], pageBitmap[..], pdir[..], t0, keep, goal)
      modifies mem, pageBitmap, this`bitmapIdx, pdir
      ensures Valid() && t.Keys == goal && ZeroNew(mem[..], t, t0.Keys)
      ensures Building(m0, mem[..], pageBitmap[..], pdir[..], t, keep, goal)
    {
      hide Building, Loadable, ProgramKeys, SegKeys, RestUnmapped, ZeroNew, SameFrames;
      t := t0;
      NothingNew(m0, mem[..], pageBitmap[..], pdir[..], t, keep, goal);
      var n := 0;
      LoadStart(segs);
      while n < |segs|
        invariant Valid() && n <= |segs| && Loadable(t.Keys, segs[n..]) && ProgramKeys(t.Keys, segs[n..]) == goal
        invariant Building(m0, mem[..], pageBitmap[..], pdir[..], t, keep, goal) && ZeroNew(mem[..], t, t0.Keys)
      {
        LoadNext(t.Keys, segs, n);
        if segs[n].memsz > 0 {
          ghost var m, t1 := mem[..], t;
          t := BuildSegment(pdir, segs[n].vaddr, segs[n].memsz, m0, t, keep, goal);
          ZeroOnward(m, mem[..], t1, t, t0.Keys);
        }
        n := n + 1;
      }
      NoMoreSegments(t.Keys, segs[n..]);
    }

    /** load_program: kernel tables, stack, then the segments with a size. */
    method LoadProgram(pdir: array<nat>, segs: seq<Segment>, ghost keep: set<nat>) returns (ghost t: Tree)
      requires Valid() && pdir.Length == NR_PDE && Marks(map[], pageBitmap[..], keep)
      requires Loadable(BaseKeys(), segs) && |FreeSet(pageBitmap[..])| >= |ProgramKeys(BaseKeys(), segs)|
      modifies mem, pageBitmap, this`bitmapIdx, pdir
      ensures Valid() && t.Keys == ProgramKeys(BaseKeys(), segs) && ZeroNew(mem[..], t, BaseKeys())
      ensures Layout(mem[..], pageBitmap[..], pdir[..], t, keep) && Framed(old(mem[..]), mem[..], keep)
    {
      ghost var m0, goal := mem[..], ProgramKeys(BaseKeys(), segs);
      hide Building, Layout, Framed, Marks, FreeSet, Loadable, ProgramKeys, BaseKeys, KernelKeys, StackKeys, ZeroNew;
      ProgramGrows(BaseKeys(), segs);
      BaseParts();
      t := CreateKernelDir(pdir, m0, keep, goal);
      t := CreateStackPage(pdir, m0, t, keep, goal);
      t := LoadSegments(pdir, segs, m0, t, keep, goal);
      Built(m0, mem[..], pageBitmap[..], pdir[..], t, keep, goal);
    }

    /** handle_child: the child gets the kernel tables and a copy of every user page of the parent. */
    method HandleChild(pPdir: array<nat>, cPdir: array<nat>, ghost tp: Tree, ghost keep: set<nat>)
        returns (ghost t: Tree)
      requires Valid() && pPdir.Length == NR_PDE && cPdir.Length == NR_PDE && pPdir != cPdir
      requires Readable(mem[..], pPdir[..], tp, keep) && KernelKeys(KERNEL_TABLES) <= tp.Keys
      requires Marks(map[], pageBitmap[..], keep) && |FreeSet(pageBitmap[..])| >= |tp|
      modifies mem, pageBitmap, this`bitmapIdx, cPdir
      ensures Valid() && t.Keys == tp.Keys && Copied(old(mem[..]), tp, mem[..], t)
      ensures Layout(mem[..], pageBitmap[..], cPdir[..], t, keep) && Framed(old(mem[..]), mem[..], keep)
    {
      ghost var m0, ppd := mem[..], pPdir[..];
      hide Layout, Framed, Marks, FreeSet, Readable, Copied, KernelKeys;
      assert |tp| == |tp.Keys|;
      t := CreateKernelDir(cPdir, m0, keep, tp.Keys);
      assert pPdir[..] == ppd;
      t := CopyProcess(pPdir, cPdir, tp, m0, t, keep, tp.Keys);
    }

    /** handle_exec: with no such file (`segs` absent) nothing happens; else the old pages go back and the program is
        loaded. The page budget counts the pages that exec itself gives back. */
    method HandleExec(pdir: array<nat>, file: Option<seq<Segment>>, ghost t0: Tree, ghost keep: set<nat>)
      returns (ret: int, ghost t: Tree)
      requires Valid() && pdir.Length == NR_PDE && KernelKeys(KERNEL_TABLES) <= t0.Keys
      requires Layout(mem[..], pageBitmap[..], pdir[..], t0, keep)
      requires file.Some? ==>
                 Loadable(BaseKeys(), file.value) &&
                 |FreeSet(pageBitmap[..])| + |t0| >= |ProgramKeys(BaseKeys(), file.value)|
      modifies mem, pageBitmap, this`bitmapIdx, pdir
      ensures Valid() && Layout(mem[..], pageBitmap[..], pdir[..], t, keep) && Framed(old(mem[..]), mem[..], keep)
      ensures file.None? ==> ret == -1 && t == t0 && mem[..] == old(mem[..]) && pdir[..] == old(pdir[..])
      ensures file.None? ==> pageBitmap[..] == old(pageBitmap[..])
      ensures file.Some? ==>
                ret == 0 && t.Keys == ProgramKeys(BaseKeys(), file.value) && ZeroNew(mem[..], t, BaseKeys())
    {
      hide ZeroNew, Layout, Framed, Marks, FreeSet, Loadable, ProgramKeys, KernelKeys;
      ghost var m0, bm0 := mem[..], pageBitmap[..];
      if file.None? {
        SelfFramed(m0, bm0, pdir[..], t0, keep);
        return -1, t0;
      }
      GivenBack(m0, bm0, pdir[..], t0, keep);
      TakebackPage(pdir, t0, keep);
      ghost var m1 := mem[..];
      NothingLeft(pageBitmap[..], keep);
      t := LoadProgram(pdir, file.value, keep);
      FramedTrans(m0, m1, mem[..], keep);
      ret := 0;
    }
  }

  /** A program header: where the segment goes and how big it is in memory. */
  datatype Segment = Segment(vaddr: nat, memsz: nat)

  ghost function BaseKeys(): set<Slot> { KernelKeys(KERNEL_TABLES) + StackKeys(10) }

  lemma BaseParts()
    ensures BaseKeys() == KernelKeys(KERNEL_TABLES) + StackKeys(10)
    ensures KernelKeys(KERNEL_TABLES) !! StackKeys(10)
  {
  }

  /** The segments lie in user space, and each one's later pages and tables are free when its turn comes. */
  ghost predicate Loadable(keys: set<Slot>, segs: seq<Segment>)
    decreases |segs|
  {
    segs == [] ||
    (if segs[0].memsz == 0 then Loadable(keys, segs[1..])
     else
       && USER_START <= segs[0].vaddr && segs[0].vaddr + segs[0].memsz <= USER_LIMIT
       && RestUnmapped(keys, segs[0].vaddr, segs[0].memsz)
       && Loadable(keys + SegKeys(segs[0].vaddr, segs[0].memsz), segs[1..]))
  }

  ghost function ProgramKeys(keys: set<Slot>, segs: seq<Segment>): set<Slot>
    decreases |segs|
  {
    if segs == [] then keys
    else ProgramKeys(if segs[0].memsz == 0 then keys else keys + SegKeys(segs[0].vaddr, segs[0].memsz), segs[1..])
  }

  lemma {:induction false} ProgramGrows(keys: set<Slot>, segs: seq<Segment>)
    ensures keys <= ProgramKeys(keys, segs)
    decreases |segs|
  {
    hide SegKeys;
    if segs != [] {
      ProgramGrows(if segs[0].memsz == 0 then keys else keys + SegKeys(segs[0].vaddr, segs[0].memsz), segs[1..]);
    }
  }

  lemma LoadStart(segs: seq<Segment>)
    ensures segs[0..] == segs
  {
  }

  lemma LoadNext(keys: set<Slot>, segs: seq<Segment>, n: nat)
    requires n < |segs| && Loadable(keys, segs[n..])
    ensures var s := segs[n];
            var keys' := if s.memsz == 0 then keys else keys + SegKeys(s.vaddr, s.memsz);
            && Loadable(keys', segs[n + 1..]) && ProgramKeys(keys, segs[n..]) == ProgramKeys(keys', segs[n + 1..])
            && (s.memsz > 0 ==>
                  && USER_START <= s.vaddr && s.vaddr + s.memsz <= USER_LIMIT && RestUnmapped(keys, s.vaddr, s.memsz)
                  && SegKeys(s.vaddr, s.memsz) <= ProgramKeys(keys, segs[n..]))
  {
    hide SegKeys, RestUnmapped;
    assert segs[n..][0] == segs[n] && segs[n..][1..] == segs[n + 1..];
    var s := segs[n];
    ProgramGrows(if s.memsz == 0 then keys else keys + SegKeys(s.vaddr, s.memsz), segs[n + 1..]);
  }

  lemma NoMoreSegments(keys: set<Slot>, segs: seq<Segment>)
    requires segs == []
    ensures ProgramKeys(keys, segs) == keys
  {
  }

  lemma Built(m0: seq<byte>, m: seq<byte>, bm: seq<bool>, pd: seq<nat>, t: Tree, keep: set<nat>, goal: set<Slot>)
    requires Building(m0, m, bm, pd, t, keep, goal)
    ensures Layout(m, bm, pd, t, keep) && Framed(m0, m, keep)
  {
  }

  lemma SelfFramed(m: seq<byte>, bm: seq<bool>, pd: seq<nat>, t: Tree, keep: set<nat>)
    requires Layout(m, bm, pd, t, keep)
    ensures Framed(m, m, keep)
  {
  }

  /** Pages owned by the process, by others, and free ones add up. */
  lemma GivenBack(m: seq<byte>, bm: seq<bool>, pd: seq<nat>, t: Tree, keep: set<nat>)
    requires Layout(m, bm, pd, t, keep)
    ensures |FreeSet(bm)| + |t| + |keep| == PAGE_NUM
  {
    hide DirPoints, TablePoints, KernelPoints;
    ValuesCard(t);
    FullCard(t.Values + keep + FreeSet(bm), PAGE_NUM);
    assert t.Values !! keep && (t.Values + keep) !! FreeSet(bm);
  }

  lemma NothingLeft(bm: seq<bool>, keep: set<nat>)
    requires Marks(map[], bm, keep)
    ensures |FreeSet(bm)| + |keep| == PAGE_NUM
  {
    var none: Tree := map[];
    assert none.Values == {};
    FullCard(keep + FreeSet(bm), PAGE_NUM);
    assert keep !! FreeSet(bm);
  }

  // What fork reads from the parent.

  /** The parent's tree, in memory m0, among the pages that stay as they are. */
  ghost predicate Readable(m0: seq<byte>, ppd: seq<nat>, tp: Tree, keep: set<nat>) {
    && |m0| == PHY_MEM && |ppd| == NR_PDE && Closed(tp) && DirPoints(ppd, tp) && TablePoints(m0, tp)
    && (forall s :: s in tp ==> tp[s] in keep)
  }

  /** The kernel tables, and the slots below directory entries before i. */
  ghost function Upto(tp: Tree, i: nat): set<Slot> {
    set s | s in tp && (s.KTable? || s.i < i)
  }

  ghost function Part(tp: Tree, i: nat, j: nat): set<Slot> {
    set s | s in tp && s.Frame? && s.i == i && s.j < j
  }

  /** Each frame of the copy holds what the original's frame held. */
  ghost predicate Copied(m0: seq<byte>, tp: Tree, m: seq<byte>, t: Tree) {
    && |m0| == |m| == PHY_MEM
    && forall s :: s in t && s.Frame? ==>
         s in tp && tp[s] < PAGE_NUM && t[s] < PAGE_NUM && Page(m, t[s]) == Page(m0, tp[s])
  }

  lemma PteIsWord(m: seq<byte>, b: nat, j: nat)
    requires |m| == PHY_MEM && b < PAGE_NUM && j < NR_PTE
    ensures WordAt(m, PageAddr(b) + 4 * j) == Pte(m, b, j)
  {
    var r := Page(m, b);
    assert r[4 * j] == m[PageAddr(b) + 4 * j] && r[4 * j + 1] == m[PageAddr(b) + 4 * j + 1];
    assert r[4 * j + 2] == m[PageAddr(b) + 4 * j + 2] && r[4 * j + 3] == m[PageAddr(b) + 4 * j + 3];
  }

  lemma ParentDir(m0: seq<byte>, ppd: seq<nat>, tp: Tree, keep: set<nat>, i: nat)
    requires Readable(m0, ppd, tp, keep) && KERNEL_TABLES <= i < USER_END
    ensures ppd[i] % 2 == 1 <==> UTable(i) in tp
    ensures UTable(i) in tp ==> tp[UTable(i)] < PAGE_NUM && ppd[i] / PAGE_SIZE * PAGE_SIZE == PageAddr(tp[UTable(i)])
  {
  }

  lemma ParentEntry(m0: seq<byte>, m: seq<byte>, bm: seq<bool>, cpd: seq<nat>, t: Tree, keep: set<nat>, goal: set<Slot>,
                    ppd: seq<nat>, tp: Tree, i: nat, j: nat)
    requires Building(m0, m, bm, cpd, t, keep, goal) && Readable(m0, ppd, tp, keep) && UTable(i) in tp && j < NR_PTE
    ensures |m| == |m0| == PHY_MEM && tp[UTable(i)] < PAGE_NUM
    ensures var w := WordAt(m, PageAddr(tp[UTable(i)]) + 4 * j);
            && (w % 2 == 1 <==> Frame(i, j) in tp)
            && (Frame(i, j) in tp ==>
                  && tp[Frame(i, j)] < PAGE_NUM
                  && w / PAGE_SIZE * PAGE_SIZE == PageAddr(tp[Frame(i, j)]) &&
                     PageAddr(tp[Frame(i, j)]) + PAGE_SIZE <= PHY_MEM
                  && m[PageAddr(tp[Frame(i, j)])..PageAddr(tp[Frame(i, j)]) + PAGE_SIZE] == Page(m0, tp[Frame(i, j)]))
  {
    hide Layout, WordAt, DirPoints;
    var b := tp[UTable(i)];
    assert Page(m, b) == Page(m0, b);
    PteIsWord(m, b, j);
    assert Pte(m, b, j) == Pte(m0, b, j);
    if Frame(i, j) in tp {
      assert Page(m, tp[Frame(i, j)]) == Page(m0, tp[Frame(i, j)]);
    }
  }

  lemma TableDone(m0: seq<byte>, ppd: seq<nat>, tp: Tree, keep: set<nat>, i: nat)
    requires Readable(m0, ppd, tp, keep) && UTable(i) in tp
    ensures Upto(tp, i) + {UTable(i)} + Part(tp, i, NR_PTE) == Upto(tp, i + 1)
  {
    hide DirPoints, TablePoints;
  }

  lemma NoTable(m0: seq<byte>, ppd: seq<nat>, tp: Tree, keep: set<nat>, i: nat)
    requires Readable(m0, ppd, tp, keep) && UTable(i) !in tp
    ensures Upto(tp, i + 1) == Upto(tp, i)
  {
    hide DirPoints, TablePoints;
  }

  lemma EverythingCopied(m0: seq<byte>, ppd: seq<nat>, tp: Tree, keep: set<nat>)
    requires Readable(m0, ppd, tp, keep)
    ensures Upto(tp, USER_END) == tp.Keys
  {
    hide DirPoints, TablePoints;
  }

  lemma NothingCopied(m0: seq<byte>, tp: Tree, m: seq<byte>, bm: seq<bool>, cpd: seq<nat>, t: Tree, keep: set<nat>,
                      goal: set<Slot>, ppd: seq<nat>)
    requires Building(m0, m, bm, cpd, t, keep, goal) && Readable(m0, ppd, tp, keep)
    requires t.Keys == KernelKeys(KERNEL_TABLES) <= tp.Keys
    ensures t.Keys == Upto(tp, KERNEL_TABLES) && Copied(m0, tp, m, t)
  {
    hide DirPoints, TablePoints, KernelPoints, Marks, Injective, FreeSet;
    forall s | s in Upto(tp, KERNEL_TABLES) ensures s in KernelKeys(KERNEL_TABLES) { }
  }

  lemma CopiedStep(m0: seq<byte>, tp: Tree, m: seq<byte>, bm: seq<bool>, m': seq<byte>, t: Tree, t': Tree,
                   cpd: seq<nat>, keep: set<nat>, goal: set<Slot>, i: nat, j: nat)
    requires Building(m0, m, bm, cpd, t, keep, goal) && Copied(m0, tp, m, t) && UTable(i) in t
    requires Frame(i, j) in t' && t' == t[Frame(i, j) := t'[Frame(i, j)]] && t'[Frame(i, j)] < |bm| &&
             !bm[t'[Frame(i, j)]]
    requires OnlyPages(m, m', {t'[Frame(i, j)], t[UTable(i)]})
    requires Frame(i, j) in tp && tp[Frame(i, j)] < PAGE_NUM && t'[Frame(i, j)] < PAGE_NUM
    requires |m0| == PHY_MEM && Page(m', t'[Frame(i, j)]) == Page(m0, tp[Frame(i, j)])
    ensures Copied(m0, tp, m', t')
  {
    forall s | s in t && s.Frame? ensures t[s] != t[UTable(i)] && t[s] != t'[Frame(i, j)] && t[s] < PAGE_NUM {
      assert t[s] in t.Values;
    }
    hide Page, Layout, FreeSet;
  }

  lemma CopiedTable(m0: seq<byte>, tp: Tree, m: seq<byte>, bm: seq<bool>, m': seq<byte>, t: Tree, t': Tree,
                    cpd: seq<nat>, keep: set<nat>, goal: set<Slot>, i: nat)
    requires Building(m0, m, bm, cpd, t, keep, goal) && Copied(m0, tp, m, t)
    requires UTable(i) in t' && t' == t[UTable(i) := t'[UTable(i)]] && t'[UTable(i)] < |bm| && !bm[t'[UTable(i)]]
    requires OnlyPages(m, m', {t'[UTable(i)]})
    ensures Copied(m0, tp, m', t')
  {
    forall s | s in t && s.Frame? ensures t[s] != t'[UTable(i)] && t[s] < PAGE_NUM {
      assert t[s] in t.Values;
    }
    hide Page, Layout, FreeSet;
  }

  ghost function KernelKeys(n: nat): set<Slot> {
    set i: nat | i < n :: KTable(i)
  }

  ghost function StackKeys(n: nat): set<Slot> {
    {UTable(767)} + set j: nat | 1024 - n <= j < 1024 :: Frame(767, j)
  }

  lemma KernelKeysStep(k: nat)
    ensures KernelKeys(0) == {} && KernelKeys(k + 1) == KernelKeys(k) + {KTable(k)}
    ensures KTable(k) !in KernelKeys(k) && (k < KERNEL_TABLES ==> KTable(k) in KernelKeys(KERNEL_TABLES))
  {
  }

  lemma EmptySpace(m: seq<byte>, bm: seq<bool>, pdir: seq<nat>, keep: set<nat>, goal: set<Slot>)
    requires |m| == PHY_MEM && |pdir| == NR_PDE && (forall i :: 0 <= i < NR_PDE ==> pdir[i] == 0)
    requires Marks(map[], bm, keep) && |FreeSet(bm)| >= |goal|
    ensures Building(m, m, bm, pdir, map[], keep, goal)
  {
    var t: Tree := map[];
    assert t.Values == {};
  }

  lemma WholePage(m: seq<byte>, b: nat, x: seq<byte>)
    requires |m| == PHY_MEM && b < PAGE_NUM && |x| == PAGE_SIZE
    ensures Page(Splice(m, PageAddr(b), x), b) == x
  {
    SplicePage(m, b, 0, x);
    SpliceAll(Page(m, b), x);
  }

  lemma TwoPages(m: seq<byte>, m1: seq<byte>, m2: seq<byte>, b: nat, c: nat)
    requires OnlyPages(m, m1, {b}) && OnlyPages(m1, m2, {c})
    ensures OnlyPages(m, m2, {b, c})
    ensures b < PAGE_NUM && b != c ==> Page(m2, b) == Page(m1, b)
  {
    hide Page;
  }

  // What exit and exec give back.

  lemma SameMemory(m: seq<byte>, b: nat)
    requires |m| == PHY_MEM
    ensures OnlyPages(m, m, {b})
  {
  }

  lemma PteSame(m: seq<byte>, m': seq<byte>, b: nat, k: nat)
    requires |m| == |m'| == PHY_MEM && b < PAGE_NUM && k < NR_PTE && Page(m', b) == Page(m, b)
    ensures Pte(m', b, k) == Pte(m, b, k)
  {
  }

  lemma ClearedLength(bm0: seq<bool>, bm: seq<bool>, f: set<nat>)
    requires Cleared(bm0, bm, f)
    ensures |bm| == |bm0|
  {
  }

  lemma OwnEntry(m: seq<byte>, bm: seq<bool>, pd: seq<nat>, t: Tree, keep: set<nat>, i: nat, j: nat)
    requires Layout(m, bm, pd, t, keep) && UTable(i) in t && j < NR_PTE
    ensures t[UTable(i)] < PAGE_NUM
    ensures var w := Pte(m, t[UTable(i)], j);
            && (w % 2 == 1 <==> Frame(i, j) in t)
            && (Frame(i, j) in t ==> t[Frame(i, j)] < PAGE_NUM && w / PAGE_SIZE * PAGE_SIZE == PageAddr(t[Frame(i, j)]))
  {
    hide Pte, DirPoints, KernelPoints, Marks, Injective;
  }

  /** A write to one of the process's own pages touches nobody else's. */
  lemma OwnWrite(m0: seq<byte>, m: seq<byte>, bm: seq<bool>, pd: seq<nat>, t: Tree, keep: set<nat>, s: Slot, o: nat,
                 x: seq<byte>)
    requires Layout(m0, bm, pd, t, keep) && s in t && o + |x| <= PAGE_SIZE && Framed(m0, m, keep)
    ensures t[s] < PAGE_NUM && |m| == PHY_MEM
    ensures var m' := Splice(m, PageAddr(t[s]) + o, x);
            Framed(m0, m', keep) && OnlyPages(m, m', {t[s]})
  {
    hide Page, Splice, DirPoints, KernelPoints, TablePoints, Injective;
    SplicePage(m, t[s], o, x);
    FramedTrans(m0, m, Splice(m, PageAddr(t[s]) + o, x), keep);
  }

  /** The tables of directory entries from i on have not been touched. */
  ghost predicate TablesFrom(m0: seq<byte>, m: seq<byte>, t: Tree, i: nat) {
    && |m0| == |m| == PHY_MEM
    && forall s :: s in t && s.UTable? && s.i >= i ==> t[s] < PAGE_NUM && Page(m, t[s]) == Page(m0, t[s])
  }

  lemma StartTakeback(m: seq<byte>, bm: seq<bool>, pd: seq<nat>, t: Tree, keep: set<nat>)
    requires Layout(m, bm, pd, t, keep)
    ensures Framed(m, m, keep) && TablesFrom(m, m, t, KERNEL_TABLES)
    ensures Cleared(bm, bm, Image(t, KernelKeys(0)))
  {
    hide DirPoints, TablePoints, KernelPoints, Injective;
  }

  lemma OwnKernel(m: seq<byte>, bm: seq<bool>, pd: seq<nat>, t: Tree, keep: set<nat>, i: nat)
    requires Layout(m, bm, pd, t, keep) && i < KERNEL_TABLES && KernelKeys(KERNEL_TABLES) <= t.Keys
    ensures KTable(i) in t && t[KTable(i)] < PAGE_NUM && |bm| == PAGE_NUM
    ensures pd[i] / PAGE_SIZE * PAGE_SIZE == PageAddr(t[KTable(i)])
    ensures KernelKeys(i + 1) == KernelKeys(i) + {KTable(i)}
  {
    hide TablePoints, KernelPoints, Injective;
    assert KTable(i) in KernelKeys(KERNEL_TABLES);
  }

  lemma OwnDir(m: seq<byte>, bm: seq<bool>, pd: seq<nat>, t: Tree, keep: set<nat>, i: nat)
    requires Layout(m, bm, pd, t, keep) && KERNEL_TABLES <= i < USER_END
    ensures |bm| == PAGE_NUM && |pd| == NR_PDE && (pd[i] % 2 == 1 <==> UTable(i) in t)
    ensures UTable(i) in t ==> t[UTable(i)] < PAGE_NUM && pd[i] / PAGE_SIZE * PAGE_SIZE == PageAddr(t[UTable(i)])
  {
    hide TablePoints, KernelPoints, Injective;
  }

  lemma KernelUpto(m: seq<byte>, bm: seq<bool>, pd: seq<nat>, t: Tree, keep: set<nat>)
    requires Layout(m, bm, pd, t, keep) && KernelKeys(KERNEL_TABLES) <= t.Keys
    ensures KernelKeys(KERNEL_TABLES) == Upto(t, KERNEL_TABLES)
  {
    hide DirPoints, TablePoints, KernelPoints, Injective, Marks;
    forall s | s in Upto(t, KERNEL_TABLES) ensures s in KernelKeys(KERNEL_TABLES) { }
  }

  lemma UptoNext(m: seq<byte>, bm: seq<bool>, pd: seq<nat>, t: Tree, keep: set<nat>, i: nat)
    requires Layout(m, bm, pd, t, keep)
    ensures UTable(i) in t ==> Upto(t, i) + Part(t, i, NR_PTE) + {UTable(i)} == Upto(t, i + 1)
    ensures UTable(i) !in t ==> Upto(t, i) == Upto(t, i + 1)
  {
    hide DirPoints, TablePoints, KernelPoints, Injective, Marks;
  }

  lemma TablesNext(m0: seq<byte>, m: seq<byte>, m': seq<byte>, bm: seq<bool>, pd: seq<nat>, t: Tree, keep: set<nat>,
                   i: nat)
    requires Layout(m0, bm, pd, t, keep) && UTable(i) in t && TablesFrom(m0, m, t, i) &&
             OnlyPages(m, m', {t[UTable(i)]})
    ensures TablesFrom(m0, m', t, i + 1)
  {
    hide DirPoints, TablePoints, KernelPoints, Marks, Page;
  }

  lemma AllGone(m: seq<byte>, bm0: seq<bool>, bm: seq<bool>, pd: seq<nat>, t: Tree, keep: set<nat>)
    requires Layout(m, bm0, pd, t, keep) && Cleared(bm0, bm, Image(t, Upto(t, USER_END)))
    ensures Marks(map[], bm, keep)
  {
    hide DirPoints, TablePoints, KernelPoints, Injective;
    assert Upto(t, USER_END) == t.Keys;
    assert forall b :: b in Image(t, t.Keys) <==> b in t.Values;
    var none: Tree := map[];
    assert none.Values == {};
    assert forall b :: b in t.Values ==> b !in keep;
  }

  // Loading segments.

  lemma ZeroFrame(m0: seq<byte>, m: seq<byte>, bm: seq<bool>, pd: seq<nat>, m': seq<byte>, t: Tree, t': Tree,
                  keep: set<nat>, goal: set<Slot>, i: nat, j: nat, keys0: set<Slot>)
    requires Building(m0, m, bm, pd, t, keep, goal) && ZeroNew(m, t, keys0) && UTable(i) in t
    requires Frame(i, j) in t' && t' == t[Frame(i, j) := t'[Frame(i, j)]] && t'[Frame(i, j)] < PAGE_NUM
    requires |bm| == PAGE_NUM && !bm[t'[Frame(i, j)]]
    requires OnlyPages(m, m', {t'[Frame(i, j)], t[UTable(i)]}) && Page(m', t'[Frame(i, j)]) == Zeros()
    ensures ZeroNew(m', t', keys0)
  {
    forall s | s in t && s.Frame? ensures t[s] != t[UTable(i)] && t[s] != t'[Frame(i, j)] && t[s] < PAGE_NUM {
      assert t[s] in t.Values;
    }
    hide Page, Layout, FreeSet, Zeros;
  }

  lemma ZeroFill(m0: seq<byte>, m: seq<byte>, bm: seq<bool>, pd: seq<nat>, m': seq<byte>, t: Tree,
                 keep: set<nat>, goal: set<Slot>, b: nat, keys0: set<Slot>)
    requires Building(m0, m, bm, pd, t, keep, goal) && ZeroNew(m, t, keys0) && b < PAGE_NUM && |bm| == PAGE_NUM &&
             !bm[b]
    requires OnlyPages(m, m', {b})
    ensures ZeroNew(m', t, keys0)
  {
    forall s | s in t ensures t[s] != b && t[s] < PAGE_NUM { assert t[s] in t.Values; }
    hide Page, Layout, FreeSet, Zeros;
  }

  /** How much of the segment is left behind page v. */
  ghost predicate RestLen(vaddr: nat, memsz: nat, v: nat, rest: int) {
    var v1 := (vaddr + memsz - 1) / PAGE_SIZE;
    && vaddr / PAGE_SIZE <= v <= v1
    && if rest > 0 then rest == vaddr + memsz - (v + 1) * PAGE_SIZE else v == v1
  }

  lemma RestStart(vaddr: nat, memsz: nat, first: nat)
    requires memsz > 0
    requires first == if PAGE_SIZE - vaddr % PAGE_SIZE < memsz then PAGE_SIZE - vaddr % PAGE_SIZE else memsz
    ensures RestLen(vaddr, memsz, vaddr / PAGE_SIZE, memsz - first)
  {
  }

  lemma RestStep(vaddr: nat, memsz: nat, v: nat, rest: int)
    requires memsz > 0 && RestLen(vaddr, memsz, v, rest) && rest > 0
    ensures vaddr / PAGE_SIZE <= v < (vaddr + memsz - 1) / PAGE_SIZE && RestLen(vaddr, memsz, v + 1, rest - PAGE_SIZE)
  {
  }

  lemma RestEnd(vaddr: nat, memsz: nat, v: nat, rest: int)
    requires memsz > 0 && RestLen(vaddr, memsz, v, rest) && rest <= 0
    ensures v == (vaddr + memsz - 1) / PAGE_SIZE
  {
  }

  lemma LayoutClosed(m: seq<byte>, bm: seq<bool>, pd: seq<nat>, t: Tree, keep: set<nat>)
    requires Layout(m, bm, pd, t, keep)
    ensures Closed(t)
  {
  }

  lemma SomeFree(bm: seq<bool>)
    requires |FreeSet(bm)| > 0
    ensures FreeSet(bm) != {}
  {
  }

  lemma SomeIdle(bm: seq<bool>)
    requires FreeSet(bm) != {}
    ensures exists x :: 0 <= x < |bm| && !bm[x]
  {
    var x :| x in FreeSet(bm);
  }

  lemma MorePages(m: seq<byte>, m1: seq<byte>, m2: seq<byte>, touched: set<nat>, c: nat)
    requires OnlyPages(m, m1, touched) && OnlyPages(m1, m2, {c})
    ensures OnlyPages(m, m2, touched + {c})
  {
    hide Page;
  }

  lemma OtherPage(m: seq<byte>, m': seq<byte>, b: nat, c: nat)
    requires OnlyPages(m, m', {c}) && b < PAGE_NUM && b != c
    ensures Page(m', b) == Page(m, b)
  {
    hide Page;
  }

  lemma PagedMeans(t0: Tree, t: Tree, lost0: set<nat>, lost: set<nat>, i: nat, j: nat, tb: nat, b: nat)
    requires if j == 0 then t == Drop(t0, i)[UTable(i) := tb][Frame(i, 0) := b] && lost == lost0 + PagesUnder(t0, i)
             else UTable(i) in t0 && t == t0[Frame(i, j) := b] && lost == lost0 + Old(t0, Frame(i, j))
    ensures Paged(t0, t, lost0, lost, i, j)
  {
  }

  lemma TouchableMeans(touched: set<nat>, bm: seq<bool>, t0: Tree, i: nat, j: nat)
    requires forall c :: c in touched ==> c < |bm| && (!bm[c] || (j != 0 && UTable(i) in t0 && c == t0[UTable(i)]))
    ensures Touchable(touched, bm, t0, i, j)
  {
  }

  /** What one turn of the loop does, seen from the whole segment. */
  lemma PageLoaded(t0: Tree, vaddr: nat, v: nat, i: nat, j: nat, m0: seq<byte>, m: seq<byte>, bm: seq<bool>,
                   pd: seq<nat>, t: Tree, keep: set<nat>, lost: set<nat>, m': seq<byte>, t': Tree, lost': set<nat>,
                       touched: set<nat>)
    requires Closed(t0) && vaddr / PAGE_SIZE <= v && j < NR_PTE && i * NR_PTE + j == v + 1
    requires UptoPage(vaddr, v + 1) == UptoPage(vaddr, v) + {UTable(i), Frame(i, j)}
    requires Loading(m0, m, bm, pd, t, keep, lost) && Progress(t0, t, lost, vaddr, v)
    requires ZeroFrames(m, t, NewFrames(t0.Keys, vaddr, v)) && Paged(t, t', lost, lost', i, j)
    requires OnlyPages(m, m', touched) && Touchable(touched, bm, t, i, j)
    requires t'[Frame(i, j)] < PAGE_NUM && Page(m', t'[Frame(i, j)]) == Zeros()
    ensures UTable(i) in t' && Progress(t0, t', lost', vaddr, v + 1) &&
            ZeroFrames(m', t', NewFrames(t0.Keys, vaddr, v + 1))
  {
    hide Loading, ZeroFrames, NewFrames, UptoPage, Page, Progress, Paged, Touchable, OnlyPages, Zeros, Closed;
    PagedKeys(t, t', lost, lost', i, j);
    NewFramesStep(t0.Keys, vaddr, v, i, j);
    ZeroStep(m0, m, bm, pd, t, keep, lost, m', t', lost', i, j, NewFrames(t0.Keys, vaddr, v), touched);
    ProgressStep(t0, t, lost, t', lost', vaddr, v, i, j);
  }

  lemma SplitAddr(vaddr: nat)
    ensures vaddr / 0x400000 * NR_PTE + vaddr / PAGE_SIZE % NR_PTE == vaddr / PAGE_SIZE
  {
    assert vaddr / 0x400000 == vaddr / PAGE_SIZE / NR_PTE;
  }

  lemma PagedKeys(t: Tree, t': Tree, lost: set<nat>, lost': set<nat>, i: nat, j: nat)
    requires Paged(t, t', lost, lost', i, j)
    ensures UTable(i) in t' && Frame(i, j) in t'
  {
  }

  lemma FirstBudget(m: seq<byte>, bm: seq<bool>, pd: seq<nat>, t: Tree, keep: set<nat>, vaddr: nat, memsz: nat)
    requires Layout(m, bm, pd, t, keep) && memsz > 0
    requires |FreeSet(bm)| >= |SegKeys(vaddr, memsz) - (t.Keys * UptoPage(vaddr, vaddr / PAGE_SIZE))|
    ensures Building(m, m, bm, pd, t, keep, t.Keys + UptoPage(vaddr, vaddr / PAGE_SIZE))
  {
    hide Layout, FreeSet, UptoPage, SegKeys;
    SelfFramed(m, bm, pd, t, keep);
    FirstInSeg(vaddr, memsz);
    FirstNeed(t.Keys, UptoPage(vaddr, vaddr / PAGE_SIZE), SegKeys(vaddr, memsz));
  }

  lemma FirstNeed(a: set<Slot>, first: set<Slot>, seg: set<Slot>)
    requires first <= seg
    ensures |a + first| <= |a| + |seg - (a * first)|
  {
    SubsetCard(first - a, seg - (a * first));
    assert a + first == a + (first - a);
  }

  lemma FirstInSeg(vaddr: nat, memsz: nat)
    requires memsz > 0
    ensures UptoPage(vaddr, vaddr / PAGE_SIZE) <= SegKeys(vaddr, memsz)
  {
    var v0, v1 := vaddr / PAGE_SIZE, (vaddr + memsz - 1) / PAGE_SIZE;
    assert v0 <= v1 && v0 / NR_PTE <= v1 / NR_PTE;
  }

  /** Where the loop starts: the first page is there, nothing is lost, and the rest of the segment can be paid for. */
  lemma AfterFirst(m0: seq<byte>, m: seq<byte>, bm0: seq<bool>, bm: seq<bool>, pd0: seq<nat>, pd: seq<nat>, t0: Tree,
                   t: Tree, keep: set<nat>, vaddr: nat, memsz: nat)
    requires Layout(m0, bm0, pd0, t0, keep) && memsz > 0
    requires Building(m0, m, bm, pd, t, keep, t0.Keys + UptoPage(vaddr, vaddr / PAGE_SIZE)) && ZeroNew(m, t, t0.Keys)
    requires t.Keys == t0.Keys + UptoPage(vaddr, vaddr / PAGE_SIZE) && forall s :: s in t0 ==> t[s] == t0[s]
    requires |FreeSet(bm0)| >= |SegKeys(vaddr, memsz) - (t0.Keys * UptoPage(vaddr, vaddr / PAGE_SIZE))|
    ensures Loading(m0, m, bm, pd, t, keep, {}) && Progress(t0, t, {}, vaddr, vaddr / PAGE_SIZE)
    ensures ZeroFrames(m, t, NewFrames(t0.Keys, vaddr, vaddr / PAGE_SIZE))
    ensures |FreeSet(bm)| + |UptoPage(vaddr, vaddr / PAGE_SIZE)| >= |SegKeys(vaddr, memsz)|
  {
    hide Layout, FreeSet, UptoPage, SegKeys, Progress, ZeroNew, ZeroFrames, NewFrames, Framed;
    ProgressStart(t0, t, vaddr);
    assert keep + {} == keep;
    GivenBack(m0, bm0, pd0, t0, keep);
    GivenBack(m, bm, pd, t, keep);
    FirstInSeg(vaddr, memsz);
    FirstZeros(m, t, t0.Keys, vaddr);
    FirstCount(t0.Keys, t.Keys, UptoPage(vaddr, vaddr / PAGE_SIZE), SegKeys(vaddr, memsz));
  }

  lemma FirstCount(a: set<Slot>, b: set<Slot>, first: set<Slot>, seg: set<Slot>)
    requires b == a + first && first <= seg
    ensures |seg - (a * first)| - (|b| - |a|) == |seg| - |first|
  {
    assert b == a + (first - a);
    assert seg == (seg - (a * first)) + (a * first);
    assert first == (first - a) + (a * first);
  }

  lemma FirstZeros(m: seq<byte>, t: Tree, keys0: set<Slot>, vaddr: nat)
    requires ZeroNew(m, t, keys0) && t.Keys == keys0 + UptoPage(vaddr, vaddr / PAGE_SIZE)
    ensures ZeroFrames(m, t, NewFrames(keys0, vaddr, vaddr / PAGE_SIZE))
  {
    hide Page, Zeros;
  }

  lemma SegmentBudget(m0: seq<byte>, m: seq<byte>, bm: seq<bool>, pd: seq<nat>, t: Tree, keep: set<nat>,
                      goal: set<Slot>, vaddr: nat, memsz: nat)
    requires Building(m0, m, bm, pd, t, keep, goal) && SegKeys(vaddr, memsz) <= goal && memsz > 0
    requires RestUnmapped(t.Keys, vaddr, memsz)
    ensures Layout(m, bm, pd, t, keep)
    ensures |FreeSet(bm)| >= |SegKeys(vaddr, memsz) - (t.Keys * UptoPage(vaddr, vaddr / PAGE_SIZE))|
  {
    hide Layout, FreeSet, UptoPage, SegKeys, RestUnmapped;
    var seg, first := SegKeys(vaddr, memsz), UptoPage(vaddr, vaddr / PAGE_SIZE);
    SegOrFirst(t, seg, first, vaddr, memsz, m, bm, pd, keep);
    StillFree(seg, first, t.Keys, goal, |FreeSet(bm)|);
  }

  lemma StillFree(seg: set<Slot>, first: set<Slot>, keys: set<Slot>, goal: set<Slot>, free: nat)
    requires seg <= goal && keys <= goal && free + |keys| >= |goal| && forall s :: s in seg && s in keys ==> s in first
    ensures free >= |seg - (keys * first)|
  {
    assert seg - (keys * first) <= goal - keys;
    SubsetCard(seg - (keys * first), goal - keys);
    assert goal == (goal - keys) + keys;
  }

  lemma SegOrFirst(t: Tree, seg: set<Slot>, first: set<Slot>, vaddr: nat, memsz: nat, m: seq<byte>, bm: seq<bool>,
                   pd: seq<nat>, keep: set<nat>)
    requires Layout(m, bm, pd, t, keep) && RestUnmapped(t.Keys, vaddr, memsz) && memsz > 0
    requires seg == SegKeys(vaddr, memsz) && first == UptoPage(vaddr, vaddr / PAGE_SIZE)
    ensures forall s :: s in seg && s in t ==> s in first
  {
    hide Layout;
    forall s | s in seg && s in t ensures s in first {
      assert s.Frame? ==> s.i * NR_PTE + s.j == vaddr / PAGE_SIZE;
      assert s.UTable? ==> s.i == vaddr / PAGE_SIZE / NR_PTE;
    }
  }

  /** With the rest of the segment unmapped nothing is lost, and the building goes on. */
  lemma SegmentBuilt(m0: seq<byte>, m: seq<byte>, bm: seq<bool>, pd: seq<nat>, m': seq<byte>, bm': seq<bool>,
                     pd': seq<nat>, t: Tree, t': Tree, keep: set<nat>, lost: set<nat>, goal: set<Slot>, vaddr: nat,
                         memsz: nat)
    requires Building(m0, m, bm, pd, t, keep, goal) && Loading(m, m', bm', pd', t', keep, lost) && memsz > 0
    requires Progress(t, t', lost, vaddr, (vaddr + memsz - 1) / PAGE_SIZE) && RestUnmapped(t.Keys, vaddr, memsz)
    requires SegKeys(vaddr, memsz) <= goal
    ensures t'.Keys == t.Keys + SegKeys(vaddr, memsz) && Building(m0, m', bm', pd', t', keep, goal)
  {
    assert Closed(t);
    LossExact(t, t', lost, vaddr, memsz);
    assert keep + lost == keep;
    GivenBack(m, bm, pd, t, keep);
    GivenBack(m', bm', pd', t', keep);
    hide Layout, FreeSet, SegKeys, RestUnmapped, Progress, Framed;
    FramedTrans(m0, m, m', keep);
  }

  lemma NothingNew(m0: seq<byte>, m: seq<byte>, bm: seq<bool>, pd: seq<nat>, t: Tree, keep: set<nat>, goal: set<Slot>)
    requires Building(m0, m, bm, pd, t, keep, goal)
    ensures ZeroNew(m, t, t.Keys)
  {
  }

  lemma NothingTouched(m: seq<byte>)
    requires |m| == PHY_MEM
    ensures OnlyPages(m, m, {})
  {
  }

  lemma ZeroTableOnly(m: seq<byte>, t: Tree, t': Tree, i: nat, keys0: set<Slot>)
    requires ZeroNew(m, t, keys0) && UTable(i) in t' && t' == t[UTable(i) := t'[UTable(i)]]
    ensures ZeroNew(m, t', keys0)
  {
  }

  lemma BuildingDir(m0: seq<byte>, m: seq<byte>, bm: seq<bool>, pd: seq<nat>, t: Tree, keep: set<nat>, goal: set<Slot>,
                    i: nat)
    requires Building(m0, m, bm, pd, t, keep, goal) && KERNEL_TABLES <= i < USER_END
    ensures |bm| == PAGE_NUM && |pd| == NR_PDE && (pd[i] % 2 == 1 <==> UTable(i) in t)
    ensures UTable(i) in t ==> t[UTable(i)] < PAGE_NUM && pd[i] / PAGE_SIZE * PAGE_SIZE == PageAddr(t[UTable(i)])
  {
    OwnDir(m, bm, pd, t, keep, i);
  }

  lemma BuildingPte(m0: seq<byte>, m: seq<byte>, bm: seq<bool>, pd: seq<nat>, t: Tree, keep: set<nat>, goal: set<Slot>,
                    i: nat, j: nat)
    requires Building(m0, m, bm, pd, t, keep, goal) && UTable(i) in t && j < NR_PTE
    ensures |m| == PHY_MEM && t[UTable(i)] < PAGE_NUM
    ensures WordAt(m, PageAddr(t[UTable(i)]) + 4 * j) % 2 == 1 <==> Frame(i, j) in t
  {
    OwnEntry(m, bm, pd, t, keep, i, j);
    PteIsWord(m, t[UTable(i)], j);
  }
}
