/** physical_addr: the two-level walk from a virtual to a physical address, and what it means for a process's tree. */
module Translation {
  import opened Wrappers
  import opened Bytes
  import opened PageLayout
  import opened PageManager

  const PD_SIZE: nat := NR_PTE * PAGE_SIZE

  /** physical_addr; None where one of its two assertions on the present bits fails. */
  function Translate(m: seq<byte>, pdir: seq<nat>, va: nat): Option<nat>
    requires |pdir| == NR_PDE && va < WORD_LIMIT
  {
    var d := pdir[va / PD_SIZE];
    if !Present(d) then None
    else
      var e := WordAt(m, d / PAGE_SIZE * PAGE_SIZE + 4 * (va / PAGE_SIZE % NR_PTE));
      if !Present(e) then None else Some(e / PAGE_SIZE * PAGE_SIZE + va % PAGE_SIZE)
  }

  /** The user part of the address space: [16 MB, 3 GB). */
  predicate UserAddr(va: nat) { USER_START <= va < USER_LIMIT }

  function SlotOf(va: nat): (s: Slot)
    ensures UserAddr(va) ==> InSpace(s)
  {
    Frame(va / PD_SIZE, va / PAGE_SIZE % NR_PTE)
  }

  /** Slots and offsets are addresses, one to one. */
  lemma SlotsAreAddresses(va: nat, va': nat)
    requires SlotOf(va) == SlotOf(va') && va % PAGE_SIZE == va' % PAGE_SIZE
    ensures va == va'
  {
    assert va / PD_SIZE == va / PAGE_SIZE / NR_PTE && va' / PD_SIZE == va' / PAGE_SIZE / NR_PTE;
  }

  lemma Sizes(m: seq<byte>, bm: seq<bool>, pdir: seq<nat>, t: Tree, keep: set<nat>)
    requires Layout(m, bm, pdir, t, keep)
    ensures |m| == PHY_MEM && |pdir| == NR_PDE && Closed(t)
  {
  }

  /** User addresses translate into the process's own frames, and only where it has one. */
  lemma TranslateUser(m: seq<byte>, bm: seq<bool>, pdir: seq<nat>, t: Tree, keep: set<nat>, va: nat)
    requires Layout(m, bm, pdir, t, keep) && UserAddr(va)
    ensures Translate(m, pdir, va) ==
            if SlotOf(va) in t then Some(PageAddr(t[SlotOf(va)]) + va % PAGE_SIZE) else None
    ensures SlotOf(va) in t ==> t[SlotOf(va)] < PAGE_NUM
  {
    hide Pte, WordAt, Page, Layout;
    var i, j := va / PD_SIZE, va / PAGE_SIZE % NR_PTE;
    Sizes(m, bm, pdir, t, keep);
    assert InSpace(SlotOf(va));
    OwnDir(m, bm, pdir, t, keep, i);
    if UTable(i) in t {
      PteIsWord(m, t[UTable(i)], j);
      OwnEntry(m, bm, pdir, t, keep, i, j);
    }
  }

  /** The kernel's 16 MB are mapped to themselves, at 0 and again at 0xC0000000. */
  lemma TranslateKernel(m: seq<byte>, bm: seq<bool>, pdir: seq<nat>, t: Tree, keep: set<nat>, va: nat)
    requires Layout(m, bm, pdir, t, keep) && KernelKeys(KERNEL_TABLES) <= t.Keys && va < KERNEL_MEM
    ensures Translate(m, pdir, va) == Some(va)
    ensures Translate(m, pdir, va + USER_LIMIT) == Some(va)
  {
    hide Pte, WordAt, Page, Layout, KernelKeys;
    var i, j := va / PD_SIZE, va / PAGE_SIZE % NR_PTE;
    assert i < KERNEL_TABLES && i * NR_PTE + j == va / PAGE_SIZE;
    KernelEntries(m, bm, pdir, t, keep, i, j);
    PteIsWord(m, t[KTable(i)], j);
    KernelIndex(va);
  }

  lemma KernelIndex(va: nat)
    requires va < KERNEL_MEM
    ensures var up := va + USER_LIMIT;
            up / PD_SIZE == va / PD_SIZE + USER_END && up / PAGE_SIZE % NR_PTE == va / PAGE_SIZE % NR_PTE
            && up % PAGE_SIZE == va % PAGE_SIZE
    ensures (va / PAGE_SIZE * PAGE_SIZE + 7) / PAGE_SIZE * PAGE_SIZE + va % PAGE_SIZE == va
  {
    assert USER_LIMIT == USER_END * PD_SIZE;
  }

  lemma KernelEntries(m: seq<byte>, bm: seq<bool>, pdir: seq<nat>, t: Tree, keep: set<nat>, i: nat, j: nat)
    requires Layout(m, bm, pdir, t, keep) && KernelKeys(KERNEL_TABLES) <= t.Keys && i < KERNEL_TABLES && j < NR_PTE
    ensures |m| == PHY_MEM && |pdir| == NR_PDE && KTable(i) in t && t[KTable(i)] < PAGE_NUM
    ensures forall x :: x == i || x == i + USER_END ==>
              Present(pdir[x]) && pdir[x] / PAGE_SIZE * PAGE_SIZE == PageAddr(t[KTable(i)])
    ensures var w := Pte(m, t[KTable(i)], j); Present(w) && w == (i * NR_PTE + j) * PAGE_SIZE + 7
  {
    hide Pte, Marks, Injective, TablePoints;
    assert KTable(i) in KernelKeys(KERNEL_TABLES);
    assert Identity(m, t[KTable(i)], i);
  }

  // What user mode may do, by section 6.4 (Page-Level Protection) of the same manual.

  /** Present, writable, and open to user mode. */
  predicate Open(w: nat) { w % 2 == 1 && w / 2 % 2 == 1 && w / 4 % 2 == 1 }

  /** The entries of both levels let a user process read and write at va. */
  predicate UserAccess(m: seq<byte>, pdir: seq<nat>, va: nat)
    requires |pdir| == NR_PDE && va < WORD_LIMIT
  {
    var d := pdir[va / PD_SIZE];
    Open(d) && Open(WordAt(m, d / PAGE_SIZE * PAGE_SIZE + 4 * (va / PAGE_SIZE % NR_PTE)))
  }

  lemma BitsOfEntry(w: nat)
    ensures w % PAGE_SIZE == 7 ==> Open(w)
    ensures w % PAGE_SIZE == 3 ==> w % 2 == 1 && w / 2 % 2 == 1 && w / 4 % 2 == 0
  {
    assert w == w / PAGE_SIZE * PAGE_SIZE + w % PAGE_SIZE;
  }

  /** In user space a process may read and write exactly where an address is mapped. */
  lemma UserOpen(m: seq<byte>, bm: seq<bool>, pdir: seq<nat>, t: Tree, keep: set<nat>, va: nat)
    requires Layout(m, bm, pdir, t, keep) && UserAddr(va)
    ensures UserAccess(m, pdir, va) <==> Translate(m, pdir, va).Some?
  {
    hide Pte, WordAt, Page, Layout, Open;
    var i, j := va / PD_SIZE, va / PAGE_SIZE % NR_PTE;
    Sizes(m, bm, pdir, t, keep);
    assert InSpace(SlotOf(va));
    OwnDir(m, bm, pdir, t, keep, i);
    if UTable(i) in t {
      PteIsWord(m, t[UTable(i)], j);
      OwnEntry(m, bm, pdir, t, keep, i, j);
      OwnBits(m, bm, pdir, t, keep, i, j);
      BitsOfEntry(pdir[i]);
      BitsOfEntry(Pte(m, t[UTable(i)], j));
    }
    ClosedWhenAbsent(pdir[i]);
    ClosedWhenAbsent(WordAt(m, pdir[i] / PAGE_SIZE * PAGE_SIZE + 4 * j));
  }

  lemma ClosedWhenAbsent(w: nat)
    ensures w % 2 != 1 ==> !Open(w)
  {
  }

  lemma OwnBits(m: seq<byte>, bm: seq<bool>, pdir: seq<nat>, t: Tree, keep: set<nat>, i: nat, j: nat)
    requires Layout(m, bm, pdir, t, keep) && UTable(i) in t && j < NR_PTE
    ensures |m| == PHY_MEM && |pdir| == NR_PDE && i < NR_PDE && t[UTable(i)] < PAGE_NUM && pdir[i] % PAGE_SIZE == 7
    ensures Frame(i, j) in t ==> Pte(m, t[UTable(i)], j) % PAGE_SIZE == 7
  {
    hide Pte, KernelPoints, Marks, Injective;
  }

  /** The kernel's 16 MB are present and writable, and closed to user mode below; their copies at 3 GB are as make_pde
      makes them. Nothing is mapped above these. */
  lemma KernelClosed(m: seq<byte>, bm: seq<bool>, pdir: seq<nat>, t: Tree, keep: set<nat>, i: nat)
    requires Layout(m, bm, pdir, t, keep) && KernelKeys(KERNEL_TABLES) <= t.Keys
    ensures |pdir| == NR_PDE
    ensures i < 4 ==> pdir[i] % 2 == 1 && pdir[i] / 2 % 2 == 1 && pdir[i] / 4 % 2 == 0 && Open(pdir[768 + i])
    ensures 772 <= i < 1024 ==> pdir[i] % 2 == 0
  {
    hide Pte, TablePoints, KernelPoints, Marks, Injective;
    if i < KERNEL_TABLES {
      assert KTable(i) in KernelKeys(KERNEL_TABLES);
      BitsOfEntry(pdir[i]);
      BitsOfEntry(pdir[i + USER_END]);
    }
  }
}
