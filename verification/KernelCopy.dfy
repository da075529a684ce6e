/** copy_from_kernel and copy_to_kernel: copies between kernel memory and a process, a page-sized chunk at a time.
    The reference is the copy of single bytes, each through its own translation. */
module KernelCopy {
  import opened Wrappers
  import opened Bytes
  import opened PageLayout
  import opened PageManager
  import opened Translation
  import opened AddressSpaces

  /** Store the bytes of x at va, va + 1, ..., translating every address in the memory it finds. */
  function StoreBytes(m: seq<byte>, pdir: seq<nat>, va: nat, x: seq<byte>): (r: seq<byte>)
    requires |pdir| == NR_PDE && va + |x| <= USER_LIMIT
    ensures |r| == |m|
    decreases |x|
  {
    if x == [] then m
    else
      var pa := Translate(m, pdir, va);
      var m' := if pa.Some? && pa.value < |m| then m[pa.value := x[0]] else m;
      StoreBytes(m', pdir, va + 1, x[1..])
  }

  /** Load the byte at va; zero where nothing is mapped. */
  function LoadByte(m: seq<byte>, pdir: seq<nat>, va: nat): byte
    requires |pdir| == NR_PDE && va < WORD_LIMIT
  {
    var pa := Translate(m, pdir, va);
    if pa.Some? && pa.value < |m| then m[pa.value] else 0
  }

  function LoadBytes(m: seq<byte>, pdir: seq<nat>, va: nat, len: nat): (r: seq<byte>)
    requires |pdir| == NR_PDE && va + len <= USER_LIMIT
    ensures |r| == len
  {
    seq(len, i requires 0 <= i < len => LoadByte(m, pdir, va + i))
  }

  /** Every address from va to va + len, the end included, is mapped. */
  ghost predicate AllMapped(m: seq<byte>, pdir: seq<nat>, va: nat, len: nat)
    requires |pdir| == NR_PDE && va + len <= USER_LIMIT
  {
    forall a :: va <= a <= va + len ==> Translate(m, pdir, a).Some?
  }

  /** The same, in terms of the process's frames; 0xC0000000 itself is the kernel's, and mapped. */
  predicate Covered(t: Tree, a: nat) { a == USER_LIMIT || SlotOf(a) in t }

  ghost predicate Process(m: seq<byte>, bm: seq<bool>, pdir: seq<nat>, t: Tree, keep: set<nat>) {
    Layout(m, bm, pdir, t, keep) && KernelKeys(KERNEL_TABLES) <= t.Keys
  }

  lemma CoveredIsMapped(m: seq<byte>, bm: seq<bool>, pdir: seq<nat>, t: Tree, keep: set<nat>, a: nat)
    requires Process(m, bm, pdir, t, keep) && USER_START <= a <= USER_LIMIT
    ensures |pdir| == NR_PDE && |m| == PHY_MEM
    ensures Translate(m, pdir, a).Some? <==> Covered(t, a)
    ensures a < USER_LIMIT && Covered(t, a) ==>
              (var pa := PageAddr(t[SlotOf(a)]) + a % PAGE_SIZE;
               t[SlotOf(a)] < PAGE_NUM && Translate(m, pdir, a) == Some(pa) && KERNEL_MEM <= pa < PHY_MEM)
  {
    Sizes(m, bm, pdir, t, keep);
    hide Layout, KernelKeys, Translate;
    if a == USER_LIMIT { TranslateKernel(m, bm, pdir, t, keep, 0); } else { TranslateUser(m, bm, pdir, t, keep, a); }
  }

  /** Writing inside one frame keeps the tree, and the kernel's memory. */
  lemma FrameWrite(m: seq<byte>, bm: seq<bool>, pdir: seq<nat>, t: Tree, keep: set<nat>, s: Slot, o: nat, x: seq<byte>)
    requires Process(m, bm, pdir, t, keep) && s in t && s.Frame? && o + |x| <= PAGE_SIZE
    ensures |m| == PHY_MEM && t[s] < PAGE_NUM
    ensures var m' := Splice(m, PageAddr(t[s]) + o, x);
            Process(m', bm, pdir, t, keep) && m'[..KERNEL_MEM] == m[..KERNEL_MEM]
  {
    Sizes(m, bm, pdir, t, keep);
    hide Splice, Page, TablePoints, KernelPoints, DirPoints, Marks, KernelKeys;
    SplicePage(m, t[s], o, x);
    TableStable(m, Splice(m, PageAddr(t[s]) + o, x), t);
  }

  /** Addresses of one page lie in one frame. */
  lemma SamePageSlot(va: nat, n: nat)
    requires va % PAGE_SIZE + n < PAGE_SIZE
    ensures SlotOf(va + n) == SlotOf(va) && (va + n) % PAGE_SIZE == va % PAGE_SIZE + n
  {
    var q := va / PAGE_SIZE;
    assert va + n == q * PAGE_SIZE + (va % PAGE_SIZE + n);
    assert (va + n) / PAGE_SIZE == q;
    assert va / PD_SIZE == q / NR_PTE && (va + n) / PD_SIZE == (va + n) / PAGE_SIZE / NR_PTE;
  }

  lemma SpliceHead(m: seq<byte>, at: nat, x: seq<byte>)
    requires |x| > 0 && at + |x| <= |m|
    ensures Splice(m, at, [x[0]]) == m[at := x[0]]
    ensures Splice(m[at := x[0]], at + 1, x[1..]) == Splice(m, at, x)
  {
  }

  /** One memcpy inside a page is that many single stores. */
  lemma {:induction false} ChunkIsStores(m: seq<byte>, bm: seq<bool>, pdir: seq<nat>, t: Tree, keep: set<nat>, va: nat,
                                         x: seq<byte>)
    requires Process(m, bm, pdir, t, keep) && USER_START <= va && va + |x| <= USER_LIMIT
    requires va % PAGE_SIZE + |x| <= PAGE_SIZE && (x != [] ==> SlotOf(va) in t)
    ensures |pdir| == NR_PDE && |m| == PHY_MEM
    ensures x != [] ==> t[SlotOf(va)] < PAGE_NUM
    ensures StoreBytes(m, pdir, va, x) == if x == [] then m else Splice(m, PageAddr(t[SlotOf(va)]) + va % PAGE_SIZE, x)
    decreases |x|
  {
    hide Process, Translate, Splice;
    CoveredIsMapped(m, bm, pdir, t, keep, va);
    if x != [] {
      var b := t[SlotOf(va)];
      var pa := PageAddr(b) + va % PAGE_SIZE;
      FrameWrite(m, bm, pdir, t, keep, SlotOf(va), va % PAGE_SIZE, [x[0]]);
      SpliceHead(m, pa, x);
      if |x| > 1 { SamePageSlot(va, 1); }
      NextOffset(va, |x|);
      ChunkIsStores(m[pa := x[0]], bm, pdir, t, keep, va + 1, x[1..]);
      assert |x| == 1 ==> Splice(m[pa := x[0]], pa + 1, x[1..]) == m[pa := x[0]];
    }
  }

  lemma NextOffset(va: nat, n: nat)
    requires va % PAGE_SIZE + n <= PAGE_SIZE && n > 0
    ensures (va + 1) % PAGE_SIZE + (n - 1) <= PAGE_SIZE
  {
    if va % PAGE_SIZE == PAGE_SIZE - 1 { assert (va + 1) % PAGE_SIZE == 0; }
  }

  lemma {:induction false} StoreBytesConcat(m: seq<byte>, pdir: seq<nat>, va: nat, x: seq<byte>, y: seq<byte>)
    requires |pdir| == NR_PDE && va + |x| + |y| <= USER_LIMIT
    ensures StoreBytes(m, pdir, va, x + y) == StoreBytes(StoreBytes(m, pdir, va, x), pdir, va + |x|, y)
    decreases |x|
  {
    hide Translate;
    if x == [] {
      assert x + y == y;
    } else {
      assert (x + y)[1..] == x[1..] + y && (x + y)[0] == x[0];
      var pa := Translate(m, pdir, va);
      var m' := if pa.Some? && pa.value < |m| then m[pa.value := x[0]] else m;
      StoreBytesConcat(m', pdir, va + 1, x[1..], y);
    }
  }

  // The loops.

  /** memcpy between regions that do not overlap. */
  method Memcpy(mem: array<byte>, dest: nat, src: nat, n: nat)
    requires dest + n <= mem.Length && src + n <= mem.Length && (dest + n <= src || src + n <= dest)
    modifies mem
    ensures mem[..] == Splice(old(mem[..]), dest, old(mem[src..src + n]))
  {
    forall i | 0 <= i < n { mem[dest + i] := mem[src + i]; }
  }

  /** Where a copy stands: addresses up to cur are covered and bytes [va, cur) are stored. */
  ghost predicate CopiedOut(m0: seq<byte>, m: seq<byte>, bm: seq<bool>, pdir: seq<nat>, t: Tree, keep: set<nat>,
                            va: nat, x: seq<byte>, k: nat)
  {
    && Process(m, bm, pdir, t, keep) && |pdir| == NR_PDE && |m0| == |m| == PHY_MEM
    && USER_START <= va && k <= |x| && va + |x| <= USER_LIMIT
    && m == StoreBytes(m0, pdir, va, x[..k]) && m[..KERNEL_MEM] == m0[..KERNEL_MEM]
    && CoveredTo(t, va, va + k)
  }

  ghost predicate CoveredTo(t: Tree, va: nat, end: nat) {
    forall a :: va <= a <= end ==> Covered(t, a)
  }

  /** The length of the next chunk: up to the end of the page or of the copy. */
  predicate ChunkLen(va: nat, len: nat, n: nat) {
    n == if PAGE_SIZE - va % PAGE_SIZE < len then PAGE_SIZE - va % PAGE_SIZE else len
  }

  lemma NextChunkLen(va: nat, len: nat, n: nat)
    requires ChunkLen(va, len, n) && len > 0
    ensures 0 < n <= len && va % PAGE_SIZE + n <= PAGE_SIZE
    ensures ChunkLen(va + n, len - n, if PAGE_SIZE < len - n then PAGE_SIZE else len - n)
  {
    if n < len {
      var q := va / PAGE_SIZE;
      assert va + n == (q + 1) * PAGE_SIZE;
      assert (va + n) % PAGE_SIZE == 0;
    }
  }

  lemma CoverChunk(t: Tree, va: nat, cur: nat, n: nat)
    requires CoveredTo(t, va, cur) && va <= cur && 0 < n && cur % PAGE_SIZE + n <= PAGE_SIZE && cur + n <= USER_LIMIT
    requires Covered(t, cur + n)
    ensures CoveredTo(t, va, cur + n)
  {
    forall a | va <= a <= cur + n ensures Covered(t, a) {
      if cur < a < cur + n {
        assert Covered(t, cur);
        SamePageSlot(cur, a - cur);
      }
    }
  }

  /** One memcpy of the loop takes the copy from k to k + n. */
  lemma OutStep(m0: seq<byte>, m: seq<byte>, bm: seq<bool>, pdir: seq<nat>, t: Tree, keep: set<nat>, va: nat,
                x: seq<byte>, k: nat, n: nat, pa: nat)
    requires CopiedOut(m0, m, bm, pdir, t, keep, va, x, k) && k < |x| && ChunkLen(va + k, |x| - k, n)
    requires Translate(m, pdir, va + k) == Some(pa)
    ensures 0 < n && k + n <= |x| && KERNEL_MEM <= pa && pa + n <= PHY_MEM && va + |x| <= USER_LIMIT
    ensures ChunkLen(va + k + n, |x| - k - n, if PAGE_SIZE < |x| - k - n then PAGE_SIZE else |x| - k - n)
    ensures var m' := Splice(m, pa, x[k..k + n]);
            && (Covered(t, va + k + n) <==> Translate(m', pdir, va + k + n).Some?)
            && (Covered(t, va + k + n) ==> CopiedOut(m0, m', bm, pdir, t, keep, va, x, k + n))
  {
    hide Process, Translate, Splice, StoreBytes, Covered, CoveredTo;
    NextChunkLen(va + k, |x| - k, n);
    assert Covered(t, va + k) by { CoveredNow(t, va, va + k); }
    CoveredIsMapped(m, bm, pdir, t, keep, va + k);
    CoveredSlot(t, va + k);
    FrameWrite(m, bm, pdir, t, keep, SlotOf(va + k), (va + k) % PAGE_SIZE, x[k..k + n]);
    ChunkIsStores(m, bm, pdir, t, keep, va + k, x[k..k + n]);
    assert x[..k + n] == x[..k] + x[k..k + n];
    StoreBytesConcat(m0, pdir, va, x[..k], x[k..k + n]);
    var m' := Splice(m, pa, x[k..k + n]);
    CoveredIsMapped(m', bm, pdir, t, keep, va + k + n);
    if Covered(t, va + k + n) { CoverChunk(t, va, va + k, n); }
  }

  lemma CoveredNow(t: Tree, va: nat, end: nat)
    requires CoveredTo(t, va, end) && va <= end
    ensures Covered(t, end)
  {
  }

  lemma CoveredSlot(t: Tree, a: nat)
    requires Covered(t, a) && a < USER_LIMIT
    ensures SlotOf(a) in t && SlotOf(a).Frame?
  {
  }

  /** The kernel's buffer still holds what is to be copied. */
  lemma SourceStays(m0: seq<byte>, m: seq<byte>, bm: seq<bool>, pdir: seq<nat>, t: Tree, keep: set<nat>, va: nat,
                    x: seq<byte>, k: nat, n: nat, src: nat)
    requires CopiedOut(m0, m, bm, pdir, t, keep, va, x, k) && k + n <= |x| && src + |x| <= KERNEL_MEM
    requires x == m0[src..src + |x|]
    ensures m[src + k..src + k + n] == x[k..k + n]
  {
    hide Process, StoreBytes, CoveredTo;
    forall i | src <= i < src + |x| ensures m[i] == m0[i] {
      assert m[..KERNEL_MEM][i] == m0[..KERNEL_MEM][i];
    }
    assert m[src..src + |x|] == x;
    SliceOfSlice(m, src, |x|, k, n);
  }

  lemma AllCovered(m: seq<byte>, bm: seq<bool>, pdir: seq<nat>, t: Tree, keep: set<nat>, va: nat, len: nat)
    requires Process(m, bm, pdir, t, keep) && USER_START <= va && va + len <= USER_LIMIT
    ensures |pdir| == NR_PDE && |m| == PHY_MEM && (AllMapped(m, pdir, va, len) <==> CoveredTo(t, va, va + len))
  {
    hide Process, Translate, Covered;
    CoveredIsMapped(m, bm, pdir, t, keep, va);
    forall a | va <= a <= va + len ensures Translate(m, pdir, a).Some? <==> Covered(t, a) {
      CoveredIsMapped(m, bm, pdir, t, keep, a);
    }
  }

  /** copy_from_kernel. It runs through (no assertion of physical_addr fails) exactly when every address from dest to
      dest + len, the end included, is mapped, and then it is the copy of single bytes. */
  method CopyFromKernel(mem: array<byte>, pdir: array<nat>, isKernel: bool, dest: nat, src: nat, len: nat,
                        ghost bm: seq<bool>, ghost t: Tree, ghost keep: set<nat>)
    returns (ok: bool)
    requires mem.Length == PHY_MEM && pdir.Length == NR_PDE && src + len <= KERNEL_MEM
    requires isKernel ==> dest + len <= KERNEL_MEM && (dest + len <= src || src + len <= dest)
    requires !isKernel ==>
               (Process(mem[..], bm, pdir[..], t, keep) && USER_START <= dest && dest + len <= USER_LIMIT)
    modifies mem
    ensures isKernel ==> ok && mem[..] == Splice(old(mem[..]), dest, old(mem[src..src + len]))
    ensures !isKernel ==> (ok <==> AllMapped(old(mem[..]), pdir[..], dest, len))
    ensures !isKernel && ok ==> mem[..] == StoreBytes(old(mem[..]), pdir[..], dest, old(mem[src..src + len]))
  {
    if isKernel {
      Memcpy(mem, dest, src, len);
      ok := true;
    } else {
      hide Process, StoreBytes, AllMapped;
      ok := CopyOutPages(mem, pdir, dest, src, len, bm, t, keep);
    }
  }

  method CopyOutPages(mem: array<byte>, pdir: array<nat>, dest0: nat, src0: nat, len0: nat,
                      ghost bm: seq<bool>, ghost t: Tree, ghost keep: set<nat>)
    returns (ok: bool)
    requires mem.Length == PHY_MEM && pdir.Length == NR_PDE && src0 + len0 <= KERNEL_MEM
    requires Process(mem[..], bm, pdir[..], t, keep) && USER_START <= dest0 && dest0 + len0 <= USER_LIMIT
    modifies mem
    ensures ok <==> AllMapped(old(mem[..]), pdir[..], dest0, len0)
    ensures ok ==> mem[..] == StoreBytes(old(mem[..]), pdir[..], dest0, old(mem[src0..src0 + len0]))
  {
    hide Process, Translate, Splice, Covered, CoveredTo, StoreBytes, CopiedOut, ChunkLen, AllMapped;
    ghost var m0, x, k := mem[..], mem[src0..src0 + len0], 0;
    ghost var pd: seq<nat> := pdir[..];
    AllCovered(m0, bm, pd, t, keep, dest0, len0);
    var dest, src, len: nat := dest0, src0, len0;
    var temp := PAGE_SIZE - dest % PAGE_SIZE;
    var readLen: nat := if temp < len then temp else len;
    var paDest := Translate(mem[..], pdir[..], dest);
    CoveredIsMapped(m0, bm, pd, t, keep, dest);
    if paDest.None? { NotCovered(t, dest0, dest, dest0 + len0); return false; }
    StartChunk(dest, len);
    StartOut(m0, bm, pd, t, keep, dest0, x);
    while len > 0
      invariant k <= len0 && dest == dest0 + k && src == src0 + k && len == len0 - k
      invariant CopiedOut(m0, mem[..], bm, pd, t, keep, dest0, x, k) && ChunkLen(dest, len, readLen)
      invariant paDest.Some? && paDest == Translate(mem[..], pd, dest)
    {
      paDest := OutChunk(mem, pdir, dest, src, readLen, paDest.value, m0, bm, t, keep, dest0, src0, x, k);
      dest, src, len, k := dest + readLen, src + readLen, len - readLen, k + readLen;
      readLen := if PAGE_SIZE < len then PAGE_SIZE else len;
      if paDest.None? { NotCovered(t, dest0, dest, dest0 + len0); return false; }
    }
    AllOut(m0, mem[..], bm, pd, t, keep, dest0, x, k);
    ok := true;
  }

  /** One turn of the loop: the memcpy, and the translation of the next address. */
  method OutChunk(mem: array<byte>, pdir: array<nat>, dest: nat, src: nat, n: nat, paDest: nat, ghost m0: seq<byte>,
                  ghost bm: seq<bool>, ghost t: Tree, ghost keep: set<nat>, ghost va: nat, ghost src0: nat,
                      ghost x: seq<byte>,
                  ghost k: nat)
    returns (pa: Option<nat>)
    requires mem.Length == PHY_MEM && pdir.Length == NR_PDE && src0 + |x| <= KERNEL_MEM && |m0| == PHY_MEM
    requires x == m0[src0..src0 + |x|] && k < |x| && dest == va + k && src == src0 + k && ChunkLen(dest, |x| - k, n)
    requires CopiedOut(m0, mem[..], bm, pdir[..], t, keep, va, x, k) &&
             Translate(mem[..], pdir[..], va + k) == Some(paDest)
    modifies mem
    ensures 0 < n && k + n <= |x| && dest + n < WORD_LIMIT
    ensures ChunkLen(dest + n, |x| - k - n, if PAGE_SIZE < |x| - k - n then PAGE_SIZE else |x| - k - n)
    ensures pa == Translate(mem[..], pdir[..], dest + n) && (pa.Some? <==> Covered(t, dest + n))
    ensures pa.Some? ==> CopiedOut(m0, mem[..], bm, pdir[..], t, keep, va, x, k + n)
  {
    hide Translate, Splice, CopiedOut, ChunkLen, Covered;
    ghost var m := mem[..];
    OutStep(m0, m, bm, pdir[..], t, keep, va, x, k, n, paDest);
    SourceStays(m0, m, bm, pdir[..], t, keep, va, x, k, n, src0);
    Memcpy(mem, paDest, src, n);
    pa := Translate(mem[..], pdir[..], dest + n);
  }

  lemma NotCovered(t: Tree, va: nat, a: nat, end: nat)
    requires va <= a <= end && !Covered(t, a)
    ensures !CoveredTo(t, va, end)
  {
  }

  lemma StartChunk(va: nat, len: nat)
    ensures ChunkLen(va, len, if PAGE_SIZE - va % PAGE_SIZE < len then PAGE_SIZE - va % PAGE_SIZE else len)
  {
  }

  lemma AllOut(m0: seq<byte>, m: seq<byte>, bm: seq<bool>, pdir: seq<nat>, t: Tree, keep: set<nat>, va: nat,
               x: seq<byte>, k: nat)
    requires CopiedOut(m0, m, bm, pdir, t, keep, va, x, k) && k == |x|
    ensures |pdir| == NR_PDE && va + |x| <= USER_LIMIT && m == StoreBytes(m0, pdir, va, x) && CoveredTo(t, va, va + |x|)
  {
    assert x[..k] == x;
  }

  lemma StartOut(m: seq<byte>, bm: seq<bool>, pdir: seq<nat>, t: Tree, keep: set<nat>, va: nat, x: seq<byte>)
    requires Process(m, bm, pdir, t, keep) && USER_START <= va && va + |x| <= USER_LIMIT && Covered(t, va)
    ensures CopiedOut(m, m, bm, pdir, t, keep, va, x, 0)
  {
    Sizes(m, bm, pdir, t, keep);
    hide Layout, KernelKeys;
    assert x[..0] == [];
  }

  // The other direction.

  /** Writing kernel memory leaves every page of the pool, so every process, alone. */
  lemma KernelWrite(m: seq<byte>, bm: seq<bool>, pdir: seq<nat>, t: Tree, keep: set<nat>, at: nat, x: seq<byte>)
    requires Process(m, bm, pdir, t, keep) && at + |x| <= KERNEL_MEM
    ensures |m| == PHY_MEM && Process(Splice(m, at, x), bm, pdir, t, keep)
    ensures Splice(m, at, x)[KERNEL_MEM..] == m[KERNEL_MEM..]
  {
    Sizes(m, bm, pdir, t, keep);
    var m' := Splice(m, at, x);
    forall s | s in t ensures Page(m', t[s]) == Page(m, t[s]) { }
    hide Splice, Page, TablePoints, KernelPoints, DirPoints, Marks, KernelKeys, Injective;
    TableStable(m, m', t);
  }

  ghost predicate CopiedIn(m0: seq<byte>, m: seq<byte>, bm: seq<bool>, pdir: seq<nat>, t: Tree, keep: set<nat>, va: nat,
                           dest: nat, len: nat, k: nat)
  {
    && Process(m0, bm, pdir, t, keep) && |pdir| == NR_PDE && |m0| == PHY_MEM
    && USER_START <= va && k <= len && va + len <= USER_LIMIT && dest + len <= KERNEL_MEM
    && m == Splice(m0, dest, LoadBytes(m0, pdir, va, k))
    && CoveredTo(t, va, va + k)
  }

  /** What a memcpy out of one page delivers. */
  lemma ChunkIsLoads(m: seq<byte>, bm: seq<bool>, pdir: seq<nat>, t: Tree, keep: set<nat>, va: nat, n: nat)
    requires Process(m, bm, pdir, t, keep) && USER_START <= va && va + n <= USER_LIMIT && n > 0
    requires va % PAGE_SIZE + n <= PAGE_SIZE && SlotOf(va) in t
    ensures |pdir| == NR_PDE && |m| == PHY_MEM && t[SlotOf(va)] < PAGE_NUM
    ensures var pa := PageAddr(t[SlotOf(va)]) + va % PAGE_SIZE; LoadBytes(m, pdir, va, n) == m[pa..pa + n]
  {
    hide Process, Translate;
    CoveredIsMapped(m, bm, pdir, t, keep, va);
    var pa := PageAddr(t[SlotOf(va)]) + va % PAGE_SIZE;
    var x, y := LoadBytes(m, pdir, va, n), m[pa..pa + n];
    forall i | 0 <= i < n ensures x[i] == y[i] { LoadInPage(m, bm, pdir, t, keep, va, i); }
    assert x == y by { hide LoadBytes; }
  }

  lemma LoadInPage(m: seq<byte>, bm: seq<bool>, pdir: seq<nat>, t: Tree, keep: set<nat>, va: nat, i: nat)
    requires Process(m, bm, pdir, t, keep) && USER_START <= va && va + i < USER_LIMIT
    requires va % PAGE_SIZE + i < PAGE_SIZE && SlotOf(va) in t
    ensures |pdir| == NR_PDE && |m| == PHY_MEM && t[SlotOf(va)] < PAGE_NUM
    ensures LoadByte(m, pdir, va + i) == m[PageAddr(t[SlotOf(va)]) + va % PAGE_SIZE + i]
  {
    hide Process, Translate;
    SamePageSlot(va, i);
    CoveredIsMapped(m, bm, pdir, t, keep, va + i);
  }

  lemma LoadBytesConcat(m: seq<byte>, pdir: seq<nat>, va: nat, k: nat, n: nat)
    requires |pdir| == NR_PDE && va + k + n <= USER_LIMIT
    ensures LoadBytes(m, pdir, va, k + n) == LoadBytes(m, pdir, va, k) + LoadBytes(m, pdir, va + k, n)
  {
    hide LoadByte;
  }

  lemma InStep(m0: seq<byte>, m: seq<byte>, bm: seq<bool>, pdir: seq<nat>, t: Tree, keep: set<nat>, va: nat, dest: nat,
               len: nat, k: nat, n: nat, pa: nat)
    requires CopiedIn(m0, m, bm, pdir, t, keep, va, dest, len, k) && k < len && ChunkLen(va + k, len - k, n)
    requires Translate(m, pdir, va + k) == Some(pa)
    ensures |m| == PHY_MEM && 0 < n && k + n <= len && KERNEL_MEM <= pa && pa + n <= PHY_MEM && va + len <= USER_LIMIT
    ensures ChunkLen(va + k + n, len - k - n, if PAGE_SIZE < len - k - n then PAGE_SIZE else len - k - n)
    ensures var m' := Splice(m, dest + k, m[pa..pa + n]);
            && (Covered(t, va + k + n) <==> Translate(m', pdir, va + k + n).Some?)
            && (Covered(t, va + k + n) ==> CopiedIn(m0, m', bm, pdir, t, keep, va, dest, len, k + n))
  {
    hide Process, Translate, Splice, Covered, CoveredTo, LoadBytes, SlotOf;
    NextChunkLen(va + k, len - k, n);
    CoveredNow(t, va, va + k);
    CoveredSlot(t, va + k);
    InBytes(m0, m, bm, pdir, t, keep, va, dest, len, k, n, pa);
    var m' := Splice(m, dest + k, m[pa..pa + n]);
    CoveredIsMapped(m', bm, pdir, t, keep, va + k + n);
    if Covered(t, va + k + n) { CoverChunk(t, va, va + k, n); }
  }

  lemma InBytes(m0: seq<byte>, m: seq<byte>, bm: seq<bool>, pdir: seq<nat>, t: Tree, keep: set<nat>, va: nat, dest: nat,
                len: nat, k: nat, n: nat, pa: nat)
    requires CopiedIn(m0, m, bm, pdir, t, keep, va, dest, len, k) && k + n <= len && n > 0
    requires (va + k) % PAGE_SIZE + n <= PAGE_SIZE && SlotOf(va + k) in t && Translate(m, pdir, va + k) == Some(pa)
    ensures |m| == PHY_MEM && KERNEL_MEM <= pa && pa + n <= PHY_MEM
    ensures var m' := Splice(m, dest + k, m[pa..pa + n]);
            Process(m', bm, pdir, t, keep) && m' == Splice(m0, dest, LoadBytes(m0, pdir, va, k + n))
  {
    hide Process, Translate, Splice, CoveredTo, LoadBytes, SlotOf;
    var x := LoadBytes(m0, pdir, va, k);
    KernelWrite(m0, bm, pdir, t, keep, dest, x);
    CoveredIsMapped(m, bm, pdir, t, keep, va + k);
    ChunkIsLoads(m0, bm, pdir, t, keep, va + k, n);
    PoolSlice(m0, m, pa, n);
    LoadBytesConcat(m0, pdir, va, k, n);
    SpliceConcat(m0, dest, x, m[pa..pa + n]);
    KernelWrite(m, bm, pdir, t, keep, dest + k, m[pa..pa + n]);
  }

  lemma PoolSlice(m0: seq<byte>, m: seq<byte>, pa: nat, n: nat)
    requires |m0| == |m| == PHY_MEM && m[KERNEL_MEM..] == m0[KERNEL_MEM..] && KERNEL_MEM <= pa && pa + n <= PHY_MEM
    ensures m[pa..pa + n] == m0[pa..pa + n]
  {
    SliceOfTail(m, KERNEL_MEM, pa - KERNEL_MEM, n);
    SliceOfTail(m0, KERNEL_MEM, pa - KERNEL_MEM, n);
  }

  lemma SliceOfSlice(m: seq<byte>, at: nat, len: nat, k: nat, n: nat)
    requires at + len <= |m| && k + n <= len
    ensures m[at..at + len][k..k + n] == m[at + k..at + k + n]
  {
    var x, y := m[at..at + len][k..k + n], m[at + k..at + k + n];
    forall i | 0 <= i < n ensures x[i] == y[i] { }
  }

  lemma SliceOfTail(m: seq<byte>, k: nat, o: nat, n: nat)
    requires k + o + n <= |m|
    ensures m[k..][o..o + n] == m[k + o..k + o + n]
  {
  }

  lemma StartIn(m: seq<byte>, bm: seq<bool>, pdir: seq<nat>, t: Tree, keep: set<nat>, va: nat, dest: nat, len: nat)
    requires Process(m, bm, pdir, t, keep) && USER_START <= va && va + len <= USER_LIMIT && dest + len <= KERNEL_MEM
    requires Covered(t, va)
    ensures CopiedIn(m, m, bm, pdir, t, keep, va, dest, len, 0)
  {
    Sizes(m, bm, pdir, t, keep);
    hide Layout, KernelKeys;
    assert LoadBytes(m, pdir, va, 0) == [];
    assert Splice(m, dest, []) == m;
  }

  lemma AllIn(m0: seq<byte>, m: seq<byte>, bm: seq<bool>, pdir: seq<nat>, t: Tree, keep: set<nat>, va: nat, dest: nat,
              len: nat)
    requires CopiedIn(m0, m, bm, pdir, t, keep, va, dest, len, len)
    ensures |pdir| == NR_PDE && |m0| == PHY_MEM && m == Splice(m0, dest, LoadBytes(m0, pdir, va, len))
    ensures CoveredTo(t, va, va + len)
  {
  }

  /** copy_to_kernel. Again it runs through exactly when the addresses from src to src + len are mapped. */
  method CopyToKernel(mem: array<byte>, pdir: array<nat>, isKernel: bool, dest: nat, src: nat, len: nat,
                      ghost bm: seq<bool>, ghost t: Tree, ghost keep: set<nat>)
    returns (ok: bool)
    requires mem.Length == PHY_MEM && pdir.Length == NR_PDE && dest + len <= KERNEL_MEM
    requires isKernel ==> src + len <= KERNEL_MEM && (dest + len <= src || src + len <= dest)
    requires !isKernel ==>
               (Process(mem[..], bm, pdir[..], t, keep) && USER_START <= src && src + len <= USER_LIMIT)
    modifies mem
    ensures isKernel ==> ok && mem[..] == Splice(old(mem[..]), dest, old(mem[src..src + len]))
    ensures !isKernel ==> (ok <==> AllMapped(old(mem[..]), pdir[..], src, len))
    ensures !isKernel && ok ==> mem[..] == Splice(old(mem[..]), dest, LoadBytes(old(mem[..]), pdir[..], src, len))
  {
    if isKernel {
      Memcpy(mem, dest, src, len);
      ok := true;
    } else {
      hide Process, LoadBytes, AllMapped;
      ok := CopyInPages(mem, pdir, dest, src, len, bm, t, keep);
    }
  }

  method CopyInPages(mem: array<byte>, pdir: array<nat>, dest0: nat, src0: nat, len0: nat,
                     ghost bm: seq<bool>, ghost t: Tree, ghost keep: set<nat>)
    returns (ok: bool)
    requires mem.Length == PHY_MEM && pdir.Length == NR_PDE && dest0 + len0 <= KERNEL_MEM
    requires Process(mem[..], bm, pdir[..], t, keep) && USER_START <= src0 && src0 + len0 <= USER_LIMIT
    modifies mem
    ensures ok <==> AllMapped(old(mem[..]), pdir[..], src0, len0)
    ensures ok ==> mem[..] == Splice(old(mem[..]), dest0, LoadBytes(old(mem[..]), pdir[..], src0, len0))
  {
    hide Process, Translate, Splice, Covered, CoveredTo, LoadBytes, CopiedIn, ChunkLen, AllMapped;
    ghost var m0, k := mem[..], 0;
    ghost var pd: seq<nat> := pdir[..];
    AllCovered(m0, bm, pd, t, keep, src0, len0);
    var dest, src, len: nat := dest0, src0, len0;
    var temp := PAGE_SIZE - src % PAGE_SIZE;
    var readLen: nat := if temp < len then temp else len;
    var paSrc := Translate(mem[..], pdir[..], src);
    CoveredIsMapped(m0, bm, pd, t, keep, src);
    if paSrc.None? { NotCovered(t, src0, src, src0 + len0); return false; }
    StartChunk(src, len);
    StartIn(m0, bm, pd, t, keep, src0, dest0, len0);
    while len > 0
      invariant k <= len0 && dest == dest0 + k && src == src0 + k && len == len0 - k
      invariant CopiedIn(m0, mem[..], bm, pd, t, keep, src0, dest0, len0, k) && ChunkLen(src, len, readLen)
      invariant paSrc.Some? && paSrc == Translate(mem[..], pd, src)
    {
      paSrc := InChunk(mem, pdir, dest, src, readLen, paSrc.value, m0, bm, t, keep, src0, dest0, len0, k);
      src, dest, len, k := src + readLen, dest + readLen, len - readLen, k + readLen;
      readLen := if PAGE_SIZE < len then PAGE_SIZE else len;
      if paSrc.None? { NotCovered(t, src0, src, src0 + len0); return false; }
    }
    AllIn(m0, mem[..], bm, pd, t, keep, src0, dest0, len0);
    ok := true;
  }

  method InChunk(mem: array<byte>, pdir: array<nat>, dest: nat, src: nat, n: nat, paSrc: nat, ghost m0: seq<byte>,
                 ghost bm: seq<bool>, ghost t: Tree, ghost keep: set<nat>, ghost va: nat, ghost dest0: nat,
                     ghost len: nat,
                 ghost k: nat)
    returns (pa: Option<nat>)
    requires mem.Length == PHY_MEM && pdir.Length == NR_PDE && dest0 + len <= KERNEL_MEM
    requires k < len && src == va + k && dest == dest0 + k && ChunkLen(src, len - k, n)
    requires CopiedIn(m0, mem[..], bm, pdir[..], t, keep, va, dest0, len, k) && va + k < WORD_LIMIT
    requires Translate(mem[..], pdir[..], va + k) == Some(paSrc)
    modifies mem
    ensures 0 < n && k + n <= len && src + n < WORD_LIMIT
    ensures ChunkLen(src + n, len - k - n, if PAGE_SIZE < len - k - n then PAGE_SIZE else len - k - n)
    ensures pa == Translate(mem[..], pdir[..], src + n) && (pa.Some? <==> Covered(t, src + n))
    ensures pa.Some? ==> CopiedIn(m0, mem[..], bm, pdir[..], t, keep, va, dest0, len, k + n)
  {
    hide Translate, Splice, CopiedIn, ChunkLen, Covered;
    ghost var m := mem[..];
    InStep(m0, m, bm, pdir[..], t, keep, va, dest0, len, k, n, paSrc);
    Memcpy(mem, dest, paSrc, n);
    assert m[paSrc..paSrc + n] == old(mem[paSrc..paSrc + n]);
    pa := Translate(mem[..], pdir[..], src + n);
  }

  // Copying out and back, and who sees it.

  /** The first of the stores, and the rest. */
  lemma FirstStore(m: seq<byte>, bm: seq<bool>, pdir: seq<nat>, t: Tree, keep: set<nat>, va: nat, x: seq<byte>)
    requires Process(m, bm, pdir, t, keep) && USER_START <= va && va + |x| <= USER_LIMIT && x != [] && SlotOf(va) in t
    ensures |pdir| == NR_PDE && |m| == PHY_MEM && t[SlotOf(va)] < PAGE_NUM
    ensures var pa := PageAddr(t[SlotOf(va)]) + va % PAGE_SIZE;
            && Translate(m, pdir, va) == Some(pa) && pa < PHY_MEM
            && Process(m[pa := x[0]], bm, pdir, t, keep)
            && StoreBytes(m, pdir, va, x) == StoreBytes(m[pa := x[0]], pdir, va + 1, x[1..])
  {
    hide Process, Translate, Splice;
    CoveredIsMapped(m, bm, pdir, t, keep, va);
    FrameWrite(m, bm, pdir, t, keep, SlotOf(va), va % PAGE_SIZE, [x[0]]);
    SpliceHead(m, PageAddr(t[SlotOf(va)]) + va % PAGE_SIZE, [x[0]]);
  }

  /** What a load at a sees after storing x at va: the byte of x that went there, or the old byte. */
  lemma {:induction false} LoadAfterStore(m: seq<byte>, bm: seq<bool>, pdir: seq<nat>, t: Tree, keep: set<nat>, va: nat,
                                          x: seq<byte>, a: nat)
    requires Process(m, bm, pdir, t, keep) && USER_START <= va && va + |x| <= USER_LIMIT && USER_START <= a < USER_LIMIT
    requires CoveredTo(t, va, va + |x|) && SlotOf(a) in t
    ensures |pdir| == NR_PDE && |m| == PHY_MEM
    ensures Process(StoreBytes(m, pdir, va, x), bm, pdir, t, keep)
    ensures LoadByte(StoreBytes(m, pdir, va, x), pdir, a) ==
            if va <= a < va + |x| then x[a - va] else LoadByte(m, pdir, a)
    decreases |x|
  {
    hide Process, Translate;
    CoveredIsMapped(m, bm, pdir, t, keep, a);
    if x != [] {
      CoveredIsMapped(m, bm, pdir, t, keep, va);
      assert Covered(t, va);
      FirstStore(m, bm, pdir, t, keep, va, x);
      var pa := PageAddr(t[SlotOf(va)]) + va % PAGE_SIZE;
      LoadAfterStore(m[pa := x[0]], bm, pdir, t, keep, va + 1, x[1..], a);
      LoadAfterOne(m, bm, pdir, t, keep, va, x[0], a);
    }
  }

  lemma LoadAfterOne(m: seq<byte>, bm: seq<bool>, pdir: seq<nat>, t: Tree, keep: set<nat>, va: nat, x: byte, a: nat)
    requires Process(m, bm, pdir, t, keep) && UserAddr(va) && UserAddr(a) && SlotOf(va) in t && SlotOf(a) in t
    requires t[SlotOf(va)] < PAGE_NUM && |m| == PHY_MEM
    requires Process(m[PageAddr(t[SlotOf(va)]) + va % PAGE_SIZE := x], bm, pdir, t, keep)
    ensures |pdir| == NR_PDE
    ensures LoadByte(m[PageAddr(t[SlotOf(va)]) + va % PAGE_SIZE := x], pdir, a) ==
            if a == va then x else LoadByte(m, pdir, a)
  {
    CoveredIsMapped(m, bm, pdir, t, keep, a);
    CoveredIsMapped(m[PageAddr(t[SlotOf(va)]) + va % PAGE_SIZE := x], bm, pdir, t, keep, a);
    if a != va { DistinctPlaces(m, bm, pdir, t, keep, va, a); }
    hide Process, Translate;
  }

  lemma DistinctPlaces(m: seq<byte>, bm: seq<bool>, pdir: seq<nat>, t: Tree, keep: set<nat>, va: nat, a: nat)
    requires Process(m, bm, pdir, t, keep) && SlotOf(va) in t && SlotOf(a) in t && a != va
    ensures PageAddr(t[SlotOf(va)]) + va % PAGE_SIZE != PageAddr(t[SlotOf(a)]) + a % PAGE_SIZE
  {
    hide DirPoints, TablePoints, KernelPoints, Marks, KernelKeys;
    if SlotOf(va) == SlotOf(a) && va % PAGE_SIZE == a % PAGE_SIZE { SlotsAreAddresses(va, a); }
    var s, s' := SlotOf(va), SlotOf(a);
    assert s != s' ==> t[s] != t[s'];
  }

  /** Copying out and then back is the identity. */
  lemma OutAndBack(m: seq<byte>, bm: seq<bool>, pdir: seq<nat>, t: Tree, keep: set<nat>, va: nat, x: seq<byte>)
    requires Process(m, bm, pdir, t, keep) && USER_START <= va && va + |x| <= USER_LIMIT && |pdir| == NR_PDE
    requires AllMapped(m, pdir, va, |x|)
    ensures AllMapped(StoreBytes(m, pdir, va, x), pdir, va, |x|)
    ensures LoadBytes(StoreBytes(m, pdir, va, x), pdir, va, |x|) == x
  {
    hide Process, Translate, StoreBytes, AllMapped, LoadByte, CoveredTo;
    AllCovered(m, bm, pdir, t, keep, va, |x|);
    var m' := StoreBytes(m, pdir, va, x);
    AfterStores(m, bm, pdir, t, keep, va, x);
    AllCovered(m', bm, pdir, t, keep, va, |x|);
    forall i | 0 <= i < |x| ensures LoadBytes(m', pdir, va, |x|)[i] == x[i] {
      CoveredAt(t, va, va + |x|, va + i);
      LoadAfterStore(m, bm, pdir, t, keep, va, x, va + i);
    }
  }

  lemma CoveredAt(t: Tree, va: nat, end: nat, a: nat)
    requires CoveredTo(t, va, end) && va <= a <= end && a < USER_LIMIT
    ensures SlotOf(a) in t
  {
    assert Covered(t, a);
  }

  lemma {:induction false} AfterStores(m: seq<byte>, bm: seq<bool>, pdir: seq<nat>, t: Tree, keep: set<nat>, va: nat,
                                       x: seq<byte>)
    requires Process(m, bm, pdir, t, keep) && USER_START <= va && va + |x| <= USER_LIMIT && CoveredTo(t, va, va + |x|)
    ensures |pdir| == NR_PDE && Process(StoreBytes(m, pdir, va, x), bm, pdir, t, keep)
    decreases |x|
  {
    hide Process, Translate;
    CoveredIsMapped(m, bm, pdir, t, keep, va);
    if x != [] {
      assert Covered(t, va);
      FirstStore(m, bm, pdir, t, keep, va, x);
      AfterStores(m[PageAddr(t[SlotOf(va)]) + va % PAGE_SIZE := x[0]], bm, pdir, t, keep, va + 1, x[1..]);
    }
  }

  /** With all processes in view: the receiver sees x at [va, va + |x|) and its old bytes elsewhere, and no other
      process sees any change. */
  lemma {:induction false} CopySeen(st: MemState, p: nat, va: nat, x: seq<byte>, q: nat, a: nat)
    requires Consistent(st) && p in st.procs && q in st.procs && USER_START <= va && va + |x| <= USER_LIMIT &&
             UserAddr(a)
    requires |st.procs[p].pdir| == NR_PDE && AllMapped(st.mem, st.procs[p].pdir, va, |x|)
    ensures var st' := st.(mem := StoreBytes(st.mem, st.procs[p].pdir, va, x));
            && Consistent(st')
            && ByteAt(st', q, a) == if q == p && va <= a < va + |x| then Some(x[a - va]) else ByteAt(st, q, a)
    decreases |x|
  {
    hide Consistent, Translate, ByteAt;
    if x != [] {
      var pdir, t := st.procs[p].pdir, st.procs[p].tree;
      StorePlace(st, p, va);
      assert Translate(st.mem, pdir, va).Some?;
      var pa := Translate(st.mem, pdir, va).value;
      MemorySize(st);
      var st1 := st.(mem := st.mem[pa := x[0]]);
      assert Did(st, st1, Store(p, va, x[0]));
      EventKeepsConsistent(st, st1, Store(p, va, x[0]));
      StillMapped(st, st1, p, va, |x|);
      if q == p && a == va { OwnStore(st, st1, p, va, x[0]); SeesMapped(st, p, va); }
      else { StoreElsewhere(st, st1, p, va, x[0], q, a); }
      CopySeen(st1, p, va + 1, x[1..], q, a);
    } else {
      assert st.(mem := StoreBytes(st.mem, st.procs[p].pdir, va, x)) == st;
    }
  }

  lemma MemorySize(st: MemState)
    requires Consistent(st)
    ensures |st.mem| == PHY_MEM
  {
  }

  lemma SeesMapped(st: MemState, p: nat, va: nat)
    requires Consistent(st) && p in st.procs && UserAddr(va) && |st.procs[p].pdir| == NR_PDE
    requires Translate(st.mem, st.procs[p].pdir, va).Some?
    ensures ByteAt(st, p, va).Some?
  {
    hide Consistent;
  }

  lemma StillMapped(st: MemState, st1: MemState, p: nat, va: nat, len: nat)
    requires Consistent(st) && Consistent(st1) && st1.procs == st.procs && p in st.procs && |st.procs[p].pdir| == NR_PDE
    requires USER_START <= va && va + len <= USER_LIMIT && len > 0 && AllMapped(st.mem, st.procs[p].pdir, va, len)
    ensures AllMapped(st1.mem, st.procs[p].pdir, va + 1, len - 1)
  {
    var sp := st.procs[p];
    assert Sound(st, p) && Sound(st1, p);
    hide Consistent, Layout, Translate, Others;
    AllCovered(st.mem, st.bitmap, sp.pdir, sp.tree, Others(st, p), va, len);
    AllCovered(st1.mem, st1.bitmap, sp.pdir, sp.tree, Others(st1, p), va, len);
  }

  /** With one user page mapped and not the next, a copy of exactly that page stores all its bytes and then fails in
      the translation of the address behind them. */
  lemma EndExample(m: seq<byte>, bm: seq<bool>, pdir: seq<nat>, t: Tree, keep: set<nat>)
    requires Process(m, bm, pdir, t, keep) && Frame(4, 0) in t && Frame(4, 1) !in t
    ensures |pdir| == NR_PDE && !AllMapped(m, pdir, USER_START, PAGE_SIZE)
    ensures forall a :: USER_START <= a < USER_START + PAGE_SIZE ==> Translate(m, pdir, a).Some?
  {
    hide Process, Translate;
    assert USER_START / PD_SIZE == 4 && USER_START / PAGE_SIZE % NR_PTE == 0 && USER_START % PAGE_SIZE == 0;
    var end := USER_START + PAGE_SIZE;
    assert end / PD_SIZE == 4 && end / PAGE_SIZE % NR_PTE == 1;
    CoveredIsMapped(m, bm, pdir, t, keep, end);
    forall a | USER_START <= a < end ensures Translate(m, pdir, a).Some? {
      SamePageSlot(USER_START, a - USER_START);
      CoveredIsMapped(m, bm, pdir, t, keep, a);
    }
  }
}
