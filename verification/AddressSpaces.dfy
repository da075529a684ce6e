/** All processes at once: every used page has exactly one owner in exactly one role, over every run of create, fork,
    exec and exit; forked processes agree on their bytes and share no page. */
module AddressSpaces {
  import opened Wrappers
  import opened Bytes
  import opened Counting
  import opened PageLayout
  import opened PageManager
  import opened SegmentSteps
  import opened Translation

  /** A live process: its page directory, and the tree of pages the directory spells out. */
  datatype Space = Space(pdir: seq<nat>, tree: Tree)

  datatype MemState = MemState(mem: seq<byte>, bitmap: seq<bool>, procs: map<nat, Space>)

  ghost function Marked(bm: seq<bool>): set<nat> {
    set b: nat | b < |bm| && bm[b]
  }

  /** The used pages that are not p's. */
  ghost function Others(st: MemState, p: nat): set<nat> {
    Marked(st.bitmap) - (if p in st.procs then st.procs[p].tree.Values else {})
  }

  ghost predicate Sound(st: MemState, p: nat)
    requires p in st.procs
  {
    && Layout(st.mem, st.bitmap, st.procs[p].pdir, st.procs[p].tree, Others(st, p))
    && KernelKeys(KERNEL_TABLES) <= st.procs[p].tree.Keys
  }

  ghost predicate Consistent(st: MemState) {
    && |st.mem| == PHY_MEM && |st.bitmap| == PAGE_NUM
    && (forall p :: p in st.procs ==> Sound(st, p))
    && (forall p, q :: p in st.procs && q in st.procs && p != q ==>
          st.procs[p].tree.Values !! st.procs[q].tree.Values)
    && (forall b :: b in Marked(st.bitmap) ==> exists p :: p in st.procs && b in st.procs[p].tree.Values)
  }

  ghost predicate Owns(st: MemState, p: nat, s: Slot, b: nat) {
    p in st.procs && s in st.procs[p].tree && st.procs[p].tree[s] == b
  }

  /** Every used page has exactly one owner and one role, and every owned page is marked used. */
  lemma OneOwner(st: MemState, b: nat)
    requires Consistent(st) && b < PAGE_NUM
    ensures st.bitmap[b] <==> exists p, s :: Owns(st, p, s, b)
    ensures forall p, s, p', s' :: Owns(st, p, s, b) && Owns(st, p', s', b) ==> p == p' && s == s'
  {
    hide DirPoints, TablePoints, KernelPoints;
    if st.bitmap[b] {
      assert b in Marked(st.bitmap);
      var p :| p in st.procs && b in st.procs[p].tree.Values;
      var s :| s in st.procs[p].tree && st.procs[p].tree[s] == b;
      assert Owns(st, p, s, b);
    }
    forall p, s | Owns(st, p, s, b) ensures st.bitmap[b] && b in st.procs[p].tree.Values {
      assert Sound(st, p);
    }
    forall p, s, s' | Owns(st, p, s, b) && Owns(st, p, s', b) ensures s == s' {
      assert Sound(st, p);
    }
  }

  /** The address space of p is replaced (or made, or removed), and nobody else's page is touched. */
  ghost predicate Replaced(st: MemState, st': MemState, p: nat, sp: Option<Space>) {
    var keep := Others(st, p);
    && Framed(st.mem, st'.mem, keep)
    && (match sp
        case Some(n) =>
          && st'.procs == st.procs[p := n] && KernelKeys(KERNEL_TABLES) <= n.tree.Keys
          && Layout(st'.mem, st'.bitmap, n.pdir, n.tree, keep)
        case None => st'.procs == st.procs - {p} && Marks(map[], st'.bitmap, keep))
  }

  lemma ReplacedMarks(st: MemState, st': MemState, p: nat, sp: Option<Space>)
    requires Replaced(st, st', p, sp)
    ensures |st'.bitmap| == PAGE_NUM && |st'.mem| == PHY_MEM
    ensures Others(st', p) == Others(st, p)
    ensures p in st'.procs ==> st'.procs[p].tree.Values !! Others(st, p)
    ensures Marked(st'.bitmap) == Others(st, p) + (if p in st'.procs then st'.procs[p].tree.Values else {})
    ensures p in st'.procs ==> Sound(st', p)
  {
    hide DirPoints, TablePoints, KernelPoints, Injective, KernelKeys;
    var keep := Others(st, p);
    var none: Tree := map[];
    assert none.Values == {};
    assert Marked(st'.bitmap) == keep + (if p in st'.procs then st'.procs[p].tree.Values else {});
  }

  /** The pages of another process are among those that stay. */
  lemma OthersStay(st: MemState, p: nat, q: nat)
    requires Consistent(st) && q in st.procs && q != p
    ensures st.procs[q].tree.Values <= Others(st, p)
  {
    hide DirPoints, TablePoints, KernelPoints, Injective;
    var t := st.procs[q].tree;
    assert Sound(st, q);
    forall b | b in t.Values ensures b in Others(st, p) { }
  }

  lemma FramedLayout(m: seq<byte>, m': seq<byte>, bm: seq<bool>, bm': seq<bool>, pdir: seq<nat>, t: Tree,
                     keep: set<nat>, keep': set<nat>, same: set<nat>)
    requires Layout(m, bm, pdir, t, keep) && Framed(m, m', same) && t.Values <= same && Marks(t, bm', keep')
    ensures Layout(m', bm', pdir, t, keep')
    ensures forall b :: b in t.Values ==> b < PAGE_NUM && Page(m', b) == Page(m, b)
  {
    hide DirPoints, TablePoints, KernelPoints, Page, Injective;
    assert forall s :: s in t ==> t[s] in t.Values;
    TableStable(m, m', t);
  }

  /** Another process keeps its pages, their contents and its soundness. */
  lemma OtherSpace(st: MemState, st': MemState, p: nat, sp: Option<Space>, q: nat)
    requires Consistent(st) && Replaced(st, st', p, sp) && q in st.procs && q != p
    ensures q in st'.procs && st'.procs[q] == st.procs[q] && Sound(st', q)
    ensures st.procs[q].tree.Values <= Others(st, p)
    ensures forall b :: b in st.procs[q].tree.Values ==> b < PAGE_NUM && Page(st'.mem, b) == Page(st.mem, b)
  {
    hide Layout, Marked, Others, KernelKeys, Framed, Marks;
    assert Sound(st, q);
    OthersStay(st, p, q);
    OtherMarks(st, st', p, sp, q);
    FramedLayout(st.mem, st'.mem, st.bitmap, st'.bitmap, st.procs[q].pdir, st.procs[q].tree, Others(st, q),
                 Others(st', q), Others(st, p));
  }

  lemma OtherMarks(st: MemState, st': MemState, p: nat, sp: Option<Space>, q: nat)
    requires Consistent(st) && Replaced(st, st', p, sp) && q in st.procs && q != p
    ensures q in st'.procs && st'.procs[q] == st.procs[q] && Marks(st.procs[q].tree, st'.bitmap, Others(st', q))
  {
    hide Layout, Framed, KernelKeys, Sound;
    OthersStay(st, p, q);
    ReplacedMarks(st, st', p, sp);
    hide Replaced, Consistent;
    assert forall b :: b in st.procs[q].tree.Values ==> b in Marked(st'.bitmap);
  }

  /** One operation keeps the whole consistent. */
  lemma ReplaceKeeps(st: MemState, st': MemState, p: nat, sp: Option<Space>)
    requires Consistent(st) && Replaced(st, st', p, sp)
    ensures Consistent(st')
  {
    ReplacedMarks(st, st', p, sp);
    hide Layout, Framed, Marked;
    forall q | q in st'.procs && q != p
      ensures q in st.procs && Sound(st', q) && st'.procs[q] == st.procs[q] && st.procs[q].tree.Values <= Others(st, p)
    {
      OtherSpace(st, st', p, sp, q);
    }
    forall b | b in Marked(st'.bitmap)
      ensures exists q :: q in st'.procs && b in st'.procs[q].tree.Values
    {
      if b in Others(st, p) {
        var q :| q in st.procs && b in st.procs[q].tree.Values;
        OtherSpace(st, st', p, sp, q);
        assert q in st'.procs && b in st'.procs[q].tree.Values;
      } else {
        assert p in st'.procs && b in st'.procs[p].tree.Values;
      }
    }
  }

  // Runs.

  /** The requests of the MEMORY server, and a user process storing a byte. */
  datatype Event =
    | Create(p: nat, segs: seq<Segment>)
    | Fork(p: nat, c: nat)
    | Exec(p: nat, file: Option<seq<Segment>>)
    | Exit(p: nat)
    | Store(p: nat, va: nat, x: byte)

  /** Whose address space an event may change. */
  function Subject(e: Event): nat { if e.Fork? then e.c else e.p }

  ghost predicate Did(st: MemState, st': MemState, e: Event) {
    match e
    case Create(p, segs) =>
      && p !in st.procs && p in st'.procs && Replaced(st, st', p, Some(st'.procs[p]))
      && st'.procs[p].tree.Keys == ProgramKeys(BaseKeys(), segs) && ZeroNew(st'.mem, st'.procs[p].tree, BaseKeys())
    case Fork(p, c) =>
      && p in st.procs && c !in st.procs && c in st'.procs && Replaced(st, st', c, Some(st'.procs[c]))
      && st'.procs[c].tree.Keys == st.procs[p].tree.Keys
      && Copied(st.mem, st.procs[p].tree, st'.mem, st'.procs[c].tree)
    case Exec(p, file) =>
      && p in st.procs
      && (match file
          case None => st' == st
          case Some(segs) =>
            && p in st'.procs && Replaced(st, st', p, Some(st'.procs[p]))
            && st'.procs[p].tree.Keys == ProgramKeys(BaseKeys(), segs)
            && ZeroNew(st'.mem, st'.procs[p].tree, BaseKeys()))
    case Exit(p) => p in st.procs && Replaced(st, st', p, None)
    case Store(p, va, x) =>
      && p in st.procs && UserAddr(va) && |st.procs[p].pdir| == NR_PDE
      && (match Translate(st.mem, st.procs[p].pdir, va)
          case Some(pa) => pa < |st.mem| && st' == st.(mem := st.mem[pa := x])
          case None => st' == st)
  }

  /** Where a store lands: inside one frame of its own process. */
  lemma StorePlace(st: MemState, p: nat, va: nat)
    requires Consistent(st) && p in st.procs && UserAddr(va)
    ensures |st.procs[p].pdir| == NR_PDE
    ensures var t := st.procs[p].tree;
            Translate(st.mem, st.procs[p].pdir, va) ==
            if SlotOf(va) in t then Some(PageAddr(t[SlotOf(va)]) + va % PAGE_SIZE) else None
    ensures SlotOf(va) in st.procs[p].tree ==> st.procs[p].tree[SlotOf(va)] < PAGE_NUM
  {
    hide Layout, Translate, SlotOf;
    assert Sound(st, p);
    hide Consistent, Others, Sound;
    Sizes(st.mem, st.bitmap, st.procs[p].pdir, st.procs[p].tree, Others(st, p));
    TranslateUser(st.mem, st.bitmap, st.procs[p].pdir, st.procs[p].tree, Others(st, p), va);
  }

  lemma OneByte(m: seq<byte>, b: nat, o: nat, x: byte)
    requires |m| == PHY_MEM && b < PAGE_NUM && o < PAGE_SIZE
    ensures var m' := m[PageAddr(b) + o := x];
            && m' == Splice(m, PageAddr(b) + o, [x]) && m'[..KERNEL_MEM] == m[..KERNEL_MEM]
            && (forall c :: 0 <= c < PAGE_NUM && c != b ==> Page(m', c) == Page(m, c))
  {
    hide Page;
    SplicePage(m, b, o, [x]);
    assert m[PageAddr(b) + o := x] == Splice(m, PageAddr(b) + o, [x]);
  }

  /** Writing into one frame of p leaves every tree as it is. */
  lemma StoreSound(st: MemState, p: nat, s: Slot, o: nat, x: byte, q: nat)
    requires Consistent(st) && p in st.procs && s in st.procs[p].tree && s.Frame? && st.procs[p].tree[s] < PAGE_NUM
    requires o < PAGE_SIZE && q in st.procs
    ensures Sound(st.(mem := st.mem[PageAddr(st.procs[p].tree[s]) + o := x]), q)
  {
    var b, t := st.procs[p].tree[s], st.procs[q].tree;
    var m' := st.mem[PageAddr(b) + o := x];
    assert Sound(st, q);
    OneByte(st.mem, b, o, x);
    OneOwner(st, b);
    forall u | u in t && !u.Frame? ensures t[u] != b {
      assert Owns(st, p, s, b);
      assert t[u] == b ==> Owns(st, q, u, b);
    }
    hide DirPoints, TablePoints, KernelPoints, Page, Injective, Marks, Consistent;
    TableStable(st.mem, m', t);
  }

  /** Every event keeps every page in the hands of one owner. */
  lemma EventKeepsConsistent(st: MemState, st': MemState, e: Event)
    requires Consistent(st) && Did(st, st', e)
    ensures Consistent(st')
  {
    hide Sound, Replaced, ProgramKeys, Copied, Marked;
    match e
    case Create(p, _) => ReplaceKeeps(st, st', p, Some(st'.procs[p]));
    case Fork(_, c) => ReplaceKeeps(st, st', c, Some(st'.procs[c]));
    case Exec(p, file) => if file.Some? { ReplaceKeeps(st, st', p, Some(st'.procs[p])); }
    case Exit(p) => ReplaceKeeps(st, st', p, None);
    case Store(p, va, x) =>
      StorePlace(st, p, va);
      var s := SlotOf(va);
      if s in st.procs[p].tree {
        forall q | q in st.procs ensures Sound(st', q) { StoreSound(st, p, s, va % PAGE_SIZE, x, q); }
      }
  }

  /** A run: states joined by events. */
  ghost predicate IsRun(states: seq<MemState>, events: seq<Event>) {
    |states| == |events| + 1 && forall k :: 0 <= k < |events| ==> Did(states[k], states[k + 1], events[k])
  }

  lemma {:induction false} RunKeepsConsistent(states: seq<MemState>, events: seq<Event>, k: nat)
    requires IsRun(states, events) && Consistent(states[0]) && k < |states|
    ensures Consistent(states[k])
  {
    hide Did, Consistent;
    if k > 0 {
      RunKeepsConsistent(states, events, k - 1);
      EventKeepsConsistent(states[k - 1], states[k], events[k - 1]);
    }
  }

  /** In every state of every run from a consistent state, a page is in use exactly when one live process owns it, in
      one role. */
  lemma RunKeepsOwnership(states: seq<MemState>, events: seq<Event>, k: nat, b: nat)
    requires IsRun(states, events) && Consistent(states[0]) && k < |states| && b < PAGE_NUM
    ensures |states[k].bitmap| == PAGE_NUM && (states[k].bitmap[b] <==> exists p, s :: Owns(states[k], p, s, b))
    ensures forall p, s, p', s' :: Owns(states[k], p, s, b) && Owns(states[k], p', s', b) ==> p == p' && s == s'
  {
    RunKeepsConsistent(states, events, k);
    OneOwner(states[k], b);
    hide Did, Sound;
  }

  /** In every state of every run, a process may read and write exactly the user addresses that are mapped, and its
      directory keeps user mode out of the kernel's 16 MB at 0. */
  lemma RunKeepsAccess(states: seq<MemState>, events: seq<Event>, k: nat, p: nat, va: nat)
    requires IsRun(states, events) && Consistent(states[0]) && k < |states| && p in states[k].procs
    ensures var m, pdir := states[k].mem, states[k].procs[p].pdir;
            && |pdir| == NR_PDE
            && (UserAddr(va) ==> (UserAccess(m, pdir, va) <==> Translate(m, pdir, va).Some?))
            && (va < KERNEL_MEM ==> Translate(m, pdir, va) == Some(va) && !UserAccess(m, pdir, va))
            && (forall i :: 0 <= i < 4 ==> pdir[i] / 4 % 2 == 0)
  {
    RunKeepsConsistent(states, events, k);
    hide Did, Layout, UserAccess, Translate, KernelKeys;
    var st := states[k];
    assert Sound(st, p);
    var m, bm, pdir, t, keep := st.mem, st.bitmap, st.procs[p].pdir, st.procs[p].tree, Others(st, p);
    hide Consistent, Sound, Others;
    Sizes(m, bm, pdir, t, keep);
    if UserAddr(va) { UserOpen(m, bm, pdir, t, keep, va); }
    forall i | 0 <= i < 4 ensures pdir[i] / 4 % 2 == 0 { KernelClosed(m, bm, pdir, t, keep, i); }
    if va < KERNEL_MEM {
      TranslateKernel(m, bm, pdir, t, keep, va);
      ShutOut(m, pdir, va);
    }
  }

  lemma ShutOut(m: seq<byte>, pdir: seq<nat>, va: nat)
    requires |pdir| == NR_PDE && va < KERNEL_MEM && forall i :: 0 <= i < 4 ==> pdir[i] / 4 % 2 == 0
    ensures !UserAccess(m, pdir, va)
  {
    assert 0 <= va / PD_SIZE < 4;
    assert pdir[va / PD_SIZE] / 4 % 2 == 0;
    hide WordAt;
  }

  // Which addresses a loaded program has.

  /** The ten pages below 3 GB. */
  predicate InStack(va: nat) { 0xBFFF6000 <= va < 0xC0000000 }

  /** A byte of the segment lies in the page of va. */
  predicate Meets(seg: Segment, va: nat) {
    var page := va / PAGE_SIZE * PAGE_SIZE;
    seg.memsz > 0 && seg.vaddr < page + PAGE_SIZE && page < seg.vaddr + seg.memsz
  }

  lemma SlotInSegment(seg: Segment, va: nat)
    requires UserAddr(va) && seg.memsz > 0
    ensures SlotOf(va) in SegKeys(seg.vaddr, seg.memsz) <==> Meets(seg, va)
  {
    var i, j := va / PD_SIZE, va / PAGE_SIZE % NR_PTE;
    assert i == va / PAGE_SIZE / NR_PTE;
    assert i * NR_PTE + j == va / PAGE_SIZE;
    assert SlotOf(va) in UserSlots();
  }

  lemma SlotInBase(va: nat)
    requires UserAddr(va)
    ensures SlotOf(va) in BaseKeys() <==> InStack(va)
  {
    var i, j := va / PD_SIZE, va / PAGE_SIZE % NR_PTE;
    assert i == va / PAGE_SIZE / NR_PTE;
    assert i * NR_PTE + j == va / PAGE_SIZE;
  }

  lemma {:induction false} SlotInProgram(keys: set<Slot>, segs: seq<Segment>, va: nat)
    requires UserAddr(va)
    ensures SlotOf(va) in ProgramKeys(keys, segs) <==>
            SlotOf(va) in keys || exists n :: 0 <= n < |segs| && Meets(segs[n], va)
    decreases |segs|
  {
    hide SegKeys, Meets, SlotOf;
    if segs != [] {
      var seg, rest := segs[0], segs[1..];
      assert segs == [seg] + rest;
      if seg.memsz == 0 { assert !Meets(seg, va) by { EmptyMeets(seg, va); } } else { SlotInSegment(seg, va); }
      SlotInProgram(if seg.memsz == 0 then keys else keys + SegKeys(seg.vaddr, seg.memsz), rest, va);
      OneMore(segs, va);
    }
  }

  lemma EmptyMeets(seg: Segment, va: nat)
    requires seg.memsz == 0
    ensures !Meets(seg, va)
  {
  }

  lemma OneMore(segs: seq<Segment>, va: nat)
    requires segs != []
    ensures (exists n :: 0 <= n < |segs| && Meets(segs[n], va)) <==>
            Meets(segs[0], va) || exists n :: 0 <= n < |segs[1..]| && Meets(segs[1..][n], va)
  {
    hide Meets;
    if n :| 0 <= n < |segs| && Meets(segs[n], va) { assert n > 0 ==> segs[1..][n - 1] == segs[n]; }
    if n :| 0 <= n < |segs[1..]| && Meets(segs[1..][n], va) { assert segs[n + 1] == segs[1..][n]; }
  }

  /** After a program is loaded, by create or exec, the user addresses mapped are those in a page of its stack or of one
      of its segments, and no others. */
  lemma LoadedAddresses(st: MemState, st': MemState, p: nat, segs: seq<Segment>, va: nat)
    requires Consistent(st) && UserAddr(va)
    requires Did(st, st', Create(p, segs)) || Did(st, st', Exec(p, Some(segs)))
    ensures p in st'.procs && |st'.procs[p].pdir| == NR_PDE
    ensures Translate(st'.mem, st'.procs[p].pdir, va).Some? <==>
            InStack(va) || exists n :: 0 <= n < |segs| && Meets(segs[n], va)
  {
    hide Translate, ProgramKeys, SlotOf, Replaced, Consistent, BaseKeys, InStack, Meets;
    if Did(st, st', Create(p, segs)) { EventKeepsConsistent(st, st', Create(p, segs)); }
    else { EventKeepsConsistent(st, st', Exec(p, Some(segs))); }
    StorePlace(st', p, va);
    SlotInProgram(BaseKeys(), segs, va);
    SlotInBase(va);
  }

  /** The boot state: no process, no page in use. */
  lemma BootConsistent(m: seq<byte>, bm: seq<bool>)
    requires |m| == PHY_MEM && |bm| == PAGE_NUM && forall b :: 0 <= b < PAGE_NUM ==> !bm[b]
    ensures Consistent(MemState(m, bm, map[]))
  {
  }

  // The byte a process sees.

  ghost function ByteAt(st: MemState, p: nat, va: nat): Option<byte>
    requires Consistent(st) && p in st.procs && UserAddr(va)
  {
    StorePlace(st, p, va);
    match Translate(st.mem, st.procs[p].pdir, va)
    case Some(pa) => Some(st.mem[pa])
    case None => None
  }

  /** The byte at offset va % PAGE_SIZE of the frame that holds va. */
  lemma ByteInPage(st: MemState, p: nat, va: nat)
    requires Consistent(st) && p in st.procs && UserAddr(va)
    ensures var t := st.procs[p].tree;
            && (SlotOf(va) in t ==> t[SlotOf(va)] < PAGE_NUM)
            && ByteAt(st, p, va) ==
               if SlotOf(va) in t then Some(Page(st.mem, t[SlotOf(va)])[va % PAGE_SIZE]) else None
  {
    hide Sound;
    StorePlace(st, p, va);
  }

  /** Until its file is read, a loaded program sees zeros in its segments, whoever had the pages before. */
  lemma LoadedZeros(st: MemState, st': MemState, p: nat, segs: seq<Segment>, va: nat)
    requires Consistent(st) && UserAddr(va) && !InStack(va)
    requires Did(st, st', Create(p, segs)) || Did(st, st', Exec(p, Some(segs)))
    ensures Consistent(st') && p in st'.procs && (ByteAt(st', p, va) == None || ByteAt(st', p, va) == Some(0))
  {
    hide Translate, ProgramKeys, SlotOf, Replaced, Consistent, BaseKeys, InStack, ByteAt, Page, Zeros;
    if Did(st, st', Create(p, segs)) { EventKeepsConsistent(st, st', Create(p, segs)); }
    else { EventKeepsConsistent(st, st', Exec(p, Some(segs))); }
    SlotInBase(va);
    ByteInPage(st', p, va);
    assert SlotOf(va).Frame? by { SlotIsFrame(va); }
    assert forall o :: 0 <= o < PAGE_SIZE ==> Zeros()[o] == 0;
  }

  lemma SlotIsFrame(va: nat)
    ensures SlotOf(va).Frame?
  {
  }

  /** An event changes what its own process sees, and nothing for anybody else. */
  lemma OthersSeeNothing(st: MemState, st': MemState, e: Event, q: nat, va: nat)
    requires Consistent(st) && Did(st, st', e) && q in st.procs && q != Subject(e) && UserAddr(va)
    ensures Consistent(st') && q in st'.procs && ByteAt(st', q, va) == ByteAt(st, q, va)
  {
    hide Sound, Replaced, ProgramKeys, Copied, Consistent, Translate, Page, ByteAt;
    EventKeepsConsistent(st, st', e);
    match e {
      case Create(p, _) => OtherSpace(st, st', p, Some(st'.procs[p]), q);
      case Fork(_, c) => OtherSpace(st, st', c, Some(st'.procs[c]), q);
      case Exec(p, file) => if file.Some? { OtherSpace(st, st', p, Some(st'.procs[p]), q); }
      case Exit(p) => OtherSpace(st, st', p, None, q);
      case Store(p, va', x) => StoreElsewhere(st, st', p, va', x, q, va);
    }
    ByteInPage(st, q, va);
    ByteInPage(st', q, va);
  }

  /** A store changes one byte of one process. */
  lemma StoreElsewhere(st: MemState, st': MemState, p: nat, va: nat, x: byte, q: nat, va': nat)
    requires Consistent(st) && Did(st, st', Store(p, va, x)) && q in st.procs && UserAddr(va') && (p != q || va != va')
    ensures Consistent(st') && st'.procs == st.procs && ByteAt(st', q, va') == ByteAt(st, q, va')
    ensures SlotOf(va') in st.procs[q].tree ==>
              var b := st.procs[q].tree[SlotOf(va')];
              b < PAGE_NUM && Page(st'.mem, b)[va' % PAGE_SIZE] == Page(st.mem, b)[va' % PAGE_SIZE]
  {
    hide Sound;
    EventKeepsConsistent(st, st', Store(p, va, x));
    StorePlace(st, p, va);
    ByteInPage(st, q, va');
    ByteInPage(st', q, va');
    var s, s' := SlotOf(va), SlotOf(va');
    if s in st.procs[p].tree && s' in st.procs[q].tree {
      var b, b' := st.procs[p].tree[s], st.procs[q].tree[s'];
      OneByte(st.mem, b, va % PAGE_SIZE, x);
      OneOwner(st, b);
      assert Owns(st, p, s, b);
      if b == b' {
        assert Owns(st, q, s', b);
        if va % PAGE_SIZE == va' % PAGE_SIZE { SlotsAreAddresses(va, va'); }
      }
    }
  }

  lemma OwnStore(st: MemState, st': MemState, p: nat, va: nat, x: byte)
    requires Consistent(st) && Did(st, st', Store(p, va, x))
    ensures Consistent(st') && p in st'.procs
    ensures ByteAt(st', p, va) == if ByteAt(st, p, va).Some? then Some(x) else None
  {
    hide Sound;
    EventKeepsConsistent(st, st', Store(p, va, x));
    StorePlace(st, p, va);
    ByteInPage(st, p, va);
    ByteInPage(st', p, va);
  }

  /** Whatever the others do over a whole run, a process that is not itself the subject of an event keeps seeing the
      same bytes at the same addresses. */
  lemma {:induction false} RunIsolates(states: seq<MemState>, events: seq<Event>, k: nat, q: nat, va: nat)
    requires IsRun(states, events) && Consistent(states[0]) && k < |states|
    requires q in states[0].procs && UserAddr(va) && forall n :: 0 <= n < k ==> Subject(events[n]) != q
    ensures Consistent(states[k]) && q in states[k].procs && ByteAt(states[k], q, va) == ByteAt(states[0], q, va)
  {
    hide Did, Consistent, ByteAt;
    if k > 0 {
      RunIsolates(states, events, k - 1, q, va);
      OthersSeeNothing(states[k - 1], states[k], events[k - 1], q, va);
    }
  }

  /** After fork the child sees exactly what the parent sees, through frames that nobody else has. */
  lemma ForkAgrees(st: MemState, st': MemState, p: nat, c: nat, va: nat)
    requires Consistent(st) && Did(st, st', Fork(p, c)) && UserAddr(va)
    ensures Consistent(st') && p in st'.procs && c in st'.procs
    ensures ByteAt(st', c, va) == ByteAt(st', p, va) == ByteAt(st, p, va)
    ensures forall q :: q in st'.procs && q != c ==> st'.procs[q].tree.Values !! st'.procs[c].tree.Values
  {
    hide Sound;
    EventKeepsConsistent(st, st', Fork(p, c));
    OthersSeeNothing(st, st', Fork(p, c), p, va);
    ByteInPage(st, p, va);
    ByteInPage(st', c, va);
  }

  /** Whatever happens after a fork, as long as it does not happen to q itself, q (the parent or the child) keeps
      seeing what the parent saw when it forked. */
  lemma ForkedApart(st: MemState, states: seq<MemState>, events: seq<Event>, p: nat, c: nat, k: nat, q: nat, va: nat)
    requires Consistent(st) && IsRun(states, events) && Did(st, states[0], Fork(p, c)) && k < |states|
    requires UserAddr(va) && (q == p || q == c) && p in st.procs
    requires forall n :: 0 <= n < k ==> Subject(events[n]) != q
    ensures Consistent(states[k]) && q in states[k].procs && ByteAt(states[k], q, va) == ByteAt(st, p, va)
  {
    ForkAgrees(st, states[0], p, c, va);
    hide Did, Consistent, ByteAt;
    RunIsolates(states, events, k, q, va);
  }

  lemma {:induction false} StoresKeepProcs(states: seq<MemState>, events: seq<Event>, k: nat)
    requires IsRun(states, events) && k < |states| && forall n :: 0 <= n < k ==> events[n].Store?
    ensures states[k].procs == states[0].procs && states[k].bitmap == states[0].bitmap
  {
    if k > 0 {
      StoresKeepProcs(states, events, k - 1);
      assert Did(states[k - 1], states[k], events[k - 1]);
      hide IsRun, Translate;
    }
  }

  lemma ForkMarks(st: MemState, st': MemState, p: nat, c: nat)
    requires Consistent(st) && Did(st, st', Fork(p, c))
    ensures c in st'.procs && Others(st', c) == Marked(st.bitmap)
  {
    ReplacedMarks(st, st', c, Some(st'.procs[c]));
  }

  lemma ExitMarks(st: MemState, st': MemState, c: nat)
    requires Consistent(st) && Did(st, st', Exit(c))
    ensures Marked(st'.bitmap) == Others(st, c) && |st'.bitmap| == PAGE_NUM
  {
    ReplacedMarks(st, st', c, None);
  }

  /** Fork, any stores by anybody, exit of the child: the pages in use are exactly those from before the fork. */
  lemma ForkExitRestores(st: MemState, states: seq<MemState>, events: seq<Event>, st': MemState, p: nat, c: nat)
    requires Consistent(st) && IsRun(states, events) && Did(st, states[0], Fork(p, c)) &&
             Did(states[|events|], st', Exit(c))
    requires forall n :: 0 <= n < |events| ==> events[n].Store?
    ensures st'.bitmap == st.bitmap
  {
    var n := |events|;
    EventKeepsConsistent(st, states[0], Fork(p, c));
    RunKeepsConsistent(states, events, n);
    ForkMarks(st, states[0], p, c);
    ExitMarks(states[n], st', c);
    hide Did, Sound, Marked;
    StoresKeepProcs(states, events, n);
    SameBits(st.bitmap, st'.bitmap);
  }

  lemma SameBits(a: seq<bool>, b: seq<bool>)
    requires |a| == |b| == PAGE_NUM && Marked(a) == Marked(b)
    ensures a == b
  {
    forall x | 0 <= x < PAGE_NUM ensures a[x] == b[x] {
      assert a[x] <==> x in Marked(a);
      assert b[x] <==> x in Marked(b);
    }
  }

  // When a page-table entry may be written.

  /** Some tree accounts for every page in use that is not in `keep`. */
  ghost predicate Accounted(m: seq<byte>, bm: seq<bool>, pdir: seq<nat>, keep: set<nat>) {
    exists t :: Layout(m, bm, pdir, t, keep)
  }

  /** Every slot of any tree that fits the tables is a slot of ours, so no lost page is in it. */
  lemma LostPage(m: seq<byte>, bm: seq<bool>, pdir: seq<nat>, t: Tree, keep: set<nat>, lost: set<nat>, t': Tree,
                 s: Slot)
    requires Layout(m, bm, pdir, t, keep + lost) && KernelKeys(KERNEL_TABLES) <= t.Keys
    requires Closed(t') && DirPoints(pdir, t') && TablePoints(m, t') && s in t'
    ensures t'[s] !in lost
  {
    hide KernelPoints, Injective, Pte;
    match s {
      case KTable(k) =>
        assert KTable(k) in KernelKeys(KERNEL_TABLES);
        assert t'[s] == t[s];
      case UTable(k) => assert t'[s] == t[s];
      case Frame(k, l) =>
        assert UTable(k) in t && t'[UTable(k)] == t[UTable(k)];
        assert s in t && t'[s] == t[s];
    }
  }

  /** With a page lost, nothing accounts for it any more. */
  lemma LostMeansUnaccounted(m: seq<byte>, bm: seq<bool>, pdir: seq<nat>, t: Tree, keep: set<nat>, lost: set<nat>)
    requires Layout(m, bm, pdir, t, keep + lost) && KernelKeys(KERNEL_TABLES) <= t.Keys && lost !! keep
    ensures Accounted(m, bm, pdir, keep) <==> lost == {}
  {
    if lost == {} {
      assert keep + lost == keep;
    } else {
      var f :| f in lost;
      forall t', s | Layout(m, bm, pdir, t', keep) && s in t' ensures t'[s] != f {
        LostPage(m, bm, pdir, t, keep, lost, t', s);
      }
      hide DirPoints, TablePoints, KernelPoints, Injective, KernelKeys;
      assert f < PAGE_NUM && bm[f];
    }
  }

  /** make_pte over an entry: the pages are still all accounted for exactly when the entry was empty. */
  lemma EntryOverwriteExact(m: seq<byte>, bm: seq<bool>, pdir: seq<nat>, t: Tree, keep: set<nat>, i: nat, j: nat,
                            b: nat)
    requires Layout(m, bm, pdir, t, keep) && KernelKeys(KERNEL_TABLES) <= t.Keys
    requires UTable(i) in t && j < NR_PTE && b < PAGE_NUM && !bm[b]
    ensures t[UTable(i)] < PAGE_NUM
    ensures var m' := Splice(m, PageAddr(t[UTable(i)]) + 4 * j, WordBytes(Entry(b)));
            Accounted(m', bm[b := true], pdir, keep) <==> Frame(i, j) !in t
  {
    hide Splice, WordBytes, Entry, DirPoints, TablePoints, KernelPoints, Injective;
    PutFrame(m, bm, pdir, t, keep, i, j, b);
    var m' := Splice(m, PageAddr(t[UTable(i)]) + 4 * j, WordBytes(Entry(b)));
    LostMeansUnaccounted(m', bm[b := true], pdir, t[Frame(i, j) := b], keep, Old(t, Frame(i, j)));
  }

  /** make_pde over a directory entry, with an empty table: the same. */
  lemma TableOverwriteExact(m: seq<byte>, bm: seq<bool>, pdir: seq<nat>, t: Tree, keep: set<nat>, i: nat, b: nat)
    requires Layout(m, bm, pdir, t, keep) && KernelKeys(KERNEL_TABLES) <= t.Keys
    requires KERNEL_TABLES <= i < USER_END && b < PAGE_NUM && !bm[b] && Page(m, b) == Zeros()
    ensures Accounted(m, bm[b := true], pdir[i := Entry(b)], keep) <==> UTable(i) !in t
  {
    hide Entry, Zeros, Page, DirPoints, TablePoints, KernelPoints, Injective;
    PutTable(m, bm, pdir, t, keep, i, b);
    assert UTable(i) in t ==> t[UTable(i)] in PagesUnder(t, i);
    assert UTable(i) !in t ==> PagesUnder(t, i) == {};
    LostMeansUnaccounted(m, bm[b := true], pdir[i := Entry(b)], Drop(t, i)[UTable(i) := b], keep, PagesUnder(t, i));
  }

  /** load_segment as a whole: with any segment in user space and enough idle pages, afterwards the used pages are all
      accounted for if and only if the segment's pages after the first, and its tables after the first, were not
      mapped. */
  lemma SegmentExact(m0: seq<byte>, m: seq<byte>, bm: seq<bool>, pdir: seq<nat>, t0: Tree, t: Tree, keep: set<nat>,
                     lost: set<nat>, vaddr: nat, memsz: nat)
    requires Closed(t0) && KernelKeys(KERNEL_TABLES) <= t0.Keys && memsz > 0
    requires Loading(m0, m, bm, pdir, t, keep, lost) && Progress(t0, t, lost, vaddr, (vaddr + memsz - 1) / PAGE_SIZE)
    ensures Accounted(m, bm, pdir, keep) <==> RestUnmapped(t0.Keys, vaddr, memsz)
  {
    LossExact(t0, t, lost, vaddr, memsz);
    assert KernelKeys(KERNEL_TABLES) <= t.Keys by {
      hide UptoPage;
      assert forall s :: s in KernelKeys(KERNEL_TABLES) ==>
             s in t0 && !Displaced(s, vaddr, (vaddr + memsz - 1) / PAGE_SIZE);
    }
    hide Layout, Progress, RestUnmapped, KernelKeys;
    LostMeansUnaccounted(m, bm, pdir, t, keep, lost);
  }

  /** A two-page segment where nothing is mapped. */
  method LoadTwoPages(pool: Pool, pdir: array<nat>, ghost t0: Tree, ghost keep: set<nat>) returns (ghost t: Tree)
    requires pool.Valid() && pdir.Length == NR_PDE
    requires Layout(pool.mem[..], pool.pageBitmap[..], pdir[..], t0, keep)
    requires SegKeys(USER_START, 2 * PAGE_SIZE) !! t0.Keys && |FreeSet(pool.pageBitmap[..])| >= 3
    modifies pool.mem, pool.pageBitmap, pool`bitmapIdx, pdir
    ensures pool.Valid() && Layout(pool.mem[..], pool.pageBitmap[..], pdir[..], t, keep)
    ensures t.Keys == t0.Keys + SegKeys(USER_START, 2 * PAGE_SIZE)
    ensures |FreeSet(pool.pageBitmap[..])| == |FreeSet(old(pool.pageBitmap[..]))| - 3
  {
    hide Loading, Layout, Progress, ZeroFrames, NewFrames, FreeSet;
    hide SegKeys, UptoPage, RestUnmapped;
    TwoPageSlots(t0);
    ghost var m, bm := pool.mem[..], pool.pageBitmap[..];
    ghost var pd: seq<nat> := pdir[..];
    ghost var lost;
    t, lost := pool.LoadSegment(pdir, USER_START, 2 * PAGE_SIZE, t0, keep);
    TwoLoaded(m, pool.mem[..], bm, pool.pageBitmap[..], pd, pdir[..], t0, t, keep, lost);
  }

  lemma TwoLoaded(m0: seq<byte>, m: seq<byte>, bm0: seq<bool>, bm: seq<bool>, pd0: seq<nat>, pd: seq<nat>, t0: Tree,
                  t: Tree, keep: set<nat>, lost: set<nat>)
    requires Layout(m0, bm0, pd0, t0, keep) && SegKeys(USER_START, 2 * PAGE_SIZE) !! t0.Keys
    requires Loading(m0, m, bm, pd, t, keep, lost)
    requires Progress(t0, t, lost, USER_START, (USER_START + 2 * PAGE_SIZE - 1) / PAGE_SIZE)
    ensures Layout(m, bm, pd, t, keep) && t.Keys == t0.Keys + SegKeys(USER_START, 2 * PAGE_SIZE)
    ensures |FreeSet(bm)| == |FreeSet(bm0)| - 3
  {
    hide Loading, Layout, Progress, FreeSet, SegKeys, Closed;
    LayoutClosed(m0, bm0, pd0, t0, keep);
    TwoKeys(t0, t, lost);
    LoadedClean(m0, m, bm, pd, t, keep, lost);
    ThreeUsed(m0, m, bm0, bm, pd0, pd, t0, t, keep);
  }

  lemma TwoKeys(t0: Tree, t: Tree, lost: set<nat>)
    requires Closed(t0) && SegKeys(USER_START, 2 * PAGE_SIZE) !! t0.Keys
    requires Progress(t0, t, lost, USER_START, (USER_START + 2 * PAGE_SIZE - 1) / PAGE_SIZE)
    ensures lost == {} && t.Keys == t0.Keys + SegKeys(USER_START, 2 * PAGE_SIZE) && |t.Keys| == |t0.Keys| + 3
  {
    hide Progress, SegKeys, UptoPage, RestUnmapped, Closed;
    assert RestUnmapped(t0.Keys, USER_START, 2 * PAGE_SIZE) by { TwoPageSlots(t0); }
    assert |t0.Keys + SegKeys(USER_START, 2 * PAGE_SIZE)| == |t0.Keys| + 3 by { TwoPageSlots(t0); }
    LossExact(t0, t, lost, USER_START, 2 * PAGE_SIZE);
  }

  lemma ThreeUsed(m0: seq<byte>, m: seq<byte>, bm0: seq<bool>, bm: seq<bool>, pd0: seq<nat>, pd: seq<nat>, t0: Tree,
                  t: Tree, keep: set<nat>)
    requires Layout(m0, bm0, pd0, t0, keep) && Layout(m, bm, pd, t, keep) && |t.Keys| == |t0.Keys| + 3
    ensures |FreeSet(bm)| == |FreeSet(bm0)| - 3
  {
    hide Layout, FreeSet;
    GivenBack(m0, bm0, pd0, t0, keep);
    GivenBack(m, bm, pd, t, keep);
    assert |t| == |t.Keys| && |t0| == |t0.Keys|;
  }

  /** load_segment on a process of any shape: the used pages stay accounted for exactly when its later pages and tables
      were free. */
  method LoadAny(pool: Pool, pdir: array<nat>, vaddr: nat, memsz: nat, ghost t0: Tree, ghost keep: set<nat>)
    requires pool.Valid() && pdir.Length == NR_PDE && memsz > 0
    requires USER_START <= vaddr && vaddr + memsz <= USER_LIMIT
    requires Layout(pool.mem[..], pool.pageBitmap[..], pdir[..], t0, keep) && KernelKeys(KERNEL_TABLES) <= t0.Keys
    requires |FreeSet(pool.pageBitmap[..])| >= |SegKeys(vaddr, memsz) - (t0.Keys * UptoPage(vaddr, vaddr / PAGE_SIZE))|
    modifies pool.mem, pool.pageBitmap, pool`bitmapIdx, pdir
    ensures pool.Valid()
    ensures Accounted(pool.mem[..], pool.pageBitmap[..], pdir[..], keep) <==> RestUnmapped(t0.Keys, vaddr, memsz)
  {
    hide Loading, Layout, Progress, ZeroFrames, NewFrames, FreeSet, KernelKeys, Accounted, SegKeys, UptoPage,
         RestUnmapped;
    LayoutClosed(pool.mem[..], pool.pageBitmap[..], pdir[..], t0, keep);
    ghost var m := pool.mem[..];
    ghost var t, lost := pool.LoadSegment(pdir, vaddr, memsz, t0, keep);
    SegmentExact(m, pool.mem[..], pool.pageBitmap[..], pdir[..], t0, t, keep, lost, vaddr, memsz);
  }

  /** Loaded once more over itself, the two-page segment loses its second page. */
  method LoadTwice(pool: Pool, pdir: array<nat>, ghost t0: Tree, ghost keep: set<nat>)
    requires pool.Valid() && pdir.Length == NR_PDE
    requires Layout(pool.mem[..], pool.pageBitmap[..], pdir[..], t0, keep) && KernelKeys(KERNEL_TABLES) <= t0.Keys
    requires SegKeys(USER_START, 2 * PAGE_SIZE) !! t0.Keys && |FreeSet(pool.pageBitmap[..])| >= 4
    modifies pool.mem, pool.pageBitmap, pool`bitmapIdx, pdir
    ensures pool.Valid() && !Accounted(pool.mem[..], pool.pageBitmap[..], pdir[..], keep)
  {
    hide Layout, FreeSet, KernelKeys, Accounted, RestUnmapped, SegKeys, UptoPage;
    TwoPageSlots(t0);
    ghost var t := LoadTwoPages(pool, pdir, t0, keep);
    TwoPagesThere(t);
    LoadAny(pool, pdir, USER_START, 2 * PAGE_SIZE, t, keep);
  }

  lemma LoadedClean(m0: seq<byte>, m: seq<byte>, bm: seq<bool>, pdir: seq<nat>, t: Tree, keep: set<nat>, lost: set<nat>)
    requires Loading(m0, m, bm, pdir, t, keep, lost) && lost == {}
    ensures Layout(m, bm, pdir, t, keep) && Closed(t)
  {
    assert keep + lost == keep;
  }

  lemma TwoPageSlots(t0: Tree)
    requires SegKeys(USER_START, 2 * PAGE_SIZE) !! t0.Keys
    ensures RestUnmapped(t0.Keys, USER_START, 2 * PAGE_SIZE)
    ensures var seg := SegKeys(USER_START, 2 * PAGE_SIZE);
            seg == {UTable(4), Frame(4, 0), Frame(4, 1)} &&
                |seg - (t0.Keys * UptoPage(USER_START, USER_START / PAGE_SIZE))| == 3
    ensures |t0.Keys + SegKeys(USER_START, 2 * PAGE_SIZE)| == |t0.Keys| + 3
  {
    TwoPageKeys();
    hide SegKeys, UptoPage;
    ThreeMore(SegKeys(USER_START, 2 * PAGE_SIZE), t0.Keys, UptoPage(USER_START, USER_START / PAGE_SIZE));
  }

  lemma ThreeMore(seg: set<Slot>, keys: set<Slot>, first: set<Slot>)
    requires seg == {UTable(4), Frame(4, 0), Frame(4, 1)} && seg !! keys
    ensures |seg - (keys * first)| == 3 && |keys + seg| == |keys| + 3
  {
    assert |seg| == 3 && seg - (keys * first) == seg;
  }

  lemma TwoPageKeys()
    ensures SegKeys(USER_START, 2 * PAGE_SIZE) == {UTable(4), Frame(4, 0), Frame(4, 1)}
  {
    var seg := SegKeys(USER_START, 2 * PAGE_SIZE);
    assert USER_START / PAGE_SIZE == 4096 && (USER_START + 2 * PAGE_SIZE - 1) / PAGE_SIZE == 4097;
    forall s ensures s in seg <==> s == UTable(4) || s == Frame(4, 0) || s == Frame(4, 1) {
      if s.Frame? && s in seg { assert 4096 <= s.i * NR_PTE + s.j <= 4097; }
      if s.UTable? && s in seg { assert 4 <= s.i <= 4; }
    }
  }

  lemma TwoPagesThere(t: Tree)
    requires SegKeys(USER_START, 2 * PAGE_SIZE) <= t.Keys
    requires SegKeys(USER_START, 2 * PAGE_SIZE) == {UTable(4), Frame(4, 0), Frame(4, 1)}
    ensures !RestUnmapped(t.Keys, USER_START, 2 * PAGE_SIZE)
    ensures |SegKeys(USER_START, 2 * PAGE_SIZE) - (t.Keys * UptoPage(USER_START, USER_START / PAGE_SIZE))| == 1
  {
    var seg := SegKeys(USER_START, 2 * PAGE_SIZE);
    FirstKeys(USER_START, 4, 0);
    assert Frame(4, 1) in t.Keys && Frame(4, 1) in seg;
    hide SegKeys, UptoPage;
    assert seg - (t.Keys * {UTable(4), Frame(4, 0)}) == {Frame(4, 1)};
  }

  // The server's requests are these events.

  /** The state that a pool and the directories of the live processes make up. */
  ghost predicate Shows(pool: Pool, st: MemState)
    reads pool, pool.mem, pool.pageBitmap
  {
    pool.Valid() && pool.mem[..] == st.mem && pool.pageBitmap[..] == st.bitmap
  }

  lemma FreshKeep(st: MemState, p: nat)
    requires Consistent(st) && p !in st.procs
    ensures Marks(map[], st.bitmap, Others(st, p))
  {
    hide Sound;
    var none: Tree := map[];
    assert none.Values == {};
  }

  /** handle_pcb: load a program into a new process. */
  method CreateSpace(pool: Pool, pdir: array<nat>, segs: seq<Segment>, ghost st: MemState, ghost p: nat)
    returns (ghost st': MemState)
    requires Shows(pool, st) && Consistent(st) && p !in st.procs && pdir.Length == NR_PDE
    requires Loadable(BaseKeys(), segs) && |FreeSet(st.bitmap)| >= |ProgramKeys(BaseKeys(), segs)|
    modifies pool.mem, pool.pageBitmap, pool`bitmapIdx, pdir
    ensures Shows(pool, st') && Did(st, st', Create(p, segs)) && Consistent(st') && st'.procs[p].pdir == pdir[..]
  {
    hide Consistent, Layout, Framed, Marks, FreeSet, Loadable, ProgramKeys, KernelKeys;
    FreshKeep(st, p);
    ProgramGrows(BaseKeys(), segs);
    ghost var t := pool.LoadProgram(pdir, segs, Others(st, p));
    st' := MemState(pool.mem[..], pool.pageBitmap[..], st.procs[p := Space(pdir[..], t)]);
    EventKeepsConsistent(st, st', Create(p, segs));
  }

  /** handle_child */
  method ForkSpace(pool: Pool, pPdir: array<nat>, cPdir: array<nat>, ghost st: MemState, ghost p: nat, ghost c: nat)
    returns (ghost st': MemState)
    requires Shows(pool, st) && Consistent(st) && p in st.procs && c !in st.procs
    requires pPdir.Length == NR_PDE && cPdir.Length == NR_PDE && pPdir != cPdir && st.procs[p].pdir == pPdir[..]
    requires |FreeSet(st.bitmap)| >= |st.procs[p].tree|
    modifies pool.mem, pool.pageBitmap, pool`bitmapIdx, cPdir
    ensures Shows(pool, st') && Did(st, st', Fork(p, c)) && Consistent(st') && st'.procs[c].pdir == cPdir[..]
  {
    hide Layout, Framed, Marks, FreeSet, KernelKeys, Copied, Readable, Others;
    FreshKeep(st, c);
    assert Sound(st, p);
    OthersStay(st, c, p);
    ghost var tp, keep := st.procs[p].tree, Others(st, c);
    ParentReadable(st, p, keep);
    hide Consistent, Sound;
    ghost var t := pool.HandleChild(pPdir, cPdir, tp, keep);
    st' := MemState(pool.mem[..], pool.pageBitmap[..], st.procs[c := Space(cPdir[..], t)]);
    EventKeepsConsistent(st, st', Fork(p, c));
  }

  lemma ParentReadable(st: MemState, p: nat, keep: set<nat>)
    requires Consistent(st) && p in st.procs && st.procs[p].tree.Values <= keep
    ensures Readable(st.mem, st.procs[p].pdir, st.procs[p].tree, keep)
  {
    assert Sound(st, p);
    hide DirPoints, TablePoints, KernelPoints, Marks, Injective;
    var t := st.procs[p].tree;
    assert forall s :: s in t ==> t[s] in t.Values;
  }

  /** handle_exec */
  method ExecSpace(pool: Pool, pdir: array<nat>, file: Option<seq<Segment>>, ghost st: MemState, ghost p: nat)
    returns (ret: int, ghost st': MemState)
    requires Shows(pool, st) && Consistent(st) && p in st.procs && pdir.Length == NR_PDE && st.procs[p].pdir == pdir[..]
    requires file.Some? ==>
               (Loadable(BaseKeys(), file.value) &&
                |FreeSet(st.bitmap)| + |st.procs[p].tree| >= |ProgramKeys(BaseKeys(), file.value)|)
    modifies pool.mem, pool.pageBitmap, pool`bitmapIdx, pdir
    ensures Shows(pool, st') && Did(st, st', Exec(p, file)) && Consistent(st')
    ensures p in st'.procs && st'.procs[p].pdir == pdir[..] && ret == if file.None? then -1 else 0
  {
    hide Layout, Framed, Marks, FreeSet, KernelKeys, Loadable, ProgramKeys;
    assert Sound(st, p);
    hide Consistent;
    if file.Some? { ProgramGrows(BaseKeys(), file.value); }
    ghost var t;
    ret, t := pool.HandleExec(pdir, file, st.procs[p].tree, Others(st, p));
    st' := if file.None? then st else MemState(pool.mem[..], pool.pageBitmap[..], st.procs[p := Space(pdir[..], t)]);
    EventKeepsConsistent(st, st', Exec(p, file));
  }

  /** handle_exit */
  method ExitSpace(pool: Pool, pdir: array<nat>, ghost st: MemState, ghost p: nat) returns (ghost st': MemState)
    requires Shows(pool, st) && Consistent(st) && p in st.procs && pdir.Length == NR_PDE && st.procs[p].pdir == pdir[..]
    modifies pool.mem, pool.pageBitmap, pdir
    ensures Shows(pool, st') && Did(st, st', Exit(p)) && Consistent(st')
  {
    hide Layout, Framed, Marks, KernelKeys;
    assert Sound(st, p);
    hide Consistent;
    pool.TakebackPage(pdir, st.procs[p].tree, Others(st, p));
    st' := MemState(pool.mem[..], pool.pageBitmap[..], st.procs - {p});
    EventKeepsConsistent(st, st', Exit(p));
  }
}
