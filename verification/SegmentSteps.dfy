/** Loading a segment page by page: which slots it takes, and which pages it loses when it does not find them free. */
module SegmentSteps {
  import opened Bytes
  import opened Counting
  import opened PageLayout
  import opened PageSteps

  ghost function UserSlots(): (r: set<Slot>)
    ensures forall s :: s in r <==> InSpace(s) && !s.KTable?
  {
    (set i: nat | KERNEL_TABLES <= i < USER_END :: UTable(i)) +
    (set i: nat, j: nat | KERNEL_TABLES <= i < USER_END && j < NR_PTE :: Frame(i, j))
  }

  /** The tables and frames of the pages from that of vaddr up to page v. */
  predicate InRange(s: Slot, vaddr: nat, v: nat) {
    match s
    case KTable(_) => false
    case UTable(i) => vaddr / PAGE_SIZE / NR_PTE <= i <= v / NR_PTE
    case Frame(i, j) => vaddr / PAGE_SIZE <= i * NR_PTE + j <= v
  }

  ghost function UptoPage(vaddr: nat, v: nat): set<Slot> {
    set s | s in UserSlots() && InRange(s, vaddr, v)
  }

  /** What a segment needs: the tables and frames of all its pages. */
  ghost function SegKeys(vaddr: nat, memsz: nat): set<Slot> {
    UptoPage(vaddr, if memsz == 0 then 0 else (vaddr + memsz - 1) / PAGE_SIZE)
  }

  /** Pages after the segment's first, and tables after its first, are not mapped yet. */
  ghost predicate RestUnmapped(keys: set<Slot>, vaddr: nat, memsz: nat) {
    forall s :: s in keys && s in SegKeys(vaddr, memsz) ==>
      (s.UTable? ==> s.i == vaddr / PAGE_SIZE / NR_PTE) &&
      (s.Frame? ==> s.i * NR_PTE + s.j == vaddr / PAGE_SIZE)
  }

  lemma PageInSeg(vaddr: nat, memsz: nat, i: nat, j: nat)
    requires memsz > 0 && USER_START <= vaddr && vaddr + memsz <= USER_LIMIT && j < NR_PTE
    requires vaddr / PAGE_SIZE <= i * NR_PTE + j <= (vaddr + memsz - 1) / PAGE_SIZE
    ensures KERNEL_TABLES <= i < USER_END && UTable(i) in SegKeys(vaddr, memsz) && Frame(i, j) in SegKeys(vaddr, memsz)
  {
    var v0, v1 := vaddr / PAGE_SIZE, (vaddr + memsz - 1) / PAGE_SIZE;
    assert 4096 <= v0 && v1 < 786432;
    assert v0 / NR_PTE <= i <= v1 / NR_PTE;
  }

  lemma FirstKeys(vaddr: nat, i: nat, j: nat)
    requires USER_START <= vaddr < USER_LIMIT && j < NR_PTE && i * NR_PTE + j == vaddr / PAGE_SIZE
    ensures UptoPage(vaddr, vaddr / PAGE_SIZE) == {UTable(i), Frame(i, j)}
  {
    var v := vaddr / PAGE_SIZE;
    assert v / NR_PTE == i && 4 <= i < 768;
    forall s | InSpace(s) && InRange(s, vaddr, v) ensures s == UTable(i) || s == Frame(i, j) {
      if s.Frame? { assert s.i == i && s.j == j; }
    }
  }

  /** Going from page v to page v + 1 adds one frame, and one table at a table boundary. */
  lemma NextPage(vaddr: nat, memsz: nat, v: nat, i: nat, j: nat)
    requires memsz > 0 && USER_START <= vaddr && vaddr + memsz <= USER_LIMIT
    requires vaddr / PAGE_SIZE <= v < (vaddr + memsz - 1) / PAGE_SIZE && j < NR_PTE && i * NR_PTE + j == v + 1
    ensures KERNEL_TABLES <= i < USER_END
    ensures UptoPage(vaddr, v + 1) == UptoPage(vaddr, v) + {UTable(i), Frame(i, j)}
    ensures UptoPage(vaddr, v + 1) <= SegKeys(vaddr, memsz)
    ensures |UptoPage(vaddr, v + 1)| == |UptoPage(vaddr, v)| + if j == 0 then 2 else 1
  {
    PageInSeg(vaddr, memsz, i, j);
    assert (v + 1) / NR_PTE == i && v / NR_PTE == if j == 0 then i - 1 else i;
    assert vaddr / PAGE_SIZE / NR_PTE <= v / NR_PTE;
    forall s | InSpace(s)
      ensures InRange(s, vaddr, v + 1) <==> InRange(s, vaddr, v) || s == UTable(i) || s == Frame(i, j) {
      if s.Frame? && s.i * NR_PTE + s.j == v + 1 { assert s.i == i && s.j == j; }
    }
    var u := UptoPage(vaddr, v);
    assert Frame(i, j) !in u && (UTable(i) in u <==> j != 0);
    assert j != 0 ==> u + {UTable(i), Frame(i, j)} == u + {Frame(i, j)};
    assert (v + 1) / NR_PTE <= (vaddr + memsz - 1) / PAGE_SIZE / NR_PTE;
  }

  // What is lost.

  /** Slots in use before whose pages drop out of the tree when pages up to v are loaded: the frames of later pages in
      the first table, and later tables with everything under them. */
  predicate Displaced(s: Slot, vaddr: nat, v: nat) {
    var v0 := vaddr / PAGE_SIZE;
    match s
    case KTable(_) => false
    case UTable(i) => v0 / NR_PTE < i <= v / NR_PTE
    case Frame(i, j) => v0 / NR_PTE < i <= v / NR_PTE || (i == v0 / NR_PTE && v0 < i * NR_PTE + j <= v)
  }

  ghost function LostSlots(keys: set<Slot>, vaddr: nat, v: nat): set<Slot> {
    set s | s in keys && Displaced(s, vaddr, v)
  }

  /** The tree after pages up to v, and the pages lost by then. */
  ghost predicate Progress(t0: Tree, t: Tree, lost: set<nat>, vaddr: nat, v: nat) {
    && t.Keys == (t0.Keys - LostSlots(t0.Keys, vaddr, v)) + UptoPage(vaddr, v)
    && (forall s :: s in t0 && !Displaced(s, vaddr, v) ==> t[s] == t0[s])
    && lost == Image(t0, LostSlots(t0.Keys, vaddr, v))
  }

  /** What one page of the loop does to the tree. */
  ghost predicate Paged(t: Tree, t': Tree, lost: set<nat>, lost': set<nat>, i: nat, j: nat) {
    && t'.Keys == (if j == 0 then Drop(t, i).Keys else t.Keys) + {UTable(i), Frame(i, j)}
    && (forall s :: s in t && s != Frame(i, j) && !(j == 0 && Under(s, i)) ==> t'[s] == t[s])
    && lost' == lost + if j == 0 then PagesUnder(t, i) else Old(t, Frame(i, j))
  }

  lemma DisplacedStep(s: Slot, vaddr: nat, v: nat, i: nat, j: nat)
    requires InSpace(s) && vaddr / PAGE_SIZE <= v && j < NR_PTE && i * NR_PTE + j == v + 1
    ensures Displaced(s, vaddr, v + 1) <==>
            Displaced(s, vaddr, v) || (if j == 0 then Under(s, i) else s == Frame(i, j))
    ensures j == 0 && Under(s, i) ==> !Displaced(s, vaddr, v) && !InRange(s, vaddr, v)
    ensures s == Frame(i, j) ==> !InRange(s, vaddr, v)
  {
    assert (v + 1) / NR_PTE == i && v / NR_PTE == if j == 0 then i - 1 else i;
    assert vaddr / PAGE_SIZE / NR_PTE <= v / NR_PTE;
    if s.Frame? {
      if s.i * NR_PTE + s.j == v + 1 { assert s.i == i && s.j == j; }
      assert s.i == vaddr / PAGE_SIZE / NR_PTE ==>
             (s.i * NR_PTE + s.j <= v + 1 <==> s.i * NR_PTE + s.j <= v || s == Frame(i, j));
    }
  }

  lemma ProgressStart(t0: Tree, t: Tree, vaddr: nat)
    requires t.Keys == t0.Keys + UptoPage(vaddr, vaddr / PAGE_SIZE) && forall s :: s in t0 ==> t[s] == t0[s]
    ensures Progress(t0, t, {}, vaddr, vaddr / PAGE_SIZE)
  {
    assert LostSlots(t0.Keys, vaddr, vaddr / PAGE_SIZE) == {};
  }

  lemma ProgressKeys(t0: Tree, t: Tree, lost: set<nat>, t': Tree, lost': set<nat>, vaddr: nat, v: nat, i: nat, j: nat)
    requires Closed(t0) && Progress(t0, t, lost, vaddr, v) && Paged(t, t', lost, lost', i, j)
    requires vaddr / PAGE_SIZE <= v && j < NR_PTE && i * NR_PTE + j == v + 1
    requires UptoPage(vaddr, v + 1) == UptoPage(vaddr, v) + {UTable(i), Frame(i, j)}
    ensures t'.Keys == (t0.Keys - LostSlots(t0.Keys, vaddr, v + 1)) + UptoPage(vaddr, v + 1)
    ensures forall s :: s in t0 && !Displaced(s, vaddr, v + 1) ==> s in t' && t'[s] == t0[s]
  {
    hide Displaced, InRange, PagesUnder, Old, Image;
    forall s | s in t0.Keys + UptoPage(vaddr, v) + {UTable(i), Frame(i, j)}
      ensures s in t' <==> s in (t0.Keys - LostSlots(t0.Keys, vaddr, v + 1)) + UptoPage(vaddr, v + 1)
      ensures s in t0 && !Displaced(s, vaddr, v + 1) ==> s in t' && t'[s] == t0[s]
    {
      if InSpace(s) { DisplacedStep(s, vaddr, v, i, j); }
    }
  }

  lemma LostStep(t0: Tree, t: Tree, lost: set<nat>, lost': set<nat>, vaddr: nat, v: nat, i: nat, j: nat)
    requires Closed(t0) && Progress(t0, t, lost, vaddr, v)
    requires vaddr / PAGE_SIZE <= v && j < NR_PTE && i * NR_PTE + j == v + 1
    requires lost' == lost + if j == 0 then PagesUnder(t, i) else Old(t, Frame(i, j))
    ensures lost' == Image(t0, LostSlots(t0.Keys, vaddr, v + 1))
  {
    hide Displaced, InRange;
    forall s | s in t0
      ensures Displaced(s, vaddr, v + 1) <==>
              Displaced(s, vaddr, v) || (if j == 0 then Under(s, i) else s == Frame(i, j))
      ensures j == 0 && Under(s, i) ==> !Displaced(s, vaddr, v) && s !in UptoPage(vaddr, v)
      ensures s == Frame(i, j) ==> s !in UptoPage(vaddr, v)
    {
      DisplacedStep(s, vaddr, v, i, j);
    }
    forall s | s in UptoPage(vaddr, v) ensures !(j == 0 && Under(s, i)) && s != Frame(i, j) {
      DisplacedStep(s, vaddr, v, i, j);
    }
    if j == 0 { LostTables(t0, t, vaddr, v, i); } else { LostEntry(t0, t, vaddr, v, i, j); }
  }

  lemma LostTables(t0: Tree, t: Tree, vaddr: nat, v: nat, i: nat)
    requires Progress(t0, t, Image(t0, LostSlots(t0.Keys, vaddr, v)), vaddr, v)
    requires forall s :: s in t0 ==> (Displaced(s, vaddr, v + 1) <==> Displaced(s, vaddr, v) || Under(s, i))
    requires forall s :: s in t0 && Under(s, i) ==> !Displaced(s, vaddr, v)
    requires forall s :: s in UptoPage(vaddr, v) ==> !Under(s, i)
    ensures Image(t0, LostSlots(t0.Keys, vaddr, v)) + PagesUnder(t, i) == Image(t0, LostSlots(t0.Keys, vaddr, v + 1))
  {
    hide Displaced, UptoPage;
    var here := set s | s in t0 && Under(s, i);
    assert LostSlots(t0.Keys, vaddr, v + 1) == LostSlots(t0.Keys, vaddr, v) + here;
    ImageUnion(t0, LostSlots(t0.Keys, vaddr, v), here);
    assert PagesUnder(t, i) == Image(t0, here) by {
      assert forall s :: s in t && Under(s, i) <==> s in here;
      assert forall s :: s in here ==> t[s] == t0[s];
    }
  }

  lemma LostEntry(t0: Tree, t: Tree, vaddr: nat, v: nat, i: nat, j: nat)
    requires Progress(t0, t, Image(t0, LostSlots(t0.Keys, vaddr, v)), vaddr, v)
    requires forall s :: s in t0 ==> (Displaced(s, vaddr, v + 1) <==> Displaced(s, vaddr, v) || s == Frame(i, j))
    requires Frame(i, j) !in UptoPage(vaddr, v)
    ensures Image(t0, LostSlots(t0.Keys, vaddr, v)) + Old(t, Frame(i, j)) == Image(t0, LostSlots(t0.Keys, vaddr, v + 1))
  {
    hide Displaced, UptoPage;
    var f := Frame(i, j);
    var here := if f in t0 then {f} else {};
    assert LostSlots(t0.Keys, vaddr, v + 1) == LostSlots(t0.Keys, vaddr, v) + here;
    ImageUnion(t0, LostSlots(t0.Keys, vaddr, v), here);
    if f in t {
      assert Old(t, f) == {t0[f]} == Image(t0, here);
    } else if f in t0 {
      assert f in LostSlots(t0.Keys, vaddr, v);
      assert LostSlots(t0.Keys, vaddr, v + 1) == LostSlots(t0.Keys, vaddr, v);
    }
  }

  lemma ProgressStep(t0: Tree, t: Tree, lost: set<nat>, t': Tree, lost': set<nat>, vaddr: nat, v: nat, i: nat, j: nat)
    requires Closed(t0) && Progress(t0, t, lost, vaddr, v) && Paged(t, t', lost, lost', i, j)
    requires vaddr / PAGE_SIZE <= v && j < NR_PTE && i * NR_PTE + j == v + 1
    requires UptoPage(vaddr, v + 1) == UptoPage(vaddr, v) + {UTable(i), Frame(i, j)}
    ensures Progress(t0, t', lost', vaddr, v + 1)
  {
    ProgressKeys(t0, t, lost, t', lost', vaddr, v, i, j);
    LostStep(t0, t, lost, lost', vaddr, v, i, j);
    hide Displaced, UptoPage;
  }

  /** A segment loses no page exactly when its later pages and tables were free. */
  lemma LossExact(t0: Tree, t: Tree, lost: set<nat>, vaddr: nat, memsz: nat)
    requires Closed(t0) && memsz > 0 && Progress(t0, t, lost, vaddr, (vaddr + memsz - 1) / PAGE_SIZE)
    ensures lost == {} <==> RestUnmapped(t0.Keys, vaddr, memsz)
    ensures lost == {} ==> t.Keys == t0.Keys + SegKeys(vaddr, memsz) && forall s :: s in t0 ==> t[s] == t0[s]
    ensures lost == {} ==> forall s :: s in t0 ==> !Displaced(s, vaddr, (vaddr + memsz - 1) / PAGE_SIZE)
  {
    var v0, v1 := vaddr / PAGE_SIZE, (vaddr + memsz - 1) / PAGE_SIZE;
    var ls := LostSlots(t0.Keys, vaddr, v1);
    assert forall s :: s in ls ==> t0[s] in Image(t0, ls);
    assert lost == {} <==> ls == {} by { if ls == {} { assert Image(t0, ls) == {}; } }
    if RestUnmapped(t0.Keys, vaddr, memsz) {
      forall s | s in t0 ensures !Displaced(s, vaddr, v1) {
        if Displaced(s, vaddr, v1) { DisplacedMapped(t0, s, vaddr, memsz); }
      }
    } else {
      var s :| s in t0.Keys && s in SegKeys(vaddr, memsz) &&
               !((s.UTable? ==> s.i == v0 / NR_PTE) && (s.Frame? ==> s.i * NR_PTE + s.j == v0));
      RangeDisplaced(s, vaddr, v1);
      assert s in ls;
    }
  }

  lemma RangeDisplaced(s: Slot, vaddr: nat, v: nat)
    requires InSpace(s) && InRange(s, vaddr, v) && vaddr / PAGE_SIZE <= v
    requires !((s.UTable? ==> s.i == vaddr / PAGE_SIZE / NR_PTE) &&
               (s.Frame? ==> s.i * NR_PTE + s.j == vaddr / PAGE_SIZE))
    ensures Displaced(s, vaddr, v)
  {
    if s.Frame? {
      assert s.i == (s.i * NR_PTE + s.j) / NR_PTE;
      assert vaddr / PAGE_SIZE / NR_PTE <= s.i <= v / NR_PTE;
    }
  }

  lemma DisplacedMapped(t: Tree, s: Slot, vaddr: nat, memsz: nat)
    requires Closed(t) && memsz > 0 && s in t && Displaced(s, vaddr, (vaddr + memsz - 1) / PAGE_SIZE)
    ensures !RestUnmapped(t.Keys, vaddr, memsz)
  {
    var v0 := vaddr / PAGE_SIZE;
    if s.UTable? || s.i > v0 / NR_PTE {
      var u := UTable(s.i);
      assert u in t.Keys && u in SegKeys(vaddr, memsz) && u.i != v0 / NR_PTE;
    } else {
      assert s in t.Keys && s in SegKeys(vaddr, memsz);
    }
  }

  // The steps on memory images.

  /** An address space whose tree accounts for all used pages but those of others (`keep`) and the lost ones. */
  ghost predicate Loading(m0: seq<byte>, m: seq<byte>, bm: seq<bool>, pdir: seq<nat>, t: Tree, keep: set<nat>,
                          lost: set<nat>) {
    Layout(m, bm, pdir, t, keep + lost) && Framed(m0, m, keep) && lost !! keep
  }

  lemma LoadFill(m0: seq<byte>, m: seq<byte>, bm: seq<bool>, pdir: seq<nat>, t: Tree, keep: set<nat>, lost: set<nat>,
                 b: nat, x: seq<byte>)
    requires Loading(m0, m, bm, pdir, t, keep, lost) && b < PAGE_NUM && |bm| == PAGE_NUM && !bm[b] && |x| == PAGE_SIZE
    ensures var m' := Splice(m, PageAddr(b), x);
            Loading(m0, m', bm, pdir, t, keep, lost) && OnlyPages(m, m', {b}) && Page(m', b) == x
  {
    hide Splice, Page, DirPoints, TablePoints, KernelPoints, Injective;
    assert b !in t.Values && b !in keep + lost;
    FillFree(m, bm, pdir, t, keep + lost, b, 0, x);
    SplicePage(m, b, 0, x);
    SpliceAll(Page(m, b), x);
    FramedSome(m, Splice(m, PageAddr(b), x), keep, lost);
    FramedTrans(m0, m, Splice(m, PageAddr(b), x), keep);
  }

  lemma FramedSome(m: seq<byte>, m': seq<byte>, keep: set<nat>, lost: set<nat>)
    requires Framed(m, m', keep + lost)
    ensures Framed(m, m', keep)
  {
  }

  lemma LoadTable(m0: seq<byte>, m: seq<byte>, bm: seq<bool>, pdir: seq<nat>, t: Tree, keep: set<nat>, lost: set<nat>,
                  i: nat, b: nat)
    requires Loading(m0, m, bm, pdir, t, keep, lost) && b < PAGE_NUM && |bm| == PAGE_NUM && !bm[b] && |m| == PHY_MEM
    requires Page(m, b) == Zeros() && KERNEL_TABLES <= i < USER_END
    ensures |pdir| == NR_PDE
    ensures Loading(m0, m, bm[b := true], pdir[i := Entry(b)], Drop(t, i)[UTable(i) := b], keep,
                    lost + PagesUnder(t, i))
  {
    PutTable(m, bm, pdir, t, keep + lost, i, b);
    assert keep + lost + PagesUnder(t, i) == keep + (lost + PagesUnder(t, i));
    hide DirPoints, TablePoints, KernelPoints, Injective, Page;
  }

  lemma LoadFrame(m0: seq<byte>, m: seq<byte>, bm: seq<bool>, pdir: seq<nat>, t: Tree, keep: set<nat>, lost: set<nat>,
                  i: nat, j: nat, b: nat)
    requires Loading(m0, m, bm, pdir, t, keep, lost) && b < PAGE_NUM && |bm| == PAGE_NUM && !bm[b]
    requires UTable(i) in t && j < NR_PTE
    ensures t[UTable(i)] < PAGE_NUM && |m| == PHY_MEM && t[UTable(i)] != b
    ensures var m' := Splice(m, PageAddr(t[UTable(i)]) + 4 * j, WordBytes(Entry(b)));
            && Loading(m0, m', bm[b := true], pdir, t[Frame(i, j) := b], keep, lost + Old(t, Frame(i, j)))
            && OnlyPages(m, m', {t[UTable(i)]})
  {
    OwnPage(m, bm, pdir, t, keep + lost, UTable(i), b);
    PutFrame(m, bm, pdir, t, keep + lost, i, j, b);
    var m', f := Splice(m, PageAddr(t[UTable(i)]) + 4 * j, WordBytes(Entry(b))), Old(t, Frame(i, j));
    assert keep + lost + f == keep + (lost + f);
    assert f !! keep;
    SplicePage(m, t[UTable(i)], 4 * j, WordBytes(Entry(b)));
    hide Layout, Page, Splice, WordBytes, Entry, Framed;
    FramedSome(m, m', keep, lost);
    FramedTrans(m0, m, m', keep);
  }

  /** The frames in z hold zeros. */
  ghost predicate ZeroFrames(m: seq<byte>, t: Tree, z: set<Slot>) {
    |m| == PHY_MEM && forall s :: s in z ==> s in t && s.Frame? && t[s] < PAGE_NUM && Page(m, t[s]) == Zeros()
  }

  /** The frames a segment makes up to page v: all but the first page's, if that was there. */
  ghost function NewFrames(keys0: set<Slot>, vaddr: nat, v: nat): set<Slot> {
    set s | s in UptoPage(vaddr, v) && s.Frame? && (s.i * NR_PTE + s.j > vaddr / PAGE_SIZE || s !in keys0)
  }

  lemma NewFramesStep(keys0: set<Slot>, vaddr: nat, v: nat, i: nat, j: nat)
    requires vaddr / PAGE_SIZE <= v && j < NR_PTE && i * NR_PTE + j == v + 1
    requires UptoPage(vaddr, v + 1) == UptoPage(vaddr, v) + {UTable(i), Frame(i, j)}
    ensures NewFrames(keys0, vaddr, v + 1) == NewFrames(keys0, vaddr, v) + {Frame(i, j)}
    ensures forall s :: s in NewFrames(keys0, vaddr, v) ==> s != Frame(i, j) && !(j == 0 && Under(s, i))
  {
    hide UptoPage;
    forall s | s in UptoPage(vaddr, v) && s.Frame? ensures s != Frame(i, j) && !(j == 0 && Under(s, i)) {
      assert InSpace(s) && InRange(s, vaddr, v) by { UptoMeans(s, vaddr, v); }
      DisplacedStep(s, vaddr, v, i, j);
    }
  }

  lemma UptoMeans(s: Slot, vaddr: nat, v: nat)
    requires s in UptoPage(vaddr, v)
    ensures InSpace(s) && InRange(s, vaddr, v)
  {
  }

  /** Pages that were idle, or the table being filled. */
  ghost predicate Touchable(touched: set<nat>, bm: seq<bool>, t: Tree, i: nat, j: nat) {
    forall c :: c in touched ==> c < |bm| && (!bm[c] || (j != 0 && UTable(i) in t && c == t[UTable(i)]))
  }

  lemma ZeroStep(m0: seq<byte>, m: seq<byte>, bm: seq<bool>, pdir: seq<nat>, t: Tree, keep: set<nat>, lost: set<nat>,
                 m': seq<byte>, t': Tree, lost': set<nat>, i: nat, j: nat, z: set<Slot>, touched: set<nat>)
    requires Loading(m0, m, bm, pdir, t, keep, lost) && ZeroFrames(m, t, z) && Paged(t, t', lost, lost', i, j)
    requires OnlyPages(m, m', touched) && Touchable(touched, bm, t, i, j)
    requires t'[Frame(i, j)] < PAGE_NUM && Page(m', t'[Frame(i, j)]) == Zeros()
    requires forall s :: s in z ==> s != Frame(i, j) && !(j == 0 && Under(s, i))
    ensures ZeroFrames(m', t', z + {Frame(i, j)})
  {
    hide DirPoints, TablePoints, KernelPoints, Page, Zeros;
    forall s | s in z ensures s in t' && t'[s] == t[s] && t[s] < PAGE_NUM && t[s] !in touched {
      assert t[s] in t.Values;
    }
  }

  /** Every frame of t holds what it held. */
  ghost predicate SameFrames(m: seq<byte>, m': seq<byte>, t: Tree) {
    |m| == |m'| == PHY_MEM && forall s :: s in t && s.Frame? ==> t[s] < PAGE_NUM && Page(m', t[s]) == Page(m, t[s])
  }

  /** Every frame that was there before the segment, and is not displaced by its pages up to v, holds what it held. */
  ghost predicate KeptFrames(m0: seq<byte>, m: seq<byte>, t0: Tree, vaddr: nat, v: nat) {
    && |m0| == |m| == PHY_MEM
    && forall s :: s in t0 && s.Frame? && !Displaced(s, vaddr, v) ==>
         t0[s] < PAGE_NUM && Page(m, t0[s]) == Page(m0, t0[s])
  }

  lemma KeptStart(m0: seq<byte>, m: seq<byte>, t0: Tree, vaddr: nat)
    requires SameFrames(m0, m, t0)
    ensures KeptFrames(m0, m, t0, vaddr, vaddr / PAGE_SIZE)
  {
    hide Page;
  }

  lemma KeptStep(m00: seq<byte>, t0: Tree, m0: seq<byte>, m: seq<byte>, bm: seq<bool>, pdir: seq<nat>, t: Tree,
                 keep: set<nat>, lost: set<nat>, m': seq<byte>, vaddr: nat, v: nat, i: nat, j: nat, touched: set<nat>)
    requires Closed(t0) && Loading(m0, m, bm, pdir, t, keep, lost) && Progress(t0, t, lost, vaddr, v)
    requires KeptFrames(m00, m, t0, vaddr, v) && OnlyPages(m, m', touched) && Touchable(touched, bm, t, i, j)
    requires vaddr / PAGE_SIZE <= v && j < NR_PTE && i * NR_PTE + j == v + 1
    ensures KeptFrames(m00, m', t0, vaddr, v + 1)
  {
    hide DirPoints, TablePoints, KernelPoints, Page, Zeros, Displaced;
    forall s | s in t0 && s.Frame? && !Displaced(s, vaddr, v + 1)
      ensures t0[s] < PAGE_NUM && Page(m', t0[s]) == Page(m00, t0[s])
    {
      DisplacedStep(s, vaddr, v, i, j);
      assert t[s] == t0[s] && t[s] in t.Values;
    }
  }

  lemma FramesStay(m0: seq<byte>, m: seq<byte>, bm: seq<bool>, pdir: seq<nat>, t: Tree, keep: set<nat>,
                   goal: set<Slot>, m': seq<byte>, touched: set<nat>, i: nat)
    requires Building(m0, m, bm, pdir, t, keep, goal) && OnlyPages(m, m', touched)
    requires forall c :: c in touched ==> c < |bm| && (!bm[c] || (UTable(i) in t && c == t[UTable(i)]))
    ensures SameFrames(m, m', t)
  {
    hide DirPoints, TablePoints, KernelPoints, Page;
    forall s | s in t && s.Frame? ensures t[s] < PAGE_NUM && t[s] !in touched {
      assert t[s] in t.Values;
    }
  }

  lemma SameOnward(m: seq<byte>, m1: seq<byte>, m2: seq<byte>, t: Tree, t1: Tree)
    requires SameFrames(m, m1, t) && SameFrames(m1, m2, t1) && forall s :: s in t ==> s in t1 && t1[s] == t[s]
    ensures SameFrames(m, m2, t)
  {
    hide Page;
  }

  /** Frames mapped since `keys0` hold zeros. */
  ghost predicate ZeroNew(m: seq<byte>, t: Tree, keys0: set<Slot>) {
    |m| == PHY_MEM && forall s :: s in t && s.Frame? && s !in keys0 ==> t[s] < PAGE_NUM && Page(m, t[s]) == Zeros()
  }

  lemma ZeroOnward(m: seq<byte>, m': seq<byte>, t: Tree, t': Tree, keys0: set<Slot>)
    requires ZeroNew(m, t, keys0) && SameFrames(m, m', t) && ZeroNew(m', t', t.Keys)
    requires forall s :: s in t ==> s in t' && t'[s] == t[s]
    ensures ZeroNew(m', t', keys0)
  {
    hide Page, Zeros;
  }

  /** A segment that displaces nothing leaves the old frames alone, and its new ones hold zeros. */
  lemma SegmentClean(m: seq<byte>, m': seq<byte>, t: Tree, t': Tree, lost: set<nat>, vaddr: nat, memsz: nat)
    requires Closed(t) && memsz > 0 && Progress(t, t', lost, vaddr, (vaddr + memsz - 1) / PAGE_SIZE)
    requires RestUnmapped(t.Keys, vaddr, memsz)
    requires KeptFrames(m, m', t, vaddr, (vaddr + memsz - 1) / PAGE_SIZE)
    requires ZeroFrames(m', t', NewFrames(t.Keys, vaddr, (vaddr + memsz - 1) / PAGE_SIZE))
    ensures SameFrames(m, m', t) && ZeroNew(m', t', t.Keys) && forall s :: s in t ==> s in t' && t'[s] == t[s]
  {
    hide Page, Zeros, Displaced, RestUnmapped;
    LossExact(t, t', lost, vaddr, memsz);
    hide Progress;
  }
}
