/** The direct-mapped write-back cache in front of the IDE disk. */
module SectorCache {
  import opened Bytes

  const NR_SEC_CACHE: nat := 128
  const SECTOR: nat := 512

  datatype Slot = Slot(sector: nat, used: bool, dirty: bool, content: seq<byte>)

  datatype State = State(disk: seq<seq<byte>>, slots: seq<Slot>)

  /** disk_do_read and disk_do_write are whole-sector copies. Slot i only holds sectors congruent to i; a dirty slot is
      in use; a clean one agrees with the disk. */
  ghost predicate Inv(st: State) {
    && |st.slots| == NR_SEC_CACHE
    && (forall s :: 0 <= s < |st.disk| ==> |st.disk[s]| == SECTOR)
    && (forall i :: 0 <= i < NR_SEC_CACHE ==> SlotOk(st.disk, st.slots[i], i))
  }

  ghost predicate SlotOk(disk: seq<seq<byte>>, e: Slot, i: nat) {
    && |e.content| == SECTOR && (e.dirty ==> e.used)
    && (e.used ==> e.sector < |disk| && e.sector % NR_SEC_CACHE == i && (!e.dirty ==> e.content == disk[e.sector]))
  }

  predicate Holds(st: State, s: nat)
    requires |st.slots| == NR_SEC_CACHE
  {
    var e := st.slots[s % NR_SEC_CACHE];
    e.used && e.sector == s
  }

  /** The disk as the kernel sees it: cached sectors from the cache, the others from the disk. */
  ghost function Logical(st: State): (r: seq<seq<byte>>)
    requires |st.slots| == NR_SEC_CACHE
    ensures |r| == |st.disk|
  {
    seq(|st.disk|,
        s requires 0 <= s < |st.disk| => if Holds(st, s) then st.slots[s % NR_SEC_CACHE].content else st.disk[s])
  }

  /** A disk is as good as a flat array of bytes. */
  function ByteOf(d: seq<seq<byte>>, o: nat): byte {
    if o / SECTOR < |d| && o % SECTOR < |d[o / SECTOR]| then d[o / SECTOR][o % SECTOR] else 0
  }

  // The operations on states.

  /** cache_fetch */
  function Fetch(st: State, s: nat): State
    requires |st.slots| == NR_SEC_CACHE && s < |st.disk|
  {
    var i := s % NR_SEC_CACHE;
    var e := st.slots[i];
    if e.used && e.sector == s then st
    else
      var disk := if e.used && e.dirty && e.sector < |st.disk| then st.disk[e.sector := e.content] else st.disk;
      State(disk, st.slots[i := Slot(s, true, false, disk[s])])
  }

  /** read_byte leaves the state that its fetch leaves. */
  function ReadByte(st: State, o: nat): byte
    requires |st.slots| == NR_SEC_CACHE && o / SECTOR < |st.disk|
  {
    var e := Fetch(st, o / SECTOR).slots[o / SECTOR % NR_SEC_CACHE];
    if o % SECTOR < |e.content| then e.content[o % SECTOR] else 0
  }

  /** write_byte */
  function WriteByte(st: State, o: nat, x: byte): State
    requires |st.slots| == NR_SEC_CACHE && o / SECTOR < |st.disk|
  {
    var st1, i := Fetch(st, o / SECTOR), o / SECTOR % NR_SEC_CACHE;
    var e := st1.slots[i];
    var c := if o % SECTOR < |e.content| then e.content[o % SECTOR := x] else e.content;
    st1.(slots := st1.slots[i := e.(content := c, dirty := true)])
  }

  /** cache_writeback up to slot n. */
  function Writeback(st: State, n: nat): (r: State)
    requires n <= |st.slots|
    ensures |r.slots| == |st.slots| && |r.disk| == |st.disk|
    ensures forall i :: n <= i < |st.slots| ==> r.slots[i] == st.slots[i]
  {
    if n == 0 then st
    else
      var r := Writeback(st, n - 1);
      var e := r.slots[n - 1];
      if e.dirty
      then State(if e.sector < |r.disk| then r.disk[e.sector := e.content] else r.disk,
                 r.slots[n - 1 := e.(dirty := false)])
      else r
  }

  // What each one keeps and does.

  lemma FetchKeeps(st: State, s: nat)
    requires Inv(st) && s < |st.disk|
    ensures var r := Fetch(st, s); Inv(r) && |r.disk| == |st.disk| && Holds(r, s)
    ensures Logical(Fetch(st, s)) == Logical(st)
  {
    var r, i := Fetch(st, s), s % NR_SEC_CACHE;
    var e := st.slots[i];
    forall k | 0 <= k < NR_SEC_CACHE ensures SlotOk(r.disk, r.slots[k], k) {
      assert SlotOk(st.disk, st.slots[k], k);
    }
    forall x | 0 <= x < |st.disk| ensures Logical(r)[x] == Logical(st)[x] {
      assert SlotOk(st.disk, st.slots[x % NR_SEC_CACHE], x % NR_SEC_CACHE);
      assert SlotOk(st.disk, e, i);
    }
  }

  /** What read_byte returns is the logical byte, whatever the cache held. */
  lemma ReadIsLogical(st: State, o: nat)
    requires Inv(st) && o / SECTOR < |st.disk|
    ensures ReadByte(st, o) == ByteOf(Logical(st), o)
  {
    var s := o / SECTOR;
    FetchKeeps(st, s);
    assert Logical(Fetch(st, s))[s] == Fetch(st, s).slots[s % NR_SEC_CACHE].content;
  }

  lemma WriteKeeps(st: State, o: nat, x: byte)
    requires Inv(st) && o / SECTOR < |st.disk|
    ensures Inv(WriteByte(st, o, x)) && |WriteByte(st, o, x).disk| == |st.disk|
    ensures var l, s := Logical(st), o / SECTOR;
            |l[s]| == SECTOR && Logical(WriteByte(st, o, x)) == l[s := l[s][o % SECTOR := x]]
  {
    var s := o / SECTOR;
    var i := s % NR_SEC_CACHE;
    FetchKeeps(st, s);
    var st1, r := Fetch(st, s), WriteByte(st, o, x);
    assert SlotOk(st1.disk, st1.slots[i], i);
    forall k | 0 <= k < NR_SEC_CACHE ensures SlotOk(r.disk, r.slots[k], k) {
      assert SlotOk(st1.disk, st1.slots[k], k);
    }
    hide Fetch;
    var l := Logical(st1);
    assert l[s] == st1.slots[i].content;
    forall y | 0 <= y < |st.disk| ensures Logical(r)[y] == l[s := l[s][o % SECTOR := x]][y] {
      if y % NR_SEC_CACHE == i && y != s { assert !Holds(r, y) && !Holds(st1, y); }
    }
  }

  /** A byte written is the byte there afterwards, and no other byte changes. */
  lemma WriteThenByte(st: State, o: nat, x: byte, o': nat)
    requires Inv(st) && o / SECTOR < |st.disk|
    ensures ByteOf(Logical(WriteByte(st, o, x)), o') == if o' == o then x else ByteOf(Logical(st), o')
  {
    hide Inv, WriteByte, Logical;
    WriteKeeps(st, o, x);
    assert o' / SECTOR == o / SECTOR && o' % SECTOR == o % SECTOR ==> o == o';
  }

  /** Writing back changes nothing that can be seen, and leaves slots below n clean. */
  lemma {:induction false} WritebackKeeps(st: State, n: nat)
    requires Inv(st) && n <= NR_SEC_CACHE
    ensures var r := Writeback(st, n); Inv(r) && (forall i :: 0 <= i < n ==> !r.slots[i].dirty)
    ensures Logical(Writeback(st, n)) == Logical(st)
  {
    if n > 0 {
      WritebackKeeps(st, n - 1);
      WritebackOne(Writeback(st, n - 1), Writeback(st, n), n - 1);
    }
  }

  lemma WritebackOne(st: State, r: State, i: nat)
    requires Inv(st) && i < NR_SEC_CACHE
    requires var e := st.slots[i];
             r == if e.dirty
                  then State(if e.sector < |st.disk| then st.disk[e.sector := e.content] else st.disk,
                             st.slots[i := e.(dirty := false)])
                  else st
    ensures Inv(r) && Logical(r) == Logical(st) && !r.slots[i].dirty
  {
    var e := st.slots[i];
    assert SlotOk(st.disk, e, i);
    forall k | 0 <= k < NR_SEC_CACHE ensures SlotOk(r.disk, r.slots[k], k) {
      assert SlotOk(st.disk, st.slots[k], k);
    }
    forall x | 0 <= x < |st.disk| ensures Logical(r)[x] == Logical(st)[x] {
      assert SlotOk(st.disk, st.slots[x % NR_SEC_CACHE], x % NR_SEC_CACHE);
    }
  }

  /** After cache_writeback the disk itself is what the kernel sees. */
  lemma WritebackFlushes(st: State)
    requires Inv(st)
    ensures Writeback(st, NR_SEC_CACHE).disk == Logical(st)
  {
    WritebackKeeps(st, NR_SEC_CACHE);
    var r := Writeback(st, NR_SEC_CACHE);
    forall x | 0 <= x < |r.disk| ensures r.disk[x] == Logical(r)[x] {
      assert SlotOk(r.disk, r.slots[x % NR_SEC_CACHE], x % NR_SEC_CACHE);
    }
  }

  /** cache_init forgets what was cached. On a cache already in use that is harmless exactly when every slot in use
      agrees with the disk. */
  function Init(st: State): State {
    st.(slots := seq(|st.slots|, i requires 0 <= i < |st.slots| => st.slots[i].(used := false)))
  }

  lemma InitExact(st: State)
    requires Inv(st)
    ensures Logical(Init(st)) == Logical(st) <==>
            forall i :: 0 <= i < NR_SEC_CACHE && st.slots[i].used ==> st.slots[i].content == st.disk[st.slots[i].sector]
  {
    var l, l' := Logical(st), Logical(Init(st));
    assert l' == st.disk;
    forall i | 0 <= i < NR_SEC_CACHE && st.slots[i].used
      ensures l[st.slots[i].sector] == st.slots[i].content
    {
      assert SlotOk(st.disk, st.slots[i], i);
      assert Holds(st, st.slots[i].sector);
    }
    if forall i :: 0 <= i < NR_SEC_CACHE && st.slots[i].used ==> st.slots[i].content == st.disk[st.slots[i].sector] {
      forall x | 0 <= x < |l| ensures l[x] == l'[x] { }
    }
  }

  // Whole runs.

  datatype Op = Read(o: nat) | Write(o: nat, x: byte) | Flush

  predicate InDisk(op: Op, st: State) { op.Flush? || op.o / SECTOR < |st.disk| }

  function Step(st: State, op: Op): (r: State)
    requires |st.slots| == NR_SEC_CACHE && InDisk(op, st)
    ensures |r.slots| == NR_SEC_CACHE && |r.disk| == |st.disk|
  {
    match op
    case Read(o) => Fetch(st, o / SECTOR)
    case Write(o, x) => WriteByte(st, o, x)
    case Flush => Writeback(st, NR_SEC_CACHE)
  }

  function Run(st: State, ops: seq<Op>): (r: State)
    requires |st.slots| == NR_SEC_CACHE && forall op :: op in ops ==> InDisk(op, st)
    ensures |r.slots| == NR_SEC_CACHE && |r.disk| == |st.disk|
  {
    if ops == [] then st
    else
      var op, r := ops[|ops| - 1], Run(st, ops[..|ops| - 1]);
      assert op in ops && InDisk(op, st);
      Step(r, op)
  }

  /** The byte last written at o, or the one from before the run. */
  function LastWritten(ops: seq<Op>, o: nat, original: byte): byte {
    if ops == [] then original
    else
      var op := ops[|ops| - 1];
      if op.Write? && op.o == o then op.x else LastWritten(ops[..|ops| - 1], o, original)
  }

  /** Over any run of reads, writes and flushes, whatever is evicted meanwhile, every byte is the last one written. */
  lemma {:induction false} RunRemembers(st: State, ops: seq<Op>, o: nat)
    requires Inv(st) && forall op :: op in ops ==> InDisk(op, st)
    ensures Inv(Run(st, ops))
    ensures ByteOf(Logical(Run(st, ops)), o) == LastWritten(ops, o, ByteOf(Logical(st), o))
  {
    if ops != [] {
      var pre, op := ops[..|ops| - 1], ops[|ops| - 1];
      RunRemembers(st, pre, o);
      var s := Run(st, pre);
      hide Inv, Logical, Fetch, WriteByte, Writeback, ByteOf;
      assert op in ops && InDisk(op, st);
      match op {
        case Read(a) => FetchKeeps(s, a / SECTOR);
        case Write(a, x) => WriteKeeps(s, a, x); WriteThenByte(s, a, x, o);
        case Flush => WritebackKeeps(s, NR_SEC_CACHE);
      }
    }
  }

  /** So a read returns the last byte written there ... */
  lemma ReadReturnsLast(st: State, ops: seq<Op>, o: nat)
    requires Inv(st) && o / SECTOR < |st.disk| && forall op :: op in ops ==> InDisk(op, st)
    ensures ReadByte(Run(st, ops), o) == LastWritten(ops, o, ByteOf(Logical(st), o))
  {
    RunRemembers(st, ops, o);
    ReadIsLogical(Run(st, ops), o);
  }

  /** ... and after a final flush the disk has it. */
  lemma FlushReachesDisk(st: State, ops: seq<Op>, o: nat)
    requires Inv(st) && forall op :: op in ops ==> InDisk(op, st)
    ensures ByteOf(Step(Run(st, ops), Flush).disk, o) == LastWritten(ops, o, ByteOf(Logical(st), o))
  {
    RunRemembers(st, ops, o);
    WritebackFlushes(Run(st, ops));
  }

  // The driver.

  class Cache {
    var disk: seq<seq<byte>>
    const slots: array<Slot>

    ghost function View(): State
      reads this, slots
    {
      State(disk, slots[..])
    }

    ghost predicate Valid()
      reads this, slots
    {
      Inv(View())
    }

    /** Zeroed static memory, then cache_init. */
    constructor (disk: seq<seq<byte>>)
      requires forall s :: 0 <= s < |disk| ==> |disk[s]| == SECTOR
      ensures Valid() && this.disk == disk && Logical(View()) == disk && fresh(slots)
    {
      this.disk := disk;
      slots := new Slot[NR_SEC_CACHE](_ => Slot(0, false, false, seq(SECTOR, _ => 0)));
    }

    method CacheInit()
      requires Valid()
      modifies slots
      ensures View() == Init(old(View()))
    {
      var i := 0;
      while i < NR_SEC_CACHE
        invariant 0 <= i <= NR_SEC_CACHE
        invariant forall k :: 0 <= k < i ==> slots[k] == old(slots[k]).(used := false)
        invariant forall k :: i <= k < NR_SEC_CACHE ==> slots[k] == old(slots[k])
      {
        slots[i] := slots[i].(used := false);
        i := i + 1;
      }
    }

    method CacheWriteback()
      requires Valid()
      modifies this, slots
      ensures View() == Writeback(old(View()), NR_SEC_CACHE)
      ensures Valid() && disk == Logical(old(View())) == Logical(View())
    {
      ghost var st := View();
      WritebackFlushes(st);
      WritebackKeeps(st, NR_SEC_CACHE);
      hide Inv, Logical;
      var i := 0;
      while i < NR_SEC_CACHE
        invariant 0 <= i <= NR_SEC_CACHE && slots.Length == NR_SEC_CACHE && |st.slots| == NR_SEC_CACHE
        invariant View() == Writeback(st, i)
      {
        ghost var r := View();
        DirtyInDisk(st, i);
        if slots[i].dirty {
          disk := disk[slots[i].sector := slots[i].content];
          slots[i] := slots[i].(dirty := false);
        }
        assert View() == Writeback(st, i + 1);
        i := i + 1;
      }
    }

    method CacheFetch(s: nat) returns (i: nat)
      requires Valid() && s < |disk|
      modifies this, slots
      ensures Valid() && View() == Fetch(old(View()), s) && Logical(View()) == Logical(old(View()))
      ensures i == s % NR_SEC_CACHE && Holds(View(), s) && |disk| == old(|disk|)
    {
      FetchKeeps(View(), s);
      i := s % NR_SEC_CACHE;
      assert SlotOk(disk, slots[i], i);
      hide Inv, Logical;
      if slots[i].used && slots[i].sector == s {
      } else {
        if slots[i].used && slots[i].dirty {
          disk := disk[slots[i].sector := slots[i].content];
        }
        slots[i] := slots[i].(content := disk[s]);
        slots[i] := slots[i].(used := true, sector := s, dirty := false);
      }
    }

    method Read(o: nat) returns (x: byte)
      requires Valid() && o / SECTOR < |disk|
      modifies this, slots
      ensures Valid() && Logical(View()) == Logical(old(View())) && View() == Fetch(old(View()), o / SECTOR)
      ensures x == ReadByte(old(View()), o) == ByteOf(Logical(old(View())), o)
    {
      ReadIsLogical(View(), o);
      var i := CacheFetch(o / SECTOR);
      assert SlotOk(disk, slots[i], i);
      x := slots[i].content[o % SECTOR];
    }

    method Write(o: nat, x: byte)
      requires Valid() && o / SECTOR < |disk|
      modifies this, slots
      ensures Valid() && View() == WriteByte(old(View()), o, x)
      ensures var l, s := Logical(old(View())), o / SECTOR;
              |l[s]| == SECTOR && Logical(View()) == l[s := l[s][o % SECTOR := x]]
    {
      WriteKeeps(View(), o, x);
      var i := CacheFetch(o / SECTOR);
      assert SlotOk(disk, slots[i], i);
      hide Inv, Logical, Fetch;
      slots[i] := slots[i].(content := slots[i].content[o % SECTOR := x]);
      slots[i] := slots[i].(dirty := true);
    }
  }

  lemma DirtyInDisk(st: State, i: nat)
    requires Inv(st) && i < NR_SEC_CACHE
    ensures Writeback(st, i).slots[i].dirty ==> Writeback(st, i).slots[i].sector < |Writeback(st, i).disk|
  {
    WritebackKeeps(st, i);
    assert SlotOk(Writeback(st, i).disk, Writeback(st, i).slots[i], i);
  }

  /** A byte written into a fresh cache, and the cache initialised again: the write is gone. */
  lemma InitLoses(disk: seq<seq<byte>>, x: byte)
    requires disk != [] && (forall s :: 0 <= s < |disk| ==> |disk[s]| == SECTOR) && x != disk[0][0]
    ensures var st := State(disk, seq(NR_SEC_CACHE, _ => Slot(0, false, false, seq(SECTOR, _ => 0))));
            && ByteOf(Logical(WriteByte(st, 0, x)), 0) == x
            && ByteOf(Logical(Init(WriteByte(st, 0, x))), 0) == disk[0][0]
  {
    var st := State(disk, seq(NR_SEC_CACHE, _ => Slot(0, false, false, seq(SECTOR, _ => 0))));
    assert Inv(st);
    WriteThenByte(st, 0, x, 0);
    assert WriteByte(st, 0, x).disk == disk;
  }
}
