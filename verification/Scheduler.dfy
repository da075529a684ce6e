/** The round-robin scheduler: ready, wait and free rings, and who runs next. */
module Scheduler {

  import opened Processes

  /** The idle process, head of the ready ring. */
  const IDLE: int := -1

  /** The rings without their heads, in list order from the head; the PCBs that the process manager has taken out of
      the free ring and not entered anywhere yet; current and pre_current. */
  datatype Sched = Sched(ready: seq<int>, wait: seq<int>, free: seq<int>, taken: seq<int>, current: int, pre: int)

  function IndexOf(s: seq<int>, x: int): (i: nat)
    requires x in s
    ensures i < |s| && s[i] == x && x !in s[..i]
  {
    if s[0] == x then 0 else 1 + IndexOf(s[1..], x)
  }

  function Without(s: seq<int>, x: int): (r: seq<int>)
    requires x in s
    ensures |r| == |s| - 1
  {
    s[..IndexOf(s, x)] + s[IndexOf(s, x) + 1..]
  }

  /** list.next in the ready ring. */
  function Next(ready: seq<int>, x: int): (n: int)
    requires x == IDLE || x in ready
    ensures n == IDLE || n in ready
  {
    var i := if x == IDLE then 0 else IndexOf(ready, x) + 1;
    if i < |ready| then ready[i] else IDLE
  }

  /** list.prev in the ready ring. */
  function Prev(ready: seq<int>, x: int): (n: int)
    requires x in ready
    ensures n == IDLE || n in ready
  {
    var i := IndexOf(ready, x);
    if i == 0 then IDLE else ready[i - 1]
  }

  ghost predicate NoDup(s: seq<int>) {
    forall i, j :: 0 <= i < j < |s| ==> s[i] != s[j]
  }

  /** Every process in some ring or taken, counted. */
  ghost function Everyone(s: Sched): multiset<int> {
    multiset(s.ready) + multiset(s.wait) + multiset(s.free) + multiset(s.taken)
  }

  /** No process is in two places. */
  ghost predicate Placed(s: Sched) {
    && (forall x :: Everyone(s)[x] <= 1)
    && (forall x :: x in Everyone(s) ==> 0 <= x < POOL_NUM)
  }

  /** Between interrupts also: the current process is ready or idle, and pre_current has been brought up to date. */
  ghost predicate Inv(s: Sched) {
    Placed(s) && (s.current == IDLE || s.current in s.ready) && s.pre == s.current
  }

  lemma {:induction false} SplitCount(s: seq<int>, i: nat)
    requires i < |s|
    ensures multiset(s) == multiset(s[..i]) + multiset{s[i]} + multiset(s[i + 1..])
  {
    assert s == s[..i] + [s[i]] + s[i + 1..];
  }

  lemma WithoutCount(s: seq<int>, x: int)
    requires x in s
    ensures multiset(Without(s, x)) == multiset(s) - multiset{x}
  {
    SplitCount(s, IndexOf(s, x));
  }

  /** Moving x from one ring to the end of another keeps the count. */
  lemma MoveCount(a: seq<int>, x: int, b: seq<int>)
    requires x in a
    ensures multiset(Without(a, x)) + multiset(b + [x]) == multiset(a) + multiset(b)
    ensures multiset(Without(a, x)) + multiset{x} == multiset(a)
  {
    WithoutCount(a, x);
    assert x in multiset(a);
  }

  lemma OnceNoDup(s: seq<int>, m: multiset<int>)
    requires multiset(s) <= m
    requires forall x: int :: m[x] <= 1
    ensures NoDup(s)
  {
    forall i, j | 0 <= i < j < |s| ensures s[i] != s[j] {
      var y := s[i];
      assert m[y] <= 1;
      SplitCount(s, i);
      assert s[i + 1..][j - i - 1] == s[j];
      assert s[j] in multiset(s[i + 1..]);
    }
  }

  lemma PlacedApart(s: Sched)
    requires Placed(s)
    ensures NoDup(s.ready) && NoDup(s.wait) && NoDup(s.free) && NoDup(s.taken)
    ensures forall p :: p in s.ready ==> p !in s.wait && p !in s.free && p !in s.taken && IsPid(p)
    ensures forall p :: p in s.wait ==> p !in s.free && p !in s.taken && IsPid(p)
    ensures forall p :: p in s.free ==> p !in s.taken && IsPid(p)
    ensures forall p :: p in s.taken ==> IsPid(p)
  {
    var all := Everyone(s);
    OnceNoDup(s.ready, all);
    OnceNoDup(s.wait, all);
    OnceNoDup(s.free, all);
    OnceNoDup(s.taken, all);
    forall p | p in s.ready ensures p !in s.wait && p !in s.free && p !in s.taken && IsPid(p) {
      assert all[p] <= 1 && p in multiset(s.ready) && p in all;
    }
    forall p | p in s.wait ensures p !in s.free && p !in s.taken && IsPid(p) {
      assert all[p] <= 1 && p in multiset(s.wait) && p in all;
    }
    forall p | p in s.free ensures p !in s.taken && IsPid(p) {
      assert all[p] <= 1 && p in multiset(s.free) && p in all;
    }
    forall p | p in s.taken ensures IsPid(p) { assert p in multiset(s.taken) && p in all; }
  }

  lemma ReadyNoDup(s: Sched)
    requires Inv(s)
    ensures NoDup(s.ready)
    ensures forall p :: p in s.ready ==> p !in s.wait && p !in s.free && p !in s.taken && p != IDLE
    ensures forall p :: p in s.wait ==> p !in s.free && p !in s.taken && p != IDLE
    ensures forall p :: p in s.free ==> p !in s.taken
  {
    PlacedApart(s);
  }

  // The operations, on scheduler states.

  /** schedule() */
  function Schedule(s: Sched): (r: Sched)
    requires s.pre == IDLE || s.pre in s.ready
  {
    var c := Next(s.ready, s.pre);
    var c' := if c == IDLE then Next(s.ready, IDLE) else c;
    s.(current := c', pre := c')
  }

  /** The ring moves of sleep(), before the interrupt that reschedules. */
  function Park(s: Sched): (r: Sched)
    requires s.current in s.ready
  {
    s.(pre := Prev(s.ready, s.current), ready := Without(s.ready, s.current), wait := s.wait + [s.current])
  }

  /** wakeup(p): only a process found in the wait ring is moved, in front of the current one. */
  function Wakeup(s: Sched, p: int): (r: Sched)
    requires s.current == IDLE || s.current in s.ready
  {
    if p !in s.wait then s
    else s.(wait := Without(s.wait, p), ready := InsertBefore(s.ready, s.current, p))
  }

  function InsertBefore(ready: seq<int>, x: int, p: int): (r: seq<int>)
    requires x == IDLE || x in ready
    ensures multiset(r) == multiset(ready) + multiset{p}
  {
    if x == IDLE then ready + [p]
    else
      var i := IndexOf(ready, x);
      assert ready == ready[..i] + ready[i..];
      ready[..i] + [p] + ready[i..]
  }

  /** create_kthread: the first free PCB goes to the wait ring. */
  function Create(s: Sched): (r: Sched)
    requires s.free != []
  {
    s.(free := s.free[1..], wait := s.wait + [s.free[0]])
  }

  /** The first half of create_process and of fork: the first free PCB is taken out of its ring. */
  function TakeFree(s: Sched): (r: Sched)
    requires s.free != []
  {
    s.(free := s.free[1..], taken := s.taken + [s.free[0]])
  }

  /** The second half, once the other servers have answered: the PCB goes to the wait ring. */
  function Enter(s: Sched, p: int): (r: Sched)
    requires p in s.taken
  {
    s.(taken := Without(s.taken, p), wait := s.wait + [p])
  }

  /** The ring moves of a thread function returning: the current PCB goes to the free ring. */
  function Retire(s: Sched): (r: Sched)
    requires s.current in s.ready
  {
    s.(pre := Prev(s.ready, s.current), ready := Without(s.ready, s.current), free := s.free + [s.current])
  }

  /** exit of another process, carried out by the process manager. */
  function Remove(s: Sched, p: int): (r: Sched)
    requires p in s.ready || p in s.wait
  {
    if p in s.ready then s.(ready := Without(s.ready, p), free := s.free + [p])
    else s.(wait := Without(s.wait, p), free := s.free + [p])
  }

  // None of them loses or doubles a process.

  lemma LeaveEveryone(s: Sched)
    requires s.current in s.ready
    ensures Everyone(Park(s)) == Everyone(s) == Everyone(Retire(s))
  {
    MoveCount(s.ready, s.current, s.wait);
    MoveCount(s.ready, s.current, s.free);
    hide Without, Prev;
  }

  lemma RemoveEveryone(s: Sched, p: int)
    requires p in s.ready || p in s.wait
    ensures Everyone(Remove(s, p)) == Everyone(s)
  {
    MoveCount(if p in s.ready then s.ready else s.wait, p, s.free);
    hide Without;
  }

  lemma FreeEveryone(s: Sched)
    requires s.free != []
    ensures Everyone(Create(s)) == Everyone(s) == Everyone(TakeFree(s))
  {
    assert s.free == [s.free[0]] + s.free[1..];
  }

  lemma EnterEveryone(s: Sched, p: int)
    requires p in s.taken
    ensures Everyone(Enter(s, p)) == Everyone(s)
  {
    MoveCount(s.taken, p, s.wait);
    hide Without;
  }

  lemma WakeEveryone(s: Sched, p: int)
    requires s.current == IDLE || s.current in s.ready
    ensures Everyone(Wakeup(s, p)) == Everyone(s)
  {
    if p in s.wait {
      MoveCount(s.wait, p, []);
      hide Without, InsertBefore;
    }
  }

  /** So they keep processes apart. */
  lemma SamePlaces(s: Sched, r: Sched)
    requires Placed(s) && Everyone(r) == Everyone(s)
    ensures Placed(r)
  {
    hide Everyone;
  }

  lemma WithoutPart(s: seq<int>, x: int)
    requires x in s
    ensures forall y :: y in Without(s, x) ==> y in s
  {
  }

  lemma WithoutGone(s: seq<int>, x: int)
    requires NoDup(s) && x in s
    ensures x !in Without(s, x)
  {
  }

  datatype Event = Tick | Sleep | Wake(p: int) | Spawn | Reserve | Admit(p: int) | Return | Exit(p: int)

  predicate Enabled(s: Sched, e: Event) {
    match e
    case Tick => true
    case Sleep => s.current in s.ready
    case Wake(_) => true
    case Spawn => s.free != []
    case Reserve => s.free != []
    case Admit(p) => p in s.taken
    case Return => s.current in s.ready
    case Exit(p) => p != s.current && (p in s.ready || p in s.wait)
  }

  lemma PrevStays(ready: seq<int>, x: int)
    requires NoDup(ready) && x in ready
    ensures Prev(ready, x) == IDLE || Prev(ready, x) in Without(ready, x)
  {
    var i := IndexOf(ready, x);
    if i > 0 { assert ready[..i][i - 1] == ready[i - 1]; }
  }

  /** One kernel event. Tick, Sleep and Return end in schedule(). */
  ghost function Step(s: Sched, e: Event): (r: Sched)
    requires Inv(s) && Enabled(s, e)
  {
    ReadyNoDup(s);
    match e
    case Tick => Schedule(s)
    case Sleep => PrevStays(s.ready, s.current); Schedule(Park(s))
    case Wake(p) => Wakeup(s, p)
    case Spawn => Create(s)
    case Reserve => TakeFree(s)
    case Admit(p) => Enter(s, p)
    case Return => PrevStays(s.ready, s.current); Schedule(Retire(s))
    case Exit(p) => Remove(s, p)
  }

  /** No process leaves or enters the rings. */
  lemma StepKeepsEveryone(s: Sched, e: Event)
    requires Inv(s) && Enabled(s, e)
    ensures Everyone(Step(s, e)) == Everyone(s)
  {
    InvCurrent(s);
    hide Inv, Next, Prev, Without, IndexOf, InsertBefore, NoDup, Everyone;
    match e
    case Tick => SameEveryone(s, Schedule(s));
    case Sleep => LeaveEveryone(s); SameEveryone(Park(s), Step(s, e));
    case Wake(p) => WakeEveryone(s, p);
    case Spawn => FreeEveryone(s);
    case Reserve => FreeEveryone(s);
    case Admit(p) => EnterEveryone(s, p);
    case Return => LeaveEveryone(s); SameEveryone(Retire(s), Step(s, e));
    case Exit(p) => RemoveEveryone(s, p);
  }

  lemma SameEveryone(s: Sched, r: Sched)
    requires r.ready == s.ready && r.wait == s.wait && r.free == s.free && r.taken == s.taken
    ensures Everyone(r) == Everyone(s)
  {
  }

  /** Every event keeps the invariant. */
  lemma StepKeepsInv(s: Sched, e: Event)
    requires Inv(s) && Enabled(s, e)
    ensures Inv(Step(s, e))
  {
    hide IndexOf, InsertBefore, NoDup, Everyone;
    StepKeepsEveryone(s, e);
    match e
    case Wake(p) => if s.current != IDLE { CurrentStays(s, p); }
    case Exit(p) =>
      if p in s.ready && s.current != IDLE {
        WithoutCount(s.ready, p);
        assert s.current in multiset(s.ready);
        assert s.current in multiset(Without(s.ready, p));
      }
    case _ =>
  }

  lemma CurrentStays(s: Sched, p: int)
    requires Inv(s) && s.current != IDLE
    ensures s.current in Wakeup(s, p).ready
  {
    if p in s.wait { assert s.current in multiset(InsertBefore(s.ready, s.current, p)); }
  }

  // Bounded waiting.

  /** The ready processes in the order in which schedule() will pick them. */
  ghost function Turns(s: Sched): (r: seq<int>)
    requires s.current == IDLE || s.current in s.ready
    ensures |r| == |s.ready|
  {
    if s.current == IDLE then s.ready
    else var i := IndexOf(s.ready, s.current); s.ready[i + 1..] + s.ready[..i + 1]
  }

  /** The position of the current process in the ready ring; the head counts as -1. */
  ghost function Pos(s: Sched): (i: int)
    requires s.current == IDLE || s.current in s.ready
    ensures -1 <= i < |s.ready|
  {
    if s.current == IDLE then -1 else IndexOf(s.ready, s.current)
  }

  ghost function TurnsAt(ready: seq<int>, i: int): (r: seq<int>)
    requires -1 <= i < |ready|
    ensures |r| == |ready|
  {
    ready[i + 1..] + ready[..i + 1]
  }

  lemma TurnsPos(s: Sched)
    requires s.current == IDLE || s.current in s.ready
    ensures Turns(s) == TurnsAt(s.ready, Pos(s))
  {
  }

  lemma IndexUnique(s: seq<int>, i: nat)
    requires NoDup(s) && i < |s|
    ensures IndexOf(s, s[i]) == i
  {
  }

  lemma Rotate(ready: seq<int>, i: int)
    requires -1 <= i < |ready| && ready != []
    ensures var k := if i + 1 < |ready| then i + 1 else 0;
            TurnsAt(ready, i)[0] == ready[k] && TurnsAt(ready, k) == TurnsAt(ready, i)[1..] + [ready[k]]
  {
    if i + 1 < |ready| {
      assert ready[..i + 2] == ready[..i + 1] + [ready[i + 1]];
    } else {
      assert ready[..i + 1] == ready;
    }
  }

  /** schedule() runs the first in turn and puts it last. */
  lemma ScheduleTurns(s: Sched)
    requires NoDup(s.ready) && IDLE !in s.ready && s.ready != []
    requires (s.current == IDLE || s.current in s.ready) && s.pre == s.current
    ensures var r := Schedule(s);
            r.current == Turns(s)[0] && r.current in r.ready && Turns(r) == Turns(s)[1..] + [Turns(s)[0]]
  {
    var i, r := Pos(s), Schedule(s);
    var k := if i + 1 < |s.ready| then i + 1 else 0;
    assert r.current == s.ready[k];
    hide Schedule, Next, IndexOf, Turns, TurnsAt;
    IndexUnique(s.ready, k);
    Rotate(s.ready, i);
    TurnsPos(s);
    TurnsPos(r);
  }

  /** Taking the current process out of the ring leaves the others' turns as they were. */
  lemma LeaveTurns(s: Sched)
    requires NoDup(s.ready) && IDLE !in s.ready && s.current in s.ready
    ensures var q, c := Prev(s.ready, s.current), Without(s.ready, s.current);
            && NoDup(c) && IDLE !in c && (q == IDLE || q in c)
            && Turns(s.(ready := c, pre := q, current := q)) == Turns(s)[..|s.ready| - 1]
  {
    var i: int := IndexOf(s.ready, s.current);
    var q, c := Prev(s.ready, s.current), Without(s.ready, s.current);
    assert c == s.ready[..i] + s.ready[i + 1..];
    hide Prev, Without, IndexOf, Turns;
    PrevStays(s.ready, s.current);
    LeaveIndex(s.ready, i);
    TurnsPos(s);
    TurnsPos(s.(ready := c, pre := q, current := q));
    assert TurnsAt(c, i - 1) == TurnsAt(s.ready, i)[..|s.ready| - 1];
  }

  lemma LeaveIndex(ready: seq<int>, i: nat)
    requires NoDup(ready) && IDLE !in ready && i < |ready|
    ensures var c := ready[..i] + ready[i + 1..];
            && NoDup(c) && IDLE !in c
            && Prev(ready, ready[i]) == (if i == 0 then IDLE else c[i - 1])
            && (i > 0 ==> IndexOf(c, c[i - 1]) == i - 1)
  {
    var c := ready[..i] + ready[i + 1..];
    IndexUnique(ready, i);
    if i > 0 { IndexUnique(c, i - 1); }
  }

  /** A woken process waits longest: everybody ready, except the running process itself, comes before it. */
  lemma WakeTurns(s: Sched, p: int)
    requires Inv(s) && p in s.wait
    ensures var r := Wakeup(s, p);
            && (r.current == IDLE || r.current in r.ready)
            && Turns(r) == (if s.current == IDLE then Turns(s) + [p]
                            else Turns(s)[..|s.ready| - 1] + [p, s.current])
  {
    WokenNotRunning(s, p);
    hide Placed, InsertBefore, IndexOf, Without;
    if s.current != IDLE { WokenTurns(s, Wakeup(s, p), p); }
  }

  lemma WokenNotRunning(s: Sched, p: int)
    requires Inv(s) && p in s.wait
    ensures s.current == IDLE || s.current in s.ready
    ensures p != s.current
  {
    ReadyNoDup(s);
  }

  lemma WokenTurns(s: Sched, r: Sched, p: int)
    requires s.current != IDLE && s.current in s.ready && p != s.current
    requires r == s.(ready := InsertBefore(s.ready, s.current, p), wait := r.wait)
    ensures r.current in r.ready && Turns(r) == Turns(s)[..|s.ready| - 1] + [p, s.current]
  {
    InsertedIndex(s.ready, s.current, p);
    hide InsertBefore, Turns, TurnsAt;
    TurnsPos(s);
    TurnsPos(r);
    hide IndexOf;
    InsertTurns(s.ready, Pos(s), p);
  }

  lemma InsertedIndex(ready: seq<int>, x: int, p: int)
    requires x in ready && x != IDLE && p != x
    ensures var i, r := IndexOf(ready, x), InsertBefore(ready, x, p);
            r == ready[..i] + [p] + ready[i..] && x in r && IndexOf(r, x) == i + 1
  {
    var i, r := IndexOf(ready, x), InsertBefore(ready, x, p);
    assert r == ready[..i] + [p] + ready[i..];
    assert r[..i + 1] == ready[..i] + [p] && r[i + 1] == x;
    hide InsertBefore, IndexOf;
    IndexFirst(r, x, i + 1);
  }

  lemma InsertTurns(ready: seq<int>, i: nat, p: int)
    requires i < |ready|
    ensures TurnsAt(ready[..i] + [p] + ready[i..], i + 1) == TurnsAt(ready, i)[..|ready| - 1] + [p, ready[i]]
  {
    var a, x, b := ready[..i], ready[i], ready[i + 1..];
    var r := ready[..i] + [p] + ready[i..];
    assert ready == (a + [x]) + b && r == (a + [p, x]) + b;
    TurnsOf(a + [x], b);
    TurnsOf(a + [p, x], b);
    DropLast(b + a, x);
    hide TurnsAt;
    assert b + (a + [x]) == (b + a) + [x];
    assert b + (a + [p, x]) == (b + a) + [p, x];
  }

  lemma TurnsOf(a: seq<int>, b: seq<int>)
    ensures TurnsAt(a + b, |a| - 1) == b + a
  {
    assert (a + b)[|a|..] == b && (a + b)[..|a|] == a;
  }

  lemma DropLast(a: seq<int>, x: int)
    ensures (a + [x])[..|a|] == a
  {
  }

  lemma Split3(a: seq<int>, x: int, b: seq<int>)
    ensures var t := a + [x] + b; t[|a|] == x && t[..|a|] == a && t[|a| + 1..] == b
  {
  }

  lemma IndexFirst(s: seq<int>, x: int, i: nat)
    requires i < |s| && s[i] == x && x !in s[..i]
    ensures IndexOf(s, x) == i
  {
  }

  lemma TurnsMembers(s: Sched)
    requires NoDup(s.ready) && IDLE !in s.ready && (s.current == IDLE || s.current in s.ready)
    ensures NoDup(Turns(s)) && (forall p :: p in Turns(s) <==> p in s.ready)
    ensures s.current in s.ready ==> Turns(s)[|s.ready| - 1] == s.current
  {
    if s.current != IDLE {
      var i := IndexOf(s.ready, s.current);
      var a, b := s.ready[..i + 1], s.ready[i + 1..];
      assert s.ready == a + b && Turns(s) == b + a && a[i] == s.current;
      hide Turns, IndexOf;
      SwapMembers(a, b);
    }
  }

  lemma SwapMembers(a: seq<int>, b: seq<int>)
    requires NoDup(a + b)
    ensures NoDup(b + a) && forall p :: p in b + a <==> p in a + b
  {
    var s, t := a + b, b + a;
    forall i, j | 0 <= i < j < |t| ensures t[i] != t[j] {
      var i', j' := if i < |b| then i + |a| else i - |b|, if j < |b| then j + |a| else j - |b|;
      assert s[i'] == t[i] && s[j'] == t[j] && i' != j';
    }
  }

  /** How many schedule() calls away a ready process is. */
  ghost function Distance(s: Sched, p: int): (d: nat)
    requires Inv(s) && p in s.ready
    ensures 0 < d <= |s.ready|
  {
    ReadyNoDup(s);
    TurnsMembers(s);
    IndexOf(Turns(s), p) + 1
  }

  predicate Calls(e: Event) { e.Tick? || e.Sleep? || e.Return? }

  /** After schedule() on the turns T, the second in turn is first. */
  lemma ShiftIndex(t: seq<int>, r: seq<int>, p: int)
    requires NoDup(t) && p in t && t != [] && r == t[1..] + [t[0]] && p != t[0]
    ensures p in r && IndexOf(r, p) == IndexOf(t, p) - 1
  {
    var k := IndexOf(t, p);
    assert r[k - 1] == p;
    IndexFirst(r, p, k - 1);
  }

  lemma PrefixIndex(t: seq<int>, r: seq<int>, p: int, n: nat)
    requires p in t && IndexOf(t, p) < n <= |t| && n <= |r| && r[..n] == t[..n]
    ensures p in r && IndexOf(r, p) == IndexOf(t, p)
  {
    var k := IndexOf(t, p);
    assert r[..n][k] == p && r[..k] == r[..n][..k] == t[..k];
    IndexFirst(r, p, k);
  }

  /** schedule() from a ring in which the last runner stands at pre_current. */
  lemma ScheduleShift(s: Sched, p: int)
    requires NoDup(s.ready) && IDLE !in s.ready && p in s.ready
    requires (s.current == IDLE || s.current in s.ready) && s.pre == s.current
    ensures p in Turns(s)
    ensures var r := Schedule(s);
            && r.ready == s.ready && r.current in r.ready && p in Turns(r)
            && (IndexOf(Turns(s), p) == 0 <==> r.current == p)
            && (IndexOf(Turns(s), p) > 0 ==> IndexOf(Turns(r), p) == IndexOf(Turns(s), p) - 1)
  {
    var r := Schedule(s);
    assert r.ready == s.ready;
    hide Turns, Schedule;
    TurnsMembers(s);
    ScheduleTurns(s);
    var t := Turns(s);
    if p != t[0] { ShiftIndex(t, Turns(r), p); } else { IndexUnique(t, 0); TurnsMembers(r); }
  }

  /** sleep() or return: the current process leaves the ring, then schedule(). */
  lemma LeaveShift(s: Sched, p: int)
    requires NoDup(s.ready) && IDLE !in s.ready && s.current in s.ready && p in s.ready && p != s.current
    ensures p in Turns(s) && PrevInRing(s)
    ensures var r := Schedule(s.(ready := Without(s.ready, s.current), pre := Prev(s.ready, s.current)));
            && p in r.ready && r.current in r.ready && p in Turns(r)
            && (IndexOf(Turns(s), p) == 0 <==> r.current == p)
            && (IndexOf(Turns(s), p) > 0 ==> IndexOf(Turns(r), p) == IndexOf(Turns(s), p) - 1)
  {
    var q, c := Prev(s.ready, s.current), Without(s.ready, s.current);
    var left := s.(ready := c, pre := q, current := q);
    hide Turns, Prev, Without, IndexOf, Next, NoDup, Schedule;
    LeaveTurns(s);
    LeavePrefix(s, left, p);
    ScheduleShift(left, p);
    ScheduleOnPre(s.(ready := c, pre := q), q);
  }

  lemma ScheduleOnPre(s: Sched, x: int)
    requires s.pre == IDLE || s.pre in s.ready
    ensures Schedule(s) == Schedule(s.(current := x))
  {
  }

  lemma LeavePrefix(s: Sched, left: Sched, p: int)
    requires NoDup(s.ready) && IDLE !in s.ready && s.current in s.ready && p in s.ready && p != s.current
    requires left.current == IDLE || left.current in left.ready
    requires left.ready == Without(s.ready, s.current) && Turns(left) == Turns(s)[..|s.ready| - 1]
    requires NoDup(left.ready) && IDLE !in left.ready
    ensures p in Turns(s) && p in left.ready && p in Turns(left) && IndexOf(Turns(left), p) == IndexOf(Turns(s), p)
  {
    hide Turns, Without, IndexOf, NoDup;
    TurnsMembers(s);
    TurnsMembers(left);
    LastStays(Turns(s), p);
    PrefixIndex(Turns(s), Turns(left), p, |s.ready| - 1);
  }

  ghost predicate PrevInRing(s: Sched)
    requires s.current in s.ready
  {
    Prev(s.ready, s.current) == IDLE || Prev(s.ready, s.current) in Without(s.ready, s.current)
  }

  /** A schedule() call brings every waiting process exactly one place forward. */
  lemma CallStep(s: Sched, e: Event, p: int)
    requires Inv(s) && Enabled(s, e) && Calls(e) && p in s.ready && p != s.current
    ensures var r := Step(s, e);
            && Inv(r) && p in r.ready
            && (Distance(s, p) == 1 <==> r.current == p)
            && (Distance(s, p) > 1 ==> Distance(r, p) == Distance(s, p) - 1)
  {
    ReadyNoDup(s);
    StepKeepsInv(s, e);
    hide Turns, IndexOf, Next, Prev, Without, NoDup, Inv;
    assert s.current == IDLE || s.current in s.ready by { InvCurrent(s); }
    if e.Tick? { ScheduleShift(s, p); } else { LeaveShift(s, p); ScheduleSame(s); }
  }

  lemma InvCurrent(s: Sched)
    requires Inv(s)
    ensures (s.current == IDLE || s.current in s.ready) && s.pre == s.current
  {
  }

  /** schedule() looks at the ready ring and pre_current only. */
  lemma ScheduleSame(s: Sched)
    requires Inv(s) && s.current in s.ready && PrevInRing(s)
    ensures var r := Schedule(s.(ready := Without(s.ready, s.current), pre := Prev(s.ready, s.current)));
            && Schedule(Park(s)).ready == r.ready == Schedule(Retire(s)).ready
            && Schedule(Park(s)).current == r.current == Schedule(Retire(s)).current
            && (r.current in r.ready ==> Turns(Schedule(Park(s))) == Turns(r) == Turns(Schedule(Retire(s))))
  {
    hide Placed, Turns, Next, Prev, Without, NoDup;
    var r := Schedule(s.(ready := Without(s.ready, s.current), pre := Prev(s.ready, s.current)));
    if r.current in r.ready {
      SameTurns(r, Schedule(Park(s)));
      SameTurns(r, Schedule(Retire(s)));
    }
  }

  /** A process that is not last in turn is in the turns without the last. */
  lemma LastStays(t: seq<int>, p: int)
    requires p in t && t[|t| - 1] != p
    ensures IndexOf(t, p) < |t| - 1
  {
  }

  lemma RemoveAt(ready: seq<int>, i: int, j: nat)
    requires -1 <= i < |ready| && j < |ready| && j != i
    ensures var c := ready[..j] + ready[j + 1..];
            var k := if j > i then j - i - 1 else |ready| - i - 1 + j;
            var t := TurnsAt(ready, i);
            t[k] == ready[j] && TurnsAt(c, if j < i then i - 1 else i) == t[..k] + t[k + 1..]
  {
    var c := ready[..j] + ready[j + 1..];
    var t := TurnsAt(ready, i);
    if j > i {
      RemoveBehind(ready, i, j);
    } else {
      RemoveBefore(ready, i, j);
    }
  }

  lemma RemoveBehind(ready: seq<int>, i: int, j: nat)
    requires -1 <= i < j < |ready|
    ensures var t, k := TurnsAt(ready, i), j - i - 1;
            t[k] == ready[j] && TurnsAt(ready[..j] + ready[j + 1..], i) == t[..k] + t[k + 1..]
  {
    RemovedBehind(ready[..i + 1], ready[i + 1..j], ready[j], ready[j + 1..]);
    var a, b, x, d := ready[..i + 1], ready[i + 1..j], ready[j], ready[j + 1..];
    hide TurnsAt;
    assert ready == a + (b + [x] + d) && ready[..j] + d == a + (b + d);
  }

  lemma RemovedBehind(a: seq<int>, b: seq<int>, x: int, d: seq<int>)
    ensures var t := TurnsAt(a + (b + [x] + d), |a| - 1);
            t[|b|] == x && TurnsAt(a + (b + d), |a| - 1) == t[..|b|] + t[|b| + 1..]
  {
    TurnsOf(a, b + [x] + d);
    TurnsOf(a, b + d);
    hide TurnsAt;
    assert (b + [x] + d) + a == b + [x] + (d + a) && (b + d) + a == b + (d + a);
    Split3(b, x, d + a);
  }

  lemma RemoveBefore(ready: seq<int>, i: nat, j: nat)
    requires j < i < |ready|
    ensures var t, k := TurnsAt(ready, i), |ready| - i - 1 + j;
            t[k] == ready[j] && TurnsAt(ready[..j] + ready[j + 1..], i - 1) == t[..k] + t[k + 1..]
  {
    RemovedBefore(ready[..j], ready[j], ready[j + 1..i + 1], ready[i + 1..]);
    var a, x, b, d := ready[..j], ready[j], ready[j + 1..i + 1], ready[i + 1..];
    hide TurnsAt;
    assert ready == (a + [x] + b) + d && a + ready[j + 1..] == (a + b) + d;
  }

  lemma RemovedBefore(a: seq<int>, x: int, b: seq<int>, d: seq<int>)
    ensures var t, k := TurnsAt((a + [x] + b) + d, |a| + |b|), |d| + |a|;
            t[k] == x && TurnsAt((a + b) + d, |a| + |b| - 1) == t[..k] + t[k + 1..]
  {
    TurnsOf(a + [x] + b, d);
    TurnsOf(a + b, d);
    hide TurnsAt;
    assert d + (a + [x] + b) == (d + a) + [x] + b && d + (a + b) == (d + a) + b;
    Split3(d + a, x, b);
  }

  /** The exit of another ready process only brings the rest forward. */
  lemma RemoveTurns(s: Sched, q: int)
    requires NoDup(s.ready) && IDLE !in s.ready && q in s.ready && q != s.current
    requires s.current == IDLE || s.current in s.ready
    ensures q in Turns(s) && (s.current == IDLE || s.current in Remove(s, q).ready)
    ensures Turns(Remove(s, q)) == Without(Turns(s), q)
  {
    RemovePos(s, q);
    hide Turns, TurnsAt, IndexOf, Pos, NoDup, Without, Remove;
    TurnsPos(s);
    TurnsPos(Remove(s, q));
    TurnsMembers(s);
    RemoveAtTurns(s.ready, Pos(s), q);
  }

  lemma RemoveAtTurns(ready: seq<int>, i: int, q: int)
    requires -1 <= i < |ready| && q in ready && IndexOf(ready, q) != i && NoDup(TurnsAt(ready, i))
    ensures var i' := if IndexOf(ready, q) < i then i - 1 else i;
            q in TurnsAt(ready, i) && TurnsAt(Without(ready, q), i') == Without(TurnsAt(ready, i), q)
  {
    var j := IndexOf(ready, q);
    hide NoDup, IndexOf, TurnsAt;
    RemoveAt(ready, i, j);
    WithoutAt(TurnsAt(ready, i), if j > i then j - i - 1 else |ready| - i - 1 + j);
  }

  lemma WithoutAt(t: seq<int>, k: nat)
    requires NoDup(t) && k < |t|
    ensures Without(t, t[k]) == t[..k] + t[k + 1..]
  {
    IndexUnique(t, k);
  }

  lemma RemovePos(s: Sched, q: int)
    requires NoDup(s.ready) && IDLE !in s.ready && q in s.ready && q != s.current
    requires s.current == IDLE || s.current in s.ready
    ensures var i, j, c := Pos(s), IndexOf(s.ready, q), Remove(s, q).ready;
            && j != i && c == Without(s.ready, q) && Remove(s, q).current == s.current
            && (s.current == IDLE || s.current in c)
            && Pos(Remove(s, q)) == if j < i then i - 1 else i
  {
    var i, j, c := Pos(s), IndexOf(s.ready, q), Remove(s, q).ready;
    if s.current != IDLE {
      var i' := if j < i then i - 1 else i;
      assert c[i'] == s.current;
      IndexFirst(c, s.current, i');
    }
  }

  lemma WithoutIndex(t: seq<int>, q: int, p: int)
    requires q in t && p in t && p != q
    ensures p in Without(t, q) && IndexOf(Without(t, q), p) <= IndexOf(t, p)
  {
    var j, k := IndexOf(t, q), IndexOf(t, p);
    var r := Without(t, q);
    var k' := if j < k then k - 1 else k;
    assert r[k'] == p;
  }

  /** No other event moves a waiting process back. */
  lemma QuietStep(s: Sched, e: Event, p: int)
    requires Inv(s) && Enabled(s, e) && !Calls(e) && e != Exit(p) && p in s.ready && p != s.current
    ensures var r := Step(s, e);
            && Inv(r) && p in r.ready && r.current == s.current
            && Distance(r, p) <= Distance(s, p)
  {
    hide Turns, IndexOf, Without, NoDup, Placed, InsertBefore;
    StepKeepsInv(s, e);
    InTurn(s, p);
    match e
    case Wake(q) =>
      if q in s.wait {
        WakeIndex(s, q, p);
        InsertKeeps(s.ready, s.current, q, p);
      }
    case Spawn => SameTurns(s, Create(s));
    case Reserve => SameTurns(s, TakeFree(s));
    case Admit(q) => SameTurns(s, Enter(s, q));
    case Exit(q) => if q in s.ready { ExitIndex(s, q, p); } else { SameTurns(s, Remove(s, q)); }
  }

  lemma SameTurns(s: Sched, r: Sched)
    requires (s.current == IDLE || s.current in s.ready) && r.ready == s.ready && r.current == s.current
    ensures Turns(r) == Turns(s)
  {
  }

  lemma InsertKeeps(ready: seq<int>, x: int, q: int, p: int)
    requires (x == IDLE || x in ready) && p in ready
    ensures p in InsertBefore(ready, x, q)
  {
    assert p in multiset(ready);
    assert p in multiset(InsertBefore(ready, x, q));
  }

  lemma ExitIndex(s: Sched, q: int, p: int)
    requires Inv(s) && q in s.ready && q != s.current && p in s.ready && p != q && p in Turns(s)
    ensures var r := Remove(s, q);
            && p in r.ready && (r.current == IDLE || r.current in r.ready)
            && p in Turns(r) && IndexOf(Turns(r), p) <= IndexOf(Turns(s), p)
  {
    ReadyNoDup(s);
    WithoutIndex(s.ready, q, p);
    hide Turns, IndexOf, Without, NoDup, Placed;
    RemoveTurns(s, q);
    WithoutIndex(Turns(s), q, p);
  }

  lemma WakeIndex(s: Sched, q: int, p: int)
    requires Inv(s) && q in s.wait && p in s.ready && p != s.current
    ensures var r := Wakeup(s, q);
            && (r.current == IDLE || r.current in r.ready)
            && p in Turns(s) && p in Turns(r) && IndexOf(Turns(r), p) == IndexOf(Turns(s), p)
  {
    InTurn(s, p);
    hide Wakeup, Turns, IndexOf, Placed;
    WakeTurns(s, q);
    WokenIndex(Turns(s), Turns(Wakeup(s, q)), s.current, p, q);
  }

  lemma InTurn(s: Sched, p: int)
    requires Inv(s) && p in s.ready && p != s.current
    ensures p in Turns(s) && |Turns(s)| == |s.ready| && (s.current != IDLE ==> Turns(s)[|s.ready| - 1] != p)
  {
    ReadyNoDup(s);
    TurnsMembers(s);
    hide Turns, Placed, NoDup;
  }

  lemma WokenIndex(t: seq<int>, u: seq<int>, cur: int, p: int, q: int)
    requires p in t && (u == t + [q] || (t[|t| - 1] != p && u == t[..|t| - 1] + [q, cur]))
    ensures p in u && IndexOf(u, p) == IndexOf(t, p)
  {
    if u == t + [q] {
      PrefixIndex(t, u, p, |t|);
    } else {
      LastStays(t, p);
      PrefixIndex(t, u, p, |t| - 1);
    }
  }

  // Whole runs.

  ghost predicate Feasible(s: Sched, es: seq<Event>)
    requires Inv(s)
    decreases |es|
  {
    es == [] || (Enabled(s, es[0]) && (StepKeepsInv(s, es[0]); Feasible(Step(s, es[0]), es[1..])))
  }

  ghost function After(s: Sched, es: seq<Event>): (r: Sched)
    requires Inv(s) && Feasible(s, es)
    decreases |es|
  {
    if es == [] then s else StepKeepsInv(s, es[0]); After(Step(s, es[0]), es[1..])
  }

  ghost function CallCount(es: seq<Event>): nat {
    if es == [] then 0 else (if Calls(es[0]) then 1 else 0) + CallCount(es[1..])
  }

  /** Over every run: a process is in at most one ring, none gets lost, and the running process is ready. */
  lemma {:induction false} RunKeepsInv(s: Sched, es: seq<Event>)
    requires Inv(s) && Feasible(s, es)
    ensures Inv(After(s, es)) && Everyone(After(s, es)) == Everyone(s)
    ensures After(s, es).current != IDLE ==> After(s, es).current !in After(s, es).wait
    decreases |es|
  {
    if es == [] {
      ReadyNoDup(s);
    } else {
      StepKeepsInv(s, es[0]);
      StepKeepsEveryone(s, es[0]);
      RunKeepsInv(Step(s, es[0]), es[1..]);
    }
  }

  /** Bounded waiting: whatever sleeps, wake-ups, creations and exits of others happen in between, a ready process
      d places from its turn has run by the d-th schedule() call. */
  lemma {:induction false} BoundedWaiting(s: Sched, es: seq<Event>, p: int)
    returns (n: nat)
    requires Inv(s) && Feasible(s, es) && p in s.ready && p != s.current && Exit(p) !in es
    requires CallCount(es) >= Distance(s, p)
    ensures 0 < n <= |es| && Feasible(s, es[..n])
    ensures After(s, es[..n]).current == p && CallCount(es[..n]) <= Distance(s, p)
    decreases |es|
  {
    hide Inv, Distance, Step, Enabled;
    var e := es[0];
    StepKeepsInv(s, e);
    var r := Step(s, e);
    assert es[..1] == [e];
    if Calls(e) {
      CallStep(s, e, p);
      if Distance(s, p) == 1 {
        n := 1;
        assert es[..1][1..] == [];
        return;
      }
    } else {
      QuietStep(s, e, p);
    }
    NotRunning(r, p, s, e);
    var m := BoundedWaiting(r, es[1..], p);
    n := m + 1;
    assert es[..n][0] == e && es[..n][1..] == es[1..][..m];
  }

  lemma NotRunning(r: Sched, p: int, s: Sched, e: Event)
    requires Inv(s) && Enabled(s, e) && p in s.ready && p != s.current && e != Exit(p) && r == Step(s, e)
    requires Calls(e) ==> Distance(s, p) > 1
    ensures Inv(r) && p in r.ready && p != r.current
    ensures Distance(r, p) + (if Calls(e) then 1 else 0) <= Distance(s, p)
  {
    if Calls(e) { CallStep(s, e, p); } else { QuietStep(s, e, p); }
  }
}
