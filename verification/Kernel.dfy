/** Message passing over the scheduler: senders and interrupt handlers wake blocked receivers, receivers sleep
    inside receive; processes are created, replaced by exec and removed while messages are under way. The kernel runs
    with interrupts off except across sleep(), so each event is atomic and a receive is cut into two events exactly
    when its first P sleeps. */
module Kernel {
  import opened Processes
  import S = Scheduler
  import M = Mailbox

  /** Rings and mailboxes; for each process where it stands in receive; and, as history, the messages sent to it
      and the messages it has received since its mailbox was last initialised, and those from before. */
  datatype State = State(sched: S.Sched, boxes: seq<M.Box>, phases: seq<M.Phase>,
                         sent: seq<seq<M.Msg>>, received: seq<seq<M.Msg>>, past: seq<Past>)

  /** What went through a mailbox before its last init_msg, and what that and earlier ones dropped. */
  datatype Past = Past(sent: multiset<M.Msg>, received: multiset<M.Msg>, lost: multiset<M.Msg>)

  /** Besides the timer, send and the two halves of receive: create_kthread; the two halves of create_process and of
      fork; a wakeup from outside V; a successful exec; exit; and a thread function returning. */
  datatype Event =
    | Tick | Send(dest: int, m: M.Msg) | Receive(src: int) | Resume
    | Spawn | Reserve | Admit(p: int) | Wake(p: int) | Exec(p: int) | Exit(p: int) | Return

  ghost predicate Shape(k: State) {
    |k.boxes| == |k.phases| == |k.sent| == |k.received| == |k.past| == POOL_NUM
  }

  /** Out of service: exited, or never started, or about to be started. Its mailbox is whatever was left behind. */
  predicate Dead(s: S.Sched, p: int) { p in s.free || p in s.taken }

  /** Process p: its mailbox is in step; in service, it sleeps while blocked inside receive and is ready once its
      ticket is granted; and what was sent to it is what it received followed by what is queued, sender by sender and
      all in all, and with the messages of former lives and those lost between them. */
  ghost predicate ProcInv(k: State, p: int)
    requires Shape(k) && IsPid(p)
  {
    && M.Inv(p, k.boxes[p], k.phases[p])
    && Place(k, p)
    && History(k, p)
    && Ledger(k, p)
  }

  ghost predicate Ledger(k: State, p: int)
    requires Shape(k) && IsPid(p)
  {
    k.past[p].sent == k.past[p].received + k.past[p].lost
  }

  predicate Place(k: State, p: int)
    requires |k.boxes| == |k.phases| == POOL_NUM && IsPid(p)
  {
    && (M.Blocked(k.boxes[p], k.phases[p]) ==> p in k.sched.wait || Dead(k.sched, p))
    && (!k.phases[p].Outside? && !M.Blocked(k.boxes[p], k.phases[p]) ==> p in k.sched.ready || Dead(k.sched, p))
  }

  ghost predicate History(k: State, p: int)
    requires Shape(k) && IsPid(p)
  {
    && (forall src :: M.From(k.sent[p], src) == M.From(k.received[p], src) + M.From(k.boxes[p].queue, src))
    && multiset(k.sent[p]) == multiset(k.received[p]) + multiset(k.boxes[p].queue)
  }

  ghost predicate Inv(k: State) {
    Shape(k) && S.Inv(k.sched) && forall p :: IsPid(p) ==> ProcInv(k, p)
  }

  /** What the source demands: a free message slot at a send; no receive inside a receive; a free PCB for a new
      process; a process woken by hand does not sleep inside receive (callers wake what they have just created); exec
      and exit concern a process other than the process manager that carries them out. */
  predicate Enabled(k: State, e: Event) {
    match e
    case Tick => true
    case Send(dest, m) => IsPid(dest) && dest < |k.boxes| && k.boxes[dest].free > 0 && M.ValidSrc(m.src)
    case Receive(src) =>
      IsPid(k.sched.current) && k.sched.current < |k.phases| && k.phases[k.sched.current].Outside? &&
      (src == M.ANY || M.ValidSrc(src))
    case Resume => IsPid(k.sched.current) && k.sched.current < |k.phases| && !k.phases[k.sched.current].Outside?
    case Spawn => k.sched.free != []
    case Reserve => k.sched.free != []
    case Admit(p) => IsPid(p) && p in k.sched.taken
    case Wake(p) => IsPid(p) && p < |k.boxes| && p < |k.phases| && !M.Blocked(k.boxes[p], k.phases[p])
    case Exec(p) => IsPid(p) && p != k.sched.current
    case Exit(p) => IsPid(p) && p != k.sched.current && (p in k.sched.ready || p in k.sched.wait)
    case Return => IsPid(k.sched.current) && k.sched.current < |k.phases| && k.phases[k.sched.current].Outside?
  }

  /** init_msg: whatever is queued is gone, whoever was blocked is forgotten. */
  ghost function Reinit(k: State, p: int): (r: State)
    requires Shape(k) && IsPid(p)
    ensures Shape(r) && r.sched == k.sched
  {
    var was := k.past[p];
    var now := Past(was.sent + multiset(k.sent[p]), was.received + multiset(k.received[p]),
                    was.lost + multiset(k.boxes[p].queue));
    k.(boxes := k.boxes[p := M.InitBox()], phases := k.phases[p := M.Outside],
       sent := k.sent[p := []], received := k.received[p := []], past := k.past[p := now])
  }

  /** Whose mailbox an event initialises. */
  ghost function Reborn(k: State, e: Event): set<int>
    requires Enabled(k, e)
  {
    match e
    case Spawn => {k.sched.free[0]}
    case Admit(p) => {p}
    case Exec(p) => {p}
    case _ => {}
  }

  lemma FreeIsPid(s: S.Sched)
    requires S.Inv(s) && s.free != []
    ensures IsPid(s.free[0])
  {
    assert s.free[0] in multiset(s.free);
    assert s.free[0] in S.Everyone(s);
  }

  /** Process p takes a message and leaves receive. */
  ghost function TakeStep(k: State, p: int, b: M.Box, ph: M.Phase): (r: State)
    requires Shape(k) && IsPid(p)
    requires b.queue != [] && |b.pidSem| == POOL_NUM + 1 && !ph.Outside?
    requires ph.InAny? ==> M.ValidSrc(b.queue[0].src)
  {
    var (b', _, m) := M.Take(b, p, ph);
    k.(boxes := k.boxes[p := b'], phases := k.phases[p := M.Outside],
       received := k.received[p := k.received[p] + [m]])
  }

  lemma RunningNotBlocked(k: State)
    requires Inv(k) && IsPid(k.sched.current)
    ensures k.sched.current in k.sched.ready && !M.Blocked(k.boxes[k.sched.current], k.phases[k.sched.current])
  {
    S.ReadyNoDup(k.sched);
    assert ProcInv(k, k.sched.current);
  }

  ghost function Step(k: State, e: Event): (r: State)
    requires Inv(k) && Enabled(k, e)
  {
    match e
    case Tick => k.(sched := S.Step(k.sched, S.Tick))
    case Send(p, m) =>
      assert ProcInv(k, p);
      M.SendWakes(p, k.boxes[p], k.phases[p], m);
      var (b, w1, w2) := M.Send(k.boxes[p], m);
      var s := if w1.Some? then S.Wakeup(k.sched, w1.value)
               else if w2.Some? then S.Wakeup(k.sched, w2.value)
               else k.sched;
      k.(sched := s, boxes := k.boxes[p := b], sent := k.sent[p := k.sent[p] + [m]])
    case Receive(src) =>
      var p := k.sched.current;
      assert ProcInv(k, p);
      RunningNotBlocked(k);
      M.AskKeepsInv(p, k.boxes[p], src);
      var (b, ph, sleeps) := M.Ask(k.boxes[p], p, src);
      if sleeps then
        k.(sched := S.Step(k.sched, S.Sleep), boxes := k.boxes[p := b], phases := k.phases[p := ph])
      else
        M.TicketMeansMessage(p, b, ph);
        TakeStep(k, p, b, ph)
    case Resume =>
      var p := k.sched.current;
      assert ProcInv(k, p);
      RunningNotBlocked(k);
      M.TicketMeansMessage(p, k.boxes[p], k.phases[p]);
      TakeStep(k, p, k.boxes[p], k.phases[p])
    case Spawn => FreeIsPid(k.sched); Reinit(k, k.sched.free[0]).(sched := S.Step(k.sched, S.Spawn))
    case Reserve => k.(sched := S.Step(k.sched, S.Reserve))
    case Admit(p) => Reinit(k, p).(sched := S.Step(k.sched, S.Admit(p)))
    case Wake(p) => k.(sched := S.Step(k.sched, S.Wake(p)))
    case Exec(p) => Reinit(k, p).(sched := S.Step(k.sched, S.Wake(p)))
    case Exit(p) => k.(sched := S.Step(k.sched, S.Exit(p)))
    case Return => RunningNotBlocked(k); k.(sched := S.Step(k.sched, S.Return))
  }

  lemma {:induction false} HistoryAppend(k: State, k': State, p: int, m: M.Msg)
    requires Shape(k) && Shape(k') && IsPid(p) && History(k, p)
    requires k'.received[p] == k.received[p] && k'.sent[p] == k.sent[p] + [m]
    requires k'.boxes[p].queue == k.boxes[p].queue + [m]
    ensures History(k', p)
  {
    forall src ensures M.From(k'.sent[p], src) == M.From(k'.received[p], src) + M.From(k'.boxes[p].queue, src) {
      M.FromAppend(k.sent[p], [m], src);
      M.FromAppend(k.boxes[p].queue, [m], src);
    }
  }

  lemma HistoryTake(k: State, k': State, p: int, i: nat)
    requires Shape(k) && Shape(k') && IsPid(p) && History(k, p) && k'.sent[p] == k.sent[p]
    requires i < |k.boxes[p].queue| && (forall j :: 0 <= j < i ==> k.boxes[p].queue[j].src != k.boxes[p].queue[i].src)
    requires k'.received[p] == k.received[p] + [k.boxes[p].queue[i]]
    requires k'.boxes[p].queue == M.RemoveAt(k.boxes[p].queue, i)
    ensures History(k', p)
  {
    var q, m := k.boxes[p].queue, k.boxes[p].queue[i];
    forall src ensures M.From(k'.sent[p], src) == M.From(k'.received[p], src) + M.From(k'.boxes[p].queue, src) {
      M.FromRemove(q, i, src);
      M.FromAppend(k.received[p], [m], src);
      M.FromOne(m, src);
    }
    assert q == q[..i] + [m] + q[i + 1..];
  }

  /** An event that leaves p's mailbox alone and does not move p. */
  lemma OtherProc(k: State, k': State, p: int)
    requires Shape(k) && Shape(k') && IsPid(p) && ProcInv(k, p)
    requires k'.boxes[p] == k.boxes[p] && k'.phases[p] == k.phases[p]
    requires k'.sent[p] == k.sent[p] && k'.received[p] == k.received[p] && k'.past[p] == k.past[p]
    requires p in k.sched.wait ==> p in k'.sched.wait
    requires p in k.sched.ready ==> p in k'.sched.ready
    requires Dead(k.sched, p) ==> Dead(k'.sched, p)
    ensures ProcInv(k', p)
  {
    hide M.Inv, M.From;
  }

  lemma WithoutMember(s: seq<int>, x: int, y: int)
    requires x in s && y != x
    ensures y in s <==> y in S.Without(s, x)
  {
    S.WithoutCount(s, x);
    assert y in s <==> y in multiset(s);
    assert y in S.Without(s, x) <==> y in multiset(S.Without(s, x));
  }

  /** The process that an event of the scheduler moves, if any. */
  function Mover(s: S.Sched, e: S.Event): (p: int)
    requires S.Enabled(s, e)
  {
    match e
    case Tick => S.IDLE
    case Sleep => s.current
    case Wake(p) => p
    case Spawn => s.free[0]
    case Reserve => s.free[0]
    case Admit(p) => p
    case Return => s.current
    case Exit(p) => p
  }

  /** Everybody else stays in the same ring. */
  lemma OthersStay(s: S.Sched, e: S.Event, q: int)
    requires S.Inv(s) && S.Enabled(s, e) && q != Mover(s, e)
    ensures var r := S.Step(s, e);
            && (q in s.wait <==> q in r.wait) && (q in s.ready <==> q in r.ready)
            && (q in s.free <==> q in r.free) && (q in s.taken <==> q in r.taken) && (Dead(s, q) <==> Dead(r, q))
  {
    hide S.Inv, S.Next, S.Without, S.Prev, S.InsertBefore;
    match e {
      case Sleep => WithoutMember(s.ready, s.current, q);
      case Return => WithoutMember(s.ready, s.current, q);
      case Wake(p) => if p in s.wait { WithoutMember(s.wait, p, q); S.InvCurrent(s); InsertMember(s, p, q); }
      case Spawn => assert s.free == [s.free[0]] + s.free[1..];
      case Reserve => assert s.free == [s.free[0]] + s.free[1..];
      case Admit(p) => WithoutMember(s.taken, p, q);
      case Exit(p) => WithoutMember(if p in s.ready then s.ready else s.wait, p, q);
      case Tick =>
    }
  }

  lemma InsertMember(s: S.Sched, p: int, q: int)
    requires s.current == S.IDLE || s.current in s.ready
    ensures q in S.InsertBefore(s.ready, s.current, p) <==> q in s.ready || q == p
  {
    var r := S.InsertBefore(s.ready, s.current, p);
    assert forall x :: x in r <==> x in multiset(r);
    assert forall x :: x in s.ready <==> x in multiset(s.ready);
  }

  /** Where the one that moves goes. */
  lemma MoverGoes(s: S.Sched, e: S.Event)
    requires S.Inv(s) && S.Enabled(s, e)
    ensures var p, r := Mover(s, e), S.Step(s, e);
            match e
            case Tick => true
            case Sleep => p in r.wait
            case Wake(_) => if p in s.wait then p in r.ready else r == s
            case Spawn => p in r.wait
            case Reserve => p in r.taken
            case Admit(_) => p in r.wait
            case Return => p in r.free
            case Exit(_) => p in r.free
  {
    hide S.Inv, S.Next, S.Without, S.Prev, S.InsertBefore;
    if e.Wake? && e.p in s.wait { S.InvCurrent(s); InsertMember(s, e.p, e.p); }
  }

  lemma SendStep(k: State, p: int, m: M.Msg)
    requires Inv(k) && Enabled(k, Send(p, m))
    ensures Inv(Step(k, Send(p, m)))
  {
    var k' := Step(k, Send(p, m));
    SendParts(k, p, m);
    SendRings(k, p, m);
    assert ProcInv(k, p);
    S.StepKeepsInv(k.sched, S.Wake(p));
    HistoryAppend(k, k', p, m);
    hide Step, M.Inv, M.From, M.V, S.Inv, S.Wakeup, History, S.Step, M.Blocked, Dead;
    forall q | IsPid(q) ensures ProcInv(k', q) {
      if q != p { assert ProcInv(k, q); OtherProc(k, k', q); }
    }
  }

  lemma SendParts(k: State, p: int, m: M.Msg)
    requires Inv(k) && Enabled(k, Send(p, m))
    ensures var k' := Step(k, Send(p, m));
            && Shape(k')
            && (forall q :: IsPid(q) && q != p ==> k'.boxes[q] == k.boxes[q] && k'.sent[q] == k.sent[q])
            && k'.phases == k.phases && k'.received == k.received && k'.past == k.past
            && k'.boxes[p].queue == k.boxes[p].queue + [m] && k'.sent[p] == k.sent[p] + [m]
            && M.Inv(p, k'.boxes[p], k'.phases[p])
  {
    assert ProcInv(k, p);
    M.SendKeepsInv(p, k.boxes[p], k.phases[p], m);
    hide M.Inv, M.From, M.V, S.Wakeup, S.Inv, M.Blocked, History;
  }

  /** Whether a send wakes its receiver. */
  ghost predicate Wakes(k: State, p: int, m: M.Msg)
    requires |k.boxes| == |k.phases| == POOL_NUM && IsPid(p)
  {
    M.Blocked(k.boxes[p], k.phases[p]) && (k.phases[p] == M.InAny || k.phases[p] == M.InFrom(m.src))
  }

  lemma SendSched(k: State, p: int, m: M.Msg)
    requires Inv(k) && Enabled(k, Send(p, m))
    ensures var k' := Step(k, Send(p, m));
            && Shape(k) && Shape(k') && (k.sched.current == S.IDLE || k.sched.current in k.sched.ready)
            && k'.sched == (if Wakes(k, p, m) then S.Wakeup(k.sched, p) else k.sched)
            && k'.phases == k.phases
            && (M.Blocked(k'.boxes[p], k'.phases[p]) <==> M.Blocked(k.boxes[p], k.phases[p]) && !Wakes(k, p, m))
  {
    assert ProcInv(k, p);
    M.SendWakes(p, k.boxes[p], k.phases[p], m);
    hide M.Inv, M.From, M.V, S.Wakeup, S.Placed, M.Blocked, History, M.Send, Place;
  }

  /** A send moves the receiver from the wait to the ready ring when it wakes it, and nobody else. */
  lemma SendRings(k: State, p: int, m: M.Msg)
    requires Inv(k) && Enabled(k, Send(p, m))
    ensures var k' := Step(k, Send(p, m));
            && Shape(k') && Place(k', p)
            && (k'.sched == k.sched || k'.sched == S.Step(k.sched, S.Wake(p)))
            && (forall q :: q != p ==>
                (q in k.sched.wait <==> q in k'.sched.wait) && (q in k.sched.ready <==> q in k'.sched.ready)
                                       && (Dead(k.sched, q) <==> Dead(k'.sched, q)))
  {
    KnowsSched(k);
    SendSched(k, p, m);
    assert Place(k, p) by { assert ProcInv(k, p); }
    MoverGoes(k.sched, S.Wake(p));
    WakeDead(k.sched, p);
    var r := S.Wakeup(k.sched, p);
    forall q | q != p
      ensures (q in k.sched.wait <==> q in r.wait) && (q in k.sched.ready <==> q in r.ready) &&
              (Dead(k.sched, q) <==> Dead(r, q))
    {
      OthersStay(k.sched, S.Wake(p), q);
    }
    hide Inv, Step, Enabled, M.Blocked, S.Wakeup, S.Inv, Dead, Wakes;
  }

  /** wakeup looks at the wait and ready rings only. */
  lemma WakeDead(s: S.Sched, p: int)
    requires S.Inv(s)
    ensures Dead(S.Step(s, S.Wake(p)), p) <==> Dead(s, p)
  {
  }

  /** Taking a message: the second P of receive does not sleep, and the invariant holds again. */
  lemma TakeInv(k: State, p: int, b: M.Box, ph: M.Phase)
    requires Shape(k) && S.Inv(k.sched) && IsPid(p) && M.Inv(p, b, ph) && !ph.Outside? && !M.Blocked(b, ph)
    requires b.queue == k.boxes[p].queue && History(k, p) && Ledger(k, p)
    requires forall q :: IsPid(q) && q != p ==> ProcInv(k, q)
    ensures b.queue != [] && (ph.InAny? ==> M.ValidSrc(b.queue[0].src))
    ensures !M.Take(b, p, ph).1 && Inv(TakeStep(k, p, b, ph))
  {
    TakeProc(k, p, b, ph);
    var k' := TakeStep(k, p, b, ph);
    hide M.Inv, M.Take, ProcInv, S.Inv, M.Blocked, History, Ledger;
    forall q | IsPid(q) ensures ProcInv(k', q) {
      if q != p { assert ProcInv(k, q); OtherProc(k, k', q); }
    }
  }

  lemma TakeProc(k: State, p: int, b: M.Box, ph: M.Phase)
    requires Shape(k) && IsPid(p) && M.Inv(p, b, ph) && !ph.Outside? && !M.Blocked(b, ph)
    requires b.queue == k.boxes[p].queue && History(k, p) && Ledger(k, p)
    ensures b.queue != [] && (ph.InAny? ==> M.ValidSrc(b.queue[0].src))
    ensures !M.Take(b, p, ph).1 && ProcInv(TakeStep(k, p, b, ph), p)
  {
    hide M.Inv, M.From, M.Take, M.RemoveAt, History, M.ValidSrc;
    var i := Taken(p, b, ph);
    HistoryTake(k, TakeStep(k, p, b, ph), p, i);
  }

  lemma Taken(p: int, b: M.Box, ph: M.Phase) returns (i: nat)
    requires M.Inv(p, b, ph) && !ph.Outside? && !M.Blocked(b, ph)
    ensures |b.pidSem| == POOL_NUM + 1 && i < |b.queue| && (ph.InAny? ==> M.ValidSrc(b.queue[0].src))
    ensures var (b', sleeps, m) := M.Take(b, p, ph);
            !sleeps && M.Inv(p, b', M.Outside) && m == b.queue[i] && b'.queue == M.RemoveAt(b.queue, i)
    ensures forall j :: 0 <= j < i ==> b.queue[j].src != b.queue[i].src
  {
    M.TakeKeepsInv(p, b, ph);
    i := M.Choice(b.queue, ph);
    hide M.Take, M.RemoveAt;
  }

  lemma ReceiveStep(k: State, src: int)
    requires Inv(k) && Enabled(k, Receive(src))
    ensures Inv(Step(k, Receive(src)))
  {
    var p := k.sched.current;
    assert ProcInv(k, p);
    RunningNotBlocked(k);
    M.AskKeepsInv(p, k.boxes[p], src);
    var (b, ph, sleeps) := M.Ask(k.boxes[p], p, src);
    hide M.Inv, M.From, M.Ask, S.Step, S.Inv;
    if sleeps { SleepStep(k, b, ph); } else { TakeInv(k, p, b, ph); }
  }

  lemma SameHistory(k: State, k': State, p: int)
    requires Shape(k) && Shape(k') && IsPid(p) && History(k, p) && Ledger(k, p)
    requires k'.boxes[p].queue == k.boxes[p].queue && k'.sent == k.sent && k'.received == k.received &&
             k'.past == k.past
    ensures History(k', p) && Ledger(k', p)
  {
    hide M.From;
  }

  lemma SleepStep(k: State, b: M.Box, ph: M.Phase)
    requires Inv(k) && IsPid(k.sched.current) && k.sched.current in k.sched.ready
    requires M.Inv(k.sched.current, b, ph) && M.Blocked(b, ph) && b.queue == k.boxes[k.sched.current].queue
    ensures var p := k.sched.current;
            Inv(k.(sched := S.Step(k.sched, S.Sleep), boxes := k.boxes[p := b], phases := k.phases[p := ph]))
  {
    var p := k.sched.current;
    var m := k.(boxes := k.boxes[p := b], phases := k.phases[p := ph]);
    hide M.Inv, S.Step, S.Inv, M.Blocked, ProcInv;
    assert ProcInv(k, p);
    SleepProc(k, m, p);
    MoveStep(k, m, S.Sleep, p);
  }

  lemma SleepProc(k: State, m: State, p: int)
    requires Shape(k) && Shape(m) && S.Inv(k.sched) && IsPid(p) && ProcInv(k, p) && p == k.sched.current &&
             p in k.sched.ready
    requires m == k.(boxes := m.boxes, phases := m.phases)
    requires M.Inv(p, m.boxes[p], m.phases[p]) && m.boxes[p].queue == k.boxes[p].queue
    requires M.Blocked(m.boxes[p], m.phases[p])
    ensures p == Mover(k.sched, S.Sleep) && ProcInv(m.(sched := S.Step(k.sched, S.Sleep)), p)
  {
    MoverGoes(k.sched, S.Sleep);
    hide M.Inv, M.Blocked, History, Ledger, S.Step, S.Inv;
    SameHistory(k, m.(sched := S.Step(k.sched, S.Sleep)), p);
  }

  /** A move in the rings, with or without a change of the mailbox of the process that moves. */
  lemma MoveStep(k: State, m: State, se: S.Event, p: int)
    requires Inv(k) && S.Enabled(k.sched, se) && p == Mover(k.sched, se) && IsPid(p)
    requires Shape(m) && m.sched == k.sched && forall q :: IsPid(q) && q != p ==> SameBox(k, m, q)
    requires ProcInv(m.(sched := S.Step(k.sched, se)), p)
    ensures Inv(m.(sched := S.Step(k.sched, se)))
  {
    hide ProcInv, S.Step, S.Inv, Dead, Mover, S.Enabled;
    var k' := m.(sched := S.Step(k.sched, se));
    S.StepKeepsInv(k.sched, se);
    forall q | IsPid(q) ensures ProcInv(k', q) {
      if q != p {
        assert ProcInv(k, q) && SameBox(k, m, q);
        OthersStay(k.sched, se, q);
        OtherProc(k, k', q);
      }
    }
  }

  ghost predicate SameBox(k: State, m: State, q: int)
    requires Shape(k) && Shape(m) && IsPid(q)
  {
    && m.boxes[q] == k.boxes[q] && m.phases[q] == k.phases[q]
    && m.sent[q] == k.sent[q] && m.received[q] == k.received[q] && m.past[q] == k.past[q]
  }

  /** init_msg alone leaves a mailbox in step, and nothing that would be out of step elsewhere. */
  lemma ReinitProc(k: State, k': State, p: int)
    requires Inv(k) && Shape(k') && IsPid(p) && k' == Reinit(k, p).(sched := k'.sched)
    ensures ProcInv(k', p)
  {
    assert ProcInv(k, p);
    M.InitInv(p);
    Carried(k.past[p].sent, k.past[p].received, k.past[p].lost, k.sent[p], k.received[p], k.boxes[p].queue);
    hide M.Inv, S.Inv, Dead;
  }

  lemma Carried(s: multiset<M.Msg>, r: multiset<M.Msg>, l: multiset<M.Msg>, sent: seq<M.Msg>, received: seq<M.Msg>,
                q: seq<M.Msg>)
    requires s == r + l && multiset(sent) == multiset(received) + multiset(q)
    ensures s + multiset(sent) == (r + multiset(received)) + (l + multiset(q))
  {
  }

  /** A move in the rings, with or without a new mailbox for the process that moves. */
  lemma LifeStep(k: State, se: S.Event, p: int, reborn: bool)
    requires Inv(k) && S.Enabled(k.sched, se) && p == Mover(k.sched, se) && IsPid(p)
    requires reborn || Place(k.(sched := S.Step(k.sched, se)), p)
    ensures Inv((if reborn then Reinit(k, p) else k).(sched := S.Step(k.sched, se)))
  {
    var m := if reborn then Reinit(k, p) else k;
    assert forall q :: IsPid(q) && q != p ==> SameBox(k, m, q);
    var k' := m.(sched := S.Step(k.sched, se));
    hide M.Inv, M.From, S.Step, S.Inv, Dead, Mover, Reinit, History, Ledger, Place, S.Enabled, SameBox;
    if reborn { ReinitProc(k, k', p); } else { assert ProcInv(k, p); SamePlace(k, k', p); }
    MoveStep(k, m, se, p);
  }

  lemma SamePlace(k: State, k': State, p: int)
    requires Shape(k) && IsPid(p) && ProcInv(k, p) && k' == k.(sched := k'.sched) && Place(k', p)
    ensures ProcInv(k', p)
  {
    hide M.Inv, M.From, Place;
  }

  /** Every event keeps the kernel invariant. */
  lemma StepKeepsInv(k: State, e: Event)
    requires Inv(k) && Enabled(k, e)
    ensures Inv(Step(k, e))
  {
    hide S.Step, S.Placed;
    match e
    case Send(p, m) => SendStep(k, p, m);
    case Receive(src) => ReceiveStep(k, src);
    case Resume => ResumeStep(k);
    case Tick => TickStep(k);
    case Spawn => FreeIsPid(k.sched); LifeStep(k, S.Spawn, k.sched.free[0], true);
    case Reserve => FreeIsPid(k.sched); MoverGoes(k.sched, S.Reserve); LifeStep(k, S.Reserve, k.sched.free[0], false);
    case Admit(p) => LifeStep(k, S.Admit(p), p, true);
    case Wake(p) => WakePlace(k, p); LifeStep(k, S.Wake(p), p, false);
    case Exec(p) => LifeStep(k, S.Wake(p), p, true);
    case Exit(p) => MoverGoes(k.sched, S.Exit(p)); LifeStep(k, S.Exit(p), p, false);
    case Return => RunningNotBlocked(k); MoverGoes(k.sched, S.Return); LifeStep(k, S.Return, k.sched.current, false);
  }

  lemma ResumeStep(k: State)
    requires Inv(k) && Enabled(k, Resume)
    ensures Inv(Step(k, Resume))
  {
    var p := k.sched.current;
    assert ProcInv(k, p);
    RunningNotBlocked(k);
    hide M.Inv, M.From, S.Placed, M.Blocked, M.Take;
    TakeInv(k, p, k.boxes[p], k.phases[p]);
  }

  lemma TickStep(k: State)
    requires Inv(k)
    ensures Inv(Step(k, Tick))
  {
    S.StepKeepsInv(k.sched, S.Tick);
    var k' := Step(k, Tick);
    hide M.Inv, M.From, S.Inv, M.Blocked;
    forall q | IsPid(q) ensures ProcInv(k', q) { assert ProcInv(k, q); OtherProc(k, k', q); }
  }

  lemma WakePlace(k: State, p: int)
    requires Inv(k) && Enabled(k, Wake(p))
    ensures Place(k.(sched := S.Step(k.sched, S.Wake(p))), p)
  {
    assert ProcInv(k, p);
    MoverGoes(k.sched, S.Wake(p));
    WakeDead(k.sched, p);
    hide M.Inv, M.From, S.Step, S.Inv, M.Blocked, Dead;
  }

  /** The kernel at boot: every mailbox empty, nobody inside receive, nothing sent yet. */
  ghost function InitState(s: S.Sched): State {
    State(s, seq(POOL_NUM, _ => M.InitBox()), seq(POOL_NUM, _ => M.Outside), seq(POOL_NUM, _ => []),
          seq(POOL_NUM, _ => []), seq(POOL_NUM, _ => Past(multiset{}, multiset{}, multiset{})))
  }

  lemma InitInv(s: S.Sched)
    requires S.Inv(s)
    ensures Inv(InitState(s))
  {
    forall p | IsPid(p) ensures ProcInv(InitState(s), p) { M.InitInv(p); }
  }

  // Whole runs.

  ghost predicate Feasible(k: State, es: seq<Event>)
    requires Inv(k)
    decreases |es|
  {
    es == [] || (Enabled(k, es[0]) && (StepKeepsInv(k, es[0]); Feasible(Step(k, es[0]), es[1..])))
  }

  ghost function After(k: State, es: seq<Event>): (r: State)
    requires Inv(k) && Feasible(k, es)
    ensures Inv(r)
    decreases |es|
  {
    if es == [] then k else StepKeepsInv(k, es[0]); After(Step(k, es[0]), es[1..])
  }

  /** From boot, over every run of sends, receives, creations, execs and exits in which no mailbox is full at a send:
      for each receiver, what each sender sent since the mailbox was last initialised is what was received from it
      followed by what is queued, in order; all in all every message ever sent is received, queued, or was dropped by
      an init_msg; free and queued slots add up to MSG_NUM; and whoever is blocked sleeps, or is out of service. */
  lemma MessagesConserved(s: S.Sched, es: seq<Event>, p: int)
    requires S.Inv(s) && Inv(InitState(s)) && Feasible(InitState(s), es) && IsPid(p)
    ensures var k := After(InitState(s), es);
            && Shape(k)
            && (forall src :: M.From(k.sent[p], src) == M.From(k.received[p], src) + M.From(k.boxes[p].queue, src))
            && k.past[p].sent + multiset(k.sent[p]) ==
               k.past[p].received + multiset(k.received[p]) + multiset(k.boxes[p].queue) + k.past[p].lost
            && k.boxes[p].free + |k.boxes[p].queue| == M.MSG_NUM
            && (M.Blocked(k.boxes[p], k.phases[p]) ==> p != k.sched.current && (p in k.sched.wait || Dead(k.sched, p)))
  {
    hide M.From, S.Inv, M.Blocked, After, InitState, Feasible;
    var k := After(InitState(s), es);
    assert ProcInv(k, p);
    if p == k.sched.current { RunningNotBlocked(k); }
  }

  /** A message is dropped by an event exactly when the event initialises a mailbox that is not empty. */
  lemma LossExact(k: State, e: Event, p: int)
    requires Inv(k) && Enabled(k, e) && IsPid(p)
    ensures Shape(k) && Shape(Step(k, e))
    ensures Step(k, e).past[p].lost == k.past[p].lost <==> p !in Reborn(k, e) || k.boxes[p].queue == []
    ensures Step(k, e).past[p].lost ==
            k.past[p].lost + if p in Reborn(k, e) then multiset(k.boxes[p].queue) else multiset{}
  {
    PastAfter(k, e, p);
    AddsNothing(k.past[p].lost, k.boxes[p].queue);
  }

  lemma AddsNothing(a: multiset<M.Msg>, q: seq<M.Msg>)
    ensures a + multiset(q) == a <==> q == []
  {
    if q != [] {
      assert q[0] in multiset(q);
      assert (a + multiset(q))[q[0]] > a[q[0]];
    }
  }

  /** What an event does to a process's former lives, and to its queue if it starts a new one. */
  lemma PastAfter(k: State, e: Event, p: int)
    requires Inv(k) && Enabled(k, e) && IsPid(p)
    ensures var r := Step(k, e);
            && Shape(k) && Shape(r)
            && (p in Reborn(k, e) ==> r.past[p] == Reinit(k, p).past[p] && r.boxes[p].queue == [])
            && (p !in Reborn(k, e) ==> r.past[p] == k.past[p])
  {
    KnowsSched(k);
    hide ProcInv, S.Step, S.Placed, M.Send, M.Take, M.Ask, M.Blocked, S.Wakeup;
    match e {
      case Receive(src) => TakePast(k, src);
      case Send(q, m) => SendParts(k, q, m); hide Step;
      case Resume => ResumePast(k);
      case Spawn => FreeIsPid(k.sched);
      case _ =>
    }
  }

  lemma ResumePast(k: State)
    requires Inv(k) && Enabled(k, Resume)
    ensures Shape(Step(k, Resume)) && Step(k, Resume).past == k.past
  {
    hide M.Inv, M.From, S.Inv, M.Blocked, M.Take, History;
  }

  lemma TakePast(k: State, src: int)
    requires Inv(k) && Enabled(k, Receive(src))
    ensures Shape(k) && Shape(Step(k, Receive(src))) && Step(k, Receive(src)).past == k.past
  {
    hide M.Inv, M.From, S.Step, S.Inv, M.Blocked, M.Ask, M.Take, History;
  }

  /** The in-order history of a process reaches back over an event exactly when nothing is dropped. */
  lemma ReinitExact(k: State, e: Event, p: int)
    requires Inv(k) && Enabled(k, e) && IsPid(p) && p in Reborn(k, e)
    ensures Shape(k) && Shape(Step(k, e))
    ensures History(Step(k, e).(sent := k.sent, received := k.received), p) <==> k.boxes[p].queue == []
  {
    PastAfter(k, e, p);
    assert ProcInv(k, p);
    var r, q := Step(k, e).(sent := k.sent, received := k.received), k.boxes[p].queue;
    hide M.Inv, S.Step, S.Inv, Step, M.From;
    AddsNothing(multiset(k.received[p]), q);
    if q == [] {
      forall src ensures M.From(r.sent[p], src) == M.From(r.received[p], src) + M.From(r.boxes[p].queue, src) {
        NothingFrom(src);
      }
    }
  }

  lemma NothingFrom(src: int)
    ensures M.From([], src) == []
  {
  }

  /** A message sent, a receiver replaced by exec before it looks: the message is gone. */
  lemma ExecDrops(k: State, p: int, m: M.Msg)
    requires Inv(k) && Enabled(k, Send(p, m)) && p != k.sched.current
    ensures Inv(Step(k, Send(p, m))) && Enabled(Step(k, Send(p, m)), Exec(p))
    ensures var r := Step(Step(k, Send(p, m)), Exec(p)); Shape(r) && m in r.past[p].lost && r.boxes[p].queue == []
  {
    hide Inv, Step;
    StepKeepsInv(k, Send(p, m));
    SendParts(k, p, m);
    var r := Step(k, Send(p, m));
    SendKeepsCurrent(k, p, m);
    PastAfter(r, Exec(p), p);
    LastIn(k.boxes[p].queue, m);
  }

  lemma LastIn(q: seq<M.Msg>, m: M.Msg)
    ensures m in multiset(q + [m])
  {
  }

  lemma SendKeepsCurrent(k: State, p: int, m: M.Msg)
    requires Inv(k) && Enabled(k, Send(p, m))
    ensures Step(k, Send(p, m)).sched.current == k.sched.current
  {
    hide M.Inv, M.From, S.Inv, M.Blocked, M.V, S.Without, S.InsertBefore;
  }

  /** Whether an event ends in schedule(). */
  ghost predicate Calls(k: State, e: Event)
    requires Inv(k) && Enabled(k, e)
  {
    e.Tick? || e.Return? || (e.Receive? && M.Ask(k.boxes[k.sched.current], k.sched.current, e.src).2)
  }

  /** The scheduler's part of an event. */
  lemma SchedPart(k: State, e: Event) returns (se: S.Event)
    requires Inv(k) && Enabled(k, e)
    ensures S.Enabled(k.sched, se) && S.Step(k.sched, se) == Step(k, e).sched
    ensures se.Exit? ==> e == Exit(se.p)
    ensures S.Calls(se) <==> Calls(k, e)
  {
    hide M.From, S.Placed, M.Blocked, M.Send, M.Take, Wakes, S.Schedule, History, S.Without, S.InsertBefore;
    match e
    case Tick => se := S.Tick;
    case Send(p, m) =>
      SendSched(k, p, m);
      se := S.Wake(if Wakes(k, p, m) then p else S.IDLE);
      S.ReadyNoDup(k.sched);
    case Receive(src) =>
      RunningNotBlocked(k);
      S.ReadyNoDup(k.sched);
      se := if M.Ask(k.boxes[k.sched.current], k.sched.current, src).2 then S.Sleep else S.Wake(S.IDLE);
    case Resume =>
      S.ReadyNoDup(k.sched);
      se := S.Wake(S.IDLE);
    case Spawn => se := S.Spawn;
    case Reserve => se := S.Reserve;
    case Admit(p) => se := S.Admit(p);
    case Wake(p) => se := S.Wake(p);
    case Exec(p) => se := S.Wake(p);
    case Exit(p) => se := S.Exit(p);
    case Return => RunningNotBlocked(k); se := S.Return;
  }

  /** A process that is not in a receive of its own nor replaced keeps its place in receive; its queue only grows at the
      end. */
  lemma NotRunning(k: State, e: Event, p: int)
    requires Inv(k) && Enabled(k, e) && IsPid(p) && p !in Reborn(k, e)
    requires p != k.sched.current || !(e.Receive? || e.Resume?)
    ensures var r := Step(k, e);
            && Shape(k) && Shape(r) && r.phases[p] == k.phases[p]
            && k.boxes[p].queue <= r.boxes[p].queue && r.received[p] == k.received[p]
  {
    hide M.Inv, M.From, S.Step, S.Inv;
  }

  ghost function CallCount(k: State, es: seq<Event>): nat
    requires Inv(k) && Feasible(k, es)
    decreases |es|
  {
    if es == [] then 0
    else StepKeepsInv(k, es[0]); (if Calls(k, es[0]) then 1 else 0) + CallCount(Step(k, es[0]), es[1..])
  }

  lemma ReadyNotReborn(k: State, e: Event, p: int)
    requires Inv(k) && Enabled(k, e) && p in k.sched.ready && e != Exec(p)
    ensures p !in Reborn(k, e)
  {
    S.ReadyNoDup(k.sched);
    hide S.Inv;
  }

  /** Bounded waiting in the kernel: a ready process d places from its turn that does not exit runs by the d-th
      schedule() call; until then, unless exec replaces it, it stands where it stood in receive, and messages only
      join the end of its queue. */
  lemma {:induction false} RunsInTime(k: State, es: seq<Event>, p: int) returns (n: nat)
    requires Inv(k) && Feasible(k, es) && IsPid(p) && p in k.sched.ready && p != k.sched.current && Exit(p) !in es
    requires CallCount(k, es) >= S.Distance(k.sched, p)
    ensures 0 < n <= |es| && Feasible(k, es[..n])
    ensures After(k, es[..n]).sched.current == p && Shape(k) && Shape(After(k, es[..n]))
    ensures Exec(p) !in es ==>
              var r := After(k, es[..n]);
              r.phases[p] == k.phases[p] && k.boxes[p].queue <= r.boxes[p].queue && r.received[p] == k.received[p]
    decreases |es|
  {
    hide Inv, Step, Enabled, S.Distance, S.Step, S.Inv, Calls, Reborn, S.Enabled, S.Calls;
    var e := es[0];
    StepKeepsInv(k, e);
    var r := Step(k, e);
    if e != Exec(p) { ReadyNotReborn(k, e, p); NotRunning(k, e, p); }
    KnowsSched(k);
    KnowsSched(r);
    var se := SchedPart(k, e);
    if Calls(k, e) && S.Distance(k.sched, p) == 1 {
      S.CallStep(k.sched, se, p);
      n := 1;
      assert es[..1][1..] == [];
      OneStep(k, e, es[..1]);
    } else {
      S.NotRunning(r.sched, p, k.sched, se);
      var m := RunsInTime(r, es[1..], p);
      n := m + 1;
      assert es[..n][0] == e && es[..n][1..] == es[1..][..m];
    }
  }

  lemma KnowsSched(k: State)
    requires Inv(k)
    ensures Shape(k) && S.Inv(k.sched)
  {
  }

  lemma OneStep(k: State, e: Event, es: seq<Event>)
    requires Inv(k) && Enabled(k, e) && es == [e]
    ensures Inv(Step(k, e)) && Feasible(k, es) && After(k, es) == Step(k, e)
  {
    hide Inv, Step, Enabled;
    StepKeepsInv(k, e);
    assert es[1..] == [];
  }

  /** Delivery: a receiver asleep in receive is made ready by the first message it asked for, and once the scheduler
      has gone round to it, it takes exactly that message, whatever else happens in between, short of its own exec or
      exit. */
  lemma Delivery(k: State, p: int, m: M.Msg, k1: State, es: seq<Event>) returns (n: nat)
    requires Inv(k) && IsPid(p) && M.Blocked(k.boxes[p], k.phases[p]) && p in k.sched.wait
    requires (k.phases[p] == M.InAny || k.phases[p] == M.InFrom(m.src)) && Exec(p) !in es && Exit(p) !in es
    requires Enabled(k, Send(p, m)) && k1 == Step(k, Send(p, m)) && Inv(k1) && Feasible(k1, es)
    requires p in k1.sched.ready ==> CallCount(k1, es) >= S.Distance(k1.sched, p)
    ensures p in k1.sched.ready && 0 < n <= |es| && Feasible(k1, es[..n])
    ensures var r := After(k1, es[..n]);
            && Enabled(r, Resume) && r.sched.current == p && Shape(Step(r, Resume))
            && Step(r, Resume).received[p] == k.received[p] + [m]
  {
    SendReadies(k, p, m);
    hide Inv, Step, M.Blocked, M.Inv, Enabled;
    n := RunsInTime(k1, es, p);
    var r := After(k1, es[..n]);
    TakesFirst(k.boxes[p].queue, m, r.boxes[p].queue, k.phases[p]);
    ResumeTakes(r, p);
  }

  /** The send that a blocked receiver waits for. */
  lemma SendReadies(k: State, p: int, m: M.Msg)
    requires Inv(k) && IsPid(p) && M.Blocked(k.boxes[p], k.phases[p]) && p in k.sched.wait
    requires (k.phases[p] == M.InAny || k.phases[p] == M.InFrom(m.src)) && Enabled(k, Send(p, m))
    ensures var k1 := Step(k, Send(p, m));
            && Shape(k1) && p in k1.sched.ready && p != k1.sched.current
            && k1.phases[p] == k.phases[p] && k1.received[p] == k.received[p]
            && k1.boxes[p].queue == k.boxes[p].queue + [m]
    ensures k.phases[p] == M.InAny ==> k.boxes[p].queue == []
    ensures k.phases[p].InFrom? ==> forall i :: 0 <= i < |k.boxes[p].queue| ==> k.boxes[p].queue[i].src != m.src
  {
    assert ProcInv(k, p);
    S.ReadyNoDup(k.sched);
    M.SendWakes(p, k.boxes[p], k.phases[p], m);
    FirstOfItsKind(p, k.boxes[p], k.phases[p], m);
    SendParts(k, p, m);
    SendKeepsCurrent(k, p, m);
    MoverGoes(k.sched, S.Wake(p));
    hide M.Inv, M.From, M.V, S.Wakeup, S.Inv, M.Blocked, History;
  }

  /** The blocked receiver's queue holds nothing it asked for. */
  lemma FirstOfItsKind(p: int, b: M.Box, ph: M.Phase, m: M.Msg)
    requires M.Inv(p, b, ph) && M.Blocked(b, ph) && (ph == M.InAny || ph == M.InFrom(m.src))
    ensures ph == M.InAny ==> b.queue == []
    ensures ph.InFrom? ==> forall i :: 0 <= i < |b.queue| ==> b.queue[i].src != m.src
  {
    if ph.InFrom? { M.FromMember(b.queue, m.src); }
  }

  lemma TakesFirst(q: seq<M.Msg>, m: M.Msg, r: seq<M.Msg>, ph: M.Phase)
    requires q + [m] <= r && (ph == M.InAny || ph == M.InFrom(m.src))
    requires ph == M.InAny ==> q == []
    requires ph.InFrom? ==> forall i :: 0 <= i < |q| ==> q[i].src != m.src
    ensures M.Choice(r, ph) == |q| && r[|q|] == m
  {
    assert r[|q|] == m;
    assert forall i :: 0 <= i < |q| ==> r[i] == q[i];
  }

  lemma ResumeTakes(k: State, p: int)
    requires Inv(k) && IsPid(p) && k.sched.current == p && !k.phases[p].Outside?
    ensures Enabled(k, Resume) && k.boxes[p].queue != [] && Shape(Step(k, Resume))
    ensures Step(k, Resume).received[p] == k.received[p] + [k.boxes[p].queue[M.Choice(k.boxes[p].queue, k.phases[p])]]
  {
    RunningNotBlocked(k);
    assert ProcInv(k, p);
    M.TakeKeepsInv(p, k.boxes[p], k.phases[p]);
    hide M.Inv, M.From;
  }

  // What receive(src) is answered with.

  /** The messages p has received are the same after each of the events. */
  ghost predicate Unanswered(k: State, es: seq<Event>, p: int)
    requires Inv(k) && Feasible(k, es) && IsPid(p)
    decreases |es|
  {
    es == [] ||
    (StepKeepsInv(k, es[0]);
     Step(k, es[0]).received[p] == k.received[p] && Unanswered(Step(k, es[0]), es[1..], p))
  }

  /** From k to r, p gets one message: the oldest queued from src, or of all for ANY; and it leaves the queue. */
  ghost predicate Gets(k: State, r: State, p: int, src: int)
    requires Shape(k) && Shape(r) && IsPid(p)
  {
    var q := k.boxes[p].queue;
    exists i: nat :: M.OldestFrom(q, i, src) && r.received[p] == k.received[p] + [q[i]] &&
                     r.boxes[p].queue == M.RemoveAt(q, i)
  }

  /** p is in service, inside a receive(src). */
  ghost predicate Asking(k: State, p: int, src: int)
    requires Shape(k) && IsPid(p)
  {
    k.phases[p] == M.PhaseOf(src) && !Dead(k.sched, p)
  }

  /** The call itself: p gets a message at once exactly when one that it asks for is queued. */
  lemma ReceiveAtOnce(k: State, src: int)
    requires Inv(k) && Enabled(k, Receive(src))
    ensures var p, r := k.sched.current, Step(k, Receive(src));
            && Shape(k) && Shape(r)
            && (r.received[p] != k.received[p] <==> exists i: nat :: M.OldestFrom(k.boxes[p].queue, i, src))
            && (if r.received[p] != k.received[p] then Gets(k, r, p, src) else Asking(r, p, src))
  {
    var p := k.sched.current;
    assert ProcInv(k, p);
    RunningNotBlocked(k);
    M.AskKeepsInv(p, k.boxes[p], src);
    M.NoneFrom(k.boxes[p].queue, src);
    var (b, ph, sleeps) := M.Ask(k.boxes[p], p, src);
    hide M.Inv, M.From, M.Ask, S.Step, S.Inv, M.Blocked, M.OldestFrom, Dead, Gets, M.PhaseOf, History, Ledger, Place;
    if sleeps { ParkedServed(k); } else { TakeGets(k, p, b, src); }
  }

  lemma ParkedServed(k: State)
    requires Inv(k) && k.sched.current in k.sched.ready
    ensures !Dead(S.Step(k.sched, S.Sleep), k.sched.current)
  {
    hide S.Step, S.Inv, Dead;
    MoverGoes(k.sched, S.Sleep);
    S.StepKeepsInv(k.sched, S.Sleep);
    InService(S.Step(k.sched, S.Sleep), k.sched.current);
  }

  lemma InService(s: S.Sched, p: int)
    requires S.Inv(s) && (p in s.ready || p in s.wait)
    ensures !Dead(s, p)
  {
    S.PlacedApart(s);
  }

  lemma TakeGets(k: State, p: int, b: M.Box, src: int)
    requires Shape(k) && IsPid(p) && M.Inv(p, b, M.PhaseOf(src)) && !M.Blocked(b, M.PhaseOf(src))
    requires b.queue == k.boxes[p].queue
    ensures b.queue != [] && |b.pidSem| == POOL_NUM + 1
    ensures M.PhaseOf(src).InAny? ==> M.ValidSrc(b.queue[0].src)
    ensures var r := TakeStep(k, p, b, M.PhaseOf(src));
            Shape(r) && r.received[p] != k.received[p] && Gets(k, r, p, src)
  {
    M.ChoiceIsOldest(p, b, src);
    M.TakeKeepsInv(p, b, M.PhaseOf(src));
    var r, i := TakeStep(k, p, b, M.PhaseOf(src)), M.Choice(b.queue, M.PhaseOf(src));
    hide M.Inv, M.From, M.Choice, M.Take;
    assert M.OldestFrom(k.boxes[p].queue, i, src);
    assert r.received[p] == k.received[p] + [b.queue[i]];
  }

  /** Whoever is inside a receive(src) stays there until it gets its message, and then gets the right one. */
  lemma AskingStep(k: State, e: Event, p: int, src: int)
    requires Inv(k) && Enabled(k, e) && IsPid(p) && Asking(k, p, src) && e != Exec(p) && e != Exit(p)
    ensures Shape(k) && Shape(Step(k, e))
    ensures if Step(k, e).received[p] != k.received[p] then Gets(k, Step(k, e), p, src) else Asking(Step(k, e), p, src)
  {
    if p == k.sched.current && e == Resume {
      RunningNotBlocked(k);
      assert ProcInv(k, p);
      hide M.Inv, M.From, M.Blocked, M.OldestFrom, History, Gets, S.Inv;
      TakeGets(k, p, k.boxes[p], src);
    } else {
      StillAsking(k, e, p);
    }
  }

  lemma StillAsking(k: State, e: Event, p: int)
    requires Inv(k) && Enabled(k, e) && IsPid(p) && !k.phases[p].Outside? && !Dead(k.sched, p)
    requires e != Exec(p) && e != Exit(p) && (p != k.sched.current || e != Resume)
    ensures Shape(k) && Shape(Step(k, e)) && Step(k, e).received[p] == k.received[p]
    ensures Step(k, e).phases[p] == k.phases[p] && !Dead(Step(k, e).sched, p)
  {
    assert p !in Reborn(k, e);
    NotRunning(k, e, p);
    StillServed(k, e, p);
  }

  lemma StillServed(k: State, e: Event, p: int)
    requires Inv(k) && Enabled(k, e) && IsPid(p) && !k.phases[p].Outside? && !Dead(k.sched, p) && e != Exit(p)
    ensures Shape(Step(k, e)) && !Dead(Step(k, e).sched, p)
  {
    hide Step, Inv, S.Inv, HomeOf, NothingFor, Wakes, Dead;
    StepKeepsInv(k, e);
    KnowsSched(k);
    KnowsSched(Step(k, e));
    Whereabouts(k, e, p);
    DeadHome(k.sched, p);
    DeadHome(Step(k, e).sched, p);
    if e.Spawn? || e.Reserve? { DeadHome(k.sched, k.sched.free[0]); }
  }

  lemma DeadHome(s: S.Sched, p: int)
    requires S.Inv(s)
    ensures Dead(s, p) <==> HomeOf(s, p) == Free || HomeOf(s, p) == Reserved
    ensures s.free != [] && p == s.free[0] ==> Dead(s, p)
  {
    S.ReadyNoDup(s);
    hide S.Inv, S.NoDup;
  }

  lemma {:induction false} AskingRun(k: State, es: seq<Event>, p: int, src: int)
    requires Inv(k) && Feasible(k, es) && IsPid(p) && Asking(k, p, src) && Unanswered(k, es, p)
    requires Exec(p) !in es && Exit(p) !in es
    ensures var r := After(k, es); Shape(k) && Shape(r) && Asking(r, p, src) && r.received[p] == k.received[p]
    decreases |es|
  {
    hide Inv, Step, Asking, Enabled, Gets;
    KnowsSched(k);
    if es != [] {
      StepKeepsInv(k, es[0]);
      AskingStep(k, es[0], p, src);
      AskingRun(Step(k, es[0]), es[1..], p, src);
    }
  }

  /** A call of receive(src) and whatever follows, the caller's own exec and exit apart: the next message the caller
      gets is from src, and the oldest queued from src; for ANY, it is the oldest of all. */
  lemma ReceiveGets(k: State, src: int, es: seq<Event>, e: Event, p: int)
    requires Inv(k) && IsPid(p) && p == k.sched.current && (es + [e])[0] == Receive(src)
    requires Exec(p) !in es + [e] && Exit(p) !in es + [e] && Feasible(k, es) && Unanswered(k, es, p)
    requires Enabled(After(k, es), e)
    ensures var k1 := After(k, es);
            && Shape(k) && Shape(k1) && Shape(Step(k1, e)) && k1.received[p] == k.received[p]
            && (Step(k1, e).received[p] != k.received[p] ==> Gets(k1, Step(k1, e), p, src))
  {
    hide Inv, Step, Asking, Enabled, Gets;
    if es == [] {
      ReceiveAtOnce(k, src);
    } else {
      CallThenRun(k, src, es, p);
      AskingStep(After(k, es), e, p, src);
    }
  }

  lemma CallThenRun(k: State, src: int, es: seq<Event>, p: int)
    requires Inv(k) && IsPid(p) && p == k.sched.current && es != [] && es[0] == Receive(src)
    requires Exec(p) !in es && Exit(p) !in es && Feasible(k, es) && Unanswered(k, es, p)
    ensures var r := After(k, es); Shape(k) && Shape(r) && Asking(r, p, src) && r.received[p] == k.received[p]
  {
    hide Inv, Step, Asking, Enabled, Gets;
    StepKeepsInv(k, es[0]);
    ReceiveAtOnce(k, src);
    AskingRun(Step(k, es[0]), es[1..], p, src);
  }

  /** A call of receive(src) that still sleeps when a message from src is sent, or any message for ANY: the caller is
      made ready, runs in time, and gets exactly that message, whatever else happens, its own exec and exit apart. */
  lemma ReceiveDelivered(k0: State, src: int, es0: seq<Event>, p: int, m: M.Msg, k1: State, es: seq<Event>)
    returns (n: nat)
    requires Inv(k0) && IsPid(p) && p == k0.sched.current && es0 != [] && es0[0] == Receive(src)
    requires Exec(p) !in es0 && Exit(p) !in es0 && Feasible(k0, es0) && Unanswered(k0, es0, p)
    requires var k := After(k0, es0); p in k.sched.wait && Enabled(k, Send(p, m)) && k1 == Step(k, Send(p, m))
    requires (src == M.ANY || m.src == src) && Inv(k1) && Feasible(k1, es) && Exec(p) !in es && Exit(p) !in es
    requires p in k1.sched.ready ==> CallCount(k1, es) >= S.Distance(k1.sched, p)
    ensures p in k1.sched.ready && 0 < n <= |es| && Feasible(k1, es[..n])
    ensures var r := After(k1, es[..n]);
            && Enabled(r, Resume) && r.sched.current == p && Shape(k0) && Shape(Step(r, Resume))
            && Step(r, Resume).received[p] == k0.received[p] + [m]
  {
    CallThenRun(k0, src, es0, p);
    AskingSleeps(After(k0, es0), p, src);
    hide Inv, Step, Enabled, M.Blocked, S.Distance;
    n := Delivery(After(k0, es0), p, m, k1, es);
  }

  lemma AskingSleeps(k: State, p: int, src: int)
    requires Inv(k) && IsPid(p) && Asking(k, p, src) && p in k.sched.wait
    ensures k.phases[p] == M.PhaseOf(src) && M.Blocked(k.boxes[p], k.phases[p])
  {
    assert ProcInv(k, p);
    S.PlacedApart(k.sched);
  }

  /** k is reached from a call of receive(src) by p that has not been answered. */
  ghost predicate Called(k: State, p: int, src: int) {
    exists k0: State, es: seq<Event> ::
      && Inv(k0) && IsPid(p) && p == k0.sched.current && es != [] && es[0] == Receive(src)
      && Exec(p) !in es && Exit(p) !in es && Feasible(k0, es) && Unanswered(k0, es, p) && k == After(k0, es)
  }

  lemma CalledAsks(k: State, p: int, src: int)
    requires Called(k, p, src)
    ensures Inv(k) && IsPid(p) && Shape(k) && Asking(k, p, src)
  {
    var k0: State, es: seq<Event> :|
      && Inv(k0) && IsPid(p) && p == k0.sched.current && es != [] && es[0] == Receive(src)
      && Exec(p) !in es && Exit(p) !in es && Feasible(k0, es) && Unanswered(k0, es, p) && k == After(k0, es);
    hide Inv, Step, Asking, Enabled;
    CallThenRun(k0, src, es, p);
  }

  lemma ResumeGets(k: State, p: int, src: int)
    requires Inv(k) && Enabled(k, Resume) && p == k.sched.current && Called(k, p, src)
    ensures Shape(k) && Shape(Step(k, Resume)) && IsPid(p) && Gets(k, Step(k, Resume), p, src)
  {
    CalledAsks(k, p, src);
    ResumeTakes(k, p);
    hide Inv, Step, Enabled, Called, Gets, Asking;
    AskingStep(k, Resume, p, src);
  }

  // Where every process is, event by event.

  datatype Home = Ready | Waiting | Free | Reserved | Nowhere

  function HomeOf(s: S.Sched, q: int): Home {
    if q in s.ready then Ready else if q in s.wait then Waiting
    else if q in s.free then Free else if q in s.taken then Reserved else Nowhere
  }

  /** No message that receive(src) could take is queued for p. */
  ghost predicate NothingFor(k: State, p: int, src: int)
    requires Shape(k) && IsPid(p)
  {
    forall i: nat :: !M.OldestFrom(k.boxes[p].queue, i, src)
  }

  /** A send readies the receiver that it wakes, a receive with nothing to take parks its caller, wakeup and exec ready
      a waiting process, exit and return free theirs; nobody else moves. */
  ghost function NextHome(k: State, e: Event, q: int): Home
    requires Inv(k) && Enabled(k, e)
  {
    var home := HomeOf(k.sched, q);
    match e
    case Send(p, m) => if q == p && home == Waiting && Wakes(k, p, m) then Ready else home
    case Receive(src) => if q == k.sched.current && NothingFor(k, q, src) then Waiting else home
    case Spawn => if q == k.sched.free[0] then Waiting else home
    case Reserve => if q == k.sched.free[0] then Reserved else home
    case Admit(p) => if q == p then Waiting else home
    case Wake(p) => if q == p && home == Waiting then Ready else home
    case Exec(p) => if q == p && home == Waiting then Ready else home
    case Exit(p) => if q == p then Free else home
    case Return => if q == k.sched.current then Free else home
    case _ => home
  }

  /** Whether an event may change the process that runs. */
  ghost predicate Reschedules(k: State, e: Event)
    requires Inv(k) && Enabled(k, e)
  {
    e.Tick? || e.Return? || (e.Receive? && NothingFor(k, k.sched.current, e.src))
  }

  function Target(s: S.Sched, se: S.Event, q: int): Home {
    match se
    case Tick => HomeOf(s, q)
    case Sleep => Waiting
    case Wake(_) => if HomeOf(s, q) == Waiting then Ready else HomeOf(s, q)
    case Spawn => Waiting
    case Reserve => Reserved
    case Admit(_) => Waiting
    case Return => Free
    case Exit(_) => Free
  }

  lemma HomeStep(s: S.Sched, se: S.Event, q: int)
    requires S.Inv(s) && S.Enabled(s, se)
    ensures HomeOf(S.Step(s, se), q) == if q == Mover(s, se) then Target(s, se, q) else HomeOf(s, q)
    ensures !(se.Tick? || se.Sleep? || se.Return?) ==> S.Step(s, se).current == s.current
  {
    S.StepKeepsInv(s, se);
    S.ReadyNoDup(s);
    S.ReadyNoDup(S.Step(s, se));
    if q != Mover(s, se) { OthersStay(s, se, q); } else { MoverGoes(s, se); }
    hide S.Inv, S.Next, S.Without, S.Prev, S.InsertBefore, S.NoDup;
  }

  /** Every event moves exactly the processes it should, and nobody else runs afterwards unless it reschedules. */
  lemma Whereabouts(k: State, e: Event, q: int)
    requires Inv(k) && Enabled(k, e)
    ensures HomeOf(Step(k, e).sched, q) == NextHome(k, e, q)
    ensures !Reschedules(k, e) ==> Step(k, e).sched.current == k.sched.current
  {
    hide M.Inv, M.From, S.Step, S.Inv, M.Blocked, HomeOf, History, Ledger, Place, M.Take, M.Ask, M.Send;
    match e {
      case Send(p, m) => SendHome(k, p, m, q);
      case Receive(src) => ReceiveHome(k, src, q);
      case Resume =>
      case Tick => HomeStep(k.sched, S.Tick, q);
      case Spawn => HomeStep(k.sched, S.Spawn, q);
      case Reserve => HomeStep(k.sched, S.Reserve, q);
      case Admit(p) => HomeStep(k.sched, S.Admit(p), q);
      case Wake(p) => HomeStep(k.sched, S.Wake(p), q);
      case Exec(p) => HomeStep(k.sched, S.Wake(p), q);
      case Exit(p) => HomeStep(k.sched, S.Exit(p), q);
      case Return => RunningNotBlocked(k); HomeStep(k.sched, S.Return, q);
    }
  }

  lemma SendHome(k: State, p: int, m: M.Msg, q: int)
    requires Inv(k) && Enabled(k, Send(p, m))
    ensures HomeOf(Step(k, Send(p, m)).sched, q) == NextHome(k, Send(p, m), q)
    ensures Step(k, Send(p, m)).sched.current == k.sched.current
  {
    SendSched(k, p, m);
    HomeStep(k.sched, S.Wake(p), q);
    hide Step, HomeOf, S.Inv, Wakes, ProcInv, M.Blocked;
    WakeIsStep(k.sched, p);
  }

  lemma WakeIsStep(s: S.Sched, p: int)
    requires S.Inv(s)
    ensures (s.current == S.IDLE || s.current in s.ready) && S.Step(s, S.Wake(p)) == S.Wakeup(s, p)
    ensures S.Enabled(s, S.Wake(p)) && Mover(s, S.Wake(p)) == p
  {
  }

  lemma ReceiveHome(k: State, src: int, q: int)
    requires Inv(k) && Enabled(k, Receive(src))
    ensures HomeOf(Step(k, Receive(src)).sched, q) == NextHome(k, Receive(src), q)
    ensures !NothingFor(k, k.sched.current, src) ==> Step(k, Receive(src)).sched.current == k.sched.current
  {
    var p := k.sched.current;
    assert ProcInv(k, p);
    RunningNotBlocked(k);
    M.AskKeepsInv(p, k.boxes[p], src);
    M.NoneFrom(k.boxes[p].queue, src);
    hide M.Inv, M.From, M.Ask, S.Step, S.Inv, M.Blocked, M.OldestFrom, M.Take, HomeOf, History, Ledger, Place;
    HomeStep(k.sched, S.Sleep, q);
  }
}
