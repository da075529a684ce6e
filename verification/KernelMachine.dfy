/** The kernel's own code for scheduling, semaphores and messages, as state-changing methods, each proved to be
    one event of the kernel model. */
module KernelMachine {
  import S = Scheduler
  import M = Mailbox
  import K = Kernel
  import R = ProcessRings
  import Q = MessageRings
  import opened Ring
  import opened Processes
  import opened Wrappers

  class Machine {
    const rings: R.Rings
    const slots: seq<Q.Slots>
    ghost const heads: set<ListHead>
    var anySem: seq<M.Sem>
    var pidSem: seq<seq<M.Sem>>
    var phases: seq<M.Phase>

    /** The state at boot. */
    constructor ()
      ensures In(K.InitState(S.Sched([], [], seq(POOL_NUM, i => i), [], S.IDLE, S.IDLE)))
    {
      hide R.Rings.Valid, Q.Slots.Valid, Q.Slots.Queue, M.Inv;
      var links := new R.Rings();
      rings := links;
      var list: seq<Q.Slots> := [];
      ghost var all: set<ListHead> := {};
      for i := 0 to POOL_NUM
        invariant |list| == i && fresh(all) && links.Valid() && all !! links.nodes
        invariant links.View() == S.Sched([], [], seq(POOL_NUM, x => x), [], S.IDLE, S.IDLE)
        invariant forall p :: 0 <= p < i ==> list[p].Valid() && list[p].Queue() == [] && |list[p].free| == M.MSG_NUM
        invariant forall p :: 0 <= p < i ==> fresh(list[p]) && list[p].repr <= all
        invariant forall p, q :: 0 <= p < q < i ==> list[p] != list[q] && list[p].repr !! list[q].repr
      {
        var s := new Q.Slots();
        list, all := list + [s], all + s.repr;
      }
      slots, heads := list, all;
      anySem := seq(POOL_NUM, _ => M.Sem(0, []));
      pidSem := seq(POOL_NUM, _ => seq(POOL_NUM + 1, _ => M.Sem(0, [])));
      phases := seq(POOL_NUM, _ => M.Outside);
    }

    /** No two mailboxes share a node, nor does one with the scheduler's rings. */
    ghost predicate Parts() {
      && |slots| == POOL_NUM && heads !! rings.nodes
      && (forall p :: 0 <= p < POOL_NUM ==> slots[p].repr <= heads)
      && forall p, q :: 0 <= p < q < POOL_NUM ==> slots[p] != slots[q] && slots[p].repr !! slots[q].repr
    }

    ghost predicate Valid()
      reads this, rings, rings.nodes, slots, heads
    {
      && Parts() && rings.Valid() && |anySem| == |pidSem| == |phases| == POOL_NUM
      && forall p :: 0 <= p < POOL_NUM ==> slots[p].Valid()
    }

    ghost function Box(p: int): M.Box
      requires Valid() && IsPid(p)
      reads this, rings, rings.nodes, slots, heads
    {
      M.Box(slots[p].Queue(), |slots[p].free|, anySem[p], pidSem[p])
    }

    /** The machine is in kernel state k. */
    ghost predicate In(k: K.State)
      reads this, rings, rings.nodes, slots, heads
    {
      && Valid() && k.sched == rings.View() && k.phases == phases && |k.boxes| == POOL_NUM
      && forall p :: 0 <= p < POOL_NUM ==> k.boxes[p] == Box(p)
    }

    /** sleep(): the current process goes to the end of the wait ring, and somebody else runs. */
    method Sleep()
      requires rings.Valid() && S.Inv(rings.View()) && rings.current in rings.ready
      modifies rings, rings.nodes
      ensures rings.Valid() && rings.View() == S.Step(old(rings.View()), S.Sleep)
    {
      ghost var s := rings.View();
      S.ReadyNoDup(s);
      S.PrevStays(s.ready, s.current);
      hide S.Placed, S.Prev, S.Without, S.Next, S.NoDup;
      rings.Park();
      rings.Schedule();
    }

    /** V on a semaphore whose owner is p: the count, and the wake-up of the first on the block list. */
    method V(s: M.Sem, ghost p: int) returns (s': M.Sem)
      requires rings.Valid() && (rings.current == S.IDLE || rings.current in rings.ready)
      requires IsPid(p) && M.VSafe(s) && (s.block == [] || s.block[0] == p)
      modifies rings, rings.nodes
      ensures s' == M.V(s).0
      ensures var w := M.V(s).1;
              rings.Valid() &&
                  rings.View() == if w.Some? then S.Wakeup(old(rings.View()), w.value) else old(rings.View())
    {
      hide S.Wakeup;
      var token := s.token + 1;
      if token <= 0 {
        s' := M.Sem(token, s.block[1..]);
        rings.Wakeup(s.block[0]);
      } else {
        s' := M.Sem(token, s.block);
      }
    }

    /** send(dest, m) */
    method Send(dest: int, m: M.Msg, ghost k: K.State)
      requires K.Inv(k) && In(k) && K.Enabled(k, K.Send(dest, m))
      modifies this`anySem, this`pidSem, rings, rings.nodes, slots[dest], slots[dest].repr
      ensures In(K.Step(k, K.Send(dest, m)))
    {
      hide R.Rings.Valid, Q.Slots.Valid, Q.Slots.Queue, K.Inv, K.Step, M.Inv, M.From, S.Wakeup, S.Inv, S.Placed,
           M.Blocked;
      SendFacts(k, dest, m);
      slots[dest].Put(m);
      Signal(dest, M.SemOf(m.src));
    }

    /** V on any_sem and on pid_sem[i] of process p. */
    method Signal(p: int, i: nat)
      requires Valid() && S.Inv(rings.View()) && IsPid(p) && i < |pidSem[p]|
      requires M.VSafe(anySem[p]) && (anySem[p].block == [] || anySem[p].block[0] == p)
      requires M.VSafe(pidSem[p][i]) && (pidSem[p][i].block == [] || pidSem[p][i].block[0] == p)
      modifies this`anySem, this`pidSem, rings, rings.nodes
      ensures Valid()
      ensures var (any, w1), (from, w2) := M.V(old(anySem[p])), M.V(old(pidSem[p][i]));
              && anySem == old(anySem)[p := any] && pidSem == old(pidSem)[p := old(pidSem[p])[i := from]]
              && var s := if w1.Some? then S.Wakeup(old(rings.View()), w1.value) else old(rings.View());
                 rings.View() == if w2.Some? then S.Wakeup(s, w2.value) else s
    {
      hide R.Rings.Valid, Q.Slots.Valid, S.Wakeup, S.Placed, Box;
      ghost var s := rings.View();
      S.InvCurrent(s);
      WakeKeepsCurrent(s, p);
      var any := V(anySem[p], p);
      var from := V(pidSem[p][i], p);
      anySem, pidSem := anySem[p := any], pidSem[p := pidSem[p][i := from]];
    }

    /** P on a semaphore by the current process: the count, the block list, and whether to sleep. */
    method P(s: M.Sem) returns (s': M.Sem, sleeps: bool)
      ensures (s', sleeps) == M.P(s, rings.current)
    {
      var token := s.token - 1;
      if token < 0 {
        s', sleeps := M.Sem(token, s.block + [rings.current]), true;
      } else {
        s', sleeps := M.Sem(token, s.block), false;
      }
    }

    /** The first P of receive. */
    method Ask(p: int, src: int) returns (ph: M.Phase, sleeps: bool)
      requires Valid() && IsPid(p) && (src == M.ANY || M.ValidSrc(src)) && |pidSem[p]| == POOL_NUM + 1
      modifies this`anySem, this`pidSem
      ensures Valid() && (Box(p), ph, sleeps) == M.Ask(old(Box(p)), rings.current, src)
      ensures forall q :: 0 <= q < POOL_NUM && q != p ==> Box(q) == old(Box(q))
    {
      hide R.Rings.Valid, Q.Slots.Valid, Q.Slots.Queue;
      var s;
      if src == M.ANY {
        s, sleeps := P(anySem[p]);
        anySem, ph := anySem[p := s], M.InAny;
      } else {
        var i := M.SemOf(src);
        s, sleeps := P(pidSem[p][i]);
        pidSem, ph := pidSem[p := pidSem[p][i := s]], M.InFrom(src);
      }
    }

    /** receive after its first P: the second P, the choice of a message, and its removal from the queue. */
    method Finish(p: int, ph: M.Phase) returns (sleeps: bool, m: M.Msg)
      requires Valid() && IsPid(p) && Box(p).queue != [] && |pidSem[p]| == POOL_NUM + 1 && !ph.Outside?
      requires ph.InAny? ==> M.ValidSrc(Box(p).queue[0].src)
      modifies this`anySem, this`pidSem, slots[p], slots[p].repr
      ensures Valid() && (Box(p), sleeps, m) == M.Take(old(Box(p)), rings.current, ph)
      ensures forall q :: 0 <= q < POOL_NUM && q != p ==> Box(q) == old(Box(q))
    {
      hide R.Rings.Valid, Q.Slots.Valid, Q.Slots.Queue;
      if ph.InAny? { sleeps, m := FinishAny(p); } else { sleeps, m := FinishFrom(p, ph.src); }
    }

    method FinishAny(p: int) returns (sleeps: bool, m: M.Msg)
      requires Valid() && IsPid(p) && Box(p).queue != [] && |pidSem[p]| == POOL_NUM + 1
      requires M.ValidSrc(Box(p).queue[0].src)
      modifies this`pidSem, slots[p], slots[p].repr
      ensures Valid() && (Box(p), sleeps, m) == M.Take(old(Box(p)), rings.current, M.InAny)
      ensures forall q :: 0 <= q < POOL_NUM && q != p ==> Box(q) == old(Box(q))
    {
      hide R.Rings.Valid, Q.Slots.Valid, Q.Slots.Queue;
      ghost var queue := slots[p].Queue();
      var x := slots[p].First();
      var i := M.SemOf(slots[p].space[x].src);
      var s;
      s, sleeps := P(pidSem[p][i]);
      m := slots[p].Take(x, 0);
      pidSem := pidSem[p := pidSem[p][i := s]];
      assert M.RemoveAt(queue, 0) == queue[1..];
    }

    method FinishFrom(p: int, src: int) returns (sleeps: bool, m: M.Msg)
      requires Valid() && IsPid(p) && Box(p).queue != [] && |pidSem[p]| == POOL_NUM + 1
      modifies this`anySem, slots[p], slots[p].repr
      ensures Valid() && (Box(p), sleeps, m) == M.Take(old(Box(p)), rings.current, M.InFrom(src))
      ensures forall q :: 0 <= q < POOL_NUM && q != p ==> Box(q) == old(Box(q))
    {
      hide R.Rings.Valid, Q.Slots.Valid, Q.Slots.Queue, M.Scan;
      var s, x;
      ghost var i;
      s, sleeps := P(anySem[p]);
      x, i := slots[p].Scan(src);
      m := slots[p].Take(x, i);
      anySem := anySem[p := s];
    }

    /** receive(src), up to the point where it sleeps or returns a message. */
    method Receive(src: int, ghost k: K.State) returns (got: Option<M.Msg>)
      requires K.Inv(k) && In(k) && K.Enabled(k, K.Receive(src))
      modifies this, rings, rings.nodes, slots, heads
      ensures In(K.Step(k, K.Receive(src)))
      ensures var r := K.Step(k, K.Receive(src)).received[k.sched.current];
              r == k.received[k.sched.current] + (if got.Some? then [got.value] else [])
      ensures var q := k.boxes[k.sched.current].queue;
              if got.Some? then M.Answer(q, src, got.value) else forall m :: !M.Answer(q, src, m)
    {
      hide R.Rings.Valid, Q.Slots.Valid, Q.Slots.Queue, K.Inv, K.Step, K.Enabled, M.Inv, M.From, S.Inv, S.Placed,
           M.Blocked, M.Ask, M.Take, S.Step;
      var p := rings.current;
      AskFacts(k, src);
      AskedFor(k, src);
      var ph, sleeps := Ask(p, src);
      if sleeps {
        phases := phases[p := ph];
        Sleep();
        got := None;
      } else {
        var sleepsAgain, m := Finish(p, ph);
        assert !sleepsAgain;
        phases := phases[p := M.Outside];
        got := Some(m);
      }
    }

    /** The rest of receive, when a process that slept in it runs again. */
    method Resume(ghost k: K.State) returns (m: M.Msg)
      requires K.Inv(k) && In(k) && K.Enabled(k, K.Resume)
      modifies this, slots, heads
      ensures In(K.Step(k, K.Resume))
      ensures K.Step(k, K.Resume).received[k.sched.current] == k.received[k.sched.current] + [m]
      ensures var q := k.boxes[k.sched.current].queue;
              forall src :: K.Called(k, k.sched.current, src) ==> M.Answer(q, src, m)
    {
      hide R.Rings.Valid, Q.Slots.Valid, Q.Slots.Queue, K.Inv, K.Step, K.Enabled, M.Inv, M.From, S.Inv, S.Placed,
           M.Blocked, M.Take;
      var p := rings.current;
      ResumeFacts(k);
      ResumedFor(k);
      var sleepsAgain;
      sleepsAgain, m := Finish(p, phases[p]);
      assert !sleepsAgain;
      phases := phases[p := M.Outside];
    }

    /** init_msg: the slots all free, semaphores at zero with nobody blocked. */
    method InitMsg(p: int)
      requires Valid() && IsPid(p)
      modifies this, slots[p], slots[p].repr
      ensures Valid() && Box(p) == M.InitBox() && phases == old(phases)[p := M.Outside]
      ensures forall q :: 0 <= q < POOL_NUM && q != p ==> Box(q) == old(Box(q))
    {
      hide R.Rings.Valid, Q.Slots.Valid, Q.Slots.Queue, Q.Slots.Shape;
      slots[p].Linked();
      slots[p].InitMsg();
      var sems: seq<M.Sem> := [];
      for i := 0 to POOL_NUM + 1
        invariant sems == seq(i, _ => M.Sem(0, []))
      {
        sems := sems + [M.Sem(0, [])];
      }
      anySem, pidSem := anySem[p := M.Sem(0, [])], pidSem[p := sems];
      phases := phases[p := M.Outside];
    }

    /** create_kthread: the first free PCB, with a new mailbox, to the wait ring. (The source initialises the mailbox
        before it moves the PCB, under the same lock.) */
    method CreateKthread(ghost k: K.State) returns (p: int)
      requires K.Inv(k) && In(k) && K.Enabled(k, K.Spawn)
      modifies this, rings, rings.nodes, slots, heads
      ensures In(K.Step(k, K.Spawn)) && p == k.sched.free[0]
    {
      hide R.Rings.Valid, Q.Slots.Valid, Q.Slots.Queue, K.Inv, K.Step, K.Enabled, S.Inv, S.Placed, S.Without, S.Prev,
           S.Next, S.Step;
      LifeFacts(k, K.Spawn);
      p := rings.Create();
      InitMsg(p);
    }

    /** The first half of create_process and of fork. */
    method TakePcb(ghost k: K.State) returns (p: int)
      requires K.Inv(k) && In(k) && K.Enabled(k, K.Reserve)
      modifies rings, rings.nodes
      ensures In(K.Step(k, K.Reserve)) && p == k.sched.free[0]
    {
      hide R.Rings.Valid, Q.Slots.Valid, Q.Slots.Queue, K.Inv, K.Step, K.Enabled, S.Inv, S.Placed, S.Without, S.Prev,
           S.Next, S.Step;
      LifeFacts(k, K.Reserve);
      p := rings.Reserve();
    }

    /** The second half (init_pcb, and the end of fork): a new mailbox, and to the wait ring. */
    method InitPcb(p: int, ghost k: K.State)
      requires K.Inv(k) && In(k) && K.Enabled(k, K.Admit(p))
      modifies this, rings, rings.nodes, slots, heads
      ensures In(K.Step(k, K.Admit(p)))
    {
      hide R.Rings.Valid, Q.Slots.Valid, Q.Slots.Queue, K.Inv, K.Step, K.Enabled, S.Inv, S.Placed, S.Without, S.Prev,
           S.Next, S.Step;
      LifeFacts(k, K.Admit(p));
      InitMsg(p);
      rings.Admit(p);
    }

    /** wakeup of a process just created. */
    method WakeNew(p: int, ghost k: K.State)
      requires K.Inv(k) && In(k) && K.Enabled(k, K.Wake(p))
      modifies rings, rings.nodes
      ensures In(K.Step(k, K.Wake(p)))
    {
      hide R.Rings.Valid, Q.Slots.Valid, Q.Slots.Queue, K.Inv, K.Step, K.Enabled, S.Inv, S.Placed, S.Without, S.Prev,
           S.Next, S.Step;
      LifeFacts(k, K.Wake(p));
      rings.Wakeup(p);
    }

    /** The end of a successful exec, carried out by the process manager: whatever was queued for p is gone. */
    method Exec(p: int, ghost k: K.State)
      requires K.Inv(k) && In(k) && K.Enabled(k, K.Exec(p))
      modifies this, rings, rings.nodes, slots, heads
      ensures In(K.Step(k, K.Exec(p)))
    {
      hide R.Rings.Valid, Q.Slots.Valid, Q.Slots.Queue, K.Inv, K.Step, K.Enabled, S.Inv, S.Placed, S.Without, S.Prev,
           S.Next, S.Step;
      LifeFacts(k, K.Exec(p));
      InitMsg(p);
      rings.Wakeup(p);
    }

    /** The ring moves of exit, carried out by the process manager. */
    method Exit(p: int, ghost k: K.State)
      requires K.Inv(k) && In(k) && K.Enabled(k, K.Exit(p))
      modifies rings, rings.nodes
      ensures In(K.Step(k, K.Exit(p)))
    {
      hide R.Rings.Valid, Q.Slots.Valid, Q.Slots.Queue, K.Inv, K.Step, K.Enabled, S.Inv, S.Placed, S.Without, S.Prev,
           S.Next, S.Step;
      LifeFacts(k, K.Exit(p));
      rings.Remove(p);
    }

    /** The end of wrap: the current thread's function has returned. */
    method Return(ghost k: K.State)
      requires K.Inv(k) && In(k) && K.Enabled(k, K.Return)
      modifies rings, rings.nodes
      ensures In(K.Step(k, K.Return))
    {
      hide R.Rings.Valid, Q.Slots.Valid, Q.Slots.Queue, K.Inv, K.Step, K.Enabled, S.Inv, S.Placed, S.Without, S.Prev,
           S.Next, S.Step;
      LifeFacts(k, K.Return);
      rings.Retire();
      rings.Schedule();
    }

    /** The timer interrupt. */
    method Tick(ghost k: K.State)
      requires K.Inv(k) && In(k)
      modifies rings
      ensures In(K.Step(k, K.Tick))
    {
      hide R.Rings.Valid, Q.Slots.Valid, Q.Slots.Queue, K.Inv, K.Step, S.Inv, S.Placed, S.Without, S.Prev, S.Next,
           S.Step;
      LifeFacts(k, K.Tick);
      rings.Schedule();
    }
  }

  lemma SendFacts(k: K.State, p: int, m: M.Msg)
    requires K.Inv(k) && K.Enabled(k, K.Send(p, m))
    ensures K.Shape(k) && (k.sched.current == S.IDLE || k.sched.current in k.sched.ready) && S.Inv(k.sched)
    ensures |k.boxes[p].pidSem| == POOL_NUM + 1
    ensures M.VSafe(k.boxes[p].anySem) && M.VSafe(k.boxes[p].pidSem[M.SemOf(m.src)])
    ensures forall s :: s in {k.boxes[p].anySem, k.boxes[p].pidSem[M.SemOf(m.src)]} ==> s.block == [] || s.block[0] == p
    ensures var (_, w1, w2) := M.Send(k.boxes[p], m);
            !(w1.Some? && w2.Some?) && (w1.Some? ==> w1.value == p) && (w2.Some? ==> w2.value == p)
    ensures var (b, w1, w2) := M.Send(k.boxes[p], m);
            K.Step(k, K.Send(p, m)) ==
            k.(sched := if w1.Some? || w2.Some? then S.Wakeup(k.sched, p) else k.sched, boxes := k.boxes[p := b],
               sent := k.sent[p := k.sent[p] + [m]])
  {
    hide M.From, K.History, S.Wakeup, S.Placed;
    assert K.ProcInv(k, p);
    M.SendWakes(p, k.boxes[p], k.phases[p], m);
  }

  /** What the events of a process's life are in terms of the rings' own operations. */
  lemma LifeFacts(k: K.State, e: K.Event)
    requires K.Inv(k) && K.Enabled(k, e) && !e.Send? && !e.Receive? && !e.Resume?
    ensures K.Shape(k) && (k.sched.current == S.IDLE || k.sched.current in k.sched.ready) &&
            k.sched.pre == k.sched.current
    ensures var s, r := k.sched, K.Step(k, e);
            match e
            case Spawn => s.free != [] && IsPid(s.free[0]) && r == K.Reinit(k, s.free[0]).(sched := S.Create(s))
            case Reserve => s.free != [] && r == k.(sched := S.TakeFree(s))
            case Admit(p) => IsPid(p) && p in s.taken && r == K.Reinit(k, p).(sched := S.Enter(s, p))
            case Wake(p) => IsPid(p) && r == k.(sched := S.Wakeup(s, p))
            case Exec(p) => IsPid(p) && r == K.Reinit(k, p).(sched := S.Wakeup(s, p))
            case Exit(p) => (p in s.ready || p in s.wait) && r == k.(sched := S.Remove(s, p))
            case Return =>
              && s.current in s.ready && (S.Retire(s).pre == S.IDLE || S.Retire(s).pre in S.Retire(s).ready)
              && r == k.(sched := S.Schedule(S.Retire(s)))
            case Tick => r == k.(sched := S.Schedule(s))
            case _ => true
  {
    hide M.Inv, K.ProcInv, S.Placed, S.Without, S.Prev, S.Next;
    S.InvCurrent(k.sched);
    S.ReadyNoDup(k.sched);
    if e.Spawn? { K.FreeIsPid(k.sched); }
    if e.Return? {
      K.RunningNotBlocked(k);
      S.PrevStays(k.sched.ready, k.sched.current);
    }
  }

  lemma WakeKeepsCurrent(s: S.Sched, p: int)
    requires S.Inv(s)
    ensures s.current == S.IDLE || s.current in S.Wakeup(s, p).ready
    ensures S.Wakeup(s, p).current == s.current
  {
    if s.current != S.IDLE { S.CurrentStays(s, p); }
  }

  lemma AskFacts(k: K.State, src: int)
    requires K.Inv(k) && K.Enabled(k, K.Receive(src))
    ensures K.Shape(k) && S.Inv(k.sched) && k.sched.current in k.sched.ready
    ensures var p := k.sched.current;
            && |k.boxes[p].pidSem| == POOL_NUM + 1
            && var (b, ph, sleeps) := M.Ask(k.boxes[p], p, src);
            && !ph.Outside? && |b.pidSem| == POOL_NUM + 1
            && (!sleeps ==> b.queue != [] && (ph.InAny? ==> M.ValidSrc(b.queue[0].src)) && !M.Take(b, p, ph).1)
    ensures (src == M.ANY || M.ValidSrc(src)) && IsPid(k.sched.current)
    ensures var p, r := k.sched.current, K.Step(k, K.Receive(src));
            var (b, ph, sleeps) := M.Ask(k.boxes[p], p, src);
            if sleeps then
              r == k.(sched := S.Step(k.sched, S.Sleep), boxes := k.boxes[p := b], phases := k.phases[p := ph])
            else
              r == K.TakeStep(k, p, b, ph)
  {
    hide M.From, K.History;
    var p := k.sched.current;
    assert K.ProcInv(k, p);
    K.RunningNotBlocked(k);
    M.AskKeepsInv(p, k.boxes[p], src);
    var (b, ph, sleeps) := M.Ask(k.boxes[p], p, src);
    if !sleeps { M.TakeKeepsInv(p, b, ph); }
  }

  /** The message of a receive(src) that does not sleep, and when it does. */
  lemma AskedFor(k: K.State, src: int)
    requires K.Inv(k) && K.Enabled(k, K.Receive(src))
    ensures var p, r := k.sched.current, K.Step(k, K.Receive(src));
            && K.Shape(k) && K.Shape(r) && IsPid(p)
            && (r.received[p] == k.received[p] ==> forall m :: !M.Answer(k.boxes[p].queue, src, m))
            && (forall m :: r.received[p] == k.received[p] + [m] ==> M.Answer(k.boxes[p].queue, src, m))
  {
    hide K.Inv, K.Step, M.OldestFrom;
    K.ReceiveAtOnce(k, src);
    LastOne(k, K.Step(k, K.Receive(src)), k.sched.current, src);
  }

  lemma LastOne(k: K.State, r: K.State, p: int, src: int)
    requires K.Shape(k) && K.Shape(r) && IsPid(p) && (r.received[p] != k.received[p] ==> K.Gets(k, r, p, src))
    ensures forall m :: r.received[p] == k.received[p] + [m] ==> M.Answer(k.boxes[p].queue, src, m)
  {
    forall m | r.received[p] == k.received[p] + [m] ensures M.Answer(k.boxes[p].queue, src, m) {
      assert r.received[p][|k.received[p]|] == m;
    }
  }

  lemma ResumedFor(k: K.State)
    requires K.Inv(k) && K.Enabled(k, K.Resume)
    ensures var p, r := k.sched.current, K.Step(k, K.Resume);
            && K.Shape(k) && K.Shape(r) && IsPid(p)
            && forall src, m :: K.Called(k, p, src) && r.received[p] == k.received[p] + [m] ==>
                                M.Answer(k.boxes[p].queue, src, m)
  {
    ResumeFacts(k);
    hide K.Inv, K.Step, M.Answer, K.Called, K.Gets, M.Take, M.Inv;
    var p, r := k.sched.current, K.Step(k, K.Resume);
    forall src, m | K.Called(k, p, src) && r.received[p] == k.received[p] + [m]
      ensures M.Answer(k.boxes[p].queue, src, m)
    {
      K.ResumeGets(k, p, src);
      LastOne(k, r, p, src);
    }
  }

  lemma ResumeFacts(k: K.State)
    requires K.Inv(k) && K.Enabled(k, K.Resume)
    ensures K.Shape(k)
    ensures var p := k.sched.current;
            && |k.boxes[p].pidSem| == POOL_NUM + 1 && k.boxes[p].queue != []
            && (k.phases[p].InAny? ==> M.ValidSrc(k.boxes[p].queue[0].src))
            && !M.Take(k.boxes[p], p, k.phases[p]).1 && !k.phases[p].Outside? && IsPid(p)
            && K.Step(k, K.Resume) == K.TakeStep(k, p, k.boxes[p], k.phases[p])
  {
    hide M.From, K.History;
    var p := k.sched.current;
    assert K.ProcInv(k, p);
    K.RunningNotBlocked(k);
    M.TakeKeepsInv(p, k.boxes[p], k.phases[p]);
  }
}
