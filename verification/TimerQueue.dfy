/** The delta queue of the timer driver: each waiting node holds the seconds between its predecessor and itself. The
    reference keeps every request with its absolute due time, in the order of arrival. */
module TimerQueue {
  const NODES: nat := 100

  /** A Time_node: its place in time_vec, who asked, and the seconds after the node before it. */
  datatype Node = Node(id: nat, pid: nat, sec: int)

  /** A request with its absolute due time. */
  datatype Event = Event(pid: nat, due: int)

  // The queue's meaning.

  function Abs(q: seq<Node>, now: int): (r: seq<Event>)
    ensures |r| == |q|
  {
    if q == [] then [] else [Event(q[0].pid, now + q[0].sec)] + Abs(q[1..], now + q[0].sec)
  }

  predicate NonNegative(q: seq<Node>) {
    forall i :: 0 <= i < |q| ==> q[i].sec >= 0
  }

  /** Nothing waits for the past or the present second. */
  predicate Proper(q: seq<Node>) {
    NonNegative(q) && (q != [] ==> q[0].sec > 0)
  }

  // add_time_event: walk past the nodes that are due no later, then fix the delta of the one behind.

  function Insert(q: seq<Node>, x: Node): (r: seq<Node>)
    ensures |r| == |q| + 1
  {
    if q == [] then [x]
    else if x.sec < q[0].sec then [x, q[0].(sec := q[0].sec - x.sec)] + q[1..]
    else [q[0]] + Insert(q[1..], x.(sec := x.sec - q[0].sec))
  }

  /** How many nodes the walk passes. */
  function Place(q: seq<Node>, n: int): (p: nat)
    ensures p <= |q|
  {
    if q == [] || n < q[0].sec then 0 else 1 + Place(q[1..], n - q[0].sec)
  }

  lemma {:induction false} AbsAtLeast(q: seq<Node>, now: int, i: nat)
    requires NonNegative(q) && i < |q|
    ensures Abs(q, now)[i].due >= now + q[0].sec
  {
    if i > 0 { AbsAtLeast(q[1..], now + q[0].sec, i - 1); }
  }

  /** Inserting keeps every other due time and puts the new one behind those due no later and before those due later. */
  lemma {:induction false} InsertIsStable(q: seq<Node>, x: Node, now: int)
    requires NonNegative(q) && x.sec >= 0
    ensures NonNegative(Insert(q, x))
    ensures var a, p := Abs(q, now), Place(q, x.sec);
            && Abs(Insert(q, x), now) == a[..p] + [Event(x.pid, now + x.sec)] + a[p..]
            && (forall i :: 0 <= i < p ==> a[i].due <= now + x.sec)
            && (forall i :: p <= i < |a| ==> a[i].due > now + x.sec)
  {
    hide Insert, NonNegative, Abs, Place;
    InsertSplits(q, x, now);
  }

  /** e stands at p in r, behind those of a due no later and before those due later. */
  ghost predicate Splits(a: seq<Event>, p: nat, e: Event, r: seq<Event>) {
    && p <= |a| && r == a[..p] + [e] + a[p..]
    && (forall i :: 0 <= i < p ==> a[i].due <= e.due)
    && (forall i :: p <= i < |a| ==> a[i].due > e.due)
  }

  lemma {:induction false} InsertSplits(q: seq<Node>, x: Node, now: int)
    requires NonNegative(q) && x.sec >= 0
    ensures NonNegative(Insert(q, x))
    ensures Splits(Abs(q, now), Place(q, x.sec), Event(x.pid, now + x.sec), Abs(Insert(q, x), now))
  {
    if q != [] {
      if x.sec < q[0].sec {
        InsertFront(q, x, now);
      } else {
        var y, t := x.(sec := x.sec - q[0].sec), now + q[0].sec;
        InsertSplits(q[1..], y, t);
        InsertBehind(q, x);
        InsertAbs(q, x, now);
        hide Insert, Abs, Splits;
        Shifted(Event(q[0].pid, t), Abs(q[1..], t), Place(q[1..], y.sec), Event(x.pid, now + x.sec),
                Abs(Insert(q[1..], y), t));
      }
    }
  }

  lemma InsertAbs(q: seq<Node>, x: Node, now: int)
    requires q != [] && x.sec >= q[0].sec && NonNegative(q) && NonNegative(Insert(q[1..], x.(sec := x.sec - q[0].sec)))
    ensures var y, t := x.(sec := x.sec - q[0].sec), now + q[0].sec;
            && NonNegative(Insert(q, x)) && Abs(q, now) == [Event(q[0].pid, t)] + Abs(q[1..], t)
            && Abs(Insert(q, x), now) == [Event(q[0].pid, t)] + Abs(Insert(q[1..], y), t)
  {
    InsertBehind(q, x);
    hide Insert;
    var r := Insert(q, x);
    assert forall i :: 1 <= i < |r| ==> r[i] == r[1..][i - 1];
  }

  lemma Shifted(a: Event, b: seq<Event>, p: nat, e: Event, r: seq<Event>)
    requires Splits(b, p, e, r) && a.due <= e.due
    ensures Splits([a] + b, p + 1, e, [a] + r)
  {
    assert forall i :: 1 <= i < |[a] + b| ==> ([a] + b)[i] == b[i - 1];
    assert ([a] + b)[..p + 1] == [a] + b[..p] && ([a] + b)[p + 1..] == b[p..];
  }

  lemma InsertBehind(q: seq<Node>, x: Node)
    requires q != [] && x.sec >= q[0].sec
    ensures Insert(q, x)[1..] == Insert(q[1..], x.(sec := x.sec - q[0].sec)) && Insert(q, x)[0] == q[0]
  {
  }

  lemma InsertFront(q: seq<Node>, x: Node, now: int)
    requires NonNegative(q) && x.sec >= 0 && q != [] && x.sec < q[0].sec
    ensures NonNegative(Insert(q, x)) && Abs(Insert(q, x), now) == [Event(x.pid, now + x.sec)] + Abs(q, now)
    ensures forall i :: 0 <= i < |q| ==> Abs(q, now)[i].due > now + x.sec
  {
    var r, y := Insert(q, x), q[0].(sec := q[0].sec - x.sec);
    assert r == [x, y] + q[1..];
    AbsOfTwo(x, y, q[1..], now);
    hide Insert;
    forall i | 0 <= i < |q| ensures Abs(q, now)[i].due > now + x.sec { AbsAtLeast(q, now, i); }
  }

  lemma AbsOfTwo(x: Node, y: Node, q: seq<Node>, now: int)
    ensures Abs([x, y] + q, now) ==
            [Event(x.pid, now + x.sec)] + ([Event(y.pid, now + x.sec + y.sec)] + Abs(q, now + x.sec + y.sec))
  {
    assert ([x, y] + q)[1..] == [y] + q && ([y] + q)[1..] == q;
  }

  // time_event_proc: one second less for the first node, then everything at zero goes out.

  function Passed(q: seq<Node>): (r: seq<Node>)
    ensures |r| == |q|
  {
    if q == [] then [] else [q[0].(sec := q[0].sec - 1)] + q[1..]
  }

  /** The nodes at the front that are due now. */
  function DueLen(q: seq<Node>): (n: nat)
    ensures n <= |q|
  {
    if q == [] || q[0].sec != 0 then 0 else 1 + DueLen(q[1..])
  }

  lemma PassedAbs(q: seq<Node>, now: int)
    ensures q != [] ==> Abs(Passed(q), now + 1) == Abs(q, now)
  {
    if q != [] { assert Passed(q)[1..] == q[1..]; }
  }

  /** The nodes sent are exactly those due now, and the rest is due later. */
  lemma {:induction false} DueSplit(q: seq<Node>, now: int)
    requires NonNegative(q)
    ensures var n, a := DueLen(q), Abs(q, now);
            && Proper(q[n..]) && Abs(q[n..], now) == a[n..]
            && (forall i :: 0 <= i < n ==> a[i] == Event(q[i].pid, now))
            && (forall i :: n <= i < |a| ==> a[i].due > now)
  {
    var n, a := DueLen(q), Abs(q, now);
    if q != [] && q[0].sec == 0 {
      DueSplit(q[1..], now);
      assert q[n..] == q[1..][n - 1..];
    } else {
      forall i | n <= i < |a| ensures a[i].due > now { AbsAtLeast(q, now, i); }
    }
  }

  // The reference.

  /** The requests due at time t, in order of arrival. */
  function DueAt(log: seq<Event>, t: int): seq<nat> {
    if log == [] then []
    else DueAt(log[..|log| - 1], t) + (if log[|log| - 1].due == t then [log[|log| - 1].pid] else [])
  }

  lemma {:induction false} DueAtConcat(a: seq<Event>, b: seq<Event>, t: int)
    ensures DueAt(a + b, t) == DueAt(a, t) + DueAt(b, t)
  {
    if b == [] {
      assert a + b == a;
    } else {
      DueAtConcat(a, b[..|b| - 1], t);
      assert (a + b)[..|a + b| - 1] == a + b[..|b| - 1];
    }
  }

  lemma {:induction false} NoneDue(a: seq<Event>, t: int)
    requires forall i :: 0 <= i < |a| ==> a[i].due != t
    ensures DueAt(a, t) == []
  {
    if a != [] { NoneDue(a[..|a| - 1], t); }
  }

  lemma {:induction false} AllDue(a: seq<Event>, q: seq<Node>, t: int)
    requires |a| == |q| && forall i :: 0 <= i < |a| ==> a[i] == Event(q[i].pid, t)
    ensures DueAt(a, t) == Pids(q)
  {
    if a != [] {
      var n := |a| - 1;
      AllDue(a[..n], q[..n], t);
      assert q == q[..n] + [q[n]];
    }
  }

  function Pids(q: seq<Node>): seq<nat> {
    seq(|q|, i requires 0 <= i < |q| => q[i].pid)
  }

  /** The queue holds, for every future time, what the log has due then, in the log's order. */
  ghost predicate Agrees(q: seq<Node>, log: seq<Event>, now: int) {
    Proper(q) && forall t :: t > now ==> DueAt(Abs(q, now), t) == DueAt(log, t)
  }

  lemma AddAgrees(q: seq<Node>, log: seq<Event>, now: int, x: Node)
    requires Agrees(q, log, now) && x.sec > 0
    ensures Agrees(Insert(q, x), log + [Event(x.pid, now + x.sec)], now)
  {
    hide DueAt, Abs, Place;
    InsertIsStable(q, x, now);
    var a, p, e := Abs(q, now), Place(q, x.sec), Event(x.pid, now + x.sec);
    var a' := Abs(Insert(q, x), now);
    forall t | t > now ensures DueAt(a', t) == DueAt(log + [e], t) {
      assert DueAt(a, t) == DueAt(log, t);
      assert a == a[..p] + a[p..];
      AddDue(a[..p], a[p..], e, log, t);
    }
  }

  lemma AddDue(a: seq<Event>, b: seq<Event>, e: Event, log: seq<Event>, t: int)
    requires DueAt(a + b, t) == DueAt(log, t) && forall i :: 0 <= i < |b| ==> b[i].due > e.due
    ensures DueAt(a + [e] + b, t) == DueAt(log + [e], t)
  {
    hide DueAt;
    DueAtConcat(a, b, t);
    DueAtConcat(a + [e], b, t);
    DueAtConcat(a, [e], t);
    DueAtConcat(log, [e], t);
    if t == e.due { NoneDue(b, t); } else { NoneDue([e], t); }
    SwapEmpty(DueAt(a, t), DueAt(b, t), DueAt([e], t));
  }

  lemma SwapEmpty(a: seq<nat>, b: seq<nat>, c: seq<nat>)
    requires b == [] || c == []
    ensures (a + c) + b == (a + b) + c
  {
  }

  lemma TickAgrees(q: seq<Node>, log: seq<Event>, now: int)
    requires Agrees(q, log, now)
    ensures var r := Passed(q);
            && Agrees(r[DueLen(r)..], log, now + 1)
            && Pids(r[..DueLen(r)]) == DueAt(log, now + 1)
  {
    if q == [] {
      NothingDue(log, now);
    } else {
      TickFull(q, Passed(q), log, now);
    }
  }

  lemma TickFull(q: seq<Node>, r: seq<Node>, log: seq<Event>, now: int)
    requires Agrees(q, log, now) && q != [] && r == Passed(q)
    ensures Agrees(r[DueLen(r)..], log, now + 1) && Pids(r[..DueLen(r)]) == DueAt(log, now + 1)
  {
    PassedProper(q, now);
    hide DueAt, Abs, Pids, DueLen, Passed, Proper, NonNegative;
    DueSplit(r, now + 1);
    var n, a := DueLen(r), Abs(q, now);
    forall t | t > now
      ensures DueAt(log, t) == if t == now + 1 then Pids(r[..n]) else DueAt(Abs(r[n..], now + 1), t)
    {
      assert DueAt(a, t) == DueAt(log, t);
      TickDue(a, n, r[..n], now + 1, t);
    }
  }

  lemma PassedProper(q: seq<Node>, now: int)
    requires Proper(q) && q != []
    ensures NonNegative(Passed(q)) && Abs(Passed(q), now + 1) == Abs(q, now)
  {
    PassedAbs(q, now);
  }

  lemma NothingDue(log: seq<Event>, now: int)
    requires Agrees([], log, now)
    ensures Passed([]) == [] && DueLen([]) == 0 && Agrees([], log, now + 1) && DueAt(log, now + 1) == [] == Pids([])
  {
    hide DueAt;
    assert forall t :: t > now ==> DueAt(Abs([], now), t) == DueAt(log, t);
    NoneDue([], now + 1);
    assert Abs([], now) == Abs([], now + 1) == [];
  }

  lemma TickDue(a: seq<Event>, n: nat, fired: seq<Node>, now: int, t: int)
    requires n == |fired| <= |a| && t >= now && (forall i :: 0 <= i < n ==> a[i] == Event(fired[i].pid, now))
    requires forall i :: n <= i < |a| ==> a[i].due > now
    ensures DueAt(a, t) == if t == now then Pids(fired) else DueAt(a[n..], t)
  {
    hide DueAt, Pids;
    assert a == a[..n] + a[n..];
    DueAtConcat(a[..n], a[n..], t);
    if t == now {
      AllDue(a[..n], fired, now);
      NoneDue(a[n..], t);
    } else {
      NoneDue(a[..n], t);
    }
  }

  // The driver's state: the nodes waiting and the free ones.

  datatype State = State(wait: seq<Node>, free: seq<nat>)

  datatype Op = Add(pid: nat, sec: int) | Tick

  predicate Ready(st: State, op: Op) { op.Add? ==> st.free != [] }

  function Step(st: State, op: Op): State
    requires Ready(st, op)
  {
    match op
    case Add(pid, sec) =>
      if sec <= 0 then st.(free := st.free[1..])
      else State(Insert(st.wait, Node(st.free[0], pid, sec)), st.free[1..])
    case Tick =>
      var r := Passed(st.wait);
      State(r[DueLen(r)..], st.free + Ids(r[..DueLen(r)]))
  }

  /** The messages the step sends. */
  function Sent(st: State, op: Op): seq<nat> {
    match op
    case Add(pid, sec) => if sec <= 0 then [pid] else []
    case Tick => var r := Passed(st.wait); Pids(r[..DueLen(r)])
  }

  function Ids(q: seq<Node>): (r: seq<nat>)
    ensures |r| == |q|
  {
    seq(|q|, i requires 0 <= i < |q| => q[i].id)
  }

  /** init_wait_list */
  function Start(): State { State([], seq(NODES, i requires 0 <= i < NODES => i)) }

  /** Every request of the run finds a free node. */
  predicate Feasible(ops: seq<Op>)
    decreases |ops|, 0
  {
    ops == [] || (Feasible(ops[..|ops| - 1]) && Ready(Run(ops[..|ops| - 1]), ops[|ops| - 1]))
  }

  function Run(ops: seq<Op>): State
    requires Feasible(ops)
    decreases |ops|, 1
  {
    if ops == [] then Start() else Step(Run(ops[..|ops| - 1]), ops[|ops| - 1])
  }

  /** The seconds that have passed. */
  function Now(ops: seq<Op>): nat {
    if ops == [] then 0 else Now(ops[..|ops| - 1]) + (if ops[|ops| - 1].Tick? then 1 else 0)
  }

  /** All requests so far with their due times. */
  function Log(ops: seq<Op>): seq<Event> {
    if ops == [] then []
    else
      var pre, op := ops[..|ops| - 1], ops[|ops| - 1];
      Log(pre) + (if op.Add? && op.sec > 0 then [Event(op.pid, Now(pre) + op.sec)] else [])
  }

  lemma {:induction false} RunAgrees(ops: seq<Op>)
    requires Feasible(ops)
    ensures Agrees(Run(ops).wait, Log(ops), Now(ops))
  {
    hide Agrees, Insert, Passed, DueLen, Ids;
    if ops == [] {
      NothingAgrees();
    } else {
      var pre, op := ops[..|ops| - 1], ops[|ops| - 1];
      RunAgrees(pre);
      var st := Run(pre);
      assert Log(pre) + [] == Log(pre);
      match op {
        case Add(pid, sec) => if sec > 0 { AddAgrees(st.wait, Log(pre), Now(pre), Node(st.free[0], pid, sec)); }
        case Tick => TickAgrees(st.wait, Log(pre), Now(pre));
      }
    }
  }

  lemma NothingAgrees()
    ensures Agrees([], [], 0)
  {
  }

  /** In every run, a tick sends exactly the requests whose n seconds are over at that very tick, those of equal due
      time in the order they were made; every other operation sends at most its own overdue request. */
  lemma RunSendsOnTime(ops: seq<Op>, op: Op)
    requires Feasible(ops)
    ensures Sent(Run(ops), op) ==
            match op
            case Add(pid, sec) => if sec <= 0 then [pid] else []
            case Tick => DueAt(Log(ops), Now(ops) + 1)
  {
    hide Feasible, Run, Agrees, Log, Now, DueAt, Passed, DueLen, Pids;
    RunAgrees(ops);
    TickAgrees(Run(ops).wait, Log(ops), Now(ops));
  }

  // The nodes.

  function Overdue(ops: seq<Op>): nat {
    if ops == [] then 0
    else Overdue(ops[..|ops| - 1]) + (if ops[|ops| - 1].Add? && ops[|ops| - 1].sec <= 0 then 1 else 0)
  }

  /** A node is waiting or free, except that each request with sec <= 0 costs one node for good. */
  lemma {:induction false} NodesConserved(ops: seq<Op>)
    requires Feasible(ops)
    ensures |Run(ops).wait| + |Run(ops).free| + Overdue(ops) == NODES
  {
    if ops != [] { NodesConserved(ops[..|ops| - 1]); }
  }

  /** So a run serves every request exactly as long as the waiting and the lost nodes are fewer than a hundred. */
  lemma FeasibleExactly(ops: seq<Op>, op: Op)
    requires Feasible(ops)
    ensures Feasible(ops + [op]) <==> (op.Add? ==> |Run(ops).wait| + Overdue(ops) < NODES)
  {
    assert (ops + [op])[..|ops + [op]| - 1] == ops;
    NodesConserved(ops);
  }

  // The driver.

  /** A tick of the clock, with the first second gone. */
  lemma TickMeans(st: State)
    ensures st.wait == [] ==> Step(st, Tick) == st && Sent(st, Tick) == []
    ensures st.wait != [] ==>
              var r := st.wait[0 := st.wait[0].(sec := st.wait[0].sec - 1)];
              && Step(st, Tick) == State(r[DueLen(r)..], st.free + Ids(r[..DueLen(r)]))
              && Sent(st, Tick) == Pids(r[..DueLen(r)])
  {
    hide DueLen;
    if st.wait != [] { assert Passed(st.wait) == st.wait[0 := st.wait[0].(sec := st.wait[0].sec - 1)]; }
  }

  lemma OneMore(r: seq<Node>, k: nat)
    requires k < |r|
    ensures Ids(r[..k + 1]) == Ids(r[..k]) + [r[k].id] && Pids(r[..k + 1]) == Pids(r[..k]) + [r[k].pid]
    ensures r[k..][1..] == r[k + 1..]
  {
  }

  /** The walk has passed k nodes, and x is what is left of x0 after them. */
  ghost predicate Walked(q: seq<Node>, x0: Node, k: nat, x: Node) {
    k <= |q| && Insert(q, x0) == q[..k] + Insert(q[k..], x)
  }

  lemma WalkStarts(q: seq<Node>, x: Node)
    ensures Walked(q, x, 0, x)
  {
    assert q[0..] == q;
  }

  lemma WalkStep(q: seq<Node>, x0: Node, k: nat, x: Node)
    requires Walked(q, x0, k, x) && k < |q|
    ensures x.sec >= q[k].sec ==> Walked(q, x0, k + 1, x.(sec := x.sec - q[k].sec))
    ensures x.sec < q[k].sec ==>
              (var w := q[k := q[k].(sec := q[k].sec - x.sec)]; Insert(q, x0) == w[..k] + [x] + w[k..])
  {
    InsertAt(q, k, x);
    hide Insert;
    if x.sec >= q[k].sec {
      PushOver(q, k, Insert(q[k + 1..], x.(sec := x.sec - q[k].sec)));
    } else {
      PutBefore(q, k, x, q[k].(sec := q[k].sec - x.sec));
    }
  }

  lemma InsertAt(q: seq<Node>, k: nat, x: Node)
    requires k < |q|
    ensures Insert(q[k..], x) ==
            if x.sec < q[k].sec then [x, q[k].(sec := q[k].sec - x.sec)] + q[k + 1..]
            else [q[k]] + Insert(q[k + 1..], x.(sec := x.sec - q[k].sec))
  {
    assert q[k..][0] == q[k] && q[k..][1..] == q[k + 1..];
  }

  lemma PushOver(q: seq<Node>, k: nat, r: seq<Node>)
    requires k < |q|
    ensures q[..k] + ([q[k]] + r) == q[..k + 1] + r
  {
  }

  lemma PutBefore(q: seq<Node>, k: nat, x: Node, y: Node)
    requires k < |q|
    ensures q[..k] + ([x, y] + q[k + 1..]) == q[k := y][..k] + [x] + q[k := y][k..]
  {
  }

  lemma WalkEnds(q: seq<Node>, x0: Node, k: nat, x: Node)
    requires Walked(q, x0, k, x) && k == |q|
    ensures Insert(q, x0) == q[..k] + [x] + q[k..]
  {
  }
}
