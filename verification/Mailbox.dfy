/** Mailboxes: a message queue kept in step with one semaphore for any message and one per sender. */
module Mailbox {
  import opened Wrappers
  import opened Processes

  const MSG_NUM: nat := 100
  const ANY: int := -1
  const HARD_INTR: int := -2

  datatype Msg = Msg(src: int, body: int)

  /** A semaphore: its token count and the processes blocked on it. */
  datatype Sem = Sem(token: int, block: seq<int>)

  /** The messaging part of a PCB. */
  datatype Box = Box(queue: seq<Msg>, free: nat, anySem: Sem, pidSem: seq<Sem>)

  /** Where the owner stands: outside receive, or inside it with its first P made (and maybe not yet granted). */
  datatype Phase = Outside | InAny | InFrom(src: int)

  predicate ValidSrc(src: int) { src == HARD_INTR || 0 <= src < POOL_NUM }

  /** Interrupt handlers share one semaphore of their own. */
  function SemOf(src: int): (i: nat)
    requires ValidSrc(src)
    ensures i <= POOL_NUM
  {
    if src == HARD_INTR then POOL_NUM else src
  }

  /** init_msg */
  function InitBox(): Box {
    Box([], MSG_NUM, Sem(0, []), seq(POOL_NUM + 1, _ => Sem(0, [])))
  }

  /** P by process `me`; the flag says whether it must sleep. */
  function P(s: Sem, me: int): (r: (Sem, bool)) {
    var token := s.token - 1;
    if token < 0 then (Sem(token, s.block + [me]), true) else (Sem(token, s.block), false)
  }

  /** V; the first blocked process, if any, is to be woken. An empty block list with a negative count would
      be the assertion failure in the source. */
  function V(s: Sem): (r: (Sem, Option<int>)) {
    var token := s.token + 1;
    if token <= 0 && s.block != [] then (Sem(token, s.block[1..]), Some(s.block[0])) else (Sem(token, s.block), None)
  }

  /** The assertion in V. */
  predicate VSafe(s: Sem) { s.token + 1 <= 0 ==> s.block != [] }

  /** The messages from one sender, in order. */
  function From(q: seq<Msg>, src: int): seq<Msg> {
    if q == [] then [] else (if q[0].src == src then [q[0]] else []) + From(q[1..], src)
  }

  /** What the owner's first P has taken: a ticket for any message, or for one from a given sender. */
  function AnyTicket(ph: Phase): int { if ph.InAny? then 1 else 0 }
  function FromTicket(ph: Phase, src: int): int { if ph.InFrom? && ph.src == src then 1 else 0 }

  /** A semaphore shared by the senders and one receiver: the receiver is blocked on it exactly when the count is
      negative. */
  predicate SemInv(s: Sem, me: int) {
    s.token >= -1 && s.block == if s.token < 0 then [me] else []
  }

  /** The mailbox invariant: each count is the number of queued messages less the owner's ticket. */
  ghost predicate Inv(me: int, b: Box, ph: Phase) {
    && b.free + |b.queue| == MSG_NUM && |b.pidSem| == POOL_NUM + 1
    && (forall i :: 0 <= i < |b.queue| ==> ValidSrc(b.queue[i].src))
    && (ph.InFrom? ==> ValidSrc(ph.src))
    && SemInv(b.anySem, me) && b.anySem.token == |b.queue| - AnyTicket(ph)
    && (forall src :: ValidSrc(src) ==>
          SemInv(b.pidSem[SemOf(src)], me) &&
          b.pidSem[SemOf(src)].token == |From(b.queue, src)| - FromTicket(ph, src))
  }

  /** Whether the owner sleeps inside receive. */
  predicate Blocked(b: Box, ph: Phase) {
    (ph.InAny? && b.anySem.token < 0) ||
    (ph.InFrom? && ValidSrc(ph.src) && SemOf(ph.src) < |b.pidSem| && b.pidSem[SemOf(ph.src)].token < 0)
  }

  lemma InitInv(me: int)
    ensures Inv(me, InitBox(), Outside) && !Blocked(InitBox(), Outside)
  {
  }

  lemma {:induction false} FromAppend(q: seq<Msg>, r: seq<Msg>, src: int)
    ensures From(q + r, src) == From(q, src) + From(r, src)
  {
    if q == [] {
      assert q + r == r;
    } else {
      FromAppend(q[1..], r, src);
      assert (q + r)[1..] == q[1..] + r;
      Regroup(if q[0].src == src then [q[0]] else [], From(q[1..], src), From(r, src));
    }
  }

  lemma Regroup(a: seq<Msg>, b: seq<Msg>, c: seq<Msg>)
    ensures a + (b + c) == (a + b) + c
  {
  }

  lemma FromOne(m: Msg, src: int)
    ensures From([m], src) == if m.src == src then [m] else []
  {
    assert From([m], src) == (if m.src == src then [m] else []) + From([], src);
  }

  // Sending.

  /** send: queue the message, then V on the two semaphores. */
  function Send(b: Box, m: Msg): (r: (Box, Option<int>, Option<int>))
    requires b.free > 0 && ValidSrc(m.src) && |b.pidSem| == POOL_NUM + 1
  {
    var (anySem, w1) := V(b.anySem);
    var i := SemOf(m.src);
    var (pidSem, w2) := V(b.pidSem[i]);
    (Box(b.queue + [m], b.free - 1, anySem, b.pidSem[i := pidSem]), w1, w2)
  }

  lemma VKeeps(s: Sem, me: int)
    requires SemInv(s, me)
    ensures VSafe(s) && SemInv(V(s).0, me) && V(s).0.token == s.token + 1
    ensures V(s).1 == if s.token < 0 then Some(me) else None
  {
  }

  lemma SendCount(b: Box, m: Msg, src: int)
    requires b.free > 0 && ValidSrc(m.src) && |b.pidSem| == POOL_NUM + 1 && ValidSrc(src)
    ensures var b' := Send(b, m).0;
            && |From(b'.queue, src)| == |From(b.queue, src)| + (if src == m.src then 1 else 0)
            && |b'.pidSem| == POOL_NUM + 1
            && b'.pidSem[SemOf(src)] == if src == m.src then V(b.pidSem[SemOf(src)]).0 else b.pidSem[SemOf(src)]
  {
    FromAppend(b.queue, [m], src);
    FromOne(m, src);
  }

  lemma SendPidSems(me: int, b: Box, ph: Phase, m: Msg, src: int)
    requires Inv(me, b, ph) && b.free > 0 && ValidSrc(m.src) && ValidSrc(src)
    ensures var b' := Send(b, m).0;
            && |b'.pidSem| == POOL_NUM + 1
            && SemInv(b'.pidSem[SemOf(src)], me)
            && b'.pidSem[SemOf(src)].token == |From(b'.queue, src)| - FromTicket(ph, src)
  {
    hide Send, From;
    SendCount(b, m, src);
    VKeeps(b.pidSem[SemOf(src)], me);
  }

  /** Sending keeps the invariant. */
  lemma SendKeepsInv(me: int, b: Box, ph: Phase, m: Msg)
    requires Inv(me, b, ph) && b.free > 0 && ValidSrc(m.src)
    ensures Inv(me, Send(b, m).0, ph)
  {
    hide From, V, Send, SemInv;
    var b' := Send(b, m).0;
    SendBasics(me, b, ph, m);
    forall src | ValidSrc(src)
      ensures SemInv(b'.pidSem[SemOf(src)], me)
      ensures b'.pidSem[SemOf(src)].token == |From(b'.queue, src)| - FromTicket(ph, src)
    {
      SendPidSems(me, b, ph, m, src);
    }
  }

  lemma SendBasics(me: int, b: Box, ph: Phase, m: Msg)
    requires Inv(me, b, ph) && b.free > 0 && ValidSrc(m.src)
    ensures var b' := Send(b, m).0;
            && b'.queue == b.queue + [m] && b'.free == b.free - 1 && |b'.pidSem| == POOL_NUM + 1
            && (forall i :: 0 <= i < |b'.queue| ==> ValidSrc(b'.queue[i].src))
            && SemInv(b'.anySem, me) && b'.anySem.token == |b'.queue| - AnyTicket(ph)
  {
    hide From;
    VKeeps(b.anySem, me);
  }

  /** Sending trips no assertion, and wakes the owner exactly when the owner sleeps waiting for such a message. */
  lemma SendWakes(me: int, b: Box, ph: Phase, m: Msg)
    requires Inv(me, b, ph) && b.free > 0 && ValidSrc(m.src)
    ensures var (b', w1, w2) := Send(b, m);
            && VSafe(b.anySem) && VSafe(b.pidSem[SemOf(m.src)])
            && (w1.Some? ==> w1.value == me) && (w2.Some? ==> w2.value == me)
            && !(w1.Some? && w2.Some?)
            && (w1.Some? || w2.Some? <==> Blocked(b, ph) && (ph == InAny || ph == InFrom(m.src)))
            && (Blocked(b', ph) <==> Blocked(b, ph) && !(ph == InAny || ph == InFrom(m.src)))
  {
    var (b', w1, w2) := Send(b, m);
    assert w1 == V(b.anySem).1 && w2 == V(b.pidSem[SemOf(m.src)]).1 && b'.anySem == V(b.anySem).0;
    VKeeps(b.anySem, me);
    VKeeps(b.pidSem[SemOf(m.src)], me);
    if ph.InFrom? { SendCount(b, m, ph.src); }
    hide From, V, Send;
  }

  // Receiving.

  /** Where a process stands that has asked for messages from src. */
  function PhaseOf(src: int): Phase { if src == ANY then InAny else InFrom(src) }

  /** The i-th message is the oldest from src; for ANY, the oldest of all. */
  ghost predicate OldestFrom(q: seq<Msg>, i: nat, src: int) {
    && i < |q| && (src == ANY || q[i].src == src)
    && forall j :: 0 <= j < i ==> src != ANY && q[j].src != src
  }

  /** m is what a receive(src) should get from the queue. */
  ghost predicate Answer(q: seq<Msg>, src: int, m: Msg) { exists i: nat :: OldestFrom(q, i, src) && m == q[i] }

  /** The first P of receive. */
  function Ask(b: Box, me: int, src: int): (r: (Box, Phase, bool))
    requires (src == ANY || ValidSrc(src)) && |b.pidSem| == POOL_NUM + 1
  {
    if src == ANY then
      var (s, sleeps) := P(b.anySem, me);
      (b.(anySem := s), InAny, sleeps)
    else
      var i := SemOf(src);
      var (s, sleeps) := P(b.pidSem[i], me);
      (b.(pidSem := b.pidSem[i := s]), InFrom(src), sleeps)
  }

  /** The scan of receive: the first message from src, or the last message of all when there is none. */
  function Scan(q: seq<Msg>, src: int): (i: nat)
    requires q != []
    ensures i < |q|
    ensures q[i].src == src ==> forall j :: 0 <= j < i ==> q[j].src != src
    ensures q[i].src != src ==> forall j :: 0 <= j < |q| ==> q[j].src != src
  {
    if q[0].src == src || |q| == 1 then 0 else 1 + Scan(q[1..], src)
  }

  function RemoveAt(q: seq<Msg>, i: nat): seq<Msg>
    requires i < |q|
  {
    q[..i] + q[i + 1..]
  }

  /** The rest of receive, once the first P is granted: the second P (the flag says whether it would sleep), the
      choice of a message, its removal. */
  function Take(b: Box, me: int, ph: Phase): (r: (Box, bool, Msg))
    requires b.queue != [] && |b.pidSem| == POOL_NUM + 1 && !ph.Outside?
    requires ph.InAny? ==> ValidSrc(b.queue[0].src)
  {
    if ph.InAny? then
      var m := b.queue[0];
      var i := SemOf(m.src);
      var (s, sleeps) := P(b.pidSem[i], me);
      (Box(b.queue[1..], b.free + 1, b.anySem, b.pidSem[i := s]), sleeps, m)
    else
      var (s, sleeps) := P(b.anySem, me);
      var i := Scan(b.queue, ph.src);
      (Box(RemoveAt(b.queue, i), b.free + 1, s, b.pidSem), sleeps, b.queue[i])
  }

  lemma PKeeps(s: Sem, me: int)
    requires SemInv(s, me) && s.token >= 0
    ensures SemInv(P(s, me).0, me) && P(s, me).0.token == s.token - 1 && (P(s, me).1 <==> s.token == 0)
  {
  }

  /** The first P keeps the invariant, and the process sleeps exactly when no message it asked for is queued. */
  lemma AskKeepsInv(me: int, b: Box, src: int)
    requires Inv(me, b, Outside) && (src == ANY || ValidSrc(src))
    ensures var (b', ph, sleeps) := Ask(b, me, src);
            && Inv(me, b', ph) && (Blocked(b', ph) <==> sleeps) && b'.queue == b.queue
            && ph == PhaseOf(src)
            && (sleeps <==> if src == ANY then b.queue == [] else From(b.queue, src) == [])
  {
    hide From;
    if src == ANY { PKeeps(b.anySem, me); } else { PKeeps(b.pidSem[SemOf(src)], me); }
  }

  lemma {:induction false} FromMember(q: seq<Msg>, src: int)
    ensures From(q, src) == [] <==> forall i :: 0 <= i < |q| ==> q[i].src != src
  {
    if q != [] {
      FromMember(q[1..], src);
      assert forall i :: 0 < i < |q| ==> q[i] == q[1..][i - 1];
    }
  }

  /** Removing the first message from a sender removes the first of that sender's messages and no other. */
  lemma FromRemove(q: seq<Msg>, i: nat, src: int)
    requires i < |q| && forall j :: 0 <= j < i ==> q[j].src != q[i].src
    ensures if src == q[i].src then From(q, src) == [q[i]] + From(RemoveAt(q, i), src)
            else From(RemoveAt(q, i), src) == From(q, src)
  {
    var a, c := q[..i], q[i + 1..];
    assert q == a + ([q[i]] + c);
    FromAppend(a, [q[i]] + c, src);
    FromAppend([q[i]], c, src);
    FromAppend(a, c, src);
    FromOne(q[i], src);
    if src == q[i].src { FromMember(a, src); }
  }

  /** A granted ticket: there is a message to take, and the scan finds one from the sender asked for. */
  lemma TicketMeansMessage(me: int, b: Box, ph: Phase)
    requires Inv(me, b, ph) && !ph.Outside? && !Blocked(b, ph)
    ensures b.queue != []
    ensures ph.InFrom? ==> b.queue[Scan(b.queue, ph.src)].src == ph.src
  {
    if ph.InFrom? {
      FromMember(b.queue, ph.src);
      assert From(b.queue, ph.src) != [];
    }
  }

  /** Which message receive takes: the oldest of all, or the oldest from the given sender. */
  function Choice(q: seq<Msg>, ph: Phase): (i: nat)
    requires q != []
    ensures i < |q|
  {
    if ph.InFrom? then Scan(q, ph.src) else 0
  }

  /** The rest of receive: its second P never sleeps, the message taken is the oldest one asked for, and the
      invariant holds again outside receive. */
  lemma TakeKeepsInv(me: int, b: Box, ph: Phase)
    requires Inv(me, b, ph) && !ph.Outside? && !Blocked(b, ph)
    ensures b.queue != []
    ensures var (b', sleeps, m) := Take(b, me, ph);
            && !sleeps && Inv(me, b', Outside)
            && m == b.queue[Choice(b.queue, ph)] && b'.queue == RemoveAt(b.queue, Choice(b.queue, ph))
            && (ph.InFrom? ==> m.src == ph.src)
            && (forall j :: 0 <= j < Choice(b.queue, ph) ==> ph.InFrom? && b.queue[j].src != ph.src)
  {
    TicketMeansMessage(me, b, ph);
    var i := Choice(b.queue, ph);
    var (b', sleeps, m) := Take(b, me, ph);
    assert b.queue[1..] == RemoveAt(b.queue, 0);
    forall src | ValidSrc(src)
      ensures |From(b'.queue, src)| == |From(b.queue, src)| - if src == m.src then 1 else 0
    {
      FromRemove(b.queue, i, src);
    }
    assert ValidSrc(m.src);
    hide From;
    if ph.InAny? { PKeeps(b.pidSem[SemOf(m.src)], me); } else { PKeeps(b.anySem, me); }
    TakeSems(me, b, ph, b', m);
  }

  lemma TakeSems(me: int, b: Box, ph: Phase, b': Box, m: Msg)
    requires Inv(me, b, ph) && !ph.Outside? && b.queue != []
    requires (b', false, m) == Take(b, me, ph) && ValidSrc(m.src) && m == b.queue[Choice(b.queue, ph)]
    requires ph.InFrom? ==> m.src == ph.src
    requires ph.InAny? ==>
             SemInv(b'.pidSem[SemOf(m.src)], me) && b'.pidSem[SemOf(m.src)].token == b.pidSem[SemOf(m.src)].token - 1
    requires ph.InFrom? ==> SemInv(b'.anySem, me) && b'.anySem.token == b.anySem.token - 1
    requires forall src :: ValidSrc(src) ==>
             |From(b'.queue, src)| == |From(b.queue, src)| - if src == m.src then 1 else 0
    ensures Inv(me, b', Outside)
  {
    hide From, P;
    forall src | ValidSrc(src)
      ensures SemInv(b'.pidSem[SemOf(src)], me) && b'.pidSem[SemOf(src)].token == |From(b'.queue, src)|
    {
    }
  }

  /** What the rest of receive chooses for a process that has asked for src. */
  lemma ChoiceIsOldest(me: int, b: Box, src: int)
    requires Inv(me, b, PhaseOf(src)) && !Blocked(b, PhaseOf(src))
    ensures b.queue != [] && OldestFrom(b.queue, Choice(b.queue, PhaseOf(src)), src)
  {
    TicketMeansMessage(me, b, PhaseOf(src));
    hide Inv, Blocked;
  }

  lemma NoneFrom(q: seq<Msg>, src: int)
    ensures (if src == ANY then q == [] else From(q, src) == []) <==>
            forall i :: 0 <= i < |q| ==> !OldestFrom(q, i, src)
  {
    if src != ANY {
      FromMember(q, src);
      if From(q, src) != [] { assert OldestFrom(q, Scan(q, src), src); }
    } else if q != [] {
      assert OldestFrom(q, 0, src);
    }
  }
}
