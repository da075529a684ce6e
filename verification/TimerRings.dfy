/** The timer driver as it is: a hundred records, linked into the delta queue or into the free ring, or lost. */
module TimerRings {
  import opened Ring
  import opened TimerQueue
  import P = Pools

  /** The records of a ring, in order. */
  function Waiting(w: seq<nat>, pid: seq<nat>, sec: seq<int>): (r: seq<Node>)
    requires P.InPool(NODES, w) && |pid| == |sec| == NODES
    ensures |r| == |w|
  {
    seq(|w|, i requires 0 <= i < |w| => Node(w[i], pid[w[i]], sec[w[i]]))
  }

  class Timer {
    const waitHead: ListHead
    const freeHead: ListHead
    const node: seq<ListHead>
    ghost const repr: set<ListHead>
    var pid: seq<nat>
    var sec: seq<int>
    var sent: seq<nat>

    /** The two rings in list order from the head. */
    ghost var wait: seq<nat>
    ghost var free: seq<nat>

    ghost predicate Shape() {
      && |node| == NODES && freeHead != waitHead && P.Numbered(node, freeHead) && P.Numbered(node, waitHead)
      && freeHead in repr && waitHead in repr && forall i :: 0 <= i < NODES ==> node[i] in repr
    }

    ghost predicate Valid()
      reads this, repr
    {
      Shape() && |pid| == |sec| == NODES && P.Unshared(wait, free) && Joined(wait, free)
    }

    ghost predicate Joined(w: seq<nat>, f: seq<nat>)
      requires Shape()
      reads repr
    {
      && P.InPool(NODES, w) && P.InPool(NODES, f)
      && IsRing(P.Chain(node, waitHead, w)) && IsRing(P.Chain(node, freeHead, f))
    }

    ghost function View(): State
      requires Valid()
      reads this, repr
    {
      State(Waiting(wait, pid, sec), free)
    }

    constructor ()
      ensures Valid() && fresh(repr) && View() == Start() && sent == []
    {
      freeHead := new ListHead(-1);
      waitHead := new ListHead(-1);
      var list: seq<ListHead> := [];
      for i := 0 to NODES
        invariant |list| == i && forall k :: 0 <= k < i ==> fresh(list[k]) && list[k].entry == k
      {
        var n := new ListHead(i);
        list := list + [n];
      }
      node := list;
      this.repr := {freeHead, waitHead} + set n | n in list;
      pid, sec, sent := seq(NODES, _ => 0), seq(NODES, _ => 0), [];
      wait, free := [], [];
      new;
      assert fresh(repr);
      InitWaitList();
    }

    /** init_wait_list */
    method InitWaitList()
      requires Shape() && |pid| == |sec| == NODES
      modifies this`free, this`wait, repr
      ensures Valid() && View() == Start()
    {
      ListInit(waitHead);
      ListInit(freeHead);
      free, wait := [], [];
      assert P.Chain(node, freeHead, []) == [freeHead] && P.Chain(node, waitHead, []) == [waitHead];
      FillFree();
    }

    method FillFree()
      requires Shape() && |pid| == |sec| == NODES && wait == free == [] && Joined([], [])
      modifies this`free, repr
      ensures Valid() && View() == Start()
    {
      hide IsRing, P.Chain, P.Numbered, P.Unshared;
      for i := 0 to NODES
        invariant free == seq(i, k requires 0 <= k < i => k) && Joined([], free)
      {
        Within(freeHead, free);
        P.AddTo(node, freeHead, i, free, waitHead, []);
        free := free + [i];
      }
      AllUnshared(free);
    }

    method AddTimeEvent(p: nat, n: int)
      requires Valid() && Ready(View(), Add(p, n))
      modifies this, repr
      ensures Valid() && View() == Step(old(View()), Add(p, n))
      ensures sent == old(sent) + Sent(old(View()), Add(p, n))
    {
      var x := TakeFree();
      NotWaiting(wait, pid, sec, x, p, n);
      pid, sec := pid[x := p], sec[x := n];
      if n <= 0 {
        sent := sent + [p];
        return;
      }
      hide Insert;
      WaitInsert(x);
    }

    /** list_del of the first free node, which is now in neither ring. */
    method TakeFree() returns (x: nat)
      requires Valid() && free != []
      modifies this`free, repr
      ensures Valid() && x == old(free[0]) && free == old(free)[1..] && x < NODES && x !in wait && x !in free
    {
      hide IsRing, P.Chain, P.Numbered, P.Unshared;
      ghost var f, w := free, wait;
      P.Parted(f, w, 0);
      FirstOf(freeHead, f);
      x := freeHead.next.entry;
      P.Apart(node, freeHead, f, waitHead, w);
      Within(freeHead, f);
      label linked:
      P.UnlinkAt(node, freeHead, x, f, 0);
      P.Untouched@linked(P.Chain(node, waitHead, w));
      assert f[..0] + f[1..] == f[1..];
      FewerUnshared(w, f);
      free := f[1..];
    }

    lemma FirstOf(head: ListHead, s: seq<nat>)
      requires Shape() && P.InPool(NODES, s) && IsRing(P.Chain(node, head, s)) && s != []
      ensures head.next != null && head.next.entry == s[0]
    {
      var c := P.Chain(node, head, s);
      assert c[0].next == c[0 + 1];
    }

    lemma Within(head: ListHead, s: seq<nat>)
      requires Shape() && head in {freeHead, waitHead} && P.InPool(NODES, s)
      ensures forall n :: n in P.Chain(node, head, s) ==> n in repr
    {
    }

    /** The walk through the waiting nodes, and list_add_before. */
    method WaitInsert(x: nat)
      requires Valid() && x < NODES && x !in wait && x !in free
      modifies this`wait, this`sec, repr
      ensures Valid() && free == old(free)
      ensures View().wait == Insert(old(View().wait), Node(x, old(pid[x]), old(sec[x])))
    {
      hide Insert, IsRing, P.Chain, P.Numbered, P.Unshared, Waiting, Shape, Joined;
      var ptr;
      ghost var k;
      ptr, k := Walk(x);
      Fields();
      WaitingInserted(wait, pid, sec, k, x);
      AddBefore(ptr, x, k);
    }

    /** The list_foreach: where to go in, with the delta of the node behind already set right. */
    method Walk(x: nat) returns (ptr: ListHead, ghost k: nat)
      requires Valid() && x < NODES && x !in wait
      modifies this`sec
      ensures Valid() && k <= |wait| && ptr == if k < |wait| then node[wait[k]] else waitHead
      ensures var q := View().wait;
              Insert(old(View().wait), Node(x, pid[x], old(sec[x]))) == q[..k] + [Node(x, pid[x], sec[x])] + q[k..]
    {
      hide Insert, Walked, IsRing, P.Chain, P.Numbered, P.Unshared, Waiting, Shape, Joined;
      ghost var q, x0 := View().wait, Node(x, pid[x], sec[x]);
      k := 0;
      WalkStarts(q, x0);
      NextOf(0);
      ptr := waitHead.next;
      while ptr != waitHead
        invariant Valid() && k <= |wait| && ptr == (if k < |wait| then node[wait[k]] else waitHead)
        invariant View().wait == q && Walked(q, x0, k, Node(x, pid[x], sec[x]))
        decreases |wait| - k
      {
        NextOf(k + 1);
        At(k);
        WalkStep(q, x0, k, Node(x, pid[x], sec[x]));
        var found := Compare(x, ptr.entry, k);
        if found { return; }
        ptr := ptr.next;
        k := k + 1;
      }
      if k < |wait| { At(k); }
      WalkEnds(q, x0, k, Node(x, pid[x], sec[x]));
    }

    /** One round of it. */
    method Compare(x: nat, y: nat, ghost k: nat) returns (found: bool)
      requires Valid() && x < NODES && x !in wait && k < |wait| && y == wait[k]
      modifies this`sec
      ensures Valid() && found == (old(sec[x]) < old(View().wait[k].sec))
      ensures var q, d := old(View().wait), old(sec[x]);
              if found then View().wait == q[k := q[k].(sec := q[k].sec - d)] && sec[x] == d
              else View().wait == q && sec[x] == d - q[k].sec
    {
      hide IsRing, P.Chain, P.Numbered, P.Unshared, Waiting, Shape, Joined;
      Fields();
      At(k);
      found := sec[x] < sec[y];
      if found {
        P.Parted(wait, free, k);
        WaitingUpdated(wait, pid, sec, k, sec[y] - sec[x]);
        sec := sec[y := sec[y] - sec[x]];
      } else {
        NotWaiting(wait, pid, sec, x, pid[x], sec[x] - sec[y]);
        assert pid[x := pid[x]] == pid;
        sec := sec[x := sec[x] - sec[y]];
      }
    }

    lemma Fields()
      requires Valid()
      ensures Shape() && |node| == |pid| == |sec| == NODES && P.InPool(NODES, wait)
    {
    }

    /** The node behind the k-th of the waiting ring, the head being the 0-th. */
    lemma NextOf(k: nat)
      requires Valid() && k <= |wait|
      ensures |node| == NODES && P.InPool(NODES, wait)
      ensures (if k == 0 then waitHead else node[wait[k - 1]]).next == if k < |wait| then node[wait[k]] else waitHead
    {
      var c := P.Chain(node, waitHead, wait);
      assert c[k].next == if k + 1 < |c| then c[k + 1] else c[0];
    }

    lemma At(k: nat)
      requires Valid() && k < |wait|
      ensures wait[k] < NODES == |node| && node[wait[k]].entry == wait[k] && node[wait[k]] != waitHead
      ensures View().wait[k] == Node(wait[k], pid[wait[k]], sec[wait[k]])
    {
    }

    /** A node in neither ring: linking it to the waiting ones leaves the free ring alone. */
    lemma Loose(x: nat)
      requires Valid() && x < NODES && x !in wait && x !in free
      ensures |node| == NODES && node[x] in repr && P.Numbered(node, waitHead)
      ensures P.InPool(NODES, wait) && P.InPool(NODES, free)
      ensures forall n :: n in P.Chain(node, waitHead, wait) ==> n in repr && n !in P.Chain(node, freeHead, free)
      ensures node[x] !in P.Chain(node, freeHead, free)
    {
      RingsApart(wait, free);
      P.Apart(node, waitHead, wait, freeHead, free);
      P.NotThere(node, freeHead, free, x);
      Within(waitHead, wait);
      hide IsRing, P.Chain, P.Unshared;
    }

    /** list_add_before a waiting node or the head. */
    method AddBefore(ptr: ListHead, x: nat, ghost k: nat)
      requires Valid() && x < NODES && x !in wait && x !in free && k <= |wait|
      requires ptr == if k < |wait| then node[wait[k]] else waitHead
      modifies this`wait, repr
      ensures Valid() && wait == old(wait)[..k] + [x] + old(wait)[k..]
    {
      ghost var w, f := wait, free;
      if k < |w| { At(k); }
      MoreUnshared(w, f, k, x);
      Loose(x);
      hide IsRing, P.Chain, P.Numbered, P.Unshared, Waiting, Shape;
      label linked:
      if ptr == waitHead {
        P.Append(node, waitHead, x, w);
        assert w[..k] + [x] + w[k..] == w + [x];
      } else {
        P.InsertAt(node, waitHead, x, ptr, w, k);
      }
      P.Untouched@linked(P.Chain(node, freeHead, f));
      wait := w[..k] + [x] + w[k..];
    }

    method TimeEventProc()
      requires Valid()
      modifies this, repr
      ensures Valid() && View() == Step(old(View()), Tick)
      ensures sent == old(sent) + Sent(old(View()), Tick)
    {
      TickMeans(View());
      Links();
      hide Step, Sent, Ids, Pids, DueLen, IsRing, P.Chain, P.Numbered, P.Unshared, Waiting, Shape, Joined;
      var empty := ListEmpty(waitHead, P.Chain(node, waitHead, wait));
      if !empty {
        TickFirst();
        SendDue();
      }
    }

    /** One second less before the first waiting node. */
    method TickFirst()
      requires Valid() && wait != []
      modifies this`sec
      ensures Valid()
      ensures var q := old(View().wait); View().wait == q[0 := q[0].(sec := q[0].sec - 1)]
    {
      hide IsRing, P.Chain, P.Numbered, P.Unshared, Waiting, Shape, Joined;
      Fields();
      NextOf(0);
      At(0);
      var first := waitHead.next.entry;
      P.Parted(wait, free, 0);
      WaitingUpdated(wait, pid, sec, 0, sec[first] - 1);
      sec := sec[first := sec[first] - 1];
    }

    lemma Links()
      requires Valid()
      ensures |node| == NODES && P.InPool(NODES, wait) && IsRing(P.Chain(node, waitHead, wait))
      ensures P.Chain(node, waitHead, wait)[0] == waitHead
      ensures P.Chain(node, waitHead, wait) == [waitHead] <==> wait == []
    {
    }

    /** The inner loop: send to the nodes at zero and free them. */
    method SendDue()
      requires Valid()
      modifies this`wait, this`free, this`sent, repr
      ensures Valid()
      ensures var r := old(View().wait);
              && View().wait == r[DueLen(r)..] && free == old(free) + Ids(r[..DueLen(r)])
              && sent == old(sent) + Pids(r[..DueLen(r)])
    {
      hide IsRing, P.Chain, P.Numbered, P.Unshared, Waiting;
      ghost var r, k := View().wait, 0;
      assert r[0..] == r;
      NextOf(0);
      var ptr := waitHead.next;
      while ptr != waitHead
        invariant Valid() && ptr == (if wait != [] then node[wait[0]] else waitHead)
        invariant k <= |r| && View().wait == r[k..] && DueLen(r) == k + DueLen(View().wait)
        invariant free == old(free) + Ids(r[..k]) && sent == old(sent) + Pids(r[..k])
        invariant pid == old(pid) && sec == old(sec)
        decreases |wait|
      {
        var y := ptr.entry;
        At(0);
        WaitingRest(wait, pid, sec);
        if sec[y] == 0 {
          sent := sent + [pid[y]];
          OneMore(r, k);
          ptr := FreeFirst(ptr, y);
          k := k + 1;
        } else {
          break;
        }
      }
      if wait != [] { At(0); }
    }

    /** The first waiting node goes to the end of the free ring; the walk goes on with the one behind it. */
    method FreeFirst(p: ListHead, y: nat) returns (ptr: ListHead)
      requires Valid() && wait != [] && y == wait[0] && p == node[y]
      modifies this`wait, this`free, repr
      ensures Valid() && wait == old(wait)[1..] && free == old(free) + [y]
      ensures ptr == if wait != [] then node[wait[0]] else waitHead
    {
      hide IsRing, P.Chain, P.Numbered, P.Unshared;
      ghost var w, f := wait, free;
      NextOf(1);
      ptr := p.next;
      P.Parted(w, f, 0);
      P.Shifted(w, f, 0);
      assert w[..0] + w[1..] == w[1..];
      SameUnshared(w, f, w[1..], f + [y]);
      Within(waitHead, w);
      Within(freeHead, f);
      P.Shift(node, y, waitHead, w, 0, freeHead, f);
      wait, free := w[1..], f + [y];
    }
  }

  lemma SameUnshared(w: seq<int>, f: seq<int>, w': seq<int>, f': seq<int>)
    requires P.Unshared(w, f) && multiset(w') + multiset(f') == multiset(w) + multiset(f)
    ensures P.Unshared(w', f')
  {
  }

  lemma AllUnshared(free: seq<int>)
    requires |free| == NODES && forall k :: 0 <= k < NODES ==> free[k] == k
    ensures P.Unshared([], free)
  {
    assert free == seq(NODES, k => k);
    forall x ensures multiset(free)[x] <= 1 { P.OnceEach(NODES, x); }
  }

  lemma FewerUnshared(w: seq<int>, f: seq<int>)
    requires f != [] && P.Unshared(w, f)
    ensures P.Unshared(w, f[1..])
  {
    assert f == [f[0]] + f[1..];
    forall x ensures (multiset(w) + multiset(f[1..]))[x] <= 1 {
      assert (multiset(w) + multiset(f))[x] <= 1;
      assert multiset(f)[x] >= multiset(f[1..])[x];
    }
  }

  lemma RingsApart(w: seq<int>, f: seq<int>)
    requires P.Unshared(w, f)
    ensures P.Separate(w, f) && P.Separate(f, w)
  {
    if w != [] { P.Parted(w, f, 0); }
  }

  lemma MoreUnshared(w: seq<int>, f: seq<int>, k: nat, x: int)
    requires P.Unshared(w, f) && k <= |w| && x !in w && x !in f
    ensures P.Unshared(w[..k] + [x] + w[k..], f)
  {
    var r := w[..k] + [x] + w[k..];
    assert w == w[..k] + w[k..];
    assert multiset(r) == multiset(w) + multiset{x};
    forall y ensures (multiset(r) + multiset(f))[y] <= 1 {
      assert (multiset(w) + multiset(f))[y] <= 1;
    }
  }

  lemma WaitingUpdated(w: seq<nat>, pid: seq<nat>, sec: seq<int>, k: nat, v: int)
    requires P.InPool(NODES, w) && |pid| == |sec| == NODES && k < |w| && w[k] !in w[..k] + w[k + 1..]
    ensures Waiting(w, pid, sec[w[k] := v]) == Waiting(w, pid, sec)[k := Node(w[k], pid[w[k]], v)]
  {
    var r := w[..k] + w[k + 1..];
    forall i | 0 <= i < |w| && i != k ensures w[i] != w[k] { assert w[i] == r[if i < k then i else i - 1]; }
  }

  lemma WaitingInserted(w: seq<nat>, pid: seq<nat>, sec: seq<int>, k: nat, x: nat)
    requires P.InPool(NODES, w) && |pid| == |sec| == NODES && k <= |w| && x < NODES
    ensures P.InPool(NODES, w[..k] + [x] + w[k..])
    ensures var q := Waiting(w, pid, sec);
            Waiting(w[..k] + [x] + w[k..], pid, sec) == q[..k] + [Node(x, pid[x], sec[x])] + q[k..]
  {
  }

  lemma WaitingRest(w: seq<nat>, pid: seq<nat>, sec: seq<int>)
    requires P.InPool(NODES, w) && |pid| == |sec| == NODES && w != []
    ensures P.InPool(NODES, w[1..]) && Waiting(w[1..], pid, sec) == Waiting(w, pid, sec)[1..]
  {
  }

  lemma NotWaiting(w: seq<nat>, pid: seq<nat>, sec: seq<int>, x: nat, p: nat, n: int)
    requires P.InPool(NODES, w) && |pid| == |sec| == NODES && x < NODES && x !in w
    ensures Waiting(w, pid[x := p], sec[x := n]) == Waiting(w, pid, sec)
  {
    assert forall i :: 0 <= i < |w| ==> w[i] in w;
  }
}
