/** The message slots of one mailbox as they are: a hundred records, each linked into the ring of free slots or into the
    ring of queued messages. */
module MessageRings {
  import opened Ring
  import opened Pools
  import M = Mailbox

  /** Every slot is in one of the two rings, once. */
  ghost predicate Partition(f: seq<int>, q: seq<int>) {
    && |f| + |q| == M.MSG_NUM
    && forall x :: (multiset(f) + multiset(q))[x] == if 0 <= x < M.MSG_NUM then 1 else 0
  }

  class Slots {
    const freeHead: ListHead
    const msgHead: ListHead
    const node: seq<ListHead>
    ghost const repr: set<ListHead>

    /** What the slots hold, the free ones too. */
    var space: seq<M.Msg>

    /** The rings in list order from the head. */
    ghost var free: seq<int>
    ghost var queue: seq<int>

    ghost predicate Shape() {
      && |node| == M.MSG_NUM && freeHead != msgHead && Numbered(node, freeHead) && Numbered(node, msgHead)
      && freeHead in repr && msgHead in repr && forall i :: 0 <= i < M.MSG_NUM ==> node[i] in repr
    }

    ghost predicate Valid()
      reads this, repr
    {
      Shape() && |space| == M.MSG_NUM && Partition(free, queue) && Joined(free, queue)
    }

    /** The links spell out the two rings. */
    ghost predicate Joined(f: seq<int>, q: seq<int>)
      requires Shape()
      reads repr
    {
      && InPool(M.MSG_NUM, f) && InPool(M.MSG_NUM, q)
      && IsRing(Chain(node, freeHead, f)) && IsRing(Chain(node, msgHead, q))
    }

    /** The queued messages, oldest first. */
    ghost function Queue(): (r: seq<M.Msg>)
      requires Valid()
      reads this, repr
      ensures |r| == |queue|
    {
      Held(space, queue)
    }

    constructor ()
      ensures Valid() && fresh(repr) && Queue() == [] && |free| == M.MSG_NUM
    {
      freeHead := new ListHead(-1);
      msgHead := new ListHead(-1);
      var list: seq<ListHead> := [];
      for i := 0 to M.MSG_NUM
        invariant |list| == i && forall k :: 0 <= k < i ==> fresh(list[k]) && list[k].entry == k
      {
        var n := new ListHead(i);
        list := list + [n];
      }
      node := list;
      this.repr := {freeHead, msgHead} + set n | n in list;
      space := seq(M.MSG_NUM, _ => M.Msg(0, 0));
      free, queue := [], [];
      new;
      assert fresh(repr);
      InitMsg();
    }

    /** The loops of init_msg: whatever was linked before, all slots are free. */
    method InitMsg()
      requires Shape() && |space| == M.MSG_NUM
      modifies this`free, this`queue, repr
      ensures Valid() && queue == [] && Queue() == [] && free == seq(M.MSG_NUM, i => i)
    {
      ListInit(freeHead);
      ListInit(msgHead);
      free, queue := [], [];
      assert Chain(node, freeHead, []) == [freeHead] && Chain(node, msgHead, []) == [msgHead];
      FillFree();
    }

    method FillFree()
      requires Shape() && |space| == M.MSG_NUM && free == [] && queue == [] && Joined([], [])
      modifies this`free, repr
      ensures Valid() && free == seq(M.MSG_NUM, i => i)
    {
      hide IsRing, Chain, Numbered;
      for i := 0 to M.MSG_NUM
        invariant free == seq(i, k => k) && Joined(free, [])
      {
        Within(freeHead, free);
        AddTo(node, freeHead, i, free, msgHead, []);
        free := free + [i];
      }
      forall x ensures (multiset(free) + multiset(queue))[x] == if 0 <= x < M.MSG_NUM then 1 else 0 {
        OnceEach(M.MSG_NUM, x);
      }
    }

    /** send's part: the first free slot gets the message and goes to the end of the queue. */
    method Put(m: M.Msg)
      requires Valid() && free != []
      modifies this, repr
      ensures Valid() && Queue() == old(Queue()) + [m] && |free| == old(|free|) - 1
    {
      hide Partition, Held, Joined, Shape;
      ghost var q, sp := queue, space;
      var x := Grab();
      HeldMore(sp, q, x, m);
      space := space[x := m];
    }

    method Grab() returns (x: int)
      requires Valid() && free != []
      modifies this`free, this`queue, repr
      ensures Valid() && 0 <= x < M.MSG_NUM && InPool(M.MSG_NUM, old(queue)) && InPool(M.MSG_NUM, queue)
      ensures queue == old(queue) + [x] && x !in old(queue) && |free| == old(|free|) - 1
    {
      hide Partition, IsRing, Chain, Numbered;
      ghost var f, q := free, queue;
      FirstOf(freeHead, free);
      x := freeHead.next.entry;
      SlotsUnshared(f, q);
      Parted(f, q, 0);
      Within(freeHead, f);
      Within(msgHead, q);
      Shifted(f, q, 0);
      StillPartition(f, q, f[..0] + f[1..], q + [x]);
      Shift(node, x, freeHead, f, 0, msgHead, q);
      free := f[..0] + f[1..];
      queue := q + [x];
    }

    /** receive's part: a queued slot goes back to the end of the free ring. */
    method Take(x: int, ghost i: nat) returns (m: M.Msg)
      requires Valid() && i < |queue| && queue[i] == x
      modifies this`free, this`queue, repr
      ensures Valid() && m == old(Queue()[i]) && Queue() == M.RemoveAt(old(Queue()), i) && |free| == old(|free|) + 1
    {
      hide Partition, Held, IsRing, Chain, Numbered;
      ghost var f, q := free, queue;
      HeldLess(space, q, i);
      SlotsUnshared(f, q);
      Parted(q, f, i);
      m := space[x];
      Within(freeHead, f);
      Within(msgHead, q);
      Shift(node, x, msgHead, q, i, freeHead, f);
      Shifted(q, f, i);
      StillPartition(f, q, f + [x], q[..i] + q[i + 1..]);
      free := f + [x];
      queue := q[..i] + q[i + 1..];
    }

    lemma Linked()
      requires Valid()
      ensures Shape() && |space| == M.MSG_NUM
    {
    }

    lemma Within(head: ListHead, s: seq<int>)
      requires Shape() && head in {freeHead, msgHead} && InPool(M.MSG_NUM, s)
      ensures forall n :: n in Chain(node, head, s) ==> n in repr
    {
    }

    lemma FirstOf(head: ListHead, s: seq<int>)
      requires Shape() && InPool(M.MSG_NUM, s) && IsRing(Chain(node, head, s)) && s != []
      ensures head.next != null && head.next.entry == s[0]
    {
      var c := Chain(node, head, s);
      assert c[0].next == c[0 + 1];
    }

    /** list_entry(msg_queue.next) */
    method First() returns (x: int)
      requires Valid() && queue != []
      ensures x == queue[0] && 0 <= x < |space| && space[x] == Queue()[0]
    {
      FirstOf(msgHead, queue);
      x := msgHead.next.entry;
    }

    /** The list_foreach of receive: the first message from src, or the last one when there is none. */
    method Scan(src: int) returns (x: int, ghost i: nat)
      requires Valid() && queue != []
      ensures i == M.Scan(Queue(), src) && i < |queue| && x == queue[i]
    {
      hide Partition;
      ghost var c, q := Chain(node, msgHead, queue), Queue();
      assert c[0].next == c[0 + 1];
      var ptr := msgHead.next;
      x, i := ptr.entry, 0;
      assert q[0..] == q;
      while ptr.next != msgHead && space[x].src != src
        invariant i < |queue| && ptr == c[i + 1] && x == queue[i] && ptr.entry == x
        invariant M.Scan(q, src) == i + M.Scan(q[i..], src)
        decreases |queue| - i
      {
        assert i + 2 < |c| && c[i + 1].next == c[i + 1 + 1];
        ptr := ptr.next;
        assert q[i..][1..] == q[i + 1..] && q[i..][0] == space[x];
        i := i + 1;
        x := ptr.entry;
      }
      assert q[i..][0] == space[x];
      if i + 2 < |c| { assert c[i + 1].next == c[i + 1 + 1]; }
    }
  }

  ghost function Held(space: seq<M.Msg>, q: seq<int>): (r: seq<M.Msg>)
    requires InPool(|space|, q)
    ensures |r| == |q|
  {
    seq(|q|, i requires 0 <= i < |q| => space[q[i]])
  }

  lemma HeldMore(space: seq<M.Msg>, q: seq<int>, x: int, m: M.Msg)
    requires InPool(|space|, q) && 0 <= x < |space| && x !in q
    ensures InPool(|space|, q + [x]) && Held(space[x := m], q + [x]) == Held(space, q) + [m]
  {
    assert forall i :: 0 <= i < |q| ==> q[i] in q;
  }

  lemma HeldLess(space: seq<M.Msg>, q: seq<int>, i: nat)
    requires InPool(|space|, q) && i < |q|
    ensures InPool(|space|, q[..i] + q[i + 1..]) && Held(space, q[..i] + q[i + 1..]) == M.RemoveAt(Held(space, q), i)
    ensures Held(space, q)[i] == space[q[i]]
  {
  }

  lemma SlotsUnshared(f: seq<int>, q: seq<int>)
    requires Partition(f, q)
    ensures Unshared(f, q)
  {
  }

  lemma StillPartition(f: seq<int>, q: seq<int>, f': seq<int>, q': seq<int>)
    requires Partition(f, q) && multiset(f') + multiset(q') == multiset(f) + multiset(q) && |f'| + |q'| == |f| + |q|
    ensures Partition(f', q')
  {
  }
}
