/** The scheduler's rings as they are: PCBs linked into the ready, wait and free rings by the nodes inside them. Each
    operation is proved to be the one on sequences. */
module ProcessRings {
  import opened Processes
  import opened Ring
  import opened Pools
  import S = Scheduler

  ghost predicate Different(r: seq<int>, w: seq<int>, f: seq<int>) {
    && S.NoDup(r) && S.NoDup(w) && S.NoDup(f)
    && Separate(r, w) && Separate(w, r) && Separate(r, f) && Separate(f, r) && Separate(w, f) && Separate(f, w)
  }

  class Rings {
    const idle: ListHead
    const waitHead: ListHead
    const freeHead: ListHead
    const pcb: seq<ListHead>
    ghost const nodes: set<ListHead>
    var current: int
    var preCurrent: int

    /** The rings in list order from the head, and the PCBs in no ring. */
    ghost var ready: seq<int>
    ghost var wait: seq<int>
    ghost var free: seq<int>
    ghost var taken: seq<int>

    /** list_entry leads from each node to its process; the heads are no process's nodes. */
    ghost predicate Shape() {
      && |pcb| == POOL_NUM && idle.entry == S.IDLE
      && Numbered(pcb, idle) && Numbered(pcb, waitHead) && Numbered(pcb, freeHead)
      && idle != waitHead && idle != freeHead && waitHead != freeHead
      && idle in nodes && waitHead in nodes && freeHead in nodes && forall i :: 0 <= i < POOL_NUM ==> pcb[i] in nodes
    }

    ghost function View(): S.Sched
      reads this
    {
      S.Sched(ready, wait, free, taken, current, preCurrent)
    }

    ghost predicate Valid()
      reads this, nodes
    {
      Shape() && S.Placed(View()) && Joined(ready, wait, free)
    }

    /** The links spell out the three rings. */
    ghost predicate Joined(r: seq<int>, w: seq<int>, f: seq<int>)
      requires Shape()
      reads nodes
    {
      && InPool(POOL_NUM, r) && InPool(POOL_NUM, w) && InPool(POOL_NUM, f)
      && IsRing(Chain(pcb, idle, r)) && IsRing(Chain(pcb, waitHead, w)) && IsRing(Chain(pcb, freeHead, f))
    }

    /** init_proc: every PCB in the free ring. */
    constructor ()
      ensures Valid() && fresh(nodes) && View() == S.Sched([], [], seq(POOL_NUM, i => i), [], S.IDLE, S.IDLE)
    {
      idle := new ListHead(S.IDLE);
      waitHead := new ListHead(S.IDLE);
      freeHead := new ListHead(S.IDLE);
      var list: seq<ListHead> := [];
      for i := 0 to POOL_NUM
        invariant |list| == i && forall k :: 0 <= k < i ==> fresh(list[k]) && list[k].entry == k
      {
        var n := new ListHead(i);
        list := list + [n];
      }
      pcb := list;
      this.nodes := {idle, waitHead, freeHead} + set n | n in list;
      current, preCurrent := S.IDLE, S.IDLE;
      ready, wait, free, taken := [], [], [], [];
      new;
      assert fresh(nodes);
      Link();
    }

    /** The heads, then the PCBs. */
    method Link()
      requires Shape() && View() == S.Sched([], [], [], [], S.IDLE, S.IDLE)
      modifies this`free, nodes
      ensures Valid() && View() == S.Sched([], [], seq(POOL_NUM, i => i), [], S.IDLE, S.IDLE)
    {
      hide Valid;
      ListInit(idle);
      ListInit(waitHead);
      ListInit(freeHead);
      Alone();
      hide Shape, IsRing;
      FillFree();
    }

    lemma Alone()
      requires Shape() && IsRing([idle]) && IsRing([waitHead]) && IsRing([freeHead])
      ensures IsRing(Chain(pcb, idle, [])) && IsRing(Chain(pcb, waitHead, [])) && IsRing(Chain(pcb, freeHead, []))
    {
      assert Chain(pcb, idle, []) == [idle] && Chain(pcb, waitHead, []) == [waitHead] &&
             Chain(pcb, freeHead, []) == [freeHead];
      hide IsRing;
    }

    /** The loop of init_proc. */
    method FillFree()
      requires Shape() && View() == S.Sched([], [], [], [], S.IDLE, S.IDLE)
      requires IsRing(Chain(pcb, idle, [])) && IsRing(Chain(pcb, waitHead, [])) && IsRing(Chain(pcb, freeHead, []))
      modifies this`free, nodes
      ensures Valid() && View() == S.Sched([], [], seq(POOL_NUM, i => i), [], S.IDLE, S.IDLE)
    {
      hide IsRing, Chain;
      for i := 0 to POOL_NUM
        invariant free == seq(i, k => k)
        invariant IsRing(Chain(pcb, idle, [])) && IsRing(Chain(pcb, waitHead, [])) && InPool(POOL_NUM, free) &&
                  IsRing(Chain(pcb, freeHead, free))
      {
        AppendFree(i, free);
        free := free + [i];
      }
      forall x ensures S.Everyone(View())[x] == if 0 <= x < POOL_NUM then 1 else 0 { OnceEach(POOL_NUM, x); }
    }

    method AppendFree(x: int, ghost f: seq<int>)
      requires Shape() && IsPid(x) && x !in f && InPool(POOL_NUM, f)
      requires IsRing(Chain(pcb, idle, [])) && IsRing(Chain(pcb, waitHead, [])) && IsRing(Chain(pcb, freeHead, f))
      modifies nodes
      ensures IsRing(Chain(pcb, idle, [])) && IsRing(Chain(pcb, waitHead, [])) && InPool(POOL_NUM, f + [x]) &&
              IsRing(Chain(pcb, freeHead, f + [x]))
    {
      Put(x, freeHead, f, idle, [], waitHead, []);
    }

    /** list_del of a process's node. */
    method Unlink(ghost head: ListHead, x: int, ghost s: seq<int>)
      requires Shape() && InPool(POOL_NUM, s) && x in s && IsRing(Chain(pcb, head, s))
      modifies Chain(pcb, head, s)
      ensures IsPid(x) && InPool(POOL_NUM, S.Without(s, x)) && IsRing(Chain(pcb, head, S.Without(s, x)))
    {
      UnlinkAt(pcb, head, x, s, S.IndexOf(s, x));
    }

    /** list_add_before the node of `cur`, a ready process or the head. */
    method InsertBefore(cur: int, x: int, ghost s: seq<int>)
      requires Shape() && InPool(POOL_NUM, s) && (cur == S.IDLE || cur in s) && IsPid(x) && x !in s &&
               IsRing(Chain(pcb, idle, s))
      modifies Chain(pcb, idle, s), pcb[x]
      ensures InPool(POOL_NUM, S.InsertBefore(s, cur, x)) && IsRing(Chain(pcb, idle, S.InsertBefore(s, cur, x)))
    {
      if cur == S.IDLE {
        Append(pcb, idle, x, s);
      } else {
        ghost var i := S.IndexOf(s, cur);
        assert S.InsertBefore(s, cur, x) == s[..i] + [x] + s[i..];
        InsertAt(pcb, idle, x, pcb[cur], s, i);
      }
    }

    function Node(p: int): ListHead
      requires |pcb| == POOL_NUM && (p == S.IDLE || IsPid(p))
    {
      if p == S.IDLE then idle else pcb[p]
    }

    /** Following the links of the ready ring. */
    lemma Neighbours(p: int)
      requires Valid() && (p == S.IDLE || p in ready)
      ensures if p in ready then IsPid(p) else p == S.IDLE
      ensures var n := S.Next(ready, p); (n == S.IDLE || IsPid(n)) && Node(p).next == Node(n)
      ensures p in ready ==> var q := S.Prev(ready, p); (q == S.IDLE || IsPid(q)) && Node(p).prev == Node(q)
    {
      Roles();
      var c := Chain(pcb, idle, ready);
      var i := if p == S.IDLE then 0 else S.IndexOf(ready, p) + 1;
      assert c[i] == Node(p);
      if i + 1 < |c| { assert c[i].next == c[i + 1]; }
      if i > 0 { assert c[i - 1].next == c[i - 1 + 1] && c[i - 1 + 1].prev == c[i - 1]; }
    }

    /** What keeps the rings apart. */
    lemma Roles()
      requires Valid()
      ensures Different(ready, wait, free) && InPool(POOL_NUM, taken)
    {
      S.PlacedApart(View());
      forall i | 0 <= i < |taken| ensures 0 <= taken[i] < POOL_NUM { assert taken[i] in taken; }
    }

    /** schedule() */
    method Schedule()
      requires Valid() && (preCurrent == S.IDLE || preCurrent in ready)
      modifies this`current, this`preCurrent
      ensures Valid() && View() == S.Schedule(old(View()))
    {
      Scheduling();
      hide Joined, S.Placed, S.Next, Shape, IsPid;
      current := Node(preCurrent).next.entry;
      if current == S.IDLE {
        current := idle.next.entry;
      }
      preCurrent := current;
    }

    lemma Scheduling()
      requires Valid() && (preCurrent == S.IDLE || preCurrent in ready)
      ensures |pcb| == POOL_NUM && (preCurrent == S.IDLE || IsPid(preCurrent))
      ensures idle.next != null && idle.next.entry == S.Next(ready, S.IDLE)
      ensures Node(preCurrent).next != null && Node(preCurrent).next.entry == S.Next(ready, preCurrent)
      ensures S.Placed(S.Schedule(View()))
    {
      hide Joined, S.Placed, S.Next;
      NextEntry(preCurrent);
      NextEntry(S.IDLE);
      S.SamePlaces(View(), S.Schedule(View()));
    }

    lemma NextEntry(p: int)
      requires Valid() && (p == S.IDLE || p in ready)
      ensures |pcb| == POOL_NUM && Node(S.IDLE) == idle && if p in ready then IsPid(p) else p == S.IDLE
      ensures Node(p).next != null && Node(p).next.entry == S.Next(ready, p)
    {
      hide Joined, S.Placed, S.Next;
      Neighbours(p);
    }

    /** What sleep() and wrap need to know before they move the current process. */
    lemma Leaving()
      requires Valid() && current in ready
      ensures Different(ready, wait, free) && IsPid(current)
      ensures Node(current).prev != null && Node(current).prev.entry == S.Prev(ready, current)
      ensures S.Placed(S.Park(View())) && S.Placed(S.Retire(View()))
    {
      hide Joined, S.Placed, S.Prev, S.Without, Different;
      Roles();
      Neighbours(current);
      S.LeaveEveryone(View());
      S.SamePlaces(View(), S.Park(View()));
      S.SamePlaces(View(), S.Retire(View()));
    }

    /** The moves of sleep(): the current process goes to the end of the wait ring. */
    method Park()
      requires Valid() && current in ready
      modifies this`ready, this`wait, this`preCurrent, nodes
      ensures Valid() && View() == S.Park(old(View()))
    {
      hide Joined, Different, S.Without, S.Prev, S.Next, S.Placed, InPool;
      ghost var s := View();
      Leaving();
      hide Shape;
      preCurrent := Node(current).prev.entry;
      ReadyToWait(current, ready, wait, free);
      ready := S.Without(ready, current);
      wait := wait + [current];
    }

    /** The moves of wrap: the current process goes to the end of the free ring. */
    method Retire()
      requires Valid() && current in ready
      modifies this`ready, this`free, this`preCurrent, nodes
      ensures Valid() && View() == S.Retire(old(View()))
    {
      hide Joined, Different, S.Without, S.Prev, S.Next, S.Placed, InPool;
      ghost var s := View();
      Leaving();
      hide Shape;
      preCurrent := Node(current).prev.entry;
      ToFree(current, ready, wait, free);
      ready := S.Without(ready, current);
      free := free + [current];
    }

    /** exit of another process: list_del from whichever ring it is in. */
    method Remove(p: int)
      requires Valid() && (p in ready || p in wait)
      modifies this`ready, this`wait, this`free, nodes
      ensures Valid() && View() == S.Remove(old(View()), p)
    {
      hide Joined, Shape, Different, S.Without, S.Placed, InPool;
      ghost var s := View();
      Roles();
      S.RemoveEveryone(s, p);
      S.SamePlaces(s, S.Remove(s, p));
      ToFree(p, ready, wait, free);
      assert View() == s;
      if p in ready { ready := S.Without(ready, p); } else { wait := S.Without(wait, p); }
      free := free + [p];
    }

    /** create_kthread: list_entry(free_pcb.list.next), moved to the wait ring. */
    method Create() returns (p: int)
      requires Valid() && free != []
      modifies this`free, this`wait, nodes
      ensures Valid() && View() == S.Create(old(View())) && p == old(free[0])
    {
      hide Joined, Different, S.Without, S.Placed, InPool;
      ghost var s := View();
      Roles();
      FirstFree();
      S.FreeEveryone(s);
      S.SamePlaces(s, S.Create(s));
      p := freeHead.next.entry;
      FreeToWait(p, ready, wait, free);
      free := free[1..];
      wait := wait + [p];
    }

    /** The first half of create_process and of fork: list_entry(free_pcb.list.next), unlinked. */
    method Reserve() returns (p: int)
      requires Valid() && free != []
      modifies this`free, this`taken, nodes
      ensures Valid() && View() == S.TakeFree(old(View())) && p == old(free[0])
    {
      hide Joined, Different, S.Without, S.Placed, InPool;
      ghost var s := View();
      Roles();
      FirstFree();
      S.FreeEveryone(s);
      S.SamePlaces(s, S.TakeFree(s));
      p := freeHead.next.entry;
      OutOfFree(p, ready, wait, free);
      free := free[1..];
      taken := taken + [p];
    }

    /** The second half: to the end of the wait ring. */
    method Admit(p: int)
      requires Valid() && p in taken
      modifies this`taken, this`wait, nodes
      ensures Valid() && View() == S.Enter(old(View()), p)
    {
      Roles();
      S.EnterEveryone(View(), p);
      S.SamePlaces(View(), S.Enter(View(), p));
      TakenAlone(p);
      hide Joined, Shape, Different, S.Without, S.Placed, InPool;
      IntoWait(p, ready, wait, free);
      taken := S.Without(taken, p);
      wait := wait + [p];
    }

    lemma TakenAlone(p: int)
      requires Valid() && p in taken
      ensures IsPid(p) && p !in ready && p !in wait && p !in free
    {
      S.PlacedApart(View());
    }

    /** wakeup(p): list_foreach over the wait ring; if p is there, list_del, and list_add_before the current one. */
    method Wakeup(p: int)
      requires Valid() && IsPid(p) && (current == S.IDLE || current in ready)
      modifies this`ready, this`wait, nodes
      ensures Valid() && View() == S.Wakeup(old(View()), p)
    {
      hide S.Placed, S.Without, S.InsertBefore, IsRing;
      var found := InWait(p);
      if found { WakeMove(p); }
    }

    method WakeMove(p: int)
      requires Valid() && p in wait && (current == S.IDLE || current in ready)
      modifies this`ready, this`wait, nodes
      ensures Valid() && View() == S.Wakeup(old(View()), p)
    {
      hide Joined, Different, S.Without, S.Placed, InPool, S.InsertBefore, Shape;
      ghost var s := View();
      Roles();
      S.WakeEveryone(s, p);
      S.SamePlaces(s, S.Wakeup(s, p));
      WaitToReady(p, current, ready, wait, free);
      assert View() == s;
      ready := S.InsertBefore(ready, current, p);
      wait := S.Without(wait, p);
    }

    method InWait(p: int) returns (found: bool)
      requires Valid() && IsPid(p)
      ensures found <==> p in wait
    {
      WaitNode(p);
      ghost var at;
      found, at := ListFind(waitHead, pcb[p], Chain(pcb, waitHead, wait));
    }

    // The pointer work, on rings given as sequences.

    method ReadyToWait(x: int, ghost r: seq<int>, ghost w: seq<int>, ghost f: seq<int>)
      requires Shape() && Joined(r, w, f) && Different(r, w, f) && x in r
      modifies nodes
      ensures Joined(S.Without(r, x), w + [x], f)
    {
      hide IsRing, Chain, S.Without, S.NoDup, Separate, InPool;
      Move(x, idle, r, waitHead, w, freeHead, f);
    }

    method ToFree(x: int, ghost r: seq<int>, ghost w: seq<int>, ghost f: seq<int>)
      requires Shape() && Joined(r, w, f) && Different(r, w, f) && (x in r || x in w)
      modifies nodes
      ensures if x in r then Joined(S.Without(r, x), w, f + [x]) else Joined(r, S.Without(w, x), f + [x])
    {
      hide IsRing, Chain, S.Without, S.NoDup, Separate, InPool;
      Move(x, if x in r then idle else waitHead, if x in r then r else w, freeHead, f,
           if x in r then waitHead else idle, if x in r then w else r);
    }

    method FreeToWait(x: int, ghost r: seq<int>, ghost w: seq<int>, ghost f: seq<int>)
      requires Shape() && Joined(r, w, f) && Different(r, w, f) && x in f
      modifies nodes
      ensures Joined(r, w + [x], S.Without(f, x))
    {
      hide IsRing, Chain, S.Without, S.NoDup, Separate, InPool;
      Move(x, freeHead, f, waitHead, w, idle, r);
    }

    method OutOfFree(x: int, ghost r: seq<int>, ghost w: seq<int>, ghost f: seq<int>)
      requires Shape() && Joined(r, w, f) && Different(r, w, f) && x in f
      modifies nodes
      ensures Joined(r, w, S.Without(f, x))
    {
      hide IsRing, Chain, S.Without, S.NoDup, Separate, InPool;
      Drop(x, freeHead, f, waitHead, w, idle, r);
    }

    method IntoWait(x: int, ghost r: seq<int>, ghost w: seq<int>, ghost f: seq<int>)
      requires Shape() && Joined(r, w, f) && Different(r, w, f) && IsPid(x) && x !in r && x !in w && x !in f
      modifies nodes
      ensures Joined(r, w + [x], f)
    {
      hide IsRing, Chain, S.NoDup, Separate, InPool;
      Put(x, waitHead, w, freeHead, f, idle, r);
    }

    method WaitToReady(x: int, cur: int, ghost r: seq<int>, ghost w: seq<int>, ghost f: seq<int>)
      requires Shape() && Joined(r, w, f) && Different(r, w, f) && x in w && (cur == S.IDLE || cur in r)
      modifies nodes
      ensures Joined(S.InsertBefore(r, cur, x), S.Without(w, x), f)
    {
      hide IsRing, Chain, S.NoDup, Separate, InPool, S.InsertBefore;
      Drop(x, waitHead, w, idle, r, freeHead, f);
      Front(x, cur, r, S.Without(w, x), f);
    }

    /** list_del. The other rings are not touched. */
    method Drop(x: int, ghost head: ListHead, ghost s: seq<int>, ghost other: ListHead, ghost s': seq<int>,
                ghost third: ListHead, ghost s'': seq<int>)
      requires Shape() && {head, other, third} == {idle, waitHead, freeHead} && head != other && head != third
      requires InPool(POOL_NUM, s) && InPool(POOL_NUM, s') && InPool(POOL_NUM, s'') && x in s && S.NoDup(s) &&
               Separate(s, s') && Separate(s, s'')
      requires IsRing(Chain(pcb, head, s)) && IsRing(Chain(pcb, other, s')) && IsRing(Chain(pcb, third, s''))
      modifies nodes
      ensures IsPid(x) && InPool(POOL_NUM, S.Without(s, x)) && x !in S.Without(s, x) && x !in s' && x !in s''
      ensures Separate(S.Without(s, x), s') && Separate(S.Without(s, x), s'')
      ensures IsRing(Chain(pcb, head, S.Without(s, x))) && IsRing(Chain(pcb, other, s')) &&
              IsRing(Chain(pcb, third, s''))
    {
      S.WithoutGone(s, x);
      S.WithoutPart(s, x);
      Apart(pcb, head, s, other, s');
      Apart(pcb, head, s, third, s'');
      hide IsRing, Chain, S.Without;
      label linked:
      Unlink(head, x, s);
      Untouched@linked(Chain(pcb, other, s'));
      Untouched@linked(Chain(pcb, third, s''));
    }

    /** list_add_before a head. The other rings are not touched. */
    method Put(x: int, head: ListHead, ghost s: seq<int>, ghost other: ListHead, ghost s': seq<int>,
               ghost third: ListHead, ghost s'': seq<int>)
      requires Shape() && {head, other, third} == {idle, waitHead, freeHead} && head != other && head != third
      requires InPool(POOL_NUM, s) && InPool(POOL_NUM, s') && InPool(POOL_NUM, s'') && IsPid(x) && x !in s &&
               x !in s' && x !in s''
      requires Separate(s, s') && Separate(s, s'')
      requires IsRing(Chain(pcb, head, s)) && IsRing(Chain(pcb, other, s')) && IsRing(Chain(pcb, third, s''))
      modifies nodes
      ensures InPool(POOL_NUM, s + [x])
      ensures IsRing(Chain(pcb, head, s + [x])) && IsRing(Chain(pcb, other, s')) && IsRing(Chain(pcb, third, s''))
    {
      Apart(pcb, head, s + [x], other, s');
      Apart(pcb, head, s + [x], third, s'');
      assert Chain(pcb, head, s + [x]) == Chain(pcb, head, s) + [pcb[x]];
      hide IsRing, Chain;
      label linked:
      Append(pcb, head, x, s);
      Untouched@linked(Chain(pcb, other, s'));
      Untouched@linked(Chain(pcb, third, s''));
    }

    /** list_add_before the current process's node. The other rings are not touched. */
    method Front(x: int, cur: int, ghost r: seq<int>, ghost w: seq<int>, ghost f: seq<int>)
      requires Shape() && InPool(POOL_NUM, r) && InPool(POOL_NUM, w) && InPool(POOL_NUM, f) && IsPid(x) && x !in r &&
               x !in w && x !in f
      requires (cur == S.IDLE || cur in r) && Separate(r, f) && Separate(w, r)
      requires IsRing(Chain(pcb, idle, r)) && IsRing(Chain(pcb, waitHead, w)) && IsRing(Chain(pcb, freeHead, f))
      modifies nodes
      ensures InPool(POOL_NUM, S.InsertBefore(r, cur, x)) && IsRing(Chain(pcb, idle, S.InsertBefore(r, cur, x)))
      ensures IsRing(Chain(pcb, waitHead, w)) && IsRing(Chain(pcb, freeHead, f))
    {
      assert Separate(r + [x], w) && Separate(r + [x], f);
      Apart(pcb, idle, r + [x], freeHead, f);
      Apart(pcb, idle, r + [x], waitHead, w);
      assert Chain(pcb, idle, r + [x]) == Chain(pcb, idle, r) + [pcb[x]];
      hide IsRing, Chain, S.InsertBefore;
      label linked:
      InsertBefore(cur, x, r);
      Untouched@linked(Chain(pcb, waitHead, w));
      Untouched@linked(Chain(pcb, freeHead, f));
    }

    /** list_del from one ring and list_add_before the head of another; the third ring is not touched. */
    method Move(x: int, ghost from: ListHead, ghost s: seq<int>, to: ListHead, ghost s': seq<int>,
                ghost other: ListHead, ghost s'': seq<int>)
      requires Shape() && {from, to, other} == {idle, waitHead, freeHead} && from != to && to != other && from != other
      requires InPool(POOL_NUM, s) && InPool(POOL_NUM, s') && InPool(POOL_NUM, s'') && x in s && S.NoDup(s)
      requires Separate(s, s') && Separate(s, s'') && Separate(s', s'')
      requires IsRing(Chain(pcb, from, s)) && IsRing(Chain(pcb, to, s')) && IsRing(Chain(pcb, other, s''))
      modifies nodes
      ensures InPool(POOL_NUM, S.Without(s, x)) && InPool(POOL_NUM, s' + [x])
      ensures IsRing(Chain(pcb, from, S.Without(s, x))) && IsRing(Chain(pcb, to, s' + [x])) &&
              IsRing(Chain(pcb, other, s''))
    {
      hide IsRing, Chain, S.Without, S.NoDup, InPool;
      Drop(x, from, s, to, s', other, s'');
      Put(x, to, s', from, S.Without(s, x), other, s'');
    }

    lemma FirstFree()
      requires Valid() && free != []
      ensures freeHead.next != null && freeHead.next.entry == free[0] && IsPid(free[0]) &&
              S.Without(free, free[0]) == free[1..]
    {
      var c := Chain(pcb, freeHead, free);
      assert c[0].next == c[0 + 1];
    }

    /** A process is in the wait ring exactly when its node is among the nodes after the head. */
    lemma WaitNode(p: int)
      requires Valid() && IsPid(p)
      ensures pcb[p] in Chain(pcb, waitHead, wait)[1..] <==> p in wait
    {
      var c := Chain(pcb, waitHead, wait);
      forall i | 0 <= i < |wait| ensures c[1..][i] == pcb[wait[i]] { }
    }
  }
}
