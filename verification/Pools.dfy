/** Records of a fixed pool linked into rings by the nodes inside them: a ring is a head and some of the pool's nodes,
    and a node's entry leads back to its record. */
module Pools {
  import opened Ring

  predicate InPool(n: nat, s: seq<int>) { forall i :: 0 <= i < |s| ==> 0 <= s[i] < n }

  ghost predicate Separate(s: seq<int>, s': seq<int>) { forall x :: x in s ==> x !in s' }

  /** list_entry leads from each node to its record, and the head is no record's node. */
  ghost predicate Numbered(pool: seq<ListHead>, head: ListHead) {
    forall i :: 0 <= i < |pool| ==> pool[i].entry == i && pool[i] != head
  }

  /** A head and the nodes of some records. */
  ghost function Chain(pool: seq<ListHead>, head: ListHead, s: seq<int>): (r: seq<ListHead>)
    requires InPool(|pool|, s)
    ensures |r| == |s| + 1
  {
    [head] + NodesOf(pool, s)
  }

  ghost function NodesOf(pool: seq<ListHead>, s: seq<int>): (r: seq<ListHead>)
    requires InPool(|pool|, s)
    ensures |r| == |s|
  {
    seq(|s|, i requires 0 <= i < |s| => pool[s[i]])
  }

  lemma InsertNodes(pool: seq<ListHead>, s: seq<int>, i: nat, x: int)
    requires InPool(|pool|, s) && i <= |s| && 0 <= x < |pool|
    ensures var r := s[..i] + [x] + s[i..];
            InPool(|pool|, r) && NodesOf(pool, r) == NodesOf(pool, s)[..i] + [pool[x]] + NodesOf(pool, s)[i..]
  {
  }

  lemma RemoveNodes(pool: seq<ListHead>, s: seq<int>, i: nat)
    requires InPool(|pool|, s) && i < |s|
    ensures var r := s[..i] + s[i + 1..];
            InPool(|pool|, r) && NodesOf(pool, r) == NodesOf(pool, s)[..i] + NodesOf(pool, s)[i + 1..]
  {
  }

  lemma NotThere(pool: seq<ListHead>, head: ListHead, s: seq<int>, x: int)
    requires Numbered(pool, head) && InPool(|pool|, s) && 0 <= x < |pool| && x !in s
    ensures pool[x] !in Chain(pool, head, s)
  {
    forall j | 0 <= j < |s| ensures pool[s[j]] != pool[x] { assert s[j] in s; }
  }

  /** Different rings have no node in common. */
  lemma Apart(pool: seq<ListHead>, head: ListHead, s: seq<int>, head': ListHead, s': seq<int>)
    requires Numbered(pool, head) && Numbered(pool, head') && head != head'
    requires InPool(|pool|, s) && InPool(|pool|, s') && Separate(s, s')
    ensures forall n :: n in Chain(pool, head, s) ==> n !in Chain(pool, head', s')
  {
    forall i, j | 0 <= i <= |s| && 0 <= j <= |s'| ensures Chain(pool, head, s)[i] != Chain(pool, head', s')[j] {
      if i > 0 && j > 0 { assert s[i - 1] in s && s'[j - 1] in s'; }
    }
  }

  /** list_add_before a head. */
  method Append(pool: seq<ListHead>, head: ListHead, x: int, ghost s: seq<int>)
    requires Numbered(pool, head) && InPool(|pool|, s) && 0 <= x < |pool| && x !in s && IsRing(Chain(pool, head, s))
    modifies Chain(pool, head, s), pool[x]
    ensures InPool(|pool|, s + [x]) && IsRing(Chain(pool, head, s + [x]))
  {
    NotThere(pool, head, s, x);
    assert Chain(pool, head, s + [x]) == Chain(pool, head, s) + [pool[x]];
    ListAddBefore(head, pool[x], Chain(pool, head, s));
  }

  /** list_del of the record that is i-th in the ring. */
  method UnlinkAt(pool: seq<ListHead>, ghost head: ListHead, x: int, ghost s: seq<int>, ghost i: nat)
    requires InPool(|pool|, s) && i < |s| && s[i] == x && IsRing(Chain(pool, head, s))
    modifies Chain(pool, head, s)
    ensures InPool(|pool|, s[..i] + s[i + 1..]) && IsRing(Chain(pool, head, s[..i] + s[i + 1..]))
  {
    ghost var c := Chain(pool, head, s);
    assert c[i + 1] == pool[x];
    RemoveNodes(pool, s, i);
    hide IsRing, NodesOf, InPool;
    assert Chain(pool, head, s[..i] + s[i + 1..]) == c[..i + 1] + c[i + 2..];
    ListDel(pool[x], c, i + 1);
  }

  /** list_add_before the record that is i-th in the ring. */
  method InsertAt(pool: seq<ListHead>, ghost head: ListHead, x: int, at: ListHead, ghost s: seq<int>, ghost i: nat)
    requires Numbered(pool, head) && InPool(|pool|, s) && 0 <= x < |pool| && x !in s && IsRing(Chain(pool, head, s))
    requires i < |s| && at == pool[s[i]]
    modifies Chain(pool, head, s), pool[x]
    ensures InPool(|pool|, s[..i] + [x] + s[i..]) && IsRing(Chain(pool, head, s[..i] + [x] + s[i..]))
  {
    ghost var c := Chain(pool, head, s);
    NotThere(pool, head, s, x);
    InsertNodes(pool, s, i, x);
    assert c[i + 1] == at;
    InsertBehind(head, NodesOf(pool, s), i, pool[x]);
    hide IsRing, NodesOf, InPool, Numbered;
    ListInsert(at, pool[x], c, i + 1);
  }

  /** list_del from one ring, list_add_before the head of another. */
  method Shift(pool: seq<ListHead>, x: int, ghost from: ListHead, ghost s: seq<int>, ghost i: nat, to: ListHead,
               ghost s': seq<int>)
    requires Numbered(pool, from) && Numbered(pool, to) && from != to && i < |s| && s[i] == x
    requires InPool(|pool|, s) && InPool(|pool|, s') && Separate(s, s') && x !in s[..i] + s[i + 1..]
    requires IsRing(Chain(pool, from, s)) && IsRing(Chain(pool, to, s'))
    modifies Chain(pool, from, s), Chain(pool, to, s')
    ensures InPool(|pool|, s[..i] + s[i + 1..]) && IsRing(Chain(pool, from, s[..i] + s[i + 1..]))
    ensures InPool(|pool|, s' + [x]) && IsRing(Chain(pool, to, s' + [x]))
  {
    Apart(pool, from, s, to, s');
    InChain(pool, from, s, i);
    hide IsRing, Chain;
    label linked:
    UnlinkAt(pool, from, x, s, i);
    Untouched@linked(Chain(pool, to, s'));
    AddTo(pool, to, x, s', from, s[..i] + s[i + 1..]);
  }

  /** list_add_before a head; another ring is not touched. */
  method AddTo(pool: seq<ListHead>, head: ListHead, x: int, ghost s: seq<int>, ghost other: ListHead,
               ghost s': seq<int>)
    requires Numbered(pool, head) && Numbered(pool, other) && head != other && 0 <= x < |pool|
    requires InPool(|pool|, s) && InPool(|pool|, s') && Separate(s, s') && x !in s && x !in s'
    requires IsRing(Chain(pool, head, s)) && IsRing(Chain(pool, other, s'))
    modifies Chain(pool, head, s), pool[x]
    ensures InPool(|pool|, s + [x]) && IsRing(Chain(pool, head, s + [x])) && IsRing(Chain(pool, other, s'))
  {
    Apart(pool, head, s + [x], other, s');
    assert Chain(pool, head, s + [x]) == Chain(pool, head, s) + [pool[x]];
    hide IsRing, Chain;
    label linked:
    Append(pool, head, x, s);
    Untouched@linked(Chain(pool, other, s'));
  }

  lemma InChain(pool: seq<ListHead>, head: ListHead, s: seq<int>, i: nat)
    requires InPool(|pool|, s) && i < |s|
    ensures pool[s[i]] in Chain(pool, head, s)
    ensures forall n :: n in Chain(pool, head, s[..i] + s[i + 1..]) ==> n in Chain(pool, head, s)
  {
    assert Chain(pool, head, s)[i + 1] == pool[s[i]];
    var r := s[..i] + s[i + 1..];
    forall k | 0 <= k < |r| ensures pool[r[k]] in Chain(pool, head, s) {
      assert Chain(pool, head, s)[if k < i then k + 1 else k + 2] == pool[r[k]];
    }
  }

  lemma InsertBehind(h: ListHead, n: seq<ListHead>, i: nat, x: ListHead)
    requires i <= |n|
    ensures [h] + (n[..i] + [x] + n[i..]) == ([h] + n)[..i + 1] + [x] + ([h] + n)[i + 1..]
  {
    assert ([h] + n)[..i + 1] == [h] + n[..i] && ([h] + n)[i + 1..] == n[i..];
  }

  /** A ring none of whose nodes has changed is still a ring. */
  twostate lemma Untouched(c: seq<ListHead>)
    requires old(IsRing(c)) && forall n :: n in c ==> n.next == old(n.next) && n.prev == old(n.prev)
    ensures IsRing(c)
  {
    forall i | 0 <= i < |c| ensures c[i].next == old(c[i].next) && c[i].prev == old(c[i].prev) { assert c[i] in c; }
  }

  /** No record is twice in a ring, or in both. */
  ghost predicate Unshared(s: seq<int>, s': seq<int>) {
    forall x :: (multiset(s) + multiset(s'))[x] <= 1
  }

  lemma Parted(s: seq<int>, s': seq<int>, i: nat)
    requires i < |s| && (Unshared(s, s') || Unshared(s', s))
    ensures Separate(s, s') && Separate(s', s) && s[i] !in s[..i] + s[i + 1..] && s[i] !in s'
  {
    assert s == s[..i] + [s[i]] + s[i + 1..];
    assert multiset(s)[s[i]] == multiset(s[..i] + s[i + 1..])[s[i]] + 1;
    forall x | x in s ensures x !in s' && multiset(s)[x] == 1 { InOne(s, s', x); }
  }

  lemma InOne(s: seq<int>, s': seq<int>, x: int)
    requires (Unshared(s, s') || Unshared(s', s)) && x in s
    ensures x !in s' && multiset(s)[x] == 1
  {
    assert x in multiset(s);
    assert x in s' ==> x in multiset(s');
    assert (multiset(s) + multiset(s'))[x] == multiset(s)[x] + multiset(s')[x] == (multiset(s') + multiset(s))[x];
  }

  /** A record moved from one ring to the end of the other: the two hold together what they held. */
  lemma Shifted(s: seq<int>, s': seq<int>, i: nat)
    requires i < |s|
    ensures var r, r' := s[..i] + s[i + 1..], s' + [s[i]];
            && multiset(r) + multiset(r') == multiset(s) + multiset(s')
            && multiset(r') + multiset(r) == multiset(s') + multiset(s)
  {
    assert s == s[..i] + [s[i]] + s[i + 1..];
  }

  lemma {:induction false} OnceEach(n: nat, x: int)
    ensures multiset(seq(n, k => k))[x] == if 0 <= x < n then 1 else 0
  {
    if n > 0 {
      OnceEach(n - 1, x);
      assert seq(n, k => k) == seq(n - 1, k => k) + [n - 1];
    }
  }
}
