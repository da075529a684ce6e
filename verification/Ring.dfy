/** The intrusive circular lists of list.h: prev/next pointer updates against the sequence of nodes they link. */
module Ring {

  /** A node; `entry` is the number of the record it is embedded in, which list_entry finds from the node's address. */
  class ListHead {
    const entry: int
    var prev: ListHead?
    var next: ListHead?

    constructor (entry: int)
      ensures this.entry == entry
    {
      this.entry := entry;
      prev, next := null, null;
    }
  }

  ghost predicate Distinct(s: seq<ListHead>) {
    forall i, j :: 0 <= i < j < |s| ==> s[i] != s[j]
  }

  /** The nodes `s`, in order, form a ring: each one's next is the following one, and prev goes back. */
  ghost predicate IsRing(s: seq<ListHead>)
    reads s
  {
    && 0 < |s| && Distinct(s)
    && (forall i :: 0 <= i < |s| - 1 ==> s[i].next == s[i + 1] && s[i + 1].prev == s[i])
    && s[|s| - 1].next == s[0] && s[0].prev == s[|s| - 1]
  }

  method ListInit(list: ListHead)
    modifies list
    ensures IsRing([list])
  {
    list.prev := list;
    list.next := list;
  }

  method ListEmpty(list: ListHead, ghost s: seq<ListHead>) returns (empty: bool)
    requires IsRing(s) && s[0] == list
    ensures empty <==> s == [list]
  {
    assert |s| > 1 ==> s[0].next == s[0 + 1];
    assert |s| == 1 ==> s == [list];
    empty := list == list.next;
  }

  /** list_add between two neighbours. */
  method ListAdd(prev: ListHead, next: ListHead, data: ListHead)
    modifies prev`next, next`prev, data
    ensures data.next == (if data == prev then data else next)
    ensures data.prev == (if data == next then data else prev)
    ensures prev.next == data && next.prev == data
  {
    data.prev := prev;
    data.next := next;
    prev.next := data;
    next.prev := data;
  }

  /** list_add_before the list head: the new node becomes the last of the ring. */
  method ListAddBefore(list: ListHead, data: ListHead, ghost s: seq<ListHead>)
    requires IsRing(s) && s[0] == list && data !in s
    modifies s, data
    ensures IsRing(s + [data])
  {
    ListAdd(list.prev, list, data);
  }

  /** list_add_before an inner node: the new node is inserted in front of it. */
  method ListInsert(list: ListHead, data: ListHead, ghost s: seq<ListHead>, ghost i: nat)
    requires IsRing(s) && 0 < i < |s| && s[i] == list && data !in s
    modifies s, data
    ensures IsRing(s[..i] + [data] + s[i..])
  {
    assert list.prev == s[i - 1].next.prev && s[i - 1 + 1].prev == s[i - 1];
    ListAdd(list.prev, list, data);
  }

  /** list_add_after the list head: the new node becomes the first. */
  method ListAddAfter(list: ListHead, data: ListHead, ghost s: seq<ListHead>)
    requires IsRing(s) && s[0] == list && data !in s
    modifies s, data
    ensures IsRing([list, data] + s[1..])
  {
    assert |s| > 1 ==> s[0].next == s[0 + 1] && s[0 + 1].prev == s[0];
    ListAdd(list, list.next, data);
  }

  /** list_del of a node other than the head: its neighbours are linked to each other. */
  method ListDel(data: ListHead, ghost s: seq<ListHead>, ghost i: nat)
    requires IsRing(s) && 0 < i < |s| && s[i] == data
    modifies s
    ensures IsRing(s[..i] + s[i + 1..])
  {
    assert s[i - 1].next == s[i - 1 + 1] && s[i - 1 + 1].prev == s[i - 1];
    assert i < |s| - 1 ==> s[i].next == s[i + 1] && s[i + 1].prev == s[i];
    var prev := data.prev;
    var next := data.next;
    prev.next := next;
    next.prev := prev;
  }

  /** list_foreach from the head, looking for a node: following next visits the ring in order, once round. */
  method ListFind(head: ListHead, target: ListHead, ghost s: seq<ListHead>) returns (found: bool, ghost at: nat)
    requires IsRing(s) && s[0] == head
    ensures found <==> target in s[1..]
    ensures found ==> 0 < at < |s| && s[at] == target
  {
    at := 1;
    found := false;
    assert |s| > 1 ==> s[0].next == s[0 + 1];
    var ptr := head.next;
    while ptr != head && !found
      invariant 1 <= at <= |s| && target !in s[1..at]
      invariant ptr == if at < |s| then s[at] else head
      invariant found ==> at < |s| && s[at] == target
      decreases |s| - at, !found
    {
      if ptr == target {
        found := true;
      } else {
        assert at < |s| - 1 ==> s[at].next == s[at + 1];
        ptr := ptr.next;
        at := at + 1;
      }
    }
  }
}
