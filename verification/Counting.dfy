/** Cardinality facts about allocation bitmaps. */
module Counting {

  /** The indices a bitmap leaves free. */
  ghost function FreeSet(bm: seq<bool>): set<nat> {
    set b: nat | b < |bm| && !bm[b]
  }

  lemma TakeFree(bm: seq<bool>, b: nat)
    requires b < |bm| && !bm[b]
    ensures |FreeSet(bm[b := true])| == |FreeSet(bm)| - 1
  {
    assert FreeSet(bm) == FreeSet(bm[b := true]) + {b};
  }

  lemma {:induction false} BoundedCard(s: set<nat>, n: nat)
    requires forall x :: x in s ==> x < n
    ensures |s| <= n
  {
    if n == 0 {
      assert s == {};
    } else {
      BoundedCard(s - {n - 1}, n - 1);
    }
  }

  lemma {:induction false} FullCard(s: set<nat>, n: nat)
    requires forall x: nat :: x in s <==> x < n
    ensures |s| == n
  {
    if n == 0 {
      assert s == {};
    } else {
      FullCard(s - {n - 1}, n - 1);
    }
  }

  lemma SubsetCard<T>(a: set<T>, b: set<T>)
    requires a <= b
    ensures |a| <= |b|
  {
    assert b == a + (b - a);
  }

  /** An element of the goal that is still missing means a free index. */
  lemma MissingMeansFree<T>(have: set<T>, bm: seq<bool>, goal: set<T>, s: T)
    requires have <= goal && |FreeSet(bm)| + |have| >= |goal|
    requires s in goal && s !in have
    ensures exists b :: 0 <= b < |bm| && !bm[b]
  {
    SubsetCard(have + {s}, goal);
    assert FreeSet(bm) != {};
    var b :| b in FreeSet(bm);
    assert !bm[b];
  }

  /** Injective maps have as many values as keys. */
  lemma {:induction false} ValuesCard<T(!new)>(t: map<T, nat>)
    requires forall s, u :: s in t && u in t && s != u ==> t[s] != t[u]
    ensures |t.Values| == |t|
  {
    if t != map[] {
      var s :| s in t;
      var r := t - {s};
      ValuesCard(r);
      assert t.Keys == r.Keys + {s};
      assert t.Values == r.Values + {t[s]} by {
        forall x | x in t.Values ensures x in r.Values + {t[s]} {
          var u :| u in t && t[u] == x;
          if u != s { assert r[u] == x; }
        }
      }
      assert t[s] !in r.Values;
    } else {
      assert t.Values == {};
    }
  }

  /** The indices held by the slots g. */
  ghost function Image<T(!new)>(t: map<T, nat>, g: set<T>): set<nat> {
    set s | s in g && s in t :: t[s]
  }

  lemma ImageUnion<T(!new)>(t: map<T, nat>, g: set<T>, h: set<T>)
    ensures Image(t, g + h) == Image(t, g) + Image(t, h)
  {
  }

  /** `bm` is `bm0` with exactly the indices `f` released. */
  ghost predicate Cleared(bm0: seq<bool>, bm: seq<bool>, f: set<nat>) {
    |bm| == |bm0| && forall b :: 0 <= b < |bm| ==> (bm[b] <==> bm0[b] && b !in f)
  }

  lemma ClearMore<T(!new)>(bm0: seq<bool>, bm: seq<bool>, t: map<T, nat>, g: set<T>, s: T)
    requires Cleared(bm0, bm, Image(t, g)) && s in t && t[s] < |bm|
    ensures Cleared(bm0, bm[t[s] := false], Image(t, g + {s}))
  {
    assert Image(t, g + {s}) == Image(t, g) + {t[s]};
  }

  lemma ClearTwice(bm0: seq<bool>, bm1: seq<bool>, bm2: seq<bool>, f: set<nat>, g: set<nat>)
    requires Cleared(bm0, bm1, f) && Cleared(bm1, bm2, g)
    ensures Cleared(bm0, bm2, f + g)
  {
  }
}
