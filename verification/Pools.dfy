/** The bounded, duplicate-free index pools of a decode context.
  * A pool is the used prefix of `free_out_bufs[]` or `free_cap_bufs[]`; it is popped from the end.
  */
module Pools {

  ghost predicate NoDup<T>(s: seq<T>) {
    forall i, j :: 0 <= i < j < |s| ==> s[i] != s[j]
  }

  ghost predicate Within(s: seq<int>, n: int) {
    forall x :: x in s ==> 0 <= x < n
  }

  /** The push helpers: out-of-range, full-pool and duplicate pushes are dropped. */
  function Push(pool: seq<int>, idx: int, capacity: nat): seq<int> {
    if idx < 0 || idx >= capacity || |pool| >= capacity || idx in pool then pool else pool + [idx]
  }

  /** The numbers 0..n in order: a freshly filled pool. */
  function Upto(n: nat): (s: seq<int>)
    ensures |s| == n && forall i :: 0 <= i < n ==> s[i] == i
  {
    seq(n, i => i)
  }

  /** The numbers below n that are not claimed, in increasing order. */
  function Unclaimed(n: nat, claimed: set<int>): seq<int> {
    if n == 0 then [] else
    Unclaimed(n - 1, claimed) + if n - 1 in claimed then [] else [n - 1]
  }

  lemma {:induction false} UnclaimedElements(n: nat, claimed: set<int>)
    ensures forall x :: x in Unclaimed(n, claimed) <==> 0 <= x < n && x !in claimed
    ensures NoDup(Unclaimed(n, claimed))
    ensures |Unclaimed(n, claimed)| <= n
  {
    if n > 0 {
      UnclaimedElements(n - 1, claimed);
    }
  }

  /** The indices listed in a pool. */
  ghost function Elements(s: seq<int>): set<int> {
    set x | x in s
  }

  lemma {:induction false} NoDupSize(s: seq<int>)
    requires NoDup(s)
    ensures |Elements(s)| == |s|
  {
    if |s| == 0 {
      assert Elements(s) == {};
    } else {
      var t, last := s[..|s| - 1], s[|s| - 1];
      NoDupSize(t);
      assert s == t + [last];
      assert last !in t;
      assert Elements(s) == Elements(t) + {last};
    }
  }

  lemma SubsetSize(a: set<int>, b: set<int>)
    requires a <= b
    ensures |a| <= |b|
  {
    assert b == a + (b - a);
  }

  /** A duplicate-free list of numbers below n has at most n elements. */
  lemma Pigeonhole(s: seq<int>, n: nat)
    requires NoDup(s) && Within(s, n)
    ensures |s| <= n
  {
    NoDupSize(s);
    NoDupSize(Upto(n));
    forall x | x in Elements(s) ensures x in Elements(Upto(n)) {
      assert Upto(n)[x] == x;
    }
    SubsetSize(Elements(s), Elements(Upto(n)));
  }

  /** A push of an index the pool misses is never lost: the bound on the pool cannot be the reason. */
  lemma PushAdds(pool: seq<int>, idx: int, capacity: nat)
    requires NoDup(pool) && Within(pool, capacity)
    requires 0 <= idx < capacity && idx !in pool
    ensures Push(pool, idx, capacity) == pool + [idx]
    ensures NoDup(pool + [idx]) && Within(pool + [idx], capacity)
  {
    Pigeonhole(pool + [idx], capacity);
  }

  /** What a push does to the pool as a set. */
  lemma PushElements(pool: seq<int>, idx: int, capacity: nat)
    requires NoDup(pool) && Within(pool, capacity)
    ensures NoDup(Push(pool, idx, capacity)) && Within(Push(pool, idx, capacity), capacity)
    ensures forall x :: x in Push(pool, idx, capacity) <==>
                        x in pool || (x == idx && 0 <= idx < capacity)
  {
    if 0 <= idx < capacity && idx !in pool {
      PushAdds(pool, idx, capacity);
    }
  }

  lemma PopElements(pool: seq<int>)
    requires NoDup(pool) && |pool| > 0
    ensures NoDup(pool[..|pool| - 1])
    ensures forall x :: x in pool[..|pool| - 1] <==> x in pool && x != pool[|pool| - 1]
  {
    var rest, last := pool[..|pool| - 1], pool[|pool| - 1];
    assert pool == rest + [last];
    forall x | x in pool && x != last ensures x in rest {
      var i :| 0 <= i < |pool| && pool[i] == x;
      assert rest[i] == x;
    }
  }
}
