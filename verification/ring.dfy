/**
 The link level of a circular doubly-linked list kept in an arena.

 Nodes are arena slots addressed by `nat`; `next` and `prev` map a slot to the
 slot it points at. A ring is described by the sequence `c` of its slots in
 `next` order: following `next` from `c[k]` reaches `c[k+1]`, the last slot
 leads back to `c[0]`, and `prev` undoes every such step. This module states
 that shape and proves that the two splice steps of the list (inserting one
 slot, removing one slot) rewrite a ring into a ring.
 */
module Ring {

  /** Arena slot of the permanent sentinel ("dummy") node. */
  const Dummy: nat := 0

  /** The position that follows position `k` in a ring of `n` slots. */
  function Succ(n: nat, k: nat): (j: nat)
    requires k < n
    ensures j < n
    ensures j == 0 <==> k == n - 1
  {
    if k + 1 < n then k + 1 else 0
  }

  /** One step along a link map; a slot without a link stays where it is. */
  function Step(links: map<nat, nat>, n: nat): nat {
    if n in links then links[n] else n
  }

  /** The slot reached from `from` by following `links` `j` times. */
  function Advance(links: map<nat, nat>, from: nat, j: nat): nat
    decreases j
  {
    if j == 0 then from else Advance(links, Step(links, from), j - 1)
  }

  ghost predicate Distinct(c: seq<nat>) {
    forall j, k :: 0 <= j < k < |c| ==> c[j] != c[k]
  }

  /** `c` lists the slots of one ring, in `next` order, with `prev` the inverse of `next`. */
  ghost predicate Linked(next: map<nat, nat>, prev: map<nat, nat>, c: seq<nat>) {
    forall k :: 0 <= k < |c| ==> LinkedAt(next, prev, c, k)
  }

  /** The slot at position `k` links forward to the slot after it, which links back. */
  ghost predicate LinkedAt(next: map<nat, nat>, prev: map<nat, nat>, c: seq<nat>, k: nat)
    requires k < |c|
  {
    && c[k] in next
    && next[c[k]] == c[Succ(|c|, k)]
    && c[Succ(|c|, k)] in prev
    && prev[c[Succ(|c|, k)]] == c[k]
  }

  /**
   Following `next` `j` times from a slot of a ring moves `j` positions
   forward; stepping past the last slot comes back to the first.
   */
  lemma {:induction false} AdvanceForward(next: map<nat, nat>, prev: map<nat, nat>, c: seq<nat>, k: nat, j: nat)
    requires Linked(next, prev, c)
    requires k < |c| && k + j <= |c|
    ensures Advance(next, c[k], j) == if k + j < |c| then c[k + j] else c[0]
    decreases j
  {
    if j > 0 {
      assert LinkedAt(next, prev, c, k);
      if k + 1 < |c| {
        assert Succ(|c|, k) == k + 1;
        AdvanceForward(next, prev, c, k + 1, j - 1);
      } else {
        assert Succ(|c|, k) == 0;
      }
    }
  }

  /** Following `prev` `j` times from a slot of a ring moves `j` positions backward. */
  lemma {:induction false} AdvanceBackward(next: map<nat, nat>, prev: map<nat, nat>, c: seq<nat>, k: nat, j: nat)
    requires Linked(next, prev, c)
    requires j <= k < |c|
    ensures Advance(prev, c[k], j) == c[k - j]
    decreases j
  {
    if j > 0 {
      assert LinkedAt(next, prev, c, k - 1);
      assert Succ(|c|, k - 1) == k;
      AdvanceBackward(next, prev, c, k - 1, j - 1);
    }
  }

  /** In a ring `next` and `prev` are mutual inverses on every slot of the ring. */
  lemma LinksInverse(next: map<nat, nat>, prev: map<nat, nat>, c: seq<nat>)
    requires Linked(next, prev, c)
    ensures forall k :: 0 <= k < |c| ==>
      && c[k] in next && next[c[k]] in prev && prev[next[c[k]]] == c[k]
      && c[k] in prev && prev[c[k]] in next && next[prev[c[k]]] == c[k]
  {
    forall k | 0 <= k < |c|
      ensures c[k] in next && next[c[k]] in prev && prev[next[c[k]]] == c[k]
      ensures c[k] in prev && prev[c[k]] in next && next[prev[c[k]]] == c[k]
    {
      assert LinkedAt(next, prev, c, k);
      var j := if k == 0 then |c| - 1 else k - 1;
      assert Succ(|c|, j) == k;
      assert LinkedAt(next, prev, c, j);
    }
  }

  /** Two different positions of a ring have different successors. */
  lemma SuccInjective(n: nat, j: nat, k: nat)
    requires j < n && k < n && j != k
    ensures Succ(n, j) != Succ(n, k)
  {
  }

  /** The ring `c` with slot `n` inserted at position `i + 1`. */
  function Inserted(c: seq<nat>, i: nat, n: nat): (c': seq<nat>)
    requires i < |c|
    ensures |c'| == |c| + 1
    ensures forall k :: 0 <= k <= i ==> c'[k] == c[k]
    ensures c'[i + 1] == n
    ensures forall k :: i + 1 < k < |c'| ==> c'[k] == c[k - 1]
  {
    c[..i + 1] + [n] + c[i + 1..]
  }

  /** The ring `c` without the slot at position `i`. */
  function Deleted(c: seq<nat>, i: nat): (c': seq<nat>)
    requires i < |c|
    ensures |c'| == |c| - 1
    ensures forall k :: 0 <= k < i ==> c'[k] == c[k]
    ensures forall k :: i <= k < |c'| ==> c'[k] == c[k + 1]
  {
    c[..i] + c[i + 1..]
  }

  lemma InsertedDistinct(c: seq<nat>, i: nat, n: nat)
    requires Distinct(c)
    requires i < |c|
    requires n !in c
    ensures Distinct(Inserted(c, i, n))
  {
    var c' := Inserted(c, i, n);
    forall j, k | 0 <= j < k < |c'|
      ensures c'[j] != c'[k]
    {
      if j == i + 1 {
        assert c'[k] == c[k - 1];
      } else if k == i + 1 {
        assert c'[j] == c[j];
      } else if k <= i {
      } else if j <= i {
        assert c'[j] == c[j] && c'[k] == c[k - 1];
      } else {
        assert c'[j] == c[j - 1] && c'[k] == c[k - 1];
      }
    }
  }

  lemma DeletedDistinct(c: seq<nat>, i: nat)
    requires Distinct(c)
    requires i < |c|
    ensures Distinct(Deleted(c, i))
    ensures c[i] !in Deleted(c, i)
  {
    var c' := Deleted(c, i);
    forall j, k | 0 <= j < k < |c'|
      ensures c'[j] != c'[k]
    {
      if k < i {
      } else if j < i {
        assert c'[j] == c[j] && c'[k] == c[k + 1];
      } else {
        assert c'[j] == c[j + 1] && c'[k] == c[k + 1];
      }
    }
    forall k | 0 <= k < |c'|
      ensures c'[k] != c[i]
    {
      if k >= i {
        assert c'[k] == c[k + 1];
      }
    }
  }

  /** One position of the ring after `SpliceIn`. */
  lemma SpliceInAt(next: map<nat, nat>, prev: map<nat, nat>, c: seq<nat>, i: nat, n: nat, k: nat)
    requires Linked(next, prev, c)
    requires Distinct(c)
    requires i < |c|
    requires n !in c
    requires k <= |c|
    ensures
      var pred, succ := c[i], c[Succ(|c|, i)];
      LinkedAt(next[pred := n][n := succ], prev[succ := n][n := pred], Inserted(c, i, n), k)
  {
    var pred, succ := c[i], c[Succ(|c|, i)];
    var c' := Inserted(c, i, n);
    var m := |c|;
    if k < i {
      assert Succ(m + 1, k) == k + 1 && Succ(m, k) == k + 1;
      assert c'[k] == c[k] && c'[k + 1] == c[k + 1];
      assert LinkedAt(next, prev, c, k);
      SuccInjective(m, k, i);
    } else if k == i {
      assert Succ(m + 1, k) == i + 1;
      assert c'[k] == pred;
    } else if k == i + 1 {
      if i + 1 < m {
        assert Succ(m + 1, k) == i + 2;
        assert c'[i + 2] == c[i + 1];
      } else {
        assert Succ(m + 1, k) == 0;
        assert c'[0] == c[0];
      }
    } else {
      assert c'[k] == c[k - 1];
      assert LinkedAt(next, prev, c, k - 1);
      SuccInjective(m, k - 1, i);
      if k + 1 < m + 1 {
        assert Succ(m + 1, k) == k + 1 && c'[k + 1] == c[k];
        assert Succ(m, k - 1) == k;
      } else {
        assert Succ(m + 1, k) == 0 && Succ(m, k - 1) == 0;
        assert c'[0] == c[0];
      }
    }
  }

  /**
   Splicing a fresh slot `n` in after position `i` (between `pred := c[i]` and
   its successor `succ`) rewrites four links and yields the ring with `n` at
   position `i + 1`. With a one-slot ring (`pred == succ`) this is the
   two-slot ring in which both links of both slots point across.
   */
  lemma SpliceIn(next: map<nat, nat>, prev: map<nat, nat>, c: seq<nat>, i: nat, n: nat)
    requires Linked(next, prev, c)
    requires Distinct(c)
    requires i < |c|
    requires n !in c
    ensures
      var pred, succ := c[i], c[Succ(|c|, i)];
      && Distinct(Inserted(c, i, n))
      && Linked(next[pred := n][n := succ], prev[succ := n][n := pred], Inserted(c, i, n))
  {
    InsertedDistinct(c, i, n);
    var pred, succ := c[i], c[Succ(|c|, i)];
    var next', prev', c' := next[pred := n][n := succ], prev[succ := n][n := pred], Inserted(c, i, n);
    forall k | 0 <= k < |c'|
      ensures LinkedAt(next', prev', c', k)
    {
      SpliceInAt(next, prev, c, i, n, k);
    }
  }

  /** One position of the ring after `SpliceOut`. */
  lemma SpliceOutAt(next: map<nat, nat>, prev: map<nat, nat>, c: seq<nat>, i: nat, k: nat)
    requires Linked(next, prev, c)
    requires Distinct(c)
    requires 0 < i < |c|
    requires k < |c| - 1
    ensures
      var pred, node, succ := c[i - 1], c[i], c[Succ(|c|, i)];
      LinkedAt(next[pred := succ] - {node}, prev[succ := pred] - {node}, Deleted(c, i), k)
  {
    var pred, node, succ := c[i - 1], c[i], c[Succ(|c|, i)];
    var c' := Deleted(c, i);
    var m := |c|;
    if k < i - 1 {
      assert Succ(m - 1, k) == k + 1 && Succ(m, k) == k + 1;
      assert c'[k] == c[k] && c'[k + 1] == c[k + 1];
      assert LinkedAt(next, prev, c, k);
      SuccInjective(m, k + 1, i);
    } else if k == i - 1 {
      assert c'[k] == pred;
      assert LinkedAt(next, prev, c, i);
      if i < m - 1 {
        assert Succ(m - 1, k) == i && c'[i] == c[i + 1];
        assert Succ(m, i) == i + 1;
      } else {
        assert Succ(m - 1, k) == 0 && Succ(m, i) == 0;
        assert c'[0] == c[0];
      }
    } else {
      assert c'[k] == c[k + 1];
      assert LinkedAt(next, prev, c, k + 1);
      SuccInjective(m, k + 1, i);
      SuccInjective(m, k + 1, i - 1);
      if k + 1 < m - 1 {
        assert Succ(m - 1, k) == k + 1 && c'[k + 1] == c[k + 2];
        assert Succ(m, k + 1) == k + 2;
      } else {
        assert Succ(m - 1, k) == 0 && Succ(m, k + 1) == 0;
        assert c'[0] == c[0];
      }
    }
  }

  /**
   Unsplicing the slot at position `i` (not the first) links its predecessor
   and successor to each other and forgets the slot's own links; what remains
   is the ring without that slot, and the slot is no longer on it.
   */
  lemma SpliceOut(next: map<nat, nat>, prev: map<nat, nat>, c: seq<nat>, i: nat)
    requires Linked(next, prev, c)
    requires Distinct(c)
    requires 0 < i < |c|
    ensures
      var pred, node, succ := c[i - 1], c[i], c[Succ(|c|, i)];
      && Distinct(Deleted(c, i))
      && node !in Deleted(c, i)
      && Linked(next[pred := succ] - {node}, prev[succ := pred] - {node}, Deleted(c, i))
  {
    DeletedDistinct(c, i);
    var pred, node, succ := c[i - 1], c[i], c[Succ(|c|, i)];
    var next', prev', c' := next[pred := succ] - {node}, prev[succ := pred] - {node}, Deleted(c, i);
    forall k | 0 <= k < |c'|
      ensures LinkedAt(next', prev', c', k)
    {
      SpliceOutAt(next, prev, c, i, k);
    }
  }
}
