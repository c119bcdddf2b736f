/**
 Laws relating the list operations to each other and to the ring: what a
 fresh list looks like, how indices shift, the add/remove round trip, and
 that the ring closes in both directions.
 */
module Properties {
  import opened Errors
  import opened Ring
  import opened LinkedLists

  /** On a new list `find(0)` is the sentinel, so `get(0)` fails. */
  lemma NewListGetFails<T>()
    ensures Find(Empty<T>(), 0) == Ok(Dummy)
    ensures Get(Empty<T>(), 0) == OutOfRange(0, 0)
  {
  }

  /**
   Adding to the empty list gives the two-node ring: the new node's `next`
   and `prev` are the sentinel, and the sentinel's are the new node.
   */
  lemma AddToEmptyIsTwoNodeRing<T>(x: T)
    ensures Add(Empty<T>(), 0, x).Ok?
    ensures
      var l, n := Add(Empty<T>(), 0, x).value, Empty<T>().nextSlot;
      && n != Dummy
      && l.next == map[Dummy := n, n := Dummy]
      && l.prev == map[Dummy := n, n := Dummy]
      && Contents(l) == [x]
  {
    var l, n := Add(Empty<T>(), 0, x).value, Empty<T>().nextSlot;
    var c := [Dummy] + Order(l);
    assert c == [Dummy, n];
    assert LinkedAt(l.next, l.prev, c, 0);
    assert LinkedAt(l.next, l.prev, c, 1);
    assert l.next.Keys == {Dummy, n} && l.prev.Keys == {Dummy, n};
  }

  /** `get` after `set` at the same index sees the new value; other indices are untouched. */
  lemma SetThenGet<T>(l: LinkedList<T>, i: nat, x: T, j: nat)
    requires Valid(l)
    requires i < l.numItems
    ensures Set(l, i, x).Ok?
    ensures Get(Set(l, i, x).value, j) == if j == i then Ok(x) else Get(l, j)
  {
  }

  /**
   After `add(i, x)` index `i` holds `x`, the items before it keep their
   index and the items from `i` on move up by one.
   */
  lemma AddShifts<T>(l: LinkedList<T>, i: nat, x: T, j: nat)
    requires Valid(l)
    requires i <= l.numItems
    requires j <= l.numItems
    ensures Add(l, i, x).Ok?
    ensures Get(Add(l, i, x).value, j) ==
      if j < i then Get(l, j) else if j == i then Ok(x) else Get(l, j - 1)
  {
    var s := Contents(l);
    var l' := Add(l, i, x).value;
    assert Get(l', j) == Ok((s[..i] + [x] + s[i..])[j]);
    InsertedAt(s, i, x, j);
  }

  /** Where index `j` of `s` with `x` inserted at `i` comes from. */
  lemma InsertedAt<T>(s: seq<T>, i: nat, x: T, j: nat)
    requires i <= |s| && j <= |s|
    ensures (s[..i] + [x] + s[i..])[j] == if j < i then s[j] else if j == i then x else s[j - 1]
  {
    if j < i {
      assert (s[..i] + [x] + s[i..])[j] == s[..i][j];
    } else if j > i {
      assert (s[..i] + [x] + s[i..])[j] == s[i..][j - i - 1];
    }
  }

  /** After `remove(i)` the items before `i` keep their index and the later ones move down by one. */
  lemma RemoveShifts<T>(l: LinkedList<T>, i: nat, j: nat)
    requires Valid(l)
    requires i < l.numItems
    requires j + 1 < l.numItems
    ensures Remove(l, i).Ok?
    ensures Get(Remove(l, i).value, j) == if j < i then Get(l, j) else Get(l, j + 1)
  {
    var s := Contents(l);
    var l' := Remove(l, i).value;
    assert Get(l', j) == Ok((s[..i] + s[i + 1..])[j]);
    DeletedAt(s, i, j);
  }

  /** Where index `j` of `s` without index `i` comes from. */
  lemma DeletedAt<T>(s: seq<T>, i: nat, j: nat)
    requires i < |s| && j + 1 < |s|
    ensures (s[..i] + s[i + 1..])[j] == if j < i then s[j] else s[j + 1]
  {
    if j < i {
      assert (s[..i] + s[i + 1..])[j] == s[..i][j];
    } else {
      assert (s[..i] + s[i + 1..])[j] == s[i + 1..][j - i];
    }
  }

  /**
   `add(i, x)` then `remove(i)` gives back the very same links, data and
   count; only the allocator has moved on by the one slot it handed out.
   */
  lemma AddThenRemove<T>(l: LinkedList<T>, i: nat, x: T)
    requires Valid(l)
    requires i <= l.numItems
    ensures Add(l, i, x).Ok?
    ensures Remove(Add(l, i, x).value, i) == Ok(l.(nextSlot := l.nextSlot + 1))
  {
    AddedNode(l, i, x);
    UnlinkUndoesSplice(l, Find(l, i).value, x);
  }

  /** Unlinking the slot that `SpliceBefore` just filled restores every map. */
  lemma UnlinkUndoesSplice<T>(l: LinkedList<T>, succ: nat, x: T)
    requires succ in l.prev && l.prev[succ] in l.next && l.next[l.prev[succ]] == succ
    requires l.nextSlot !in l.next && l.nextSlot !in l.prev && l.nextSlot !in l.data
    ensures Unlink(SpliceBefore(l, succ, x), l.nextSlot) == l.(nextSlot := l.nextSlot + 1)
  {
    var n, pred := l.nextSlot, l.prev[succ];
    var u := Unlink(SpliceBefore(l, succ, x), n);
    assert u.next == l.next by {
      RestoreLink(l.next, pred, succ, n);
    }
    assert u.prev == l.prev by {
      RestoreLink(l.prev, succ, pred, n);
    }
    assert u.data == l.data;
  }

  /**
   `add(i, x)` splices the fresh slot in between the slot `find(i)` returns
   and its predecessor, which were linked to each other, and `remove(i)`
   then unlinks exactly that slot.
   */
  lemma AddedNode<T>(l: LinkedList<T>, i: nat, x: T)
    requires Valid(l)
    requires i <= l.numItems
    ensures Find(l, i).Ok? && Add(l, i, x).Ok?
    ensures
      var n, succ := l.nextSlot, Find(l, i).value;
      var l' := Add(l, i, x).value;
      && succ in l.prev && l.prev[succ] in l.next && l.next[l.prev[succ]] == succ
      && n !in l.next && n !in l.prev && n !in l.data
      && l' == SpliceBefore(l, succ, x)
      && Remove(l', i) == Ok(Unlink(l', n))
  {
    var n, succ := l.nextSlot, Find(l, i).value;
    var l' := Add(l, i, x).value;
    assert l' == SpliceBefore(l, succ, x);
    assert Find(l', i) == Ok(n) by {
      assert Order(l')[i] == n;
    }
    assert l.next[l.prev[succ]] == succ by {
      LinksAreInverse(l);
    }
    FreshSlot(l);
  }

  /** Linking `n` in after `a` and then bypassing it again gives back the map. */
  lemma RestoreLink(m: map<nat, nat>, a: nat, b: nat, n: nat)
    requires a in m && m[a] == b
    requires n !in m
    ensures m[a := n][n := b][a := b] - {n} == m
  {
  }

  /** `remove(i)` then `add(i, get(i))` restores the values, though in a new slot. */
  lemma RemoveThenAdd<T>(l: LinkedList<T>, i: nat)
    requires Valid(l)
    requires i < l.numItems
    ensures Remove(l, i).Ok? && Get(l, i).Ok?
    ensures Add(Remove(l, i).value, i, Get(l, i).value).Ok?
    ensures Contents(Add(Remove(l, i).value, i, Get(l, i).value).value) == Contents(l)
  {
    var s := Contents(l);
    var t := s[..i] + s[i + 1..];
    assert t[..i] == s[..i] && t[i..] == s[i + 1..];
    assert s == s[..i] + [s[i]] + s[i + 1..];
  }

  /**
   The ring closes in both directions: `numItems + 1` steps along `next`, or
   along `prev`, from the sentinel come back to it, and the walk along
   `prev` meets the items in reverse order.
   */
  lemma RingClosesBothWays<T>(l: LinkedList<T>)
    requires Valid(l)
    ensures Advance(l.next, Dummy, l.numItems + 1) == Dummy
    ensures Advance(l.prev, Dummy, l.numItems + 1) == Dummy
    ensures forall k :: 0 <= k < l.numItems ==>
      Advance(l.prev, Dummy, l.numItems - k) == Order(l)[k]
  {
    var c := [Dummy] + Order(l);
    var m := |c|;
    AdvanceForward(l.next, l.prev, c, 0, m);
    assert Step(l.prev, Dummy) == c[m - 1] by {
      assert LinkedAt(l.next, l.prev, c, m - 1);
    }
    forall k | 0 <= k < m
      ensures Advance(l.prev, Dummy, m - k) == c[k]
    {
      AdvanceBackward(l.next, l.prev, c, m - 1, m - 1 - k);
    }
    assert Advance(l.prev, Dummy, m - 0) == c[0];
    forall k | 0 <= k < l.numItems
      ensures Advance(l.prev, Dummy, l.numItems - k) == Order(l)[k]
    {
      assert Advance(l.prev, Dummy, m - (k + 1)) == c[k + 1];
    }
  }

  /** `add(size(), x)` appends `x` at the end. */
  lemma AddAtEndAppends<T>(l: LinkedList<T>, x: T)
    requires Valid(l)
    ensures Add(l, l.numItems, x).Ok?
    ensures Contents(Add(l, l.numItems, x).value) == Contents(l) + [x]
  {
    var s := Contents(l);
    assert s[..|s|] == s && s[|s|..] == [];
  }

  /** `remove(0)` drops the first item. */
  lemma RemoveFirstDropsHead<T>(l: LinkedList<T>)
    requires Valid(l)
    requires l.numItems > 0
    ensures Remove(l, 0).Ok?
    ensures Contents(Remove(l, 0).value) == Contents(l)[1..]
  {
    var s := Contents(l);
    assert s[..0] == [];
  }

  // A run of calls through the list 4, 1, 2, 3, 5 of the `takeAll` comment.
  // It is stated in three lemmas of at most two operations each, each starting
  // from any valid list with the contents the previous one ends with: one proof
  // over all seven successive lists is beyond the verifier's resource budget.

  /** On the one-item list 4 (see `AddToEmptyIsTwoNodeRing`), `add(1, 1)` and `add(2, 2)` give 4, 1, 2. */
  lemma ScenarioBuild(l1: LinkedList<int>)
    requires Valid(l1) && Contents(l1) == [4]
    ensures
      var l2 := Add(l1, 1, 1).value;
      var l3 := Add(l2, 2, 2).value;
      Contents(l3) == [4, 1, 2]
  {
    AddAtEndAppends(l1, 1);
    var l2 := Add(l1, 1, 1).value;
    assert Contents(l2) == [4, 1];
    AddAtEndAppends(l2, 2);
  }

  /** `add(3, 3)` and `add(4, 5)` turn 4, 1, 2 into the 4, 1, 2, 3, 5 of the `takeAll` comment. */
  lemma ScenarioAppend(l3: LinkedList<int>)
    requires Valid(l3) && Contents(l3) == [4, 1, 2]
    ensures
      var l4 := Add(l3, 3, 3).value;
      var l5 := Add(l4, 4, 5).value;
      Contents(l5) == [4, 1, 2, 3, 5]
  {
    AddAtEndAppends(l3, 3);
    var l4 := Add(l3, 3, 3).value;
    assert Contents(l4) == [4, 1, 2, 3];
    AddAtEndAppends(l4, 5);
  }

  /** On 4, 1, 2, 3, 5, `remove(0)` and then `set(1, 9)` leave 1, 9, 3, 5, where `get(2)` is 3. */
  lemma ScenarioEdit(l5: LinkedList<int>)
    requires Valid(l5) && Contents(l5) == [4, 1, 2, 3, 5]
    ensures
      var l6 := Remove(l5, 0).value;
      var l7 := Set(l6, 1, 9).value;
      && Contents(l6) == [1, 2, 3, 5] && l6.numItems == 4
      && Contents(l7) == [1, 9, 3, 5]
      && Get(l7, 2) == Ok(3)
  {
    RemoveFirstDropsHead(l5);
  }
}
