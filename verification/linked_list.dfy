/**
 The index-addressed list over a circular doubly-linked ring with a sentinel.

 The state is the one the class keeps: three arena maps for the `next`,
 `prev` and `data` fields of the nodes, the count `numItems`, and the next
 free arena slot (the stand-in for `new Node`). Slot `Dummy` is the sentinel.
 The abstraction is not stored: `Order(l)` is the sequence of slots met by
 walking `next` from the sentinel `numItems` times, and `Contents(l)` is their
 data. `Valid(l)` says that walk closes the ring.
 */
module LinkedLists {
  import opened Errors
  import opened Ring

  datatype LinkedList<T> = LinkedList(
    next: map<nat, nat>,
    prev: map<nat, nat>,
    data: map<nat, T>,
    numItems: nat,
    nextSlot: nat)

  /** The set of slots on a sequence of slots. */
  ghost function Slots(o: seq<nat>): set<nat> {
    set n | n in o
  }

  /** The element slots in list order: item `j` is `j + 1` `next` steps from the sentinel. */
  function Order<T>(l: LinkedList<T>): seq<nat> {
    seq(l.numItems, j requires 0 <= j => Advance(l.next, Dummy, j + 1))
  }

  /**
   `o` lists the element slots of `l` in order and the links of `l` close the
   ring sentinel, o[0], ..., o[|o|-1], sentinel in both directions. Exactly the
   sentinel and the slots of `o` are live, and only element slots carry data.
   */
  ghost predicate IsRing<T>(l: LinkedList<T>, o: seq<nat>) {
    && Shape(l, o)
    && Distinct([Dummy] + o)
    && Linked(l.next, l.prev, [Dummy] + o)
  }

  /**
   The bookkeeping part of `IsRing`: the count, the allocator, and which
   slots are live.
   */
  ghost predicate Shape<T>(l: LinkedList<T>, o: seq<nat>) {
    && |o| == l.numItems
    && Dummy < l.nextSlot
    && (forall k :: 0 <= k < |o| ==> o[k] < l.nextSlot)
    && l.next.Keys == {Dummy} + Slots(o)
    && l.prev.Keys == {Dummy} + Slots(o)
    && l.data.Keys == Slots(o)
  }

  ghost predicate Valid<T>(l: LinkedList<T>) {
    IsRing(l, Order(l))
  }

  /** The values stored at the slots of `o`, in order. */
  function Values<T>(data: map<nat, T>, o: seq<nat>): seq<T>
    requires forall k :: 0 <= k < |o| ==> o[k] in data
  {
    seq(|o|, k requires 0 <= k < |o| => data[o[k]])
  }

  /** The values of the list, in index order. */
  function Contents<T>(l: LinkedList<T>): seq<T>
    requires Valid(l)
  {
    Values(l.data, Order(l))
  }

  /** Storing `x` in a fresh slot inserted at index `i` inserts `x` among the values. */
  lemma ValuesInsert<T>(data: map<nat, T>, o: seq<nat>, i: nat, n: nat, x: T)
    requires forall k :: 0 <= k < |o| ==> o[k] in data
    requires i <= |o|
    requires n !in o
    ensures var o' := o[..i] + [n] + o[i..];
      && (forall k :: 0 <= k < |o'| ==> o'[k] in data[n := x])
      && Values(data[n := x], o') == Values(data, o)[..i] + [x] + Values(data, o)[i..]
  {
    var o' := o[..i] + [n] + o[i..];
    var s, s' := Values(data, o), Values(data[n := x], o');
    forall k | 0 <= k < |s'|
      ensures s'[k] == (s[..i] + [x] + s[i..])[k]
    {
      if k < i {
        assert o'[k] == o[k];
      } else if k > i {
        assert o'[k] == o[k - 1];
      }
    }
  }

  /** Dropping the slot at index `i`, and its data, drops the value at index `i`. */
  lemma ValuesDelete<T>(data: map<nat, T>, o: seq<nat>, i: nat)
    requires forall k :: 0 <= k < |o| ==> o[k] in data
    requires i < |o|
    requires o[i] !in o[..i] + o[i + 1..]
    ensures var o' := o[..i] + o[i + 1..];
      && (forall k :: 0 <= k < |o'| ==> o'[k] in data - {o[i]})
      && Values(data - {o[i]}, o') == Values(data, o)[..i] + Values(data, o)[i + 1..]
  {
    var o' := o[..i] + o[i + 1..];
    assert forall k :: 0 <= k < |o'| ==> o'[k] in o' && o'[k] != o[i];
    var s, s' := Values(data, o), Values(data - {o[i]}, o');
    forall k | 0 <= k < |s'|
      ensures s'[k] == (s[..i] + s[i + 1..])[k]
    {
      if k >= i {
        assert o'[k] == o[k + 1];
      }
    }
  }

  /** A ring determines its order: walking `next` from the sentinel retraces `o`. */
  lemma RingOrder<T>(l: LinkedList<T>, o: seq<nat>)
    requires IsRing(l, o)
    ensures Order(l) == o
    ensures Valid(l)
  {
    var c := [Dummy] + o;
    forall j | 0 <= j < |o|
      ensures Order(l)[j] == o[j]
    {
      AdvanceForward(l.next, l.prev, c, 0, j + 1);
    }
  }

  /** A list is empty exactly when the sentinel links to itself (the test add makes). */
  lemma EmptyIffSelfLinked<T>(l: LinkedList<T>)
    requires Valid(l)
    ensures Dummy in l.next && Dummy in l.prev
    ensures l.numItems == 0 <==> l.next[Dummy] == Dummy
    ensures l.numItems == 0 <==> l.prev[Dummy] == Dummy
    ensures l.numItems == 0 ==> l.next.Keys == {Dummy} && l.data == map[]
  {
    var c := [Dummy] + Order(l);
    assert LinkedAt(l.next, l.prev, c, 0);
    assert LinkedAt(l.next, l.prev, c, |c| - 1);
    if l.numItems > 0 {
      assert c[1] != c[0] && c[|c| - 1] != c[0];
    }
  }

  /** Every live slot has a position on the ring. */
  lemma Position<T>(l: LinkedList<T>, n: nat) returns (k: nat)
    requires Valid(l)
    requires n in l.next
    ensures k <= |Order(l)| && ([Dummy] + Order(l))[k] == n
  {
    if n == Dummy {
      k := 0;
    } else {
      var o := Order(l);
      assert n in Slots(o);
      var j :| 0 <= j < |o| && o[j] == n;
      k := j + 1;
    }
  }

  /** `next` and `prev` are mutual inverses on every live slot, the sentinel included. */
  lemma LinksAreInverse<T>(l: LinkedList<T>)
    requires Valid(l)
    ensures forall n :: n in l.next ==> l.next[n] in l.prev && l.prev[l.next[n]] == n
    ensures forall n :: n in l.prev ==> l.prev[n] in l.next && l.next[l.prev[n]] == n
  {
    var c := [Dummy] + Order(l);
    LinksInverse(l.next, l.prev, c);
    forall n | n in l.next
      ensures l.next[n] in l.prev && l.prev[l.next[n]] == n
      ensures l.prev[n] in l.next && l.next[l.prev[n]] == n
    {
      var k := Position(l, n);
    }
  }

  /** Construction: the sentinel alone, linked to itself both ways. */
  function Empty<T>(): (l: LinkedList<T>)
    ensures Valid(l)
    ensures Contents(l) == []
    ensures l.next[Dummy] == Dummy && l.prev[Dummy] == Dummy
    ensures l.numItems == 0
  {
    var l := LinkedList(map[Dummy := Dummy], map[Dummy := Dummy], map[], 0, 1);
    assert LinkedAt(l.next, l.prev, [Dummy], 0);
    RingOrder(l, []);
    l
  }

  /**
   Index to slot: the slot of item `i`, the sentinel for `i == numItems`,
   and the out-of-range condition beyond that. Walks `i` steps from the
   sentinel's successor.
   */
  function Find<T>(l: LinkedList<T>, i: nat): (r: Result<nat>)
    requires Valid(l)
    ensures r.OutOfRange? <==> i > l.numItems
    ensures r.OutOfRange? ==> r == OutOfRange(i, l.numItems)
    ensures i == l.numItems ==> r == Ok(Dummy)
    ensures i < l.numItems ==> r == Ok(Order(l)[i]) && r.value != Dummy
    ensures r.Ok? ==> r.value in l.next && r.value in l.prev
  {
    if i == l.numItems then
      Ok(Dummy)
    else if i > l.numItems then
      OutOfRange(i, l.numItems)
    else
      var n := Advance(l.next, Step(l.next, Dummy), i);
      var c := [Dummy] + Order(l);
      assert n == Advance(l.next, Dummy, i + 1);
      assert c[i + 1] == n && c[0] != c[i + 1];
      Ok(n)
  }

  /** The value at index `i`; out of range when `find` yields the sentinel or fails. */
  function Get<T>(l: LinkedList<T>, i: nat): (r: Result<T>)
    requires Valid(l)
    ensures r.Ok? <==> i < |Contents(l)|
    ensures r.Ok? ==> r.value == Contents(l)[i]
    ensures r.OutOfRange? ==> r == OutOfRange(i, l.numItems)
  {
    match Find(l, i)
    case OutOfRange(_, _) => OutOfRange(i, l.numItems)
    case Ok(n) =>
      if n == Dummy then OutOfRange(i, l.numItems) else Ok(l.data[n])
  }

  /** Storing `x` in the slot at index `i` of distinct slots replaces the value at index `i`. */
  lemma ValuesUpdate<T>(data: map<nat, T>, o: seq<nat>, i: nat, x: T)
    requires forall k :: 0 <= k < |o| ==> o[k] in data
    requires Distinct([Dummy] + o)
    requires i < |o|
    ensures Values(data[o[i] := x], o) == Values(data, o)[i := x]
  {
    forall k | 0 <= k < |o| && k != i
      ensures o[k] != o[i]
    {
      assert ([Dummy] + o)[k + 1] == o[k] && ([Dummy] + o)[i + 1] == o[i];
    }
  }

  /** Overwrites the value at index `i`, leaving every link as it was. */
  function Set<T>(l: LinkedList<T>, i: nat, x: T): (r: Result<LinkedList<T>>)
    requires Valid(l)
    ensures r.Ok? <==> i < l.numItems
    ensures r.OutOfRange? ==> r == OutOfRange(i, l.numItems)
    ensures r.Ok? ==>
      && Valid(r.value)
      && Order(r.value) == Order(l)
      && r.value.next == l.next && r.value.prev == l.prev
      && Contents(r.value) == Contents(l)[i := x]
  {
    if i >= l.numItems then
      OutOfRange(i, l.numItems)
    else
      var n := Find(l, i).value;
      var l' := l.(data := l.data[n := x]);
      RingOrder(l', Order(l));
      ValuesUpdate(l.data, Order(l), i, x);
      Ok(l')
  }

  /**
   The four link rewrites that put a new node holding `x`, in the next free
   slot, immediately before slot `succ`.
   */
  function SpliceBefore<T>(l: LinkedList<T>, succ: nat, x: T): LinkedList<T>
    requires succ in l.prev
  {
    var n, pred := l.nextSlot, l.prev[succ];
    LinkedList(
      l.next[pred := n][n := succ],
      l.prev[succ := n][n := pred],
      l.data[n := x],
      l.numItems + 1,
      l.nextSlot + 1)
  }

  /** The new slot comes after every slot in use, so it is not on the ring. */
  lemma FreshSlot<T>(l: LinkedList<T>)
    requires Valid(l)
    ensures l.nextSlot !in [Dummy] + Order(l)
  {
  }

  /** The slot sequence after an insertion, seen from the sentinel, as a set and by bound. */
  lemma InsertedSlots(o: seq<nat>, i: nat, n: nat, bound: nat)
    requires i <= |o|
    ensures Inserted([Dummy] + o, i, n) == [Dummy] + (o[..i] + [n] + o[i..])
    ensures Slots(o[..i] + [n] + o[i..]) == Slots(o) + {n}
    ensures (forall k :: 0 <= k < |o| ==> o[k] < bound) && n < bound ==>
      forall k :: 0 <= k < |o| + 1 ==> (o[..i] + [n] + o[i..])[k] < bound
  {
    var o' := o[..i] + [n] + o[i..];
    assert Inserted([Dummy] + o, i, n) == [Dummy] + o' by {
      var c, c' := Inserted([Dummy] + o, i, n), [Dummy] + o';
      forall k | 0 <= k < |c|
        ensures c[k] == c'[k]
      {
        if 0 < k <= i {
          assert c'[k] == o'[k - 1] == o[k - 1];
        } else if k > i + 1 {
          assert c'[k] == o'[k - 1] == o[k - 2];
        }
      }
    }
    assert Slots(o') == Slots(o) + {n} by {
      assert o == o[..i] + o[i..];
      forall y
        ensures y in Slots(o') <==> y in Slots(o) + {n}
      {
        calc {
          y in Slots(o');
          y in o';
          y in o[..i] || y == n || y in o[i..];
          y in o || y == n;
        }
      }
    }
    if (forall k :: 0 <= k < |o| ==> o[k] < bound) && n < bound {
      forall k | 0 <= k < |o'|
        ensures o'[k] < bound
      {
        if k < i {
          assert o'[k] == o[k];
        } else if k > i {
          assert o'[k] == o[k - 1];
        }
      }
    }
  }

  /** The slot sequence after a deletion, seen from the sentinel, as a set and by bound. */
  lemma DeletedSlots(o: seq<nat>, i: nat, bound: nat)
    requires i < |o|
    requires Distinct([Dummy] + o)
    ensures Deleted([Dummy] + o, i + 1) == [Dummy] + (o[..i] + o[i + 1..])
    ensures Slots(o[..i] + o[i + 1..]) == Slots(o) - {o[i]}
    ensures (forall k :: 0 <= k < |o| ==> o[k] < bound) ==>
      forall k :: 0 <= k < |o| - 1 ==> Deleted(o, i)[k] < bound
  {
    var c, o' := [Dummy] + o, o[..i] + o[i + 1..];
    assert forall k :: 0 <= k < i ==> o'[k] == o[k];
    assert forall k :: i <= k < |o'| ==> o'[k] == o[k + 1];
    assert Deleted(o, i) == o';
    DeletedDistinct(c, i + 1);
    assert Deleted(c, i + 1) == [Dummy] + o';
    assert o == o[..i] + [o[i]] + o[i + 1..];
    forall y
      ensures y in Slots(o') <==> y in Slots(o) - {o[i]}
    {
      calc {
        y in Slots(o');
        y in o';
        y in o[..i] || y in o[i + 1..];
        y in o && y != o[i];
      }
    }
  }

  /** Splicing a fresh slot in before item `i` keeps the slots distinct and links the longer sequence. */
  lemma SpliceBeforeLinks<T>(l: LinkedList<T>, o: seq<nat>, i: nat, x: T)
    requires Distinct([Dummy] + o)
    requires Linked(l.next, l.prev, [Dummy] + o)
    requires forall k :: 0 <= k < |o| ==> o[k] < l.nextSlot
    requires Dummy < l.nextSlot
    requires i <= |o|
    ensures
      var succ := if i < |o| then o[i] else Dummy;
      var o' := o[..i] + [l.nextSlot] + o[i..];
      && succ in l.prev && l.prev[succ] in l.next
      && Distinct([Dummy] + o')
      && Linked(SpliceBefore(l, succ, x).next, SpliceBefore(l, succ, x).prev, [Dummy] + o')
  {
    var n := l.nextSlot;
    var c := [Dummy] + o;
    var succ := if i < |o| then o[i] else Dummy;
    assert c[Succ(|c|, i)] == succ && l.prev[succ] == c[i] && c[i] in l.next by {
      assert LinkedAt(l.next, l.prev, c, i);
    }
    assert n !in c;
    SpliceIn(l.next, l.prev, c, i, n);
    InsertedSlots(o, i, n, n + 1);
  }

  /** Splicing a fresh slot in before `succ` adds exactly that slot to the link maps. */
  lemma SpliceBeforeShape<T>(l: LinkedList<T>, o: seq<nat>, i: nat, x: T, succ: nat)
    requires Shape(l, o)
    requires i <= |o|
    requires succ in l.prev && l.prev[succ] in l.next
    ensures Shape(SpliceBefore(l, succ, x), o[..i] + [l.nextSlot] + o[i..])
  {
    var n := l.nextSlot;
    var l', o' := SpliceBefore(l, succ, x), o[..i] + [n] + o[i..];
    InsertedSlots(o, i, n, n + 1);
    assert l'.next.Keys == l.next.Keys + {n};
    assert l'.prev.Keys == l.prev.Keys + {n};
  }

  /** Splicing a fresh slot in before item `i` of a ring gives the ring with that slot at index `i`. */
  lemma SpliceBeforeRing<T>(l: LinkedList<T>, o: seq<nat>, i: nat, x: T)
    requires IsRing(l, o)
    requires i <= |o|
    ensures
      var succ := if i < |o| then o[i] else Dummy;
      && succ in l.prev
      && IsRing(SpliceBefore(l, succ, x), o[..i] + [l.nextSlot] + o[i..])
  {
    var succ := if i < |o| then o[i] else Dummy;
    SpliceBeforeLinks(l, o, i, x);
    SpliceBeforeShape(l, o, i, x, succ);
  }

  /**
   Splicing before the slot of item `i` (the sentinel when `i == numItems`)
   yields the ring with the new slot at index `i`.
   */
  lemma SpliceBeforeCorrect<T>(l: LinkedList<T>, i: nat, x: T)
    requires Valid(l)
    requires i <= l.numItems
    ensures
      var o, n := Order(l), l.nextSlot;
      var succ := if i < |o| then o[i] else Dummy;
      && succ in l.prev
      && Valid(SpliceBefore(l, succ, x))
      && Order(SpliceBefore(l, succ, x)) == o[..i] + [n] + o[i..]
      && Contents(SpliceBefore(l, succ, x)) == Contents(l)[..i] + [x] + Contents(l)[i..]
  {
    var o, n := Order(l), l.nextSlot;
    var succ := if i < |o| then o[i] else Dummy;
    SpliceBeforeRing(l, o, i, x);
    var l' := SpliceBefore(l, succ, x);
    var o' := o[..i] + [n] + o[i..];
    RingOrder(l', o');
    assert n !in o;
    ValuesInsert(l.data, o, i, n, x);
  }

  /**
   Inserts `x` at index `i`: every item at index `i` or higher moves up by
   one. The node is spliced in before the slot `find(i)` returns, so appending
   (`i == numItems`) splices before the sentinel and the empty list needs no
   separate case.
   */
  function Add<T>(l: LinkedList<T>, i: nat, x: T): (r: Result<LinkedList<T>>)
    requires Valid(l)
    ensures r.Ok? <==> i <= l.numItems
    ensures r.OutOfRange? ==> r == OutOfRange(i, l.numItems)
    ensures r.Ok? ==>
      && Valid(r.value)
      && r.value.numItems == l.numItems + 1
      && r.value.nextSlot == l.nextSlot + 1
      && Order(r.value) == Order(l)[..i] + [l.nextSlot] + Order(l)[i..]
      && Contents(r.value) == Contents(l)[..i] + [x] + Contents(l)[i..]
  {
    match Find(l, i)
    case OutOfRange(_, _) => OutOfRange(i, l.numItems)
    case Ok(succ) =>
      SpliceBeforeCorrect(l, i, x);
      Ok(SpliceBefore(l, succ, x))
  }

  /** The two link rewrites that bypass slot `node`, which is then released. */
  function Unlink<T>(l: LinkedList<T>, node: nat): LinkedList<T>
    requires node in l.next && node in l.prev
    requires l.numItems > 0
  {
    var pred, succ := l.prev[node], l.next[node];
    LinkedList(
      l.next[pred := succ] - {node},
      l.prev[succ := pred] - {node},
      l.data - {node},
      l.numItems - 1,
      l.nextSlot)
  }

  /** Unlinking item `i` keeps the remaining slots distinct and links them in order. */
  lemma UnlinkLinks<T>(l: LinkedList<T>, o: seq<nat>, i: nat)
    requires Distinct([Dummy] + o)
    requires Linked(l.next, l.prev, [Dummy] + o)
    requires i < |o| == l.numItems
    ensures
      var node, o' := o[i], o[..i] + o[i + 1..];
      && node != Dummy
      && node in l.next && node in l.prev
      && l.prev[node] in l.next && l.next[node] in l.prev
      && l.prev[node] != node
      && Distinct([Dummy] + o')
      && Linked(Unlink(l, node).next, Unlink(l, node).prev, [Dummy] + o')
  {
    var c := [Dummy] + o;
    assert c[i + 1] == o[i] && c[0] != c[i + 1] && c[i] != c[i + 1];
    assert l.prev[o[i]] == c[i] && l.next[o[i]] == c[Succ(|c|, i + 1)] by {
      assert LinkedAt(l.next, l.prev, c, i);
      assert LinkedAt(l.next, l.prev, c, i + 1);
    }
    assert c[i] in l.next && c[Succ(|c|, i + 1)] in l.prev by {
      LinksInverse(l.next, l.prev, c);
    }
    SpliceOut(l.next, l.prev, c, i + 1);
    DeletedSlots(o, i, l.nextSlot);
  }

  /** Unlinking item `i` removes exactly its slot from the link maps. */
  lemma UnlinkShape<T>(l: LinkedList<T>, o: seq<nat>, i: nat)
    requires Shape(l, o)
    requires Distinct([Dummy] + o)
    requires i < |o|
    requires o[i] != Dummy
    requires l.prev[o[i]] in l.next && l.next[o[i]] in l.prev && l.prev[o[i]] != o[i]
    ensures Shape(Unlink(l, o[i]), o[..i] + o[i + 1..])
  {
    var l', o' := Unlink(l, o[i]), o[..i] + o[i + 1..];
    DeletedSlots(o, i, l.nextSlot);
    assert l'.next.Keys == l.next.Keys - {o[i]};
    assert l'.prev.Keys == l.prev.Keys - {o[i]};
  }

  /** Unlinking the slot of item `i` yields the ring without it. */
  lemma UnlinkRing<T>(l: LinkedList<T>, o: seq<nat>, i: nat)
    requires IsRing(l, o)
    requires i < |o|
    ensures
      && o[i] in l.next && o[i] in l.prev
      && IsRing(Unlink(l, o[i]), o[..i] + o[i + 1..])
      && o[i] !in Unlink(l, o[i]).next && o[i] !in Unlink(l, o[i]).prev
  {
    UnlinkLinks(l, o, i);
    UnlinkShape(l, o, i);
  }

  /** Unlinking the slot of item `i` of a valid list gives a valid list without that item. */
  lemma UnlinkCorrect<T>(l: LinkedList<T>, i: nat)
    requires Valid(l)
    requires i < l.numItems
    ensures
      var o := Order(l);
      && o[i] in l.next && o[i] in l.prev
      && Valid(Unlink(l, o[i]))
      && Order(Unlink(l, o[i])) == o[..i] + o[i + 1..]
      && Contents(Unlink(l, o[i])) == Contents(l)[..i] + Contents(l)[i + 1..]
      && o[i] !in Unlink(l, o[i]).next && o[i] !in Unlink(l, o[i]).prev
  {
    var o := Order(l);
    UnlinkRing(l, o, i);
    var l' := Unlink(l, o[i]);
    var o' := o[..i] + o[i + 1..];
    RingOrder(l', o');
    ValuesDelete(l.data, o, i);
  }

  /**
   Removes the item at index `i`: its predecessor and successor are linked to
   each other, every item above `i` moves down by one, and the node's slot is
   released, so nothing reaches it any more.
   */
  function Remove<T>(l: LinkedList<T>, i: nat): (r: Result<LinkedList<T>>)
    requires Valid(l)
    ensures r.Ok? <==> i < l.numItems
    ensures r.OutOfRange? ==> r == OutOfRange(i, l.numItems)
    ensures r.Ok? ==>
      && Valid(r.value)
      && r.value.numItems == l.numItems - 1
      && r.value.nextSlot == l.nextSlot
      && Order(r.value) == Order(l)[..i] + Order(l)[i + 1..]
      && Contents(r.value) == Contents(l)[..i] + Contents(l)[i + 1..]
      && Order(l)[i] !in r.value.next && Order(l)[i] !in r.value.prev
      && Order(l)[i] !in Order(r.value)
  {
    if i >= l.numItems then
      OutOfRange(i, l.numItems)
    else
      var node := Find(l, i).value;
      UnlinkCorrect(l, i);
      Ok(Unlink(l, node))
  }
}
