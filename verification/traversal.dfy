/**
 The operations of the list that are loops over the ring: counting the
 nodes, walking to an index, and tearing the list down.
 */
module Traversal {
  import opened Errors
  import opened Ring
  import opened LinkedLists

  /**
   Counts the nodes met by following `next` from the sentinel's successor
   until the sentinel comes round again.
   */
  method Size<T>(l: LinkedList<T>) returns (count: nat)
    requires Valid(l)
    ensures count == l.numItems
    ensures count == |Contents(l)|
  {
    ghost var c := [Dummy] + Order(l);
    assert LinkedAt(l.next, l.prev, c, 0);
    count := 0;
    var node := l.next[Dummy];
    while node != Dummy
      invariant count < |c|
      invariant node == c[Succ(|c|, count)]
      decreases |c| - count
    {
      assert LinkedAt(l.next, l.prev, c, Succ(|c|, count));
      count := count + 1;
      node := l.next[node];
    }
    assert c[Succ(|c|, count)] == c[0];
  }

  /**
   Walks to the slot of item `i` one `next` step at a time, counting `i`
   down; `i == numItems` yields the sentinel and anything larger fails.
   */
  method FindNode<T>(l: LinkedList<T>, i: nat) returns (r: Result<nat>)
    requires Valid(l)
    ensures r == Find(l, i)
  {
    if i == l.numItems {
      return Ok(Dummy);
    } else if i > l.numItems {
      return OutOfRange(i, l.numItems);
    }
    ghost var c := [Dummy] + Order(l);
    assert |c| == l.numItems + 1;
    assert LinkedAt(l.next, l.prev, c, 0);
    var node := l.next[Dummy];
    var j: nat := i;
    while j > 0
      invariant j <= i < l.numItems && |c| == l.numItems + 1
      invariant node == c[i - j + 1]
    {
      assert LinkedAt(l.next, l.prev, c, i - j + 1);
      node := l.next[node];
      j := j - 1;
    }
    return Ok(node);
  }

  /**
   The destructor: removes item 0 while any item is left. Returns the
   emptied list and the slots released, one per iteration.
   */
  method Destroy<T>(l: LinkedList<T>) returns (e: LinkedList<T>, released: seq<nat>)
    requires Valid(l)
    ensures |released| == l.numItems
    ensures released == Order(l)
    ensures Valid(e) && e.numItems == 0 && Contents(e) == []
    ensures e.next == map[Dummy := Dummy] && e.prev == map[Dummy := Dummy] && e.data == map[]
  {
    e, released := l, [];
    while e.numItems > 0
      invariant Valid(e)
      invariant released + Order(e) == Order(l)
      decreases e.numItems
    {
      var e', node := RemoveFront(e);
      assert (released + [node]) + Order(e') == released + Order(e);
      released, e := released + [node], e';
    }
    Emptied(e);
  }

  /** A valid list without items is the sentinel alone, linked to itself. */
  lemma Emptied<T>(l: LinkedList<T>)
    requires Valid(l) && l.numItems == 0
    ensures Contents(l) == []
    ensures l.next == map[Dummy := Dummy] && l.prev == map[Dummy := Dummy] && l.data == map[]
  {
    EmptyIffSelfLinked(l);
    assert l.next == map[Dummy := Dummy] && l.prev == map[Dummy := Dummy];
  }

  /** One turn of the destructor's loop: `remove(0)`, reporting the slot released. */
  method RemoveFront<T>(l: LinkedList<T>) returns (l': LinkedList<T>, node: nat)
    requires Valid(l)
    requires l.numItems > 0
    ensures Valid(l') && l'.numItems == l.numItems - 1
    ensures Order(l) == [node] + Order(l')
    ensures node !in l'.next && node !in l'.prev
  {
    ghost var o := Order(l);
    node := Find(l, 0).value;
    l' := Remove(l, 0).value;
    RemoveHead(l);
    assert o == [o[0]] + o[1..];
  }

  /** `remove(0)` takes the first slot off the front of the order. */
  lemma RemoveHead<T>(l: LinkedList<T>)
    requires Valid(l)
    requires l.numItems > 0
    ensures Remove(l, 0).Ok?
    ensures Order(Remove(l, 0).value) == Order(l)[1..]
  {
    assert Order(l)[..0] == [];
  }
}
