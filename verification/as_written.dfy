/**
 The completed `find`, `get` and `add` exactly as the class writes them, with
 `unsigned long` arithmetic made explicit, next to the corrected operations
 of `LinkedLists`. Each discrepancy is stated as a lemma about every list it
 affects, not just one example.
 */
module AsWritten {
  import opened Errors
  import opened Ring
  import opened LinkedLists

  /** `unsigned long` is 64 bits wide: arithmetic on indices wraps at 2^64. */
  const ULongModulus: nat := 0x1_0000_0000_0000_0000

  /** `i + 1` computed in `unsigned long`. */
  function SuccULong(i: nat): (r: nat)
    requires i < ULongModulus
    ensures r < ULongModulus
    ensures r == 0 <==> i == ULongModulus - 1
    ensures r != 0 ==> r == i + 1
  {
    (i + 1) % ULongModulus
  }

  /** `i - 1` computed in `unsigned long`. */
  function PredULong(i: nat): (r: nat)
    requires i < ULongModulus
    ensures r < ULongModulus
    ensures SuccULong(r) == i
  {
    (i + ULongModulus - 1) % ULongModulus
  }

  /**
   The completed `find`: it fails when `numItems < i + 1`, the sum taken in
   `unsigned long`, and otherwise takes `i + 1` steps along `next` from the
   sentinel. It refuses `i == numItems`, which the class documents as
   returning the sentinel, and lets `i == 2^64 - 1` through, where the sum
   wraps to 0 and no step is taken.
   */
  function FindAsWritten<T>(l: LinkedList<T>, i: nat): (r: Result<nat>)
    requires Valid(l) && l.numItems < ULongModulus
    requires i < ULongModulus
    ensures i < l.numItems ==> r == Find(l, i)
    ensures i + 1 < ULongModulus ==> (r.Ok? <==> i < l.numItems)
    ensures i + 1 < ULongModulus && r.Ok? ==>
      r.value == Order(l)[i] && r.value in l.data && l.data[r.value] == Contents(l)[i]
    ensures r.OutOfRange? ==> r == OutOfRange(i, l.numItems)
    ensures i == ULongModulus - 1 ==> r == Ok(Dummy)
  {
    var steps := SuccULong(i);
    if l.numItems < steps then
      OutOfRange(i, l.numItems)
    else
      assert i < l.numItems ==> Order(l)[i] == Advance(l.next, Dummy, steps);
      Ok(Advance(l.next, Dummy, steps))
  }

  /** For `i == numItems` the completed `find` fails where the documented one returns the sentinel. */
  lemma FindAsWrittenRejectsEnd<T>(l: LinkedList<T>)
    requires Valid(l) && l.numItems + 1 < ULongModulus
    ensures FindAsWritten(l, l.numItems) == OutOfRange(l.numItems, l.numItems)
    ensures Find(l, l.numItems) == Ok(Dummy)
  {
  }

  /**
   The slot whose data the completed `get` returns: it checks the same
   wrapped `numItems < i + 1` and then calls `find`.
   */
  function GetSlotAsWritten<T>(l: LinkedList<T>, i: nat): (r: Result<nat>)
    requires Valid(l) && l.numItems < ULongModulus
    requires i < ULongModulus
    ensures i + 1 < ULongModulus ==> (r.Ok? <==> i < l.numItems)
    ensures i + 1 < ULongModulus && r.Ok? ==> r.value in l.data && l.data[r.value] == Contents(l)[i]
    ensures r.OutOfRange? ==> r == OutOfRange(i, l.numItems)
  {
    if l.numItems < SuccULong(i) then
      OutOfRange(i, l.numItems)
    else
      FindAsWritten(l, i)
  }

  /**
   `get(2^64 - 1)` passes the wrapped check and reads the sentinel on every
   list small enough to exist, where the corrected `get` fails.
   */
  lemma GetAsWrittenReadsSentinel<T>(l: LinkedList<T>)
    requires Valid(l) && l.numItems < ULongModulus
    ensures GetSlotAsWritten(l, ULongModulus - 1) == Ok(Dummy)
    ensures Get(l, ULongModulus - 1) == OutOfRange(ULongModulus - 1, l.numItems)
  {
  }

  /**
   The slot the completed `add` calls `holder`: `find(i - 1)`, the
   difference taken in `unsigned long`, so `i == 0` gives the sentinel.
   */
  function HolderAsWritten<T>(l: LinkedList<T>, i: nat): (h: nat)
    requires Valid(l) && l.numItems < ULongModulus
    requires i <= l.numItems
    ensures h in l.next && h in l.prev
    ensures h == ([Dummy] + Order(l))[i]
  {
    var j := PredULong(i);
    assert i > 0 ==> j == i - 1 && Order(l)[i - 1] == ([Dummy] + Order(l))[i];
    FindAsWritten(l, j).value
  }

  /**
   `HolderAsWritten(l, i)` is the slot before the one the corrected `add`
   splices before, and the two are linked to each other.
   */
  lemma HolderIsPredecessor<T>(l: LinkedList<T>, i: nat)
    requires Valid(l) && l.numItems < ULongModulus
    requires i <= l.numItems
    ensures Find(l, i).Ok?
    ensures
      var h, succ := HolderAsWritten(l, i), Find(l, i).value;
      && l.next[h] == succ && l.prev[succ] == h
  {
    var c := [Dummy] + Order(l);
    assert LinkedAt(l.next, l.prev, c, i);
    assert Find(l, i).value == c[Succ(|c|, i)];
  }

  /**
   The link assignments of the completed `add` on a non-empty list, with
   `holder = find(i - 1)` already found, in the order written:
   `newNode->next = holder->next`, `newNode->prev = holder`,
   `holder->prev = newNode->prev`, `holder = newNode->prev->prev`,
   `holder->next = newNode`.
   */
  function SpliceAfterAsWritten<T>(l: LinkedList<T>, holder: nat, x: T): LinkedList<T>
    requires holder in l.next
  {
    var n := l.nextSlot;
    var next1, prev1 := l.next[n := l.next[holder]], l.prev[n := holder];
    var prev2 := prev1[holder := prev1[n]];
    var holder2 := prev2[prev2[n]];
    LinkedList(next1[holder2 := n], prev2, l.data[n := x], l.numItems + 1, l.nextSlot + 1)
  }

  /**
   Splicing after `holder` as written sets the same `next` links and data
   as the corrected splice before `holder`'s successor, but leaves
   `holder`'s `prev` pointing at `holder` itself.
   */
  lemma SpliceAfterAsWrittenAgrees<T>(l: LinkedList<T>, succ: nat, x: T)
    requires succ in l.prev && l.prev[succ] in l.next && l.next[l.prev[succ]] == succ
    requires l.nextSlot != l.prev[succ]
    ensures
      var r, h := SpliceAfterAsWritten(l, l.prev[succ], x), l.prev[succ];
      && r.next == SpliceBefore(l, succ, x).next
      && r.data == SpliceBefore(l, succ, x).data
      && r.prev[h] == h
      && r.next[h] == l.nextSlot
  {
  }

  /**
   The completed `add`. On an empty list it builds the two-node ring
   directly; otherwise it splices after `holder = find(i - 1)`, the
   difference taken in `unsigned long`.
   */
  function AddAsWritten<T>(l: LinkedList<T>, i: nat, x: T): (r: Result<LinkedList<T>>)
    requires Valid(l) && l.numItems < ULongModulus
    requires i < ULongModulus
    ensures r.Ok? <==> i <= l.numItems
    ensures r.OutOfRange? ==> r == OutOfRange(i, l.numItems)
    ensures r.Ok? ==>
      && r.value.numItems == l.numItems + 1
      && r.value.nextSlot == l.nextSlot + 1
      && r.value.next == Add(l, i, x).value.next
      && r.value.data == Add(l, i, x).value.data
    ensures r.Ok? && l.numItems == 0 ==> r == Add(l, i, x)
  {
    if l.numItems >= i then
      var n := l.nextSlot;
      EmptyIffSelfLinked(l);
      FreshSlot(l);
      if l.next[Dummy] == Dummy then
        assert Add(l, i, x).value == SpliceBefore(l, Dummy, x);
        assert l.next[n := Dummy][Dummy := n] == l.next[Dummy := n][n := Dummy];
        assert l.prev[n := Dummy][Dummy := n] == l.prev[Dummy := n][n := Dummy];
        Ok(LinkedList(
          l.next[n := Dummy][Dummy := n],
          l.prev[n := Dummy][Dummy := n],
          l.data[n := x],
          l.numItems + 1,
          l.nextSlot + 1))
      else
        var holder := HolderAsWritten(l, i);
        HolderIsPredecessor(l, i);
        var succ := Find(l, i).value;
        assert Add(l, i, x).value == SpliceBefore(l, succ, x);
        SpliceAfterAsWrittenAgrees(l, succ, x);
        Ok(SpliceAfterAsWritten(l, holder, x))
    else
      OutOfRange(i, l.numItems)
  }

  /**
   On every non-empty list, every index `add` accepts leaves a structure
   that is no longer a ring: the predecessor of the new node has itself as
   `prev`, although its `next` is the new node.
   */
  lemma AddAsWrittenBreaksRing<T>(l: LinkedList<T>, i: nat, x: T)
    requires Valid(l) && l.numItems < ULongModulus
    requires 0 < l.numItems
    requires i <= l.numItems
    ensures AddAsWritten(l, i, x).Ok?
    ensures
      var r, h := AddAsWritten(l, i, x).value, HolderAsWritten(l, i);
      && r.next[h] == l.nextSlot
      && r.prev[h] == h
      && !Valid(r)
  {
    var r, h, n := AddAsWritten(l, i, x).value, HolderAsWritten(l, i), l.nextSlot;
    EmptyIffSelfLinked(l);
    FreshSlot(l);
    assert h != n;
    assert r.prev[h] == h;
    assert r.next[h] == n;
    if Valid(r) {
      LinksAreInverse(r);
      assert false;
    }
  }
}
