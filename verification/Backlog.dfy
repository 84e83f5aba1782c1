/** The backlog of the best-first trie walk: a binary min-heap on key length, kept in one array. */
module Backlog {

  /** A set of leaves to report, with the length of the key that leads to it. */
  datatype Entry = Entry(leaves: set<nat>, length: nat)

  function Parent(slot: nat): nat
    requires slot > 0
  {
    (slot - 1) / 2
  }

  /** No entry is shorter than the one above it, except perhaps at one slot. */
  ghost predicate HeapBut(items: seq<Entry>, hole: nat) {
    && (forall i :: 0 < i < |items| && i != hole ==> items[Parent(i)].length <= items[i].length)
    && (forall i :: 0 < i < |items| && Parent(i) == hole && hole > 0 ==> items[Parent(hole)].length <= items[i].length)
  }

  ghost predicate Heap(items: seq<Entry>) {
    forall i :: 0 < i < |items| ==> items[Parent(i)].length <= items[i].length
  }

  /** No entry is shorter than the one above it, except perhaps just below one slot. */
  ghost predicate HeapAbove(items: seq<Entry>, hole: nat) {
    && (forall i :: 0 < i < |items| && Parent(i) != hole ==> items[Parent(i)].length <= items[i].length)
    && (forall i :: 0 < i < |items| && Parent(i) == hole && hole > 0 ==> items[Parent(hole)].length <= items[i].length)
  }

  function Swapped(items: seq<Entry>, i: nat, j: nat): seq<Entry>
    requires i < |items| && j < |items|
  {
    items[i := items[j]][j := items[i]]
  }

  lemma SwapKeepsEntries(items: seq<Entry>, i: nat, j: nat)
    requires i < |items| && j < |items|
    ensures multiset(Swapped(items, i, j)) == multiset(items)
  {
  }

  lemma {:induction false} RootIsShortest(items: seq<Entry>, i: nat)
    requires Heap(items) && i < |items|
    ensures items[0].length <= items[i].length
  {
    if i > 0 {
      RootIsShortest(items, Parent(i));
    }
  }

  lemma AppendKeepsHeap(items: seq<Entry>, entry: Entry)
    requires Heap(items)
    ensures HeapBut(items + [entry], |items|)
  {
  }

  lemma RiseStep(items: seq<Entry>, slot: nat)
    requires 0 < slot < |items| && HeapBut(items, slot) && items[slot].length < items[Parent(slot)].length
    ensures HeapBut(Swapped(items, slot, Parent(slot)), Parent(slot))
    ensures |Swapped(items, slot, Parent(slot))| == |items|
  {
    var items' := Swapped(items, slot, Parent(slot));
    forall i | 0 < i < |items| && i != Parent(slot) ensures items'[Parent(i)].length <= items'[i].length {
      if i != slot && Parent(i) == Parent(slot) {
        assert items[Parent(i)].length <= items[i].length;
      }
    }
  }

  lemma RiseEnd(items: seq<Entry>, slot: nat)
    requires slot < |items| && HeapBut(items, slot)
    requires slot > 0 ==> items[Parent(slot)].length <= items[slot].length
    ensures Heap(items)
  {
  }

  ghost predicate Smallest(items: seq<Entry>, slot: nat, smallest: nat) {
    && slot < |items| && smallest < |items| && (smallest == slot || smallest == 2 * slot + 1 ||
                                                smallest == 2 * slot + 2)
    && items[smallest].length <= items[slot].length
    && (2 * slot + 1 < |items| ==> items[smallest].length <= items[2 * slot + 1].length)
    && (2 * slot + 2 < |items| ==> items[smallest].length <= items[2 * slot + 2].length)
  }

  lemma SinkStep(items: seq<Entry>, slot: nat, smallest: nat)
    requires HeapAbove(items, slot) && Smallest(items, slot, smallest) && smallest != slot
    ensures HeapAbove(Swapped(items, slot, smallest), smallest)
    ensures |Swapped(items, slot, smallest)| == |items|
  {
    var items' := Swapped(items, slot, smallest);
    forall i | 0 < i < |items| && Parent(i) != smallest ensures items'[Parent(i)].length <= items'[i].length {
      if Parent(i) == slot {
        assert i == 2 * slot + 1 || i == 2 * slot + 2;
      } else if i == slot {
        assert items[Parent(slot)].length <= items[smallest].length;
      }
    }
    forall i | 0 < i < |items| && Parent(i) == smallest ensures items'[Parent(smallest)].length <= items'[i].length {
      assert items[smallest].length <= items[i].length;
    }
  }

  lemma SinkEnd(items: seq<Entry>, slot: nat)
    requires HeapAbove(items, slot) && (slot < |items| ==> Smallest(items, slot, slot))
    ensures Heap(items)
  {
    forall i | 0 < i < |items| ensures items[Parent(i)].length <= items[i].length {
      if Parent(i) == slot {
        assert i == 2 * slot + 1 || i == 2 * slot + 2;
      }
    }
  }

  lemma TakeLast(items: seq<Entry>)
    requires items != []
    ensures var taken := items[0 := items[|items| - 1]][..|items| - 1];
            multiset(items) == multiset(taken) + multiset{items[0]}
            && (forall e :: e in multiset(taken) ==> e in items)
            && (Heap(items) ==> HeapAbove(taken, 0))
  {
    var last := items[|items| - 1];
    assert items == items[..|items| - 1] + [last];
    if |items| > 1 {
      var taken := items[0 := last][..|items| - 1];
      assert taken == [last] + items[1..|items| - 1];
      assert items == [items[0]] + items[1..|items| - 1] + [last];
    }
  }

  class Queue {
    var items: seq<Entry>

    constructor ()
      ensures items == []
    {
      items := [];
    }

    method Push(entry: Entry)
      requires Heap(items)
      modifies this
      ensures Heap(items)
      ensures multiset(items) == multiset(old(items)) + multiset{entry}
    {
      hide HeapBut, Swapped;
      var slot: nat := |items|;
      AppendKeepsHeap(items, entry);
      items := items + [entry];
      while slot > 0 && items[slot].length < items[Parent(slot)].length
        invariant slot < |items| && HeapBut(items, slot)
        invariant multiset(items) == multiset(old(items)) + multiset{entry}
      {
        var parentSlot := Parent(slot);
        SwapKeepsEntries(items, slot, parentSlot);
        RiseStep(items, slot);
        items := Swapped(items, slot, parentSlot);
        slot := parentSlot;
      }
      RiseEnd(items, slot);
    }

    /** Removing the root: the last entry takes its place and sinks. */
    method Pop() returns (root: Entry)
      requires Heap(items) && items != []
      modifies this
      ensures Heap(items)
      ensures root == old(items)[0] && multiset(old(items)) == multiset(items) + multiset{root}
      ensures |items| == |old(items)| - 1
      ensures forall e :: e in multiset(items) ==> root.length <= e.length
    {
      hide HeapAbove, Heap, Swapped;
      root := items[0];
      forall i | 0 <= i < |items| ensures root.length <= items[i].length {
        RootIsShortest(items, i);
      }
      TakeLast(items);
      items := items[0 := items[|items| - 1]];
      items := items[..|items| - 1];
      ghost var left := multiset(items);
      var slot: nat := 0;
      while slot < |items|
        invariant slot <= |items| && HeapAbove(items, slot)
        invariant multiset(items) == left && |items| == |old(items)| - 1
        decreases |items| - slot
      {
        var leftSlot, rightSlot := 2 * slot + 1, 2 * slot + 2;
        var smallest := slot;
        if leftSlot < |items| && items[leftSlot].length < items[smallest].length {
          smallest := leftSlot;
        }
        if rightSlot < |items| && items[rightSlot].length < items[smallest].length {
          smallest := rightSlot;
        }
        if smallest == slot {
          break;
        }
        SwapKeepsEntries(items, slot, smallest);
        SinkStep(items, slot, smallest);
        items := Swapped(items, slot, smallest);
        slot := smallest;
      }
      SinkEnd(items, slot);
    }
  }
}
