/**
 The priority queue of the search, modelled as the multiset of its entries.
 The heap layout is not modelled: a pop hands out the least entry in the
 order Python compares `(priority, (x, y))` tuples.
 */
module Queue {
  import opened Cells

  /** A queue entry: the priority `g + h` and the cell it was pushed for. */
  datatype Entry = Entry(priority: int, cell: Cell)

  /**
   The order in which the queue hands out entries: by priority, then by the
   cell's x, then by its y, as tuples `(priority, (x, y))` compare.
   */
  predicate EntryLeq(a: Entry, b: Entry)
  {
    || a.priority < b.priority
    || (a.priority == b.priority && a.cell.x < b.cell.x)
    || (a.priority == b.priority && a.cell.x == b.cell.x && a.cell.y <= b.cell.y)
  }

  /** The queue order is total, antisymmetric and transitive, so the least entry is unique. */
  lemma EntryLeqIsTotalOrder(a: Entry, b: Entry, c: Entry)
    ensures EntryLeq(a, b) || EntryLeq(b, a)
    ensures EntryLeq(a, b) && EntryLeq(b, a) ==> a == b
    ensures EntryLeq(a, b) && EntryLeq(b, c) ==> EntryLeq(a, c)
  {
  }

  /** Two least entries of the same queue are the same entry: the pop is determined. */
  lemma LeastIsUnique(heap: multiset<Entry>, e: Entry, e': Entry)
    requires IsLeast(e, heap) && IsLeast(e', heap)
    ensures e == e'
  {
    EntryLeqIsTotalOrder(e, e', e);
  }

  /** `e` comes first among the entries of `heap`. */
  predicate IsLeast(e: Entry, heap: multiset<Entry>)
  {
    e in heap && forall e' :: e' in heap ==> EntryLeq(e, e')
  }

  lemma {:induction false} LeastExists(heap: multiset<Entry>) returns (m: Entry)
    requires heap != multiset{}
    ensures IsLeast(m, heap)
    decreases |heap|
  {
    var x :| x in heap;
    var rest := heap - multiset{x};
    assert forall e :: e in heap ==> e == x || e in rest;
    if rest == multiset{} {
      m := x;
    } else {
      var m' := LeastExists(rest);
      m := if EntryLeq(x, m') then x else m';
    }
  }

  /** Removing the first entry of the queue, as the heap's pop does. */
  method PopMin(heap: multiset<Entry>) returns (e: Entry, rest: multiset<Entry>)
    requires heap != multiset{}
    ensures IsLeast(e, heap) && rest == heap - multiset{e}
  {
    ghost var m := LeastExists(heap);
    e :| IsLeast(e, heap);
    rest := heap - multiset{e};
  }
}
