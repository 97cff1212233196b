/** The standard library's binary heap of reversed (cost, vertex) pairs, as a
    bag from which the least pair is popped. */
module Heaps {

  type Entry = (real, nat)

  predicate Before(a: Entry, b: Entry) {
    a.0 < b.0 || (a.0 == b.0 && a.1 <= b.1)
  }

  ghost predicate IsLeast(heap: multiset<Entry>, e: Entry) {
    e in heap && forall x :: x in heap ==> Before(e, x)
  }

  lemma {:induction false} LeastExists(heap: multiset<Entry>)
    requires heap != multiset{}
    ensures exists e :: IsLeast(heap, e)
    decreases |heap|
  {
    var x :| x in heap;
    var rest := heap - multiset{x};
    if rest == multiset{} {
      assert heap == multiset{x};
      assert IsLeast(heap, x);
    } else {
      LeastExists(rest);
      var y: Entry :| IsLeast(rest, y);
      LeastWith(heap, x, y);
    }
  }

  lemma LeastWith(heap: multiset<Entry>, x: Entry, y: Entry)
    requires x in heap && IsLeast(heap - multiset{x}, y)
    ensures IsLeast(heap, if Before(x, y) then x else y)
  {
    var rest := heap - multiset{x};
    forall z | z in heap ensures Before(if Before(x, y) then x else y, z) {
      if z != x {
        assert z in rest;
      }
    }
  }

  lemma LeastUnique(heap: multiset<Entry>, x: Entry, y: Entry)
    requires IsLeast(heap, x) && IsLeast(heap, y)
    ensures x == y
  {
    assert Before(x, y) && Before(y, x);
  }

  ghost function Least(heap: multiset<Entry>): (x: Entry)
    requires heap != multiset{}
    ensures IsLeast(heap, x)
  {
    LeastExists(heap);
    var x :| IsLeast(heap, x);
    x
  }

  method Pop(heap: multiset<Entry>) returns (e: Entry, rest: multiset<Entry>)
    requires heap != multiset{}
    ensures IsLeast(heap, e) && rest == heap - multiset{e}
    ensures forall x :: x in heap ==> e.0 < x.0 || (e.0 == x.0 && e.1 <= x.1)
  {
    LeastExists(heap);
    assert exists e :: IsLeast(heap, e) && e in heap && forall x :: x in heap ==> Before(e, x);
    e :| e in heap && forall x :: x in heap ==> Before(e, x);
    rest := heap - multiset{e};
  }
}
