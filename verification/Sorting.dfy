/** The library sorts the repository calls: a stable sort by an ordering, and
    the sorted key list of a set of integers. */
module Sorting {

  ghost predicate TotalPreorder<T(!new)>(leq: (T, T) -> bool) {
    && (forall x, y :: leq(x, y) || leq(y, x))
    && (forall x, y, z :: leq(x, y) && leq(y, z) ==> leq(x, z))
  }

  ghost predicate SortedBy<T(!new)>(leq: (T, T) -> bool, s: seq<T>) {
    forall i, j :: 0 <= i < j < |s| ==> leq(s[i], s[j])
  }

  predicate StrictlyAscending(s: seq<nat>) {
    forall i, j :: 0 <= i < j < |s| ==> s[i] < s[j]
  }

  predicate Distinct<T(==)>(s: seq<T>) {
    forall i, j :: 0 <= i < j < |s| ==> s[i] != s[j]
  }

  function Elems<T>(s: seq<T>): (r: set<T>) {
    set x | x in s
  }

  lemma ElemsNonempty<T>(s: seq<T>)
    ensures s == [] <==> Elems(s) == {}
  {
    if s != [] {
      assert s[0] in Elems(s);
    }
  }

  lemma ElemsAppend<T>(s: seq<T>, x: T)
    ensures Elems(s + [x]) == Elems(s) + {x}
    ensures Distinct(s) && x !in Elems(s) ==> Distinct(s + [x])
  {
    var t := s + [x];
    assert t[|s|] == x;
    forall i | 0 <= i < |s| ensures t[i] == s[i] && s[i] in Elems(s) {}
  }

  function InsertBy<T>(leq: (T, T) -> bool, x: T, s: seq<T>): (r: seq<T>)
    ensures |r| == |s| + 1
  {
    if s == [] then [x]
    else if leq(x, s[0]) then [x] + s
    else [s[0]] + InsertBy(leq, x, s[1..])
  }

  function SortBy<T>(leq: (T, T) -> bool, s: seq<T>): (r: seq<T>)
    ensures |r| == |s|
  {
    if s == [] then [] else InsertBy(leq, s[0], SortBy(leq, s[1..]))
  }

  lemma {:induction false} InsertByMultiset<T>(leq: (T, T) -> bool, x: T, s: seq<T>)
    ensures multiset(InsertBy(leq, x, s)) == multiset{x} + multiset(s)
  {
    if s == [] {
    } else {
      assert s == [s[0]] + s[1..];
      if !leq(x, s[0]) {
        InsertByMultiset(leq, x, s[1..]);
      }
    }
  }

  lemma {:induction false} SortByMultiset<T>(leq: (T, T) -> bool, s: seq<T>)
    ensures multiset(SortBy(leq, s)) == multiset(s)
  {
    if s == [] {
    } else {
      assert s == [s[0]] + s[1..];
      SortByMultiset(leq, s[1..]);
      InsertByMultiset(leq, s[0], SortBy(leq, s[1..]));
    }
  }

  lemma {:induction false} InsertBySorted<T(!new)>(leq: (T, T) -> bool, x: T, s: seq<T>)
    requires TotalPreorder(leq) && SortedBy(leq, s)
    ensures SortedBy(leq, InsertBy(leq, x, s))
  {
    if s == [] || leq(x, s[0]) {
    } else {
      var rest := InsertBy(leq, x, s[1..]);
      InsertBySorted(leq, x, s[1..]);
      InsertByMultiset(leq, x, s[1..]);
      forall j | 0 <= j < |rest| ensures leq(s[0], rest[j]) {
        assert rest[j] in multiset(rest);
        assert rest[j] == x || rest[j] in s[1..];
      }
    }
  }

  lemma {:induction false} SortBySorted<T(!new)>(leq: (T, T) -> bool, s: seq<T>)
    requires TotalPreorder(leq)
    ensures SortedBy(leq, SortBy(leq, s))
  {
    if s == [] {
    } else {
      SortBySorted(leq, s[1..]);
      InsertBySorted(leq, s[0], SortBy(leq, s[1..]));
    }
  }

  lemma MultisetDistinct<T>(s: seq<T>, t: seq<T>)
    requires multiset(s) == multiset(t)
    ensures |s| == |t| && Elems(s) == Elems(t)
    ensures Distinct(s) <==> Distinct(t)
  {
    assert |multiset(s)| == |multiset(t)|;
    forall x ensures x in s <==> x in t {
      assert x in s <==> x in multiset(s);
      assert x in t <==> x in multiset(t);
    }
    DistinctCount(s);
    DistinctCount(t);
  }

  lemma {:induction false} DistinctCount<T>(s: seq<T>)
    ensures Distinct(s) <==> forall x :: multiset(s)[x] <= 1
  {
    if s == [] {
    } else {
      var head, rest := s[0], s[1..];
      DistinctCount(rest);
      assert s == [head] + rest;
      assert multiset(s) == multiset{head} + multiset(rest);
      if head in rest {
        assert multiset(s)[head] >= 2;
        var k :| 0 <= k < |rest| && rest[k] == head;
        assert s[k + 1] == s[0];
      } else {
        assert head !in multiset(rest);
        if Distinct(rest) {
          assert Distinct(s);
          assert forall x :: multiset(s)[x] <= 1;
        } else {
          var x :| multiset(rest)[x] > 1;
          assert multiset(s)[x] > 1;
          var i, j :| 0 <= i < j < |rest| && rest[i] == rest[j];
          assert s[i + 1] == s[j + 1];
        }
      }
    }
  }

  function NatLeq(x: nat, y: nat): bool {
    x <= y
  }

  function Ascending(s: seq<nat>): (r: seq<nat>)
    ensures |r| == |s|
  {
    SortBy(NatLeq, s)
  }

  lemma AscendingCorrect(s: seq<nat>)
    ensures Elems(Ascending(s)) == Elems(s)
    ensures Distinct(s) ==> StrictlyAscending(Ascending(s))
  {
    SortByMultiset(NatLeq, s);
    assert TotalPreorder(NatLeq);
    SortBySorted(NatLeq, s);
    MultisetDistinct(Ascending(s), s);
    var r := Ascending(s);
    if Distinct(s) {
      forall i, j | 0 <= i < j < |r| ensures r[i] < r[j] {
        assert NatLeq(r[i], r[j]);
      }
    }
  }

  /** A strictly ascending list is determined by its elements. */
  lemma {:induction false} AscendingUnique(s: seq<nat>, t: seq<nat>)
    requires StrictlyAscending(s) && StrictlyAscending(t)
    requires Elems(s) == Elems(t)
    ensures s == t
  {
    ElemsNonempty(s);
    ElemsNonempty(t);
    if s == [] {
    } else {
      assert s[0] in Elems(t);
      assert t != [];
      assert t[0] in Elems(s);
      assert s[0] == t[0];
      forall x ensures x in Elems(s[1..]) <==> x in Elems(t[1..]) {
        assert x in Elems(s[1..]) <==> x in Elems(s) && x != s[0] by {
          assert s == [s[0]] + s[1..];
        }
        assert x in Elems(t[1..]) <==> x in Elems(t) && x != t[0] by {
          assert t == [t[0]] + t[1..];
        }
      }
      AscendingUnique(s[1..], t[1..]);
      assert s == [s[0]] + s[1..];
      assert t == [t[0]] + t[1..];
    }
  }

  /** The keys of a map, which may come in any order, sorted. */
  method SortedKeys(all: set<nat>) returns (keys: seq<nat>)
    ensures StrictlyAscending(keys) && Elems(keys) == all && |keys| == |all|
  {
    var found: seq<nat> := [];
    var rest := all;
    while rest != {}
      invariant rest <= all && |found| + |rest| == |all|
      invariant Distinct(found) && Elems(found) == all - rest
      decreases rest
    {
      var v :| v in rest;
      ElemsAppend(found, v);
      found := found + [v];
      rest := rest - {v};
    }
    AscendingCorrect(found);
    assert forall v :: v in Ascending(found) ==> v in Elems(found);
    keys := Ascending(found);
  }

  lemma {:induction false} DistinctSize<T>(s: seq<T>)
    requires Distinct(s)
    ensures |Elems(s)| == |s|
  {
    if s == [] {
      ElemsNonempty(s);
    } else {
      var k := |s| - 1;
      DistinctSize(s[..k]);
      ElemsAppend(s[..k], s[k]);
      assert s == s[..k] + [s[k]];
      assert s[k] !in s[..k];
    }
  }

  lemma {:induction false} SubsetSize<T>(a: set<T>, b: set<T>)
    requires a <= b
    ensures |a| <= |b|
  {
    if a != {} {
      var x :| x in a;
      SubsetSize(a - {x}, b - {x});
    }
  }
}
