/** Walks, their cost, reachability and strong connectivity. */
module Walks {
  import opened Sorting
  import opened Graphs

  /** `ws[i]` is the weight of the edge taken from `p[i]` to `p[i + 1]`. */
  ghost predicate Walk(adj: Adjacency, p: seq<nat>, ws: seq<real>) {
    && |p| == |ws| + 1
    && forall i {:trigger ws[i]} :: 0 <= i < |ws| ==> Edge(p[i + 1], ws[i]) in Out(adj, p[i])
  }

  ghost predicate WalkBetween(adj: Adjacency, u: nat, v: nat, p: seq<nat>, ws: seq<real>) {
    Walk(adj, p, ws) && p[0] == u && p[|ws|] == v
  }

  ghost predicate Reaches(adj: Adjacency, u: nat, v: nat) {
    exists p, ws :: WalkBetween(adj, u, v, p, ws)
  }

  ghost predicate Mutual(adj: Adjacency, u: nat, v: nat) {
    Reaches(adj, u, v) && Reaches(adj, v, u)
  }

  function Cost(ws: seq<real>): real {
    if ws == [] then 0.0 else Cost(ws[..|ws| - 1]) + ws[|ws| - 1]
  }

  ghost predicate NonNegative(adj: Adjacency) {
    forall u, e :: e in Out(adj, u) ==> e.weight >= 0.0
  }

  /** No cycle within reach of `start` costs less than nothing. */
  ghost predicate NoNegativeCycle(adj: Adjacency, start: nat) {
    forall v, p, ws :: Reaches(adj, start, v) && WalkBetween(adj, v, v, p, ws) ==> Cost(ws) >= 0.0
  }

  lemma NonNegativeCycles(adj: Adjacency, start: nat)
    requires NonNegative(adj)
    ensures NoNegativeCycle(adj, start)
  {
    hide Reaches, Cost, Out;
    forall v, p, ws | Reaches(adj, start, v) && WalkBetween(adj, v, v, p, ws) ensures Cost(ws) >= 0.0 {
      WalkNonNegative(adj, p, ws);
    }
  }

  // --- cost

  lemma CostAppend(ws: seq<real>, w: real)
    ensures Cost(ws + [w]) == Cost(ws) + w
  {
    assert (ws + [w])[..|ws|] == ws;
  }

  lemma {:induction false} CostConcat(a: seq<real>, b: seq<real>)
    ensures Cost(a + b) == Cost(a) + Cost(b)
  {
    if b == [] {
      assert a + b == a;
    } else {
      var b0, w := b[..|b| - 1], b[|b| - 1];
      assert b == b0 + [w];
      assert a + b == (a + b0) + [w];
      CostConcat(a, b0);
      CostAppend(a + b0, w);
    }
  }

  lemma {:induction false} CostNonNegative(ws: seq<real>)
    requires forall i :: 0 <= i < |ws| ==> ws[i] >= 0.0
    ensures Cost(ws) >= 0.0
  {
    if ws != [] {
      CostNonNegative(ws[..|ws| - 1]);
    }
  }

  lemma WalkNonNegative(adj: Adjacency, p: seq<nat>, ws: seq<real>)
    requires NonNegative(adj) && Walk(adj, p, ws)
    ensures forall i :: 0 <= i < |ws| ==> ws[i] >= 0.0
    ensures Cost(ws) >= 0.0
  {
    forall i | 0 <= i < |ws| ensures ws[i] >= 0.0 {
      assert Edge(p[i + 1], ws[i]) in Out(adj, p[i]);
    }
    CostNonNegative(ws);
  }

  // --- walks

  lemma WalkAppend(adj: Adjacency, p: seq<nat>, ws: seq<real>, e: Edge)
    requires Walk(adj, p, ws) && e in Out(adj, p[|ws|])
    ensures Walk(adj, p + [e.target], ws + [e.weight])
  {
    var q, us := p + [e.target], ws + [e.weight];
    forall i | 0 <= i < |us| ensures Edge(q[i + 1], us[i]) in Out(adj, q[i]) {
      if i < |ws| {
        var w := ws[i];
        assert Edge(p[i + 1], w) in Out(adj, p[i]);
        assert q[i] == p[i] && q[i + 1] == p[i + 1] && us[i] == w;
      } else {
        assert q[i] == p[|ws|] && q[i + 1] == e.target && us[i] == e.weight;
      }
    }
  }

  lemma CostSplit(ws: seq<real>, k: nat)
    requires k <= |ws|
    ensures Cost(ws) == Cost(ws[..k]) + Cost(ws[k..])
  {
    assert ws == ws[..k] + ws[k..];
    CostConcat(ws[..k], ws[k..]);
  }

  lemma WalkSplit(adj: Adjacency, p: seq<nat>, ws: seq<real>, k: nat)
    requires Walk(adj, p, ws) && k <= |ws|
    ensures Walk(adj, p[..k + 1], ws[..k])
    ensures Walk(adj, p[k..], ws[k..])
  {
    hide Out;
    assert Walk(adj, p[..k + 1], ws[..k]) by {
      var q, us := p[..k + 1], ws[..k];
      forall i | 0 <= i < |us| ensures Edge(q[i + 1], us[i]) in Out(adj, q[i]) {
        assert us[i] == ws[i] && q[i] == p[i] && q[i + 1] == p[i + 1];
      }
    }
    var q, us := p[k..], ws[k..];
    forall i | 0 <= i < |us| ensures Edge(q[i + 1], us[i]) in Out(adj, q[i]) {
      assert us[i] == ws[k + i] && q[i] == p[k + i] && q[i + 1] == p[k + i + 1];
    }
  }

  lemma EdgeNonNegative(adj: Adjacency, node: nat, e: Edge)
    requires NonNegative(adj) && e in Out(adj, node)
    ensures e.weight >= 0.0
  {
  }

  lemma EdgeVertex(adj: Adjacency, v: nat, e: Edge)
    requires e in Out(adj, v)
    ensures e.target in Vertices(adj)
  {
    assert e.target in Targets(adj[v]);
  }

  // --- reachability

  lemma ReachesRefl(adj: Adjacency, v: nat)
    ensures Reaches(adj, v, v)
  {
    assert WalkBetween(adj, v, v, [v], []);
  }

  lemma ReachesEdge(adj: Adjacency, u: nat, e: Edge)
    requires e in Out(adj, u)
    ensures Reaches(adj, u, e.target)
  {
    assert WalkBetween(adj, u, e.target, [u, e.target], [e.weight]);
  }

  lemma {:induction false} ReachesTrans(adj: Adjacency, u: nat, v: nat, w: nat)
    requires Reaches(adj, u, v) && Reaches(adj, v, w)
    ensures Reaches(adj, u, w)
  {
    var p, ps :| WalkBetween(adj, u, v, p, ps);
    var q, qs :| WalkBetween(adj, v, w, q, qs);
    var r, rs := p[..|ps|] + q, ps + qs;
    forall i | 0 <= i < |rs| ensures Edge(r[i + 1], rs[i]) in Out(adj, r[i]) {
      if i < |ps| {
        assert Edge(p[i + 1], ps[i]) in Out(adj, p[i]);
        assert r[i + 1] == p[i + 1];
      } else {
        assert Edge(q[i - |ps| + 1], qs[i - |ps|]) in Out(adj, q[i - |ps|]);
      }
    }
    assert WalkBetween(adj, u, w, r, rs);
  }

  ghost predicate Leaves(adj: Adjacency, s: set<nat>, a: nat, e: Edge) {
    a in s && e in Out(adj, a) && e.target !in s
  }

  ghost predicate Closed(adj: Adjacency, s: set<nat>) {
    forall u, e :: u in s && e in Out(adj, u) ==> e.target in s
  }

  /** A walk that starts in `s` and ends outside leaves `s` along some edge. */
  lemma {:induction false} ExitEdge(adj: Adjacency, s: set<nat>, u: nat, v: nat) returns (a: nat, e: Edge)
    requires Reaches(adj, u, v) && u in s && v !in s
    ensures Leaves(adj, s, a, e)
    ensures Reaches(adj, u, a) && Reaches(adj, e.target, v)
  {
    var p, ws :| WalkBetween(adj, u, v, p, ws);
    var i := 0;
    while p[i + 1] in s
      invariant 0 <= i < |ws|
      invariant p[i] in s
      decreases |ws| - i
    {
      i := i + 1;
    }
    hide Out;
    a, e := p[i], Edge(p[i + 1], ws[i]);
    WalkSplit(adj, p, ws, i);
    WalkSplit(adj, p, ws, i + 1);
    assert WalkBetween(adj, u, a, p[..i + 1], ws[..i]);
    assert WalkBetween(adj, e.target, v, p[i + 1..], ws[i + 1..]);
  }

  lemma ClosedReaches(adj: Adjacency, s: set<nat>, u: nat, v: nat)
    requires Closed(adj, s) && u in s && Reaches(adj, u, v)
    ensures v in s
  {
    if v !in s {
      var a, e := ExitEdge(adj, s, u, v);
    }
  }

  lemma VerticesClosed(adj: Adjacency)
    ensures Closed(adj, Vertices(adj))
  {
    forall u, e | e in Out(adj, u) ensures e.target in Vertices(adj) {
      assert e.target in Targets(adj[u]);
    }
  }

  lemma ReachesTransposed(adj: Adjacency, t: Adjacency, u: nat, v: nat)
    requires Transposed(adj, t)
    ensures Reaches(t, v, u) <==> Reaches(adj, u, v)
  {
    if Reaches(adj, u, v) {
      ReverseWalk(adj, t, u, v);
    }
    if Reaches(t, v, u) {
      ReverseWalk(t, adj, v, u);
    }
  }

  lemma ReverseWalk(adj: Adjacency, t: Adjacency, u: nat, v: nat)
    requires forall a, b, w :: Multiplicity(t, b, a, w) == Multiplicity(adj, a, b, w)
    requires Reaches(adj, u, v)
    ensures Reaches(t, v, u)
  {
    var p, ws :| WalkBetween(adj, u, v, p, ws);
    var n := |ws|;
    var q := seq(n + 1, i requires 0 <= i <= n => p[n - i]);
    var us := seq(n, i requires 0 <= i < n => ws[n - 1 - i]);
    forall i | 0 <= i < n ensures Edge(q[i + 1], us[i]) in Out(t, q[i]) {
      var k := n - 1 - i;
      assert Edge(p[k + 1], ws[k]) in Out(adj, p[k]);
      assert Multiplicity(t, p[k + 1], p[k], ws[k]) == Multiplicity(adj, p[k], p[k + 1], ws[k]);
    }
    assert WalkBetween(t, v, u, q, us);
  }

  // --- distances

  /** `d` is the cost of some walk from `u` to `v`, and of no cheaper one. */
  ghost predicate IsDistance(adj: Adjacency, u: nat, v: nat, d: real) {
    Attained(adj, u, v, d) && forall p, ws :: WalkBetween(adj, u, v, p, ws) ==> d <= Cost(ws)
  }

  ghost predicate Attained(adj: Adjacency, u: nat, v: nat, d: real) {
    exists p, ws :: WalkBetween(adj, u, v, p, ws) && Cost(ws) == d
  }

  lemma WalkPrepend(adj: Adjacency, u: nat, e: Edge, p: seq<nat>, ws: seq<real>)
    requires Walk(adj, p, ws) && e in Out(adj, u) && p[0] == e.target
    ensures Walk(adj, [u] + p, [e.weight] + ws)
    ensures Cost([e.weight] + ws) == e.weight + Cost(ws)
  {
    CostConcat([e.weight], ws);
    assert Cost([e.weight]) == e.weight by { CostAppend([], e.weight); assert [] + [e.weight] == [e.weight]; }
    hide Out, Cost;
    var q, us := [u] + p, [e.weight] + ws;
    forall i | 0 <= i < |us| ensures Edge(q[i + 1], us[i]) in Out(adj, q[i]) {
      if i == 0 {
        assert us[i] == e.weight && q[i] == u && q[i + 1] == e.target;
      } else {
        assert us[i] == ws[i - 1] && q[i] == p[i - 1] && q[i + 1] == p[i];
      }
    }
  }

  function Reverse(s: seq<nat>): (r: seq<nat>)
    ensures |r| == |s|
  {
    if s == [] then [] else Reverse(s[1..]) + [s[0]]
  }

  lemma {:induction false} ReverseAppend(s: seq<nat>, x: nat)
    ensures Reverse(s + [x]) == [x] + Reverse(s)
  {
    if s == [] {
      assert s + [x] == [x];
      assert Reverse([x]) == Reverse([]) + [x];
    } else {
      assert (s + [x])[1..] == s[1..] + [x];
      ReverseAppend(s[1..], x);
    }
  }

  lemma TrivialWalk(adj: Adjacency, v: nat)
    ensures WalkBetween(adj, v, v, [v], []) && Cost([]) == 0.0
  {
  }

  // --- strong components

  function Covered(sccs: seq<seq<nat>>): set<nat> {
    set i, v | 0 <= i < |sccs| && v in sccs[i] :: v
  }

  /** `c` is the whole mutual-reachability class of each of its members. */
  ghost predicate IsComponent(adj: Adjacency, c: set<nat>) {
    && c != {}
    && forall u, v :: u in c ==> (v in c <==> Mutual(adj, u, v))
  }

  /** Ascending, pairwise disjoint lists that cover every vertex, each list
      exactly one mutual-reachability class. */
  ghost predicate IsSccPartition(adj: Adjacency, sccs: seq<seq<nat>>) {
    && Covered(sccs) == Vertices(adj)
    && (forall i :: 0 <= i < |sccs| ==> StrictlyAscending(sccs[i]) && IsComponent(adj, Elems(sccs[i])))
    && (forall i, j :: 0 <= i < j < |sccs| ==> Elems(sccs[i]) !! Elems(sccs[j]))
  }

  /** Whatever a component reaches lies in it or in an earlier component. */
  ghost predicate ReverseTopological(adj: Adjacency, sccs: seq<seq<nat>>) {
    forall i, u, v :: 0 <= i < |sccs| && u in sccs[i] && Reaches(adj, u, v) ==> v in Covered(sccs[..i + 1])
  }

  lemma MutualSymmetricTransitive(adj: Adjacency, u: nat, v: nat, w: nat)
    requires Mutual(adj, u, v) && Mutual(adj, v, w)
    ensures Mutual(adj, u, w) && Mutual(adj, w, u)
  {
    ReachesTrans(adj, u, v, w);
    ReachesTrans(adj, w, v, u);
  }

  /** A list of whole components of `adj` under construction: each prefix of it
      is closed under the edges of `dir`, which is `adj` or its transpose. */
  ghost predicate Emitted(adj: Adjacency, dir: Adjacency, sccs: seq<seq<nat>>) {
    && (forall i :: 0 <= i < |sccs| ==> StrictlyAscending(sccs[i]) && IsComponent(adj, Elems(sccs[i])))
    && (forall i, j :: 0 <= i < j < |sccs| ==> Elems(sccs[i]) !! Elems(sccs[j]))
    && (forall i :: 0 <= i <= |sccs| ==> Closed(dir, Covered(sccs[..i])))
  }

  lemma MutualSymmetric(adj: Adjacency, u: nat, v: nat)
    requires Mutual(adj, u, v)
    ensures Mutual(adj, v, u)
  {
  }

  lemma CoveredAppend(sccs: seq<seq<nat>>, c: seq<nat>)
    ensures Covered(sccs + [c]) == Covered(sccs) + Elems(c)
  {
    var more := sccs + [c];
    assert more[|sccs|] == c;
    forall i | 0 <= i < |sccs| ensures more[i] == sccs[i] {}
  }

  lemma EmittedAppend(adj: Adjacency, dir: Adjacency, sccs: seq<seq<nat>>, scc: seq<nat>)
    requires Emitted(adj, dir, sccs) && StrictlyAscending(scc) && IsComponent(adj, Elems(scc))
    requires Covered(sccs) !! Elems(scc) && Closed(dir, Covered(sccs) + Elems(scc))
    ensures Emitted(adj, dir, sccs + [scc])
  {
    hide IsComponent, StrictlyAscending;
    CoveredAppend(sccs, scc);
    var more := sccs + [scc];
    forall i | 0 <= i <= |more| ensures Closed(dir, Covered(more[..i])) {
      if i <= |sccs| {
        assert more[..i] == sccs[..i];
      } else {
        assert more[..i] == more;
      }
    }
    forall i | 0 <= i < |sccs| ensures Elems(sccs[i]) !! Elems(scc) {
      forall v | v in sccs[i] ensures v in Covered(sccs) {}
    }
  }

  /** A partition into strong components is unique up to the order of its lists. */
  lemma PartitionMembersAgree(adj: Adjacency, a: seq<seq<nat>>, b: seq<seq<nat>>, c: seq<nat>)
    requires IsSccPartition(adj, a) && IsSccPartition(adj, b) && c in a
    ensures c in b
  {
    hide Mutual, Covered, Vertices, StrictlyAscending, Elems;
    var i :| 0 <= i < |a| && a[i] == c;
    ElemsNonempty(c);
    var u :| u in Elems(c);
    CoveredBy(a, i, u);
    var j := HolderOf(b, u);
    SameClass(adj, Elems(c), Elems(b[j]), u);
    AscendingUnique(c, b[j]);
  }

  lemma CoveredBy(sccs: seq<seq<nat>>, i: nat, u: nat)
    requires i < |sccs| && u in Elems(sccs[i])
    ensures u in Covered(sccs)
  {
  }

  lemma HolderOf(sccs: seq<seq<nat>>, u: nat) returns (j: nat)
    requires u in Covered(sccs)
    ensures j < |sccs| && u in Elems(sccs[j])
  {
    var i, x :| 0 <= i < |sccs| && x in sccs[i] && x == u;
    j := i;
  }

  lemma SameClass(adj: Adjacency, c: set<nat>, d: set<nat>, u: nat)
    requires IsComponent(adj, c) && IsComponent(adj, d) && u in c && u in d
    ensures c == d
  {
    hide Mutual;
    forall v ensures v in c <==> v in d {
      assert v in c <==> Mutual(adj, u, v);
      assert v in d <==> Mutual(adj, u, v);
    }
  }

  lemma PartitionDistinct(adj: Adjacency, a: seq<seq<nat>>)
    requires IsSccPartition(adj, a)
    ensures Distinct(a)
  {
    forall i, j | 0 <= i < j < |a| ensures a[i] != a[j] {
      ElemsNonempty(a[i]);
      assert a[i][0] in Elems(a[i]);
    }
  }

  lemma PartitionUnique(adj: Adjacency, a: seq<seq<nat>>, b: seq<seq<nat>>)
    requires IsSccPartition(adj, a) && IsSccPartition(adj, b)
    ensures multiset(a) == multiset(b)
  {
    PartitionDistinct(adj, a);
    PartitionDistinct(adj, b);
    DistinctCount(a);
    DistinctCount(b);
    forall c ensures multiset(a)[c] == multiset(b)[c] {
      assert multiset(a)[c] <= 1 && multiset(b)[c] <= 1;
      assert c in a <==> multiset(a)[c] > 0;
      assert c in b <==> multiset(b)[c] > 0;
      if c in a { PartitionMembersAgree(adj, a, b, c); }
      if c in b { PartitionMembersAgree(adj, b, a, c); }
    }
  }
}
