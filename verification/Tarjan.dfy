/** Tarjan's strongly connected components, crates/algorithms/src/graphs.rs:164-233.
    The Rust helper threads its state through exclusive `&mut` borrows; here the
    same state goes in and comes out as one value. */
module Tarjan {
  import opened Sorting
  import opened Numbers
  import opened Graphs
  import opened Walks

  datatype Search = Search(
    index: nat,
    indices: map<nat, nat>,
    lowlink: map<nat, nat>,
    onStack: set<nat>,
    stack: seq<nat>,
    sccs: seq<seq<nat>>
  )

  // --- the invariant; `gray` is the set of calls in progress

  ghost predicate Numbered(s: Search) {
    && s.lowlink.Keys == s.indices.Keys
    && s.onStack == Elems(s.stack)
    && s.onStack <= s.indices.Keys
    && (forall v :: v in s.indices ==> s.indices[v] < s.index)
    && (forall u, v :: u in s.indices && v in s.indices && s.indices[u] == s.indices[v] ==> u == v)
    && (forall i, j :: 0 <= i < j < |s.stack| ==>
          s.stack[i] in s.indices && s.stack[j] in s.indices && s.indices[s.stack[i]] < s.indices[s.stack[j]])
  }

  ghost predicate Explored(adj: Adjacency, gray: set<nat>, s: Search) {
    && s.indices.Keys <= Vertices(adj)
    && gray <= s.onStack
    && Covered(s.sccs) == s.indices.Keys - s.onStack
    && Closed(adj, Covered(s.sccs))
    && (forall v, e :: v in s.indices && v !in gray && e in Out(adj, v) ==> e.target in s.indices)
  }

  /** `x` is in progress, not numbered after `y`, and reachable from `y`. */
  ghost predicate Anchors(adj: Adjacency, gray: set<nat>, s: Search, y: nat, x: nat) {
    x in gray && x in s.indices && y in s.indices && s.indices[x] <= s.indices[y] && Reaches(adj, y, x)
  }

  ghost predicate Linked(adj: Adjacency, gray: set<nat>, s: Search) {
    && (forall y :: y in s.onStack ==> exists x :: Anchors(adj, gray, s, y, x))
    && (forall x, y :: x in gray && y in s.onStack && x in s.indices && y in s.indices && s.indices[x] <= s.indices[y]
          ==> Reaches(adj, x, y))
  }

  ghost predicate Inv(adj: Adjacency, gray: set<nat>, s: Search) {
    Numbered(s) && Explored(adj, gray, s) && Linked(adj, gray, s) && Emitted(adj, adj, s.sccs)
  }

  /** `t` continues `s`: nothing numbered, stacked or emitted was touched. */
  ghost predicate Extends(s: Search, t: Search) {
    && (forall v :: v in s.indices ==> v in t.indices && t.indices[v] == s.indices[v])
    && (forall v :: v in s.lowlink ==> v in t.lowlink && t.lowlink[v] == s.lowlink[v])
    && s.stack <= t.stack
    && s.sccs <= t.sccs
    && s.index <= t.index
    && (forall v :: v in t.indices && v !in s.indices ==> s.index <= t.indices[v])
  }

  /** The stacked vertices numbered `n` or later. */
  function Above(s: Search, n: nat): set<nat> {
    set y | y in s.onStack && y in s.indices && n <= s.indices[y]
  }

  /** From the stacked vertices numbered `from` or later, no edge leads to a
      stacked vertex numbered before both `n` and `low`. */
  ghost predicate LowBound(adj: Adjacency, s: Search, from: nat, n: nat, low: nat) {
    forall y, e | y in Above(s, from) && e in Out(adj, y) && e.target in s.onStack && e.target in s.indices ::
      s.indices[e.target] < n ==> low <= s.indices[e.target]
  }

  /** `z` is the stacked vertex numbered `low`, and `node` reaches it. */
  ghost predicate LowWitness(adj: Adjacency, s: Search, node: nat, low: nat, z: nat) {
    z in s.onStack && z in s.indices && s.indices[z] == low && Reaches(adj, node, z)
  }

  // --- the steps

  function Start(s: Search, node: nat): Search {
    Search(s.index + 1, s.indices[node := s.index], s.lowlink[node := s.index],
           s.onStack + {node}, s.stack + [node], s.sccs)
  }

  lemma StartNumbered(s: Search, node: nat)
    requires Numbered(s) && node !in s.indices
    ensures Numbered(Start(s, node))
  {
    ElemsAppend(s.stack, node);
    forall i | 0 <= i < |s.stack| ensures s.stack[i] in s.onStack {}
  }

  lemma StartLinked(adj: Adjacency, gray: set<nat>, s: Search, node: nat)
    requires gray <= s.onStack <= s.indices.Keys && node !in s.indices
    requires forall v :: v in s.indices ==> s.indices[v] < s.index
    requires Linked(adj, gray, s)
    requires forall x :: x in gray ==> Reaches(adj, x, node)
    ensures Linked(adj, gray + {node}, Start(s, node))
  {
    hide Reaches;
    var t, gray' := Start(s, node), gray + {node};
    ReachesRefl(adj, node);
    forall y | y in t.onStack ensures exists x :: Anchors(adj, gray', t, y, x) {
      if y == node {
        assert Anchors(adj, gray', t, y, node);
      } else {
        var x :| Anchors(adj, gray, s, y, x);
        assert Anchors(adj, gray', t, y, x);
      }
    }
    hide Anchors;
    forall x, y | x in gray' && y in t.onStack && x in t.indices && y in t.indices && t.indices[x] <= t.indices[y]
      ensures Reaches(adj, x, y)
    {
      if x != node && y != node {
        assert s.indices[x] <= s.indices[y];
      }
    }
  }

  lemma StartExplored(adj: Adjacency, gray: set<nat>, s: Search, node: nat)
    requires Explored(adj, gray, s) && node in Vertices(adj) && node !in s.indices
    ensures Explored(adj, gray + {node}, Start(s, node))
  {
    hide Closed;
  }

  lemma StartInv(adj: Adjacency, gray: set<nat>, s: Search, node: nat)
    requires Inv(adj, gray, s) && node in Vertices(adj) && node !in s.indices
    requires forall x :: x in gray ==> Reaches(adj, x, node)
    ensures Inv(adj, gray + {node}, Start(s, node))
  {
    hide Reaches, Linked, Emitted, Closed;
    StartNumbered(s, node);
    StartLinked(adj, gray, s, node);
    StartExplored(adj, gray, s, node);
  }

  /** The state after the loop over the neighbours of `node`. */
  ghost predicate Scanned(adj: Adjacency, gray: set<nat>, node: nat, t: Search) {
    && Inv(adj, gray + {node}, t)
    && node in t.indices && node in t.lowlink
    && (forall x :: x in gray ==> x in t.indices && t.indices[x] < t.indices[node])
    && (forall x :: x in gray ==> Reaches(adj, x, node))
    && t.lowlink[node] <= t.indices[node]
    && (exists z :: LowWitness(adj, t, node, t.lowlink[node], z))
    && LowBound(adj, t, t.indices[node], t.indices[node], t.lowlink[node])
    && (forall e :: e in Out(adj, node) ==> e.target in t.indices)
  }

  /** If no vertex at or above `node` has an edge below it on the stack, then
      everything `node` reaches is at or above it, or already emitted. */
  lemma TopClosed(adj: Adjacency, gray: set<nat>, node: nat, t: Search)
    requires Scanned(adj, gray, node, t) && t.lowlink[node] == t.indices[node]
    ensures Closed(adj, Covered(t.sccs) + Above(t, t.indices[node]))
  {
    hide Reaches, Linked, Emitted, Numbered;
    var top := Above(t, t.indices[node]);
    forall u, e | u in top && e in Out(adj, u) ensures e.target in Covered(t.sccs) + top {
      assert u !in gray;
      assert e.target in t.indices;
    }
  }

  lemma TopIsMutual(adj: Adjacency, gray: set<nat>, node: nat, t: Search, u: nat)
    requires Scanned(adj, gray, node, t) && u in Above(t, t.indices[node])
    ensures Mutual(adj, node, u)
  {
    hide Reaches, Explored, Emitted, Numbered, LowBound, LowWitness;
    assert Reaches(adj, node, u);
    var x :| Anchors(adj, gray + {node}, t, u, x);
    if x != node {
      ReachesTrans(adj, u, x, node);
    }
  }

  lemma TopIsComponent(adj: Adjacency, gray: set<nat>, node: nat, t: Search)
    requires Scanned(adj, gray, node, t) && t.lowlink[node] == t.indices[node]
    ensures IsComponent(adj, Above(t, t.indices[node]))
  {
    hide Reaches, Linked, Emitted, Numbered, LowBound, LowWitness, Closed, Mutual;
    var top := Above(t, t.indices[node]);
    assert node in top;
    forall u | u in top ensures Mutual(adj, node, u) && Mutual(adj, u, node) {
      TopIsMutual(adj, gray, node, t, u);
      MutualSymmetric(adj, node, u);
    }
    TopClosed(adj, gray, node, t);
    forall u, v | u in top ensures v in top <==> Mutual(adj, u, v) {
      if v in top {
        MutualSymmetricTransitive(adj, u, node, v);
      } else if Mutual(adj, u, v) {
        MutualSymmetricTransitive(adj, node, u, v);
        MutualClosed(adj, Covered(t.sccs) + top, node, v);
        MutualClosed(adj, Covered(t.sccs), v, node);
        assert false;
      }
    }
  }

  lemma MutualClosed(adj: Adjacency, s: set<nat>, u: nat, v: nat)
    requires Closed(adj, s) && u in s && Mutual(adj, u, v)
    ensures v in s
  {
    ClosedReaches(adj, s, u, v);
  }

  /** The part of the stack from position `base` on is what is numbered from
      its bottom element on. */
  lemma StackSplit(s: Search, base: nat)
    requires Numbered(s) && base < |s.stack|
    ensures s.stack[base] in s.indices
    ensures Elems(s.stack[base..]) == Above(s, s.indices[s.stack[base]])
    ensures Elems(s.stack[..base]) == s.onStack - Above(s, s.indices[s.stack[base]])
  {
    var n := s.indices[s.stack[base]];
    forall k | 0 <= k < |s.stack|
      ensures s.stack[k] in s.onStack && s.stack[k] in s.indices
      ensures n <= s.indices[s.stack[k]] <==> base <= k
    {
    }
    forall y ensures y in s.stack[base..] <==> y in Above(s, n) {
      if y in Above(s, n) {
        var k :| 0 <= k < |s.stack| && s.stack[k] == y;
        assert s.stack[base..][k - base] == y;
      }
    }
    forall y ensures y in s.stack[..base] <==> y in s.onStack - Above(s, n) {
      if y in s.onStack - Above(s, n) {
        var k :| 0 <= k < |s.stack| && s.stack[k] == y;
        assert s.stack[..base][k] == y;
      }
    }
  }

  function Popped(t: Search, base: nat, scc: seq<nat>): Search
    requires base <= |t.stack|
  {
    t.(stack := t.stack[..base], onStack := Elems(t.stack[..base]), sccs := t.sccs + [scc])
  }

  lemma PopLinked(adj: Adjacency, gray: set<nat>, node: nat, t: Search, r: Search)
    requires Linked(adj, gray + {node}, t) && node in t.indices
    requires r.onStack == t.onStack - Above(t, t.indices[node]) && r.indices == t.indices
    ensures Linked(adj, gray, r)
  {
    hide Reaches;
    forall y | y in r.onStack ensures exists x :: Anchors(adj, gray, r, y, x) {
      var x :| Anchors(adj, gray + {node}, t, y, x);
      assert Anchors(adj, gray, r, y, x);
    }
  }

  lemma PopNumbered(t: Search, base: nat, scc: seq<nat>)
    requires Numbered(t) && base <= |t.stack|
    ensures Numbered(Popped(t, base, scc))
  {
    forall y | y in t.stack[..base] ensures y in t.onStack {
      assert y in t.stack;
    }
  }

  lemma PopInv(adj: Adjacency, gray: set<nat>, node: nat, t: Search, base: nat, scc: seq<nat>)
    requires Scanned(adj, gray, node, t) && t.lowlink[node] == t.indices[node]
    requires base < |t.stack| && t.stack[base] == node
    requires StrictlyAscending(scc) && Elems(scc) == Elems(t.stack[base..])
    ensures Inv(adj, gray, Popped(t, base, scc))
  {
    hide Reaches, Linked, LowBound, LowWitness, Closed, IsComponent;
    var r := Popped(t, base, scc);
    StackSplit(t, base);
    TopClosed(adj, gray, node, t);
    TopIsComponent(adj, gray, node, t);
    CoveredAppend(t.sccs, scc);
    EmittedAppend(adj, adj, t.sccs, scc);
    PopLinked(adj, gray, node, t, r);
    PopNumbered(t, base, scc);
    PopExplored(adj, gray, node, t, r);
  }

  lemma PopExplored(adj: Adjacency, gray: set<nat>, node: nat, t: Search, r: Search)
    requires Scanned(adj, gray, node, t)
    requires r.onStack == t.onStack - Above(t, t.indices[node]) && r.indices == t.indices
    requires Covered(r.sccs) == Covered(t.sccs) + Above(t, t.indices[node])
    requires Closed(adj, Covered(r.sccs))
    ensures Explored(adj, gray, r)
  {
    hide Reaches, Linked, Emitted, Numbered, LowBound, LowWitness, Closed;
  }

  lemma KeepInv(adj: Adjacency, gray: set<nat>, node: nat, t: Search)
    requires Scanned(adj, gray, node, t) && t.lowlink[node] < t.indices[node]
    ensures Inv(adj, gray, t)
  {
    hide Reaches, Explored, Emitted, Numbered, LowBound;
    var z :| LowWitness(adj, t, node, t.lowlink[node], z);
    var a :| Anchors(adj, gray + {node}, t, z, a);
    assert Linked(adj, gray, t) by {
      forall y | y in t.onStack ensures exists x :: Anchors(adj, gray, t, y, x) {
        var x :| Anchors(adj, gray + {node}, t, y, x);
        if x == node {
          ReachesTrans(adj, y, node, z);
          ReachesTrans(adj, y, z, a);
          assert Anchors(adj, gray, t, y, a);
        } else {
          assert Anchors(adj, gray, t, y, x);
        }
      }
    }
    KeepExplored(adj, gray, node, t);
  }

  lemma KeepExplored(adj: Adjacency, gray: set<nat>, node: nat, t: Search)
    requires Scanned(adj, gray, node, t)
    ensures Explored(adj, gray, t)
  {
    hide Reaches, Linked, Emitted, Numbered, LowBound, LowWitness, Closed;
  }

  // --- the recursion

  /** What a finished call on `node` leaves: if `node` is still stacked, its
      low-link is the number of an older stacked vertex it reaches, and no new
      stacked vertex has an edge to one older than that. */
  ghost predicate Returned(adj: Adjacency, s: Search, node: nat, t: Search) {
    && node in t.indices && node in t.lowlink && t.indices[node] == s.index
    && (node in t.onStack ==>
          && (exists z :: z in s.onStack && LowWitness(adj, t, node, t.lowlink[node], z))
          && LowBound(adj, t, s.index, s.index, t.lowlink[node]))
    && (node !in t.onStack ==> t.stack == s.stack && t.lowlink[node] == t.indices[node])
  }

  /** The loop over the neighbours of `node`, `done` of them visited. */
  ghost predicate Scanning(adj: Adjacency, gray: set<nat>, s: Search, node: nat, t: Search, done: seq<Edge>) {
    && Inv(adj, gray + {node}, t)
    && Extends(s, t)
    && s.stack + [node] <= t.stack
    && node !in s.indices && node !in s.lowlink
    && node in t.indices && node in t.lowlink && t.indices[node] == s.index
    && s.index < t.index
    && t.lowlink[node] <= s.index
    && (exists z :: LowWitness(adj, t, node, t.lowlink[node], z))
    && LowBound(adj, t, s.index + 1, s.index, t.lowlink[node])
    && (forall e :: e in done ==> Seen(t, e, s.index, t.lowlink[node]))
  }

  ghost predicate Seen(t: Search, e: Edge, n: nat, low: nat) {
    && e.target in t.indices
    && (e.target in t.onStack && t.indices[e.target] < n ==> low <= t.indices[e.target])
  }

  function WithLow(t: Search, node: nat, low: nat): Search {
    t.(lowlink := t.lowlink[node := low])
  }

  lemma LowNumbered(t: Search, node: nat, low: nat)
    requires Numbered(t) && node in t.lowlink
    ensures Numbered(WithLow(t, node, low))
  {
  }

  lemma LowExplored(adj: Adjacency, gray: set<nat>, t: Search, node: nat, low: nat)
    requires Explored(adj, gray, t)
    ensures Explored(adj, gray, WithLow(t, node, low))
  {
    hide Closed;
  }

  lemma LowLinked(adj: Adjacency, gray: set<nat>, t: Search, node: nat, low: nat)
    requires Linked(adj, gray, t)
    ensures Linked(adj, gray, WithLow(t, node, low))
  {
    hide Reaches;
    var r := WithLow(t, node, low);
    forall y | y in r.onStack ensures exists x :: Anchors(adj, gray, r, y, x) {
      var x :| Anchors(adj, gray, t, y, x);
      assert Anchors(adj, gray, r, y, x);
    }
  }

  lemma LowInv(adj: Adjacency, gray: set<nat>, t: Search, node: nat, low: nat)
    requires Inv(adj, gray, t) && node in t.lowlink
    ensures Inv(adj, gray, WithLow(t, node, low))
  {
    hide Numbered, Explored, Linked, Emitted;
    LowNumbered(t, node, low);
    LowExplored(adj, gray, t, node, low);
    LowLinked(adj, gray, t, node, low);
  }

  /** The neighbour is already numbered: lower the low-link if it is stacked. */
  lemma SeenStep(adj: Adjacency, gray: set<nat>, s: Search, node: nat, t: Search, done: seq<Edge>, e: Edge)
    requires Scanning(adj, gray, s, node, t, done) && e in Out(adj, node) && e.target in t.indices
    ensures e.target in t.onStack ==>
              Scanning(adj, gray, s, node, WithLow(t, node, Min(t.lowlink[node], t.indices[e.target])), done + [e])
    ensures e.target !in t.onStack ==> Scanning(adj, gray, s, node, t, done + [e])
  {
    hide Inv, Reaches;
    if e.target in t.onStack {
      var low := Min(t.lowlink[node], t.indices[e.target]);
      var r := WithLow(t, node, low);
      LowInv(adj, gray + {node}, t, node, low);
      ReachesEdge(adj, node, e);
      var z: nat :| LowWitness(adj, t, node, t.lowlink[node], z);
      assert LowWitness(adj, r, node, low, if low == t.lowlink[node] then z else e.target);
      assert Above(r, s.index + 1) == Above(t, s.index + 1);
      assert LowBound(adj, r, s.index + 1, s.index, low);
      assert Extends(s, r);
      forall d | d in done + [e] ensures Seen(r, d, s.index, low) {
        assert d in done ==> Seen(t, d, s.index, t.lowlink[node]);
      }
    }
  }

  lemma OldStackKept(a: Search, b: Search, y: nat)
    requires Covered(a.sccs) == a.indices.Keys - a.onStack && Covered(b.sccs) == b.indices.Keys - b.onStack
    requires Extends(a, b)
    requires y in b.onStack && y in a.indices
    ensures y in a.onStack
  {
    CoveredMonotone(a.sccs, b.sccs);
  }

  lemma InvAccounts(adj: Adjacency, gray: set<nat>, s: Search)
    requires Inv(adj, gray, s)
    ensures Covered(s.sccs) == s.indices.Keys - s.onStack
    ensures s.onStack == Elems(s.stack) <= s.indices.Keys
  {
  }

  lemma CoveredMonotone(a: seq<seq<nat>>, b: seq<seq<nat>>)
    requires a <= b
    ensures Covered(a) <= Covered(b)
  {
    forall i | 0 <= i < |a| ensures a[i] == b[i] {}
  }

  lemma CallLowBound(adj: Adjacency, s: Search, a: Search, b: Search, child: nat, low: nat)
    requires Covered(a.sccs) == a.indices.Keys - a.onStack && Covered(b.sccs) == b.indices.Keys - b.onStack
    requires a.onStack == Elems(a.stack) <= a.indices.Keys && b.onStack == Elems(b.stack) && Extends(a, b)
    requires s.index < a.index && low <= s.index
    requires LowBound(adj, a, s.index + 1, s.index, low) && Returned(adj, a, child, b)
    ensures LowBound(adj, b, s.index + 1, s.index, Min(low, b.lowlink[child]))
  {
    hide LowWitness;
    forall y, e | y in Above(b, s.index + 1) && e in Out(adj, y) && e.target in b.onStack && e.target in b.indices
      && b.indices[e.target] < s.index
      ensures Min(low, b.lowlink[child]) <= b.indices[e.target]
    {
      assert e.target in a.indices;
      OldStackKept(a, b, e.target);
      if y in a.indices {
        OldStackKept(a, b, y);
        assert y in Above(a, s.index + 1);
      } else {
        assert y !in a.stack;
        assert child in b.onStack;
        assert y in Above(b, a.index);
      }
    }
  }

  /** The neighbour was new and its call has returned. */
  lemma CallStep(adj: Adjacency, gray: set<nat>, s: Search, node: nat, a: Search, done: seq<Edge>, e: Edge, b: Search)
    requires Scanning(adj, gray, s, node, a, done) && e in Out(adj, node) && e.target !in a.indices
    requires Inv(adj, gray + {node}, b) && Extends(a, b) && Returned(adj, a, e.target, b)
    ensures Scanning(adj, gray, s, node, WithLow(b, node, Min(b.lowlink[node], b.lowlink[e.target])), done + [e])
  {
    hide Reaches, Explored, Linked, Emitted, Numbered, LowBound, LowWitness, Seen;
    InvAccounts(adj, gray + {node}, a);
    InvAccounts(adj, gray + {node}, b);
    var child := e.target;
    assert child in b.lowlink by { assert Returned(adj, a, child, b); }
    var low := Min(b.lowlink[node], b.lowlink[child]);
    var r := WithLow(b, node, low);
    LowInv(adj, gray + {node}, b, node, low);
    assert Extends(s, r);
    CallLowBound(adj, s, a, b, child, a.lowlink[node]);
    CallWitness(adj, gray, s, node, a, done, e, b, low);
    LowBoundKept(adj, b, node, low, s.index);
    forall d | d in done + [e] ensures Seen(r, d, s.index, low) {
      CallSeen(adj, gray, s, node, a, done, e, b, low, d);
    }
  }

  lemma LowBoundKept(adj: Adjacency, b: Search, node: nat, low: nat, n: nat)
    requires LowBound(adj, b, n + 1, n, low)
    ensures LowBound(adj, WithLow(b, node, low), n + 1, n, low)
  {
    assert Above(WithLow(b, node, low), n + 1) == Above(b, n + 1);
  }

  lemma CallSeen(adj: Adjacency, gray: set<nat>, s: Search, node: nat, a: Search, done: seq<Edge>, e: Edge,
                 b: Search, low: nat, d: Edge)
    requires Scanning(adj, gray, s, node, a, done) && e.target !in a.indices && d in done + [e]
    requires Explored(adj, gray + {node}, b) && Extends(a, b) && Returned(adj, a, e.target, b)
    requires low == Min(b.lowlink[node], b.lowlink[e.target])
    ensures Seen(WithLow(b, node, low), d, s.index, low)
  {
    hide Reaches, Linked, Emitted, Numbered, LowBound, LowWitness, Closed;
    if d in done {
      assert Seen(a, d, s.index, a.lowlink[node]);
      if d.target in b.onStack {
        OldStackKept(a, b, d.target);
      }
    } else {
      assert d == e;
    }
  }

  lemma CallWitness(adj: Adjacency, gray: set<nat>, s: Search, node: nat, a: Search, done: seq<Edge>, e: Edge,
                    b: Search, low: nat)
    requires Scanning(adj, gray, s, node, a, done) && e in Out(adj, node) && e.target !in a.indices
    requires Numbered(a) && Numbered(b) && Extends(a, b) && Returned(adj, a, e.target, b)
    requires low == Min(b.lowlink[node], b.lowlink[e.target])
    ensures low <= s.index
    ensures exists z :: LowWitness(adj, WithLow(b, node, low), node, low, z)
  {
    hide Reaches, Inv, LowBound;
    var r := WithLow(b, node, low);
    if b.lowlink[e.target] < b.lowlink[node] {
      assert e.target in b.onStack;
      var z :| z in a.onStack && LowWitness(adj, b, e.target, b.lowlink[e.target], z);
      ReachesEdge(adj, node, e);
      ReachesTrans(adj, node, e.target, z);
      assert LowWitness(adj, r, node, low, z);
    } else {
      var z :| LowWitness(adj, a, node, a.lowlink[node], z);
      assert z in a.stack;
      assert z in b.stack;
      assert LowWitness(adj, r, node, low, z);
    }
  }

  lemma ScanningStart(adj: Adjacency, gray: set<nat>, s: Search, node: nat)
    requires Inv(adj, gray, s) && node in Vertices(adj) && node !in s.indices
    requires forall x :: x in gray ==> Reaches(adj, x, node)
    ensures Scanning(adj, gray, s, node, Start(s, node), [])
  {
    hide Reaches, Explored, Linked, Emitted;
    var t := Start(s, node);
    StartInv(adj, gray, s, node);
    assert Above(t, s.index + 1) == {};
    ReachesRefl(adj, node);
    assert node in t.onStack;
    assert LowWitness(adj, t, node, s.index, node);
    hide Numbered, LowWitness, Seen;
  }

  lemma ScanningDone(adj: Adjacency, gray: set<nat>, s: Search, node: nat, t: Search)
    requires Inv(adj, gray, s) && Scanning(adj, gray, s, node, t, Out(adj, node))
    requires forall x :: x in gray ==> Reaches(adj, x, node)
    ensures Scanned(adj, gray, node, t)
  {
    hide Reaches, LowWitness, LowBound, Extends, Inv;
    var n, low := s.index, t.lowlink[node];
    ScanningGray(adj, gray, s, t);
    forall e | e in Out(adj, node) ensures e.target in t.indices {
      assert Seen(t, e, n, low);
    }
    AboveSuccessor(adj, gray + {node}, t, node);
    ScanningLowBound(adj, t, node, n, low);
    hide Seen;
  }

  lemma ScanningGray(adj: Adjacency, gray: set<nat>, s: Search, t: Search)
    requires Inv(adj, gray, s) && Extends(s, t)
    ensures forall x :: x in gray ==> x in t.indices && t.indices[x] < s.index
  {
    hide Closed, Linked, Emitted;
  }

  lemma AboveSuccessor(adj: Adjacency, gray: set<nat>, t: Search, node: nat)
    requires Inv(adj, gray, t) && node in t.indices
    ensures Above(t, t.indices[node]) <= Above(t, t.indices[node] + 1) + {node}
  {
    hide Explored, Linked, Emitted;
  }

  lemma ScanningLowBound(adj: Adjacency, t: Search, node: nat, n: nat, low: nat)
    requires Above(t, n) <= Above(t, n + 1) + {node}
    requires LowBound(adj, t, n + 1, n, low)
    requires forall e :: e in Out(adj, node) ==> Seen(t, e, n, low)
    ensures LowBound(adj, t, n, n, low)
  {
    forall y, e | y in Above(t, n) && e in Out(adj, y) && e.target in t.onStack && e.target in t.indices
      && t.indices[e.target] < n
      ensures low <= t.indices[e.target]
    {
      assert y == node ==> Seen(t, e, n, low);
    }
  }

  lemma KeepReturned(adj: Adjacency, gray: set<nat>, s: Search, node: nat, t: Search)
    requires Inv(adj, gray, s) && Scanning(adj, gray, s, node, t, Out(adj, node))
    requires Scanned(adj, gray, node, t) && t.lowlink[node] < t.indices[node]
    ensures Returned(adj, s, node, t)
  {
    hide Reaches, Linked, Emitted, Closed;
    var z: nat :| LowWitness(adj, t, node, t.lowlink[node], z);
    assert z in s.indices;
    OldStackKept(s, t, z);
    assert node in t.onStack by { assert node in gray + {node}; }
  }

  lemma PopReturned(adj: Adjacency, gray: set<nat>, s: Search, node: nat, t: Search, scc: seq<nat>)
    requires Inv(adj, gray, s) && Scanning(adj, gray, s, node, t, Out(adj, node))
    requires t.lowlink[node] == t.indices[node]
    ensures Extends(s, Popped(t, |s.stack|, scc)) && Returned(adj, s, node, Popped(t, |s.stack|, scc))
  {
    hide Reaches, Linked, Emitted, Closed, Explored, LowBound;
    var base := |s.stack|;
    assert t.stack[..base] == s.stack;
    assert node !in s.onStack;
  }

  lemma ScanningReaches(adj: Adjacency, gray: set<nat>, s: Search, node: nat, t: Search, done: seq<Edge>, e: Edge)
    requires Scanning(adj, gray, s, node, t, done) && e in Out(adj, node) && e.target !in t.indices
    requires forall x :: x in gray ==> Reaches(adj, x, node)
    ensures e.target in Vertices(adj)
    ensures forall x :: x in gray + {node} ==> Reaches(adj, x, e.target)
    ensures Vertices(adj) - t.indices.Keys < Vertices(adj) - s.indices.Keys
  {
    hide Reaches, Numbered, Linked, Emitted, LowBound, LowWitness, Seen;
    ReachesEdge(adj, node, e);
    VerticesClosed(adj);
    forall x | x in gray ensures Reaches(adj, x, e.target) {
      ReachesTrans(adj, x, node, e.target);
    }
    assert node in Vertices(adj) - s.indices.Keys;
  }

  lemma StackDistinct(s: Search)
    requires Numbered(s)
    ensures Distinct(s.stack) && s.onStack == Elems(s.stack)
  {
  }

  lemma PopOne(stack: seq<nat>, k: nat, scc: seq<nat>)
    requires Distinct(stack) && 0 < k <= |stack|
    requires Distinct(scc) && Elems(scc) == Elems(stack[k..])
    ensures Distinct(scc + [stack[k - 1]]) && Elems(scc + [stack[k - 1]]) == Elems(stack[k - 1..])
    ensures Elems(stack[..k]) - {stack[k - 1]} == Elems(stack[..k - 1])
  {
    var w := stack[k - 1];
    assert stack[k - 1..] == [w] + stack[k..];
    assert stack[..k] == stack[..k - 1] + [w];
    ElemsAppend(stack[..k - 1], w);
    assert w !in stack[..k - 1];
    assert w !in stack[k..];
    ElemsAppend(scc, w);
  }

  method StrongConnect(graph: Graph, node: nat, s: Search, ghost gray: set<nat>) returns (t: Search)
    requires Inv(graph.adjacency, gray, s)
    requires node in Vertices(graph.adjacency) && node !in s.indices
    requires forall x :: x in gray ==> Reaches(graph.adjacency, x, node)
    ensures Inv(graph.adjacency, gray, t)
    ensures Extends(s, t) && Returned(graph.adjacency, s, node, t)
    decreases Vertices(graph.adjacency) - s.indices.Keys
  {
    hide Reaches, Numbered, Explored, Linked, Emitted, LowBound, LowWitness;
    ghost var adj := graph.adjacency;
    ScanningStart(adj, gray, s, node);
    t := s.(indices := s.indices[node := s.index], lowlink := s.lowlink[node := s.index]);
    t := t.(index := t.index + 1);
    t := t.(stack := t.stack + [node]);
    t := t.(onStack := t.onStack + {node});

    var neighbors := graph.Neighbors(node);
    var i := 0;
    while i < |neighbors|
      invariant 0 <= i <= |neighbors|
      invariant Scanning(adj, gray, s, node, t, neighbors[..i])
    {
      var neighbor := neighbors[i].target;
      assert neighbors[..i] + [neighbors[i]] == neighbors[..i + 1];
      if neighbor !in t.indices {
        ghost var before := t;
        ScanningReaches(adj, gray, s, node, t, neighbors[..i], neighbors[i]);
        t := StrongConnect(graph, neighbor, t, gray + {node});
        CallStep(adj, gray, s, node, before, neighbors[..i], neighbors[i], t);
        t := t.(lowlink := t.lowlink[node := Min(t.lowlink[node], t.lowlink[neighbor])]);
      } else {
        SeenStep(adj, gray, s, node, t, neighbors[..i], neighbors[i]);
        if neighbor in t.onStack {
          t := t.(lowlink := t.lowlink[node := Min(t.lowlink[node], t.indices[neighbor])]);
        }
      }
      i := i + 1;
    }
    assert neighbors[..i] == Out(adj, node);
    ScanningDone(adj, gray, s, node, t);

    if t.lowlink[node] == t.indices[node] {
      var scc := [];
      ghost var full := t;
      assert Numbered(full) && full.stack[|s.stack|] == node by {
        assert s.stack + [node] <= full.stack;
      }
      StackDistinct(full);
      while true
        invariant |s.stack| < |t.stack| <= |full.stack|
        invariant t == full.(stack := full.stack[..|t.stack|], onStack := Elems(full.stack[..|t.stack|]))
        invariant Distinct(scc) && Elems(scc) == Elems(full.stack[|t.stack|..])
        decreases |t.stack|
      {
        var w := t.stack[|t.stack| - 1];
        PopOne(full.stack, |t.stack|, scc);
        t := t.(stack := t.stack[..|t.stack| - 1]);
        t := t.(onStack := t.onStack - {w});
        scc := scc + [w];
        if w == node {
          assert |t.stack| == |s.stack|;
          break;
        }
      }
      AscendingCorrect(scc);
      PopInv(adj, gray, node, full, |s.stack|, Ascending(scc));
      PopReturned(adj, gray, s, node, full, Ascending(scc));
      t := t.(sccs := t.sccs + [Ascending(scc)]);
      assert t == Popped(full, |s.stack|, Ascending(scc));
    } else {
      KeepInv(adj, gray, node, t);
      KeepReturned(adj, gray, s, node, t);
    }
  }

  lemma EmptyInv(adj: Adjacency)
    ensures Inv(adj, {}, Search(0, map[], map[], {}, [], []))
  {
  }

  /** With no call in progress nothing is stacked. */
  lemma FinalPartition(adj: Adjacency, s: Search)
    requires Inv(adj, {}, s) && adj.Keys <= s.indices.Keys
    ensures IsSccPartition(adj, s.sccs) && ReverseTopological(adj, s.sccs)
  {
    assert s.onStack == {} by {
      hide Numbered, Explored, Emitted, Reaches;
      assert forall y :: y !in s.onStack;
    }
    assert Covered(s.sccs) == Vertices(adj) by {
      hide Numbered, Linked, Emitted, Reaches;
      forall v | v in Vertices(adj) ensures v in s.indices {
        if v !in adj {
          VertexCases(adj, v);
          var u :| u in adj && v in Targets(adj[u]);
          var i :| 0 <= i < |adj[u]| && adj[u][i].target == v;
          assert adj[u][i] in Out(adj, u);
        }
      }
    }
    hide Numbered, Explored, Linked;
    forall i, u, v | 0 <= i < |s.sccs| && u in s.sccs[i] && Reaches(adj, u, v) ensures v in Covered(s.sccs[..i + 1]) {
      assert s.sccs[..i + 1][i] == s.sccs[i];
      assert u in Covered(s.sccs[..i + 1]);
      ClosedReaches(adj, Covered(s.sccs[..i + 1]), u, v);
    }
  }

  method TarjanScc(graph: Graph) returns (sccs: seq<seq<nat>>)
    ensures IsSccPartition(graph.adjacency, sccs)
    ensures ReverseTopological(graph.adjacency, sccs)
  {
    hide Inv, IsSccPartition, ReverseTopological;
    var nodes := graph.Nodes();
    var s := Search(0, map[], map[], {}, [], []);
    EmptyInv(graph.adjacency);
    var i := 0;
    while i < |nodes|
      invariant 0 <= i <= |nodes|
      invariant Inv(graph.adjacency, {}, s)
      invariant forall k :: 0 <= k < i ==> nodes[k] in s.indices
    {
      var node := nodes[i];
      if node !in s.indices {
        assert node in Elems(nodes);
        s := StrongConnect(graph, node, s, {});
      }
      i := i + 1;
    }
    forall v | v in graph.adjacency ensures v in s.indices {
      assert v in Elems(nodes);
    }
    FinalPartition(graph.adjacency, s);
    sccs := s.sccs;
  }
}
