/** What the searches of crates/algorithms/src/graphs.rs:137-162 and 333-374
    share: scores improved edge by edge, the predecessor links that go with them,
    and the walks along which the scores were computed. Weights may be negative
    as long as no cycle within reach of the start costs less than nothing. */
module Relaxation {
  import opened Sorting
  import opened Graphs
  import opened Walks

  type Recorded = (seq<nat>, seq<real>)

  /** The ghost side of a search. `rec` keeps, for each vertex, the walk its score
      was computed along when it was last improved, which the predecessor links
      may have outgrown; `used` collects all walks ever recorded. */
  datatype Trace = Trace(rec: map<nat, Recorded>, used: set<Recorded>)

  predicate Better(g: map<nat, real>, v: nat, d: real) {
    v !in g || d < g[v]
  }

  // --- predecessor links

  /** `v` was reached from `u` over an edge no longer than their scores differ. */
  ghost predicate LinkedBy(adj: Adjacency, g: map<nat, real>, u: nat, v: nat, w: real) {
    u in g && v in g && Edge(v, w) in Out(adj, u) && g[u] + w <= g[v]
  }

  /** The links lead from `v` along `p` back to `start`. */
  ghost predicate LinkPath(start: nat, came: map<nat, nat>, v: nat, p: seq<nat>) {
    && p != [] && p[0] == start && p[|p| - 1] == v
    && forall i :: 0 < i < |p| ==> p[i] in came && came[p[i]] == p[i - 1]
  }

  ghost predicate Links(adj: Adjacency, start: nat, g: map<nat, real>, came: map<nat, nat>) {
    && start in g && g[start] == 0.0
    && start !in came && g.Keys == came.Keys + {start}
    && (forall v :: v in came ==> exists w :: LinkedBy(adj, g, came[v], v, w))
    && (forall v :: v in g ==> exists p :: LinkPath(start, came, v, p))
  }

  lemma LinksStart(adj: Adjacency, start: nat, g: map<nat, real>, came: map<nat, nat>)
    requires Links(adj, start, g, came)
    ensures start in g && g[start] == 0.0
  {
  }

  lemma StartLinks(adj: Adjacency, start: nat)
    ensures Links(adj, start, map[start := 0.0], map[])
  {
    assert LinkPath(start, map[], start, [start]);
  }

  lemma PathTo(adj: Adjacency, start: nat, g: map<nat, real>, came: map<nat, nat>, v: nat) returns (p: seq<nat>)
    requires Links(adj, start, g, came) && v in g
    ensures LinkPath(start, came, v, p) && p != []
  {
    hide LinkedBy;
    p :| LinkPath(start, came, v, p);
  }

  lemma PathStep(start: nat, came: map<nat, nat>, v: nat, p: seq<nat>)
    requires LinkPath(start, came, v, p) && |p| > 1
    ensures v in came && came[v] == p[|p| - 2] && LinkPath(start, came, came[v], p[..|p| - 1])
  {
  }

  lemma PathInScores(adj: Adjacency, start: nat, g: map<nat, real>, came: map<nat, nat>, v: nat, p: seq<nat>, i: nat)
    requires Links(adj, start, g, came) && LinkPath(start, came, v, p) && i < |p|
    ensures p[i] in g
  {
    hide LinkedBy;
  }

  lemma LinkWeight(adj: Adjacency, start: nat, g: map<nat, real>, came: map<nat, nat>, v: nat) returns (w: real)
    requires Links(adj, start, g, came) && v in came
    ensures came[v] in g && v in g && Edge(v, w) in Out(adj, came[v]) && g[came[v]] + w <= g[v]
  {
    hide LinkPath, Out;
    w :| LinkedBy(adj, g, came[v], v, w);
  }

  /** From any vertex of it on, the path of links is a walk costing at most what
      the scores differ. */
  lemma {:induction false} LinkWalk(adj: Adjacency, start: nat, g: map<nat, real>, came: map<nat, nat>, v: nat,
                                    p: seq<nat>, i: nat) returns (ws: seq<real>)
    requires Links(adj, start, g, came) && LinkPath(start, came, v, p) && i < |p|
    ensures WalkBetween(adj, p[i], v, p[i..], ws)
    ensures p[i] in g && v in g && g[p[i]] + Cost(ws) <= g[v]
    decreases |p| - i
  {
    hide Links, Walk, Cost, Out;
    PathInScores(adj, start, g, came, v, p, i);
    if i == |p| - 1 {
      ws := [];
      TrivialWalk(adj, v);
      assert p[i..] == [v];
    } else {
      ws := LinkWalk(adj, start, g, came, v, p, i + 1);
      var w := LinkWeight(adj, start, g, came, p[i + 1]);
      WalkPrepend(adj, p[i], Edge(p[i + 1], w), p[i + 1..], ws);
      assert p[i..] == [p[i]] + p[i + 1..];
      ws := [w] + ws;
    }
  }

  lemma PathReaches(adj: Adjacency, start: nat, g: map<nat, real>, came: map<nat, nat>, v: nat, p: seq<nat>, i: nat)
    requires Links(adj, start, g, came) && LinkPath(start, came, v, p) && i < |p|
    ensures Reaches(adj, start, p[i])
  {
    hide Links, Walk;
    assert LinkPath(start, came, p[i], p[..i + 1]);
    var ws := LinkWalk(adj, start, g, came, p[i], p[..i + 1], 0);
  }

  lemma CycleCost(adj: Adjacency, start: nat, u: nat, current: nat, p: seq<nat>, ws: seq<real>, e: Edge)
    requires NoNegativeCycle(adj, start) && Reaches(adj, start, u)
    requires WalkBetween(adj, u, current, p, ws) && e in Out(adj, current) && e.target == u
    ensures Cost(ws) + e.weight >= 0.0
  {
    hide Reaches, Out, Cost;
    WalkAppend(adj, p, ws, e);
    CostAppend(ws, e.weight);
    assert WalkBetween(adj, u, u, p + [e.target], ws + [e.weight]);
  }

  /** An improved vertex is not among those its new predecessor is linked through:
      the links back to it and the improving edge would be a cycle of negative
      cost. */
  lemma PathAvoids(adj: Adjacency, start: nat, g: map<nat, real>, came: map<nat, nat>, current: nat, e: Edge,
                   p: seq<nat>)
    requires NoNegativeCycle(adj, start) && Links(adj, start, g, came) && LinkPath(start, came, current, p)
    requires current in g && e in Out(adj, current) && Better(g, e.target, g[current] + e.weight)
    ensures e.target !in p
  {
    hide NoNegativeCycle, Links, LinkPath, Reaches, Walk, Cost, Out;
    forall i | 0 <= i < |p| ensures p[i] != e.target {
      var ws := LinkWalk(adj, start, g, came, current, p, i);
      PathReaches(adj, start, g, came, current, p, i);
      if p[i] == e.target {
        CycleCost(adj, start, p[i], current, p[i..], ws, e);
      }
    }
  }

  /** With `n` linked to the end of `q`, the path to `v` changes where it meets `n`. */
  lemma {:induction false} PathRelinked(start: nat, came: map<nat, nat>, current: nat, q: seq<nat>, n: nat, v: nat,
                                        p: seq<nat>) returns (p': seq<nat>)
    requires LinkPath(start, came, current, q) && n !in q && (v == n || LinkPath(start, came, v, p))
    ensures LinkPath(start, came[n := current], v, p')
    decreases |p|
  {
    if v == n {
      p' := q + [n];
    } else if |p| == 1 {
      p' := p;
    } else {
      PathStep(start, came, v, p);
      p' := PathRelinked(start, came, current, q, n, came[v], p[..|p| - 1]);
      p' := p' + [v];
    }
  }

  lemma ImproveLinks(adj: Adjacency, start: nat, g: map<nat, real>, came: map<nat, nat>, current: nat, e: Edge)
    requires NoNegativeCycle(adj, start) && Links(adj, start, g, came) && current in g && e in Out(adj, current)
    requires Better(g, e.target, g[current] + e.weight)
    ensures e.target != start && e.target != current
    ensures Links(adj, start, g[e.target := g[current] + e.weight], came[e.target := current])
  {
    hide NoNegativeCycle, Out, LinkedBy;
    var g', came' := g[e.target := g[current] + e.weight], came[e.target := current];
    var q := PathTo(adj, start, g, came, current);
    PathAvoids(adj, start, g, came, current, e, q);
    assert e.target != start && e.target != current;
    forall v | v in came' ensures exists w :: LinkedBy(adj, g', came'[v], v, w) {
      if v == e.target {
        NewLink(adj, g, current, e);
      } else {
        var w :| LinkedBy(adj, g, came[v], v, w);
        OldLink(adj, g, current, e, came[v], v, w);
      }
    }
    forall v | v in g' ensures exists p :: LinkPath(start, came', v, p) {
      hide LinkPath;
      var p := if v == e.target then q else var p :| LinkPath(start, came, v, p); p;
      var p' := PathRelinked(start, came, current, q, e.target, v, p);
    }
  }

  lemma NewLink(adj: Adjacency, g: map<nat, real>, current: nat, e: Edge)
    requires current in g && e in Out(adj, current) && e.target != current
    ensures LinkedBy(adj, g[e.target := g[current] + e.weight], current, e.target, e.weight)
  {
    hide Out;
    assert e == Edge(e.target, e.weight);
  }

  lemma OldLink(adj: Adjacency, g: map<nat, real>, current: nat, e: Edge, u: nat, v: nat, w: real)
    requires current in g && Better(g, e.target, g[current] + e.weight) && v != e.target
    requires LinkedBy(adj, g, u, v, w)
    ensures LinkedBy(adj, g[e.target := g[current] + e.weight], u, v, w)
  {
    hide Out;
  }

  lemma LinkBefore(adj: Adjacency, start: nat, g: map<nat, real>, came: map<nat, nat>, v: nat, p: seq<nat>, n: nat)
    requires Links(adj, start, g, came) && LinkPath(start, came, v, p) && n < |p|
    ensures p[n] in came <==> n > 0
    ensures n > 0 ==> p[n] in came && came[p[n]] == p[n - 1]
    ensures p[0] == start && p[|p| - 1] == v
  {
    hide LinkedBy;
  }

  /** Links never run in a circle. */
  lemma LinkDistinct(adj: Adjacency, start: nat, g: map<nat, real>, came: map<nat, nat>, v: nat, p: seq<nat>)
    requires Links(adj, start, g, came) && LinkPath(start, came, v, p)
    ensures Distinct(p)
  {
    hide LinkedBy;
    forall i, j | 0 <= i < j < |p| ensures p[i] != p[j] {
      if p[i] == p[j] {
        LinkBack(start, came, v, p, i, j);
      }
    }
  }

  lemma {:induction false} LinkBack(start: nat, came: map<nat, nat>, v: nat, p: seq<nat>, i: nat, j: nat)
    requires LinkPath(start, came, v, p) && i < j < |p| && p[i] == p[j]
    ensures p[j - i] == start && p[j - i] in came
  {
    if i > 0 {
      LinkBack(start, came, v, p, i - 1, j - 1);
    }
  }

  // --- relaxed edges

  ghost predicate Expanded(adj: Adjacency, g: map<nat, real>, v: nat, pending: seq<Edge>) {
    v in g && forall e :: e in Out(adj, v) && e !in pending ==> e.target in g && g[e.target] <= g[v] + e.weight
  }

  lemma ExpandedKept(adj: Adjacency, g: map<nat, real>, v: nat, pending: seq<Edge>, n: nat, d: real)
    requires Expanded(adj, g, v, pending) && Better(g, n, d) && v != n
    ensures Expanded(adj, g[n := d], v, pending)
  {
    hide Out;
  }

  lemma ExpandedNext(adj: Adjacency, g: map<nat, real>, v: nat, pending: seq<Edge>)
    requires Expanded(adj, g, v, pending) && pending != []
    requires pending[0].target in g && g[pending[0].target] <= g[v] + pending[0].weight
    ensures Expanded(adj, g, v, pending[1..])
  {
    hide Out;
    assert forall e :: e in pending ==> e == pending[0] || e in pending[1..];
  }

  lemma ExpandedEdge(adj: Adjacency, g: map<nat, real>, v: nat, e: Edge)
    requires Expanded(adj, g, v, []) && e in Out(adj, v)
    ensures v in g && e.target in g && g[e.target] <= g[v] + e.weight
  {
    hide Out;
  }

  // --- recorded walks

  /** `r` is a simple walk to `v` of cost `g[v]`, nowhere better than the scores. */
  ghost predicate IsRecord(adj: Adjacency, start: nat, g: map<nat, real>, v: nat, r: Recorded) {
    && WalkBetween(adj, start, v, r.0, r.1)
    && v in g && Cost(r.1) == g[v]
    && Distinct(r.0)
    && (forall i :: 0 <= i < |r.0| ==> r.0[i] in g && g[r.0[i]] <= Cost(r.1[..i]))
  }

  /** `r` costs at least the score its end has by now. */
  ghost predicate Beaten(g: map<nat, real>, r: Recorded) {
    |r.0| > 0 && r.0[|r.0| - 1] in g && g[r.0[|r.0| - 1]] <= Cost(r.1)
  }

  ghost predicate Records(adj: Adjacency, start: nat, g: map<nat, real>, t: Trace) {
    && t.rec.Keys == g.Keys
    && (forall v :: v in g ==> IsRecord(adj, start, g, v, t.rec[v]))
    && (forall r :: r in t.used ==> Beaten(g, r))
    && t.used <= WalksUpTo(adj, start, |Vertices(adj) + {start}|)
  }

  /** The walks from `start` of at most `n` edges. */
  ghost function WalksUpTo(adj: Adjacency, start: nat, n: nat): set<Recorded> {
    if n == 0 then {([start], [])}
    else
      var shorter := WalksUpTo(adj, start, n - 1);
      shorter + set r, i | r in shorter && 0 <= i < |Out(adj, End(r))| :: Longer(r, Out(adj, End(r))[i])
  }

  ghost function End(r: Recorded): nat {
    if r.0 == [] then 0 else r.0[|r.0| - 1]
  }

  function Longer(r: Recorded, e: Edge): Recorded {
    (r.0 + [e.target], r.1 + [e.weight])
  }

  function StartTrace(start: nat): Trace {
    Trace(map[start := ([start], [])], {})
  }

  function Improved(t: Trace, current: nat, e: Edge): Trace
    requires current in t.rec
  {
    var r := Longer(t.rec[current], e);
    Trace(t.rec[e.target := r], t.used + {r})
  }

  /** Walks that are not recorded yet bound the number of improvements. */
  ghost function Unrecorded(adj: Adjacency, start: nat, t: Trace): set<Recorded> {
    WalksUpTo(adj, start, |Vertices(adj) + {start}|) - t.used
  }

  lemma StartRecords(adj: Adjacency, start: nat)
    ensures Records(adj, start, map[start := 0.0], StartTrace(start))
  {
    hide WalksUpTo, Out;
    assert IsRecord(adj, start, map[start := 0.0], start, ([start], []));
  }

  lemma RecordKept(adj: Adjacency, start: nat, g: map<nat, real>, v: nat, r: Recorded, n: nat, d: real)
    requires IsRecord(adj, start, g, v, r) && Better(g, n, d) && v != n
    ensures IsRecord(adj, start, g[n := d], v, r)
  {
    hide Walk, Cost, Distinct;
  }

  /** The improved vertex is new to the recorded walk of `current`: the rest of the
      walk from it and the improving edge would be a cycle of negative cost. */
  lemma RecordFresh(adj: Adjacency, start: nat, g: map<nat, real>, current: nat, r: Recorded, e: Edge)
    requires NoNegativeCycle(adj, start) && IsRecord(adj, start, g, current, r) && e in Out(adj, current)
    requires Better(g, e.target, g[current] + e.weight)
    ensures e.target !in r.0
  {
    hide IsRecord, NoNegativeCycle, Out;
    forall i | 0 <= i < |r.0| ensures r.0[i] != e.target {
      if r.0[i] == e.target {
        RecordCycle(adj, start, g, current, r, e, i);
      }
    }
  }

  lemma RecordCycle(adj: Adjacency, start: nat, g: map<nat, real>, v: nat, r: Recorded, e: Edge, i: nat)
    requires NoNegativeCycle(adj, start) && IsRecord(adj, start, g, v, r) && e in Out(adj, v)
    requires i < |r.0| && r.0[i] == e.target
    ensures v in g && e.target in g && g[e.target] <= g[v] + e.weight
  {
    hide Out, Cost, NoNegativeCycle, Distinct;
    CostSplit(r.1, i);
    WalkSplit(adj, r.0, r.1, i);
    assert WalkBetween(adj, start, e.target, r.0[..i + 1], r.1[..i]);
    CycleCost(adj, start, e.target, v, r.0[i..], r.1[i..], e);
  }

  lemma RecordExtended(adj: Adjacency, start: nat, g: map<nat, real>, current: nat, r: Recorded, e: Edge)
    requires NoNegativeCycle(adj, start) && IsRecord(adj, start, g, current, r) && e in Out(adj, current)
    requires Better(g, e.target, g[current] + e.weight)
    ensures IsRecord(adj, start, g[e.target := g[current] + e.weight], e.target, Longer(r, e))
  {
    hide Walk, Out, Cost, NoNegativeCycle;
    RecordFresh(adj, start, g, current, r, e);
    WalkAppend(adj, r.0, r.1, e);
    CostAppend(r.1, e.weight);
    ElemsAppend(r.0, e.target);
    hide Distinct;
    var g', r' := g[e.target := g[current] + e.weight], Longer(r, e);
    forall i | 0 <= i < |r'.0| ensures r'.0[i] in g' && g'[r'.0[i]] <= Cost(r'.1[..i]) {
      ExtendedPrefix(g, current, r, e, i);
    }
  }

  lemma ExtendedPrefix(g: map<nat, real>, current: nat, r: Recorded, e: Edge, i: nat)
    requires |r.0| == |r.1| + 1 && current in g && i < |r.0| + 1 && e.target !in r.0
    requires forall i :: 0 <= i < |r.0| ==> r.0[i] in g && g[r.0[i]] <= Cost(r.1[..i])
    requires Cost(r.1 + [e.weight]) == g[current] + e.weight
    ensures
      var g', r' := g[e.target := g[current] + e.weight], Longer(r, e);
      r'.0[i] in g' && g'[r'.0[i]] <= Cost(r'.1[..i])
  {
    hide Cost;
    var r' := Longer(r, e);
    if i < |r.0| {
      assert r'.1[..i] == r.1[..i] && r'.0[i] == r.0[i];
    } else {
      assert r'.1[..i] == r'.1;
    }
  }

  lemma ListedStep(adj: Adjacency, start: nat, r: Recorded, e: Edge, n: nat)
    requires n > 0 && r in WalksUpTo(adj, start, n - 1) && e in Out(adj, End(r))
    ensures Longer(r, e) in WalksUpTo(adj, start, n)
  {
    hide Out, End, Longer;
    var i :| 0 <= i < |Out(adj, End(r))| && Out(adj, End(r))[i] == e;
  }

  lemma WalkLast(adj: Adjacency, p: seq<nat>, ws: seq<real>)
    requires Walk(adj, p, ws) && ws != []
    ensures
      var r, e := (p[..|ws|], ws[..|ws| - 1]), Edge(p[|ws|], ws[|ws| - 1]);
      Walk(adj, r.0, r.1) && r.0[0] == p[0] && End(r) == p[|ws| - 1] && e in Out(adj, End(r)) && (p, ws) == Longer(r, e)
  {
    hide Out;
    var k := |ws| - 1;
    WalkSplit(adj, p, ws, k);
    assert Edge(p[k + 1], ws[k]) in Out(adj, p[k]);
    assert p == p[..k + 1] + [p[k + 1]] && ws == ws[..k] + [ws[k]];
  }

  lemma {:induction false} WalkListed(adj: Adjacency, start: nat, p: seq<nat>, ws: seq<real>, n: nat)
    requires Walk(adj, p, ws) && p[0] == start && |ws| <= n
    ensures (p, ws) in WalksUpTo(adj, start, n)
  {
    hide Out, End, Longer;
    if ws == [] {
      assert p == [start];
      ListedStart(adj, start, n);
    } else {
      WalkLast(adj, p, ws);
      hide Walk;
      var r, e := (p[..|ws|], ws[..|ws| - 1]), Edge(p[|ws|], ws[|ws| - 1]);
      WalkListed(adj, start, r.0, r.1, n - 1);
      ListedStep(adj, start, r, e, n);
    }
  }

  lemma {:induction false} ListedStart(adj: Adjacency, start: nat, n: nat)
    ensures ([start], []) in WalksUpTo(adj, start, n)
  {
    if n > 0 {
      ListedStart(adj, start, n - 1);
    }
  }

  /** A simple walk has at most one edge per vertex. */
  lemma SimpleListed(adj: Adjacency, start: nat, v: nat, p: seq<nat>, ws: seq<real>)
    requires WalkBetween(adj, start, v, p, ws) && Distinct(p)
    ensures (p, ws) in WalksUpTo(adj, start, |Vertices(adj) + {start}|)
  {
    hide WalksUpTo, Out;
    var all := Vertices(adj) + {start};
    forall x | x in Elems(p) ensures x in all {
      var i :| 0 <= i < |p| && p[i] == x;
      if i > 0 {
        assert Edge(p[i], ws[i - 1]) in Out(adj, p[i - 1]);
        VerticesClosed(adj);
        EdgeVertex(adj, p[i - 1], Edge(p[i], ws[i - 1]));
      }
    }
    hide Walk, Vertices;
    DistinctSize(p);
    SubsetSize(Elems(p), all);
    WalkListed(adj, start, p, ws, |all|);
  }

  lemma ImproveRecords(adj: Adjacency, start: nat, g: map<nat, real>, t: Trace, current: nat, e: Edge)
    requires NoNegativeCycle(adj, start) && Records(adj, start, g, t) && current in g && e in Out(adj, current)
    requires Better(g, e.target, g[current] + e.weight)
    ensures Records(adj, start, g[e.target := g[current] + e.weight], Improved(t, current, e))
    ensures Longer(t.rec[current], e) in WalksUpTo(adj, start, |Vertices(adj) + {start}|) - t.used
  {
    hide WalksUpTo, NoNegativeCycle, Out, Vertices, IsRecord, Cost;
    var d := g[current] + e.weight;
    var g', r := g[e.target := d], Longer(t.rec[current], e);
    RecordExtended(adj, start, g, current, t.rec[current], e);
    RecordBeaten(adj, start, g', e.target, r);
    assert r !in t.used by { NotBeaten(g, r, e.target, d); }
    assert r in WalksUpTo(adj, start, |Vertices(adj) + {start}|) by { RecordListed(adj, start, g', e.target, r); }
    var t' := Improved(t, current, e);
    forall v | v in g' ensures IsRecord(adj, start, g', v, t'.rec[v]) {
      if v != e.target {
        RecordKept(adj, start, g, v, t.rec[v], e.target, d);
      }
    }
    forall x | x in t'.used ensures Beaten(g', x) {
      if x in t.used {
        assert Beaten(g, x);
      }
    }
  }

  lemma RecordBeaten(adj: Adjacency, start: nat, g: map<nat, real>, v: nat, r: Recorded)
    requires IsRecord(adj, start, g, v, r)
    ensures Beaten(g, r) && |r.0| > 0 && r.0[|r.0| - 1] == v && Cost(r.1) == g[v]
  {
    hide Cost;
  }

  lemma NotBeaten(g: map<nat, real>, r: Recorded, v: nat, d: real)
    requires Better(g, v, d) && |r.0| > 0 && r.0[|r.0| - 1] == v && Cost(r.1) == d
    ensures !Beaten(g, r)
  {
  }

  lemma RecordListed(adj: Adjacency, start: nat, g: map<nat, real>, v: nat, r: Recorded)
    requires IsRecord(adj, start, g, v, r)
    ensures r in WalksUpTo(adj, start, |Vertices(adj) + {start}|)
  {
    hide WalksUpTo, Walk, Cost, Vertices, Out;
    SimpleListed(adj, start, v, r.0, r.1);
  }

  lemma RecordAttained(adj: Adjacency, start: nat, g: map<nat, real>, t: Trace, v: nat)
    requires Records(adj, start, g, t) && v in g
    ensures Attained(adj, start, v, g[v])
  {
    hide Walk, Cost, WalksUpTo, Vertices;
    assert IsRecord(adj, start, g, v, t.rec[v]);
  }
}
