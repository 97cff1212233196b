/** The limit of PageRank's iterations, crates/algorithms/src/graphs.rs:292-330:
    below damping 1 there is one rank vector that an iteration leaves unchanged,
    and the ranks converge to it. */
module SteadyRanks {
  import opened Graphs
  import opened PageRank

  // --- linear systems whose columns add up to less than 1

  type Matrix = (nat, nat) -> real

  ghost function Column(s: set<nat>, a: Matrix, u: nat): real {
    SumOver(s, (v: nat) => a(v, u))
  }

  ghost function Row(s: set<nat>, a: Matrix, x: nat -> real, v: nat): real {
    SumOver(s, (u: nat) => Mul(a(v, u), x(u)))
  }

  ghost predicate SmallColumns(s: set<nat>, a: Matrix, c: real) {
    && (forall u, v :: u in s && v in s ==> a(v, u) >= 0.0)
    && (forall u :: u in s ==> Column(s, a, u) <= c)
  }

  ghost predicate Solves(s: set<nat>, a: Matrix, b: nat -> real, x: nat -> real) {
    forall v :: v in s ==> x(v) == b(v) + Row(s, a, x, v)
  }

  /** The system with the unknown `w` eliminated; `p` is 1 / (1 - a(w, w)). */
  ghost function Eliminated(a: Matrix, w: nat, p: real): Matrix {
    (v: nat, u: nat) => a(v, u) + Mul(Mul(p, a(v, w)), a(w, u))
  }

  ghost function Carried(a: Matrix, b: nat -> real, w: nat, p: real): nat -> real {
    (v: nat) => b(v) + Mul(Mul(p, a(v, w)), b(w))
  }

  ghost function Extended(x: nat -> real, w: nat, value: real): nat -> real {
    (u: nat) => if u == w then value else x(u)
  }

  /** Every such system has a solution. */
  lemma {:induction false} Solve(s: set<nat>, a: Matrix, b: nat -> real, c: real) returns (x: nat -> real)
    requires SmallColumns(s, a, c) && c < 1.0
    ensures Solves(s, a, b, x)
  {
    hide SmallColumns, Solves, Row, Eliminated, Carried, Extended;
    if s == {} {
      x := (v: nat) => 0.0;
      NothingToSolve(a, b, x);
    } else {
      var w: nat :| w in s;
      var t := s - {w};
      var p := Pivot(s, a, c, w);
      EliminatedColumns(s, a, c, w, p);
      var y := Solve(t, Eliminated(a, w, p), Carried(a, b, w, p), c);
      x := Extended(y, w, Mul(p, b(w) + Row(t, a, y, w)));
      BackSubstituted(s, a, b, w, p, y);
    }
  }

  lemma NothingToSolve(a: Matrix, b: nat -> real, x: nat -> real)
    ensures Solves({}, a, b, x)
  {
  }

  lemma ColumnSplit(s: set<nat>, a: Matrix, w: nat, u: nat)
    requires w in s
    ensures Column(s, a, u) == a(w, u) + Column(s - {w}, a, u)
  {
    SumAny(s, (v: nat) => a(v, u), w);
  }

  lemma ColumnSign(s: set<nat>, t: set<nat>, a: Matrix, c: real, u: nat)
    requires SmallColumns(s, a, c) && t <= s && u in s
    ensures Column(t, a, u) >= 0.0
  {
    hide Column, SumOver;
    SumNonNegative(t, (v: nat) => a(v, u));
    ColumnIs(t, a, u);
  }

  lemma ColumnIs(t: set<nat>, a: Matrix, u: nat)
    ensures Column(t, a, u) == SumOver(t, (v: nat) => a(v, u))
  {
  }

  lemma Pivot(s: set<nat>, a: Matrix, c: real, w: nat) returns (p: real)
    requires SmallColumns(s, a, c) && c < 1.0 && w in s
    ensures p > 0.0 && Mul(p, 1.0 - a(w, w)) == 1.0
    ensures Mul(p, Column(s - {w}, a, w)) <= 1.0
  {
    hide Column;
    ColumnSplit(s, a, w, w);
    ColumnSign(s, s - {w}, a, c, w);
    p := 1.0 / (1.0 - a(w, w));
    Reciprocal(1.0 - a(w, w));
    MulMonotone(p, Column(s - {w}, a, w), 1.0 - a(w, w));
  }

  lemma Reciprocal(x: real)
    requires x > 0.0
    ensures 1.0 / x > 0.0 && Mul(1.0 / x, x) == 1.0
  {
  }

  lemma EliminatedColumns(s: set<nat>, a: Matrix, c: real, w: nat, p: real)
    requires SmallColumns(s, a, c) && w in s && p > 0.0 && Mul(p, Column(s - {w}, a, w)) <= 1.0
    ensures SmallColumns(s - {w}, Eliminated(a, w, p), c)
  {
    hide Column, Mul;
    var t, a' := s - {w}, Eliminated(a, w, p);
    forall u, v | u in t && v in t ensures a'(v, u) >= 0.0 {
      ProductSign(p, a(v, w), a(w, u));
    }
    forall u | u in t ensures Column(t, a', u) <= c {
      ColumnSplit(s, a, w, u);
      EliminatedColumn(t, a, w, p, u);
      AtMost(p, a(w, u), Column(t, a, w));
    }
  }

  lemma ProductSign(p: real, x: real, y: real)
    requires p >= 0.0 && x >= 0.0 && y >= 0.0
    ensures Mul(Mul(p, x), y) >= 0.0
  {
    assert p * x >= 0.0;
    assert (p * x) * y >= 0.0;
  }

  lemma AtMost(p: real, x: real, y: real)
    requires x >= 0.0 && Mul(p, y) <= 1.0
    ensures Mul(Mul(p, x), y) <= x
  {
    assert x * (1.0 - p * y) >= 0.0;
    assert (p * x) * y == x * (p * y);
  }

  lemma EliminatedColumn(t: set<nat>, a: Matrix, w: nat, p: real, u: nat)
    ensures Column(t, Eliminated(a, w, p), u) == Column(t, a, u) + Mul(Mul(p, a(w, u)), Column(t, a, w))
  {
    hide SumOver, Mul;
    var all, kept := (v: nat) => Eliminated(a, w, p)(v, u), (v: nat) => a(v, u);
    var added, pivot := (v: nat) => Mul(Mul(p, a(v, w)), a(w, u)), (v: nat) => a(v, w);
    forall v | v in t ensures all(v) == kept(v) + added(v) {
      EntryIs(a, w, p, v, u);
    }
    SumAdd(t, all, kept, added);
    forall v | v in t ensures added(v) == Mul(Mul(p, a(w, u)), pivot(v)) {
      MulOrder(p, a(v, w), a(w, u));
    }
    SumScale(t, added, Mul(p, a(w, u)), pivot);
  }

  lemma EntryIs(a: Matrix, w: nat, p: real, v: nat, u: nat)
    ensures Eliminated(a, w, p)(v, u) == a(v, u) + Mul(Mul(p, a(v, w)), a(w, u))
  {
  }

  lemma MulOrder(p: real, x: real, y: real)
    ensures Mul(Mul(p, x), y) == Mul(Mul(p, y), x)
  {
  }

  lemma EliminatedRow(t: set<nat>, a: Matrix, w: nat, p: real, y: nat -> real, v: nat)
    ensures Row(t, Eliminated(a, w, p), y, v) == Row(t, a, y, v) + Mul(Mul(p, a(v, w)), Row(t, a, y, w))
  {
    hide SumOver, Mul;
    var all, kept := (u: nat) => Mul(Eliminated(a, w, p)(v, u), y(u)), (u: nat) => Mul(a(v, u), y(u));
    var added, pivot := (u: nat) => Mul(Mul(p, a(v, w)), Mul(a(w, u), y(u))), (u: nat) => Mul(a(w, u), y(u));
    forall u | u in t ensures all(u) == kept(u) + added(u) {
      EntryIs(a, w, p, v, u);
      MulSpread(a(v, u), Mul(p, a(v, w)), a(w, u), y(u));
    }
    SumAdd(t, all, kept, added);
    SumScale(t, added, Mul(p, a(v, w)), pivot);
  }

  lemma MulSpread(x: real, q: real, z: real, y: real)
    ensures Mul(x + Mul(q, z), y) == Mul(x, y) + Mul(q, Mul(z, y))
  {
  }

  lemma RowExtended(s: set<nat>, a: Matrix, w: nat, y: nat -> real, value: real, v: nat)
    requires w in s
    ensures Row(s, a, Extended(y, w, value), v) == Mul(a(v, w), value) + Row(s - {w}, a, y, v)
  {
    hide SumOver, Mul;
    var x := Extended(y, w, value);
    SumAny(s, (u: nat) => Mul(a(v, u), x(u)), w);
    SumSame(s - {w}, (u: nat) => Mul(a(v, u), x(u)), (u: nat) => Mul(a(v, u), y(u)));
  }

  lemma BackSubstituted(s: set<nat>, a: Matrix, b: nat -> real, w: nat, p: real, y: nat -> real)
    requires w in s && Mul(p, 1.0 - a(w, w)) == 1.0
    requires Solves(s - {w}, Eliminated(a, w, p), Carried(a, b, w, p), y)
    ensures Solves(s, a, b, Extended(y, w, Mul(p, b(w) + Row(s - {w}, a, y, w))))
  {
    hide Row, Mul, Eliminated;
    var t, rest := s - {w}, Row(s - {w}, a, y, w);
    var value := Mul(p, b(w) + rest);
    var x := Extended(y, w, value);
    forall v | v in s ensures x(v) == b(v) + Row(s, a, x, v) {
      RowExtended(s, a, w, y, value, v);
      if v == w {
        PivotValue(p, a(w, w), b(w) + rest);
      } else {
        EliminatedRow(t, a, w, p, y, v);
        PivotCarried(p, a(v, w), b(w), rest);
      }
    }
  }

  lemma PivotValue(p: real, d: real, z: real)
    requires Mul(p, 1.0 - d) == 1.0
    ensures Mul(p, z) == z + Mul(d, Mul(p, z))
  {
    assert p * z - d * (p * z) == (p * (1.0 - d)) * z;
  }

  lemma PivotCarried(p: real, x: real, y: real, z: real)
    ensures Mul(Mul(p, x), y) + Mul(Mul(p, x), z) == Mul(x, Mul(p, y + z))
  {
  }

  // --- the rank equation as such a system

  ghost function Ones(adj: Adjacency): map<nat, real> {
    map v | v in adj :: 1.0
  }

  /** What vertex `u` passes to `v` of each unit of its rank, damped. */
  ghost function Passed(adj: Adjacency, damping: real): Matrix
    requires adj != map[]
  {
    (v: nat, u: nat) => Mul(damping, Inflow(adj, Ones(adj), u, v) + Idle(adj, Ones(adj), u) / |adj.Keys| as real)
  }

  lemma PassedIs(adj: Adjacency, damping: real, v: nat, u: nat)
    requires adj != map[]
    ensures |adj.Keys| > 0
    ensures Passed(adj, damping)(v, u) ==
            Mul(damping, Inflow(adj, Ones(adj), u, v) + Idle(adj, Ones(adj), u) / |adj.Keys| as real)
  {
    KeysPositive(adj);
  }

  lemma OneOf(adj: Adjacency, u: nat)
    requires u in adj
    ensures RankOf(Ones(adj), u) == 1.0
  {
  }

  lemma InflowSign(adj: Adjacency, rank: map<nat, real>, u: nat, v: nat)
    requires RankOf(rank, u) >= 0.0
    ensures Inflow(adj, rank, u, v) >= 0.0 && Idle(adj, rank, u) >= 0.0
  {
    if Out(adj, u) != [] {
      ShareWhole(|Out(adj, u)|, RankOf(rank, u));
      FlowNonNegative(Out(adj, u), Share(Out(adj, u), RankOf(rank, u)), v);
    }
  }

  lemma PassedColumns(adj: Adjacency, damping: real)
    requires adj != map[] && 0.0 <= damping
    ensures SmallColumns(adj.Keys, Passed(adj, damping), damping)
  {
    hide Inflow, Idle, Ones, Column, Mul;
    var a, n := Passed(adj, damping), |adj.Keys|;
    KeysPositive(adj);
    forall u, v | u in adj.Keys && v in adj.Keys ensures a(v, u) >= 0.0 {
      OneOf(adj, u);
      InflowSign(adj, Ones(adj), u, v);
      ShareWhole(n, Idle(adj, Ones(adj), u));
      MulSign(damping, Inflow(adj, Ones(adj), u, v) + Idle(adj, Ones(adj), u) / n as real);
    }
    forall u | u in adj.Keys ensures Column(adj.Keys, a, u) <= damping {
      PassedColumn(adj, damping, u);
    }
  }

  lemma MulSign(x: real, y: real)
    requires x >= 0.0 && y >= 0.0
    ensures Mul(x, y) >= 0.0
  {
  }

  lemma PassedColumn(adj: Adjacency, damping: real, u: nat)
    requires u in adj && 0.0 <= damping
    ensures Column(adj.Keys, Passed(adj, damping), u) <= damping
  {
    hide SumOver, Inflow, Idle, Lost, Kept, Ones, Mul;
    var ones, n := Ones(adj), |adj.Keys|;
    var keys, dangling := adj.Keys, Idle(adj, ones, u) / n as real;
    KeysPositive(adj);
    OneOf(adj, u);
    var total, into := (v: nat) => Passed(adj, damping)(v, u), (v: nat) => Inflow(adj, ones, u, v);
    forall v ensures total(v) == 0.0 + Mul(damping, into(v) + dangling) {
      PassedIs(adj, damping, v, u);
    }
    SumDamped(keys, total, 0.0, damping, into, dangling);
    ShareWhole(n, Idle(adj, ones, u));
    ShareWhole(n, 0.0);
    InflowKept(adj, ones, u, into);
    VertexSplit(adj, ones, u);
    LostSign(adj, ones, u);
    var passed := SumOver(keys, into) + Mul(n as real, dangling);
    MulMonotone(damping, passed, 1.0);
    MulOne(damping);
  }

  lemma InflowKept(adj: Adjacency, rank: map<nat, real>, u: nat, into: nat -> real)
    requires forall v :: into(v) == Inflow(adj, rank, u, v)
    ensures SumOver(adj.Keys, into) == Kept(Out(adj, u), Share(Out(adj, u), RankOf(rank, u)), adj.Keys)
  {
    hide SumOver, Kept, Flow, Out, Share;
    var edges, share := Out(adj, u), Share(Out(adj, u), RankOf(rank, u));
    SumFlow(edges, share, adj.Keys);
    SumSame(adj.Keys, into, (v: nat) => Flow(edges, share, v));
  }

  lemma {:induction false} FlowScaled(edges: seq<Edge>, share: real, r: real, node: nat)
    ensures Flow(edges, Mul(share, r), node) == Mul(Flow(edges, share, node), r)
  {
    if edges != [] {
      FlowScaled(edges[..|edges| - 1], share, r, node);
    }
  }

  lemma ShareScaled(edges: seq<Edge>, r: real)
    ensures Share(edges, r) == Mul(Share(edges, 1.0), r)
  {
  }

  lemma InflowScaled(adj: Adjacency, rank: map<nat, real>, u: nat, v: nat)
    requires u in adj
    ensures Inflow(adj, rank, u, v) == Mul(Inflow(adj, Ones(adj), u, v), RankOf(rank, u))
    ensures Idle(adj, rank, u) == Mul(Idle(adj, Ones(adj), u), RankOf(rank, u))
  {
    hide Flow, Share;
    var edges := Out(adj, u);
    OneOf(adj, u);
    ShareScaled(edges, RankOf(rank, u));
    FlowScaled(edges, Share(edges, 1.0), RankOf(rank, u), v);
  }

  lemma PassedRow(adj: Adjacency, damping: real, rank: map<nat, real>, x: nat -> real, v: nat)
    requires adj != map[] && forall u :: u in adj ==> x(u) == RankOf(rank, u)
    ensures NextRank(adj, damping, rank, v) ==
            (1.0 - damping) / |adj.Keys| as real + Row(adj.Keys, Passed(adj, damping), x, v)
  {
    hide SumOver, Inflow, Idle, Mul, Ones, RankOf, Passed, InflowSum, IdleSum;
    var keys, n := adj.Keys, |adj.Keys| as real;
    KeysPositive(adj);
    var terms := (u: nat) => Mul(Passed(adj, damping)(v, u), x(u));
    var received := (u: nat) => Inflow(adj, rank, u, v) + Idle(adj, rank, u) / n;
    forall u | u in keys ensures terms(u) == Mul(damping, received(u)) {
      PassedIs(adj, damping, v, u);
      InflowScaled(adj, rank, u, v);
      TermIs(damping, Inflow(adj, Ones(adj), u, v), Idle(adj, Ones(adj), u), n, x(u));
    }
    SumScale(keys, terms, damping, received);
    ReceivedIs(adj, rank, n, v, received);
  }

  lemma ReceivedIs(adj: Adjacency, rank: map<nat, real>, n: real, v: nat, received: nat -> real)
    requires n > 0.0 && forall u :: received(u) == Inflow(adj, rank, u, v) + Idle(adj, rank, u) / n
    ensures SumOver(adj.Keys, received) == InflowSum(adj, rank, v) + IdleSum(adj, rank) / n
  {
    hide SumOver, Inflow, Idle, Mul;
    var keys := adj.Keys;
    var into, shared := (u: nat) => Inflow(adj, rank, u, v), (u: nat) => Idle(adj, rank, u) / n;
    SumAdd(keys, received, into, shared);
    var idle := (u: nat) => Idle(adj, rank, u);
    forall u | u in keys ensures shared(u) == Mul(1.0 / n, idle(u)) {
      DivideIs(idle(u), n);
    }
    SumScale(keys, shared, 1.0 / n, idle);
    DivideIs(IdleSum(adj, rank), n);
  }

  lemma TermIs(d: real, f: real, i: real, n: real, x: real)
    requires n > 0.0
    ensures Mul(Mul(d, f + i / n), x) == Mul(d, Mul(f, x) + Mul(i, x) / n)
  {
    assert (i / n) * x == (i * x) / n;
  }

  lemma DivideIs(x: real, n: real)
    requires n > 0.0
    ensures x / n == Mul(1.0 / n, x)
  {
  }

  /** Below damping 1 some rank vector is left unchanged by an iteration. */
  lemma SteadyExists(adj: Adjacency, damping: real) returns (r: map<nat, real>)
    requires adj != map[] && 0.0 <= damping < 1.0
    ensures Steady(adj, damping, r)
  {
    hide NextRank, Row, Passed, SmallColumns;
    PassedColumns(adj, damping);
    var b := (v: nat) => (1.0 - damping) / |adj.Keys| as real;
    KeysPositive(adj);
    var x := Solve(adj.Keys, Passed(adj, damping), b, damping);
    r := map v | v in adj :: x(v);
    forall v | v in adj ensures r[v] == NextRank(adj, damping, r, v) {
      PassedRow(adj, damping, r, x, v);
      assert v in adj.Keys;
    }
  }

  // --- the limit

  ghost predicate StaysWithin(adj: Adjacency, damping: real, r: map<nat, real>, epsilon: real, n: nat) {
    forall k: nat :: k >= n ==> Apart(adj, Ranks(adj, damping, k), r) <= epsilon
  }

  ghost predicate GetsWithin(adj: Adjacency, damping: real, r: map<nat, real>, epsilon: real) {
    exists n :: StaysWithin(adj, damping, r, epsilon, n)
  }

  /** Below damping 1, on every graph, the ranks converge, and their limit is the
      one rank vector that an iteration leaves unchanged. */
  lemma Limit(adj: Adjacency, damping: real) returns (r: map<nat, real>)
    requires adj != map[] && 0.0 <= damping < 1.0
    ensures Steady(adj, damping, r) && forall s :: Steady(adj, damping, s) ==> s == r
    ensures forall epsilon :: epsilon > 0.0 ==> GetsWithin(adj, damping, r, epsilon)
  {
    hide Steady, Apart, Ranks;
    r := SteadyExists(adj, damping);
    forall s | Steady(adj, damping, s) ensures s == r {
      SteadyUnique(adj, damping, r, s);
    }
    forall epsilon | epsilon > 0.0 ensures GetsWithin(adj, damping, r, epsilon) {
      var n := Converges(adj, damping, r, epsilon);
      assert StaysWithin(adj, damping, r, epsilon, n);
    }
  }
}
