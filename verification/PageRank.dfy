/** PageRank over the reals, crates/algorithms/src/graphs.rs:292-330. */
module PageRank {
  import opened Sorting
  import opened Graphs

  // --- sums over finite sets, in any order

  ghost function SumOver(s: set<nat>, f: nat -> real): real {
    if s == {} then 0.0 else var x :| x in s; f(x) + SumOver(s - {x}, f)
  }

  lemma {:induction false} SumAny(s: set<nat>, f: nat -> real, x: nat)
    requires x in s
    ensures SumOver(s, f) == f(x) + SumOver(s - {x}, f)
  {
    var y :| y in s && SumOver(s, f) == f(y) + SumOver(s - {y}, f);
    if x != y {
      SumAny(s - {y}, f, x);
      SumAny(s - {x}, f, y);
      assert s - {y} - {x} == s - {x} - {y};
    }
  }

  lemma {:induction false} SumSame(s: set<nat>, f: nat -> real, g: nat -> real)
    requires forall x :: x in s ==> f(x) == g(x)
    ensures SumOver(s, f) == SumOver(s, g)
  {
    if s != {} {
      var x :| x in s;
      SumAny(s, f, x);
      SumAny(s, g, x);
      SumSame(s - {x}, f, g);
    }
  }

  lemma {:induction false} SumAdd(s: set<nat>, h: nat -> real, f: nat -> real, g: nat -> real)
    requires forall x :: x in s ==> h(x) == f(x) + g(x)
    ensures SumOver(s, h) == SumOver(s, f) + SumOver(s, g)
  {
    if s != {} {
      var x :| x in s;
      SumAny(s, f, x);
      SumAny(s, g, x);
      SumAny(s, h, x);
      SumAdd(s - {x}, h, f, g);
    }
  }

  /** A product by name, so that quantified sums stay linear for the prover. */
  function Mul(x: real, y: real): real {
    x * y
  }

  lemma {:induction false} SumScale(s: set<nat>, h: nat -> real, b: real, f: nat -> real)
    requires forall x :: x in s ==> h(x) == Mul(b, f(x))
    ensures SumOver(s, h) == Mul(b, SumOver(s, f))
  {
    if s == {} {
    } else {
      hide Mul;
      var x :| x in s;
      SumAny(s, f, x);
      SumAny(s, h, x);
      hide SumOver;
      SumScale(s - {x}, h, b, f);
      Distribute(b, f(x), SumOver(s - {x}, f));
    }
  }

  lemma {:induction false} SumConstant(s: set<nat>, f: nat -> real, c: real)
    requires forall x :: x in s ==> f(x) == c
    ensures SumOver(s, f) == Mul(|s| as real, c)
  {
    if s != {} {
      var x :| x in s;
      SumAny(s, f, x);
      SumConstant(s - {x}, f, c);
      OneMore(|s - {x}| as real, c);
    }
  }

  lemma Distribute(b: real, x: real, y: real)
    ensures Mul(b, x + y) == Mul(b, x) + Mul(b, y)
  {
  }

  lemma OneMore(n: real, c: real)
    ensures Mul(n + 1.0, c) == Mul(n, c) + c
  {
  }

  lemma {:induction false} SumNonNegative(s: set<nat>, f: nat -> real)
    requires forall x :: x in s ==> f(x) >= 0.0
    ensures SumOver(s, f) >= 0.0
    ensures forall x :: x in s ==> f(x) <= SumOver(s, f)
  {
    if s != {} {
      var x :| x in s;
      SumAny(s, f, x);
      SumNonNegative(s - {x}, f);
    }
  }

  lemma {:induction false} SumSwap(s: set<nat>, t: set<nat>, f: (nat, nat) -> real)
    ensures SumOver(s, (x: nat) => SumOver(t, (y: nat) => f(x, y))) ==
            SumOver(t, (y: nat) => SumOver(s, (x: nat) => f(x, y)))
  {
    var rows := (x: nat) => SumOver(t, (y: nat) => f(x, y));
    var columns := (y: nat) => SumOver(s, (x: nat) => f(x, y));
    if s == {} {
      SumConstant(t, columns, 0.0);
    } else {
      var x0 :| x0 in s;
      var rest := s - {x0};
      SumSwap(rest, t, f);
      SumAny(s, rows, x0);
      var row := (y: nat) => f(x0, y);
      var below := (y: nat) => SumOver(rest, (x: nat) => f(x, y));
      forall y | y in t ensures columns(y) == row(y) + below(y) {
        SumAny(s, (x: nat) => f(x, y), x0);
      }
      SumAdd(t, columns, row, below);
    }
  }

  // --- one iteration

  function RankOf(rank: map<nat, real>, v: nat): real {
    if v in rank then rank[v] else 0.0
  }

  /** What the edges of one vertex pass to `node`, `share` for each edge to it. */
  function Flow(edges: seq<Edge>, share: real, node: nat): real {
    if edges == [] then 0.0
    else Flow(edges[..|edges| - 1], share, node) + if edges[|edges| - 1].target == node then share else 0.0
  }

  function Share(edges: seq<Edge>, r: real): real {
    if edges == [] then 0.0 else r / |edges| as real
  }

  function Inflow(adj: Adjacency, rank: map<nat, real>, u: nat, node: nat): real {
    Flow(Out(adj, u), Share(Out(adj, u), RankOf(rank, u)), node)
  }

  /** The rank of the vertices without edges. */
  function Idle(adj: Adjacency, rank: map<nat, real>, u: nat): real {
    if Out(adj, u) == [] then RankOf(rank, u) else 0.0
  }

  ghost function IdleSum(adj: Adjacency, rank: map<nat, real>): real {
    SumOver(adj.Keys, (u: nat) => Idle(adj, rank, u))
  }

  ghost function InflowSum(adj: Adjacency, rank: map<nat, real>, node: nat): real {
    SumOver(adj.Keys, (u: nat) => Inflow(adj, rank, u, node))
  }

  ghost function InflowTotal(adj: Adjacency, rank: map<nat, real>): real {
    SumOver(adj.Keys, (v: nat) => InflowSum(adj, rank, v))
  }

  ghost function NextRank(adj: Adjacency, damping: real, rank: map<nat, real>, node: nat): real
    requires adj != map[]
  {
    var n := |adj.Keys| as real;
    (1.0 - damping) / n + Mul(damping, InflowSum(adj, rank, node) + IdleSum(adj, rank) / n)
  }

  ghost function Ranks(adj: Adjacency, damping: real, k: nat): map<nat, real> {
    if adj == map[] then map[]
    else if k == 0 then map v | v in adj :: 1.0 / |adj.Keys| as real
    else
      var before := Ranks(adj, damping, k - 1);
      map v | v in adj :: NextRank(adj, damping, before, v)
  }

  ghost function Total(adj: Adjacency, rank: map<nat, real>): real {
    SumOver(adj.Keys, (v: nat) => RankOf(rank, v))
  }

  // --- conservation

  /** What the edges pass to keys ... */
  ghost function Kept(edges: seq<Edge>, share: real, keys: set<nat>): real {
    if edges == [] then 0.0
    else Kept(edges[..|edges| - 1], share, keys) + if edges[|edges| - 1].target in keys then share else 0.0
  }

  /** ... and what they pass to vertices that are not keys, where it is lost. */
  ghost function Spilled(edges: seq<Edge>, share: real, keys: set<nat>): real {
    if edges == [] then 0.0
    else Spilled(edges[..|edges| - 1], share, keys) + if edges[|edges| - 1].target in keys then 0.0 else share
  }

  ghost function Lost(adj: Adjacency, rank: map<nat, real>, u: nat): real {
    Spilled(Out(adj, u), Share(Out(adj, u), RankOf(rank, u)), adj.Keys)
  }

  ghost function LostSum(adj: Adjacency, rank: map<nat, real>): real {
    SumOver(adj.Keys, (u: nat) => Lost(adj, rank, u))
  }

  ghost predicate TargetsAreKeys(adj: Adjacency) {
    forall u, e :: u in adj && e in Out(adj, u) ==> e.target in adj
  }

  lemma {:induction false} SumFlow(edges: seq<Edge>, share: real, keys: set<nat>)
    ensures SumOver(keys, (v: nat) => Flow(edges, share, v)) == Kept(edges, share, keys)
  {
    var all := (v: nat) => Flow(edges, share, v);
    if edges == [] {
      SumConstant(keys, all, 0.0);
    } else {
      var init, last := edges[..|edges| - 1], edges[|edges| - 1];
      var most := (v: nat) => Flow(init, share, v);
      var one := (v: nat) => if v == last.target then share else 0.0;
      SumFlow(init, share, keys);
      SumAdd(keys, all, most, one);
      SumOne(keys, one, last.target, share);
    }
  }

  lemma SumOne(keys: set<nat>, one: nat -> real, x: nat, share: real)
    requires forall v :: one(v) == if v == x then share else 0.0
    ensures SumOver(keys, one) == if x in keys then share else 0.0
  {
    if x in keys {
      SumAny(keys, one, x);
      SumConstant(keys - {x}, one, 0.0);
    } else {
      SumConstant(keys, one, 0.0);
    }
  }

  lemma {:induction false} KeptAndSpilled(edges: seq<Edge>, share: real, keys: set<nat>)
    ensures Kept(edges, share, keys) + Spilled(edges, share, keys) == Mul(|edges| as real, share)
  {
    if edges != [] {
      var init := edges[..|edges| - 1];
      KeptAndSpilled(init, share, keys);
      OneMore(|init| as real, share);
    }
  }

  lemma {:induction false} SpilledSign(edges: seq<Edge>, share: real, keys: set<nat>)
    requires share >= 0.0
    ensures Spilled(edges, share, keys) >= 0.0
    ensures share > 0.0 && (exists e :: e in edges && e.target !in keys) ==> Spilled(edges, share, keys) > 0.0
  {
    if edges != [] {
      var init, last := edges[..|edges| - 1], edges[|edges| - 1];
      assert edges == init + [last];
      SpilledSign(init, share, keys);
    }
  }

  lemma {:induction false} SpilledZero(edges: seq<Edge>, share: real, keys: set<nat>)
    requires forall e :: e in edges ==> e.target in keys
    ensures Spilled(edges, share, keys) == 0.0
  {
    if edges != [] {
      SpilledZero(edges[..|edges| - 1], share, keys);
    }
  }

  lemma ShareWhole(n: nat, r: real)
    requires n > 0
    ensures Mul(n as real, r / n as real) == r
    ensures r >= 0.0 ==> r / n as real >= 0.0
    ensures r > 0.0 ==> r / n as real > 0.0
  {
  }

  lemma LostSign(adj: Adjacency, rank: map<nat, real>, u: nat)
    requires RankOf(rank, u) >= 0.0
    ensures Lost(adj, rank, u) >= 0.0
    ensures RankOf(rank, u) > 0.0 && (exists e :: e in Out(adj, u) && e.target !in adj) ==> Lost(adj, rank, u) > 0.0
  {
    var edges, r := Out(adj, u), RankOf(rank, u);
    if edges != [] {
      ShareWhole(|edges|, r);
      hide Out;
      SpilledSign(edges, Share(edges, r), adj.Keys);
    }
  }

  lemma VertexSplit(adj: Adjacency, rank: map<nat, real>, u: nat)
    ensures RankOf(rank, u) ==
            Kept(Out(adj, u), Share(Out(adj, u), RankOf(rank, u)), adj.Keys) + Idle(adj, rank, u) + Lost(adj, rank, u)
  {
    var edges, r := Out(adj, u), RankOf(rank, u);
    KeptAndSpilled(edges, Share(edges, r), adj.Keys);
    if edges != [] {
      ShareWhole(|edges|, r);
    }
  }

  /** One iteration turns a total of t into (1 - d) + d * (t - lost). */
  lemma NextTotal(adj: Adjacency, damping: real, rank: map<nat, real>, next: map<nat, real>)
    requires adj != map[]
    requires forall v :: v in adj ==> v in next && next[v] == NextRank(adj, damping, rank, v)
    ensures Total(adj, next) == (1.0 - damping) + Mul(damping, Total(adj, rank) - LostSum(adj, rank))
  {
    hide Mul, Total, LostSum, IdleSum, InflowSum;
    KeysPositive(adj);
    var n := |adj.Keys|;
    var base, dangling := (1.0 - damping) / n as real, IdleSum(adj, rank) / n as real;
    ShareWhole(n, 1.0 - damping);
    ShareWhole(n, IdleSum(adj, rank));
    assert forall v :: v in adj ==> next[v] == base + Mul(damping, InflowSum(adj, rank, v) + dangling);
    hide NextRank;
    NextTotalWith(adj, damping, rank, next, base, dangling);
  }

  lemma KeysPositive(adj: Adjacency)
    requires adj != map[]
    ensures |adj.Keys| > 0
  {
    var v :| v in adj;
    assert v in adj.Keys;
  }

  lemma NextTotalWith(adj: Adjacency, damping: real, rank: map<nat, real>, next: map<nat, real>, base: real,
                      dangling: real)
    requires Mul(|adj.Keys| as real, base) == 1.0 - damping && Mul(|adj.Keys| as real, dangling) == IdleSum(adj, rank)
    requires forall v :: v in adj ==> v in next && next[v] == base + Mul(damping, InflowSum(adj, rank, v) + dangling)
    ensures Total(adj, next) == (1.0 - damping) + Mul(damping, Total(adj, rank) - LostSum(adj, rank))
  {
    hide IdleSum, InflowSum, InflowTotal, LostSum, SumOver, Mul, Total;
    KeptTotal(adj, rank);
    var total, into := (v: nat) => RankOf(next, v), (v: nat) => InflowSum(adj, rank, v);
    TotalIs(adj, next, total);
    InflowTotalIs(adj, rank, into);
    SumDamped(adj.Keys, total, base, damping, into, dangling);
    var spread := Mul(|adj.Keys| as real, dangling);
    assert SumOver(adj.Keys, into) + spread == Total(adj, rank) - LostSum(adj, rank);
  }

  lemma TotalIs(adj: Adjacency, rank: map<nat, real>, f: nat -> real)
    requires forall v :: v in adj ==> f(v) == RankOf(rank, v)
    ensures Total(adj, rank) == SumOver(adj.Keys, f)
  {
    hide SumOver, RankOf;
    SumSame(adj.Keys, (v: nat) => RankOf(rank, v), f);
  }

  lemma InflowTotalIs(adj: Adjacency, rank: map<nat, real>, f: nat -> real)
    requires forall v :: v in adj ==> f(v) == InflowSum(adj, rank, v)
    ensures InflowTotal(adj, rank) == SumOver(adj.Keys, f)
  {
    hide SumOver, InflowSum;
    SumSame(adj.Keys, (v: nat) => InflowSum(adj, rank, v), f);
  }

  lemma SumDamped(keys: set<nat>, total: nat -> real, base: real, damping: real, into: nat -> real, dangling: real)
    requires forall v :: v in keys ==> total(v) == base + Mul(damping, into(v) + dangling)
    ensures SumOver(keys, total) ==
            Mul(|keys| as real, base) + Mul(damping, SumOver(keys, into) + Mul(|keys| as real, dangling))
  {
    hide SumOver, Mul;
    var received := (v: nat) => into(v) + dangling;
    var damped := (v: nat) => Mul(damping, received(v));
    var even, flat := (v: nat) => dangling, (v: nat) => base;
    SumAdd(keys, total, flat, damped);
    SumConstant(keys, flat, base);
    SumScale(keys, damped, damping, received);
    SumAdd(keys, received, into, even);
    SumConstant(keys, even, dangling);
  }

  /** The inflow of all keys and the idle rank are the total but for the loss. */
  lemma KeptTotal(adj: Adjacency, rank: map<nat, real>)
    ensures InflowTotal(adj, rank) + IdleSum(adj, rank) == Total(adj, rank) - LostSum(adj, rank)
  {
    var keys := adj.Keys;
    var f := (u: nat, v: nat) => Inflow(adj, rank, u, v);
    SumSwap(keys, keys, f);
    var kept := (u: nat) => Kept(Out(adj, u), Share(Out(adj, u), RankOf(rank, u)), keys);
    var sent := (u: nat) => SumOver(keys, (v: nat) => f(u, v));
    forall u | u in keys ensures sent(u) == kept(u) {
      SumFlow(Out(adj, u), Share(Out(adj, u), RankOf(rank, u)), keys);
      SumSame(keys, (v: nat) => f(u, v), (v: nat) => Flow(Out(adj, u), Share(Out(adj, u), RankOf(rank, u)), v));
    }
    SumSame(keys, sent, kept);
    var into := (v: nat) => InflowSum(adj, rank, v);
    var columns := (v: nat) => SumOver(keys, (u: nat) => f(u, v));
    forall v | v in keys ensures into(v) == columns(v) {
      SumSame(keys, (u: nat) => Inflow(adj, rank, u, v), (u: nat) => f(u, v));
    }
    SumSame(keys, into, columns);
    KeptIdleLost(adj, rank, kept);
  }

  lemma KeptIdleLost(adj: Adjacency, rank: map<nat, real>, kept: nat -> real)
    requires forall u :: kept(u) == Kept(Out(adj, u), Share(Out(adj, u), RankOf(rank, u)), adj.Keys)
    ensures SumOver(adj.Keys, kept) + IdleSum(adj, rank) + LostSum(adj, rank) == Total(adj, rank)
  {
    var keys := adj.Keys;
    var idle, lost := (u: nat) => Idle(adj, rank, u), (u: nat) => Lost(adj, rank, u);
    var whole := (u: nat) => RankOf(rank, u);
    var used := (u: nat) => kept(u) + idle(u);
    SumAdd(keys, used, kept, idle);
    forall u | u in keys ensures whole(u) == used(u) + lost(u) {
      VertexSplit(adj, rank, u);
    }
    SumAdd(keys, whole, used, lost);
  }

  // --- the theorems

  lemma UniformTotal(adj: Adjacency, damping: real)
    requires adj != map[]
    ensures Total(adj, Ranks(adj, damping, 0)) == 1.0
  {
    hide SumOver;
    KeysPositive(adj);
    var n := |adj.Keys|;
    var rank := Ranks(adj, damping, 0);
    SumConstant(adj.Keys, (v: nat) => RankOf(rank, v), 1.0 / n as real);
    ShareWhole(n, 1.0);
  }

  lemma StepTotal(adj: Adjacency, damping: real, k: nat)
    requires adj != map[]
    ensures Total(adj, Ranks(adj, damping, k + 1)) ==
            (1.0 - damping) + Mul(damping, Total(adj, Ranks(adj, damping, k)) - LostSum(adj, Ranks(adj, damping, k)))
  {
    hide Mul, Total, LostSum, NextRank;
    NextTotal(adj, damping, Ranks(adj, damping, k), Ranks(adj, damping, k + 1));
  }

  /** If every edge leads to an adjacency key, the total rank is exactly 1
      after any number of iterations, for any damping. */
  lemma {:induction false} MassConserved(adj: Adjacency, damping: real, k: nat)
    requires adj != map[] && TargetsAreKeys(adj)
    ensures Total(adj, Ranks(adj, damping, k)) == 1.0
  {
    hide Total, LostSum, Mul, Ranks;
    if k == 0 {
      UniformTotal(adj, damping);
    } else {
      MassConserved(adj, damping, k - 1);
      StepTotal(adj, damping, k - 1);
      NothingLost(adj, Ranks(adj, damping, k - 1));
      assert Mul(damping, 1.0) == damping by { MulOne(damping); }
    }
  }

  lemma MulOne(x: real)
    ensures Mul(x, 1.0) == x
  {
  }

  lemma NothingLost(adj: Adjacency, rank: map<nat, real>)
    requires TargetsAreKeys(adj)
    ensures LostSum(adj, rank) == 0.0
  {
    hide SumOver, TargetsAreKeys, Lost;
    forall u | u in adj ensures Lost(adj, rank, u) == 0.0 {
      NothingLostAt(adj, rank, u);
    }
    SumConstant(adj.Keys, (u: nat) => Lost(adj, rank, u), 0.0);
  }

  lemma NothingLostAt(adj: Adjacency, rank: map<nat, real>, u: nat)
    requires TargetsAreKeys(adj) && u in adj
    ensures Lost(adj, rank, u) == 0.0
  {
    hide Out, Spilled, Share;
    SpilledZero(Out(adj, u), Share(Out(adj, u), RankOf(rank, u)), adj.Keys);
  }

  /** An edge to a vertex that is not a key loses rank at the first iteration. */
  lemma SomethingLost(adj: Adjacency, damping: real)
    requires adj != map[] && !TargetsAreKeys(adj)
    ensures LostSum(adj, Ranks(adj, damping, 0)) > 0.0
  {
    hide SumOver, Out, Lost;
    KeysPositive(adj);
    var rank := Ranks(adj, damping, 0);
    var u, e :| u in adj && e in Out(adj, u) && e.target !in adj;
    ShareWhole(|adj.Keys|, 1.0);
    forall v | v in adj ensures Lost(adj, rank, v) >= 0.0 {
      LostSign(adj, rank, v);
    }
    LostSign(adj, rank, u);
    SumNonNegative(adj.Keys, (v: nat) => Lost(adj, rank, v));
    assert u in adj.Keys;
  }

  lemma NonZeroProduct(d: real, x: real)
    requires d != 0.0 && x > 0.0
    ensures (1.0 - d) + Mul(d, 1.0 - x) != 1.0
  {
    assert d * (1.0 - x) == d - d * x;
    assert d * x != 0.0;
  }

  lemma {:induction false} FlowNonNegative(edges: seq<Edge>, share: real, node: nat)
    requires share >= 0.0
    ensures Flow(edges, share, node) >= 0.0
  {
    if edges != [] {
      FlowNonNegative(edges[..|edges| - 1], share, node);
    }
  }

  /** With damping in [0, 1] no rank is negative, and from the first iteration
      on each is at least (1 - damping) / n. */
  lemma {:induction false} RankFloor(adj: Adjacency, damping: real, k: nat, v: nat)
    requires v in adj && 0.0 <= damping <= 1.0
    ensures v in Ranks(adj, damping, k)
    ensures Ranks(adj, damping, k)[v] >= if k == 0 then 0.0 else (1.0 - damping) / |adj.Keys| as real
    ensures Ranks(adj, damping, k)[v] >= 0.0
  {
    hide NextRank;
    KeysPositive(adj);
    ShareWhole(|adj.Keys|, 1.0);
    ShareWhole(|adj.Keys|, 1.0 - damping);
    if k > 0 {
      var rank := Ranks(adj, damping, k - 1);
      forall u | u in adj ensures RankOf(rank, u) >= 0.0 {
        RankFloor(adj, damping, k - 1, u);
      }
      NextFloor(adj, damping, rank, v);
    }
  }

  lemma NextFloor(adj: Adjacency, damping: real, rank: map<nat, real>, v: nat)
    requires adj != map[] && 0.0 <= damping && forall u :: u in adj ==> RankOf(rank, u) >= 0.0
    ensures NextRank(adj, damping, rank, v) >= (1.0 - damping) / |adj.Keys| as real
  {
    hide SumOver;
    KeysPositive(adj);
    forall u | u in adj ensures Inflow(adj, rank, u, v) >= 0.0 && Idle(adj, rank, u) >= 0.0 {
      if Out(adj, u) != [] {
        ShareWhole(|Out(adj, u)|, RankOf(rank, u));
        FlowNonNegative(Out(adj, u), Share(Out(adj, u), RankOf(rank, u)), v);
      }
    }
    hide Inflow, Idle, Out;
    SumNonNegative(adj.Keys, (u: nat) => Inflow(adj, rank, u, v));
    SumNonNegative(adj.Keys, (u: nat) => Idle(adj, rank, u));
    var received := InflowSum(adj, rank, v) + IdleSum(adj, rank) / |adj.Keys| as real;
    ShareWhole(|adj.Keys|, IdleSum(adj, rank));
    assert received >= 0.0;
    assert Mul(damping, received) >= 0.0;
  }

  /** Whatever the damping, the total rank stays 1 through all iterations
      exactly when no edge leaves the adjacency keys, or damping switches the
      edges off. */
  lemma MassAlwaysConservedIff(adj: Adjacency, damping: real)
    requires adj != map[]
    ensures (forall k: nat :: Total(adj, Ranks(adj, damping, k)) == 1.0) <==> (damping == 0.0 || TargetsAreKeys(adj))
  {
    hide Total, LostSum, Ranks;
    UniformTotal(adj, damping);
    StepTotal(adj, damping, 0);
    if TargetsAreKeys(adj) {
      forall k: nat ensures Total(adj, Ranks(adj, damping, k)) == 1.0 {
        MassConserved(adj, damping, k);
      }
    } else if damping == 0.0 {
      forall k: nat ensures Total(adj, Ranks(adj, damping, k)) == 1.0 {
        if k == 0 {
          UniformTotal(adj, damping);
        } else {
          StepTotal(adj, damping, k - 1);
        }
      }
    } else {
      SomethingLost(adj, damping);
      NonZeroProduct(damping, LostSum(adj, Ranks(adj, damping, 0)));
      assert Total(adj, Ranks(adj, damping, 1)) != 1.0;
    }
  }

  lemma LostNonNegative(adj: Adjacency, damping: real, k: nat)
    requires 0.0 <= damping <= 1.0
    ensures LostSum(adj, Ranks(adj, damping, k)) >= 0.0
  {
    hide SumOver, Lost, NextRank, Ranks;
    var rank := Ranks(adj, damping, k);
    forall v | v in adj ensures Lost(adj, rank, v) >= 0.0 {
      RankFloor(adj, damping, k, v);
      LostSign(adj, rank, v);
    }
    SumNonNegative(adj.Keys, (v: nat) => Lost(adj, rank, v));
  }

  /** Once rank has leaked, it never comes back. */
  lemma {:induction false} MassLost(adj: Adjacency, damping: real, k: nat)
    requires adj != map[] && !TargetsAreKeys(adj) && 0.0 < damping <= 1.0 && k > 0
    ensures Total(adj, Ranks(adj, damping, k)) < 1.0
  {
    hide Total, LostSum, Ranks, Mul, TargetsAreKeys;
    var before := Ranks(adj, damping, k - 1);
    StepTotal(adj, damping, k - 1);
    if k == 1 {
      UniformTotal(adj, damping);
      SomethingLost(adj, damping);
    } else {
      MassLost(adj, damping, k - 1);
      LostNonNegative(adj, damping, k - 1);
    }
    LessProduct(damping, Total(adj, before) - LostSum(adj, before));
  }

  lemma LessProduct(d: real, x: real)
    requires d > 0.0 && x < 1.0
    ensures (1.0 - d) + Mul(d, x) < 1.0
  {
    assert d * (1.0 - x) > 0.0;
  }

  /** For one call with damping in [0, 1] and at least one iteration: the ranks
      it returns add up to 1 if and only if every edge leads to an adjacency
      key, or damping is 0. */
  lemma MassConservedIff(adj: Adjacency, damping: real, k: nat)
    requires adj != map[] && 0.0 <= damping <= 1.0 && k > 0
    ensures Total(adj, Ranks(adj, damping, k)) == 1.0 <==> damping == 0.0 || TargetsAreKeys(adj)
  {
    hide Total, LostSum, Ranks, Mul, TargetsAreKeys;
    if TargetsAreKeys(adj) {
      MassConserved(adj, damping, k);
    } else if damping == 0.0 {
      StepTotal(adj, damping, k - 1);
      MulZero(Total(adj, Ranks(adj, damping, k - 1)) - LostSum(adj, Ranks(adj, damping, k - 1)));
    } else {
      MassLost(adj, damping, k);
    }
  }

  lemma MulZero(x: real)
    ensures Mul(0.0, x) == 0.0
  {
  }

  // --- contraction

  function Abs(x: real): (r: real)
    ensures r >= 0.0
  {
    if x >= 0.0 then x else -x
  }

  /** How far two rank vectors are apart, vertex by vertex. */
  ghost function Gap(adj: Adjacency, r: map<nat, real>, s: map<nat, real>): map<nat, real> {
    map v | v in adj :: Abs(RankOf(r, v) - RankOf(s, v))
  }

  ghost function Apart(adj: Adjacency, r: map<nat, real>, s: map<nat, real>): real {
    Total(adj, Gap(adj, r, s))
  }

  lemma {:induction false} SumAbs(s: set<nat>, f: nat -> real, g: nat -> real, h: nat -> real)
    requires forall x :: x in s ==> Abs(f(x) - g(x)) <= h(x)
    ensures Abs(SumOver(s, f) - SumOver(s, g)) <= SumOver(s, h)
  {
    if s != {} {
      var x :| x in s;
      SumAny(s, f, x);
      SumAny(s, g, x);
      SumAny(s, h, x);
      SumAbs(s - {x}, f, g, h);
    }
  }

  lemma {:induction false} SumMonotone(s: set<nat>, f: nat -> real, g: nat -> real)
    requires forall x :: x in s ==> f(x) <= g(x)
    ensures SumOver(s, f) <= SumOver(s, g)
  {
    if s != {} {
      var x :| x in s;
      SumAny(s, f, x);
      SumAny(s, g, x);
      SumMonotone(s - {x}, f, g);
    }
  }

  lemma {:induction false} FlowDifference(edges: seq<Edge>, x: real, y: real, node: nat)
    ensures Flow(edges, x, node) - Flow(edges, y, node) == Flow(edges, x - y, node)
  {
    if edges != [] {
      FlowDifference(edges[..|edges| - 1], x, y, node);
    }
  }

  lemma FlowGap(edges: seq<Edge>, x: real, y: real, node: nat)
    ensures Abs(Flow(edges, x, node) - Flow(edges, y, node)) == Flow(edges, Abs(x - y), node)
  {
    hide Flow;
    FlowDifference(edges, x, y, node);
    FlowDifference(edges, y, x, node);
    FlowNonNegative(edges, Abs(x - y), node);
  }

  lemma ShareGap(edges: seq<Edge>, a: real, b: real)
    ensures Abs(Share(edges, a) - Share(edges, b)) == Share(edges, Abs(a - b))
  {
    if edges != [] {
      var n := |edges| as real;
      assert a / n - b / n == (a - b) / n;
      ShareWhole(|edges|, Abs(a - b));
    }
  }

  lemma GapAt(adj: Adjacency, r: map<nat, real>, s: map<nat, real>, u: nat)
    requires u in adj
    ensures RankOf(Gap(adj, r, s), u) == Abs(RankOf(r, u) - RankOf(s, u))
  {
  }

  lemma InflowGap(adj: Adjacency, r: map<nat, real>, s: map<nat, real>, node: nat)
    ensures Abs(InflowSum(adj, r, node) - InflowSum(adj, s, node)) <= InflowSum(adj, Gap(adj, r, s), node)
  {
    hide SumOver, Flow, Share, Abs, Gap;
    var gap := Gap(adj, r, s);
    forall u | u in adj ensures Abs(Inflow(adj, r, u, node) - Inflow(adj, s, u, node)) <= Inflow(adj, gap, u, node) {
      GapAt(adj, r, s, u);
      ShareGap(Out(adj, u), RankOf(r, u), RankOf(s, u));
      FlowGap(Out(adj, u), Share(Out(adj, u), RankOf(r, u)), Share(Out(adj, u), RankOf(s, u)), node);
    }
    hide Inflow;
    SumAbs(adj.Keys, (u: nat) => Inflow(adj, r, u, node), (u: nat) => Inflow(adj, s, u, node),
           (u: nat) => Inflow(adj, gap, u, node));
  }

  lemma IdleGap(adj: Adjacency, r: map<nat, real>, s: map<nat, real>)
    ensures Abs(IdleSum(adj, r) - IdleSum(adj, s)) <= IdleSum(adj, Gap(adj, r, s))
  {
    hide SumOver, Gap;
    var gap := Gap(adj, r, s);
    forall u | u in adj ensures Abs(Idle(adj, r, u) - Idle(adj, s, u)) <= Idle(adj, gap, u) {
      GapAt(adj, r, s, u);
    }
    hide Idle, Abs;
    SumAbs(adj.Keys, (u: nat) => Idle(adj, r, u), (u: nat) => Idle(adj, s, u), (u: nat) => Idle(adj, gap, u));
  }

  /** What one vertex is off by after an iteration is at most what it would
      receive if the gaps were ranks, but for the base. */
  lemma NextGap(adj: Adjacency, damping: real, r: map<nat, real>, s: map<nat, real>, v: nat)
    requires adj != map[] && 0.0 <= damping
    ensures Abs(NextRank(adj, damping, r, v) - NextRank(adj, damping, s, v)) <=
            NextRank(adj, damping, Gap(adj, r, s), v) - (1.0 - damping) / |adj.Keys| as real
  {
    hide InflowSum, IdleSum, Gap, Abs;
    KeysPositive(adj);
    InflowGap(adj, r, s, v);
    IdleGap(adj, r, s);
    var gap := Gap(adj, r, s);
    DampedGap(damping, |adj.Keys|, InflowSum(adj, r, v), InflowSum(adj, s, v), InflowSum(adj, gap, v),
              IdleSum(adj, r), IdleSum(adj, s), IdleSum(adj, gap));
  }

  lemma DampedGap(damping: real, n: nat, a: real, b: real, c: real, x: real, y: real, z: real)
    requires n > 0 && damping >= 0.0 && Abs(a - b) <= c && Abs(x - y) <= z
    ensures Abs(((1.0 - damping) / n as real + Mul(damping, a + x / n as real)) -
                ((1.0 - damping) / n as real + Mul(damping, b + y / n as real))) <= Mul(damping, c + z / n as real)
  {
    var m := n as real;
    var p, q, t := a + x / m, b + y / m, c + z / m;
    assert Abs(x / m - y / m) <= z / m by { DividedGap(m, x, y, z); }
    assert Abs(p - q) <= t;
    ScaledGap(damping, p, q, t);
  }

  lemma DividedGap(m: real, x: real, y: real, z: real)
    requires m > 0.0 && Abs(x - y) <= z
    ensures Abs(x / m - y / m) <= z / m
  {
    assert x / m - y / m == (x - y) / m;
    assert (z - (x - y)) / m >= 0.0 && (z + (x - y)) / m >= 0.0;
  }

  lemma ScaledGap(d: real, p: real, q: real, t: real)
    requires d >= 0.0 && Abs(p - q) <= t
    ensures Abs(Mul(d, p) - Mul(d, q)) <= Mul(d, t)
  {
    assert d * p - d * q == d * (p - q);
    assert d * (t - (p - q)) >= 0.0 && d * (t + (p - q)) >= 0.0;
  }

  /** One iteration brings any two rank vectors together by at least the factor
      damping. */
  lemma Contraction(adj: Adjacency, damping: real, r: map<nat, real>, s: map<nat, real>, r': map<nat, real>,
                    s': map<nat, real>)
    requires adj != map[] && 0.0 <= damping <= 1.0
    requires forall v :: v in adj ==> v in r' && r'[v] == NextRank(adj, damping, r, v)
    requires forall v :: v in adj ==> v in s' && s'[v] == NextRank(adj, damping, s, v)
    ensures Apart(adj, r', s') <= Mul(damping, Apart(adj, r, s))
  {
    hide NextRank, Abs, Gap, Mul, SumOver, LostSum;
    var gap := Gap(adj, r, s);
    var next := map v | v in adj :: NextRank(adj, damping, gap, v);
    NextTotal(adj, damping, gap, next);
    KeysPositive(adj);
    var base := (1.0 - damping) / |adj.Keys| as real;
    ShareWhole(|adj.Keys|, 1.0 - damping);
    GapsAdd(adj, damping, r, s, r', s', next, base);
    GapLost(adj, r, s);
    LessLost(damping, Total(adj, gap), LostSum(adj, gap));
  }

  lemma GapsAdd(adj: Adjacency, damping: real, r: map<nat, real>, s: map<nat, real>, r': map<nat, real>,
                s': map<nat, real>, next: map<nat, real>, base: real)
    requires adj != map[] && 0.0 <= damping && base == (1.0 - damping) / |adj.Keys| as real
    requires forall v :: v in adj ==> v in r' && r'[v] == NextRank(adj, damping, r, v)
    requires forall v :: v in adj ==> v in s' && s'[v] == NextRank(adj, damping, s, v)
    requires forall v :: v in adj ==> v in next && next[v] == NextRank(adj, damping, Gap(adj, r, s), v)
    ensures Apart(adj, r', s') <= Total(adj, next) - Mul(|adj.Keys| as real, base)
  {
    hide NextRank, Abs, Gap, SumOver, Total, Mul;
    var gap' := Gap(adj, r', s');
    var off, most, flat := (v: nat) => RankOf(gap', v), (v: nat) => RankOf(next, v) - base, (v: nat) => base;
    var whole := (v: nat) => RankOf(next, v);
    TotalIs(adj, gap', off);
    TotalIs(adj, next, whole);
    forall v | v in adj ensures off(v) <= most(v) {
      GapAt(adj, r', s', v);
      NextGap(adj, damping, r, s, v);
    }
    SumMonotone(adj.Keys, off, most);
    SumAdd(adj.Keys, whole, most, flat);
    SumConstant(adj.Keys, flat, base);
    assert Apart(adj, r', s') == SumOver(adj.Keys, off) <= SumOver(adj.Keys, most);
    assert SumOver(adj.Keys, whole) == SumOver(adj.Keys, most) + SumOver(adj.Keys, flat);
  }

  lemma GapLost(adj: Adjacency, r: map<nat, real>, s: map<nat, real>)
    ensures LostSum(adj, Gap(adj, r, s)) >= 0.0
  {
    hide SumOver, Lost, Gap, Abs;
    var gap := Gap(adj, r, s);
    forall v | v in adj ensures Lost(adj, gap, v) >= 0.0 {
      GapAt(adj, r, s, v);
      LostSign(adj, gap, v);
    }
    SumNonNegative(adj.Keys, (v: nat) => Lost(adj, gap, v));
  }

  lemma LessLost(d: real, total: real, lost: real)
    requires d >= 0.0 && lost >= 0.0
    ensures Mul(d, total - lost) <= Mul(d, total)
  {
    assert d * lost >= 0.0 && d * (total - lost) == d * total - d * lost;
  }

  ghost predicate Steady(adj: Adjacency, damping: real, r: map<nat, real>)
    requires adj != map[]
  {
    r.Keys == adj.Keys && forall v :: v in adj ==> r[v] == NextRank(adj, damping, r, v)
  }

  /** Below damping 1 at most one rank vector is left unchanged by an iteration. */
  lemma SteadyUnique(adj: Adjacency, damping: real, r: map<nat, real>, s: map<nat, real>)
    requires adj != map[] && 0.0 <= damping < 1.0 && Steady(adj, damping, r) && Steady(adj, damping, s)
    ensures r == s
  {
    hide NextRank, Abs, Gap, SumOver, Mul;
    Contraction(adj, damping, r, s, r, s);
    var gap := Gap(adj, r, s);
    forall v | v in adj ensures RankOf(gap, v) == Abs(r[v] - s[v]) {
      GapAt(adj, r, s, v);
    }
    SumNonNegative(adj.Keys, (v: nat) => RankOf(gap, v));
    ShrunkToNothing(damping, Apart(adj, r, s));
    forall v | v in adj ensures r[v] == s[v] {
      assert v in adj.Keys;
      AbsZero(r[v] - s[v]);
    }
  }

  lemma ShrunkToNothing(d: real, x: real)
    requires 0.0 <= d < 1.0 && x >= 0.0 && x <= Mul(d, x)
    ensures x == 0.0
  {
    assert (1.0 - d) * x == x - d * x;
    assert x > 0.0 ==> (1.0 - d) * x > 0.0;
  }

  lemma AbsZero(x: real)
    requires Abs(x) <= 0.0
    ensures x == 0.0
  {
  }

  ghost function Power(x: real, k: nat): real {
    if k == 0 then 1.0 else Mul(x, Power(x, k - 1))
  }

  /** After k iterations the ranks are damping to the power k times as far from
      any rank vector that an iteration leaves unchanged. */
  lemma {:induction false} Approach(adj: Adjacency, damping: real, r: map<nat, real>, k: nat)
    requires adj != map[] && 0.0 <= damping <= 1.0 && Steady(adj, damping, r)
    ensures Apart(adj, Ranks(adj, damping, k), r) <= Mul(Power(damping, k), Apart(adj, Ranks(adj, damping, 0), r))
  {
    hide Mul, Apart, NextRank;
    var start := Apart(adj, Ranks(adj, damping, 0), r);
    if k == 0 {
      MulUnit(start);
    } else {
      var before := Ranks(adj, damping, k - 1);
      Approach(adj, damping, r, k - 1);
      Contraction(adj, damping, before, r, Ranks(adj, damping, k), r);
      MulMonotone(damping, Apart(adj, before, r), Mul(Power(damping, k - 1), start));
      MulAssociates(damping, Power(damping, k - 1), start);
    }
  }

  /** However many iterations more: k iterations leave of the difference that they
      make at the start damping to the power k. */
  lemma {:induction false} Shrinks(adj: Adjacency, damping: real, k: nat, m: nat)
    requires adj != map[] && 0.0 <= damping <= 1.0
    ensures Apart(adj, Ranks(adj, damping, k + m), Ranks(adj, damping, k)) <=
            Mul(Power(damping, k), Apart(adj, Ranks(adj, damping, m), Ranks(adj, damping, 0)))
  {
    hide Mul, Apart, NextRank;
    var start := Apart(adj, Ranks(adj, damping, m), Ranks(adj, damping, 0));
    if k == 0 {
      MulUnit(start);
    } else {
      var later, before := Ranks(adj, damping, k - 1 + m), Ranks(adj, damping, k - 1);
      Shrinks(adj, damping, k - 1, m);
      Contraction(adj, damping, later, before, Ranks(adj, damping, k + m), Ranks(adj, damping, k));
      MulMonotone(damping, Apart(adj, later, before), Mul(Power(damping, k - 1), start));
      MulAssociates(damping, Power(damping, k - 1), start);
    }
  }

  lemma MulUnit(x: real)
    ensures Mul(1.0, x) == x
  {
  }

  lemma MulMonotone(d: real, x: real, y: real)
    requires d >= 0.0 && x <= y
    ensures Mul(d, x) <= Mul(d, y)
  {
    assert d * (y - x) >= 0.0;
  }

  lemma MulAssociates(x: real, y: real, z: real)
    ensures Mul(x, Mul(y, z)) == Mul(Mul(x, y), z)
  {
  }

  lemma {:induction false} PowerNonNegative(d: real, k: nat)
    requires d >= 0.0
    ensures Power(d, k) >= 0.0
  {
    if k > 0 {
      PowerNonNegative(d, k - 1);
      assert d * Power(d, k - 1) >= 0.0;
    }
  }

  /** Powers below 1 fall at least as fast as 1 / (1 + k (1 - d)). */
  lemma {:induction false} PowerFalls(d: real, k: nat)
    requires 0.0 <= d <= 1.0
    ensures Mul(Power(d, k), 1.0 + Mul(k as real, 1.0 - d)) <= 1.0
  {
    if k > 0 {
      PowerFalls(d, k - 1);
      PowerNonNegative(d, k - 1);
      FallStep(d, Power(d, k - 1), (k - 1) as real);
    }
  }

  lemma FallStep(d: real, p: real, k: real)
    requires 0.0 <= d <= 1.0 && p >= 0.0 && k >= 0.0
    requires Mul(p, 1.0 + Mul(k, 1.0 - d)) <= 1.0
    ensures Mul(Mul(d, p), 1.0 + Mul(k + 1.0, 1.0 - d)) <= 1.0
  {
    var e := 1.0 - d;
    var now, before := 1.0 + (k + 1.0) * e, 1.0 + k * e;
    assert d * now == before - (k + 1.0) * (e * e);
    assert (k + 1.0) * (e * e) >= 0.0;
    MulMonotone(p, d * now, before);
    assert (d * p) * now == p * (d * now);
  }

  lemma PowerBelow(d: real, x: real, epsilon: real, n: nat, k: nat)
    requires 0.0 <= d < 1.0 && x >= 0.0 && epsilon > 0.0 && n <= k
    requires x <= Mul(Mul(n as real, 1.0 - d), epsilon)
    ensures Mul(Power(d, k), x) <= epsilon
  {
    hide Power;
    var p, e := Power(d, k), 1.0 - d;
    PowerFalls(d, k);
    PowerNonNegative(d, k);
    assert n as real * e <= k as real * e by { MulMonotone(e, n as real, k as real); }
    MulMonotone(epsilon, n as real * e, k as real * e);
    MulMonotone(p, x, k as real * e * epsilon);
    assert p * (k as real * e * epsilon) == p * (k as real * e) * epsilon;
    assert p * (k as real * e) <= 1.0 by {
      assert p * (1.0 + k as real * e) == p + p * (k as real * e);
    }
    MulMonotone(epsilon, p * (k as real * e), 1.0);
  }

  lemma EnoughRounds(e: real, epsilon: real, x: real) returns (n: nat)
    requires e > 0.0 && epsilon > 0.0 && x >= 0.0
    ensures x <= Mul(Mul(n as real, e), epsilon)
  {
    var unit := e * epsilon;
    assert unit > 0.0;
    var q := x / unit;
    assert q >= 0.0 && q * unit == x;
    n := q.Floor + 1;
    MulMonotone(unit, q, n as real);
    assert n as real * e * epsilon == unit * n as real;
  }

  lemma ApartNonNegative(adj: Adjacency, r: map<nat, real>, s: map<nat, real>)
    ensures Apart(adj, r, s) >= 0.0
  {
    hide SumOver, Gap, Abs;
    var gap := Gap(adj, r, s);
    forall v | v in adj.Keys ensures RankOf(gap, v) >= 0.0 {
      GapAt(adj, r, s, v);
      assert Abs(RankOf(r, v) - RankOf(s, v)) >= 0.0;
    }
    SumNonNegative(adj.Keys, (v: nat) => RankOf(gap, v));
  }

  /** Below damping 1 the ranks converge to the rank vector that an iteration
      leaves unchanged. */
  lemma Converges(adj: Adjacency, damping: real, r: map<nat, real>, epsilon: real)
    returns (n: nat)
    requires adj != map[] && 0.0 <= damping < 1.0 && Steady(adj, damping, r) && epsilon > 0.0
    ensures forall k: nat :: k >= n ==> Apart(adj, Ranks(adj, damping, k), r) <= epsilon
  {
    hide Mul, Apart, NextRank, Ranks, Power;
    var start := Apart(adj, Ranks(adj, damping, 0), r);
    ApartNonNegative(adj, Ranks(adj, damping, 0), r);
    n := EnoughRounds(1.0 - damping, epsilon, start);
    forall k: nat | k >= n ensures Apart(adj, Ranks(adj, damping, k), r) <= epsilon {
      Approach(adj, damping, r, k);
      PowerBelow(damping, start, epsilon, n, k);
    }
  }

  // --- the algorithm

  lemma {:induction false} SumList(nodes: seq<nat>, f: nat -> real, i: nat)
    requires Distinct(nodes) && i < |nodes|
    ensures SumOver(Elems(nodes[..i + 1]), f) == SumOver(Elems(nodes[..i]), f) + f(nodes[i])
  {
    hide SumOver;
    ElemsAppend(nodes[..i], nodes[i]);
    assert nodes[..i + 1] == nodes[..i] + [nodes[i]];
    assert nodes[i] !in nodes[..i];
    SumAny(Elems(nodes[..i + 1]), f, nodes[i]);
    assert Elems(nodes[..i + 1]) - {nodes[i]} == Elems(nodes[..i]);
  }

  method Dangling(graph: Graph, nodes: seq<nat>, rank: map<nat, real>) returns (dangling: real)
    requires Distinct(nodes) && Elems(nodes) == graph.adjacency.Keys == rank.Keys && nodes != []
    ensures dangling == IdleSum(graph.adjacency, rank) / |nodes| as real
  {
    hide SumOver, Distinct;
    ghost var adj := graph.adjacency;
    ghost var idle := (u: nat) => Idle(adj, rank, u);
    var sum := 0.0;
    var i := 0;
    assert nodes[..0] == [];
    ElemsNonempty<nat>([]);
    SumConstant({}, idle, 0.0);
    while i < |nodes|
      invariant 0 <= i <= |nodes|
      invariant sum == SumOver(Elems(nodes[..i]), idle)
    {
      var node := nodes[i];
      assert node in Elems(nodes);
      SumList(nodes, idle, i);
      if graph.Neighbors(node) == [] {
        sum := sum + rank[node];
      }
      i := i + 1;
    }
    assert nodes[..i] == nodes;
    assert sum == IdleSum(adj, rank);
    dangling := sum / |nodes| as real;
  }

  /** The rank `node` receives over edges; the adjacency comes in any order. */
  method Received(graph: Graph, rank: map<nat, real>, node: nat) returns (sum: real)
    requires graph.adjacency.Keys == rank.Keys
    ensures sum == InflowSum(graph.adjacency, rank, node)
  {
    hide SumOver;
    ghost var adj := graph.adjacency;
    ghost var inflow := (u: nat) => Inflow(adj, rank, u, node);
    sum := 0.0;
    var rest := graph.adjacency.Keys;
    SumConstant({}, inflow, 0.0);
    assert adj.Keys - rest == {};
    while rest != {}
      invariant rest <= adj.Keys
      invariant sum == SumOver(adj.Keys - rest, inflow)
      decreases rest
    {
      var u :| u in rest;
      var edges := graph.adjacency[u];
      SumAny(adj.Keys - (rest - {u}), inflow, u);
      assert adj.Keys - (rest - {u}) - {u} == adj.Keys - rest;
      ghost var before := sum;
      if |edges| > 0 {
        var outDegree := |edges| as real;
        ghost var share := rank[u] / outDegree;
        var i := 0;
        while i < |edges|
          invariant 0 <= i <= |edges|
          invariant sum == before + Flow(edges[..i], share, node)
        {
          assert edges[..i + 1][..i] == edges[..i];
          if edges[i].target == node {
            sum := sum + rank[u] / outDegree;
          }
          i := i + 1;
        }
        assert edges[..i] == edges;
      }
      rest := rest - {u};
    }
    assert adj.Keys - rest == adj.Keys;
  }

  method PageRank(graph: Graph, damping: real, iterations: nat) returns (rank: map<nat, real>)
    ensures rank == Ranks(graph.adjacency, damping, iterations)
  {
    hide NextRank, StrictlyAscending, InflowSum, IdleSum, Ranks, Distinct, Mul, NewRank, Filled;
    ghost var adj := graph.adjacency;
    var nodes := graph.Nodes();
    ElemsNonempty(nodes);
    if nodes == [] {
      assert adj.Keys == {};
      RanksEmpty(adj, damping, iterations);
      return map[];
    }
    assert Distinct(nodes) by { AscendingDistinct(nodes); }
    DistinctSize(nodes);
    var n := |nodes|;
    rank := map v | v in Elems(nodes) :: 1.0 / n as real;
    RanksStart(adj, damping, rank);
    var k := 0;
    while k < iterations
      invariant 0 <= k <= iterations
      invariant rank == Ranks(adj, damping, k) && rank.Keys == adj.Keys
    {
      var newRank: map<nat, real> := map[];
      var dangling := Dangling(graph, nodes, rank);
      FillStart(adj, damping, rank, nodes);
      var i := 0;
      while i < |nodes|
        invariant 0 <= i <= |nodes|
        invariant Filled(adj, damping, rank, nodes, i, newRank)
      {
        var node := nodes[i];
        var sum := Received(graph, rank, node);
        var pr := NewRank(n, damping, sum, dangling);
        NextRankIs(adj, damping, rank, node, pr, sum, dangling);
        FillStep(adj, damping, rank, nodes, i, newRank, pr);
        newRank := newRank[node := pr];
        i := i + 1;
      }
      FillEnd(adj, damping, rank, nodes, newRank);
      RanksStep(adj, damping, k, newRank);
      rank := newRank;
      k := k + 1;
    }
  }

  /** The new ranks of the first `i` nodes. */
  ghost predicate Filled(adj: Adjacency, damping: real, rank: map<nat, real>, nodes: seq<nat>, i: nat,
                         newRank: map<nat, real>) {
    && adj != map[] && i <= |nodes|
    && newRank.Keys == Elems(nodes[..i])
    && forall v :: v in newRank ==> newRank[v] == NextRank(adj, damping, rank, v)
  }

  lemma FillStart(adj: Adjacency, damping: real, rank: map<nat, real>, nodes: seq<nat>)
    requires adj != map[]
    ensures Filled(adj, damping, rank, nodes, 0, map[])
  {
    hide NextRank;
    assert nodes[..0] == [];
    ElemsNonempty(nodes[..0]);
  }

  lemma FillStep(adj: Adjacency, damping: real, rank: map<nat, real>, nodes: seq<nat>, i: nat,
                 newRank: map<nat, real>, pr: real)
    requires Filled(adj, damping, rank, nodes, i, newRank) && i < |nodes|
    requires pr == NextRank(adj, damping, rank, nodes[i])
    ensures Filled(adj, damping, rank, nodes, i + 1, newRank[nodes[i] := pr])
  {
    hide NextRank;
    ElemsGrow(nodes, i);
  }

  lemma FillEnd(adj: Adjacency, damping: real, rank: map<nat, real>, nodes: seq<nat>, newRank: map<nat, real>)
    requires Filled(adj, damping, rank, nodes, |nodes|, newRank)
    ensures newRank.Keys == Elems(nodes)
    ensures forall v :: v in newRank ==> newRank[v] == NextRank(adj, damping, rank, v)
  {
    hide NextRank;
    assert nodes[..|nodes|] == nodes;
  }

  function NewRank(n: nat, damping: real, sum: real, dangling: real): real
    requires n > 0
  {
    (1.0 - damping) / n as real + Mul(damping, sum + dangling)
  }

  lemma ElemsGrow(nodes: seq<nat>, i: nat)
    requires i < |nodes|
    ensures Elems(nodes[..i + 1]) == Elems(nodes[..i]) + {nodes[i]}
  {
    ElemsAppend(nodes[..i], nodes[i]);
    assert nodes[..i + 1] == nodes[..i] + [nodes[i]];
  }

  lemma RanksEmpty(adj: Adjacency, damping: real, k: nat)
    requires adj.Keys == {}
    ensures Ranks(adj, damping, k) == map[]
  {
    assert adj == map[];
  }

  lemma RanksStart(adj: Adjacency, damping: real, rank: map<nat, real>)
    requires rank.Keys == adj.Keys != {} && forall v :: v in rank ==> rank[v] == 1.0 / |adj.Keys| as real
    ensures rank == Ranks(adj, damping, 0)
  {
  }

  lemma RanksStep(adj: Adjacency, damping: real, k: nat, next: map<nat, real>)
    requires next.Keys == adj.Keys != {}
    requires forall v :: v in next ==> next[v] == NextRank(adj, damping, Ranks(adj, damping, k), v)
    ensures next == Ranks(adj, damping, k + 1)
  {
    hide NextRank;
  }

  lemma NextRankIs(adj: Adjacency, damping: real, rank: map<nat, real>, node: nat, pr: real, sum: real, dangling: real)
    requires adj != map[] && sum == InflowSum(adj, rank, node)
    requires dangling == IdleSum(adj, rank) / |adj.Keys| as real
    requires |adj.Keys| > 0 && pr == NewRank(|adj.Keys|, damping, sum, dangling)
    ensures pr == NextRank(adj, damping, rank, node)
  {
    hide Mul, InflowSum, IdleSum;
  }

  lemma AscendingDistinct(s: seq<nat>)
    requires StrictlyAscending(s)
    ensures Distinct(s)
  {
  }

  /** One directed edge to a vertex that has no key: of the total rank 1 only
      1 - damping is left, after any number of iterations but none. */
  method LeakExample(damping: real, iterations: nat) returns (rank: map<nat, real>)
    requires iterations > 0
    ensures rank == map[0 := 1.0 - damping]
  {
    hide Ranks, Mul, NextRank;
    var graph := new Graph(true);
    graph.AddEdge(0, 1, 1.0);
    var adj := graph.adjacency;
    assert Out(map[], 0) + [Edge(1, 1.0)] == [Edge(1, 1.0)];
    assert adj == map[0 := [Edge(1, 1.0)]];
    rank := PageRank(graph, damping, iterations);
    LeakRanks(adj, damping, iterations);
  }

  lemma LeakRanks(adj: Adjacency, damping: real, k: nat)
    requires adj == map[0 := [Edge(1, 1.0)]] && k > 0
    ensures Ranks(adj, damping, k) == map[0 := 1.0 - damping]
  {
    var before := Ranks(adj, damping, k - 1);
    hide NextRank;
    assert 0 in adj && Ranks(adj, damping, k).Keys == {0};
    LeakNext(adj, damping, before);
  }

  lemma LeakNext(adj: Adjacency, damping: real, rank: map<nat, real>)
    requires adj == map[0 := [Edge(1, 1.0)]] && adj != map[]
    ensures NextRank(adj, damping, rank, 0) == 1.0 - damping
  {
    hide InflowSum, IdleSum, Mul;
    assert adj.Keys == {0} && |adj.Keys| as real == 1.0;
    LeakSums(adj, rank);
    TimesZero(damping);
  }

  lemma LeakSums(adj: Adjacency, rank: map<nat, real>)
    requires adj == map[0 := [Edge(1, 1.0)]]
    ensures InflowSum(adj, rank, 0) == 0.0 && IdleSum(adj, rank) == 0.0
  {
    hide SumOver, Mul, Inflow, Idle;
    assert adj.Keys == {0};
    LeakFlow(adj, rank);
    SumConstant(adj.Keys, (u: nat) => Inflow(adj, rank, u, 0), 0.0);
    SumConstant(adj.Keys, (u: nat) => Idle(adj, rank, u), 0.0);
    TimesZero(|adj.Keys| as real);
  }

  lemma LeakFlow(adj: Adjacency, rank: map<nat, real>)
    requires adj == map[0 := [Edge(1, 1.0)]]
    ensures Inflow(adj, rank, 0, 0) == 0.0 && Idle(adj, rank, 0) == 0.0
  {
    assert Out(adj, 0) == [Edge(1, 1.0)];
    FlowElsewhere(Out(adj, 0), Share(Out(adj, 0), RankOf(rank, 0)), 0);
  }

  lemma {:induction false} FlowElsewhere(edges: seq<Edge>, share: real, node: nat)
    requires forall e :: e in edges ==> e.target != node
    ensures Flow(edges, share, node) == 0.0
  {
    if edges != [] {
      FlowElsewhere(edges[..|edges| - 1], share, node);
    }
  }

  lemma TimesZero(d: real)
    ensures Mul(d, 0.0) == 0.0
  {
  }
}
