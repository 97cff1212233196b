/** The task graph of crates/algorithms/src/scheduling.rs:187-371: incremental
    cycle rejection, topological sort and the memoised critical path. */
module TaskGraphs {
  import opened Sorting
  import opened Linking

  datatype Task = Task(id: nat, name: string, cost: real, completed: bool)

  datatype AddResult = Added | TaskNotFound | WouldCycle

  function Push(links: Links, v: nat, x: nat): Links {
    links[v := Of(links, v) + [x]]
  }

  /** How often `x` is listed under `v`. */
  function Times(links: Links, v: nat, x: nat): nat {
    multiset(Of(links, v))[x]
  }

  // --- chains of dependents

  /** Each task of the chain is listed as a dependent of the one before it. */
  ghost predicate Chain(dependents: Links, c: seq<nat>) {
    forall i {:trigger c[i]} :: 0 < i < |c| ==> c[i] in Of(dependents, c[i - 1])
  }

  ghost predicate ChainBetween(dependents: Links, u: nat, v: nat, c: seq<nat>) {
    c != [] && Chain(dependents, c) && c[0] == u && c[|c| - 1] == v
  }

  ghost predicate Leads(dependents: Links, u: nat, v: nat) {
    exists c :: ChainBetween(dependents, u, v, c)
  }

  /** A chain of two tasks or more that ends where it starts. */
  ghost predicate IsCycle(dependents: Links, c: seq<nat>) {
    |c| >= 2 && Chain(dependents, c) && c[0] == c[|c| - 1]
  }

  ghost predicate Acyclic(dependents: Links) {
    forall c :: !IsCycle(dependents, c)
  }

  lemma ChainAppend(dependents: Links, c: seq<nat>, x: nat)
    requires c != [] && Chain(dependents, c) && x in Of(dependents, c[|c| - 1])
    ensures Chain(dependents, c + [x])
  {
    hide Of;
    var d := c + [x];
    forall i | 0 < i < |d| ensures d[i] in Of(dependents, d[i - 1]) {
      assert i < |c| ==> d[i] == c[i];
    }
  }

  lemma LeadsRefl(dependents: Links, v: nat)
    ensures Leads(dependents, v, v)
  {
    assert ChainBetween(dependents, v, v, [v]);
  }

  lemma LeadsStep(dependents: Links, u: nat, v: nat, w: nat)
    requires Leads(dependents, u, v) && w in Of(dependents, v)
    ensures Leads(dependents, u, w)
  {
    hide Of;
    var c :| ChainBetween(dependents, u, v, c);
    ChainAppend(dependents, c, w);
    assert ChainBetween(dependents, u, w, c + [w]);
  }

  /** A set that contains a chain's first task and all dependents of its
      members contains the whole chain. */
  lemma {:induction false} ChainWithin(dependents: Links, s: set<nat>, c: seq<nat>)
    requires c != [] && Chain(dependents, c) && c[0] in s
    requires forall v, w :: v in s && w in Of(dependents, v) ==> w in s
    ensures c[|c| - 1] in s
  {
    hide Of;
    var i := 0;
    while i + 1 < |c|
      invariant 0 <= i < |c| && c[i] in s
    {
      assert c[i + 1] in Of(dependents, c[i]);
      i := i + 1;
    }
  }

  // --- the invariant

  /** `rank` grows from every dependency to its dependents. */
  ghost predicate Ranked(ids: set<nat>, dependents: Links, rank: map<nat, nat>) {
    && rank.Keys == ids
    && forall d, t :: d in ids && t in Of(dependents, d) ==> t in ids && rank[d] < rank[t]
  }

  /** The two tables list the same links, copy for copy. */
  ghost predicate Converse(dependencies: Links, dependents: Links) {
    forall t, d :: Times(dependencies, t, d) == Times(dependents, d, t)
  }

  ghost predicate WellFormed(ids: set<nat>, dependencies: Links, dependents: Links, rank: map<nat, nat>) {
    && dependencies.Keys == ids && dependents.Keys == ids
    && Converse(dependencies, dependents)
    && Ranked(ids, dependents, rank)
  }

  lemma ConverseMember(dependencies: Links, dependents: Links, t: nat, d: nat)
    requires Converse(dependencies, dependents)
    ensures d in Of(dependencies, t) <==> t in Of(dependents, d)
  {
    assert Times(dependencies, t, d) == Times(dependents, d, t);
    assert d in Of(dependencies, t) <==> d in multiset(Of(dependencies, t));
    assert t in Of(dependents, d) <==> t in multiset(Of(dependents, d));
  }

  /** Along a chain the rank grows by at least one a step. */
  lemma {:induction false} ChainRank(ids: set<nat>, dependents: Links, rank: map<nat, nat>, c: seq<nat>)
    requires Ranked(ids, dependents, rank) && dependents.Keys == ids
    requires c != [] && Chain(dependents, c) && c[0] in ids
    ensures c[|c| - 1] in ids && rank[c[0]] + |c| - 1 <= rank[c[|c| - 1]]
  {
    hide Of;
    var i := 0;
    while i + 1 < |c|
      invariant 0 <= i < |c| && c[i] in ids && rank[c[0]] + i <= rank[c[i]]
    {
      assert c[i + 1] in Of(dependents, c[i]);
      i := i + 1;
    }
  }

  lemma RankedAcyclic(ids: set<nat>, dependents: Links, rank: map<nat, nat>)
    requires Ranked(ids, dependents, rank) && dependents.Keys == ids
    ensures Acyclic(dependents)
  {
    forall c ensures !IsCycle(dependents, c) {
      if |c| >= 2 && Chain(dependents, c) {
        assert c[1] in Of(dependents, c[0]);
        ChainRank(ids, dependents, rank, c);
      }
    }
  }

  /** A new task with no links. */
  lemma AddIsolated(ids: set<nat>, dependencies: Links, dependents: Links, rank: map<nat, nat>, id: nat)
    requires WellFormed(ids, dependencies, dependents, rank) && id !in ids
    ensures WellFormed(ids + {id}, dependencies[id := Of(dependencies, id)], dependents[id := Of(dependents, id)],
                       rank[id := 0])
  {
    var more, rev := dependencies[id := Of(dependencies, id)], dependents[id := Of(dependents, id)];
    assert forall v :: Of(more, v) == Of(dependencies, v) && Of(rev, v) == Of(dependents, v);
    hide Of;
    forall t, d ensures Times(more, t, d) == Times(rev, d, t) {
      assert Times(dependencies, t, d) == Times(dependents, d, t);
    }
    hide Times, Converse;
    assert Ranked(ids + {id}, rev, rank[id := 0]) by { IsolatedRanked(ids, dependents, rank, id); }
  }

  lemma IsolatedRanked(ids: set<nat>, dependents: Links, rank: map<nat, nat>, id: nat)
    requires Ranked(ids, dependents, rank) && dependents.Keys == ids && id !in ids
    ensures Ranked(ids + {id}, dependents[id := Of(dependents, id)], rank[id := 0])
  {
    assert Of(dependents, id) == [];
  }

  lemma IsolatedOf(dependencies: Links, dependents: Links, ids: set<nat>, rank: map<nat, nat>, id: nat)
    requires WellFormed(ids, dependencies, dependents, rank) && id !in ids
    ensures forall v :: Of(dependencies[id := Of(dependencies, id)], v) == Of(dependencies, v)
    ensures forall v :: Of(dependents[id := Of(dependents, id)], v) == Of(dependents, v)
  {
  }

  // --- adding a dependency

  /** The ranks after `task` was made a dependent of `on`: all that `task`
      leads to moves above `on`. */
  ghost function Lifted(ids: set<nat>, dependents: Links, rank: map<nat, nat>, task: nat, on: nat): map<nat, nat>
    requires rank.Keys == ids && on in ids
  {
    map v | v in ids :: if Leads(dependents, task, v) then rank[v] + rank[on] + 1 else rank[v]
  }

  lemma AddRanked(ids: set<nat>, dependents: Links, rank: map<nat, nat>, task: nat, on: nat)
    requires Ranked(ids, dependents, rank) && dependents.Keys == ids && task in ids && on in ids
    requires !Leads(dependents, task, on)
    ensures Ranked(ids, Push(dependents, on, task), Lifted(ids, dependents, rank, task, on))
  {
    hide Leads, Push;
    var more, lifted := Push(dependents, on, task), Lifted(ids, dependents, rank, task, on);
    LeadsRefl(dependents, task);
    forall d, t | d in ids && t in Of(more, d) ensures t in ids && lifted[d] < lifted[t] {
      PushedMember(dependents, on, task, d, t);
      if t in Of(dependents, d) && Leads(dependents, task, d) {
        LeadsStep(dependents, task, d, t);
      }
    }
  }

  lemma PushedMember(links: Links, v: nat, x: nat, u: nat, y: nat)
    requires y in Of(Push(links, v, x), u)
    ensures y in Of(links, u) || (u == v && y == x)
  {
  }

  lemma AddConverse(dependencies: Links, dependents: Links, task: nat, on: nat)
    requires Converse(dependencies, dependents)
    ensures Converse(Push(dependencies, task, on), Push(dependents, on, task))
  {
    forall t, d ensures Times(Push(dependencies, task, on), t, d) == Times(Push(dependents, on, task), d, t) {
      assert Times(dependencies, t, d) == Times(dependents, d, t);
      PushTimes(dependencies, task, on, t, d);
      PushTimes(dependents, on, task, d, t);
    }
  }

  lemma PushTimes(links: Links, v: nat, x: nat, u: nat, y: nat)
    ensures Times(Push(links, v, x), u, y) == Times(links, u, y) + if u == v && x == y then 1 else 0
  {
  }

  lemma PushKeys(links: Links, v: nat, x: nat)
    ensures Push(links, v, x).Keys == links.Keys + {v}
  {
  }

  lemma ChainPush(dependents: Links, c: seq<nat>, on: nat, task: nat)
    requires c != [] && Chain(dependents, c) && c[|c| - 1] == on
    ensures Chain(Push(dependents, on, task), c + [task])
  {
    var more := Push(dependents, on, task);
    forall i | 0 < i < |c| ensures c[i] in Of(more, c[i - 1]) {
      assert c[i] in Of(dependents, c[i - 1]);
    }
    assert task in Of(more, on);
    ChainAppend(more, c, task);
  }

  /** A link from `on` to `task` closes a cycle exactly when `task` leads to
      `on` already. */
  lemma CycleIff(ids: set<nat>, dependents: Links, rank: map<nat, nat>, task: nat, on: nat)
    requires Ranked(ids, dependents, rank) && dependents.Keys == ids && task in ids && on in ids
    ensures Acyclic(Push(dependents, on, task)) <==> !Leads(dependents, task, on)
  {
    hide Push, Ranked, Acyclic, Leads;
    if Leads(dependents, task, on) {
      CycleCloses(dependents, task, on);
    } else {
      NoCycleCloses(ids, dependents, rank, task, on);
    }
  }

  lemma CycleCloses(dependents: Links, task: nat, on: nat)
    requires Leads(dependents, task, on)
    ensures !Acyclic(Push(dependents, on, task))
  {
    hide Push, Chain;
    var c :| ChainBetween(dependents, task, on, c);
    ChainPush(dependents, c, on, task);
    assert IsCycle(Push(dependents, on, task), c + [task]);
  }

  lemma NoCycleCloses(ids: set<nat>, dependents: Links, rank: map<nat, nat>, task: nat, on: nat)
    requires Ranked(ids, dependents, rank) && dependents.Keys == ids && task in ids && on in ids
    requires !Leads(dependents, task, on)
    ensures Acyclic(Push(dependents, on, task))
  {
    RankKeys(ids, dependents, rank);
    hide Push, Ranked, Acyclic, Lifted, Leads;
    PushKeys(dependents, on, task);
    AddRanked(ids, dependents, rank, task, on);
    RankedAcyclic(ids, Push(dependents, on, task), Lifted(ids, dependents, rank, task, on));
  }

  /** An unfinished set of tasks has one whose dependencies are all outside it. */
  lemma {:induction false} LowestTask(ids: set<nat>, dependencies: Links, dependents: Links, rank: map<nat, nat>,
                                      s: set<nat>)
      returns (t: nat)
    requires WellFormed(ids, dependencies, dependents, rank) && s <= ids && s != {}
    ensures t in s && forall d: nat :: d in Of(dependencies, t) ==> d !in s
  {
    hide Converse, Ranked;
    assert rank.Keys == ids by { RankKeys(ids, dependents, rank); }
    t := LowestRank(rank, s);
    forall d: nat | d in Of(dependencies, t) ensures d !in s {
      DependencyBefore(ids, dependencies, dependents, rank, t, d);
    }
    hide Of;
  }

  lemma RankKeys(ids: set<nat>, dependents: Links, rank: map<nat, nat>)
    requires Ranked(ids, dependents, rank)
    ensures rank.Keys == ids
  {
  }

  lemma DependencyBefore(ids: set<nat>, dependencies: Links, dependents: Links, rank: map<nat, nat>, t: nat, d: nat)
    requires WellFormed(ids, dependencies, dependents, rank) && d in Of(dependencies, t)
    ensures t in ids && d in ids && rank[d] < rank[t]
  {
    hide Converse, Times;
    ConverseMember(dependencies, dependents, t, d);
  }

  lemma {:induction false} LowestRank(rank: map<nat, nat>, s: set<nat>) returns (t: nat)
    requires s != {} && s <= rank.Keys
    ensures t in s && forall v :: v in s ==> rank[t] <= rank[v]
    decreases s
  {
    t :| t in s;
    var rest := s - {t};
    assert forall v :: v in s ==> v == t || v in rest;
    if rest != {} {
      var u := LowestRank(rank, rest);
      if rank[u] < rank[t] {
        t := u;
      }
    }
  }

  // --- longest chains

  function CostOf(tasks: map<nat, Task>, v: nat): real {
    if v in tasks then tasks[v].cost else 0.0
  }

  function ChainCost(tasks: map<nat, Task>, c: seq<nat>): real {
    if c == [] then 0.0 else CostOf(tasks, c[0]) + ChainCost(tasks, c[1..])
  }

  ghost predicate ChainFrom(dependents: Links, v: nat, c: seq<nat>) {
    c != [] && c[0] == v && Chain(dependents, c)
  }

  /** `x` is the largest cost of a chain that starts at `v`. */
  ghost predicate IsLongest(tasks: map<nat, Task>, dependents: Links, v: nat, x: real) {
    && (exists c :: ChainFrom(dependents, v, c) && ChainCost(tasks, c) == x)
    && (forall c :: ChainFrom(dependents, v, c) ==> ChainCost(tasks, c) <= x)
  }

  lemma ChainTail(dependents: Links, c: seq<nat>)
    requires |c| > 1 && Chain(dependents, c)
    ensures ChainFrom(dependents, c[1], c[1..]) && c[1] in Of(dependents, c[0])
  {
    hide Of;
    var rest := c[1..];
    assert c[1] in Of(dependents, c[0]);
    forall i | 0 < i < |rest| ensures rest[i] in Of(dependents, rest[i - 1]) {
      assert rest[i] == c[i + 1] && rest[i - 1] == c[i];
    }
  }

  lemma ChainPrepend(tasks: map<nat, Task>, dependents: Links, v: nat, c: seq<nat>)
    requires c != [] && Chain(dependents, c) && c[0] in Of(dependents, v)
    ensures ChainFrom(dependents, v, [v] + c) && ChainCost(tasks, [v] + c) == CostOf(tasks, v) + ChainCost(tasks, c)
  {
    var d := [v] + c;
    assert d[1..] == c;
    hide Of, ChainCost;
    forall i | 0 < i < |d| ensures d[i] in Of(dependents, d[i - 1]) {
      if i > 1 {
        assert d[i] == c[i - 1] && d[i - 1] == c[i - 2];
      }
    }
  }

  /** `best` is the larger of 0 and the longest chains from the first `k` dependents. */
  ghost predicate BestOf(tasks: map<nat, Task>, dependents: Links, list: seq<nat>, k: nat, best: real) {
    && k <= |list| && best >= 0.0
    && (best == 0.0 || exists i :: 0 <= i < k && IsLongest(tasks, dependents, list[i], best))
    && (forall i {:trigger list[i]} :: 0 <= i < k ==> AtMost(tasks, dependents, list[i], best))
  }

  ghost predicate AtMost(tasks: map<nat, Task>, dependents: Links, v: nat, best: real) {
    forall c :: ChainFrom(dependents, v, c) ==> ChainCost(tasks, c) <= best
  }

  lemma BestStep(tasks: map<nat, Task>, dependents: Links, list: seq<nat>, k: nat, best: real, x: real)
    requires BestOf(tasks, dependents, list, k, best) && k < |list| && IsLongest(tasks, dependents, list[k], x)
    ensures BestOf(tasks, dependents, list, k + 1, if best < x then x else best)
  {
    hide ChainFrom, ChainCost;
    var more := if best < x then x else best;
    assert AtMost(tasks, dependents, list[k], more);
    forall i | 0 <= i < k + 1 ensures AtMost(tasks, dependents, list[i], more) {
      if i < k {
        assert AtMost(tasks, dependents, list[i], best);
      }
    }
    hide AtMost;
    if best < x {
      assert IsLongest(tasks, dependents, list[k], more);
    }
  }

  lemma LongestFromBest(tasks: map<nat, Task>, dependents: Links, v: nat, best: real)
    requires BestOf(tasks, dependents, Of(dependents, v), |Of(dependents, v)|, best)
    ensures IsLongest(tasks, dependents, v, CostOf(tasks, v) + best)
  {
    hide CostOf;
    var list := Of(dependents, v);
    if best == 0.0 {
      var c := [v];
      assert c[1..] == [];
      assert ChainFrom(dependents, v, c) && ChainCost(tasks, c) == CostOf(tasks, v) + best;
    } else {
      var i :| 0 <= i < |list| && IsLongest(tasks, dependents, list[i], best);
      var c :| ChainFrom(dependents, list[i], c) && ChainCost(tasks, c) == best;
      ChainPrepend(tasks, dependents, v, c);
    }
    forall c | ChainFrom(dependents, v, c) ensures ChainCost(tasks, c) <= CostOf(tasks, v) + best {
      BestBounds(tasks, dependents, v, best, c);
    }
  }

  lemma BestBounds(tasks: map<nat, Task>, dependents: Links, v: nat, best: real, c: seq<nat>)
    requires BestOf(tasks, dependents, Of(dependents, v), |Of(dependents, v)|, best) && ChainFrom(dependents, v, c)
    ensures ChainCost(tasks, c) <= CostOf(tasks, v) + best
  {
    var list := Of(dependents, v);
    assert ChainCost(tasks, c) == CostOf(tasks, c[0]) + ChainCost(tasks, c[1..]);
    if |c| > 1 {
      ChainTail(dependents, c);
      var k :| 0 <= k < |list| && list[k] == c[1];
      assert AtMost(tasks, dependents, list[k], best);
    }
  }

  // --- the same over the cost fields

  /** `sums` adds up the costs of the tasks along `c` one by one; a task that is
      not there costs nothing. */
  ghost predicate AddsUp(tasks: map<nat, Task>, c: seq<nat>, sums: seq<real>) {
    && |sums| == |c| + 1 && sums[0] == 0.0
    && forall i :: 0 <= i < |c| ==> sums[i + 1] == sums[i] + if c[i] in tasks then tasks[c[i]].cost else 0.0
  }

  ghost predicate Listed(dependents: Links, u: nat, v: nat) {
    u in dependents && v in dependents[u]
  }

  ghost predicate Follows(dependents: Links, c: seq<nat>) {
    forall i {:trigger c[i]} :: 0 < i < |c| ==> Listed(dependents, c[i - 1], c[i])
  }

  ghost predicate Attains(tasks: map<nat, Task>, dependents: Links, c: seq<nat>, sums: seq<real>, x: real) {
    Follows(dependents, c) && AddsUp(tasks, c, sums) && sums[|c|] == x
  }

  /** `x` is the sum of the costs along some chain that starts at `v`, and no such
      chain has a larger one. */
  ghost predicate LargestSumFrom(tasks: map<nat, Task>, dependents: Links, v: nat, x: real) {
    && (exists c, sums :: c != [] && c[0] == v && Attains(tasks, dependents, c, sums, x))
    && (forall c, sums, y :: c != [] && c[0] == v && Attains(tasks, dependents, c, sums, y) ==> y <= x)
  }

  /** `x` is the sum of the costs along some chain of tasks, and none has a larger
      one. */
  ghost predicate LargestSum(tasks: map<nat, Task>, dependents: Links, x: real) {
    && (exists c, sums :: (c != [] ==> c[0] in tasks) && Attains(tasks, dependents, c, sums, x))
    && (forall c, sums, y :: (c != [] ==> c[0] in tasks) && Attains(tasks, dependents, c, sums, y) ==> y <= x)
  }

  lemma FollowsIsChain(dependents: Links, c: seq<nat>)
    ensures Follows(dependents, c) <==> Chain(dependents, c)
  {
    forall u, v ensures Listed(dependents, u, v) <==> v in Of(dependents, u) {}
    hide Listed, Of;
  }

  /** From any place on, the sums grow by the cost of the rest of the chain. */
  lemma {:induction false} SumsAre(tasks: map<nat, Task>, c: seq<nat>, sums: seq<real>, k: nat)
    requires AddsUp(tasks, c, sums) && k <= |c|
    ensures sums[|c|] == sums[k] + ChainCost(tasks, c[k..])
    decreases |c| - k
  {
    if k < |c| {
      SumsAre(tasks, c, sums, k + 1);
      assert c[k..][1..] == c[k + 1..];
    }
  }

  lemma {:induction false} SumsOf(tasks: map<nat, Task>, c: seq<nat>) returns (sums: seq<real>)
    ensures AddsUp(tasks, c, sums)
  {
    if c == [] {
      sums := [0.0];
    } else {
      var init, last := c[..|c| - 1], c[|c| - 1];
      var before := SumsOf(tasks, init);
      sums := before + [before[|init|] + if last in tasks then tasks[last].cost else 0.0];
    }
  }

  lemma AttainsIs(tasks: map<nat, Task>, dependents: Links, c: seq<nat>, sums: seq<real>, x: real)
    requires Attains(tasks, dependents, c, sums, x)
    ensures Chain(dependents, c) && ChainCost(tasks, c) == x
  {
    FollowsIsChain(dependents, c);
    SumsAre(tasks, c, sums, 0);
    assert c[0..] == c;
  }

  lemma ChainAttains(tasks: map<nat, Task>, dependents: Links, c: seq<nat>) returns (sums: seq<real>)
    requires Chain(dependents, c)
    ensures Attains(tasks, dependents, c, sums, ChainCost(tasks, c))
  {
    hide Chain, ChainCost, Follows;
    FollowsIsChain(dependents, c);
    sums := SumsOf(tasks, c);
    SumsAre(tasks, c, sums, 0);
    assert c[0..] == c;
  }

  lemma LongestIsLargest(tasks: map<nat, Task>, dependents: Links, v: nat, x: real)
    requires IsLongest(tasks, dependents, v, x)
    ensures LargestSumFrom(tasks, dependents, v, x)
  {
    hide Chain, ChainCost, Attains;
    var c :| ChainFrom(dependents, v, c) && ChainCost(tasks, c) == x;
    var sums := ChainAttains(tasks, dependents, c);
    forall d, more, y | d != [] && d[0] == v && Attains(tasks, dependents, d, more, y) ensures y <= x {
      AttainsIs(tasks, dependents, d, more, y);
      assert ChainFrom(dependents, v, d);
    }
  }

  lemma CriticalIsLargest(tasks: map<nat, Task>, dependents: Links, x: real)
    requires IsCritical(tasks, dependents, x)
    ensures LargestSum(tasks, dependents, x)
  {
    hide Chain, ChainCost, Attains;
    var c :| TaskChain(tasks, dependents, c) && ChainCost(tasks, c) == x;
    var sums := ChainAttains(tasks, dependents, c);
    forall d, more, y | (d != [] ==> d[0] in tasks) && Attains(tasks, dependents, d, more, y) ensures y <= x {
      AttainsIs(tasks, dependents, d, more, y);
      assert TaskChain(tasks, dependents, d);
    }
  }

  lemma LargestSumUnique(tasks: map<nat, Task>, dependents: Links, x: real, y: real)
    requires LargestSum(tasks, dependents, x) && LargestSum(tasks, dependents, y)
    ensures x == y
  {
    hide Attains;
  }

  /** No task costs more than the largest sum, and no two linked tasks do. */
  lemma LargestSumBounds(tasks: map<nat, Task>, dependents: Links, x: real)
    requires LargestSum(tasks, dependents, x)
    ensures x >= 0.0
    ensures forall t :: t in tasks ==> tasks[t].cost <= x
    ensures forall t, d :: d in tasks && t in tasks && d in dependents && t in dependents[d] ==>
              tasks[d].cost + tasks[t].cost <= x
  {
    hide LargestSum;
    SumWithin(tasks, dependents, x, [], [0.0]);
    forall t | t in tasks ensures tasks[t].cost <= x {
      SumWithin(tasks, dependents, x, [t], [0.0, tasks[t].cost]);
    }
    forall t, d | d in tasks && t in tasks && d in dependents && t in dependents[d]
      ensures tasks[d].cost + tasks[t].cost <= x
    {
      SumWithin(tasks, dependents, x, [d, t], [0.0, tasks[d].cost, tasks[d].cost + tasks[t].cost]);
    }
  }

  lemma SumWithin(tasks: map<nat, Task>, dependents: Links, x: real, c: seq<nat>, sums: seq<real>)
    requires LargestSum(tasks, dependents, x) && Follows(dependents, c) && AddsUp(tasks, c, sums)
    requires c != [] ==> c[0] in tasks
    ensures sums[|c|] <= x
  {
    assert Attains(tasks, dependents, c, sums, sums[|c|]);
  }

  /** Equal costs make equal sums. */
  lemma SameCosts(a: map<nat, Task>, b: map<nat, Task>, dependents: Links, x: real)
    requires a.Keys == b.Keys && (forall v :: v in a ==> a[v].cost == b[v].cost)
    requires LargestSum(a, dependents, x)
    ensures LargestSum(b, dependents, x)
  {
    forall c, sums, y ensures Attains(a, dependents, c, sums, y) <==> Attains(b, dependents, c, sums, y) {
      hide Follows;
    }
    hide Attains;
  }

  /** More links can only make larger sums. */
  lemma MoreLinks(tasks: map<nat, Task>, some: Links, more: Links, x: real, y: real)
    requires LargestSum(tasks, some, x) && LargestSum(tasks, more, y)
    requires forall v, w :: v in some && w in some[v] ==> v in more && w in more[v]
    ensures x <= y
  {
    hide AddsUp;
    var c, sums :| (c != [] ==> c[0] in tasks) && Attains(tasks, some, c, sums, x);
    forall u, v | Listed(some, u, v) ensures Listed(more, u, v) {}
    hide Listed;
    assert Attains(tasks, more, c, sums, x);
  }

  ghost predicate GoodMemo(tasks: map<nat, Task>, dependents: Links, memo: map<nat, real>) {
    forall v :: v in memo ==> IsLongest(tasks, dependents, v, memo[v])
  }

  ghost function Higher(rank: map<nat, nat>, v: nat): set<nat> {
    set u | u in rank && (v in rank ==> rank[v] < rank[u])
  }

  method LongestPathCost(tasks: map<nat, Task>, dependents: Links, task: nat, memo: map<nat, real>,
                         ghost rank: map<nat, nat>) returns (cost: real, memo': map<nat, real>)
    requires Ranked(dependents.Keys, dependents, rank) && GoodMemo(tasks, dependents, memo)
    requires task in rank
    ensures IsLongest(tasks, dependents, task, cost) && LargestSumFrom(tasks, dependents, task, cost)
    ensures GoodMemo(tasks, dependents, memo') && memo.Keys + {task} <= memo'.Keys
    decreases Higher(rank, task)
  {
    hide IsLongest, BestOf, ChainCost, Chain, LargestSumFrom;
    memo' := memo;
    if task in memo' {
      LongestIsLargest(tasks, dependents, task, memo'[task]);
      return memo'[task], memo';
    }
    var base := CostOf(tasks, task);
    var list := Of(dependents, task);
    var best := 0.0;
    var k := 0;
    assert BestOf(tasks, dependents, list, 0, best) by { BestNone(tasks, dependents, list); }
    while k < |list|
      invariant 0 <= k <= |list|
      invariant GoodMemo(tasks, dependents, memo') && memo.Keys <= memo'.Keys
      invariant BestOf(tasks, dependents, list, k, best)
    {
      assert list[k] in list;
      assert list[k] in Higher(rank, task) && list[k] !in Higher(rank, list[k]);
      var x;
      x, memo' := LongestPathCost(tasks, dependents, list[k], memo', rank);
      BestStep(tasks, dependents, list, k, best, x);
      best := if best < x then x else best;
      k := k + 1;
    }
    LongestFromBest(tasks, dependents, task, best);
    LongestIsLargest(tasks, dependents, task, CostOf(tasks, task) + best);
    cost := base + best;
    memo' := memo'[task := cost];
  }

  lemma BestNone(tasks: map<nat, Task>, dependents: Links, list: seq<nat>)
    ensures BestOf(tasks, dependents, list, 0, 0.0)
  {
  }

  lemma NoMemo(tasks: map<nat, Task>, dependents: Links)
    ensures GoodMemo(tasks, dependents, map[])
  {
  }

  /** `x` is the largest cost of any chain of tasks, the empty one included. */
  ghost predicate IsCritical(tasks: map<nat, Task>, dependents: Links, x: real) {
    && (exists c :: TaskChain(tasks, dependents, c) && ChainCost(tasks, c) == x)
    && (forall c :: TaskChain(tasks, dependents, c) ==> ChainCost(tasks, c) <= x)
  }

  ghost predicate TaskChain(tasks: map<nat, Task>, dependents: Links, c: seq<nat>) {
    Chain(dependents, c) && (c != [] ==> c[0] in tasks)
  }

  lemma CriticalIs(tasks: map<nat, Task>, dependents: Links, list: seq<nat>, x: real)
    requires BestOf(tasks, dependents, list, |list|, x) && Elems(list) == tasks.Keys
    ensures IsCritical(tasks, dependents, x)
  {
    assert ChainCost(tasks, []) == 0.0 && TaskChain(tasks, dependents, []);
    if x != 0.0 {
      var i :| 0 <= i < |list| && IsLongest(tasks, dependents, list[i], x);
      var c :| ChainFrom(dependents, list[i], c) && ChainCost(tasks, c) == x;
      assert list[i] in Elems(list);
      assert TaskChain(tasks, dependents, c);
    }
    hide ChainCost;
    forall c | TaskChain(tasks, dependents, c) ensures ChainCost(tasks, c) <= x {
      if c != [] {
        var i :| 0 <= i < |list| && list[i] == c[0];
        assert AtMost(tasks, dependents, list[i], x);
      }
    }
  }

  lemma BestGrow(tasks: map<nat, Task>, dependents: Links, list: seq<nat>, best: real, v: nat, x: real)
    requires BestOf(tasks, dependents, list, |list|, best) && IsLongest(tasks, dependents, v, x)
    ensures BestOf(tasks, dependents, list + [v], |list| + 1, if best < x then x else best)
  {
    hide IsLongest, AtMost;
    var more := list + [v];
    assert BestOf(tasks, dependents, more, |list|, best) by {
      forall i | 0 <= i < |list| ensures more[i] == list[i] && AtMost(tasks, dependents, list[i], best) {}
    }
    BestStep(tasks, dependents, more, |list|, best, x);
  }

  // --- topological order

  /** Each task once, after all its dependencies. */
  ghost predicate IsTopological(ids: set<nat>, dependencies: Links, sorted: seq<nat>) {
    && Distinct(sorted) && Elems(sorted) == ids
    && forall j, d :: 0 <= j < |sorted| && d in Of(dependencies, sorted[j]) ==> d in sorted[..j]
  }

  /** How many entries of the list are not in `done`. */
  function Remaining(list: seq<nat>, done: set<nat>): nat {
    if list == [] then 0
    else Remaining(list[..|list| - 1], done) + if list[|list| - 1] in done then 0 else 1
  }

  lemma {:induction false} RemainingDone(list: seq<nat>, done: set<nat>, x: nat)
    requires x !in done
    ensures Remaining(list, done) == Remaining(list, done + {x}) + multiset(list)[x]
  {
    if list != [] {
      var init, last := list[..|list| - 1], list[|list| - 1];
      assert list == init + [last];
      RemainingDone(init, done, x);
    }
  }

  lemma {:induction false} RemainingZero(list: seq<nat>, done: set<nat>)
    ensures Remaining(list, done) == 0 <==> forall d :: d in list ==> d in done
  {
    if list != [] {
      var init, last := list[..|list| - 1], list[|list| - 1];
      assert list == init + [last];
      RemainingZero(init, done);
    }
  }

  lemma {:induction false} RemainingAll(list: seq<nat>)
    ensures Remaining(list, {}) == |list|
  {
    if list != [] {
      RemainingAll(list[..|list| - 1]);
    }
  }

  /** The counters hold what remains, but for the first `k` dependents of the
      task last sorted, which are counted down one by one. */
  ghost predicate Counters(ids: set<nat>, dependencies: Links, inDeg: map<nat, nat>, done: set<nat>, list: seq<nat>,
                           k: nat) {
    && k <= |list| && inDeg.Keys == ids
    && forall t :: t in ids ==> inDeg[t] + multiset(list[..k])[t] == Remaining(Of(dependencies, t), done)
  }

  ghost predicate Ready(ids: set<nat>, inDeg: map<nat, nat>, queue: seq<nat>, sorted: seq<nat>) {
    && Distinct(sorted + queue)
    && forall t :: t in sorted + queue <==> t in ids && t in inDeg && inDeg[t] == 0
  }

  ghost predicate Placed(dependencies: Links, sorted: seq<nat>) {
    forall j, d :: 0 <= j < |sorted| && d in Of(dependencies, sorted[j]) ==> d in sorted[..j]
  }

  lemma CountersStart(ids: set<nat>, dependencies: Links, inDeg: map<nat, nat>)
    requires inDeg.Keys == ids && forall t :: t in ids ==> inDeg[t] == |Of(dependencies, t)|
    ensures Counters(ids, dependencies, inDeg, {}, [], 0)
  {
    forall t | t in ids ensures inDeg[t] == Remaining(Of(dependencies, t), {}) {
      RemainingAll(Of(dependencies, t));
    }
  }

  lemma CountersBegin(ids: set<nat>, dependencies: Links, inDeg: map<nat, nat>, done: set<nat>, list: seq<nat>)
    requires Counters(ids, dependencies, inDeg, done, [], 0)
    ensures Counters(ids, dependencies, inDeg, done, list, 0)
  {
    assert list[..0] == [];
  }

  /** Counting down never goes below zero, and keeps the counters right. */
  lemma CountersStep(ids: set<nat>, dependencies: Links, dependents: Links, inDeg: map<nat, nat>, done: set<nat>,
                     task: nat, k: nat)
    requires Counters(ids, dependencies, inDeg, done, Of(dependents, task), k) && k < |Of(dependents, task)|
    requires Converse(dependencies, dependents) && task !in done && Of(dependents, task)[k] in ids
    ensures inDeg[Of(dependents, task)[k]] > 0
    ensures
      var t := Of(dependents, task)[k];
      Counters(ids, dependencies, inDeg[t := inDeg[t] - 1], done, Of(dependents, task), k + 1)
  {
    var list := Of(dependents, task);
    var t := list[k];
    assert Times(dependencies, t, task) == Times(dependents, task, t);
    RemainingDone(Of(dependencies, t), done, task);
    MultisetPrefix(list, k);
    hide Of, Remaining;
    assert list[..k + 1] == list[..k] + [t];
  }

  lemma MultisetPrefix(list: seq<nat>, k: nat)
    requires k < |list|
    ensures multiset(list)[list[k]] > multiset(list[..k])[list[k]]
  {
    assert list == list[..k] + ([list[k]] + list[k + 1..]);
  }

  lemma CountersEnd(ids: set<nat>, dependencies: Links, dependents: Links, inDeg: map<nat, nat>, done: set<nat>,
                    task: nat)
    requires Counters(ids, dependencies, inDeg, done, Of(dependents, task), |Of(dependents, task)|)
    requires Converse(dependencies, dependents) && task !in done
    ensures Counters(ids, dependencies, inDeg, done + {task}, [], 0)
  {
    var list := Of(dependents, task);
    assert list[..|list|] == list;
    forall t | t in ids ensures inDeg[t] == Remaining(Of(dependencies, t), done + {task}) {
      assert Times(dependencies, t, task) == Times(dependents, task, t);
      RemainingDone(Of(dependencies, t), done, task);
    }
  }

  lemma PlaceNext(ids: set<nat>, dependencies: Links, inDeg: map<nat, nat>, sorted: seq<nat>, task: nat)
    requires Counters(ids, dependencies, inDeg, Elems(sorted), [], 0) && Placed(dependencies, sorted)
    requires task in ids && inDeg[task] == 0
    ensures Placed(dependencies, sorted + [task])
  {
    RemainingZero(Of(dependencies, task), Elems(sorted));
    hide Of, Remaining;
    var more := sorted + [task];
    forall j, d | 0 <= j < |more| && d in Of(dependencies, more[j]) ensures d in more[..j] {
      if j < |sorted| {
        assert more[j] == sorted[j] && more[..j] == sorted[..j];
      } else {
        assert more[..j] == sorted;
        assert d in Elems(sorted);
      }
    }
  }

  lemma AllPlaced(ids: set<nat>, dependencies: Links, dependents: Links, rank: map<nat, nat>, inDeg: map<nat, nat>,
                  sorted: seq<nat>)
    requires WellFormed(ids, dependencies, dependents, rank)
    requires Counters(ids, dependencies, inDeg, Elems(sorted), [], 0)
    requires Ready(ids, inDeg, [], sorted)
    ensures Elems(sorted) == ids && Distinct(sorted)
  {
    hide Remaining, Of, Converse, Ranked;
    assert sorted + [] == sorted;
    assert Elems(sorted) <= ids && Distinct(sorted);
    var rest := ids - Elems(sorted);
    if rest != {} {
      var t := LowestTask(ids, dependencies, dependents, rank, rest);
      forall d: nat | d in Of(dependencies, t) ensures d in Elems(sorted) {
        DependencyBefore(ids, dependencies, dependents, rank, t, d);
      }
      NothingRemains(ids, dependencies, inDeg, Elems(sorted), t);
    } else {
      forall t | t in ids ensures t in Elems(sorted) {
        assert t !in rest;
      }
    }
  }

  lemma NothingRemains(ids: set<nat>, dependencies: Links, inDeg: map<nat, nat>, done: set<nat>, t: nat)
    requires Counters(ids, dependencies, inDeg, done, [], 0) && t in ids
    requires forall d :: d in Of(dependencies, t) ==> d in done
    ensures inDeg[t] == 0
  {
    RemainingZero(Of(dependencies, t), done);
  }

  lemma ReadyPop(ids: set<nat>, inDeg: map<nat, nat>, queue: seq<nat>, sorted: seq<nat>)
    requires Ready(ids, inDeg, queue, sorted) && queue != []
    ensures
      var task := queue[|queue| - 1];
      Ready(ids, inDeg, queue[..|queue| - 1], sorted + [task]) && task in ids && task in inDeg && inDeg[task] == 0
      && task !in Elems(sorted)
  {
    var k := |queue| - 1;
    var task := queue[k];
    var before, after := sorted + queue, sorted + [task] + queue[..k];
    assert queue == queue[..k] + [task];
    assert task in before;
    forall t ensures t in after <==> t in before {
      assert t in queue <==> t in queue[..k] || t == task;
    }
    assert multiset(after) == multiset(before);
    MultisetDistinct(after, before);
    forall i | 0 <= i < |sorted| ensures sorted[i] != task {
      assert before[i] == sorted[i] && before[|sorted| + k] == task;
    }
  }

  lemma ReadyStep(ids: set<nat>, inDeg: map<nat, nat>, queue: seq<nat>, sorted: seq<nat>, t: nat)
    requires Ready(ids, inDeg, queue, sorted) && t in ids && t in inDeg && inDeg[t] > 0
    ensures Ready(ids, inDeg[t := inDeg[t] - 1], if inDeg[t] - 1 == 0 then queue + [t] else queue, sorted)
  {
    assert sorted + (queue + [t]) == (sorted + queue) + [t];
    assert t !in sorted + queue;
    ElemsAppend(sorted + queue, t);
    assert forall x :: x in (sorted + queue) + [t] <==> x in sorted + queue || x == t;
  }

  method TopologicalSort(dependencies: Links, dependents: Links, ids: set<nat>, ghost rank: map<nat, nat>)
      returns (sorted: seq<nat>)
    requires WellFormed(ids, dependencies, dependents, rank)
    ensures IsTopological(ids, dependencies, sorted)
  {
    hide Counters, Ready, Placed, Distinct, Converse, Times, IsTopological, Ranked, Of;
    var inDeg: map<nat, nat> := map t | t in ids :: |Of(dependencies, t)|;
    CountersStart(ids, dependencies, inDeg);
    var queue := StartQueue(ids, inDeg);
    sorted := [];
    ElemsNonempty<nat>([]);
    NothingPlaced(dependencies);
    while |queue| > 0
      invariant Counters(ids, dependencies, inDeg, Elems(sorted), [], 0)
      invariant Ready(ids, inDeg, queue, sorted)
      invariant Placed(dependencies, sorted) && Elems(sorted) <= ids
      decreases ids - Elems(sorted)
    {
      var task := queue[|queue| - 1];
      ghost var done := Elems(sorted);
      ReadyPop(ids, inDeg, queue, sorted);
      PlaceNext(ids, dependencies, inDeg, sorted, task);
      CountersBegin(ids, dependencies, inDeg, done, Of(dependents, task));
      ElemsAppend(sorted, task);
      queue := queue[..|queue| - 1];
      sorted := sorted + [task];
      var list := Of(dependents, task);
      var k := 0;
      while k < |list|
        invariant 0 <= k <= |list|
        invariant Counters(ids, dependencies, inDeg, done, list, k)
        invariant Ready(ids, inDeg, queue, sorted)
      {
        var dep := list[k];
        DependentTask(ids, dependents, rank, task, dep);
        CountersKeys(ids, dependencies, inDeg, done, list, k);
        CountersStep(ids, dependencies, dependents, inDeg, done, task, k);
        ReadyStep(ids, inDeg, queue, sorted, dep);
        var deg := inDeg[dep] - 1;
        inDeg := inDeg[dep := deg];
        if deg == 0 {
          queue := queue + [dep];
        }
        k := k + 1;
      }
      CountersEnd(ids, dependencies, dependents, inDeg, done, task);
    }
    assert queue == [];
    AllPlaced(ids, dependencies, dependents, rank, inDeg, sorted);
    TopologicalIs(ids, dependencies, sorted);
  }

  lemma DependentTask(ids: set<nat>, dependents: Links, rank: map<nat, nat>, task: nat, t: nat)
    requires Ranked(ids, dependents, rank) && task in ids && t in Of(dependents, task)
    ensures t in ids
  {
  }

  lemma CountersKeys(ids: set<nat>, dependencies: Links, inDeg: map<nat, nat>, done: set<nat>, list: seq<nat>, k: nat)
    requires Counters(ids, dependencies, inDeg, done, list, k)
    ensures inDeg.Keys == ids
  {
  }

  lemma NothingPlaced(dependencies: Links)
    ensures Placed(dependencies, [])
  {
  }

  lemma TopologicalIs(ids: set<nat>, dependencies: Links, sorted: seq<nat>)
    requires Placed(dependencies, sorted) && Distinct(sorted) && Elems(sorted) == ids
    ensures IsTopological(ids, dependencies, sorted)
  {
  }

  /** The tasks without dependencies, in any order. */
  method StartQueue(ids: set<nat>, inDeg: map<nat, nat>) returns (queue: seq<nat>)
    requires inDeg.Keys == ids
    ensures Ready(ids, inDeg, queue, [])
  {
    queue := [];
    var rest := ids;
    while rest != {}
      invariant rest <= ids && Distinct(queue)
      invariant forall t :: t in queue <==> t in ids - rest && inDeg[t] == 0
      decreases rest
    {
      var t :| t in rest;
      if inDeg[t] == 0 {
        ElemsAppend(queue, t);
        queue := queue + [t];
      }
      rest := rest - {t};
    }
    assert [] + queue == queue;
  }

  // --- the graph

  class TaskGraph {
    var tasks: map<nat, Task>
    var dependencies: Links
    var dependents: Links
    var nextId: nat
    ghost var rank: map<nat, nat>

    ghost predicate Valid()
      reads this
    {
      && WellFormed(tasks.Keys, dependencies, dependents, rank)
      && forall v :: v in tasks ==> v < nextId && tasks[v].id == v
    }

    constructor ()
      ensures Valid() && tasks == map[] && dependencies == map[] && dependents == map[]
    {
      tasks, dependencies, dependents, nextId, rank := map[], map[], map[], 0, map[];
    }

    method AddTask(name: string, cost: real) returns (id: nat)
      requires Valid()
      modifies this
      ensures Valid()
      ensures id == old(nextId) && id !in old(tasks) && nextId == id + 1
      ensures tasks == old(tasks)[id := Task(id, name, cost, false)]
      ensures forall v :: Of(dependencies, v) == Of(old(dependencies), v) && Of(dependents, v) == Of(old(dependents), v)
    {
      hide Ranked, Converse, WellFormed;
      IsolatedOf(dependencies, dependents, tasks.Keys, rank, nextId);
      id := nextId;
      nextId := nextId + 1;
      tasks := tasks[id := Task(id, name, cost, false)];
      dependencies := dependencies[id := Of(dependencies, id)];
      dependents := dependents[id := Of(dependents, id)];
      rank := rank[id := 0];
      AddIsolated(old(tasks).Keys, old(dependencies), old(dependents), old(rank), id);
      assert tasks.Keys == old(tasks).Keys + {id};
    }

    method AddDependency(task: nat, dependsOn: nat) returns (r: AddResult)
      requires Valid()
      modifies this
      ensures Valid() && tasks == old(tasks) && nextId == old(nextId)
      ensures r == TaskNotFound <==> task !in tasks || dependsOn !in tasks
      ensures r == WouldCycle <==>
              task in tasks && dependsOn in tasks && !Acyclic(Push(old(dependents), dependsOn, task))
      ensures r == Added ==>
                && dependencies == Push(old(dependencies), task, dependsOn)
                && dependents == Push(old(dependents), dependsOn, task)
                && task in old(dependencies) && dependsOn in old(dependents)
                && dependencies == old(dependencies)[task := old(dependencies)[task] + [dependsOn]]
                && dependents == old(dependents)[dependsOn := old(dependents)[dependsOn] + [task]]
      ensures r != Added ==> dependencies == old(dependencies) && dependents == old(dependents)
    {
      hide Acyclic, Leads, Ranked, Converse;
      if task !in tasks || dependsOn !in tasks {
        return TaskNotFound;
      }
      var cycle := CreatesCycle(task, dependsOn);
      CycleIff(tasks.Keys, dependents, rank, task, dependsOn);
      if cycle {
        return WouldCycle;
      }
      RankKeys(tasks.Keys, dependents, rank);
      AddRanked(tasks.Keys, dependents, rank, task, dependsOn);
      AddConverse(dependencies, dependents, task, dependsOn);
      rank := Lifted(tasks.Keys, dependents, rank, task, dependsOn);
      dependencies := Push(dependencies, task, dependsOn);
      dependents := Push(dependents, dependsOn, task);
      return Added;
    }

    method CreatesCycle(from: nat, to: nat) returns (found: bool)
      requires Valid() && from in tasks
      ensures found <==> Leads(dependents, from, to)
    {
      hide Leads, Converse, Ranked, Pushed, Explored;
      var visited: set<nat> := {};
      var stack := [from];
      ExploreStart(dependents, from, to, tasks.Keys);
      while |stack| > 0
        invariant Explored(dependents, from, to, tasks.Keys, visited, stack)
        decreases tasks.Keys - visited, |stack|
      {
        var node := stack[|stack| - 1];
        ghost var before := stack;
        stack := stack[..|stack| - 1];
        if node == to {
          ExploreFound(dependents, from, to, tasks.Keys, visited, before);
          return true;
        }
        if node in visited {
          ExploreAgain(dependents, from, to, tasks.Keys, visited, before);
          continue;
        }
        ghost var rest := stack;
        var list := Of(dependents, node);
        var i := 0;
        PushedNone(rest, list);
        while i < |list|
          invariant 0 <= i <= |list|
          invariant Pushed(rest, list, i, stack)
        {
          PushedOne(rest, list, i, stack);
          stack := stack + [list[i]];
          i := i + 1;
        }
        ExploreNode(dependents, from, to, tasks.Keys, rank, visited, before, stack);
        visited := visited + {node};
      }
      ExploreDone(dependents, from, to, tasks.Keys, visited);
      return false;
    }

    method MarkCompleted(task: nat)
      requires Valid()
      modifies this`tasks
      ensures Valid()
      ensures tasks ==
              if task in old(tasks) then old(tasks)[task := old(tasks)[task].(completed := true)] else old(tasks)
    {
      if task in tasks {
        assert tasks[task := tasks[task].(completed := true)].Keys == tasks.Keys;
        tasks := tasks[task := tasks[task].(completed := true)];
      }
    }

    /** The incomplete tasks whose dependencies are complete, in any order. */
    method ReadyTasks() returns (ready: seq<nat>)
      requires Valid()
      ensures Distinct(ready) && Elems(ready) == ReadySet(tasks, dependencies)
      ensures forall t :: t in ready <==>
                && t in tasks && !tasks[t].completed
                && forall d :: t in dependencies && d in dependencies[t] && d in tasks ==> tasks[d].completed
    {
      hide IsReady, Distinct, Elems;
      ready := [];
      var rest := tasks.Keys;
      ElemsNonempty<nat>([]);
      assert Distinct<nat>([]) by { NothingTwice(); }
      while rest != {}
        invariant rest <= tasks.Keys && Distinct(ready)
        invariant Elems(ready) == ReadySet(tasks, dependencies) - rest
        decreases rest
      {
        var id :| id in rest;
        if IsReady(tasks, dependencies, id) {
          ElemsAppend(ready, id);
          ready := ready + [id];
        }
        rest := rest - {id};
      }
      forall t
        ensures t in ready <==>
                  && t in tasks && !tasks[t].completed
                  && forall d :: t in dependencies && d in dependencies[t] && d in tasks ==> tasks[d].completed
      {
        ReadyIs(tasks, dependencies, t);
        assert t in ready <==> t in Elems(ready) by { ElemsMember(ready, t); }
      }
    }

    method CriticalPathCost() returns (maxCost: real)
      requires Valid()
      ensures IsCritical(tasks, dependents, maxCost) && LargestSum(tasks, dependents, maxCost)
      ensures maxCost >= 0.0 && forall t :: t in tasks ==> tasks[t].cost <= maxCost
      ensures forall t, d :: t in dependencies && d in dependencies[t] && t in tasks && d in tasks ==>
                tasks[d].cost + tasks[t].cost <= maxCost
    {
      hide LargestSum, Converse, BestOf, IsLongest, IsCritical, Ranked, GoodMemo, CostOf;
      NoMemo(tasks, dependents);
      RankKeys(tasks.Keys, dependents, rank);
      var memo: map<nat, real> := map[];
      maxCost := 0.0;
      var rest := tasks.Keys;
      ghost var list: seq<nat> := [];
      ElemsNonempty(list);
      BestNone(tasks, dependents, list);
      while rest != {}
        invariant rest <= tasks.Keys && Elems(list) == tasks.Keys - rest
        invariant GoodMemo(tasks, dependents, memo)
        invariant BestOf(tasks, dependents, list, |list|, maxCost)
        decreases rest
      {
        var id :| id in rest;
        var cost;
        cost, memo := LongestPathCost(tasks, dependents, id, memo, rank);
        BestGrow(tasks, dependents, list, maxCost, id, cost);
        ElemsAppend(list, id);
        list := list + [id];
        if cost > maxCost {
          maxCost := cost;
        }
        rest := rest - {id};
      }
      CriticalIs(tasks, dependents, list, maxCost);
      CriticalIsLargest(tasks, dependents, maxCost);
      LargestSumBounds(tasks, dependents, maxCost);
      forall t, d | t in dependencies && d in dependencies[t] && t in tasks && d in tasks
        ensures d in dependents && t in dependents[d]
      {
        ConverseMember(dependencies, dependents, t, d);
      }
    }

    /** Completing a task leaves the critical path alone. */
    method CriticalAfterCompletion(task: nat) returns (before: real, after: real)
      requires Valid()
      modifies this
      ensures Valid() && before == after
    {
      hide Converse, Ranked, IsCritical, LargestSum;
      before := CriticalPathCost();
      ghost var was, links := tasks, dependents;
      MarkCompleted(task);
      after := CriticalPathCost();
      SameCosts(was, tasks, links, before);
      LargestSumUnique(tasks, links, before, after);
    }

    /** Adding a dependency never shortens it. */
    method CriticalAfterDependency(task: nat, dependsOn: nat) returns (before: real, r: AddResult, after: real)
      requires Valid()
      modifies this
      ensures Valid() && before <= after && (r != Added ==> before == after)
    {
      hide Converse, Ranked, IsCritical, LargestSum, Acyclic;
      before := CriticalPathCost();
      ghost var links := dependents;
      r := AddDependency(task, dependsOn);
      after := CriticalPathCost();
      if r == Added {
        PushGrows(links, dependsOn, task);
        MoreLinks(tasks, links, dependents, before, after);
      } else {
        LargestSumUnique(tasks, links, before, after);
      }
    }

    method Sort() returns (sorted: seq<nat>)
      requires Valid()
      ensures IsTopological(tasks.Keys, dependencies, sorted)
    {
      sorted := TopologicalSort(dependencies, dependents, tasks.Keys, rank);
    }
  }

  lemma PushGrows(links: Links, v: nat, x: nat)
    ensures forall u, w :: u in links && w in links[u] ==> u in Push(links, v, x) && w in Push(links, v, x)[u]
  {
  }

  // --- the search for a cycle

  /** What is visited or stacked is reached; the visited tasks are not the
      target, and their dependents are visited or stacked. */
  ghost predicate Explored(dependents: Links, from: nat, to: nat, ids: set<nat>, visited: set<nat>, stack: seq<nat>) {
    && (forall v :: v in stack || v in visited ==> v in ids && Leads(dependents, from, v))
    && to !in visited && (from in stack || from in visited)
    && (forall v, w :: v in visited && w in Of(dependents, v) ==> w in visited || w in stack)
  }

  ghost predicate Pushed(rest: seq<nat>, list: seq<nat>, i: nat, stack: seq<nat>) {
    i <= |list| && forall v :: v in stack <==> v in rest || v in list[..i]
  }

  lemma PushedNone(rest: seq<nat>, list: seq<nat>)
    ensures Pushed(rest, list, 0, rest)
  {
  }

  lemma PushedOne(rest: seq<nat>, list: seq<nat>, i: nat, stack: seq<nat>)
    requires Pushed(rest, list, i, stack) && i < |list|
    ensures Pushed(rest, list, i + 1, stack + [list[i]])
  {
    assert list[..i + 1] == list[..i] + [list[i]];
  }

  lemma ExploreStart(dependents: Links, from: nat, to: nat, ids: set<nat>)
    requires from in ids
    ensures Explored(dependents, from, to, ids, {}, [from])
  {
    hide Leads;
    LeadsRefl(dependents, from);
  }

  lemma ExploreFound(dependents: Links, from: nat, to: nat, ids: set<nat>, visited: set<nat>, stack: seq<nat>)
    requires Explored(dependents, from, to, ids, visited, stack) && stack != [] && stack[|stack| - 1] == to
    ensures Leads(dependents, from, to)
  {
    hide Leads, Of;
    assert to in stack;
  }

  lemma ExploreAgain(dependents: Links, from: nat, to: nat, ids: set<nat>, visited: set<nat>, stack: seq<nat>)
    requires Explored(dependents, from, to, ids, visited, stack) && stack != [] && stack[|stack| - 1] in visited
    ensures Explored(dependents, from, to, ids, visited, stack[..|stack| - 1])
  {
    hide Leads, Of;
    assert stack == stack[..|stack| - 1] + [stack[|stack| - 1]];
  }

  lemma ExploreNode(dependents: Links, from: nat, to: nat, ids: set<nat>, rank: map<nat, nat>, visited: set<nat>,
                    stack: seq<nat>, stack': seq<nat>)
    requires Explored(dependents, from, to, ids, visited, stack) && Ranked(ids, dependents, rank)
    requires stack != [] && stack[|stack| - 1] != to
    requires Pushed(stack[..|stack| - 1], Of(dependents, stack[|stack| - 1]),
                    |Of(dependents, stack[|stack| - 1])|, stack')
    ensures Explored(dependents, from, to, ids, visited + {stack[|stack| - 1]}, stack')
    ensures stack[|stack| - 1] in ids
  {
    hide Leads, Of;
    var node := stack[|stack| - 1];
    var list := Of(dependents, node);
    assert stack == stack[..|stack| - 1] + [node];
    assert list[..|list|] == list;
    forall w | w in list ensures w in ids && Leads(dependents, from, w) {
      LeadsStep(dependents, from, node, w);
    }
  }

  lemma ExploreDone(dependents: Links, from: nat, to: nat, ids: set<nat>, visited: set<nat>)
    requires Explored(dependents, from, to, ids, visited, [])
    ensures !Leads(dependents, from, to)
  {
    hide Leads, Of;
    if Leads(dependents, from, to) {
      LeadsWithin(dependents, visited, from, to);
    }
  }

  lemma LeadsWithin(dependents: Links, s: set<nat>, u: nat, v: nat)
    requires Leads(dependents, u, v) && u in s
    requires forall x, y :: x in s && y in Of(dependents, x) ==> y in s
    ensures v in s
  {
    hide Chain, Of;
    var c: seq<nat> :| ChainBetween(dependents, u, v, c);
    ChainWithin(dependents, s, c);
  }

  // --- readiness

  predicate IsCompleted(tasks: map<nat, Task>, v: nat) {
    v in tasks ==> tasks[v].completed
  }

  predicate IsReady(tasks: map<nat, Task>, dependencies: Links, v: nat) {
    v in tasks && !tasks[v].completed && forall d :: d in Of(dependencies, v) ==> IsCompleted(tasks, d)
  }

  lemma NothingTwice()
    ensures Distinct<nat>([])
  {
  }

  function ReadySet(tasks: map<nat, Task>, dependencies: Links): set<nat> {
    set v | v in tasks && IsReady(tasks, dependencies, v)
  }

  lemma ReadyIs(tasks: map<nat, Task>, dependencies: Links, t: nat)
    ensures t in ReadySet(tasks, dependencies) <==>
              && t in tasks && !tasks[t].completed
              && forall d :: t in dependencies && d in dependencies[t] && d in tasks ==> tasks[d].completed
  {
    forall d ensures d in Of(dependencies, t) <==> t in dependencies && d in dependencies[t] {}
    hide Of;
  }

  lemma ElemsMember(s: seq<nat>, x: nat)
    ensures x in s <==> x in Elems(s)
  {
  }

  /** Work never stalls: while a task is incomplete, some task is ready. */
  lemma SomeTaskReady(tasks: map<nat, Task>, dependencies: Links, dependents: Links, rank: map<nat, nat>)
    requires WellFormed(tasks.Keys, dependencies, dependents, rank)
    ensures ReadySet(tasks, dependencies) == {} <==> forall v :: v in tasks ==> tasks[v].completed
  {
    hide Converse, Ranked, Of;
    var open := set v | v in tasks && !tasks[v].completed;
    if open == {} {
      forall v | v in tasks ensures tasks[v].completed {
        assert v !in open;
      }
    } else {
      var t := LowestTask(tasks.Keys, dependencies, dependents, rank, open);
      forall d | d in Of(dependencies, t) ensures IsCompleted(tasks, d) {
        assert d !in open;
      }
      assert t in ReadySet(tasks, dependencies);
    }
  }
}
