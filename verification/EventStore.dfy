/** The in-memory event store with optimistic versioning,
    crates/core/src/event_store.rs:402-557, and replay, lines 639-662. */
module EventStore {

  datatype Envelope = Envelope(id: nat, aggregateId: string, aggregateType: string, eventType: string, version: nat,
                               data: string)

  datatype AppendResult = Appended | VersionConflict(aggregateId: string, expected: nat, got: nat)

  datatype Selector = ByAggregate(id: string) | ByType(kind: string)

  predicate Selects(sel: Selector, e: Envelope) {
    match sel
    case ByAggregate(id) => e.aggregateId == id
    case ByType(kind) => e.aggregateType == kind
  }

  // --- filters of the log and their positions

  function Filter(events: seq<Envelope>, sel: Selector): seq<Envelope> {
    if events == [] then []
    else
      Filter(events[..|events| - 1], sel)
      + if Selects(sel, events[|events| - 1]) then [events[|events| - 1]] else []
  }

  function Positions(events: seq<Envelope>, sel: Selector): seq<nat> {
    if events == [] then []
    else
      Positions(events[..|events| - 1], sel)
      + if Selects(sel, events[|events| - 1]) then [|events| - 1] else []
  }

  lemma FilterAppend(events: seq<Envelope>, sel: Selector, e: Envelope)
    ensures Filter(events + [e], sel) == Filter(events, sel) + if Selects(sel, e) then [e] else []
    ensures Positions(events + [e], sel) == Positions(events, sel) + if Selects(sel, e) then [|events|] else []
  {
    assert (events + [e])[..|events|] == events;
  }

  /** The k-th position holds the k-th event of the filter. */
  lemma {:induction false} PositionsFilter(events: seq<Envelope>, sel: Selector)
    ensures |Positions(events, sel)| == |Filter(events, sel)|
    ensures forall k :: 0 <= k < |Positions(events, sel)| ==>
              Positions(events, sel)[k] < |events| && events[Positions(events, sel)[k]] == Filter(events, sel)[k]
  {
    if events != [] {
      var init := events[..|events| - 1];
      PositionsFilter(init, sel);
      var ps, fs := Positions(init, sel), Filter(init, sel);
      forall k | 0 <= k < |Positions(events, sel)|
        ensures Positions(events, sel)[k] < |events| && events[Positions(events, sel)[k]] == Filter(events, sel)[k]
      {
        if k < |ps| {
          assert Positions(events, sel)[k] == ps[k] && Filter(events, sel)[k] == fs[k];
          assert events[ps[k]] == init[ps[k]];
        }
      }
    }
  }

  /** The events of every aggregate are numbered 1, 2, 3, ... in log order. */
  ghost predicate WellVersioned(events: seq<Envelope>) {
    forall id, k {:trigger Filter(events, ByAggregate(id))[k]} ::
      0 <= k < |Filter(events, ByAggregate(id))| ==> Filter(events, ByAggregate(id))[k].version == k + 1
  }

  function Latest(events: seq<Envelope>, id: string): nat {
    |Filter(events, ByAggregate(id))|
  }

  lemma AppendVersioned(events: seq<Envelope>, e: Envelope)
    requires WellVersioned(events) && e.version == Latest(events, e.aggregateId) + 1
    ensures WellVersioned(events + [e])
  {
    hide Filter;
    forall id, k | 0 <= k < |Filter(events + [e], ByAggregate(id))|
      ensures Filter(events + [e], ByAggregate(id))[k].version == k + 1
    {
      FilterAppend(events, ByAggregate(id), e);
      assert k < |Filter(events, ByAggregate(id))| ==> Filter(events, ByAggregate(id))[k].version == k + 1;
    }
  }

  function Since(events: seq<Envelope>, version: nat): seq<Envelope> {
    if events == [] then []
    else
      Since(events[..|events| - 1], version)
      + if events[|events| - 1].version > version then [events[|events| - 1]] else []
  }

  /** Of events numbered 1, 2, ... those after version v are the rest after the first v. */
  lemma {:induction false} SinceIsRest(events: seq<Envelope>, version: nat)
    requires forall k :: 0 <= k < |events| ==> events[k].version == k + 1
    ensures Since(events, version) == if version <= |events| then events[version..] else []
  {
    if events != [] {
      var init, last := events[..|events| - 1], events[|events| - 1];
      SinceIsRest(init, version);
      if version <= |init| {
        LastOfRest(events, version);
      }
    }
  }

  lemma LastOfRest<T>(s: seq<T>, k: nat)
    requires k < |s|
    ensures s[k..] == s[..|s| - 1][k..] + [s[|s| - 1]]
  {
  }

  // --- the store

  type Index = map<string, seq<nat>>

  function Entries(index: Index, key: string): seq<nat> {
    if key in index then index[key] else []
  }

  class InMemoryEventStore {
    var events: seq<Envelope>
    var byAggregate: Index
    var byType: Index

    /** Both indexes equal the positions of the log they stand for, and the
        versions of every aggregate run from 1 without gap or repetition. */
    ghost predicate Valid()
      reads this
    {
      && (forall id :: Entries(byAggregate, id) == Positions(events, ByAggregate(id)))
      && (forall kind :: Entries(byType, kind) == Positions(events, ByType(kind)))
      && WellVersioned(events)
    }

    constructor ()
      ensures Valid() && events == []
    {
      events, byAggregate, byType := [], map[], map[];
    }

    method Append(event: Envelope) returns (r: AppendResult)
      requires Valid()
      modifies this
      ensures Valid()
      ensures r == Appended <==> event.version == Latest(old(events), event.aggregateId) + 1
      ensures r == Appended ==> events == old(events) + [event]
      ensures r != Appended ==>
                && r == VersionConflict(event.aggregateId, Latest(old(events), event.aggregateId) + 1, event.version)
                && events == old(events) && byAggregate == old(byAggregate) && byType == old(byType)
    {
      hide Filter, Positions, WellVersioned;
      var id, kind := event.aggregateId, event.aggregateType;
      PositionsFilter(events, ByAggregate(id));
      var current := |Entries(byAggregate, id)|;
      if event.version != current + 1 {
        return VersionConflict(id, current + 1, event.version);
      }
      var idx := |events|;
      AppendVersioned(events, event);
      forall sel
        ensures Positions(events + [event], sel) == Positions(events, sel) + if Selects(sel, event) then [idx] else []
      {
        FilterAppend(events, sel, event);
      }
      events := events + [event];
      byAggregate := byAggregate[id := Entries(byAggregate, id) + [idx]];
      byType := byType[kind := Entries(byType, kind) + [idx]];
      return Appended;
    }

    method ReadEvents(aggregateId: string) returns (r: seq<Envelope>)
      requires Valid()
      ensures r == Filter(events, ByAggregate(aggregateId))
    {
      hide Filter, Positions, WellVersioned;
      PositionsFilter(events, ByAggregate(aggregateId));
      var indices := Entries(byAggregate, aggregateId);
      var log := events;
      assert forall i :: 0 <= i < |indices| ==> indices[i] < |log|;
      r := seq(|indices|, i requires 0 <= i < |indices| && indices[i] < |log| => log[indices[i]]);
    }

    method ReadAll(aggregateType: string) returns (r: seq<Envelope>)
      requires Valid()
      ensures r == Filter(events, ByType(aggregateType))
    {
      hide Filter, Positions, WellVersioned;
      PositionsFilter(events, ByType(aggregateType));
      var indices := Entries(byType, aggregateType);
      var log := events;
      assert forall i :: 0 <= i < |indices| ==> indices[i] < |log|;
      r := seq(|indices|, i requires 0 <= i < |indices| && indices[i] < |log| => log[indices[i]]);
    }

    method ReadSinceVersion(aggregateId: string, sinceVersion: nat) returns (r: seq<Envelope>)
      requires Valid()
      ensures
        var all := Filter(events, ByAggregate(aggregateId));
        r == if sinceVersion <= |all| then all[sinceVersion..] else []
    {
      hide Filter, Positions;
      var sel := ByAggregate(aggregateId);
      PositionsFilter(events, sel);
      var indices := Entries(byAggregate, aggregateId);
      ghost var all := Filter(events, sel);
      r := [];
      var i := 0;
      while i < |indices|
        invariant 0 <= i <= |indices|
        invariant r == Since(all[..i], sinceVersion)
      {
        var e := events[indices[i]];
        assert e == all[i] && all[..i + 1][..i] == all[..i];
        if e.version > sinceVersion {
          r := r + [e];
        }
        i := i + 1;
      }
      assert all[..i] == all;
      SinceIsRest(all, sinceVersion);
    }

    method LatestVersion(aggregateId: string) returns (v: nat)
      requires Valid()
      ensures v == Latest(events, aggregateId)
    {
      PositionsFilter(events, ByAggregate(aggregateId));
      v := |Entries(byAggregate, aggregateId)|;
    }

    method Count(aggregateType: string) returns (n: nat)
      requires Valid()
      ensures n == |Filter(events, ByType(aggregateType))|
    {
      PositionsFilter(events, ByType(aggregateType));
      n := |Entries(byType, aggregateType)|;
    }

    method Clear()
      modifies this
      ensures Valid() && events == []
    {
      events, byAggregate, byType := [], map[], map[];
    }
  }

  // --- replay

  function Fold<S, E>(apply: (S, E) -> S, state: S, events: seq<E>): S {
    if events == [] then state else apply(Fold(apply, state, events[..|events| - 1]), events[|events| - 1])
  }

  /** From the initial state each state is what applying the next event makes of
      the one before. */
  ghost predicate States<S, E>(apply: (S, E) -> S, initial: S, events: seq<E>, states: seq<S>) {
    && |states| == |events| + 1 && states[0] == initial
    && forall i :: 0 <= i < |events| ==> states[i + 1] == apply(states[i], events[i])
  }

  /** `states` are the initial state and the state after each event. */
  method Replay<S, E>(apply: (S, E) -> S, initial: S, events: seq<E>) returns (state: S, ghost states: seq<S>)
    ensures state == Fold(apply, initial, events)
    ensures States(apply, initial, events, states) && state == states[|events|]
  {
    state, states := initial, [initial];
    var i := 0;
    while i < |events|
      invariant 0 <= i <= |events| && state == Fold(apply, initial, events[..i])
      invariant States(apply, initial, events[..i], states) && state == states[i]
    {
      assert events[..i + 1][..i] == events[..i];
      state := apply(state, events[i]);
      states := states + [state];
      i := i + 1;
    }
    assert events[..i] == events;
  }

  /** The fold is the last of the states, whatever list of states is given. */
  lemma {:induction false} FoldIsLast<S, E>(apply: (S, E) -> S, initial: S, events: seq<E>, states: seq<S>)
    requires States(apply, initial, events, states)
    ensures Fold(apply, initial, events) == states[|events|]
  {
    if events != [] {
      FoldIsLast(apply, initial, events[..|events| - 1], states[..|events|]);
    }
  }

  lemma {:induction false} FoldConcat<S, E>(apply: (S, E) -> S, state: S, a: seq<E>, b: seq<E>)
    ensures Fold(apply, state, a + b) == Fold(apply, Fold(apply, state, a), b)
  {
    if b == [] {
      assert a + b == a;
    } else {
      assert (a + b)[..|a + b| - 1] == a + b[..|b| - 1];
      FoldConcat(apply, state, a, b[..|b| - 1]);
    }
  }

  lemma FoldSplit<S, E>(apply: (S, E) -> S, state: S, all: seq<E>, n: nat)
    requires n <= |all|
    ensures Fold(apply, Fold(apply, state, all[..n]), all[n..]) == Fold(apply, state, all)
  {
    hide Fold;
    FoldConcat(apply, state, all[..n], all[n..]);
    assert all[..n] + all[n..] == all;
  }

  /** A snapshot taken after the first v events of an aggregate, caught up with
      the events read since version v, equals the full replay. */
  lemma CatchUp<S>(apply: (S, Envelope) -> S, initial: S, events: seq<Envelope>, id: string, v: nat)
    requires WellVersioned(events)
    ensures
      var all := Filter(events, ByAggregate(id));
      var snapshot := Fold(apply, initial, if v <= |all| then all[..v] else all);
      Fold(apply, snapshot, Since(all, v)) == Fold(apply, initial, all)
  {
    hide Filter, Fold, Since;
    var all := Filter(events, ByAggregate(id));
    SinceIsRest(all, v);
    hide WellVersioned;
    if v <= |all| {
      FoldSplit(apply, initial, all, v);
    } else {
      FoldSplit(apply, initial, all, |all|);
      assert all[..|all|] == all && all[|all|..] == [];
    }
  }

  // --- clients that read the latest version and append the next

  type Client = nat

  /** The log, and the version each client last read of each aggregate. */
  datatype World = World(log: seq<Envelope>, seen: map<(Client, string), nat>)

  datatype Op =
    | Look(client: Client, id: string)
    | Try(client: Client, event: Envelope)

  /** One atomic call. A client numbers its event by what it last read, 0 if
      nothing; the store takes it only if it is the next version. */
  function Step(w: World, op: Op): World {
    match op
    case Look(c, id) => w.(seen := w.seen[(c, id) := Latest(w.log, id)])
    case Try(c, e) => if Accepted(w, c, e) then w.(log := w.log + [Numbered(w, c, e)]) else w
  }

  function Numbered(w: World, c: Client, e: Envelope): Envelope {
    e.(version := (if (c, e.aggregateId) in w.seen then w.seen[(c, e.aggregateId)] else 0) + 1)
  }

  predicate Accepted(w: World, c: Client, e: Envelope) {
    Numbered(w, c, e).version == Latest(w.log, e.aggregateId) + 1
  }

  function Run(w: World, ops: seq<Op>): World {
    if ops == [] then w else Step(Run(w, ops[..|ops| - 1]), ops[|ops| - 1])
  }

  ghost predicate Reachable(w: World) {
    exists ops :: w == Run(World([], map[]), ops)
  }

  lemma {:induction false} RunVersioned(w: World, ops: seq<Op>)
    requires WellVersioned(w.log)
    ensures WellVersioned(Run(w, ops).log)
    ensures w.log <= Run(w, ops).log
  {
    if ops != [] {
      hide WellVersioned, Latest;
      var before := Run(w, ops[..|ops| - 1]);
      RunVersioned(w, ops[..|ops| - 1]);
      match ops[|ops| - 1]
      case Look(_, _) =>
      case Try(c, e) =>
        if Accepted(before, c, e) {
          AppendVersioned(before.log, Numbered(before, c, e));
        }
    }
  }

  /** In every reachable world the versions of each aggregate run 1..n. */
  lemma ReachableVersioned(w: World)
    requires Reachable(w)
    ensures WellVersioned(w.log)
  {
    var ops :| w == Run(World([], map[]), ops);
    RunVersioned(World([], map[]), ops);
  }

  lemma {:induction false} FilterPrefix(a: seq<Envelope>, b: seq<Envelope>, sel: Selector)
    requires a <= b
    ensures Filter(a, sel) <= Filter(b, sel)
  {
    if |a| < |b| {
      FilterPrefix(a, b[..|b| - 1], sel);
    } else {
      assert a == b;
    }
  }

  predicate LooksAgain(op: Op, c: Client, id: string) {
    op == Look(c, id)
  }

  lemma {:induction false} SeenKept(w: World, ops: seq<Op>, c: Client, id: string)
    requires (c, id) in w.seen && forall i :: 0 <= i < |ops| ==> !LooksAgain(ops[i], c, id)
    ensures (c, id) in Run(w, ops).seen && Run(w, ops).seen[(c, id)] == w.seen[(c, id)]
  {
    if ops != [] {
      hide Latest, Accepted;
      SeenKept(w, ops[..|ops| - 1], c, id);
    }
  }

  /** No lost update: whatever any clients do between a client's look at an
      aggregate and its append, the append is accepted exactly when no event of
      that aggregate was accepted in between; a rejected one changes nothing. */
  lemma NoLostUpdate(w: World, between: seq<Op>, c: Client, e: Envelope)
    requires WellVersioned(w.log)
    requires forall i :: 0 <= i < |between| ==> !LooksAgain(between[i], c, e.aggregateId)
    ensures
      var looked := Step(w, Look(c, e.aggregateId));
      var later := Run(looked, between);
      var tried := Step(later, Try(c, e));
      var sel := ByAggregate(e.aggregateId);
      && (Accepted(later, c, e) <==> Filter(later.log, sel) == Filter(w.log, sel))
      && (!Accepted(later, c, e) ==> tried == later)
      && (Accepted(later, c, e) ==> tried.log == later.log + [Numbered(later, c, e)])
  {
    hide WellVersioned, Filter, Run;
    var looked := Step(w, Look(c, e.aggregateId));
    var later := Run(looked, between);
    SeenKept(looked, between, c, e.aggregateId);
    RunVersioned(looked, between);
    FilterPrefix(w.log, later.log, ByAggregate(e.aggregateId));
  }

  // --- the same clients on the store itself

  /** A store shared by clients that remember what they last read. */
  class Clients {
    const store: InMemoryEventStore
    var seen: map<(Client, string), nat>

    ghost predicate Valid()
      reads this, store
    {
      store.Valid()
    }

    ghost function Now(): World
      reads this, store
    {
      World(store.events, seen)
    }

    constructor ()
      ensures Valid() && fresh(store) && Now() == World([], map[])
    {
      store := new InMemoryEventStore();
      seen := map[];
    }

    /** One call on the store is one step of the world. */
    method Do(op: Op) returns (accepted: bool)
      requires Valid()
      modifies this, store
      ensures Valid() && Now() == Step(old(Now()), op)
      ensures accepted <==> op.Look? || Accepted(old(Now()), op.client, op.event)
    {
      hide Filter, Positions, WellVersioned;
      match op {
        case Look(c, id) =>
          var v := store.LatestVersion(id);
          seen := seen[(c, id) := v];
          return true;
        case Try(c, e) =>
          var last := if (c, e.aggregateId) in seen then seen[(c, e.aggregateId)] else 0;
          var r := store.Append(e.(version := last + 1));
          return r.Appended?;
      }
    }

    method DoAll(ops: seq<Op>)
      requires Valid()
      modifies this, store
      ensures Valid() && Now() == Run(old(Now()), ops)
    {
      hide Step, Filter, Positions, WellVersioned;
      ghost var start := Now();
      var i := 0;
      while i < |ops|
        invariant 0 <= i <= |ops| && Valid()
        invariant Now() == Run(start, ops[..i])
      {
        var _ := Do(ops[i]);
        assert ops[..i + 1][..i] == ops[..i];
        i := i + 1;
      }
      assert ops[..i] == ops;
    }

    /** A client looks, anything happens, the client appends: the store takes
        the event exactly when it took no other of that aggregate in between,
        and otherwise is as it was. */
    method LookThenTry(c: Client, e: Envelope, between: seq<Op>) returns (accepted: bool)
      requires Valid() && forall i :: 0 <= i < |between| ==> !LooksAgain(between[i], c, e.aggregateId)
      modifies this, store
      ensures Valid()
      ensures
        var later := Run(Step(old(Now()), Look(c, e.aggregateId)), between);
        var sel := ByAggregate(e.aggregateId);
        && (accepted <==> Filter(later.log, sel) == Filter(old(store.events), sel))
        && (accepted ==> store.events == later.log + [Numbered(later, c, e)])
        && (!accepted ==> Now() == later)
    {
      hide Filter, Positions, WellVersioned, Step, Accepted, Run;
      NoLostUpdate(Now(), between, c, e);
      var _ := Do(Look(c, e.aggregateId));
      DoAll(between);
      accepted := Do(Try(c, e));
    }
  }

  /** Whatever clients do from an empty store on, the versions of each aggregate
      in the store run 1..n, and its indexes are filters of its log. */
  method RunClients(ops: seq<Op>) returns (clients: Clients)
    ensures fresh(clients) && clients.Valid()
    ensures clients.Now() == Run(World([], map[]), ops) && WellVersioned(clients.store.events)
  {
    hide Filter, Positions, WellVersioned, Run;
    clients := new Clients();
    clients.DoAll(ops);
    assert Reachable(clients.Now());
    ReachableVersioned(clients.Now());
  }
}
