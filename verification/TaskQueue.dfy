/** The priority queue of the collection fabric, crates/fabric/src/queue.rs:
    a binary heap by priority and arrival. Each method runs under one lock and
    is one atomic step. */
module TaskQueue {
  import opened Options
  import opened Sorting

  datatype Priority = Critical | High | Medium | Low | Background

  datatype Task = Task(id: string, priority: Priority, payload: string)

  datatype Entry = Entry(task: Task, arrival: nat)

  datatype EnqueueResult = Enqueued | DuplicateTask(id: string)

  function Rank(p: Priority): nat {
    match p
    case Critical => 0
    case High => 1
    case Medium => 2
    case Low => 3
    case Background => 4
  }

  /** Higher priority first; within one priority, earlier arrival first. */
  predicate Less(a: Entry, b: Entry) {
    || Rank(a.task.priority) < Rank(b.task.priority)
    || (Rank(a.task.priority) == Rank(b.task.priority) && a.arrival < b.arrival)
  }

  /** By the priorities' names: what is served while `waiting` is queued is
      critical if that is, and so on down to the background. */
  predicate AsUrgent(served: Priority, waiting: Priority) {
    match waiting
    case Critical => served == Critical
    case High => served == Critical || served == High
    case Medium => served == Critical || served == High || served == Medium
    case Low => served != Background
    case Background => true
  }

  lemma LessIs(a: Entry, b: Entry)
    ensures Less(a, b) <==>
            && AsUrgent(a.task.priority, b.task.priority)
            && (a.task.priority == b.task.priority ==> a.arrival < b.arrival)
  {
  }

  function Parent(i: nat): nat
    requires i > 0
  {
    (i - 1) / 2
  }

  // --- the heap

  ghost predicate Ordered(h: seq<Entry>, i: nat)
    requires 0 < i < |h|
  {
    !Less(h[i], h[Parent(i)])
  }

  ghost predicate HeapShape(h: seq<Entry>) {
    forall i: nat :: 0 < i < |h| ==> Ordered(h, i)
  }

  /** A heap but for the edge above `k`, below which nothing is smaller than
      the parent of `k`. */
  ghost predicate HeapButUp(h: seq<Entry>, k: nat) {
    && k < |h|
    && (forall i: nat :: 0 < i < |h| && i != k ==> Ordered(h, i))
    && (forall i: nat :: 0 < i < |h| && Parent(i) == k && k > 0 ==> !Less(h[i], h[Parent(k)]))
  }

  /** A heap but for the edges below `k`, under which nothing is smaller than
      the parent of `k`. */
  ghost predicate HeapButDown(h: seq<Entry>, k: nat) {
    && k < |h|
    && (forall i: nat :: 0 < i < |h| && Parent(i) != k ==> Ordered(h, i))
    && (forall i: nat :: 0 < i < |h| && Parent(i) == k && k > 0 ==> !Less(h[i], h[Parent(k)]))
  }

  function Swap(h: seq<Entry>, i: nat, j: nat): (s: seq<Entry>)
    requires i < |h| && j < |h|
    ensures |s| == |h|
  {
    h[i := h[j]][j := h[i]]
  }

  lemma SwapMultiset(h: seq<Entry>, i: nat, j: nat)
    requires i < |h| && j < |h|
    ensures multiset(Swap(h, i, j)) == multiset(h)
  {
  }

  lemma SwapUp(h: seq<Entry>, k: nat)
    requires HeapButUp(h, k) && k > 0 && Less(h[k], h[Parent(k)])
    ensures HeapButUp(Swap(h, k, Parent(k)), Parent(k))
  {
    var p := Parent(k);
    var g := Swap(h, k, p);
    forall i: nat | 0 < i < |g| && i != p ensures Ordered(g, i) {
      if i != k && Parent(i) != p && Parent(i) != k {
        assert Ordered(h, i);
      } else if i != k && Parent(i) == p {
        assert Ordered(h, i);
      }
    }
    forall i: nat | 0 < i < |g| && Parent(i) == p && p > 0 ensures !Less(g[i], g[Parent(p)]) {
      assert Ordered(h, p);
      assert i != k ==> Ordered(h, i);
    }
  }

  method BubbleUp(heap: seq<Entry>, start: nat) returns (h: seq<Entry>)
    requires HeapButUp(heap, start)
    ensures HeapShape(h) && multiset(h) == multiset(heap)
  {
    hide Less;
    h := heap;
    var idx: nat := start;
    while idx > 0
      invariant HeapButUp(h, idx) && multiset(h) == multiset(heap)
      decreases idx
    {
      var parent: nat := (idx - 1) / 2;
      if !Less(h[idx], h[parent]) {
        assert Ordered(h, idx);
        break;
      }
      SwapUp(h, idx);
      SwapMultiset(h, idx, parent);
      h := Swap(h, idx, parent);
      idx := parent;
    }
  }

  lemma SwapDown(h: seq<Entry>, k: nat, c: nat)
    requires HeapButDown(h, k) && 0 < c < |h| && Parent(c) == k && Less(h[c], h[k])
    requires forall i: nat :: 0 < i < |h| && Parent(i) == k ==> !Less(h[i], h[c])
    ensures HeapButDown(Swap(h, k, c), c)
  {
    var g := Swap(h, k, c);
    forall i: nat | 0 < i < |g| && Parent(i) != c ensures Ordered(g, i) {
      if i == k || i == c || Parent(i) == k {
      } else {
        assert Ordered(h, i);
      }
    }
    forall i: nat | 0 < i < |g| && Parent(i) == c ensures !Less(g[i], g[Parent(c)]) {
      assert Ordered(h, i);
    }
  }

  method BubbleDown(heap: seq<Entry>, start: nat) returns (h: seq<Entry>)
    requires start < |heap| && HeapButDown(heap, start)
    ensures HeapShape(h) && multiset(h) == multiset(heap)
  {
    hide Rank, HeapButDown, HeapShape, NotAbove, Swap;
    h := heap;
    var idx: nat := start;
    while true
      invariant idx < |h| == |heap| && HeapButDown(h, idx) && multiset(h) == multiset(heap)
      decreases |heap| - idx
    {
      var smallest: nat := idx;
      var left: nat, right: nat := 2 * idx + 1, 2 * idx + 2;
      if left < |h| && Less(h[left], h[smallest]) {
        smallest := left;
      }
      if right < |h| && Less(h[right], h[smallest]) {
        smallest := right;
      }
      LeastOfThree(h, idx, smallest);
      DownStep(h, idx, smallest);
      if smallest == idx {
        break;
      }
      h := Swap(h, idx, smallest);
      idx := smallest;
    }
  }

  lemma ChildrenOf(h: seq<Entry>, k: nat)
    ensures forall i: nat :: 0 < i < |h| && Parent(i) == k ==> i == 2 * k + 1 || i == 2 * k + 2
    ensures Parent(2 * k + 1) == k && Parent(2 * k + 2) == k
  {
  }

  /** No child of `k` is below `c`. */
  ghost predicate NotAbove(h: seq<Entry>, k: nat, c: nat) {
    && c < |h| && (c == k || (c > 0 && Parent(c) == k && Less(h[c], h[k])))
    && forall i: nat :: 0 < i < |h| && Parent(i) == k ==> !Less(h[i], h[c])
  }

  lemma LeastOfThree(h: seq<Entry>, k: nat, c: nat)
    requires k < |h| && c < |h|
    requires c == k || ((c == 2 * k + 1 || c == 2 * k + 2) && Less(h[c], h[k]))
    requires 2 * k + 1 < |h| ==> !Less(h[2 * k + 1], h[c])
    requires 2 * k + 2 < |h| ==> !Less(h[2 * k + 2], h[c])
    ensures NotAbove(h, k, c)
  {
    hide Less;
    ChildrenOf(h, k);
  }

  lemma DownStep(h: seq<Entry>, k: nat, c: nat)
    requires k < |h| && HeapButDown(h, k) && NotAbove(h, k, c)
    ensures c == k ==> HeapShape(h)
    ensures c != k ==> HeapButDown(Swap(h, k, c), c) && multiset(Swap(h, k, c)) == multiset(h)
  {
    if c == k {
      forall i: nat | 0 < i < |h| ensures Ordered(h, i) {}
    } else {
      SwapDown(h, k, c);
      SwapMultiset(h, k, c);
    }
  }

  lemma {:induction false} RootLeast(h: seq<Entry>, i: nat)
    requires HeapShape(h) && i < |h|
    ensures !Less(h[i], h[0])
  {
    if i > 0 {
      assert Ordered(h, i);
      RootLeast(h, Parent(i));
    }
  }

  // --- the queue

  function Ids(h: seq<Entry>): set<string> {
    set i | 0 <= i < |h| :: h[i].task.id
  }

  /** No two entries share an id or an arrival number. */
  ghost predicate AllDifferent(h: seq<Entry>) {
    forall i, j :: 0 <= i < j < |h| ==> h[i].task.id != h[j].task.id && h[i].arrival != h[j].arrival
  }

  /** Of `pending`, none comes before `e`. */
  ghost predicate IsNext(pending: multiset<Entry>, e: Entry) {
    e in pending && forall x :: x in pending && x != e ==> Less(e, x)
  }

  /** `e` is critical if anything critical is pending, else of high priority if
      anything of high priority is, and so on; and of its own priority it arrived
      first. */
  ghost predicate Foremost(pending: multiset<Entry>, e: Entry) {
    && e in pending
    && (match e.task.priority
        case Critical => true
        case High => Without(pending, {Critical})
        case Medium => Without(pending, {Critical, High})
        case Low => Without(pending, {Critical, High, Medium})
        case Background => Without(pending, {Critical, High, Medium, Low}))
    && forall x :: x in pending && x != e && x.task.priority == e.task.priority ==> e.arrival < x.arrival
  }

  ghost predicate Without(pending: multiset<Entry>, priorities: set<Priority>) {
    forall x :: x in pending ==> x.task.priority !in priorities
  }

  lemma NextIsForemost(pending: multiset<Entry>, e: Entry)
    requires IsNext(pending, e)
    ensures Foremost(pending, e)
  {
    hide Less;
    forall x | x in pending && x != e
      ensures AsUrgent(e.task.priority, x.task.priority)
      ensures x.task.priority == e.task.priority ==> e.arrival < x.arrival
    {
      LessIs(e, x);
    }
  }

  ghost predicate Numbered(h: seq<Entry>, seqNo: nat) {
    AllDifferent(h) && forall i :: 0 <= i < |h| ==> h[i].arrival < seqNo
  }

  /** `e` is next in `before` and what remains without it is `after`. */
  ghost predicate Departs(before: multiset<Entry>, after: multiset<Entry>, e: Entry) {
    IsNext(before, e) && after == before - multiset{e}
  }

  lemma DifferentMultiset(g: seq<Entry>, h: seq<Entry>)
    requires multiset(g) == multiset(h) && AllDifferent(g)
    ensures AllDifferent(h) && Ids(h) == Ids(g) && |g| == |h|
  {
    assert Distinct(g);
    MultisetDistinct(g, h);
    forall i, j | 0 <= i < j < |h| ensures h[i].task.id != h[j].task.id && h[i].arrival != h[j].arrival {
      assert h[i] in Elems(g) && h[j] in Elems(g);
      var a :| 0 <= a < |g| && g[a] == h[i];
      var b :| 0 <= b < |g| && g[b] == h[j];
      assert a != b;
    }
    forall id ensures id in Ids(h) <==> id in Ids(g) {
      if id in Ids(h) {
        var i :| 0 <= i < |h| && h[i].task.id == id;
        assert h[i] in Elems(g);
        var a :| 0 <= a < |g| && g[a] == h[i];
      }
      if id in Ids(g) {
        var i :| 0 <= i < |g| && g[i].task.id == id;
        assert g[i] in Elems(h);
        var a :| 0 <= a < |h| && h[a] == g[i];
      }
    }
  }

  lemma RootIsNext(h: seq<Entry>)
    requires HeapShape(h) && AllDifferent(h) && h != []
    ensures IsNext(multiset(h), h[0])
  {
    forall x | x in multiset(h) && x != h[0] ensures Less(h[0], x) {
      var i :| 0 <= i < |h| && h[i] == x;
      RootLeast(h, i);
    }
  }

  /** Appending an entry with a new id and a new arrival number. */
  lemma PushEntry(h: seq<Entry>, e: Entry)
    requires HeapShape(h) && Numbered(h, e.arrival) && e.task.id !in Ids(h)
    ensures HeapButUp(h + [e], |h|) && Numbered(h + [e], e.arrival + 1) && Ids(h + [e]) == Ids(h) + {e.task.id}
  {
    var g := h + [e];
    assert g[|h|] == e;
    forall i: nat | 0 < i < |h| ensures Ordered(g, i) {
      assert Ordered(h, i);
    }
    forall i | 0 <= i < |h| ensures g[i] == h[i] && g[i].task.id in Ids(h) {}
  }

  /** The last entry moved to the root, and the old root dropped. */
  function Popped(h: seq<Entry>): seq<Entry>
    requires h != []
  {
    Swap(h, 0, |h| - 1)[..|h| - 1]
  }

  lemma PoppedParts(h: seq<Entry>)
    requires h != []
    ensures |Popped(h)| == |h| - 1 && Swap(h, 0, |h| - 1) == Popped(h) + [h[0]]
    ensures forall i :: 0 < i < |h| - 1 ==> Popped(h)[i] == h[i]
  {
  }

  lemma PoppedHeap(h: seq<Entry>)
    requires HeapShape(h) && h != []
    ensures Popped(h) != [] ==> HeapButDown(Popped(h), 0)
    ensures |Popped(h)| <= 1 ==> HeapShape(Popped(h))
  {
    hide Less, Swap;
    PoppedParts(h);
    hide Popped;
    var g := Popped(h);
    forall i: nat | 0 < i < |g| && Parent(i) != 0 ensures Ordered(g, i) {
      assert Ordered(h, i);
    }
  }

  lemma PoppedMultiset(h: seq<Entry>)
    requires h != []
    ensures multiset(Popped(h)) == multiset(h) - multiset{h[0]}
  {
    SwapMultiset(h, 0, |h| - 1);
    PoppedParts(h);
    var g := Popped(h);
    hide Popped, Swap;
    assert multiset(g + [h[0]]) == multiset(g) + multiset{h[0]};
  }

  lemma PrefixDifferent(h: seq<Entry>, e: Entry)
    requires AllDifferent(h + [e])
    ensures AllDifferent(h) && Ids(h) == Ids(h + [e]) - {e.task.id}
  {
    var s := h + [e];
    assert s[|h|] == e;
    forall i, j | 0 <= i < j < |h| ensures h[i].task.id != h[j].task.id && h[i].arrival != h[j].arrival {
      assert s[i] == h[i] && s[j] == h[j];
    }
    forall i | 0 <= i < |h| ensures h[i].task.id != e.task.id && h[i].task.id in Ids(s) {
      assert s[i] == h[i];
    }
    forall id | id in Ids(s) && id != e.task.id ensures id in Ids(h) {
      var i :| 0 <= i < |s| && s[i].task.id == id;
      assert s[i] == h[i];
    }
  }

  lemma PoppedDifferent(h: seq<Entry>)
    requires AllDifferent(h) && h != []
    ensures AllDifferent(Popped(h)) && Ids(Popped(h)) == Ids(h) - {h[0].task.id}
  {
    hide AllDifferent, Ids;
    var s := Swap(h, 0, |h| - 1);
    SwapMultiset(h, 0, |h| - 1);
    PoppedParts(h);
    DifferentMultiset(h, s);
    PrefixDifferent(Popped(h), h[0]);
  }

  lemma SameEntries(g: seq<Entry>, h: seq<Entry>, seqNo: nat)
    requires multiset(g) == multiset(h) && Numbered(g, seqNo)
    ensures Numbered(h, seqNo) && Ids(h) == Ids(g) && |h| == |g|
  {
    DifferentMultiset(g, h);
    hide AllDifferent, Ids;
    forall i | 0 <= i < |h| ensures h[i].arrival < seqNo {
      assert h[i] in multiset(g);
    }
  }

  lemma PopEntry(h: seq<Entry>, seqNo: nat)
    requires HeapShape(h) && Numbered(h, seqNo) && h != []
    ensures IsNext(multiset(h), h[0])
    ensures Popped(h) != [] ==> HeapButDown(Popped(h), 0)
    ensures Popped(h) == [] ==> HeapShape(Popped(h))
    ensures multiset(Popped(h)) == multiset(h) - multiset{h[0]}
    ensures Departs(multiset(h), multiset(Popped(h)), h[0]) && |Popped(h)| == |h| - 1
    ensures Numbered(Popped(h), seqNo) && Ids(Popped(h)) == Ids(h) - {h[0].task.id}
  {
    RootIsNext(h);
    PoppedHeap(h);
    PoppedMultiset(h);
    PoppedDifferent(h);
    hide HeapShape, HeapButDown, AllDifferent, Ids, IsNext, Popped, Swap, Less;
    PoppedParts(h);
    PoppedNumbers(h, seqNo);
  }

  lemma PoppedNumbers(h: seq<Entry>, seqNo: nat)
    requires h != [] && forall i :: 0 <= i < |h| ==> h[i].arrival < seqNo
    ensures forall i :: 0 <= i < |Popped(h)| ==> Popped(h)[i].arrival < seqNo
  {
  }

  // --- runs

  datatype Event = Arrive(entry: Entry) | Leave(entry: Entry)

  /** The queued entries after a run of enqueues and dequeues. */
  ghost function Pending(run: seq<Event>): multiset<Entry> {
    if run == [] then multiset{}
    else
      var before := Pending(run[..|run| - 1]);
      match run[|run| - 1]
      case Arrive(e) => before + multiset{e}
      case Leave(e) => before - multiset{e}
  }

  /** Arrival numbers count the enqueues, and every entry that leaves is next. */
  ghost predicate IsRun(run: seq<Event>, seqNo: nat) {
    if run == [] then seqNo == 0
    else
      var before := run[..|run| - 1];
      match run[|run| - 1]
      case Arrive(e) => seqNo > 0 && e.arrival == seqNo - 1 && IsRun(before, seqNo - 1)
      case Leave(e) => IsNext(Pending(before), e) && IsRun(before, seqNo)
  }

  lemma ArriveStep(run: seq<Event>, seqNo: nat, task: Task)
    requires IsRun(run, seqNo)
    ensures IsRun(run + [Arrive(Entry(task, seqNo))], seqNo + 1)
    ensures Pending(run + [Arrive(Entry(task, seqNo))]) == Pending(run) + multiset{Entry(task, seqNo)}
  {
    var next := run + [Arrive(Entry(task, seqNo))];
    assert next[..|next| - 1] == run;
  }

  lemma LeaveStep(run: seq<Event>, seqNo: nat, e: Entry)
    requires IsRun(run, seqNo) && IsNext(Pending(run), e)
    ensures IsRun(run + [Leave(e)], seqNo) && Pending(run + [Leave(e)]) == Pending(run) - multiset{e}
  {
    hide IsNext;
    var next := run + [Leave(e)];
    assert next[..|next| - 1] == run;
  }

  /** The ids of all tasks that ever arrived, queued or processed by now. */
  ghost function Arrived(run: seq<Event>): set<string> {
    set i | 0 <= i < |run| && run[i].Arrive? :: run[i].entry.task.id
  }

  lemma ArrivedStep(run: seq<Event>, event: Event)
    ensures Arrived(run + [event]) == Arrived(run) + if event.Arrive? then {event.entry.task.id} else {}
  {
    var next := run + [event];
    assert next[|run|] == event;
    forall i | 0 <= i < |run| ensures next[i] == run[i] {}
  }

  /** The fields of the queue agree with each other and with its run. */
  ghost predicate Consistent(h: seq<Entry>, byId: map<string, nat>, seen: set<string>, seqNo: nat, run: seq<Event>) {
    && HeapShape(h) && Numbered(h, seqNo)
    && byId.Keys == Ids(h) <= seen == Arrived(run)
    && IsRun(run, seqNo) && Pending(run) == multiset(h)
  }

  lemma PopConsistent(h: seq<Entry>, byId: map<string, nat>, seen: set<string>, seqNo: nat, run: seq<Event>,
                      g: seq<Entry>)
    requires Consistent(h, byId, seen, seqNo, run) && h != []
    requires HeapShape(g) && multiset(g) == multiset(Popped(h))
    ensures Consistent(g, byId - {h[0].task.id}, seen, seqNo, run + [Leave(h[0])])
    ensures Departs(multiset(h), multiset(g), h[0])
  {
    hide HeapShape, HeapButDown, Numbered, Ids, IsNext, IsRun, Pending, Swap, Popped, Departs, Arrived;
    PopEntry(h, seqNo);
    LeaveStep(run, seqNo, h[0]);
    ArrivedStep(run, Leave(h[0]));
    SameEntries(Popped(h), g, seqNo);
  }

  lemma DepartsForemost(before: multiset<Entry>, after: multiset<Entry>, e: Entry)
    requires Departs(before, after, e)
    ensures Foremost(before, e)
  {
    hide IsNext, Foremost;
    NextIsForemost(before, e);
  }

  lemma PopHeap(h: seq<Entry>, seqNo: nat)
    requires HeapShape(h) && Numbered(h, seqNo) && h != []
    ensures Popped(h) == Swap(h, 0, |h| - 1)[..|h| - 1] && |Popped(h)| == |h| - 1
    ensures if Popped(h) == [] then HeapShape(Popped(h)) else HeapButDown(Popped(h), 0)
  {
    hide HeapShape, HeapButDown, Numbered, Ids, IsNext, Swap, Departs;
    PopEntry(h, seqNo);
  }

  lemma PushConsistent(h: seq<Entry>, byId: map<string, nat>, seen: set<string>, seqNo: nat, run: seq<Event>,
                       task: Task, at: nat, g: seq<Entry>)
    requires Consistent(h, byId, seen, seqNo, run) && task.id !in Ids(h)
    requires HeapShape(g) && multiset(g) == multiset(h + [Entry(task, seqNo)])
    ensures Consistent(g, byId[task.id := at], seen + {task.id}, seqNo + 1, run + [Arrive(Entry(task, seqNo))])
    ensures multiset(g) == multiset(h) + multiset{Entry(task, seqNo)}
  {
    hide HeapShape, HeapButUp, Numbered, Ids, IsRun, Pending, Arrived;
    var entry := Entry(task, seqNo);
    PushEntry(h, entry);
    ArriveStep(run, seqNo, task);
    ArrivedStep(run, Arrive(entry));
    SameEntries(h + [entry], g, seqNo + 1);
  }

  class PriorityQueue {
    var heap: seq<Entry>
    var byId: map<string, nat>
    var seen: set<string>
    var seqNo: nat
    ghost var history: seq<Event>

    ghost predicate Valid()
      reads this
    {
      Consistent(heap, byId, seen, seqNo, history)
    }

    constructor ()
      ensures Valid() && heap == [] && seen == {} && seqNo == 0 && history == []
    {
      heap, byId, seen, seqNo, history := [], map[], {}, 0, [];
    }

    /** Rejects an id that is in the queue; one that was dequeued may return.
        The rule that a processed id is rejected too holds of a call exactly if
        the id is queued or never arrived. */
    method Enqueue(task: Task) returns (r: EnqueueResult)
      requires Valid()
      modifies this
      ensures Valid()
      ensures r == DuplicateTask(task.id) <==> task.id in old(Ids(heap))
      ensures r == Enqueued <==> task.id !in old(Ids(heap))
      ensures r == Enqueued ==>
                && multiset(heap) == old(multiset(heap)) + multiset{Entry(task, old(seqNo))}
                && seqNo == old(seqNo) + 1 && seen == old(seen) + {task.id}
                && history == old(history) + [Arrive(Entry(task, old(seqNo)))]
                && byId == old(byId)[task.id := |old(heap)|]
      ensures r != Enqueued ==> unchanged(this)
      ensures (r == Enqueued <==> task.id !in old(seen)) <==> (task.id in old(Ids(heap)) || task.id !in old(seen))
    {
      hide HeapShape, HeapButUp, Numbered, Ids, IsRun, Pending, Arrived;
      assert byId.Keys == Ids(heap) <= seen;
      if task.id in byId {
        return DuplicateTask(task.id);
      }
      var seqNo' := seqNo;
      seqNo := seqNo + 1;
      var idx := |heap|;
      var entry := Entry(task, seqNo');
      PushEntry(heap, entry);
      hide Consistent;
      heap := heap + [entry];
      byId := byId[task.id := idx];
      seen := seen + {task.id};
      heap := BubbleUp(heap, idx);
      PushConsistent(old(heap), old(byId), old(seen), seqNo', history, task, idx, heap);
      history := history + [Arrive(entry)];
      return Enqueued;
    }

    method Dequeue() returns (r: Option<Task>)
      requires Valid()
      modifies this
      ensures Valid()
      ensures r.None? <==> old(heap) == []
      ensures r.None? ==> unchanged(this)
      ensures r.Some? ==>
                && seen == old(seen) && seqNo == old(seqNo)
                && history != [] && history[|history| - 1].Leave?
                && var e := history[|history| - 1].entry;
                   && history == old(history) + [Leave(e)] && r.value == e.task
                   && Departs(old(multiset(heap)), multiset(heap), e) && byId == old(byId) - {e.task.id}
                   && Foremost(old(multiset(heap)), e)
    {
      hide HeapShape, HeapButDown, Numbered, Ids, IsRun, Pending, Swap, Popped, Departs, Arrived;
      if |heap| == 0 {
        return None;
      }
      var last := |heap| - 1;
      var entry := heap[0];
      PopHeap(heap, seqNo);
      hide Consistent;
      heap := Swap(heap, 0, last);
      heap := heap[..last];
      byId := byId - {entry.task.id};
      if |heap| > 0 {
        heap := BubbleDown(heap, 0);
      }
      PopConsistent(old(heap), old(byId), seen, seqNo, history, heap);
      DepartsForemost(old(multiset(heap)), multiset(heap), entry);
      history := history + [Leave(entry)];
      return Some(entry.task);
    }

    method Peek() returns (r: Option<Task>)
      requires Valid()
      ensures r.None? <==> heap == []
      ensures r.Some? ==>
                exists e :: IsNext(multiset(heap), e) && Foremost(multiset(heap), e) && r.value == e.task
    {
      hide Less, Foremost;
      if |heap| == 0 {
        return None;
      }
      RootIsNext(heap);
      NextIsForemost(multiset(heap), heap[0]);
      return Some(heap[0].task);
    }

    method Contains(id: string) returns (r: bool)
      ensures r <==> id in seen
    {
      r := id in seen;
    }
  }

  // --- draining

  /** Repeated dequeuing of `pending` returns `order` and leaves `rest`. */
  ghost predicate DrainsTo(pending: multiset<Entry>, order: seq<Entry>, rest: multiset<Entry>)
    decreases |order|
  {
    if order == [] then pending == rest
    else IsNext(pending, order[0]) && DrainsTo(pending - multiset{order[0]}, order[1..], rest)
  }

  ghost predicate Drains(pending: multiset<Entry>, order: seq<Entry>) {
    DrainsTo(pending, order, multiset{})
  }

  lemma {:induction false} DrainOneMore(pending: multiset<Entry>, order: seq<Entry>, rest: multiset<Entry>, e: Entry)
    requires DrainsTo(pending, order, rest) && IsNext(rest, e)
    ensures DrainsTo(pending, order + [e], rest - multiset{e})
    decreases |order|
  {
    hide IsNext;
    if order == [] {
      assert ([] + [e])[1..] == [];
    } else {
      DrainOneMore(pending - multiset{order[0]}, order[1..], rest, e);
      assert (order + [e])[1..] == order[1..] + [e];
    }
  }

  /** Draining returns every entry once, by priority, and within one priority
      in order of arrival. */
  lemma {:induction false} DrainOrder(pending: multiset<Entry>, order: seq<Entry>)
    requires Drains(pending, order) && Single(pending)
    ensures multiset(order) == pending
    ensures forall i, j :: 0 <= i < j < |order| ==> Less(order[i], order[j])
    decreases |order|
  {
    hide Less;
    if order != [] {
      var first, rest := order[0], order[1..];
      TakeOne(pending, first);
      DrainOrder(pending - multiset{first}, rest);
      assert order == [first] + rest;
      hide Drains, IsNext;
      FirstBeforeRest(pending, first, rest);
    }
  }

  /** First all that is critical, then all of high priority, then medium, low and
      background, each in order of arrival. */
  ghost predicate InGroups(order: seq<Entry>) {
    && (exists a, b, c, d :: Grouped(order, a, b, c, d))
    && forall i, j :: 0 <= i < j < |order| && order[i].task.priority == order[j].task.priority ==>
                        order[i].arrival < order[j].arrival
  }

  ghost predicate Grouped(order: seq<Entry>, a: nat, b: nat, c: nat, d: nat) {
    && a <= b <= c <= d <= |order|
    && AllOf(order[..a], Critical) && AllOf(order[a..b], High) && AllOf(order[b..c], Medium)
    && AllOf(order[c..d], Low) && AllOf(order[d..], Background)
  }

  predicate AllOf(order: seq<Entry>, p: Priority) {
    forall i :: 0 <= i < |order| ==> order[i].task.priority == p
  }

  /** Where the entries of priority `p` that begin at `from` end. */
  lemma Cut(order: seq<Entry>, from: nat, p: Priority) returns (end: nat)
    requires from <= |order|
    ensures from <= end <= |order| && AllOf(order[from..end], p)
    ensures end < |order| ==> order[end].task.priority != p
  {
    end := from;
    while end < |order| && order[end].task.priority == p
      invariant from <= end <= |order| && AllOf(order[from..end], p)
    {
      assert order[from..end + 1] == order[from..end] + [order[end]];
      end := end + 1;
    }
  }

  lemma OrderInGroups(order: seq<Entry>)
    requires forall i, j :: 0 <= i < j < |order| ==> Less(order[i], order[j])
    ensures InGroups(order)
  {
    hide Less, AsUrgent;
    forall i, j | 0 <= i < j < |order|
      ensures AsUrgent(order[i].task.priority, order[j].task.priority)
      ensures order[i].task.priority == order[j].task.priority ==> order[i].arrival < order[j].arrival
    {
      LessIs(order[i], order[j]);
    }
    var a := Cut(order, 0, Critical);
    var b := Cut(order, a, High);
    var c := Cut(order, b, Medium);
    var d := Cut(order, c, Low);
    RestIsBackground(order, a, b, c, d);
    assert order[0..a] == order[..a];
    assert Grouped(order, a, b, c, d);
  }

  lemma RestIsBackground(order: seq<Entry>, a: nat, b: nat, c: nat, d: nat)
    requires a <= b <= c <= d <= |order|
    requires forall i, j :: 0 <= i < j < |order| ==> AsUrgent(order[i].task.priority, order[j].task.priority)
    requires a < |order| ==> order[a].task.priority != Critical
    requires b < |order| ==> order[b].task.priority != High
    requires c < |order| ==> order[c].task.priority != Medium
    requires d < |order| ==> order[d].task.priority != Low
    ensures AllOf(order[d..], Background)
  {
    forall i | d <= i < |order| ensures order[i].task.priority == Background {
      assert i == d || AsUrgent(order[d].task.priority, order[i].task.priority);
      assert c == d || AsUrgent(order[c].task.priority, order[d].task.priority);
      assert b == d || AsUrgent(order[b].task.priority, order[d].task.priority);
      assert a == d || AsUrgent(order[a].task.priority, order[d].task.priority);
      assert a == b || AsUrgent(order[a].task.priority, order[b].task.priority);
      assert b == c || AsUrgent(order[b].task.priority, order[c].task.priority);
    }
  }

  ghost predicate Single(pending: multiset<Entry>) {
    forall e :: pending[e] <= 1
  }

  lemma TakeOne(pending: multiset<Entry>, e: Entry)
    requires Single(pending) && e in pending
    ensures Single(pending - multiset{e}) && e !in pending - multiset{e}
    ensures multiset{e} + (pending - multiset{e}) == pending
  {
  }

  lemma FirstBeforeRest(pending: multiset<Entry>, first: Entry, rest: seq<Entry>)
    requires IsNext(pending, first) && first !in pending - multiset{first}
    requires multiset(rest) == pending - multiset{first}
    ensures forall j :: 0 <= j < |rest| ==> Less(first, rest[j])
  {
    hide Less;
    forall j | 0 <= j < |rest| ensures Less(first, rest[j]) {
      assert rest[j] in multiset(rest);
    }
  }

  lemma NextUnique(pending: multiset<Entry>, a: Entry, b: Entry)
    requires IsNext(pending, a) && IsNext(pending, b)
    ensures a == b
  {
    assert a != b ==> Less(a, b) && Less(b, a);
  }

  /** The next entry is unique, so draining is deterministic. */
  lemma {:induction false} DrainUnique(pending: multiset<Entry>, a: seq<Entry>, b: seq<Entry>)
    requires Drains(pending, a) && Drains(pending, b)
    ensures a == b
    decreases |a|
  {
    hide Less;
    if a != [] && b != [] {
      NextUnique(pending, a[0], b[0]);
      DrainUnique(pending - multiset{a[0]}, a[1..], b[1..]);
      assert a == [a[0]] + a[1..] && b == [b[0]] + b[1..];
    }
  }

  lemma {:induction false} EntriesSingle(h: seq<Entry>)
    requires AllDifferent(h)
    ensures Single(multiset(h))
  {
    assert Distinct(h);
    DistinctCount(h);
  }

  /** Dequeuing until nothing is left returns every queued task once, by
      priority, and within one priority in order of arrival. */
  method Drain(queue: PriorityQueue) returns (tasks: seq<Task>, ghost order: seq<Entry>)
    requires queue.Valid()
    modifies queue
    ensures queue.Valid() && queue.heap == []
    ensures Drains(old(multiset(queue.heap)), order) && multiset(order) == old(multiset(queue.heap))
    ensures |tasks| == |order| && forall i :: 0 <= i < |order| ==> tasks[i] == order[i].task
    ensures (forall i, j :: 0 <= i < j < |order| ==> Less(order[i], order[j])) && InGroups(order)
  {
    hide Less, HeapShape, AllDifferent, Ids, IsRun, Pending, Arrived, IsNext, DrainsTo, InGroups, Foremost;
    tasks, order := [], [];
    ghost var pending := multiset(queue.heap);
    EntriesSingle(queue.heap);
    DrainStart(pending);
    while true
      invariant queue.Valid() && DrainsTo(pending, order, multiset(queue.heap))
      invariant |tasks| == |order| && forall i :: 0 <= i < |order| ==> tasks[i] == order[i].task
      decreases |queue.heap|
    {
      ghost var before := multiset(queue.heap);
      var task := queue.Dequeue();
      if task.None? {
        break;
      }
      ghost var e := queue.history[|queue.history| - 1].entry;
      DrainOneMore(pending, order, before, e);
      Fewer(before, e);
      tasks, order := tasks + [task.value], order + [e];
    }
    assert multiset(queue.heap) == multiset{};
    DrainOrder(pending, order);
    OrderInGroups(order);
  }

  lemma DrainStart(pending: multiset<Entry>)
    ensures DrainsTo(pending, [], pending)
  {
  }

  lemma Fewer(before: multiset<Entry>, e: Entry)
    requires IsNext(before, e)
    ensures |before - multiset{e}| < |before|
  {
  }

  /** An id that was queued and processed is taken again, against the rule that
      it is rejected. */
  method ProcessedIdReturns(task: Task) returns (processed: Option<Task>, r: EnqueueResult)
    ensures processed == Some(task) && r == Enqueued
  {
    hide Less, HeapShape, Numbered, IsRun, Pending, Arrived;
    var queue := new PriorityQueue();
    var first := queue.Enqueue(task);
    processed := queue.Dequeue();
    r := queue.Enqueue(task);
  }

  // --- fairness of every run

  lemma {:induction false} Prefix(run: seq<Event>, seqNo: nat, k: nat) returns (earlier: nat)
    requires IsRun(run, seqNo) && k <= |run|
    ensures IsRun(run[..k], earlier) && earlier <= seqNo
  {
    hide IsNext, Pending;
    if k == |run| {
      assert run[..k] == run;
      return seqNo;
    }
    var before := run[..|run| - 1];
    var s := if run[|run| - 1].Arrive? then seqNo - 1 else seqNo;
    assert before[..k] == run[..k];
    earlier := Prefix(before, s, k);
  }

  /** What arrived and has not left is still queued. */
  lemma {:induction false} StillPending(run: seq<Event>, i: nat, e: Entry)
    requires i < |run| && run[i] == Arrive(e) && Leave(e) !in run
    ensures e in Pending(run)
  {
    var before := run[..|run| - 1];
    assert run == before + [run[|run| - 1]];
    if i < |run| - 1 {
      assert before[i] == run[i];
      StillPending(before, i, e);
      assert run[|run| - 1] != Leave(e);
    }
  }

  lemma StepConserves(before: multiset<Entry>, after: multiset<Entry>, step: Event, e: Entry)
    requires step.Arrive? ==> after == before + multiset{step.entry}
    requires step.Leave? ==> step.entry in before && after == before - multiset{step.entry}
    ensures multiset{step}[Arrive(e)] + before[e] == multiset{step}[Leave(e)] + after[e]
  {
  }

  /** Every task that arrived is either queued or was returned: nothing is lost
      or made up. */
  lemma {:induction false} RunConserves(run: seq<Event>, seqNo: nat, e: Entry)
    requires IsRun(run, seqNo)
    ensures multiset(run)[Arrive(e)] == multiset(run)[Leave(e)] + Pending(run)[e]
  {
    if run != [] {
      var before, last := run[..|run| - 1], run[|run| - 1];
      assert run == before + [last];
      assert multiset(run) == multiset(before) + multiset{last};
      RunConserves(before, if last.Arrive? then seqNo - 1 else seqNo, e);
      StepConserves(Pending(before), Pending(run), last, e);
    }
  }

  /** In every run, when a task is returned, every task that arrived before and
      was not returned comes after it by priority, and by arrival within one
      priority. */
  lemma {:induction false} RunServesInOrder(run: seq<Event>, seqNo: nat, i: nat, j: nat)
    requires IsRun(run, seqNo) && i < j < |run| && run[i].Arrive? && run[j].Leave?
    requires run[i].entry != run[j].entry && Leave(run[i].entry) !in run[..j]
    ensures Less(run[j].entry, run[i].entry)
  {
    hide Less, Pending;
    var upTo := run[..j + 1];
    var s := Prefix(run, seqNo, j + 1);
    assert upTo[..|upTo| - 1] == run[..j] && upTo[|upTo| - 1] == run[j];
    StillPending(run[..j], i, run[i].entry);
  }

  /** By the priorities' names: in every run a returned task is as urgent as any
      that had arrived and was not returned, and of two of one priority the
      earlier one is returned. */
  lemma RunUrgency(run: seq<Event>, seqNo: nat, i: nat, j: nat)
    requires IsRun(run, seqNo) && i < j < |run| && run[i].Arrive? && run[j].Leave?
    requires run[i].entry != run[j].entry && Leave(run[i].entry) !in run[..j]
    ensures
      var served, waiting := run[j].entry.task.priority, run[i].entry.task.priority;
      && (waiting == Critical ==> served == Critical)
      && (waiting == High ==> served in {Critical, High})
      && (waiting == Medium ==> served in {Critical, High, Medium})
      && (waiting == Low ==> served in {Critical, High, Medium, Low})
      && (served == waiting ==> run[j].entry.arrival < run[i].entry.arrival)
  {
    hide IsRun, Less;
    RunServesInOrder(run, seqNo, i, j);
    LessIs(run[j].entry, run[i].entry);
  }

  /** Within one priority, a task is never returned before one that arrived
      earlier. */
  lemma {:induction false} RunFifo(run: seq<Event>, seqNo: nat, i: nat, j: nat)
    requires IsRun(run, seqNo) && i < j < |run| && run[i].Arrive? && run[j].Leave?
    requires run[i].entry.task.priority == run[j].entry.task.priority
    requires run[i].entry.arrival < run[j].entry.arrival
    ensures Leave(run[i].entry) in run[..j]
  {
    if Leave(run[i].entry) !in run[..j] {
      RunServesInOrder(run, seqNo, i, j);
    }
  }
}
