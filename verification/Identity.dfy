/** The edit distance of crates/knowledge/src/identity.rs and the fuzzy alias
    lookup that uses it. */
module Identity {
  import opened Bytes
  import opened Numbers
  import opened Sorting

  newtype u32 = x: int | 0 <= x < 0x1_0000_0000

  type Text = seq<Byte>

  // --- edit scripts

  datatype Edit = Keep(c: Byte) | Insert(c: Byte) | Delete(c: Byte) | Substitute(c: Byte, d: Byte)

  /** What an edit reads, what it writes, and what it costs. */
  function Read(e: Edit): Text {
    match e
    case Keep(c) => [c]
    case Insert(_) => []
    case Delete(c) => [c]
    case Substitute(c, _) => [c]
  }

  function Written(e: Edit): Text {
    match e
    case Keep(c) => [c]
    case Insert(c) => [c]
    case Delete(_) => []
    case Substitute(_, d) => [d]
  }

  function Price(e: Edit): nat {
    if e.Keep? then 0 else 1
  }

  function Source(s: seq<Edit>): Text {
    if s == [] then [] else Source(s[..|s| - 1]) + Read(s[|s| - 1])
  }

  function Target(s: seq<Edit>): Text {
    if s == [] then [] else Target(s[..|s| - 1]) + Written(s[|s| - 1])
  }

  function ScriptCost(s: seq<Edit>): nat {
    if s == [] then 0 else ScriptCost(s[..|s| - 1]) + Price(s[|s| - 1])
  }

  ghost predicate Turns(s: seq<Edit>, a: Text, b: Text) {
    Source(s) == a && Target(s) == b
  }

  /** `d` is the cost of a cheapest script that turns `a` into `b`. */
  ghost predicate IsEditDistance(a: Text, b: Text, d: nat) {
    && (exists s :: Turns(s, a, b) && ScriptCost(s) == d)
    && (forall s :: Turns(s, a, b) ==> d <= ScriptCost(s))
  }

  lemma ScriptAppend(s: seq<Edit>, e: Edit)
    ensures Source(s + [e]) == Source(s) + Read(e)
    ensures Target(s + [e]) == Target(s) + Written(e)
    ensures ScriptCost(s + [e]) == ScriptCost(s) + Price(e)
  {
    assert (s + [e])[..|s|] == s;
  }

  // --- the recurrence

  function Distance(a: Text, b: Text): nat
    decreases |a| + |b|
  {
    if a == [] then |b|
    else if b == [] then |a|
    else
      var a', b' := a[..|a| - 1], b[..|b| - 1];
      Min(Min(Distance(a, b') + 1, Distance(a', b) + 1),
          Distance(a', b') + if a[|a| - 1] == b[|b| - 1] then 0 else 1)
  }

  lemma DistanceInsert(a: Text, b: Text, c: Byte)
    ensures Distance(a, b + [c]) <= Distance(a, b) + 1
  {
    assert (b + [c])[..|b|] == b;
  }

  lemma DistanceDelete(a: Text, b: Text, c: Byte)
    ensures Distance(a + [c], b) <= Distance(a, b) + 1
  {
    assert (a + [c])[..|a|] == a;
  }

  lemma DistanceReplace(a: Text, b: Text, c: Byte, d: Byte)
    ensures Distance(a + [c], b + [d]) <= Distance(a, b) + if c == d then 0 else 1
  {
    assert (a + [c])[..|a|] == a && (b + [d])[..|b|] == b;
  }

  /** No script is cheaper than the recurrence says. */
  lemma {:induction false} DistanceLeast(s: seq<Edit>)
    ensures Distance(Source(s), Target(s)) <= ScriptCost(s)
  {
    if s != [] {
      var init, e := s[..|s| - 1], s[|s| - 1];
      DistanceLeast(init);
      var a, b := Source(init), Target(init);
      match e
      case Keep(c) => DistanceReplace(a, b, c, c);
      case Insert(c) => DistanceInsert(a, b, c); assert Source(s) == a;
      case Delete(c) => DistanceDelete(a, b, c); assert Target(s) == b;
      case Substitute(c, d) => DistanceReplace(a, b, c, d);
    }
  }

  /** Some script is exactly that cheap. */
  lemma {:induction false} DistanceAttained(a: Text, b: Text) returns (s: seq<Edit>)
    ensures Turns(s, a, b) && ScriptCost(s) == Distance(a, b)
    decreases |a| + |b|
  {
    DistanceCases(a, b);
    hide Turns, ScriptCost, Distance;
    var a', b' := Init(a), Init(b);
    LastSplit(a);
    LastSplit(b);
    if a == [] && b == [] {
      s := [];
      NoEdits();
    } else if a == [] || (b != [] && Distance(a, b) == Distance(a, b') + 1) {
      s := DistanceAttained(a, b');
      ExtendScript(s, Insert(b[|b| - 1]), a, b');
      s := s + [Insert(b[|b| - 1])];
    } else if b == [] || Distance(a, b) == Distance(a', b) + 1 {
      s := DistanceAttained(a', b);
      ExtendScript(s, Delete(a[|a| - 1]), a', b);
      s := s + [Delete(a[|a| - 1])];
    } else {
      s := DistanceAttained(a', b');
      var e := if a[|a| - 1] == b[|b| - 1] then Keep(a[|a| - 1]) else Substitute(a[|a| - 1], b[|b| - 1]);
      ExtendScript(s, e, a', b');
      s := s + [e];
    }
  }

  function Init(a: Text): Text {
    if a == [] then [] else a[..|a| - 1]
  }

  lemma {:induction false} DistanceFromNothing(b: Text)
    ensures Distance([], b) == |b|
  {
  }

  lemma {:induction false} DistanceToNothing(a: Text)
    ensures Distance(a, []) == |a|
  {
  }

  lemma {:induction false} DistanceBoth(a: Text, b: Text)
    requires a != [] && b != []
    ensures Distance(a, b) ==
            Min(Min(Distance(a, Init(b)) + 1, Distance(Init(a), b) + 1),
                Distance(Init(a), Init(b)) + if a[|a| - 1] == b[|b| - 1] then 0 else 1)
  {
    hide Min, Init;
    assert Init(a) == a[..|a| - 1] && Init(b) == b[..|b| - 1] by { InitIs(a); InitIs(b); }
  }

  lemma InitIs(a: Text)
    requires a != []
    ensures Init(a) == a[..|a| - 1]
  {
  }

  lemma {:induction false} DistanceCases(a: Text, b: Text)
    ensures a == [] && b == [] ==> Distance(a, b) == 0
    ensures a == [] && b != [] ==> Distance(a, b) == Distance(a, Init(b)) + 1
    ensures a != [] && b == [] ==> Distance(a, b) == Distance(Init(a), b) + 1
    ensures a != [] && b != [] ==>
              || Distance(a, b) == Distance(a, Init(b)) + 1
              || Distance(a, b) == Distance(Init(a), b) + 1
              || Distance(a, b) == Distance(Init(a), Init(b)) + if a[|a| - 1] == b[|b| - 1] then 0 else 1
  {
    hide Distance;
    DistanceFromNothing(b);
    DistanceFromNothing(Init(b));
    DistanceToNothing(a);
    DistanceToNothing(Init(a));
    if a != [] && b != [] {
      DistanceBoth(a, b);
    }
  }

  lemma LastSplit(a: Text)
    ensures a != [] ==> a == Init(a) + [a[|a| - 1]]
  {
  }

  lemma NoEdits()
    ensures Turns([], [], []) && ScriptCost([]) == 0
  {
  }

  lemma ExtendScript(s: seq<Edit>, e: Edit, a: Text, b: Text)
    requires Turns(s, a, b)
    ensures Turns(s + [e], a + Read(e), b + Written(e)) && ScriptCost(s + [e]) == ScriptCost(s) + Price(e)
    ensures a + [] == a && b + [] == b
  {
    ScriptAppend(s, e);
  }

  lemma DistanceIsLeast(a: Text, b: Text)
    ensures IsEditDistance(a, b, Distance(a, b))
  {
    var s := DistanceAttained(a, b);
    forall s | Turns(s, a, b) ensures Distance(a, b) <= ScriptCost(s) {
      DistanceLeast(s);
    }
  }

  // --- a metric

  lemma {:induction false} FreeScript(s: seq<Edit>)
    requires ScriptCost(s) == 0
    ensures Source(s) == Target(s)
  {
    if s != [] {
      FreeScript(s[..|s| - 1]);
    }
  }

  lemma {:induction false} KeepAll(a: Text) returns (s: seq<Edit>)
    ensures Turns(s, a, a) && ScriptCost(s) == 0
  {
    if a == [] {
      s := [];
    } else {
      s := KeepAll(a[..|a| - 1]);
      ScriptAppend(s, Keep(a[|a| - 1]));
      s := s + [Keep(a[|a| - 1])];
      assert a == a[..|a| - 1] + [a[|a| - 1]];
    }
  }

  lemma DistanceZero(a: Text, b: Text)
    ensures Distance(a, b) == 0 <==> a == b
  {
    if a == b {
      var s := KeepAll(a);
      DistanceLeast(s);
    } else if Distance(a, b) == 0 {
      var s := DistanceAttained(a, b);
      FreeScript(s);
    }
  }

  function Undo(e: Edit): Edit {
    match e
    case Keep(c) => Keep(c)
    case Insert(c) => Delete(c)
    case Delete(c) => Insert(c)
    case Substitute(c, d) => Substitute(d, c)
  }

  lemma {:induction false} UndoAll(s: seq<Edit>) returns (t: seq<Edit>)
    ensures Turns(t, Target(s), Source(s)) && ScriptCost(t) == ScriptCost(s)
  {
    if s == [] {
      t := [];
    } else {
      t := UndoAll(s[..|s| - 1]);
      ScriptAppend(t, Undo(s[|s| - 1]));
      t := t + [Undo(s[|s| - 1])];
    }
  }

  lemma DistanceSymmetric(a: Text, b: Text)
    ensures Distance(a, b) == Distance(b, a)
  {
    var s := DistanceAttained(a, b);
    var s' := UndoAll(s);
    DistanceLeast(s');
    var t := DistanceAttained(b, a);
    var t' := UndoAll(t);
    DistanceLeast(t');
  }

  /** An edit that writes a byte followed by one that reads it, as one edit. */
  function Fuse(e: Edit, f: Edit): seq<Edit> {
    if e.Insert? then
      (if f.Keep? then [e] else if f.Substitute? then [Insert(f.d)] else [])
    else if f.Delete? then [Delete(e.c)]
    else if f.Keep? then [e]
    else if f.Substitute? then [Substitute(e.c, f.d)]
    else []
  }

  lemma FuseIs(e: Edit, f: Edit)
    requires Written(e) == Read(f) && Written(e) != []
    ensures |Fuse(e, f)| <= 1
    ensures Source(Fuse(e, f)) == Read(e) && Target(Fuse(e, f)) == Written(f)
    ensures ScriptCost(Fuse(e, f)) <= Price(e) + Price(f)
  {
    hide Source, Target, ScriptCost;
    EmptyScript();
    if |Fuse(e, f)| == 1 {
      ScriptAppend([], Fuse(e, f)[0]);
      assert [] + [Fuse(e, f)[0]] == Fuse(e, f);
    }
  }

  lemma EmptyScript()
    ensures Source([]) == [] && Target([]) == [] && ScriptCost([]) == 0
  {
  }

  lemma ScriptConcat(s: seq<Edit>, t: seq<Edit>)
    requires |t| <= 1
    ensures Source(s + t) == Source(s) + Source(t) && Target(s + t) == Target(s) + Target(t)
    ensures ScriptCost(s + t) == ScriptCost(s) + ScriptCost(t)
  {
    hide Source, Target, ScriptCost;
    EmptyScript();
    if t == [] {
      assert s + t == s;
    } else {
      assert t == [t[0]] == [] + [t[0]];
      ScriptAppend(s, t[0]);
      ScriptAppend([], t[0]);
    }
  }

  /** Two scripts in a row, as one of no greater cost. */
  lemma {:induction false} Compose(s: seq<Edit>, t: seq<Edit>) returns (u: seq<Edit>)
    requires Target(s) == Source(t)
    ensures Turns(u, Source(s), Target(t)) && ScriptCost(u) <= ScriptCost(s) + ScriptCost(t)
    decreases |s| + |t|
  {
    if s != [] && s[|s| - 1].Delete? {
      assert Target(s) == Target(s[..|s| - 1]);
      u := Compose(s[..|s| - 1], t);
      ScriptAppend(u, s[|s| - 1]);
      u := u + [s[|s| - 1]];
    } else if t != [] && t[|t| - 1].Insert? {
      assert Source(t) == Source(t[..|t| - 1]);
      u := Compose(s, t[..|t| - 1]);
      ScriptAppend(u, t[|t| - 1]);
      u := u + [t[|t| - 1]];
    } else if s == [] || t == [] {
      assert s == [] && t == [];
      u := [];
    } else {
      var e, f := s[|s| - 1], t[|t| - 1];
      SameLast(Target(s[..|s| - 1]), Written(e), Source(t[..|t| - 1]), Read(f));
      u := Compose(s[..|s| - 1], t[..|t| - 1]);
      FuseIs(e, f);
      ScriptConcat(u, Fuse(e, f));
      u := u + Fuse(e, f);
    }
  }

  lemma SameLast(a: Text, x: Text, b: Text, y: Text)
    requires a + x == b + y && |x| == |y| == 1
    ensures a == b && x == y
  {
    assert (a + x)[..|a|] == a && (b + y)[..|b|] == b;
    assert (a + x)[|a|] == x[0] && (b + y)[|b|] == y[0];
  }

  lemma DistanceTriangle(a: Text, b: Text, c: Text)
    ensures Distance(a, c) <= Distance(a, b) + Distance(b, c)
  {
    var s := DistanceAttained(a, b);
    var t := DistanceAttained(b, c);
    var u := Compose(s, t);
    DistanceLeast(u);
  }

  lemma {:induction false} DistanceBound(a: Text, b: Text)
    ensures Distance(a, b) <= if |a| < |b| then |b| else |a|
    decreases |a| + |b|
  {
    if a != [] && b != [] {
      DistanceBound(a[..|a| - 1], b[..|b| - 1]);
    }
  }

  // --- the two-row program

  ghost predicate RowIs(a: Text, b: Text, row: seq<u32>, upTo: nat) {
    upTo <= |b| + 1 && upTo <= |row| && forall j :: 0 <= j < upTo ==> row[j] as int == Distance(a, b[..j])
  }

  lemma NextCell(a: Text, b: Text, i: nat, j: nat)
    requires 0 < i <= |a| && 0 < j <= |b|
    ensures Distance(a[..i], b[..j]) ==
            Min(Min(Distance(a[..i], b[..j - 1]) + 1, Distance(a[..i - 1], b[..j]) + 1),
                Distance(a[..i - 1], b[..j - 1]) + if a[i - 1] == b[j - 1] then 0 else 1)
  {
    assert a[..i][..i - 1] == a[..i - 1] && b[..j][..j - 1] == b[..j - 1];
  }

  function Least(x: u32, y: u32): u32 {
    if x < y then x else y
  }

  /** The texts are shorter than the u32 range, past which the source's row
      would wrap. */
  method LevenshteinDistance(a: Text, b: Text) returns (d: u32)
    requires |a| < 0xFFFF_FFFF && |b| < 0xFFFF_FFFF
    ensures d as int == Distance(a, b)
  {
    hide Distance;
    var m, n := |a|, |b|;
    var prev: seq<u32> := seq(n + 1, j requires 0 <= j <= n => j as u32);
    FirstRow(a, b, prev);
    var i := 1;
    while i <= m
      invariant 1 <= i <= m + 1 && |prev| == n + 1
      invariant RowIs(a[..i - 1], b, prev, n + 1)
    {
      var curr: seq<u32> := seq(n + 1, _ => i as u32);
      FirstCell(a, b, i);
      var j := 1;
      while j <= n
        invariant 1 <= j <= n + 1 && |curr| == n + 1
        invariant RowIs(a[..i], b, curr, j)
      {
        var cost: u32 := if a[i - 1] == b[j - 1] then 0 else 1;
        NextCell(a, b, i, j);
        DistanceBound(a[..i], b[..j - 1]);
        DistanceBound(a[..i - 1], b[..j]);
        DistanceBound(a[..i - 1], b[..j - 1]);
        curr := curr[j := Least(Least(curr[j - 1] + 1, prev[j] + 1), prev[j - 1] + cost)];
        j := j + 1;
      }
      prev := curr;
      i := i + 1;
    }
    assert a[..i - 1] == a && b[..n] == b;
    d := prev[n];
  }

  lemma FirstRow(a: Text, b: Text, prev: seq<u32>)
    requires |prev| == |b| + 1 && |b| < 0xFFFF_FFFF && forall j :: 0 <= j <= |b| ==> prev[j] == j as u32
    ensures RowIs(a[..0], b, prev, |b| + 1)
  {
  }

  lemma FirstCell(a: Text, b: Text, i: nat)
    requires 0 < i <= |a|
    ensures Distance(a[..i], b[..0]) == i
  {
  }

  // --- the resolver

  type Alias = (Text, Text)

  function Colon(): Text {
    [58]
  }

  function Describe(key: Alias, cid: Text): Text {
    key.0 + Colon() + key.1 + Colon() + cid
  }

  datatype Identity = Identity(canonicalId: Text, aliases: map<Text, Text>)

  type Hit = (Text, u32)

  predicate CloserOrEqual(x: Hit, y: Hit) {
    x.1 <= y.1
  }

  /** The aliases within the threshold, by the edit distance of their values. */
  ghost function Within(index: map<Alias, Text>, value: Text, threshold: u32): set<Alias> {
    set key | key in index && Distance(value, key.1) <= threshold as int
  }

  ghost function HitOf(index: map<Alias, Text>, value: Text, key: Alias): Hit
    requires key in index && Distance(value, key.1) < 0x1_0000_0000
  {
    (Describe(key, index[key]), Distance(value, key.1) as u32)
  }

  /** `hits` are the hits of `keys`, in that order. */
  ghost predicate HitsOf(index: map<Alias, Text>, value: Text, keys: seq<Alias>, hits: seq<Hit>) {
    && |hits| == |keys|
    && forall i :: 0 <= i < |keys| ==>
         keys[i] in index && Distance(value, keys[i].1) < 0x1_0000_0000 && hits[i] == HitOf(index, value, keys[i])
  }

  class IdentityResolver {
    var resolved: map<Text, Identity>
    var aliasIndex: map<Alias, Text>

    constructor ()
      ensures resolved == map[] && aliasIndex == map[]
    {
      resolved, aliasIndex := map[], map[];
    }

    method Register(identity: Identity)
      modifies this
      ensures resolved == old(resolved)[identity.canonicalId := identity]
      ensures forall key :: key in aliasIndex <==>
                key in old(aliasIndex) || (key.0 in identity.aliases && identity.aliases[key.0] == key.1)
      ensures forall key :: key in aliasIndex ==>
                aliasIndex[key] == if key.0 in identity.aliases && identity.aliases[key.0] == key.1
                                   then identity.canonicalId else old(aliasIndex)[key]
    {
      var rest := identity.aliases.Keys;
      while rest != {}
        invariant rest <= identity.aliases.Keys && resolved == old(resolved)
        invariant forall key :: key in aliasIndex <==>
                    key in old(aliasIndex)
                    || (key.0 in identity.aliases && key.0 !in rest && identity.aliases[key.0] == key.1)
        invariant forall key :: key in aliasIndex ==>
                    aliasIndex[key] ==
                      if key.0 in identity.aliases && key.0 !in rest && identity.aliases[key.0] == key.1
                                       then identity.canonicalId else old(aliasIndex)[key]
        decreases rest
      {
        var ns :| ns in rest;
        aliasIndex := aliasIndex[(ns, identity.aliases[ns]) := identity.canonicalId];
        rest := rest - {ns};
      }
      resolved := resolved[identity.canonicalId := identity];
    }

    /** All aliases within the threshold, nearest first, each once. */
    method FuzzyResolve(value: Text, threshold: u32)
        returns (results: seq<Hit>, ghost keys: seq<Alias>, ghost hits: seq<Hit>)
      requires |value| < 0xFFFF_FFFF && forall key :: key in aliasIndex ==> |key.1| < 0xFFFF_FFFF
      ensures Distinct(keys) && Elems(keys) == Within(aliasIndex, value, threshold)
      ensures HitsOf(aliasIndex, value, keys, hits) && multiset(results) == multiset(hits)
      ensures |hits| == |keys| && forall i :: 0 <= i < |keys| ==>
                && keys[i] in aliasIndex
                && hits[i].0 == keys[i].0 + [58] + keys[i].1 + [58] + aliasIndex[keys[i]]
                && hits[i].1 as int == Distance(value, keys[i].1) <= threshold as int
      ensures forall i, j :: 0 <= i < j < |results| ==> results[i].1 <= results[j].1
    {
      hide Distance, Describe;
      results, keys := [], [];
      ElemsNonempty(keys);
      var rest := aliasIndex.Keys;
      while rest != {}
        invariant rest <= aliasIndex.Keys && Distinct(keys)
        invariant Elems(keys) == Within(aliasIndex, value, threshold) - rest
        invariant HitsOf(aliasIndex, value, keys, results)
        decreases rest
      {
        var key :| key in rest;
        var dist := LevenshteinDistance(value, key.1);
        if dist <= threshold {
          ElemsAppend(keys, key);
          keys := keys + [key];
          results := results + [(Describe(key, aliasIndex[key]), dist)];
        }
        rest := rest - {key};
      }
      hits := results;
      HitsAre(aliasIndex, value, threshold, keys, hits);
      assert TotalPreorder(CloserOrEqual);
      SortBySorted(CloserOrEqual, results);
      SortByMultiset(CloserOrEqual, results);
      results := SortBy(CloserOrEqual, results);
    }
  }

  lemma HitsAre(index: map<Alias, Text>, value: Text, threshold: u32, keys: seq<Alias>, hits: seq<Hit>)
    requires HitsOf(index, value, keys, hits) && Elems(keys) <= Within(index, value, threshold)
    ensures |hits| == |keys| && forall i :: 0 <= i < |keys| ==>
              && keys[i] in index
              && hits[i].0 == keys[i].0 + [58] + keys[i].1 + [58] + index[keys[i]]
              && hits[i].1 as int == Distance(value, keys[i].1) <= threshold as int
  {
    hide Distance;
    forall i | 0 <= i < |keys| ensures keys[i] in Within(index, value, threshold) {
      assert keys[i] in Elems(keys);
    }
  }

  /** Two hits of one lookup are no farther apart than twice its threshold. */
  lemma HitsAreNear(index: map<Alias, Text>, value: Text, threshold: u32, x: Alias, y: Alias)
    requires x in Within(index, value, threshold) && y in Within(index, value, threshold)
    ensures Distance(x.1, y.1) <= 2 * threshold as int
  {
    DistanceSymmetric(value, x.1);
    DistanceTriangle(x.1, value, y.1);
  }
}
