/** The forward-chaining engine, crates/ai-runtime/src/reasoning.rs. */
module Reasoning {
  import opened Options
  import opened Sorting

  datatype Fact = Fact(predicate_: string, subject: string, object_: Option<string>, confidence: real)

  datatype Pattern = Pattern(predicate_: string, subject: string, object_: Option<string>)

  datatype Rule = Rule(name: string, conditions: seq<Pattern>, conclusion: Pattern, confidence: real)

  datatype ReasoningStep = ReasoningStep(rule: string, derived: Fact, sources: seq<Fact>)

  datatype ReasoningResult = ReasoningResult(conclusions: seq<Fact>, chain: seq<ReasoningStep>, iterations: nat)

  type Binding = map<string, string>

  // --- what a pattern means

  predicate IsVariable(term: string) {
    term != [] && term[0] == '$'
  }

  function TermVariables(term: string): set<string> {
    if IsVariable(term) then {term[1..]} else {}
  }

  /** `*` is met by any text, `$x` by the text bound to x, any other term by itself. */
  predicate TermHolds(actual: string, term: string, b: Binding) {
    if term == "*" then true
    else if IsVariable(term) then term[1..] in b && b[term[1..]] == actual
    else actual == term
  }

  function ObjectText(f: Fact): string {
    match f.object_
    case Some(o) => o
    case None => ""
  }

  predicate Holds(f: Fact, p: Pattern, b: Binding) {
    && f.predicate_ == p.predicate_
    && TermHolds(f.subject, p.subject, b)
    && match p.object_
       case Some(o) => TermHolds(ObjectText(f), o, b)
       case None => f.object_ == None
  }

  function Variables(p: Pattern): set<string> {
    TermVariables(p.subject) + match p.object_ case Some(o) => TermVariables(o) case None => {}
  }

  function AllVariables(ps: seq<Pattern>): set<string> {
    if ps == [] then {} else AllVariables(ps[..|ps| - 1]) + Variables(ps[|ps| - 1])
  }

  /** `b` binds exactly the variables of the conditions, and each condition is
      met by some fact under it. */
  ghost predicate Satisfies(conditions: seq<Pattern>, facts: iset<Fact>, b: Binding) {
    b.Keys == AllVariables(conditions) && forall i :: 0 <= i < |conditions| ==> Met(conditions[i], facts, b)
  }

  ghost predicate Met(p: Pattern, facts: iset<Fact>, b: Binding) {
    exists f :: f in facts && Holds(f, p, b)
  }

  function Substitute(val: string, b: Binding): string {
    if IsVariable(val) then (if val[1..] in b then b[val[1..]] else val) else val
  }

  function Conclude(r: Rule, b: Binding): Fact {
    Fact(
      Substitute(r.conclusion.predicate_, b),
      Substitute(r.conclusion.subject, b),
      match r.conclusion.object_ case Some(o) => Some(Substitute(o, b)) case None => None,
      r.confidence)
  }

  /** `text` stands for `term` under `b` as matching reads it; a variable without a
      value, and `*`, stand for themselves. */
  predicate StandsFor(text: string, term: string, b: Binding) {
    if term == "*" || (IsVariable(term) && term[1..] !in b) then text == term else TermHolds(text, term, b)
  }

  /** `f` reads like the conclusion of `r` under `b`. */
  predicate Instance(f: Fact, r: Rule, b: Binding) {
    && f.confidence == r.confidence
    && StandsFor(f.predicate_, r.conclusion.predicate_, b)
    && StandsFor(f.subject, r.conclusion.subject, b)
    && match r.conclusion.object_
       case Some(o) => f.object_.Some? && StandsFor(f.object_.value, o, b)
       case None => f.object_ == None
  }

  lemma ConcludeInstance(r: Rule, b: Binding)
    ensures Instance(Conclude(r, b), r, b)
  {
  }

  // --- immediate consequences

  ghost predicate Consequence(r: Rule, facts: iset<Fact>, f: Fact) {
    exists b :: Satisfies(r.conditions, facts, b) && f == Conclude(r, b)
  }

  ghost predicate Derives(rules: seq<Rule>, facts: iset<Fact>, f: Fact) {
    exists i :: 0 <= i < |rules| && Consequence(rules[i], facts, f)
  }

  ghost function Step(rules: seq<Rule>, facts: iset<Fact>): iset<Fact> {
    facts + iset f | Derives(rules, facts, f)
  }

  ghost function Closure(rules: seq<Rule>, facts: iset<Fact>, k: nat): iset<Fact> {
    if k == 0 then facts else Step(rules, Closure(rules, facts, k - 1))
  }

  ghost predicate IsClosed(rules: seq<Rule>, facts: iset<Fact>) {
    forall f :: Derives(rules, facts, f) ==> f in facts
  }

  /** Closed under the rules, above the input, and below everything that is both. */
  ghost predicate LeastFixpoint(rules: seq<Rule>, input: iset<Fact>, known: iset<Fact>) {
    && input <= known && IsClosed(rules, known)
    && forall other :: input <= other && IsClosed(rules, other) ==> known <= other
  }

  lemma ConsequenceMonotone(r: Rule, a: iset<Fact>, b: iset<Fact>, f: Fact)
    requires a <= b && Consequence(r, a, f)
    ensures Consequence(r, b, f)
  {
    hide Conclude, Holds, AllVariables;
    var s :| Satisfies(r.conditions, a, s) && f == Conclude(r, s);
    forall i | 0 <= i < |r.conditions| ensures Met(r.conditions[i], b, s) {
      assert Met(r.conditions[i], a, s);
    }
    assert Satisfies(r.conditions, b, s);
  }

  lemma {:induction false} ClosureBelow(rules: seq<Rule>, input: iset<Fact>, k: nat, other: iset<Fact>)
    requires input <= other && IsClosed(rules, other)
    ensures Closure(rules, input, k) <= other
  {
    hide Consequence;
    if k > 0 {
      ClosureBelow(rules, input, k - 1, other);
      var before := Closure(rules, input, k - 1);
      forall f | Derives(rules, before, f) ensures f in other {
        var i :| 0 <= i < |rules| && Consequence(rules[i], before, f);
        ConsequenceMonotone(rules[i], before, other, f);
        assert Derives(rules, other, f);
      }
    }
  }

  lemma {:induction false} ClosureAbove(rules: seq<Rule>, input: iset<Fact>, k: nat)
    ensures input <= Closure(rules, input, k)
  {
    hide Derives;
    if k > 0 {
      ClosureAbove(rules, input, k - 1);
    }
  }

  /** If a round adds nothing, the least fixpoint is reached. */
  lemma ClosureLeast(rules: seq<Rule>, input: iset<Fact>, k: nat)
    requires IsClosed(rules, Closure(rules, input, k))
    ensures LeastFixpoint(rules, input, Closure(rules, input, k))
  {
    hide IsClosed, Closure;
    ClosureAbove(rules, input, k);
    forall other | input <= other && IsClosed(rules, other) ensures Closure(rules, input, k) <= other {
      ClosureBelow(rules, input, k, other);
    }
  }

  // --- matching

  /** The bindings `b` grows into when `actual` is matched against `term`. */
  function TermMatch(actual: string, term: string, b: Binding): Option<Binding> {
    if term == "*" then Some(b)
    else if IsVariable(term) then
      if term[1..] in b then (if b[term[1..]] == actual then Some(b) else None)
      else Some(b[term[1..] := actual])
    else if actual == term then Some(b) else None
  }

  function Match(f: Fact, p: Pattern, b: Binding): Option<Binding> {
    if f.predicate_ != p.predicate_ then None
    else match TermMatch(f.subject, p.subject, b)
      case None => None
      case Some(b') =>
        match p.object_
        case Some(o) => TermMatch(ObjectText(f), o, b')
        case None => if f.object_ == None then Some(b') else None
  }

  ghost predicate Extends(b: Binding, c: Binding) {
    forall x :: x in b ==> x in c && c[x] == b[x]
  }

  /** Matching finds the one extension by the pattern's variables under which
      the pattern is met, if there is one. */
  lemma TermMatchIs(actual: string, term: string, b: Binding, c: Binding)
    ensures TermMatch(actual, term, b) == Some(c) <==>
            Extends(b, c) && c.Keys == b.Keys + TermVariables(term) && TermHolds(actual, term, c)
  {
    if Extends(b, c) && c.Keys == b.Keys + TermVariables(term) && TermHolds(actual, term, c) {
      if term != "*" && IsVariable(term) && term[1..] !in b {
        assert c == b[term[1..] := actual];
      } else {
        assert term == "*" ==> TermVariables(term) == {};
        assert c == b;
      }
    }
  }

  lemma TermHoldsExtends(actual: string, term: string, b: Binding, c: Binding)
    requires TermVariables(term) <= b.Keys && Extends(b, c)
    ensures TermHolds(actual, term, b) <==> TermHolds(actual, term, c)
  {
  }

  lemma HoldsExtends(f: Fact, p: Pattern, b: Binding, c: Binding)
    requires Variables(p) <= b.Keys && Extends(b, c)
    ensures Holds(f, p, b) <==> Holds(f, p, c)
  {
    hide TermHolds;
    TermHoldsExtends(f.subject, p.subject, b, c);
    if p.object_.Some? {
      TermHoldsExtends(ObjectText(f), p.object_.value, b, c);
    }
  }

  function Restrict(b: Binding, keys: set<string>): Binding {
    map x | x in keys && x in b :: b[x]
  }

  lemma MatchSound(f: Fact, p: Pattern, b: Binding)
    ensures Match(f, p, b).Some? ==>
              var c := Match(f, p, b).value;
              Extends(b, c) && c.Keys == b.Keys + Variables(p) && Holds(f, p, c)
  {
    hide TermMatch, TermHolds, TermVariables;
    if Match(f, p, b).Some? {
      var c := Match(f, p, b).value;
      var m := TermMatch(f.subject, p.subject, b).value;
      TermMatchIs(f.subject, p.subject, b, m);
      if p.object_.Some? {
        TermMatchIs(ObjectText(f), p.object_.value, m, c);
        assert Extends(m, c);
        TermHoldsExtends(f.subject, p.subject, m, c);
      }
    }
  }

  lemma MatchComplete(f: Fact, p: Pattern, b: Binding, c: Binding)
    requires Extends(b, c) && c.Keys == b.Keys + Variables(p) && Holds(f, p, c)
    ensures Match(f, p, b) == Some(c)
  {
    var keys := b.Keys + TermVariables(p.subject);
    var m := Restrict(c, keys);
    assert m.Keys == keys;
    hide TermMatch, TermHolds, TermVariables;
    TermHoldsExtends(f.subject, p.subject, m, c);
    TermMatchIs(f.subject, p.subject, b, m);
    if p.object_.Some? {
      TermMatchIs(ObjectText(f), p.object_.value, m, c);
    } else {
      assert m == c;
    }
  }

  method MatchTerm(actual: string, term: string, bindings: Binding) returns (ok: bool, bindings': Binding)
    ensures ok <==> TermMatch(actual, term, bindings).Some?
    ensures bindings' == if ok then TermMatch(actual, term, bindings).value else bindings
  {
    bindings' := bindings;
    if term == "*" {
      return true, bindings';
    }
    if |term| > 0 && term[0] == '$' {
      var x := term[1..];
      if x in bindings' {
        ok := actual == bindings'[x];
      } else {
        bindings' := bindings'[x := actual];
        ok := true;
      }
    } else {
      ok := actual == term;
    }
  }

  method MatchesPattern(f: Fact, p: Pattern, bindings: Binding) returns (ok: bool, bindings': Binding)
    ensures ok <==> Match(f, p, bindings).Some?
    ensures ok ==> bindings' == Match(f, p, bindings).value
  {
    hide TermMatch;
    bindings' := bindings;
    if f.predicate_ != p.predicate_ {
      return false, bindings';
    }
    ok, bindings' := MatchTerm(f.subject, p.subject, bindings');
    if !ok {
      return;
    }
    match p.object_
    case Some(o) =>
      ok, bindings' := MatchTerm(ObjectText(f), o, bindings');
    case None =>
      ok := f.object_ == None;
  }

  // --- the join

  ghost function FactsOf(facts: seq<Fact>): iset<Fact> {
    iset f | f in facts
  }

  /** The extensions of one binding by the facts that match, in order. */
  function JoinOne(b: Binding, facts: seq<Fact>, p: Pattern): seq<Binding> {
    if facts == [] then []
    else
      JoinOne(b, facts[..|facts| - 1], p)
      + match Match(facts[|facts| - 1], p, b) case Some(c) => [c] case None => []
  }

  function JoinAll(results: seq<Binding>, facts: seq<Fact>, p: Pattern): seq<Binding> {
    if results == [] then []
    else JoinAll(results[..|results| - 1], facts, p) + JoinOne(results[|results| - 1], facts, p)
  }

  lemma {:induction false} JoinOneMember(b: Binding, facts: seq<Fact>, p: Pattern, c: Binding)
    ensures c in JoinOne(b, facts, p) <==> exists f :: f in facts && Match(f, p, b) == Some(c)
  {
    hide Match;
    if facts != [] {
      var init, last := facts[..|facts| - 1], facts[|facts| - 1];
      assert facts == init + [last];
      JoinOneMember(b, init, p, c);
    }
  }

  ghost predicate JoinedFrom(results: seq<Binding>, facts: seq<Fact>, p: Pattern, c: Binding) {
    exists b, f :: b in results && f in facts && Match(f, p, b) == Some(c)
  }

  lemma {:induction false} JoinAllMember(results: seq<Binding>, facts: seq<Fact>, p: Pattern, c: Binding)
    ensures c in JoinAll(results, facts, p) <==> JoinedFrom(results, facts, p, c)
  {
    hide Match;
    if results != [] {
      var init, last := results[..|results| - 1], results[|results| - 1];
      assert results == init + [last];
      JoinAllMember(init, facts, p, c);
      JoinOneMember(last, facts, p, c);
    }
  }

  lemma {:induction false} VariablesWithin(ps: seq<Pattern>, i: nat)
    requires i < |ps|
    ensures Variables(ps[i]) <= AllVariables(ps)
  {
    hide Variables;
    if i < |ps| - 1 {
      VariablesWithin(ps[..|ps| - 1], i);
    }
  }

  lemma MetExtends(p: Pattern, facts: iset<Fact>, b: Binding, c: Binding)
    requires Variables(p) <= b.Keys && Extends(b, c)
    ensures Met(p, facts, b) <==> Met(p, facts, c)
  {
    hide Holds, Variables;
    forall f ensures Holds(f, p, b) <==> Holds(f, p, c) {
      HoldsExtends(f, p, b, c);
    }
  }

  /** Joining the bindings of a list of conditions with one more condition. */
  lemma JoinSound(ps: seq<Pattern>, p: Pattern, facts: iset<Fact>, f: Fact, b: Binding, c: Binding)
    requires Satisfies(ps, facts, b) && f in facts && Match(f, p, b) == Some(c)
    ensures Satisfies(ps + [p], facts, c)
  {
    MatchSound(f, p, b);
    hide Match, Holds, Variables, Met;
    var qs := ps + [p];
    assert qs[..|qs| - 1] == ps;
    forall i | 0 <= i < |qs| ensures Met(qs[i], facts, c) {
      if i < |ps| {
        VariablesWithin(ps, i);
        MetExtends(ps[i], facts, b, c);
      } else {
        MetBy(p, facts, f, c);
      }
    }
  }

  lemma MetBy(p: Pattern, facts: iset<Fact>, f: Fact, c: Binding)
    requires f in facts && Holds(f, p, c)
    ensures Met(p, facts, c)
  {
    hide Holds;
  }

  lemma JoinComplete(ps: seq<Pattern>, p: Pattern, facts: iset<Fact>, c: Binding) returns (f: Fact, b: Binding)
    requires Satisfies(ps + [p], facts, c)
    ensures f in facts && Satisfies(ps, facts, b) && Match(f, p, b) == Some(c)
  {
    hide Match, Holds, Variables;
    var qs := ps + [p];
    assert qs[..|qs| - 1] == ps;
    assert Met(qs[|ps|], facts, c);
    f :| f in facts && Holds(f, p, c);
    b := Restrict(c, AllVariables(ps));
    assert b.Keys == AllVariables(ps);
    forall i | 0 <= i < |ps| ensures Met(ps[i], facts, b) {
      assert Met(qs[i], facts, c);
      VariablesWithin(ps, i);
      MetExtends(ps[i], facts, b, c);
    }
    MatchComplete(f, p, b, c);
  }

  ghost predicate AllBindings(conditions: seq<Pattern>, facts: seq<Fact>, results: seq<Binding>) {
    forall b :: b in results <==> Satisfies(conditions, FactsOf(facts), b)
  }

  lemma JoinStep(conditions: seq<Pattern>, k: nat, facts: seq<Fact>, results: seq<Binding>)
    requires k < |conditions| && AllBindings(conditions[..k], facts, results)
    ensures AllBindings(conditions[..k + 1], facts, JoinAll(results, facts, conditions[k]))
  {
    hide Satisfies, Match, JoinAll;
    var ps, p := conditions[..k], conditions[k];
    assert ps + [p] == conditions[..k + 1];
    forall c ensures c in JoinAll(results, facts, p) <==> Satisfies(ps + [p], FactsOf(facts), c) {
      JoinAllMember(results, facts, p, c);
      if JoinedFrom(results, facts, p, c) {
        var b, f :| b in results && f in facts && Match(f, p, b) == Some(c);
        JoinSound(ps, p, FactsOf(facts), f, b, c);
      }
      if Satisfies(ps + [p], FactsOf(facts), c) {
        var f, b := JoinComplete(ps, p, FactsOf(facts), c);
      }
    }
  }

  /** Without a binding for some of the conditions there is none for all. */
  lemma NoneForAll(conditions: seq<Pattern>, k: nat, facts: seq<Fact>)
    requires k <= |conditions| && AllBindings(conditions[..k], facts, [])
    ensures AllBindings(conditions, facts, [])
    decreases |conditions| - k
  {
    hide AllBindings;
    if k < |conditions| {
      JoinStep(conditions, k, facts, []);
      NoneForAll(conditions, k + 1, facts);
    } else {
      assert conditions[..k] == conditions;
    }
  }

  method FindAllBindings(conditions: seq<Pattern>, facts: seq<Fact>) returns (results: seq<Binding>)
    ensures AllBindings(conditions, facts, results)
  {
    hide Match, AllBindings, Satisfies, JoinAll, JoinOne;
    results := [map[]];
    NoConditions(facts);
    var k := 0;
    assert conditions[..0] == [];
    while k < |conditions|
      invariant 0 <= k <= |conditions|
      invariant AllBindings(conditions[..k], facts, results)
    {
      var p := conditions[k];
      var next := [];
      JoinStart(facts, p);
      assert results[..0] == [];
      var i := 0;
      while i < |results|
        invariant 0 <= i <= |results|
        invariant next == JoinAll(results[..i], facts, p)
      {
        var j := 0;
        JoinOneStart(results[i], facts, p);
        while j < |facts|
          invariant 0 <= j <= |facts|
          invariant next == JoinAll(results[..i], facts, p) + JoinOne(results[i], facts[..j], p)
        {
          var ok, candidate := MatchesPattern(facts[j], p, results[i]);
          JoinOneStep(results[i], facts, j, p);
          if ok {
            next := next + [candidate];
          }
          j := j + 1;
        }
        assert facts[..j] == facts;
        JoinAllStep(results, i, facts, p);
        i := i + 1;
      }
      assert results[..i] == results;
      JoinStep(conditions, k, facts, results);
      results := next;
      k := k + 1;
      if |results| == 0 {
        NoneForAll(conditions, k, facts);
        return;
      }
    }
    assert conditions[..k] == conditions;
  }

  lemma JoinStart(facts: seq<Fact>, p: Pattern)
    ensures JoinAll([], facts, p) == []
  {
  }

  lemma JoinOneStart(b: Binding, facts: seq<Fact>, p: Pattern)
    ensures JoinOne(b, facts[..0], p) == []
  {
  }

  lemma JoinOneStep(b: Binding, facts: seq<Fact>, j: nat, p: Pattern)
    requires j < |facts|
    ensures JoinOne(b, facts[..j + 1], p) ==
            JoinOne(b, facts[..j], p) + match Match(facts[j], p, b) case Some(c) => [c] case None => []
  {
    hide Match;
    assert facts[..j + 1][..j] == facts[..j];
  }

  lemma JoinAllStep(results: seq<Binding>, i: nat, facts: seq<Fact>, p: Pattern)
    requires i < |results|
    ensures JoinAll(results[..i + 1], facts, p) == JoinAll(results[..i], facts, p) + JoinOne(results[i], facts, p)
  {
    hide JoinOne;
    assert results[..i + 1][..i] == results[..i];
  }

  lemma NoConditions(facts: seq<Fact>)
    ensures AllBindings([], facts, [map[]])
  {
    var none: Binding := map[];
    forall b: Binding ensures b in [none] <==> Satisfies([], FactsOf(facts), b) {
      if b.Keys == {} {
        assert b == none;
      }
    }
  }

  // --- the rounds

  function Derived(chain: seq<ReasoningStep>): seq<Fact> {
    if chain == [] then [] else Derived(chain[..|chain| - 1]) + [chain[|chain| - 1].derived]
  }

  predicate MatchesAny(f: Fact, conditions: seq<Pattern>) {
    exists i :: 0 <= i < |conditions| && Match(f, conditions[i], map[]).Some?
  }

  /** The known facts that match one of the conditions on its own. */
  function Sources(known: seq<Fact>, conditions: seq<Pattern>): seq<Fact> {
    if known == [] then []
    else
      Sources(known[..|known| - 1], conditions)
      + if MatchesAny(known[|known| - 1], conditions) then [known[|known| - 1]] else []
  }

  function Novel(known: seq<Fact>, facts: seq<Fact>): seq<Fact> {
    if known == [] then []
    else
      Novel(known[..|known| - 1], facts) + if known[|known| - 1] in facts then [] else [known[|known| - 1]]
  }

  /** The step's fact follows by its rule from its own source facts, and these
      were given or derived by earlier steps. */
  ghost predicate Justified(rules: seq<Rule>, facts: seq<Fact>, chain: seq<ReasoningStep>, i: nat)
    requires i < |chain|
  {
    && (exists r :: r in rules && r.name == chain[i].rule &&
                    Consequence(r, FactsOf(chain[i].sources), chain[i].derived))
    && forall f :: f in chain[i].sources ==> f in facts + Derived(chain[..i])
  }

  lemma {:induction false} SourcesMember(known: seq<Fact>, conditions: seq<Pattern>, f: Fact)
    ensures f in Sources(known, conditions) <==> f in known && MatchesAny(f, conditions)
  {
    hide MatchesAny;
    if known != [] {
      var init, last := known[..|known| - 1], known[|known| - 1];
      assert known == init + [last];
      SourcesMember(init, conditions, f);
    }
  }

  /** A fact that meets a condition under some binding matches it on its own. */
  lemma HoldsMatches(f: Fact, p: Pattern, b: Binding)
    requires Holds(f, p, b) && Variables(p) <= b.Keys
    ensures Match(f, p, map[]).Some?
  {
    var c := Restrict(b, Variables(p));
    assert c.Keys == Variables(p);
    HoldsExtends(f, p, c, b);
    MatchComplete(f, p, map[], c);
  }

  lemma SourcesSuffice(r: Rule, known: seq<Fact>, b: Binding)
    requires Satisfies(r.conditions, FactsOf(known), b)
    ensures Consequence(r, FactsOf(Sources(known, r.conditions)), Conclude(r, b))
  {
    hide Conclude, Satisfies;
    SourcesSatisfy(r, known, b);
  }

  lemma SourcesSatisfy(r: Rule, known: seq<Fact>, b: Binding)
    requires Satisfies(r.conditions, FactsOf(known), b)
    ensures Satisfies(r.conditions, FactsOf(Sources(known, r.conditions)), b)
  {
    hide Match, Holds, Variables;
    var sources := FactsOf(Sources(known, r.conditions));
    forall i | 0 <= i < |r.conditions| ensures Met(r.conditions[i], sources, b) {
      assert Met(r.conditions[i], FactsOf(known), b);
      var f :| f in FactsOf(known) && Holds(f, r.conditions[i], b);
      VariablesWithin(r.conditions, i);
      HoldsMatches(f, r.conditions[i], b);
      assert MatchesAny(f, r.conditions);
      SourcesMember(known, r.conditions, f);
    }
    assert Satisfies(r.conditions, sources, b);
  }

  /** The fact meets one of the conditions by itself, under some binding. */
  ghost predicate MeetsSome(f: Fact, conditions: seq<Pattern>) {
    exists i, b :: 0 <= i < |conditions| && Holds(f, conditions[i], b)
  }

  lemma HoldsVariables(f: Fact, p: Pattern, b: Binding)
    requires Holds(f, p, b)
    ensures Variables(p) <= b.Keys
  {
  }

  lemma MatchesAnyIs(f: Fact, conditions: seq<Pattern>)
    ensures MatchesAny(f, conditions) <==> MeetsSome(f, conditions)
  {
    hide Match, Holds, Variables;
    if MatchesAny(f, conditions) {
      var i :| 0 <= i < |conditions| && Match(f, conditions[i], map[]).Some?;
      MatchSound(f, conditions[i], map[]);
    }
    if MeetsSome(f, conditions) {
      var i, b :| 0 <= i < |conditions| && Holds(f, conditions[i], b);
      HoldsVariables(f, conditions[i], b);
      HoldsMatches(f, conditions[i], b);
    }
  }

  /** The step applies rule `r` under `b` in the first round that can: after `k`
      rounds its fact is not known, its sources are all known facts that meet a
      condition of the rule, they meet all conditions together under `b`, and its
      fact reads like the rule's conclusion under `b`. */
  ghost predicate Applies(rules: seq<Rule>, facts: seq<Fact>, step: ReasoningStep, k: nat, r: Rule, b: Binding) {
    && r in rules && r.name == step.rule
    && step.derived !in Closure(rules, FactsOf(facts), k)
    && (forall f :: f in step.sources <==> f in Closure(rules, FactsOf(facts), k) && MeetsSome(f, r.conditions))
    && Satisfies(r.conditions, FactsOf(step.sources), b)
    && Instance(step.derived, r, b)
  }

  ghost predicate Applied(rules: seq<Rule>, facts: seq<Fact>, step: ReasoningStep) {
    exists k, r, b :: Applies(rules, facts, step, k, r, b)
  }

  lemma StepApplies(rules: seq<Rule>, facts: seq<Fact>, known: seq<Fact>, k: nat, ri: nat, b: Binding)
    requires ri < |rules| && FactsOf(known) == Closure(rules, FactsOf(facts), k)
    requires Satisfies(rules[ri].conditions, FactsOf(known), b) && Conclude(rules[ri], b) !in known
    ensures
      var r := rules[ri];
      Applied(rules, facts, ReasoningStep(r.name, Conclude(r, b), Sources(known, r.conditions)))
  {
    hide Conclude, Closure, Sources, MatchesAny, MeetsSome, Satisfies, Instance;
    var r := rules[ri];
    var step := ReasoningStep(r.name, Conclude(r, b), Sources(known, r.conditions));
    forall f ensures f in step.sources <==> f in Closure(rules, FactsOf(facts), k) && MeetsSome(f, r.conditions) {
      SourcesMember(known, r.conditions, f);
      MatchesAnyIs(f, r.conditions);
      assert f in known <==> f in FactsOf(known);
    }
    SourcesSatisfy(r, known, b);
    ConcludeInstance(r, b);
    assert step.derived !in FactsOf(known);
    assert Applies(rules, facts, step, k, r, b);
  }

  lemma {:induction false} NovelIs(facts: seq<Fact>, derived: seq<Fact>)
    requires forall f :: f in derived ==> f !in facts
    ensures Novel(facts + derived, facts) == derived
  {
    if derived == [] {
      assert facts + derived == facts;
      NovelNone(facts, facts);
    } else {
      var init, last := derived[..|derived| - 1], derived[|derived| - 1];
      assert (facts + derived)[..|facts + derived| - 1] == facts + init;
      NovelIs(facts, init);
    }
  }

  lemma {:induction false} NovelNone(some: seq<Fact>, facts: seq<Fact>)
    requires forall f :: f in some ==> f in facts
    ensures Novel(some, facts) == []
  {
    if some != [] {
      NovelNone(some[..|some| - 1], facts);
    }
  }

  /** Between rounds: what is known is the closure so far, the input first and
      then the derived facts in the order of the chain. */
  ghost predicate Round(rules: seq<Rule>, facts: seq<Fact>, known: seq<Fact>, chain: seq<ReasoningStep>, k: nat) {
    && FactsOf(known) == Closure(rules, FactsOf(facts), k)
    && known == facts + Derived(chain)
    && Log(rules, facts, chain)
  }

  ghost predicate Log(rules: seq<Rule>, facts: seq<Fact>, chain: seq<ReasoningStep>) {
    && Distinct(Derived(chain))
    && (forall f :: f in Derived(chain) ==> f !in facts)
    && (forall i :: 0 <= i < |chain| ==> Justified(rules, facts, chain, i))
    && (forall i :: 0 <= i < |chain| ==> Applied(rules, facts, chain[i]))
  }

  /** Within a round: `fresh_` holds immediate consequences of `known`. */
  ghost predicate Gathering(rules: seq<Rule>, facts: seq<Fact>, known: seq<Fact>, chain: seq<ReasoningStep>,
                            fresh_: seq<Fact>) {
    && known + fresh_ == facts + Derived(chain)
    && Log(rules, facts, chain)
    && (forall f :: f in fresh_ ==> f !in known && Derives(rules, FactsOf(known), f))
  }

  ghost predicate Concluded(r: Rule, known: seq<Fact>, all: seq<Fact>) {
    forall f :: Consequence(r, FactsOf(known), f) ==> f in all
  }

  lemma DerivedAppend(chain: seq<ReasoningStep>, step: ReasoningStep)
    ensures Derived(chain + [step]) == Derived(chain) + [step.derived]
  {
    assert (chain + [step])[..|chain|] == chain;
  }

  /** One new conclusion is logged with the facts it can rest on. */
  lemma Gather(rules: seq<Rule>, facts: seq<Fact>, known: seq<Fact>, chain: seq<ReasoningStep>, fresh_: seq<Fact>,
               ri: nat, b: Binding, k: nat)
    requires Gathering(rules, facts, known, chain, fresh_) && ri < |rules|
    requires FactsOf(known) == Closure(rules, FactsOf(facts), k)
    requires Satisfies(rules[ri].conditions, FactsOf(known), b)
    requires Conclude(rules[ri], b) !in known && Conclude(rules[ri], b) !in fresh_
    ensures
      var f := Conclude(rules[ri], b);
      Gathering(rules, facts, known, chain + [ReasoningStep(rules[ri].name, f, Sources(known, rules[ri].conditions))],
                fresh_ + [f])
  {
    hide Satisfies, Conclude, Sources, Derived, Consequence, Applied, Closure;
    StepApplies(rules, facts, known, k, ri, b);
    var r, f := rules[ri], Conclude(rules[ri], b);
    var step := ReasoningStep(r.name, f, Sources(known, r.conditions));
    DerivedAppend(chain, step);
    SourcesSuffice(r, known, b);
    assert Consequence(r, FactsOf(known), f) by { ConsequenceIs(r, known, b); }
    assert known + (fresh_ + [f]) == (known + fresh_) + [f] == facts + (Derived(chain) + [f]);
    assert f !in facts + Derived(chain);
    assert f !in Derived(chain) && f !in facts by {
      assert forall x :: x in Derived(chain) || x in facts ==> x in facts + Derived(chain);
    }
    var chain' := chain + [step];
    DistinctDerived(Derived(chain), f, Derived(chain'));
    forall i | 0 <= i < |chain'| ensures Justified(rules, facts, chain', i) {
      JustifiedAppend(rules, facts, known, chain, fresh_, step, r, i);
    }
    hide Justified;
    assert Derives(rules, FactsOf(known), f);
  }

  lemma DistinctDerived(derived: seq<Fact>, f: Fact, more: seq<Fact>)
    requires Distinct(derived) && f !in derived && more == derived + [f]
    ensures Distinct(more)
  {
  }

  lemma ConsequenceIs(r: Rule, known: seq<Fact>, b: Binding)
    requires Satisfies(r.conditions, FactsOf(known), b)
    ensures Consequence(r, FactsOf(known), Conclude(r, b))
  {
    hide Satisfies, Conclude;
  }

  lemma JustifiedAppend(rules: seq<Rule>, facts: seq<Fact>, known: seq<Fact>, chain: seq<ReasoningStep>,
                        fresh_: seq<Fact>, step: ReasoningStep, r: Rule, i: nat)
    requires i <= |chain| && known + fresh_ == facts + Derived(chain)
    requires i < |chain| ==> Justified(rules, facts, chain, i)
    requires r in rules && step.rule == r.name && step.sources == Sources(known, r.conditions)
    requires Consequence(r, FactsOf(step.sources), step.derived)
    ensures Justified(rules, facts, chain + [step], i)
  {
    hide Consequence, Sources, Derived;
    var chain' := chain + [step];
    if i < |chain| {
      assert chain'[i] == chain[i] && chain'[..i] == chain[..i];
    } else {
      assert chain'[i] == step && chain'[..i] == chain;
      forall f | f in step.sources ensures f in facts + Derived(chain) {
        SourcesMember(known, r.conditions, f);
        assert f in known + fresh_;
      }
    }
  }

  lemma RoundEnd(rules: seq<Rule>, facts: seq<Fact>, known: seq<Fact>, chain: seq<ReasoningStep>, fresh_: seq<Fact>,
                 k: nat)
    requires FactsOf(known) == Closure(rules, FactsOf(facts), k)
    requires Gathering(rules, facts, known, chain, fresh_)
    requires forall i :: 0 <= i < |rules| ==> Concluded(rules[i], known, known + fresh_)
    ensures FactsOf(known + fresh_) == Closure(rules, FactsOf(facts), k + 1)
    ensures fresh_ == [] <==> IsClosed(rules, FactsOf(known))
    ensures Round(rules, facts, known + fresh_, chain, k + 1)
  {
    hide Consequence, Log;
    forall f ensures f in FactsOf(known + fresh_) <==> f in Step(rules, FactsOf(known)) {
      if Derives(rules, FactsOf(known), f) {
        var i :| 0 <= i < |rules| && Consequence(rules[i], FactsOf(known), f);
        assert Concluded(rules[i], known, known + fresh_);
      }
    }
    assert FactsOf(known + fresh_) == Step(rules, FactsOf(known));
    assert fresh_ == [] ==> known + fresh_ == known;
    assert fresh_ != [] ==> fresh_[0] in fresh_;
  }

  method DeriveRule(rules: seq<Rule>, ri: nat, ghost facts: seq<Fact>, known: seq<Fact>, chain: seq<ReasoningStep>,
                    fresh_: seq<Fact>, ghost k: nat) returns (chain': seq<ReasoningStep>, fresh': seq<Fact>)
    requires ri < |rules| && Gathering(rules, facts, known, chain, fresh_)
    requires FactsOf(known) == Closure(rules, FactsOf(facts), k)
    ensures Gathering(rules, facts, known, chain', fresh')
    ensures fresh_ <= fresh' && Concluded(rules[ri], known, known + fresh')
  {
    hide Gathering, Conclude, Sources, Satisfies, Consequence, Closure;
    var rule := rules[ri];
    chain', fresh' := chain, fresh_;
    var bindings := FindAllBindings(rule.conditions, known);
    var i := 0;
    while i < |bindings|
      invariant 0 <= i <= |bindings|
      invariant Gathering(rules, facts, known, chain', fresh') && fresh_ <= fresh'
      invariant forall k :: 0 <= k < i ==> Conclude(rule, bindings[k]) in known + fresh'
    {
      var inferred := Conclude(rule, bindings[i]);
      assert bindings[i] in bindings;
      if inferred !in known && inferred !in fresh' {
        Gather(rules, facts, known, chain', fresh', ri, bindings[i], k);
        chain' := chain' + [ReasoningStep(rule.name, inferred, Sources(known, rule.conditions))];
        fresh' := fresh' + [inferred];
      }
      i := i + 1;
    }
    forall f | Consequence(rule, FactsOf(known), f) ensures f in known + fresh' {
      var b := ConsequenceWitness(rule, known, f);
      assert b in bindings;
    }
  }

  lemma ConsequenceWitness(r: Rule, known: seq<Fact>, f: Fact) returns (b: Binding)
    requires Consequence(r, FactsOf(known), f)
    ensures Satisfies(r.conditions, FactsOf(known), b) && f == Conclude(r, b)
  {
    hide Satisfies, Conclude;
    b :| Satisfies(r.conditions, FactsOf(known), b) && f == Conclude(r, b);
  }

  /** What a run returns: after k rounds the conclusions are the k-fold closure
      without the input, each once, in the order of the chain, whose steps are
      all justified. Every round before the last one added something, and a run
      that stops below the limit has reached the least fixpoint. */
  ghost predicate Outcome(rules: seq<Rule>, maxIterations: nat, facts: seq<Fact>, r: ReasoningResult) {
    && r.iterations <= maxIterations
    && FactsOf(facts) + FactsOf(r.conclusions) == Closure(rules, FactsOf(facts), r.iterations)
    && r.conclusions == Derived(r.chain)
    && Log(rules, facts, r.chain)
    && (forall j: nat :: j < r.iterations ==> !IsClosed(rules, Closure(rules, FactsOf(facts), j)))
    && (r.iterations < maxIterations ==>
      LeastFixpoint(rules, FactsOf(facts), Closure(rules, FactsOf(facts), r.iterations)))
  }

  class ReasoningEngine {
    var rules: seq<Rule>
    var maxIterations: nat

    constructor WithRules(rules: seq<Rule>)
      ensures this.rules == rules && maxIterations == 10
    {
      this.rules := rules;
      maxIterations := 10;
    }

    method AddRule(rule: Rule)
      modifies this
      ensures rules == old(rules) + [rule] && maxIterations == old(maxIterations)
    {
      rules := rules + [rule];
    }

    method Reason(facts: seq<Fact>) returns (result: ReasoningResult)
      ensures Outcome(rules, maxIterations, facts, result)
    {
      hide Round, Gathering, Closure, Log, LeastFixpoint, Concluded, Novel, IsClosed;
      var known := facts;
      var chain: seq<ReasoningStep> := [];
      var iteration := 0;
      ghost var done := false;
      RoundStart(rules, facts);
      while iteration < maxIterations
        invariant 0 <= iteration <= maxIterations
        invariant Round(rules, facts, known, chain, iteration)
        invariant !done
        invariant forall j: nat :: j < iteration ==> !IsClosed(rules, Closure(rules, FactsOf(facts), j))
        decreases maxIterations - iteration
      {
        var newFacts: seq<Fact> := [];
        ghost var before := chain;
        GatherStart(rules, facts, known, chain, iteration);
        RoundClosure(rules, facts, known, chain, iteration);
        var ri := 0;
        while ri < |rules|
          invariant 0 <= ri <= |rules|
          invariant Gathering(rules, facts, known, chain, newFacts)
          invariant forall i :: 0 <= i < ri ==> Concluded(rules[i], known, known + newFacts)
        {
          ghost var had := newFacts;
          chain, newFacts := DeriveRule(rules, ri, facts, known, chain, newFacts, iteration);
          forall i | 0 <= i < ri ensures Concluded(rules[i], known, known + newFacts) {
            ConcludedMore(rules[i], known, had, newFacts);
          }
          ri := ri + 1;
        }
        RoundClosure(rules, facts, known, before, iteration);
        RoundEnd(rules, facts, known, chain, newFacts, iteration);
        if |newFacts| == 0 {
          NothingGathered(rules, facts, known, chain, iteration);
          done := true;
          break;
        }
        known := known + newFacts;
        iteration := iteration + 1;
      }
      RunEnd(rules, maxIterations, facts, known, chain, iteration, done);
      result := ReasoningResult(Novel(known, facts), chain, iteration);
    }
  }

  lemma RoundStart(rules: seq<Rule>, facts: seq<Fact>)
    ensures Round(rules, facts, facts, [], 0)
  {
    assert facts + Derived([]) == facts;
  }

  lemma GatherStart(rules: seq<Rule>, facts: seq<Fact>, known: seq<Fact>, chain: seq<ReasoningStep>, k: nat)
    requires Round(rules, facts, known, chain, k)
    ensures Gathering(rules, facts, known, chain, [])
  {
    hide Log;
    assert known + [] == known;
  }

  lemma RoundClosure(rules: seq<Rule>, facts: seq<Fact>, known: seq<Fact>, chain: seq<ReasoningStep>, k: nat)
    requires Round(rules, facts, known, chain, k)
    ensures FactsOf(known) == Closure(rules, FactsOf(facts), k)
  {
    hide Log;
  }

  lemma NothingGathered(rules: seq<Rule>, facts: seq<Fact>, known: seq<Fact>, chain: seq<ReasoningStep>, k: nat)
    requires Gathering(rules, facts, known, chain, []) && FactsOf(known) == Closure(rules, FactsOf(facts), k)
    ensures Round(rules, facts, known, chain, k)
  {
    hide Log, Closure;
    assert known + [] == known;
  }

  lemma ConcludedMore(r: Rule, known: seq<Fact>, a: seq<Fact>, b: seq<Fact>)
    requires Concluded(r, known, known + a) && a <= b
    ensures Concluded(r, known, known + b)
  {
    hide Consequence;
    forall f | f in known + a ensures f in known + b {
      assert f in a ==> f in b;
    }
  }

  lemma RunEnd(rules: seq<Rule>, maxIterations: nat, facts: seq<Fact>, known: seq<Fact>, chain: seq<ReasoningStep>,
               k: nat, done: bool)
    requires Round(rules, facts, known, chain, k) && k <= maxIterations
    requires done ==> IsClosed(rules, FactsOf(known))
    requires !done ==> k == maxIterations
    requires forall j: nat :: j < k ==> !IsClosed(rules, Closure(rules, FactsOf(facts), j))
    ensures Outcome(rules, maxIterations, facts, ReasoningResult(Novel(known, facts), chain, k))
  {
    hide Closure, IsClosed, Derived, Distinct, Justified, LeastFixpoint;
    NovelIs(facts, Derived(chain));
    assert FactsOf(known) == FactsOf(facts) + FactsOf(Derived(chain));
    if done {
      ClosureLeast(rules, FactsOf(facts), k);
    }
  }

  // --- every run can reach the fixpoint

  function TextsOf(f: Fact): set<string> {
    {f.predicate_, f.subject, ObjectText(f)}
  }

  function RuleTexts(r: Rule): set<string> {
    {r.conclusion.predicate_, r.conclusion.subject} + match r.conclusion.object_ case Some(o) => {o} case None => {}
  }

  /** All texts a derivation can write: those of the input and of the rules'
      conclusions, and the empty text, as which a missing object is matched. */
  function Texts(rules: seq<Rule>, facts: seq<Fact>): set<string> {
    {""} + (set i, t | 0 <= i < |facts| && t in TextsOf(facts[i]) :: t)
    + (set i, t | 0 <= i < |rules| && t in RuleTexts(rules[i]) :: t)
  }

  function Confidences(rules: seq<Rule>, facts: seq<Fact>): set<real> {
    (set i | 0 <= i < |facts| :: facts[i].confidence) + set i | 0 <= i < |rules| :: rules[i].confidence
  }

  predicate Writable(texts: set<string>, confidences: set<real>, f: Fact) {
    && f.predicate_ in texts && f.subject in texts && f.confidence in confidences
    && match f.object_ case Some(o) => o in texts case None => true
  }

  /** The finitely many facts that can ever be known. */
  function Universe(rules: seq<Rule>, facts: seq<Fact>): set<Fact> {
    var texts, confidences := Texts(rules, facts), Confidences(rules, facts);
    (set p, s, c | p in texts && s in texts && c in confidences :: Fact(p, s, None, c))
    + set p, s, o, c | p in texts && s in texts && o in texts && c in confidences :: Fact(p, s, Some(o), c)
  }

  lemma InUniverse(rules: seq<Rule>, facts: seq<Fact>, f: Fact)
    ensures f in Universe(rules, facts) <==> Writable(Texts(rules, facts), Confidences(rules, facts), f)
  {
    hide Texts, Confidences;
    match f.object_ {
      case None => assert f == Fact(f.predicate_, f.subject, None, f.confidence);
      case Some(o) => assert f == Fact(f.predicate_, f.subject, Some(o), f.confidence);
    }
  }

  lemma {:induction false} VariableOfSome(ps: seq<Pattern>, v: string) returns (i: nat)
    requires v in AllVariables(ps)
    ensures i < |ps| && v in Variables(ps[i])
  {
    hide Variables;
    var last := |ps| - 1;
    if v in Variables(ps[last]) {
      i := last;
    } else {
      i := VariableOfSome(ps[..last], v);
    }
  }

  lemma BoundText(f: Fact, p: Pattern, b: Binding, v: string)
    requires Holds(f, p, b) && v in Variables(p)
    ensures v in b && b[v] in TextsOf(f)
  {
  }

  lemma SatisfyingTexts(conditions: seq<Pattern>, facts: iset<Fact>, b: Binding, texts: set<string>, v: string)
    requires Satisfies(conditions, facts, b) && v in b
    requires forall f :: f in facts ==> TextsOf(f) <= texts
    ensures b[v] in texts
  {
    hide Holds, Variables, TextsOf;
    var i := VariableOfSome(conditions, v);
    assert Met(conditions[i], facts, b);
    var f :| f in facts && Holds(f, conditions[i], b);
    BoundText(f, conditions[i], b, v);
  }

  lemma SubstituteText(val: string, b: Binding, texts: set<string>)
    requires val in texts && forall v :: v in b ==> b[v] in texts
    ensures Substitute(val, b) in texts
  {
  }

  lemma WritableTexts(rules: seq<Rule>, facts: seq<Fact>, f: Fact)
    requires f in Universe(rules, facts)
    ensures TextsOf(f) <= Texts(rules, facts)
  {
    hide Universe, Confidences;
    InUniverse(rules, facts, f);
    assert "" in Texts(rules, facts);
  }

  lemma RuleTextsIn(rules: seq<Rule>, facts: seq<Fact>, i: nat)
    requires i < |rules|
    ensures RuleTexts(rules[i]) <= Texts(rules, facts) && rules[i].confidence in Confidences(rules, facts)
  {
  }

  /** What follows from writable facts is writable. */
  lemma ConsequenceWritable(rules: seq<Rule>, facts: seq<Fact>, i: nat, known: iset<Fact>, f: Fact)
    requires i < |rules| && Consequence(rules[i], known, f)
    requires forall g :: g in known ==> g in Universe(rules, facts)
    ensures f in Universe(rules, facts)
  {
    hide Universe, Texts, Confidences, Satisfies, Substitute, TextsOf;
    var r, texts := rules[i], Texts(rules, facts);
    var b :| Satisfies(r.conditions, known, b) && f == Conclude(r, b);
    forall g | g in known ensures TextsOf(g) <= texts {
      WritableTexts(rules, facts, g);
    }
    forall v | v in b ensures b[v] in texts {
      SatisfyingTexts(r.conditions, known, b, texts, v);
    }
    RuleTextsIn(rules, facts, i);
    ConcludeWritable(r, b, texts, Confidences(rules, facts));
    InUniverse(rules, facts, f);
  }

  lemma ConcludeWritable(r: Rule, b: Binding, texts: set<string>, confidences: set<real>)
    requires RuleTexts(r) <= texts && r.confidence in confidences && forall v :: v in b ==> b[v] in texts
    ensures Writable(texts, confidences, Conclude(r, b))
  {
    hide Substitute;
    SubstituteText(r.conclusion.predicate_, b, texts);
    SubstituteText(r.conclusion.subject, b, texts);
    match r.conclusion.object_ {
      case Some(o) => SubstituteText(o, b, texts);
      case None =>
    }
  }

  lemma InputWritable(rules: seq<Rule>, facts: seq<Fact>, f: Fact)
    requires f in facts
    ensures f in Universe(rules, facts)
  {
    hide Universe;
    var i :| 0 <= i < |facts| && facts[i] == f;
    assert TextsOf(facts[i]) <= Texts(rules, facts);
    InUniverse(rules, facts, f);
  }

  lemma {:induction false} ClosureWritable(rules: seq<Rule>, facts: seq<Fact>, k: nat)
    ensures forall f :: f in Closure(rules, FactsOf(facts), k) ==> f in Universe(rules, facts)
  {
    hide Universe, Consequence;
    if k == 0 {
      forall f | f in facts ensures f in Universe(rules, facts) {
        InputWritable(rules, facts, f);
      }
    } else {
      ClosureWritable(rules, facts, k - 1);
      var before := Closure(rules, FactsOf(facts), k - 1);
      forall f | Derives(rules, before, f) ensures f in Universe(rules, facts) {
        var i :| 0 <= i < |rules| && Consequence(rules[i], before, f);
        ConsequenceWritable(rules, facts, i, before, f);
      }
    }
  }

  /** The facts the closure does not have yet. */
  ghost function Missing(rules: seq<Rule>, facts: seq<Fact>, k: nat): set<Fact> {
    set f | f in Universe(rules, facts) && f !in Closure(rules, FactsOf(facts), k)
  }

  /** Every round that is not the last takes a fact off those missing. */
  lemma RoundGrows(rules: seq<Rule>, facts: seq<Fact>, k: nat)
    requires !IsClosed(rules, Closure(rules, FactsOf(facts), k))
    ensures |Missing(rules, facts, k + 1)| < |Missing(rules, facts, k)|
  {
    hide Universe, Derives;
    ClosureWritable(rules, facts, k + 1);
    var known := Closure(rules, FactsOf(facts), k);
    var f :| Derives(rules, known, f) && f !in known;
    assert f in Closure(rules, FactsOf(facts), k + 1);
    assert f in Missing(rules, facts, k) - Missing(rules, facts, k + 1);
    assert Missing(rules, facts, k + 1) <= Missing(rules, facts, k) - {f};
    Smaller(Missing(rules, facts, k + 1), Missing(rules, facts, k), f);
  }

  lemma Smaller<T>(a: set<T>, b: set<T>, x: T)
    requires a <= b - {x} && x in b
    ensures |a| < |b|
  {
    SubsetSize(a, b - {x});
  }

  lemma {:induction false} ClosesFrom(rules: seq<Rule>, facts: seq<Fact>, k: nat) returns (n: nat)
    ensures k <= n <= k + |Missing(rules, facts, k)| && IsClosed(rules, Closure(rules, FactsOf(facts), n))
    decreases |Missing(rules, facts, k)|
  {
    hide Closure, IsClosed, Missing;
    if IsClosed(rules, Closure(rules, FactsOf(facts), k)) {
      n := k;
    } else {
      RoundGrows(rules, facts, k);
      n := ClosesFrom(rules, facts, k + 1);
    }
  }

  /** For all rules and facts the closure is reached, after at most as many
      rounds as there are facts that can be written. */
  lemma ClosureReached(rules: seq<Rule>, facts: seq<Fact>) returns (n: nat)
    ensures n <= |Universe(rules, facts)| && IsClosed(rules, Closure(rules, FactsOf(facts), n))
  {
    hide Universe, Closure, IsClosed;
    n := ClosesFrom(rules, facts, 0);
    SubsetSize(Missing(rules, facts, 0), Universe(rules, facts));
  }
}
