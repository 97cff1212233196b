/** What a bounded number of rounds of the forward-chaining engine of
    crates/ai-runtime/src/reasoning.rs can reach: derivation trees of bounded
    height, rule sets in strata, and a rule set that needs one round too many. */
module Derivations {
  import opened Options
  import opened Reasoning

  // --- derivation trees

  datatype Derivation =
    | Given(fact: Fact)
    | ByRule(rule: nat, binding: Binding, premises: seq<Derivation>)

  function Conclusion(rules: seq<Rule>, d: Derivation): Option<Fact> {
    match d
    case Given(f) => Some(f)
    case ByRule(i, b, _) => if i < |rules| then Some(Conclude(rules[i], b)) else None
  }

  /** The leaves are given facts; each inner node applies its rule to one
      premise for each condition, under a binding of the rule's variables. */
  ghost predicate Sound(rules: seq<Rule>, facts: seq<Fact>, d: Derivation) {
    match d
    case Given(f) => f in facts
    case ByRule(i, b, premises) =>
      && i < |rules| && b.Keys == AllVariables(rules[i].conditions) && |premises| == |rules[i].conditions|
      && (forall j :: 0 <= j < |premises| ==> Sound(rules, facts, premises[j]))
      && forall j :: 0 <= j < |premises| ==> Meets(rules, premises[j], rules[i].conditions[j], b)
  }

  ghost predicate Meets(rules: seq<Rule>, d: Derivation, p: Pattern, b: Binding) {
    Conclusion(rules, d).Some? && Holds(Conclusion(rules, d).value, p, b)
  }

  /** No more than `k` rules are applied one above the other. */
  predicate HeightAtMost(d: Derivation, k: nat) {
    match d
    case Given(_) => true
    case ByRule(_, _, premises) => k > 0 && forall j :: 0 <= j < |premises| ==> HeightAtMost(premises[j], k - 1)
  }

  ghost predicate Proves(rules: seq<Rule>, facts: seq<Fact>, k: nat, d: Derivation, f: Fact) {
    Sound(rules, facts, d) && HeightAtMost(d, k) && Conclusion(rules, d) == Some(f)
  }

  ghost predicate Provable(rules: seq<Rule>, facts: seq<Fact>, k: nat, f: Fact) {
    exists d :: Proves(rules, facts, k, d, f)
  }

  ghost predicate Derivable(rules: seq<Rule>, facts: seq<Fact>, f: Fact) {
    exists d :: Sound(rules, facts, d) && Conclusion(rules, d) == Some(f)
  }

  lemma {:induction false} HeightGrows(d: Derivation, k: nat, n: nat)
    requires HeightAtMost(d, k) && k <= n
    ensures HeightAtMost(d, n)
    decreases d
  {
    match d {
      case Given(_) =>
      case ByRule(_, _, premises) =>
        forall j | 0 <= j < |premises| ensures HeightAtMost(premises[j], n - 1) {
          HeightGrows(premises[j], k - 1, n - 1);
        }
    }
  }

  /** Every tree has some height. */
  lemma {:induction false} HasHeight(d: Derivation) returns (k: nat)
    ensures HeightAtMost(d, k)
    decreases d
  {
    match d {
      case Given(_) =>
        k := 0;
      case ByRule(_, _, premises) =>
        k := 1;
        var j := 0;
        while j < |premises|
          invariant 0 <= j <= |premises| && k > 0
          invariant forall i :: 0 <= i < j ==> HeightAtMost(premises[i], k - 1)
        {
          var n := HasHeight(premises[j]);
          var more := if n < k then k else n + 1;
          HeightGrows(premises[j], n, more - 1);
          forall i | 0 <= i < j ensures HeightAtMost(premises[i], more - 1) {
            HeightGrows(premises[i], k - 1, more - 1);
          }
          k := more;
          j := j + 1;
        }
    }
  }

  /** What a tree of height at most k concludes is known after k rounds. */
  lemma {:induction false} ProvedKnown(rules: seq<Rule>, facts: seq<Fact>, k: nat, d: Derivation, f: Fact)
    requires Proves(rules, facts, k, d, f)
    ensures f in Closure(rules, FactsOf(facts), k)
    decreases d
  {
    hide Conclude, Holds, AllVariables, Closure;
    match d {
      case Given(_) =>
        ClosureAbove(rules, FactsOf(facts), k);
      case ByRule(i, b, premises) =>
        var known := Closure(rules, FactsOf(facts), k - 1);
        forall j | 0 <= j < |premises| ensures Met(rules[i].conditions[j], known, b) {
          assert Meets(rules, premises[j], rules[i].conditions[j], b);
          var g := Conclusion(rules, premises[j]).value;
          ProvedKnown(rules, facts, k - 1, premises[j], g);
        }
        DerivedNext(rules, FactsOf(facts), k - 1, i, b);
    }
  }

  lemma DerivedNext(rules: seq<Rule>, input: iset<Fact>, k: nat, i: nat, b: Binding)
    requires i < |rules| && Satisfies(rules[i].conditions, Closure(rules, input, k), b)
    ensures Conclude(rules[i], b) in Closure(rules, input, k + 1)
  {
    hide Satisfies, Conclude;
    assert Consequence(rules[i], Closure(rules, input, k), Conclude(rules[i], b));
    assert Derives(rules, Closure(rules, input, k), Conclude(rules[i], b));
  }

  lemma ProvableLonger(rules: seq<Rule>, facts: seq<Fact>, k: nat, n: nat, f: Fact)
    requires Provable(rules, facts, k, f) && k <= n
    ensures Provable(rules, facts, n, f)
  {
    hide Sound, HeightAtMost, Conclusion;
    var d :| Proves(rules, facts, k, d, f);
    HeightGrows(d, k, n);
    assert Proves(rules, facts, n, d, f);
  }

  /** A tree for each condition of a rule. */
  ghost predicate Premises(rules: seq<Rule>, facts: seq<Fact>, k: nat, conditions: seq<Pattern>, b: Binding,
                           premises: seq<Derivation>) {
    && |premises| <= |conditions|
    && forall j :: 0 <= j < |premises| ==>
         Sound(rules, facts, premises[j]) && HeightAtMost(premises[j], k) && Meets(rules, premises[j], conditions[j], b)
  }

  lemma OnePremise(rules: seq<Rule>, facts: seq<Fact>, k: nat, p: Pattern, known: iset<Fact>, b: Binding)
      returns (d: Derivation)
    requires Met(p, known, b) && forall g :: g in known ==> Provable(rules, facts, k, g)
    ensures Sound(rules, facts, d) && HeightAtMost(d, k) && Meets(rules, d, p, b)
  {
    hide Sound, HeightAtMost, Conclusion, Holds;
    var g :| g in known && Holds(g, p, b);
    d :| Proves(rules, facts, k, d, g);
  }

  lemma AllPremises(rules: seq<Rule>, facts: seq<Fact>, k: nat, conditions: seq<Pattern>, known: iset<Fact>, b: Binding)
      returns (premises: seq<Derivation>)
    requires Satisfies(conditions, known, b) && forall g :: g in known ==> Provable(rules, facts, k, g)
    ensures |premises| == |conditions| && Premises(rules, facts, k, conditions, b, premises)
  {
    hide Sound, HeightAtMost, Meets, Met, Provable, AllVariables;
    premises := [];
    while |premises| < |conditions|
      invariant Premises(rules, facts, k, conditions, b, premises)
      decreases |conditions| - |premises|
    {
      var d := OnePremise(rules, facts, k, conditions[|premises|], known, b);
      premises := premises + [d];
    }
  }

  lemma StepProvable(rules: seq<Rule>, facts: seq<Fact>, k: nat, known: iset<Fact>, f: Fact)
    requires Derives(rules, known, f) && forall g :: g in known ==> Provable(rules, facts, k, g)
    ensures Provable(rules, facts, k + 1, f)
  {
    hide Provable, Satisfies, Conclude, Meets, AllVariables;
    var i :| 0 <= i < |rules| && Consequence(rules[i], known, f);
    var b :| Satisfies(rules[i].conditions, known, b) && f == Conclude(rules[i], b);
    var premises := AllPremises(rules, facts, k, rules[i].conditions, known, b);
    BindsAll(rules[i].conditions, known, b);
    RuleProves(rules, facts, k, i, b, premises);
  }

  lemma BindsAll(conditions: seq<Pattern>, known: iset<Fact>, b: Binding)
    requires Satisfies(conditions, known, b)
    ensures b.Keys == AllVariables(conditions)
  {
    hide AllVariables, Met;
  }

  lemma RuleProves(rules: seq<Rule>, facts: seq<Fact>, k: nat, i: nat, b: Binding, premises: seq<Derivation>)
    requires i < |rules| && b.Keys == AllVariables(rules[i].conditions) && |premises| == |rules[i].conditions|
    requires Premises(rules, facts, k, rules[i].conditions, b, premises)
    ensures Provable(rules, facts, k + 1, Conclude(rules[i], b))
  {
    hide Conclude, Meets, AllVariables;
    var d := ByRule(i, b, premises);
    assert Sound(rules, facts, d);
    assert HeightAtMost(d, k + 1);
    assert Proves(rules, facts, k + 1, d, Conclude(rules[i], b));
  }

  lemma {:induction false} KnownProvable(rules: seq<Rule>, facts: seq<Fact>, k: nat)
    ensures forall f :: f in Closure(rules, FactsOf(facts), k) ==> Provable(rules, facts, k, f)
  {
    hide Provable, Derives;
    if k == 0 {
      forall f | f in facts ensures Provable(rules, facts, 0, f) {
        GivenProvable(rules, facts, f);
      }
    } else {
      KnownProvable(rules, facts, k - 1);
      var known := Closure(rules, FactsOf(facts), k - 1);
      forall f | f in known || Derives(rules, known, f) ensures Provable(rules, facts, k, f) {
        if f in known {
          ProvableLonger(rules, facts, k - 1, k, f);
        } else {
          StepProvable(rules, facts, k - 1, known, f);
        }
      }
    }
  }

  lemma GivenProvable(rules: seq<Rule>, facts: seq<Fact>, f: Fact)
    requires f in facts
    ensures Provable(rules, facts, 0, f)
  {
    assert Proves(rules, facts, 0, Given(f), f);
  }

  /** A fact is known after k rounds if and only if some derivation tree of
      height at most k concludes it. */
  lemma KnownIff(rules: seq<Rule>, facts: seq<Fact>, k: nat, f: Fact)
    ensures f in Closure(rules, FactsOf(facts), k) <==> Provable(rules, facts, k, f)
  {
    hide Closure, Proves;
    KnownProvable(rules, facts, k);
    if Provable(rules, facts, k, f) {
      var d :| Proves(rules, facts, k, d, f);
      ProvedKnown(rules, facts, k, d, f);
    }
  }

  lemma {:induction false} ClosureGrows(rules: seq<Rule>, input: iset<Fact>, k: nat, n: nat)
    requires k <= n
    ensures Closure(rules, input, k) <= Closure(rules, input, n)
  {
    hide Derives;
    if k < n {
      ClosureGrows(rules, input, k, n - 1);
    }
  }

  lemma {:induction false} ClosedStays(rules: seq<Rule>, input: iset<Fact>, k: nat, n: nat)
    requires IsClosed(rules, Closure(rules, input, k)) && k <= n
    ensures Closure(rules, input, n) == Closure(rules, input, k)
  {
    hide Derives;
    if k < n {
      ClosedStays(rules, input, k, n - 1);
    }
  }

  ghost function KnownAfter(facts: seq<Fact>, r: ReasoningResult): iset<Fact> {
    FactsOf(facts) + FactsOf(r.conclusions)
  }

  lemma RunClosure(rules: seq<Rule>, maxIterations: nat, facts: seq<Fact>, r: ReasoningResult)
    requires Outcome(rules, maxIterations, facts, r)
    ensures KnownAfter(facts, r) == Closure(rules, FactsOf(facts), maxIterations)
  {
    hide Closure, Log, Derived, IsClosed;
    if r.iterations < maxIterations {
      ClosedStays(rules, FactsOf(facts), r.iterations, maxIterations);
    }
  }

  /** For every run, whatever the rules: what is known at the end is exactly what
      has a derivation tree no higher than the limit. The run has reached the
      least fixpoint if and only if that is everything derivable at all, that is,
      if every derivable fact has such a tree. */
  lemma RunDerives(rules: seq<Rule>, maxIterations: nat, facts: seq<Fact>, r: ReasoningResult)
    requires Outcome(rules, maxIterations, facts, r)
    ensures forall f :: f in KnownAfter(facts, r) <==> Provable(rules, facts, maxIterations, f)
    ensures LeastFixpoint(rules, FactsOf(facts), KnownAfter(facts, r)) <==>
            forall f :: Derivable(rules, facts, f) ==> f in KnownAfter(facts, r)
    ensures LeastFixpoint(rules, FactsOf(facts), KnownAfter(facts, r)) <==>
            forall f :: Derivable(rules, facts, f) ==> Provable(rules, facts, maxIterations, f)
  {
    hide Closure, Outcome, Provable, Derivable, LeastFixpoint, KnownAfter;
    RunClosure(rules, maxIterations, facts, r);
    forall f ensures f in KnownAfter(facts, r) <==> Provable(rules, facts, maxIterations, f) {
      KnownIff(rules, facts, maxIterations, f);
    }
    FixpointDerives(rules, facts, maxIterations);
  }

  lemma DerivableKnown(rules: seq<Rule>, facts: seq<Fact>, f: Fact) returns (k: nat)
    requires Derivable(rules, facts, f)
    ensures f in Closure(rules, FactsOf(facts), k)
  {
    hide Sound, Conclusion, HeightAtMost, Closure;
    var d :| Sound(rules, facts, d) && Conclusion(rules, d) == Some(f);
    k := HasHeight(d);
    ProvedKnown(rules, facts, k, d, f);
  }

  lemma KnownDerivable(rules: seq<Rule>, facts: seq<Fact>, k: nat, f: Fact)
    requires f in Closure(rules, FactsOf(facts), k)
    ensures Derivable(rules, facts, f)
  {
    hide Sound, Conclusion, HeightAtMost, Closure;
    KnownIff(rules, facts, k, f);
    var d :| Proves(rules, facts, k, d, f);
  }

  lemma FixpointDerives(rules: seq<Rule>, facts: seq<Fact>, n: nat)
    ensures LeastFixpoint(rules, FactsOf(facts), Closure(rules, FactsOf(facts), n)) <==>
            forall f :: Derivable(rules, facts, f) ==> f in Closure(rules, FactsOf(facts), n)
  {
    hide Closure, Derivable, Derives;
    var known := Closure(rules, FactsOf(facts), n);
    if IsClosed(rules, known) {
      ClosureLeast(rules, FactsOf(facts), n);
      forall f | Derivable(rules, facts, f) ensures f in known {
        var k := DerivableKnown(rules, facts, f);
        ClosureBelow(rules, FactsOf(facts), k, known);
      }
    }
    if forall f :: Derivable(rules, facts, f) ==> f in known {
      forall f | Derives(rules, known, f) ensures f in known {
        DerivesKnown(rules, FactsOf(facts), n, f);
        KnownDerivable(rules, facts, n + 1, f);
      }
      ClosureLeast(rules, FactsOf(facts), n);
    }
  }

  lemma DerivesKnown(rules: seq<Rule>, input: iset<Fact>, n: nat, f: Fact)
    requires Derives(rules, Closure(rules, input, n), f)
    ensures f in Closure(rules, input, n + 1)
  {
    hide Derives;
  }

  // --- rules in strata

  function LevelOf(level: map<string, nat>, predicate_: string): nat {
    if predicate_ in level then level[predicate_] else 0
  }

  /** Every rule concludes a fixed predicate of a level from 1 to `depth`, above
      the levels of its conditions. */
  predicate Stratified(rules: seq<Rule>, level: map<string, nat>, depth: nat) {
    forall i :: 0 <= i < |rules| ==> InStrata(rules[i], level, depth)
  }

  predicate InStrata(r: Rule, level: map<string, nat>, depth: nat) {
    && !IsVariable(r.conclusion.predicate_) && 1 <= LevelOf(level, r.conclusion.predicate_) <= depth
    && forall j :: 0 <= j < |r.conditions| ==>
         LevelOf(level, r.conditions[j].predicate_) < LevelOf(level, r.conclusion.predicate_)
  }

  /** The facts a rule rests on are known as early as their levels. */
  lemma SatisfiedEarlier(r: Rule, level: map<string, nat>, depth: nat, known: iset<Fact>, early: iset<Fact>, b: Binding)
    requires InStrata(r, level, depth) && Satisfies(r.conditions, known, b)
    requires forall g :: g in known && LevelOf(level, g.predicate_) < LevelOf(level, r.conclusion.predicate_) ==>
                           g in early
    ensures Satisfies(r.conditions, early, b)
  {
    hide AllVariables, LevelOf;
    forall j | 0 <= j < |r.conditions| ensures Met(r.conditions[j], early, b) {
      assert Met(r.conditions[j], known, b);
      var g :| g in known && Holds(g, r.conditions[j], b);
      assert g.predicate_ == r.conditions[j].predicate_;
    }
  }

  /** A fact of level at most k that is ever known is known after k rounds. */
  lemma {:induction false} KnownByLevel(rules: seq<Rule>, level: map<string, nat>, depth: nat, input: iset<Fact>,
                                        n: nat, k: nat, f: Fact)
    requires Stratified(rules, level, depth) && f in Closure(rules, input, n) && LevelOf(level, f.predicate_) <= k
    ensures f in Closure(rules, input, k)
    decreases n
  {
    hide Stratified, LevelOf, Consequence;
    if n == 0 {
      ClosureAbove(rules, input, k);
    } else if f in Closure(rules, input, n - 1) {
      KnownByLevel(rules, level, depth, input, n - 1, k, f);
    } else {
      var known := Closure(rules, input, n - 1);
      var i :| 0 <= i < |rules| && Consequence(rules[i], known, f);
      forall g | g in known && k > 0 && LevelOf(level, g.predicate_) <= k - 1
        ensures g in Closure(rules, input, k - 1)
      {
        KnownByLevel(rules, level, depth, input, n - 1, k - 1, g);
      }
      DerivedByLevel(rules, level, depth, input, i, known, k, f);
    }
  }

  lemma DerivedByLevel(rules: seq<Rule>, level: map<string, nat>, depth: nat, input: iset<Fact>, i: nat,
                       known: iset<Fact>, k: nat, f: Fact)
    requires Stratified(rules, level, depth) && i < |rules| && Consequence(rules[i], known, f)
    requires LevelOf(level, f.predicate_) <= k
    requires forall g :: g in known && k > 0 && LevelOf(level, g.predicate_) <= k - 1 ==>
                           g in Closure(rules, input, k - 1)
    ensures f in Closure(rules, input, k)
  {
    hide Closure, LevelOf, Satisfies;
    assert InStrata(rules[i], level, depth);
    var b :| Satisfies(rules[i].conditions, known, b) && f == Conclude(rules[i], b);
    assert f.predicate_ == rules[i].conclusion.predicate_;
    SatisfiedEarlier(rules[i], level, depth, known, Closure(rules, input, k - 1), b);
    DerivedNext(rules, input, k - 1, i, b);
  }

  /** With rules in `depth` strata that many rounds always reach the fixpoint. */
  lemma StrataClose(rules: seq<Rule>, level: map<string, nat>, depth: nat, input: iset<Fact>)
    requires Stratified(rules, level, depth)
    ensures IsClosed(rules, Closure(rules, input, depth))
  {
    hide Closure, Stratified, Derives;
    var known := Closure(rules, input, depth);
    forall f | Derives(rules, known, f) ensures f in known {
      DerivesKnown(rules, input, depth, f);
      DerivedLevel(rules, level, depth, known, f);
      KnownByLevel(rules, level, depth, input, depth + 1, depth, f);
    }
  }

  lemma DerivedLevel(rules: seq<Rule>, level: map<string, nat>, depth: nat, known: iset<Fact>, f: Fact)
    requires Stratified(rules, level, depth) && Derives(rules, known, f)
    ensures LevelOf(level, f.predicate_) <= depth
  {
    hide LevelOf, Satisfies;
    var i :| 0 <= i < |rules| && Consequence(rules[i], known, f);
    assert InStrata(rules[i], level, depth);
  }

  /** So with no more strata than the limit, every run returns the least
      fixpoint, whatever the facts. */
  lemma StrataSuffice(rules: seq<Rule>, level: map<string, nat>, depth: nat, maxIterations: nat, facts: seq<Fact>,
                      r: ReasoningResult)
    requires Stratified(rules, level, depth) && depth <= maxIterations && Outcome(rules, maxIterations, facts, r)
    ensures LeastFixpoint(rules, FactsOf(facts), KnownAfter(facts, r))
  {
    hide Closure, Stratified, Outcome, IsClosed, LeastFixpoint;
    StrataClose(rules, level, depth, FactsOf(facts));
    ClosureLeast(rules, FactsOf(facts), depth);
    ClosedStays(rules, FactsOf(facts), depth, maxIterations);
    RunClosure(rules, maxIterations, facts, r);
  }

  // --- a chain of rules

  function Name(i: nat): (s: string)
    ensures |s| == i + 1 && s[0] == 'p'
  {
    if i == 0 then "p" else Name(i - 1) + "p"
  }

  /** From each predicate of the chain to the next. */
  function ChainRule(i: nat): Rule {
    Rule("next", [Pattern(Name(i), "$x", None)], Pattern(Name(i + 1), "$x", None), 1.0)
  }

  function ChainRules(n: nat): (rules: seq<Rule>)
    ensures |rules| == n && forall i :: 0 <= i < n ==> rules[i] == ChainRule(i)
  {
    seq(n, i requires 0 <= i < n => ChainRule(i))
  }

  function ChainFact(i: nat): Fact {
    Fact(Name(i), "a", None, 1.0)
  }

  function ChainBinding(): Binding {
    map["x" := "a"]
  }

  lemma ChainVariables(i: nat)
    ensures AllVariables(ChainRule(i).conditions) == {"x"}
  {
    var conditions := ChainRule(i).conditions;
    assert conditions[..0] == [];
    assert "$x"[1..] == "x";
    assert TermVariables("$x") == {"x"};
  }

  lemma ChainNext(i: nat, known: iset<Fact>)
    requires ChainFact(i) in known
    ensures Satisfies(ChainRule(i).conditions, known, ChainBinding())
    ensures Conclude(ChainRule(i), ChainBinding()) == ChainFact(i + 1)
  {
    hide Name;
    ChainVariables(i);
    assert "$x"[1..] == "x";
    assert Holds(ChainFact(i), ChainRule(i).conditions[0], ChainBinding());
    assert Met(ChainRule(i).conditions[0], known, ChainBinding());
    assert !IsVariable(Name(i + 1));
  }

  lemma {:induction false} ChainKnown(n: nat, k: nat)
    requires k <= n
    ensures ChainFact(k) in Closure(ChainRules(n), FactsOf([ChainFact(0)]), k)
  {
    hide Satisfies, Conclude, ChainRule, ChainFact;
    if k > 0 {
      hide Closure;
      ChainKnown(n, k - 1);
      ChainNext(k - 1, Closure(ChainRules(n), FactsOf([ChainFact(0)]), k - 1));
      DerivedNext(ChainRules(n), FactsOf([ChainFact(0)]), k - 1, k - 1, ChainBinding());
    }
  }

  /** Each round lengthens the longest known predicate by one. */
  lemma {:induction false} ChainLength(n: nat, k: nat, f: Fact)
    requires f in Closure(ChainRules(n), FactsOf([ChainFact(0)]), k)
    ensures |f.predicate_| <= k + 1
  {
    hide Consequence;
    if k > 0 && f !in Closure(ChainRules(n), FactsOf([ChainFact(0)]), k - 1) {
      var known := Closure(ChainRules(n), FactsOf([ChainFact(0)]), k - 1);
      var i :| 0 <= i < n && Consequence(ChainRules(n)[i], known, f);
      var g := ChainSource(i, known, f);
      ChainLength(n, k - 1, g);
    } else if k > 0 {
      ChainLength(n, k - 1, f);
    }
  }

  lemma ChainSource(i: nat, known: iset<Fact>, f: Fact) returns (g: Fact)
    requires Consequence(ChainRule(i), known, f)
    ensures g in known && |f.predicate_| == |g.predicate_| + 1
  {
    hide AllVariables;
    var r := ChainRule(i);
    var b :| Satisfies(r.conditions, known, b) && f == Conclude(r, b);
    assert Met(r.conditions[0], known, b);
    g :| g in known && Holds(g, r.conditions[0], b);
  }

  lemma ChainOpen(n: nat, k: nat)
    requires k < n
    ensures !IsClosed(ChainRules(n), Closure(ChainRules(n), FactsOf([ChainFact(0)]), k))
  {
    hide Satisfies, Conclude, ChainRule, Closure;
    var input := FactsOf([ChainFact(0)]);
    var known := Closure(ChainRules(n), input, k);
    ChainKnown(n, k);
    ChainNext(k, known);
    var f := ChainFact(k + 1);
    assert Consequence(ChainRules(n)[k], known, f);
    assert Derives(ChainRules(n), known, f);
    if f in known {
      ChainLength(n, k, f);
    }
  }

  lemma ChainRun(n: nat, maxIterations: nat, r: ReasoningResult)
    requires maxIterations < n && Outcome(ChainRules(n), maxIterations, [ChainFact(0)], r)
    ensures r.iterations == maxIterations
    ensures !LeastFixpoint(ChainRules(n), FactsOf([ChainFact(0)]), KnownAfter([ChainFact(0)], r))
    ensures ChainFact(n) !in r.conclusions && Derivable(ChainRules(n), [ChainFact(0)], ChainFact(n))
  {
    hide Closure, IsClosed, Log, Derived, Derivable, ChainRules, ChainFact;
    ChainOpen(n, r.iterations);
    RunClosure(ChainRules(n), maxIterations, [ChainFact(0)], r);
    ChainKnown(n, n);
    KnownDerivable(ChainRules(n), [ChainFact(0)], n, ChainFact(n));
    if ChainFact(n) in r.conclusions {
      assert ChainFact(n) in KnownAfter([ChainFact(0)], r);
      ChainLength(n, maxIterations, ChainFact(n));
      ChainFactLength(n);
    }
  }

  lemma ChainFactLength(n: nat)
    ensures |ChainFact(n).predicate_| == n + 1
  {
  }

  function ChainLevels(n: nat): map<string, nat> {
    if n == 0 then map[] else ChainLevels(n - 1)[Name(n) := n]
  }

  lemma {:induction false} ChainLevel(n: nat, i: nat)
    ensures LevelOf(ChainLevels(n), Name(i)) == if i <= n then i else 0
  {
    hide Name;
    if n > 0 {
      ChainLevel(n - 1, i);
      assert |Name(i)| == i + 1 && |Name(n)| == n + 1;
    }
  }

  lemma ChainStratified(n: nat)
    ensures Stratified(ChainRules(n), ChainLevels(n), n)
  {
    hide Name, LevelOf, ChainLevels;
    forall i | 0 <= i < n ensures InStrata(ChainRules(n)[i], ChainLevels(n), n) {
      ChainLevel(n, i);
      ChainLevel(n, i + 1);
    }
  }

  /** A run over a chain of n rules returns the least fixpoint if and only if
      the limit is at least n. */
  lemma ChainIff(n: nat, maxIterations: nat, r: ReasoningResult)
    requires Outcome(ChainRules(n), maxIterations, [ChainFact(0)], r)
    ensures LeastFixpoint(ChainRules(n), FactsOf([ChainFact(0)]), KnownAfter([ChainFact(0)], r)) <==> n <= maxIterations
  {
    hide Outcome, LeastFixpoint, ChainRules, ChainFact, Stratified;
    if n <= maxIterations {
      ChainStratified(n);
      StrataSuffice(ChainRules(n), ChainLevels(n), n, maxIterations, [ChainFact(0)], r);
    } else {
      ChainRun(n, maxIterations, r);
    }
  }

  /** Eleven rules in a row: the engine's limit of ten rounds stops one short,
      and the last fact, which is derivable, is missing. */
  method ElevenRules() returns (r: ReasoningResult)
    ensures r.iterations == 10
    ensures Derivable(ChainRules(11), [ChainFact(0)], ChainFact(11)) && ChainFact(11) !in r.conclusions
    ensures !LeastFixpoint(ChainRules(11), FactsOf([ChainFact(0)]), KnownAfter([ChainFact(0)], r))
  {
    hide Outcome, LeastFixpoint, Derivable, ChainRules, ChainFact;
    var engine := new ReasoningEngine.WithRules(ChainRules(11));
    r := engine.Reason([ChainFact(0)]);
    ChainRun(11, 10, r);
  }
}
