/** The transitivity rule that crates/ai-runtime/src/reasoning.rs is tried on at
    lines 320-344: what the engine makes of it is reachability. */
module Transitivity {
  import opened Options
  import opened Numbers
  import opened Reasoning
  import opened Derivations

  const FIRST := Pattern("is_a", "$X", Some("$Y"))
  const SECOND := Pattern("is_a", "$Y", Some("$Z"))

  function IsARule(confidence: real): Rule {
    Rule("transitive_is_a", [FIRST, SECOND], Pattern("is_a", "$X", Some("$Z")), confidence)
  }

  // --- chains of facts

  /** The fact says that `a` is a `c`; without an object, that `a` is a "". */
  predicate Says(f: Fact, a: string, c: string) {
    f.predicate_ == "is_a" && f.subject == a && (f.object_ == Some(c) || (f.object_ == None && c == ""))
  }

  ghost predicate IsA(facts: iset<Fact>, a: string, c: string) {
    exists f :: f in facts && Says(f, a, c)
  }

  /** Along `p` each text is a text of the next kind. */
  ghost predicate Links(facts: iset<Fact>, p: seq<string>) {
    forall i {:trigger p[i]} :: 0 < i < |p| ==> IsA(facts, p[i - 1], p[i])
  }

  /** `n` facts lead from `a` to `c`, one on the other. */
  ghost predicate ChainOf(facts: iset<Fact>, a: string, c: string, n: nat) {
    exists p: seq<string> :: |p| == n + 1 && p[0] == a && p[n] == c && Links(facts, p)
  }

  /** Between one and `most` facts do. */
  ghost predicate Within(facts: iset<Fact>, a: string, c: string, most: nat) {
    exists n: nat :: 1 <= n <= most && ChainOf(facts, a, c, n)
  }

  lemma ChainOfOne(facts: iset<Fact>, a: string, c: string)
    ensures ChainOf(facts, a, c, 1) <==> IsA(facts, a, c)
  {
    hide IsA;
    if IsA(facts, a, c) {
      assert Links(facts, [a, c]);
    }
  }

  lemma ChainJoin(facts: iset<Fact>, a: string, b: string, c: string, n: nat, m: nat)
    requires ChainOf(facts, a, b, n) && ChainOf(facts, b, c, m)
    ensures ChainOf(facts, a, c, n + m)
  {
    hide IsA;
    var p: seq<string> :| |p| == n + 1 && p[0] == a && p[n] == b && Links(facts, p);
    var q: seq<string> :| |q| == m + 1 && q[0] == b && q[m] == c && Links(facts, q);
    var r := p[..n] + q;
    forall i | 0 < i < |r| ensures IsA(facts, r[i - 1], r[i]) {
      if i <= n {
        assert r[i - 1] == p[i - 1] && r[i] == p[i];
      } else {
        assert r[i - 1] == q[i - 1 - n] && r[i] == q[i - n];
      }
    }
    assert Links(facts, r);
  }

  lemma ChainCut(facts: iset<Fact>, a: string, c: string, n: nat, k: nat) returns (b: string)
    requires ChainOf(facts, a, c, n) && k <= n
    ensures ChainOf(facts, a, b, k) && ChainOf(facts, b, c, n - k)
  {
    hide IsA;
    var p: seq<string> :| |p| == n + 1 && p[0] == a && p[n] == c && Links(facts, p);
    b := p[k];
    var q, r := p[..k + 1], p[k..];
    forall i | 0 < i < |q| ensures IsA(facts, q[i - 1], q[i]) {
      assert q[i - 1] == p[i - 1] && q[i] == p[i];
    }
    forall i | 0 < i < |r| ensures IsA(facts, r[i - 1], r[i]) {
      assert r[i - 1] == p[k + i - 1] && r[i] == p[k + i];
    }
    assert Links(facts, q) && Links(facts, r);
  }

  // --- one round

  lemma RuleVariables()
    ensures AllVariables([FIRST, SECOND]) == {"X", "Y", "Z"}
  {
    assert Variables(FIRST) == {"X", "Y"} && Variables(SECOND) == {"Y", "Z"} by {
      assert "$X"[1..] == "X" && "$Y"[1..] == "Y" && "$Z"[1..] == "Z";
    }
    hide Variables;
    assert [FIRST, SECOND][..1] == [FIRST] && [FIRST][..0] == [];
    assert AllVariables([]) == {};
    assert AllVariables([FIRST]) == Variables(FIRST);
  }

  lemma HoldsFirst(f: Fact, b: Binding)
    ensures Holds(f, FIRST, b) <==> "X" in b && "Y" in b && Says(f, b["X"], b["Y"])
  {
    assert "$X"[1..] == "X" && "$Y"[1..] == "Y";
  }

  lemma HoldsSecond(f: Fact, b: Binding)
    ensures Holds(f, SECOND, b) <==> "Y" in b && "Z" in b && Says(f, b["Y"], b["Z"])
  {
    assert "$Z"[1..] == "Z" && "$Y"[1..] == "Y";
  }

  lemma RuleConcludes(confidence: real, b: Binding)
    requires "X" in b && "Z" in b
    ensures Conclude(IsARule(confidence), b) == Fact("is_a", b["X"], Some(b["Z"]), confidence)
  {
    assert "$X"[1..] == "X" && "$Z"[1..] == "Z";
  }

  /** What the rule draws from `known` is what two facts in a row say. */
  lemma RuleDraws(confidence: real, known: iset<Fact>, f: Fact)
    ensures Consequence(IsARule(confidence), known, f) <==>
            exists a, b, c :: IsA(known, a, b) && IsA(known, b, c) && f == Fact("is_a", a, Some(c), confidence)
  {
    hide Says, Conclude, Holds, AllVariables;
    RuleVariables();
    var r := IsARule(confidence);
    if Consequence(r, known, f) {
      var s :| Satisfies(r.conditions, known, s) && f == Conclude(r, s);
      assert Met(r.conditions[0], known, s) && Met(r.conditions[1], known, s);
      var g :| g in known && Holds(g, FIRST, s);
      var h :| h in known && Holds(h, SECOND, s);
      HoldsFirst(g, s);
      HoldsSecond(h, s);
      RuleConcludes(confidence, s);
      assert IsA(known, s["X"], s["Y"]) && IsA(known, s["Y"], s["Z"]);
    }
    if a, b, c :| IsA(known, a, b) && IsA(known, b, c) && f == Fact("is_a", a, Some(c), confidence) {
      RuleApplies(confidence, known, a, b, c);
    }
  }

  lemma RuleApplies(confidence: real, known: iset<Fact>, a: string, b: string, c: string)
    requires IsA(known, a, b) && IsA(known, b, c)
    ensures Consequence(IsARule(confidence), known, Fact("is_a", a, Some(c), confidence))
  {
    hide Says, Conclude, Holds, AllVariables;
    RuleVariables();
    var r := IsARule(confidence);
    var s: Binding := map["X" := a, "Y" := b, "Z" := c];
    var g :| g in known && Says(g, a, b);
    var h :| h in known && Says(h, b, c);
    HoldsFirst(g, s);
    HoldsSecond(h, s);
    RuleConcludes(confidence, s);
    assert Met(r.conditions[0], known, s) && Met(r.conditions[1], known, s);
    assert Satisfies(r.conditions, known, s);
  }

  lemma RoundDraws(confidence: real, known: iset<Fact>, a: string, c: string)
    ensures IsA(Step([IsARule(confidence)], known), a, c) <==>
            IsA(known, a, c) || exists b :: IsA(known, a, b) && IsA(known, b, c)
  {
    hide Consequence;
    var rules := [IsARule(confidence)];
    if IsA(Step(rules, known), a, c) {
      var f :| f in Step(rules, known) && Says(f, a, c);
      if f !in known {
        assert Derives(rules, known, f);
        RuleDraws(confidence, known, f);
      }
    }
    if IsA(known, a, c) {
      var f :| f in known && Says(f, a, c);
      assert f in Step(rules, known);
    }
    if b :| IsA(known, a, b) && IsA(known, b, c) {
      var f := Fact("is_a", a, Some(c), confidence);
      RuleApplies(confidence, known, a, b, c);
      assert Consequence(rules[0], known, f);
      assert f in Step(rules, known) && Says(f, a, c);
    }
  }

  // --- many rounds

  /** Each round doubles the length of the chains that are summed up. */
  lemma {:induction false} RoundsDouble(confidence: real, input: iset<Fact>, k: nat, a: string, c: string)
    ensures IsA(Closure([IsARule(confidence)], input, k), a, c) <==> Within(input, a, c, Pow2(k))
    decreases k
  {
    hide IsA, ChainOf, Step;
    var rules := [IsARule(confidence)];
    if k == 0 {
      ChainOfOne(input, a, c);
    } else {
      var known := Closure(rules, input, k - 1);
      RoundDraws(confidence, known, a, c);
      RoundsDouble(confidence, input, k - 1, a, c);
      forall b ensures IsA(known, a, b) <==> Within(input, a, b, Pow2(k - 1))
               ensures IsA(known, b, c) <==> Within(input, b, c, Pow2(k - 1)) {
        RoundsDouble(confidence, input, k - 1, a, b);
        RoundsDouble(confidence, input, k - 1, b, c);
      }
      hide Closure;
      if b :| IsA(known, a, b) && IsA(known, b, c) {
        WithinJoin(input, a, b, c, Pow2(k - 1));
      }
      if Within(input, a, c, Pow2(k)) && !Within(input, a, c, Pow2(k - 1)) {
        var b := WithinCut(input, a, c, Pow2(k - 1));
        assert IsA(known, a, b) && IsA(known, b, c);
      }
    }
  }

  lemma WithinJoin(input: iset<Fact>, a: string, b: string, c: string, most: nat)
    requires Within(input, a, b, most) && Within(input, b, c, most)
    ensures Within(input, a, c, 2 * most)
  {
    hide ChainOf;
    var n: nat :| 1 <= n <= most && ChainOf(input, a, b, n);
    var m: nat :| 1 <= m <= most && ChainOf(input, b, c, m);
    ChainJoin(input, a, b, c, n, m);
  }

  lemma WithinCut(input: iset<Fact>, a: string, c: string, most: nat) returns (b: string)
    requires Within(input, a, c, 2 * most) && !Within(input, a, c, most)
    ensures Within(input, a, b, most) && Within(input, b, c, most)
  {
    hide ChainOf;
    var n: nat :| 1 <= n <= 2 * most && ChainOf(input, a, c, n);
    assert n > most;
    b := ChainCut(input, a, c, n, n - most);
    assert ChainOf(input, b, c, most) && 1 <= most;
  }

  lemma WithinMore(input: iset<Fact>, a: string, c: string, some: nat, more: nat)
    requires Within(input, a, c, some) && some <= more
    ensures Within(input, a, c, more)
  {
    hide ChainOf;
  }

  lemma {:induction false} PowerAbove(n: nat)
    ensures n <= Pow2(n)
  {
    if n > 0 {
      PowerAbove(n - 1);
    }
  }

  lemma FixpointsSame(rules: seq<Rule>, input: iset<Fact>, k: iset<Fact>, l: iset<Fact>)
    requires LeastFixpoint(rules, input, k) && LeastFixpoint(rules, input, l)
    ensures k == l
  {
    hide IsClosed;
    assert k <= l && l <= k;
  }

  ghost predicate SomeChain(input: iset<Fact>, a: string, c: string) {
    exists n: nat :: n >= 1 && ChainOf(input, a, c, n)
  }

  /** For any list of facts: in the least fixpoint `a` is a `c` if and only if a
      chain of one or more input facts leads from `a` to `c`. */
  lemma FixpointIsReach(confidence: real, facts: seq<Fact>, known: iset<Fact>, a: string, c: string)
    requires LeastFixpoint([IsARule(confidence)], FactsOf(facts), known)
    ensures IsA(known, a, c) <==> SomeChain(FactsOf(facts), a, c)
  {
    hide IsA, ChainOf, Closure, IsClosed, LeastFixpoint;
    var rules, input := [IsARule(confidence)], FactsOf(facts);
    var n := ClosureReached(rules, facts);
    ClosureLeast(rules, input, n);
    FixpointsSame(rules, input, known, Closure(rules, input, n));
    RoundsDouble(confidence, input, n, a, c);
    if m: nat :| m >= 1 && ChainOf(input, a, c, m) {
      PowerAbove(m);
      assert Within(input, a, c, Pow2(m));
      RoundsDouble(confidence, input, m, a, c);
      if n <= m {
        ClosedStays(rules, input, n, m);
      } else {
        WithinGrows(input, a, c, m, n);
      }
    }
  }

  lemma WithinGrows(input: iset<Fact>, a: string, c: string, m: nat, n: nat)
    requires Within(input, a, c, Pow2(m)) && m <= n
    ensures Within(input, a, c, Pow2(n))
  {
    hide ChainOf;
    PowerGrows(m, n);
    WithinMore(input, a, c, Pow2(m), Pow2(n));
  }

  lemma {:induction false} PowerGrows(m: nat, n: nat)
    requires m <= n
    ensures Pow2(m) <= Pow2(n)
  {
    if m < n {
      PowerGrows(m, n - 1);
    }
  }

  // --- runs of the engine

  /** A run over any facts: in its ten rounds it sums up exactly the chains of up
      to 1024 facts. */
  method TransitiveRun(confidence: real, facts: seq<Fact>) returns (r: ReasoningResult)
    ensures Outcome([IsARule(confidence)], 10, facts, r)
    ensures forall a, c :: IsA(KnownAfter(facts, r), a, c) <==> Within(FactsOf(facts), a, c, 1024)
  {
    hide Outcome, IsA, Within, Closure, KnownAfter;
    var engine := new ReasoningEngine.WithRules([IsARule(confidence)]);
    r := engine.Reason(facts);
    RunClosure([IsARule(confidence)], 10, facts, r);
    TenDoublings();
    forall a, c ensures IsA(KnownAfter(facts, r), a, c) <==> Within(FactsOf(facts), a, c, 1024) {
      RoundsDouble(confidence, FactsOf(facts), 10, a, c);
    }
  }

  lemma TenDoublings()
    ensures Pow2(10) == 1024
  {
    assert Pow2(5) == 32;
  }

  /** The repository's own example. */
  method RustExample() returns (r: ReasoningResult)
    ensures exists f :: f in r.conclusions && f.predicate_ == "is_a" && f.subject == "Rust"
                        && f.object_ == Some("programming_language")
  {
    hide Outcome, Within;
    var facts := [Fact("is_a", "Rust", Some("systems_language"), 1.0),
                  Fact("is_a", "systems_language", Some("programming_language"), 1.0)];
    r := TransitiveRun(0.9, facts);
    ghost var input := FactsOf(facts);
    assert facts[0] in input && Says(facts[0], "Rust", "systems_language");
    assert facts[1] in input && Says(facts[1], "systems_language", "programming_language");
    TwoInARow(input, "Rust", "systems_language", "programming_language");
    ghost var f :| f in KnownAfter(facts, r) && Says(f, "Rust", "programming_language");
    assert f !in facts;
  }

  lemma TwoInARow(input: iset<Fact>, a: string, b: string, c: string)
    requires IsA(input, a, b) && IsA(input, b, c)
    ensures Within(input, a, c, 1024)
  {
    hide IsA, ChainOf;
    ChainOfOne(input, a, b);
    ChainOfOne(input, b, c);
    ChainJoin(input, a, b, c, 1, 1);
  }
}
