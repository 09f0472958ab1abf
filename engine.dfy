/**
 * The `Evaluator` class of lib/evaluator.ts: it holds a graph, records a
 * trace of the simulation in `steps`, and decides whether an input is matched.
 *
 * The trace is kept with state numbers and rules instead of the source's
 * string ids; a snapshot of active states is a set, so the order in which
 * the source lists them is not kept.
 */
module Engine {
  import opened Automaton
  import opened Acceptance

  /** One entry of `steps`: the rules fired by a character, or the active states. */
  datatype Snapshot = Fired(rules: seq<Rule>) | Active(states: set<nat>)

  /**
   * The trace `match` records for input `w`: the initial active states, then
   * for every character the rules it fired (when there are any) and the
   * active states after it (when there are any).
   */
  function Trace(g: Graph, w: string): seq<Snapshot>
    decreases |w|
  {
    if |w| == 0 then
      if |Initial(g)| > 0 then [Active(Initial(g))] else []
    else
      var prefix, c := w[..|w| - 1], w[|w| - 1];
      var before := Run(g.rules, Initial(g), prefix);
      var fired := Matching(g.rules, before, c);
      var after := Step(g.rules, before, c);
      Trace(g, prefix) + (if |fired| > 0 then [Fired(fired)] else []) + (if |after| > 0 then [Active(after)] else [])
  }

  /** Reading one more character appends its fired rules and the new active states. */
  lemma TraceNext(g: Graph, w: string, i: nat, before: set<nat>, fired: seq<Rule>, after: set<nat>)
    requires i < |w| && before == Run(g.rules, Initial(g), w[..i])
    requires fired == Matching(g.rules, before, w[i]) && after == Step(g.rules, before, w[i])
    ensures Run(g.rules, Initial(g), w[..i + 1]) == after
    ensures Trace(g, w[..i + 1]) == Trace(g, w[..i]) + (if |fired| > 0 then [Fired(fired)] else []) + (if |after| > 0 then [Active(after)] else [])
  {
    assert w[..i + 1][..i] == w[..i];
  }

  /**
   * The trace starts with the initial states, holds at most two entries per
   * character, and, while some state is active, ends with the states active
   * after the whole input.
   */
  lemma {:induction false} TraceShape(g: Graph, w: string)
    ensures 1 <= |Trace(g, w)| <= 2 * |w| + 1 && Trace(g, w)[0] == Active(Initial(g))
    ensures Run(g.rules, Initial(g), w) != {} ==> Trace(g, w)[|Trace(g, w)| - 1] == Active(Run(g.rules, Initial(g), w))
    decreases |w|
  {
    if |w| > 0 {
      var i := |w| - 1;
      assert w[..i + 1] == w;
      var before := Run(g.rules, Initial(g), w[..i]);
      var fired := Matching(g.rules, before, w[i]);
      var after := Step(g.rules, before, w[i]);
      TraceNext(g, w, i, before, fired, after);
      TraceShape(g, w[..i]);
      var t, p := Trace(g, w), Trace(g, w[..i]);
      assert t == p + (if |fired| > 0 then [Fired(fired)] else []) + (if |after| > 0 then [Active(after)] else []);
      assert t[0] == p[0];
    }
  }

  // ------------------------------------------------ `followEpsilons` unfolded

  /**
   * The union of the epsilon closures (under `all`) of the targets of the
   * followed rules among `rules` that leave `s`.
   */
  function Unfolded(all: seq<Rule>, rules: seq<Rule>, s: nat): set<nat> {
    if |rules| == 0 then
      {}
    else
      var last := rules[|rules| - 1];
      Unfolded(all, rules[..|rules| - 1], s) + (if Followed(last) && last.from == s then EpsilonClosure(all, last.to) else {})
  }

  lemma {:induction false} UnfoldedMeaning(all: seq<Rule>, rules: seq<Rule>, s: nat, x: nat)
    ensures x in Unfolded(all, rules, s) <==>
      exists r | r in rules && Followed(r) && r.from == s :: x in EpsilonClosure(all, r.to)
  {
    if |rules| > 0 {
      var last := rules[|rules| - 1];
      assert rules == rules[..|rules| - 1] + [last];
      UnfoldedMeaning(all, rules[..|rules| - 1], s, x);
    }
  }

  /**
   * The closure of `s` is `s` together with the closures of the targets of
   * the followed rules leaving `s`: the recursion of `followEpsilons`.
   */
  lemma ClosureUnfolds(rules: seq<Rule>, s: nat)
    ensures EpsilonClosure(rules, s) == {s} + Unfolded(rules, rules, s)
  {
    var U := {s} + Unfolded(rules, rules, s);
    forall x | x in Unfolded(rules, rules, s)
      ensures x in EpsilonClosure(rules, s)
    {
      UnfoldedMeaning(rules, rules, s, x);
      var r :| r in rules && Followed(r) && r.from == s && x in EpsilonClosure(rules, r.to);
      ClosureTransitive(rules, s, r.to);
    }
    assert Closed(rules, U) by {
      forall r | r in rules && Followed(r) && r.from in U
        ensures r.to in U
      {
        if r.from != s {
          UnfoldedMeaning(rules, rules, s, r.from);
          var f :| f in rules && Followed(f) && f.from == s && r.from in EpsilonClosure(rules, f.to);
          UnfoldedMeaning(rules, rules, s, r.to);
        } else {
          UnfoldedMeaning(rules, rules, s, r.to);
        }
      }
    }
    ClosureLeast(rules, s, U);
  }

  lemma UnfoldedNext(all: seq<Rule>, rules: seq<Rule>, i: nat, s: nat)
    requires i < |rules|
    ensures Unfolded(all, rules[..i + 1], s) ==
      Unfolded(all, rules[..i], s) + (if Followed(rules[i]) && rules[i].from == s then EpsilonClosure(all, rules[i].to) else {})
  {
    assert rules[..i + 1][..i] == rules[..i];
  }

  /** No two distinct states reach each other along followed epsilon rules. */
  ghost predicate NoEpsilonCycle(rules: seq<Rule>) {
    forall a: nat, b: nat | b in EpsilonClosure(rules, a) && a in EpsilonClosure(rules, b) :: a == b
  }

  /**
   * Without epsilon cycles, following a rule from `state` never comes back to
   * a state of an enclosing call, and leaves fewer sources to visit.
   */
  lemma DeeperCall(rules: seq<Rule>, state: nat, onStack: set<nat>, rule: Rule)
    requires NoEpsilonCycle(rules) && state !in onStack
    requires forall u | u in onStack :: state in EpsilonClosure(rules, u)
    requires rule in rules && Followed(rule) && rule.from == state
    ensures rule.to !in onStack + {state}
    ensures forall u | u in onStack + {state} :: rule.to in EpsilonClosure(rules, u)
    ensures |Sources(rules) - (onStack + {state})| < |Sources(rules) - onStack|
  {
    assert state in Sources(rules);
    assert rule.to in EpsilonClosure(rules, state);
    forall u | u in onStack
      ensures rule.to in EpsilonClosure(rules, u)
    {
      ClosureTransitive(rules, u, state);
    }
    GrowthShrinks(Sources(rules), onStack, onStack + {state});
  }

  // ------------------------------------------------------------ the class

  class Evaluator {
    const graph: Graph
    var steps: seq<Snapshot>

    /** The source leaves `steps` unset until `match` runs; here it starts empty. */
    constructor(graph: Graph)
      ensures this.graph == graph && steps == []
    {
      this.graph := graph;
      steps := [];
    }

    /** `matchingRules`: the rules of the graph fired by `c` from `states`, in graph order. */
    method MatchingRules(states: set<nat>, c: char) returns (matched: seq<Rule>)
      ensures matched == Matching(graph.rules, states, c)
    {
      matched := [];
      for i := 0 to |graph.rules|
        invariant matched == Matching(graph.rules[..i], states, c)
      {
        var rule := graph.rules[i];
        assert graph.rules[..i + 1][..i] == graph.rules[..i];
        if rule.from in states && Admits(rule.kind, c) {
          matched := matched + [rule];
        }
      }
      assert graph.rules[..|graph.rules|] == graph.rules;
    }

    /**
     * `followEpsilons` as written: `state`, and the result of following every
     * non-self-loop epsilon rule leaving it, recursively and without a record
     * of the states already visited.  It terminates only when no two states
     * reach each other along epsilon rules; the ghost `onStack` holds the
     * states of the enclosing calls, all of which reach `state`.
     */
    method FollowEpsilons(state: nat, ghost onStack: set<nat>) returns (resolved: set<nat>)
      requires NoEpsilonCycle(graph.rules)
      requires state !in onStack
      requires forall u | u in onStack :: state in EpsilonClosure(graph.rules, u)
      ensures resolved == EpsilonClosure(graph.rules, state)
      decreases |Sources(graph.rules) - onStack|
    {
      resolved := {state};
      for i := 0 to |graph.rules|
        invariant resolved == {state} + Unfolded(graph.rules, graph.rules[..i], state)
      {
        var rule := graph.rules[i];
        UnfoldedNext(graph.rules, graph.rules, i, state);
        if rule.kind == Epsilon && rule.from == state && rule.from != rule.to {
          DeeperCall(graph.rules, state, onStack, rule);
          var endStates := FollowEpsilons(rule.to, onStack + {state});
          resolved := resolved + endStates;
        }
      }
      assert graph.rules[..|graph.rules|] == graph.rules;
      ClosureUnfolds(graph.rules, state);
    }

    /**
     * The epsilon closure of `state` computed with a record of the states
     * already reached, which terminates on every graph.
     */
    method ResolveEpsilons(state: nat) returns (resolved: set<nat>)
      ensures resolved == EpsilonClosure(graph.rules, state)
    {
      resolved := {state};
      var pending := {state};
      while pending != {}
        invariant pending <= resolved <= EpsilonClosure(graph.rules, state) && state in resolved
        invariant forall r | r in graph.rules && Followed(r) && r.from in resolved - pending :: r.to in resolved
        decreases |Targets(graph.rules) - resolved|, |pending|
      {
        var s :| s in pending;
        var targets := FollowedFrom(graph.rules, {s});
        ghost var before := resolved;
        pending := (pending - {s}) + (targets - resolved);
        resolved := resolved + targets;
        if resolved != before {
          GrowthShrinks(Targets(graph.rules), before, resolved);
        }
      }
      ClosureLeast(graph.rules, state, resolved);
    }

    /**
     * `match`: runs the graph over `input`, recording the trace in `steps`,
     * and tells whether the end state is active at the end.
     */
    method Match(input: string) returns (accepted: bool)
      modifies this
      ensures accepted == Accepts(graph, input)
      ensures steps == Trace(graph, input)
    {
      var states := ResolveEpsilons(graph.start);
      steps := if |states| > 0 then [Active(states)] else [];
      for i := 0 to |input|
        invariant states == Run(graph.rules, Initial(graph), input[..i])
        invariant steps == Trace(graph, input[..i])
      {
        var c := input[i];
        var rules := MatchingRules(states, c);
        var nextStates: set<nat> := {};
        for j := 0 to |rules|
          invariant nextStates == ClosureOfTargets(graph.rules, rules[..j])
          invariant steps == Trace(graph, input[..i])
        {
          ClosureOfTargetsNext(graph.rules, rules, j);
          var epsilonStates := ResolveEpsilons(rules[j].to);
          nextStates := nextStates + epsilonStates;
        }
        assert rules[..|rules|] == rules;
        StepUnion(graph.rules, states, c);
        TraceNext(graph, input, i, states, rules, nextStates);
        states := nextStates;
        if |rules| > 0 {
          steps := steps + [Fired(rules)];
        }
        if |states| > 0 {
          steps := steps + [Active(states)];
        }
      }
      assert input[..|input|] == input;
      accepted := graph.end in states;
    }
  }
}
