/**
 * What `Evaluator.match` of lib/evaluator.ts computes, stated as functions:
 * the epsilon closure of a state, the rules a character fires, one step of
 * the simulation, a run over a whole input, and acceptance.
 *
 * The epsilon closure is defined here as the least set that holds the state
 * and is closed under the followed epsilon rules, and `Saturate` computes it
 * by adding targets until nothing changes; `Engine` proves that the
 * evaluator's methods compute these functions.
 */
module Acceptance {
  import opened Automaton

  /** An epsilon rule `followEpsilons` follows: one that is not a self-loop. */
  predicate Followed(r: Rule) {
    r.kind == Epsilon && r.from != r.to
  }

  /** Following any followed epsilon rule from `S` stays in `S`. */
  predicate Closed(rules: seq<Rule>, S: set<nat>) {
    forall r | r in rules && Followed(r) && r.from in S :: r.to in S
  }

  /** Every rule of `rules` is also a rule of `bigger`. */
  predicate Included(rules: seq<Rule>, bigger: seq<Rule>) {
    forall r | r in rules :: r in bigger
  }

  function Targets(rules: seq<Rule>): set<nat> {
    set r | r in rules :: r.to
  }

  function Sources(rules: seq<Rule>): set<nat> {
    set r | r in rules :: r.from
  }

  function FollowedFrom(rules: seq<Rule>, S: set<nat>): (T: set<nat>)
    ensures T <= Targets(rules)
  {
    set r | r in rules && Followed(r) && r.from in S :: r.to
  }

  // ------------------------------------------------------ finite sets

  lemma SubsetNoLarger(a: set<nat>, b: set<nat>)
    requires a <= b
    ensures |a| <= |b|
  {
    if a != {} {
      var y :| y in a;
      SubsetNoLarger(a - {y}, b - {y});
    }
  }

  /** Adding elements of `u` to a set leaves fewer elements of `u` outside it. */
  lemma GrowthShrinks(u: set<nat>, a: set<nat>, b: set<nat>)
    requires a <= b && !(b <= a) && b - a <= u
    ensures |u - b| < |u - a|
  {
    var x :| x in b && x !in a;
    SubsetNoLarger(u - b, (u - a) - {x});
  }

  // ------------------------------------------------------ epsilon closure

  /**
   * The least superset of `S` closed under the followed epsilon rules, found
   * by adding the targets of the followed rules leaving the set until it
   * stops growing.
   */
  function Saturate(rules: seq<Rule>, S: set<nat>): (c: set<nat>)
    ensures S <= c && Closed(rules, c)
    decreases |Targets(rules) - S|
  {
    var next := S + FollowedFrom(rules, S);
    if next <= S then
      S
    else
      GrowthShrinks(Targets(rules), S, next);
      Saturate(rules, next)
  }

  lemma {:induction false} SaturateLeast(rules: seq<Rule>, S: set<nat>, T: set<nat>)
    requires S <= T && Closed(rules, T)
    ensures Saturate(rules, S) <= T
    decreases |Targets(rules) - S|
  {
    var next := S + FollowedFrom(rules, S);
    if !(next <= S) {
      GrowthShrinks(Targets(rules), S, next);
      SaturateLeast(rules, next, T);
    }
  }

  /** The states reachable from `s` along followed epsilon rules (the result of `followEpsilons(s)`). */
  function EpsilonClosure(rules: seq<Rule>, s: nat): (c: set<nat>)
    ensures s in c && Closed(rules, c)
  {
    Saturate(rules, {s})
  }

  /** The closure is the least closed set holding the state. */
  lemma ClosureLeast(rules: seq<Rule>, s: nat, T: set<nat>)
    requires s in T && Closed(rules, T)
    ensures EpsilonClosure(rules, s) <= T
  {
    SaturateLeast(rules, {s}, T);
  }

  /** A closed set is closed under every epsilon rule, self-loops included. */
  lemma ClosedUnderEpsilon(rules: seq<Rule>, S: set<nat>, r: Rule)
    requires Closed(rules, S) && r in rules && r.kind == Epsilon && r.from in S
    ensures r.to in S
  {
  }

  lemma ClosureTransitive(rules: seq<Rule>, x: nat, y: nat)
    requires y in EpsilonClosure(rules, x)
    ensures EpsilonClosure(rules, y) <= EpsilonClosure(rules, x)
  {
    ClosureLeast(rules, y, EpsilonClosure(rules, x));
  }

  /** More rules close over more states. */
  lemma ClosureGrows(rules: seq<Rule>, bigger: seq<Rule>, s: nat)
    requires Included(rules, bigger)
    ensures EpsilonClosure(rules, s) <= EpsilonClosure(bigger, s)
  {
    ClosureLeast(rules, s, EpsilonClosure(bigger, s));
  }

  // ------------------------------------------------------ one step

  /**
   * `matchingRules`: in their order, the rules leaving an active state whose
   * predicate accepts `c`.
   */
  function Matching(rules: seq<Rule>, S: set<nat>, c: char): (m: seq<Rule>)
    ensures |m| <= |rules|
    ensures forall r :: r in m <==> r in rules && r.from in S && Admits(r.kind, c)
    ensures forall r | r in m :: r.kind != Epsilon
  {
    if |rules| == 0 then
      []
    else
      var last := rules[|rules| - 1];
      assert rules == rules[..|rules| - 1] + [last];
      Matching(rules[..|rules| - 1], S, c) + (if last.from in S && Admits(last.kind, c) then [last] else [])
  }

  /** The union of the epsilon closures of the targets of `fired`. */
  function ClosureOfTargets(rules: seq<Rule>, fired: seq<Rule>): set<nat> {
    if |fired| == 0 then
      {}
    else
      ClosureOfTargets(rules, fired[..|fired| - 1]) + EpsilonClosure(rules, fired[|fired| - 1].to)
  }

  lemma {:induction false} ClosureOfTargetsMeaning(rules: seq<Rule>, fired: seq<Rule>, x: nat)
    ensures x in ClosureOfTargets(rules, fired) <==> exists r | r in fired :: x in EpsilonClosure(rules, r.to)
  {
    if |fired| > 0 {
      var last := fired[|fired| - 1];
      assert fired == fired[..|fired| - 1] + [last];
      ClosureOfTargetsMeaning(rules, fired[..|fired| - 1], x);
    }
  }

  lemma ClosureOfTargetsNext(rules: seq<Rule>, fired: seq<Rule>, j: nat)
    requires j < |fired|
    ensures ClosureOfTargets(rules, fired[..j + 1]) == ClosureOfTargets(rules, fired[..j]) + EpsilonClosure(rules, fired[j].to)
  {
    assert fired[..j + 1][..j] == fired[..j];
  }

  /** The active states after reading `c` from the active states `S`. */
  function Step(rules: seq<Rule>, S: set<nat>, c: char): (T: set<nat>)
    ensures Closed(rules, T)
  {
    var fired := Matching(rules, S, c);
    var T := ClosureOfTargets(rules, fired);
    assert Closed(rules, T) by {
      forall r | r in rules && Followed(r) && r.from in T
        ensures r.to in T
      {
        ClosureOfTargetsMeaning(rules, fired, r.from);
        var f :| f in fired && r.from in EpsilonClosure(rules, f.to);
        ClosureOfTargetsMeaning(rules, fired, r.to);
      }
    }
    T
  }

  /** A step gathers the closures of the targets of the fired rules. */
  lemma StepUnion(rules: seq<Rule>, S: set<nat>, c: char)
    ensures Step(rules, S, c) == ClosureOfTargets(rules, Matching(rules, S, c))
  {
  }

  /**
   * A state is active after reading `c` exactly when it is in the epsilon
   * closure of the target of a rule that leaves an active state and accepts `c`.
   */
  lemma StepMeaning(rules: seq<Rule>, S: set<nat>, c: char, x: nat)
    ensures x in Step(rules, S, c) <==>
      exists r | r in rules && r.from in S && Admits(r.kind, c) :: x in EpsilonClosure(rules, r.to)
  {
    ClosureOfTargetsMeaning(rules, Matching(rules, S, c), x);
  }

  /**
   * The active states after reading `w` from `S`: `S` itself for the empty
   * input, otherwise a set closed under epsilon rules.
   */
  function Run(rules: seq<Rule>, S: set<nat>, w: string): (A: set<nat>)
    ensures |w| == 0 ==> A == S
    ensures |w| > 0 ==> Closed(rules, A)
    decreases |w|
  {
    if |w| == 0 then S else Step(rules, Run(rules, S, w[..|w| - 1]), w[|w| - 1])
  }

  /** The active states before any character is read. */
  function Initial(g: Graph): set<nat> {
    EpsilonClosure(g.rules, g.start)
  }

  /** What `match` returns: whether the end state is active once the input is read. */
  function Accepts(g: Graph, w: string): (b: bool)
    ensures |w| == 0 ==> (b <==> g.end in EpsilonClosure(g.rules, g.start))
  {
    g.end in Run(g.rules, Initial(g), w)
  }

  // ------------------------------------------------------ properties of runs

  lemma RunLast(rules: seq<Rule>, S: set<nat>, w: string)
    requires |w| > 0
    ensures Run(rules, S, w) == Step(rules, Run(rules, S, w[..|w| - 1]), w[|w| - 1])
  {
  }

  /** Once no state is active, none ever is again. */
  lemma {:induction false} RunEmpty(rules: seq<Rule>, w: string)
    ensures Run(rules, {}, w) == {}
    decreases |w|
  {
    if |w| > 0 {
      RunEmpty(rules, w[..|w| - 1]);
    }
  }

  /** Reading `u` and then `v` is reading `u + v`. */
  lemma {:induction false} RunAppend(rules: seq<Rule>, S: set<nat>, u: string, v: string)
    ensures Run(rules, S, u + v) == Run(rules, Run(rules, S, u), v)
    decreases |v|
  {
    if |v| == 0 {
      assert u + v == u;
    } else {
      assert (u + v)[..|u + v| - 1] == u + v[..|v| - 1];
      RunAppend(rules, S, u, v[..|v| - 1]);
    }
  }

  lemma RunClosed(rules: seq<Rule>, S: set<nat>, w: string)
    requires Closed(rules, S)
    ensures Closed(rules, Run(rules, S, w))
  {
  }

  /** More rules and more active states give more active states. */
  lemma {:induction false} RunGrows(rules: seq<Rule>, bigger: seq<Rule>, S: set<nat>, T: set<nat>, w: string)
    requires Included(rules, bigger) && S <= T
    ensures Run(rules, S, w) <= Run(bigger, T, w)
    decreases |w|
  {
    if |w| > 0 {
      var before, after := Run(rules, S, w[..|w| - 1]), Run(bigger, T, w[..|w| - 1]);
      var c := w[|w| - 1];
      RunGrows(rules, bigger, S, T, w[..|w| - 1]);
      var small, large := Step(rules, before, c), Step(bigger, after, c);
      forall x | x in small
        ensures x in large
      {
        StepMeaning(rules, before, c, x);
        var r :| r in rules && r.from in before && Admits(r.kind, c) && x in EpsilonClosure(rules, r.to);
        ClosureGrows(rules, bigger, r.to);
        StepMeaning(bigger, after, c, x);
      }
    }
  }

  /**
   * A graph whose rules are part of `bigger`: when its start is in a closed
   * set of active states and it accepts `w`, its end is active after `w`.
   */
  lemma Embed(g: Graph, bigger: seq<Rule>, S: set<nat>, w: string)
    requires Included(g.rules, bigger) && g.start in S && Closed(bigger, S)
    requires Accepts(g, w)
    ensures g.end in Run(bigger, S, w)
  {
    ClosureGrows(g.rules, bigger, g.start);
    ClosureLeast(bigger, g.start, S);
    RunGrows(g.rules, bigger, Initial(g), S, w);
  }

  /** A closed set holding the start bounds the initial states. */
  lemma InitialWithin(g: Graph, S: set<nat>)
    requires g.start in S && Closed(g.rules, S)
    ensures Initial(g) <= S && Run(g.rules, Initial(g), "") <= S
  {
    ClosureLeast(g.rules, g.start, S);
  }

  /**
   * `S` is closed, stated rule by rule: a form that is cheap to check on a
   * concrete list of rules.
   */
  predicate Shut(rules: seq<Rule>, S: set<nat>) {
    forall j | 0 <= j < |rules| :: rules[j].kind == Epsilon && rules[j].from in S ==> rules[j].to in S
  }

  lemma ShutIsClosed(rules: seq<Rule>, S: set<nat>)
    requires Shut(rules, S)
    ensures Closed(rules, S)
  {
    forall r | r in rules && Followed(r) && r.from in S
      ensures r.to in S
    {
      var j :| 0 <= j < |rules| && rules[j] == r;
    }
  }

  /** `T` holds the target of every rule leaving `S` that `c` fires. */
  predicate Bounds(rules: seq<Rule>, S: set<nat>, c: char, T: set<nat>) {
    forall j | 0 <= j < |rules| :: rules[j].from in S && Admits(rules[j].kind, c) ==> rules[j].to in T
  }

  /**
   * Bounds on the active states carry over a step: this is how a rejection
   * is shown, by a bound after the whole input that leaves out the end state.
   */
  lemma RunWithin(g: Graph, u: string, c: char, S: set<nat>, T: set<nat>)
    requires Run(g.rules, Initial(g), u) <= S && Bounds(g.rules, S, c, T) && Shut(g.rules, T)
    ensures Run(g.rules, Initial(g), u + [c]) <= T
  {
    var before := Run(g.rules, Initial(g), u);
    assert (u + [c])[..|u|] == u;
    RunLast(g.rules, Initial(g), u + [c]);
    var after := Step(g.rules, before, c);
    ShutIsClosed(g.rules, T);
    forall x | x in after
      ensures x in T
    {
      StepMeaning(g.rules, before, c, x);
      var r :| r in g.rules && r.from in before && Admits(r.kind, c) && x in EpsilonClosure(g.rules, r.to);
      var j :| 0 <= j < |g.rules| && g.rules[j] == r;
      ClosureLeast(g.rules, r.to, T);
    }
  }

  /** The bound after character `i` of `w` is closed and bounds the step from the bound before it. */
  predicate Bounded(rules: seq<Rule>, w: string, sets: seq<set<nat>>, i: nat)
    requires i < |w| && |sets| == |w| + 1
  {
    Bounds(rules, sets[i], w[i], sets[i + 1]) && Shut(rules, sets[i + 1])
  }

  /**
   * A rejection: sets bounding the active states before and after every
   * character, the last of which leaves out the end state.
   */
  lemma RejectedBy(g: Graph, w: string, sets: seq<set<nat>>)
    requires |sets| == |w| + 1 && g.start in sets[0] && Shut(g.rules, sets[0]) && g.end !in sets[|w|]
    requires forall i | 0 <= i < |w| :: Bounded(g.rules, w, sets, i)
    ensures !Accepts(g, w)
  {
    RunBounded(g, w, sets, |w|);
    assert w[..|w|] == w;
  }

  lemma {:induction false} RunBounded(g: Graph, w: string, sets: seq<set<nat>>, i: nat)
    requires |sets| == |w| + 1 && g.start in sets[0] && Shut(g.rules, sets[0])
    requires forall i | 0 <= i < |w| :: Bounded(g.rules, w, sets, i)
    requires i <= |w|
    ensures Run(g.rules, Initial(g), w[..i]) <= sets[i]
  {
    if i == 0 {
      ShutIsClosed(g.rules, sets[0]);
      InitialWithin(g, sets[0]);
      assert w[..0] == "";
    } else {
      RunBounded(g, w, sets, i - 1);
      assert Bounded(g.rules, w, sets, i - 1);
      RunWithin(g, w[..i - 1], w[i - 1], sets[i - 1], sets[i]);
      PrefixExtends(w, i);
    }
  }

  lemma PrefixExtends(w: string, i: nat)
    requires 0 < i <= |w|
    ensures w[..i - 1] + [w[i - 1]] == w[..i]
  {
  }
}
