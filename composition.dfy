/**
 * Exactly what `concat` and `either` of lib/evaluator.ts accept.
 *
 * The two graphs sit in disjoint ranges of states, and the joining epsilon
 * rules only lead from the left range into the right one, so a run of the
 * combined graph is a run of the left graph, possibly continued by a run of
 * the right graph once a joining rule is crossed.
 *
 * `concat(L, R)` accepts exactly the strings `u + v` with `u` accepted by L
 * and `v` by R.  `either(L, R)` accepts exactly what L or R accepts, provided
 * no rule enters the start state of either graph and no rule leaves its end
 * state (a `Fragment`); otherwise the rule `L.start -> R.start` lets a run
 * that comes back to L's start continue in R.  Every builder keeps that shape.
 */
module Composition {
  import opened Automaton
  import opened Acceptance
  import opened Constructions

  // ------------------------------------------------------------- fragments

  /** No rule enters the start state and no rule leaves the end state, epsilon self-loops apart. */
  predicate Fragment(g: Graph) {
    forall r | r in g.rules :: (r.to == g.start || r.from == g.end) ==> r.kind == Epsilon && r.from == r.to
  }

  /** The leaf graphs are fragments. */
  lemma LeafFragments(c: char, count: nat)
    ensures Fragment(SingleCharacter(c, count).0) && Fragment(AnyCharacter(count).0)
    ensures Fragment(StartAnchor(count).0) && Fragment(EndAnchor(count).0)
  {
  }

  /** `zeroOrOne` makes a fragment of any graph built before it: its start and end are new. */
  lemma ZeroOrOneFragment(subject: Graph, lo: nat, count: nat)
    requires Within(subject, lo, count)
    ensures Fragment(ZeroOrOne(subject, count).0)
  {
    var g := ZeroOrOne(subject, count).0;
    assert g.rules == subject.rules + g.rules[|subject.rules|..];
  }

  /** `zeroOrMore` makes a fragment of any graph built before it: its start and end are new. */
  lemma ZeroOrMoreFragment(subject: Graph, lo: nat, count: nat)
    requires Within(subject, lo, count)
    ensures Fragment(ZeroOrMore(subject, count).0)
  {
    var g := ZeroOrMore(subject, count).0;
    assert g.rules == subject.rules + g.rules[|subject.rules|..];
  }

  /** `concat` of two fragments over disjoint ranges is a fragment. */
  lemma ConcatFragment(left: Graph, right: Graph, lo: nat, mid: nat, hi: nat)
    requires Within(left, lo, mid) && Within(right, mid, hi) && Fragment(left) && Fragment(right)
    ensures Fragment(Concat(left, right))
  {
    var g := Concat(left, right);
    assert g.rules == left.rules + right.rules + [Rule(left.end, right.start, Epsilon)];
  }

  /** `either` of two fragments over disjoint ranges is a fragment. */
  lemma EitherFragment(left: Graph, right: Graph, lo: nat, mid: nat, hi: nat)
    requires Within(left, lo, mid) && Within(right, mid, hi) && Fragment(left) && Fragment(right)
    ensures Fragment(Either(left, right))
  {
    var g := Either(left, right);
    assert g.rules == left.rules + right.rules + [Rule(left.start, right.start, Epsilon), Rule(left.end, right.end, Epsilon)];
  }

  /** Nothing but the end state is reachable from the end of a fragment. */
  lemma EndClosure(g: Graph)
    requires Fragment(g)
    ensures EpsilonClosure(g.rules, g.end) == {g.end}
  {
    ClosureLeast(g.rules, g.end, {g.end});
  }

  /** The start of a fragment is reachable only from itself. */
  lemma StartUnreached(g: Graph, t: nat)
    requires Fragment(g) && t != g.start
    ensures g.start !in EpsilonClosure(g.rules, t)
  {
    var C := EpsilonClosure(g.rules, t);
    ClosureLeast(g.rules, t, C - {g.start});
  }

  // ----------------------------------------------------- joined rule lists

  /** Every rule of `rules` leaves and enters a state in `[lo, hi)`. */
  predicate RulesIn(rules: seq<Rule>, lo: nat, hi: nat) {
    forall r | r in rules :: lo <= r.from < hi && lo <= r.to < hi
  }

  /** The joining rules are epsilon rules from `[lo, mid)` into `[mid, hi)`. */
  predicate Bridges(bridges: seq<Rule>, lo: nat, mid: nat, hi: nat) {
    forall b | b in bridges :: b.kind == Epsilon && lo <= b.from < mid && mid <= b.to < hi
  }

  /** The states reached in `right` by crossing a joining rule from `S`. */
  ghost function Across(right: seq<Rule>, bridges: seq<Rule>, S: set<nat>): set<nat> {
    set b, x | b in bridges && b.from in S && x in EpsilonClosure(right, b.to) :: x
  }

  lemma WithinRules(g: Graph, lo: nat, hi: nat)
    requires Within(g, lo, hi)
    ensures RulesIn(g.rules, lo, hi)
  {
  }

  /** A consuming rule of the joined rules belongs to the left part or to the right part. */
  lemma ConsumingPart(left: seq<Rule>, right: seq<Rule>, bridges: seq<Rule>, lo: nat, mid: nat, hi: nat, r: Rule, c: char)
    requires Bridges(bridges, lo, mid, hi)
    requires r in left + right + bridges && Admits(r.kind, c)
    ensures r in left || r in right
  {
  }

  lemma OneBridge(from: nat, to: nat, lo: nat, mid: nat, hi: nat)
    requires lo <= from < mid && mid <= to < hi
    ensures Bridges([Rule(from, to, Epsilon)], lo, mid, hi)
  {
  }

  lemma TwoBridges(from1: nat, to1: nat, from2: nat, to2: nat, lo: nat, mid: nat, hi: nat)
    requires lo <= from1 < mid && mid <= to1 < hi && lo <= from2 < mid && mid <= to2 < hi
    ensures Bridges([Rule(from1, to1, Epsilon), Rule(from2, to2, Epsilon)], lo, mid, hi)
  {
  }

  /** A closure never leaves the range its rules stay in. */
  lemma ClosureInRange(rules: seq<Rule>, s: nat, lo: nat, hi: nat)
    requires RulesIn(rules, lo, hi) && lo <= s < hi
    ensures forall x | x in EpsilonClosure(rules, s) :: lo <= x < hi
  {
    var C := EpsilonClosure(rules, s);
    var T := set x | x in C && lo <= x < hi;
    ClosureLeast(rules, s, T);
  }

  lemma AcrossInRange(right: seq<Rule>, bridges: seq<Rule>, S: set<nat>, lo: nat, mid: nat, hi: nat)
    requires RulesIn(right, mid, hi) && Bridges(bridges, lo, mid, hi)
    ensures forall x | x in Across(right, bridges, S) :: mid <= x < hi
  {
    forall x | x in Across(right, bridges, S)
      ensures mid <= x < hi
    {
      var b :| b in bridges && b.from in S && x in EpsilonClosure(right, b.to);
      ClosureInRange(right, b.to, mid, hi);
    }
  }

  /**
   * From a left state the joined rules reach the left closure, and the right
   * closures of the joining rules that leave it.
   */
  lemma ClosureLeft(left: seq<Rule>, right: seq<Rule>, bridges: seq<Rule>, lo: nat, mid: nat, hi: nat, t: nat)
    requires RulesIn(left, lo, mid) && RulesIn(right, mid, hi) && Bridges(bridges, lo, mid, hi)
    requires lo <= t < mid
    ensures EpsilonClosure(left + right + bridges, t) <=
      EpsilonClosure(left, t) + Across(right, bridges, EpsilonClosure(left, t))
  {
    var all := left + right + bridges;
    var CL := EpsilonClosure(left, t);
    var T := CL + Across(right, bridges, CL);
    ClosureInRange(left, t, lo, mid);
    AcrossInRange(right, bridges, CL, lo, mid, hi);
    forall r | r in all && Followed(r) && r.from in T
      ensures r.to in T
    {
      if r in left {
        assert r.from in CL;
      } else if r in right {
        var b :| b in bridges && b.from in CL && r.from in EpsilonClosure(right, b.to);
        assert r.to in EpsilonClosure(right, b.to);
      } else {
        assert r in bridges && r.from in CL;
        assert r.to in EpsilonClosure(right, r.to);
      }
    }
    ClosureLeast(all, t, T);
  }

  /** From a right state the joined rules reach only the right closure. */
  lemma ClosureRight(left: seq<Rule>, right: seq<Rule>, bridges: seq<Rule>, lo: nat, mid: nat, hi: nat, t: nat)
    requires RulesIn(left, lo, mid) && RulesIn(right, mid, hi) && Bridges(bridges, lo, mid, hi)
    requires mid <= t < hi
    ensures EpsilonClosure(left + right + bridges, t) <= EpsilonClosure(right, t)
  {
    ClosureInRange(right, t, mid, hi);
    ClosureLeast(left + right + bridges, t, EpsilonClosure(right, t));
  }

  /** A state reached by one consuming rule and its closure is in the step. */
  lemma Stepped(rules: seq<Rule>, S: set<nat>, c: char, r: Rule, x: nat)
    requires r in rules && r.from in S && Admits(r.kind, c) && x in EpsilonClosure(rules, r.to)
    ensures x in Step(rules, S, c)
  {
    StepMeaning(rules, S, c, x);
  }

  /** The last character of a non-empty string, read after the rest. */
  lemma RunStep(rules: seq<Rule>, S: set<nat>, u: string, c: char)
    ensures Run(rules, S, u + [c]) == Step(rules, Run(rules, S, u), c)
  {
    assert (u + [c])[..|u|] == u;
  }

  /** A consuming rule of the right part steps within the right part. */
  lemma RightStep(left: seq<Rule>, right: seq<Rule>, bridges: seq<Rule>, lo: nat, mid: nat, hi: nat,
                  S: set<nat>, c: char, r: Rule, x: nat)
    requires RulesIn(left, lo, mid) && RulesIn(right, mid, hi) && Bridges(bridges, lo, mid, hi)
    requires r in right && r.from in S && Admits(r.kind, c) && x in EpsilonClosure(left + right + bridges, r.to)
    ensures mid <= x < hi && x in Step(right, S, c)
  {
    ClosureRight(left, right, bridges, lo, mid, hi, r.to);
    ClosureInRange(right, r.to, mid, hi);
    Stepped(right, S, c, r, x);
  }

  /**
   * A consuming rule of the left part steps within the left part, or also
   * crosses a joining rule whose source the left step reaches.
   */
  lemma LeftStep(left: seq<Rule>, right: seq<Rule>, bridges: seq<Rule>, lo: nat, mid: nat, hi: nat,
                 S: set<nat>, c: char, r: Rule, x: nat)
    requires RulesIn(left, lo, mid) && RulesIn(right, mid, hi) && Bridges(bridges, lo, mid, hi)
    requires r in left && r.from in S && Admits(r.kind, c) && x in EpsilonClosure(left + right + bridges, r.to)
    ensures (lo <= x < mid && x in Step(left, S, c))
      || (mid <= x < hi && exists b | b in bridges && b.from in EpsilonClosure(left, r.to) ::
            b.from in Step(left, S, c) && x in EpsilonClosure(right, b.to))
  {
    var CL := EpsilonClosure(left, r.to);
    ClosureLeft(left, right, bridges, lo, mid, hi, r.to);
    ClosureInRange(left, r.to, lo, mid);
    AcrossInRange(right, bridges, CL, lo, mid, hi);
    if x in CL {
      Stepped(left, S, c, r, x);
    } else {
      var b :| b in bridges && b.from in CL && x in EpsilonClosure(right, b.to);
      Stepped(left, S, c, r, b.from);
    }
  }

  /** Before any character: the left closure of the start, and the right closures across joining rules. */
  lemma StartSplit(left: seq<Rule>, right: seq<Rule>, bridges: seq<Rule>, lo: nat, mid: nat, hi: nat, t: nat, x: nat)
    requires RulesIn(left, lo, mid) && RulesIn(right, mid, hi) && Bridges(bridges, lo, mid, hi)
    requires lo <= t < mid && x in EpsilonClosure(left + right + bridges, t)
    ensures (lo <= x < mid && x in EpsilonClosure(left, t))
      || (mid <= x < hi && exists b | b in bridges :: b.from in EpsilonClosure(left, t) && x in EpsilonClosure(right, b.to))
  {
    var CL := EpsilonClosure(left, t);
    ClosureLeft(left, right, bridges, lo, mid, hi, t);
    ClosureInRange(left, t, lo, mid);
    AcrossInRange(right, bridges, CL, lo, mid, hi);
  }

  /** A non-empty string is its prefix followed by its last character. */
  lemma Snoc(w: string)
    requires |w| > 0
    ensures w == w[..|w| - 1] + [w[|w| - 1]]
  {
  }

  /** Splitting `p + [c]` at a point of `p`. */
  lemma SplitBefore(p: string, c: char, n: nat)
    requires n <= |p|
    ensures (p + [c])[..n] == p[..n] && (p + [c])[n..] == p[n..] + [c]
  {
  }

  /** A string is its prefix up to a point followed by the rest. */
  lemma SplitRejoins(w: string, n: nat)
    requires n <= |w|
    ensures w[..n] + w[n..] == w
  {
  }

  /** Splitting a string at its end. */
  lemma SplitAtEnd(w: string)
    ensures w[..|w|] == w && w[|w|..] == []
  {
  }

  // ---------------------------------------------------------------- concat

  /** `x` is active in `right` after a prefix of `w` that `left` accepts and the rest of `w`. */
  ghost predicate LeftThenRight(left: Graph, right: Graph, w: string, x: nat) {
    exists n | 0 <= n <= |w| :: left.end in Run(left.rules, Initial(left), w[..n]) && x in Run(right.rules, Initial(right), w[n..])
  }

  /** The active states of the rules of `concat(L, R)`: L's own, and R's after a prefix L accepts. */
  lemma {:induction false} JoinedRun(left: Graph, right: Graph, all: seq<Rule>, lo: nat, mid: nat, hi: nat, w: string, x: nat)
    requires RulesIn(left.rules, lo, mid) && RulesIn(right.rules, mid, hi)
    requires lo <= left.start < mid && lo <= left.end < mid && mid <= right.start < hi
    requires all == left.rules + right.rules + [Rule(left.end, right.start, Epsilon)]
    requires x in Run(all, EpsilonClosure(all, left.start), w)
    ensures (lo <= x < mid && x in Run(left.rules, Initial(left), w))
      || (mid <= x < hi && LeftThenRight(left, right, w, x))
    decreases |w|
  {
    var bridges := [Rule(left.end, right.start, Epsilon)];
    OneBridge(left.end, right.start, lo, mid, hi);
    if |w| == 0 {
      StartSplit(left.rules, right.rules, bridges, lo, mid, hi, left.start, x);
      if !(lo <= x < mid) {
        assert left.end in Run(left.rules, Initial(left), w[..0]) && x in Run(right.rules, Initial(right), w[0..]);
      }
    } else {
      var p, c := w[..|w| - 1], w[|w| - 1];
      Snoc(w);
      var S := Run(all, EpsilonClosure(all, left.start), p);
      RunStep(all, EpsilonClosure(all, left.start), p, c);
      StepMeaning(all, S, c, x);
      var r :| r in all && r.from in S && Admits(r.kind, c) && x in EpsilonClosure(all, r.to);
      JoinedRun(left, right, all, lo, mid, hi, p, r.from);
      ConsumingPart(left.rules, right.rules, bridges, lo, mid, hi, r, c);
      if r in left.rules {
        RunStep(left.rules, Initial(left), p, c);
        LeftStep(left.rules, right.rules, bridges, lo, mid, hi, Run(left.rules, Initial(left), p), c, r, x);
        if !(lo <= x < mid) {
          SplitAtEnd(w);
        }
      } else {
        var n :| 0 <= n <= |p| && left.end in Run(left.rules, Initial(left), p[..n])
          && r.from in Run(right.rules, Initial(right), p[n..]);
        RightStep(left.rules, right.rules, bridges, lo, mid, hi, Run(right.rules, Initial(right), p[n..]), c, r, x);
        RunStep(right.rules, Initial(right), p[n..], c);
        SplitBefore(p, c, n);
      }
    }
  }

  /** The active states of `concat(L, R)`: L's own, and R's after a prefix L accepts. */
  lemma ConcatRun(left: Graph, right: Graph, lo: nat, mid: nat, hi: nat, w: string, x: nat)
    requires Within(left, lo, mid) && Within(right, mid, hi)
    requires x in Run(Concat(left, right).rules, Initial(Concat(left, right)), w)
    ensures (lo <= x < mid && x in Run(left.rules, Initial(left), w))
      || (mid <= x < hi && LeftThenRight(left, right, w, x))
  {
    var g := Concat(left, right);
    assert g.rules == left.rules + right.rules + [Rule(left.end, right.start, Epsilon)];
    WithinRules(left, lo, mid);
    WithinRules(right, mid, hi);
    JoinedRun(left, right, g.rules, lo, mid, hi, w, x);
  }

  /** `concat(L, R)` accepts exactly the strings made of one L accepts followed by one R accepts. */
  lemma ConcatSplits(left: Graph, right: Graph, lo: nat, mid: nat, hi: nat, w: string)
    requires Within(left, lo, mid) && Within(right, mid, hi)
    ensures Accepts(Concat(left, right), w) <==>
      exists n | 0 <= n <= |w| :: Accepts(left, w[..n]) && Accepts(right, w[n..])
  {
    if Accepts(Concat(left, right), w) {
      ConcatRun(left, right, lo, mid, hi, w, right.end);
    }
    if n :| 0 <= n <= |w| && Accepts(left, w[..n]) && Accepts(right, w[n..]) {
      ConcatLanguage(left, right, lo, mid, hi, w[..n], w[n..]);
      SplitRejoins(w, n);
    }
  }

  // ---------------------------------------------------------------- either

  /**
   * A consuming rule of L inside `either(L, R)`: it stays in L, or reaches
   * L's end and crosses to R's end; it never comes back to L's start.
   */
  lemma ForkLeftStep(left: Graph, right: Graph, lo: nat, mid: nat, hi: nat, S: set<nat>, c: char, r: Rule, x: nat)
    requires RulesIn(left.rules, lo, mid) && RulesIn(right.rules, mid, hi) && Fragment(left) && Fragment(right)
    requires lo <= left.start < mid && lo <= left.end < mid && mid <= right.start < hi && mid <= right.end < hi
    requires r in left.rules && r.from in S && Admits(r.kind, c)
    requires x in EpsilonClosure(left.rules + right.rules + [Rule(left.start, right.start, Epsilon), Rule(left.end, right.end, Epsilon)], r.to)
    ensures (lo <= x < mid && x in Step(left.rules, S, c))
      || (x == right.end && left.end in Step(left.rules, S, c))
  {
    var bridges := [Rule(left.start, right.start, Epsilon), Rule(left.end, right.end, Epsilon)];
    TwoBridges(left.start, right.start, left.end, right.end, lo, mid, hi);
    StartUnreached(left, r.to);
    EndClosure(right);
    LeftStep(left.rules, right.rules, bridges, lo, mid, hi, S, c, r, x);
    if !(lo <= x < mid) {
      var b :| b in bridges && b.from in EpsilonClosure(left.rules, r.to) && b.from in Step(left.rules, S, c)
        && x in EpsilonClosure(right.rules, b.to);
      assert b == bridges[1];
    }
  }

  /**
   * The active states of the rules of `either(L, R)` for fragments: L's own,
   * R's own, and R's end whenever L's end is active.
   */
  lemma {:induction false} ForkedRun(left: Graph, right: Graph, all: seq<Rule>, lo: nat, mid: nat, hi: nat, w: string, x: nat)
    requires RulesIn(left.rules, lo, mid) && RulesIn(right.rules, mid, hi) && Fragment(left) && Fragment(right)
    requires lo <= left.start < mid && lo <= left.end < mid && mid <= right.start < hi && mid <= right.end < hi
    requires all == left.rules + right.rules + [Rule(left.start, right.start, Epsilon), Rule(left.end, right.end, Epsilon)]
    requires x in Run(all, EpsilonClosure(all, left.start), w)
    ensures (lo <= x < mid && x in Run(left.rules, Initial(left), w))
      || (mid <= x < hi && (x in Run(right.rules, Initial(right), w)
                             || (x == right.end && left.end in Run(left.rules, Initial(left), w))))
    decreases |w|
  {
    var bridges := [Rule(left.start, right.start, Epsilon), Rule(left.end, right.end, Epsilon)];
    TwoBridges(left.start, right.start, left.end, right.end, lo, mid, hi);
    EndClosure(right);
    if |w| == 0 {
      StartSplit(left.rules, right.rules, bridges, lo, mid, hi, left.start, x);
    } else {
      var p, c := w[..|w| - 1], w[|w| - 1];
      Snoc(w);
      var S := Run(all, EpsilonClosure(all, left.start), p);
      RunStep(all, EpsilonClosure(all, left.start), p, c);
      StepMeaning(all, S, c, x);
      var r :| r in all && r.from in S && Admits(r.kind, c) && x in EpsilonClosure(all, r.to);
      ForkedRun(left, right, all, lo, mid, hi, p, r.from);
      ConsumingPart(left.rules, right.rules, bridges, lo, mid, hi, r, c);
      if r in left.rules {
        RunStep(left.rules, Initial(left), p, c);
        ForkLeftStep(left, right, lo, mid, hi, Run(left.rules, Initial(left), p), c, r, x);
      } else {
        RightStep(left.rules, right.rules, bridges, lo, mid, hi, Run(right.rules, Initial(right), p), c, r, x);
        RunStep(right.rules, Initial(right), p, c);
      }
    }
  }

  /**
   * The active states of `either(L, R)` for fragments: L's own, R's own, and
   * R's end whenever L's end is active.
   */
  lemma EitherRun(left: Graph, right: Graph, lo: nat, mid: nat, hi: nat, w: string, x: nat)
    requires Within(left, lo, mid) && Within(right, mid, hi) && Fragment(left) && Fragment(right)
    requires x in Run(Either(left, right).rules, Initial(Either(left, right)), w)
    ensures (lo <= x < mid && x in Run(left.rules, Initial(left), w))
      || (mid <= x < hi && (x in Run(right.rules, Initial(right), w)
                             || (x == right.end && left.end in Run(left.rules, Initial(left), w))))
  {
    var g := Either(left, right);
    assert g.rules == left.rules + right.rules + [Rule(left.start, right.start, Epsilon), Rule(left.end, right.end, Epsilon)];
    WithinRules(left, lo, mid);
    WithinRules(right, mid, hi);
    ForkedRun(left, right, g.rules, lo, mid, hi, w, x);
  }

  /** `either(L, R)` of two fragments accepts exactly what L accepts and what R accepts. */
  lemma EitherUnion(left: Graph, right: Graph, lo: nat, mid: nat, hi: nat, w: string)
    requires Within(left, lo, mid) && Within(right, mid, hi) && Fragment(left) && Fragment(right)
    ensures Accepts(Either(left, right), w) <==> Accepts(left, w) || Accepts(right, w)
  {
    if Accepts(Either(left, right), w) {
      EitherRun(left, right, lo, mid, hi, w, right.end);
    }
    if Accepts(left, w) || Accepts(right, w) {
      EitherLanguage(left, right, lo, mid, hi, w);
    }
  }
}
