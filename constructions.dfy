/**
 * What the graphs built by the combinators of lib/evaluator.ts accept.
 *
 * The leaf graphs accept exactly their strings.  For the combinators the
 * lemmas show that the combined graph accepts every string it is meant to
 * (the empty string or the subject's strings for `zeroOrOne`, any
 * concatenation of the subject's strings for `zeroOrMore`, the left string
 * followed by the right one for `concat`, either side's strings for
 * `either`), given that the subgraphs were built over disjoint counter ranges.
 */
module Constructions {
  import opened Automaton
  import opened Acceptance

  // ------------------------------------------------------------ leaf graphs

  /** The active states of a graph made of one consuming rule from start to end. */
  lemma {:induction false} OneRuleRun(g: Graph, k: Kind, w: string)
    requires g.rules == [Rule(g.start, g.end, k)] && k != Epsilon && g.start != g.end
    ensures Run(g.rules, Initial(g), w) ==
      if |w| == 0 then {g.start} else if |w| == 1 && Admits(k, w[0]) then {g.end} else {}
    decreases |w|
  {
    if |w| == 0 {
      OneRuleInitial(g, k);
    } else {
      var n := |w| - 1;
      var before := Run(g.rules, Initial(g), w[..n]);
      OneRuleRun(g, k, w[..n]);
      OneRuleStep(g.rules, g.start, g.end, k, before, w[n]);
      RunLast(g.rules, Initial(g), w);
      if n == 0 {
        assert before == {g.start};
      } else {
        assert g.start !in before;
      }
    }
  }

  /** Without epsilon rules only the start is initially active. */
  lemma OneRuleInitial(g: Graph, k: Kind)
    requires g.rules == [Rule(g.start, g.end, k)] && k != Epsilon
    ensures Initial(g) == {g.start}
  {
    InitialWithin(g, {g.start});
  }

  /** One step of a graph made of one consuming rule from `start` to `end`. */
  lemma OneRuleStep(rules: seq<Rule>, start: nat, end: nat, k: Kind, before: set<nat>, c: char)
    requires rules == [Rule(start, end, k)] && k != Epsilon
    ensures Step(rules, before, c) == if start in before && Admits(k, c) then {end} else {}
  {
    var after := Step(rules, before, c);
    OneRuleClosure(rules, start, end, k);
    forall x | x in after
      ensures x == end && start in before && Admits(k, c)
    {
      StepMeaning(rules, before, c, x);
    }
    if start in before && Admits(k, c) {
      StepMeaning(rules, before, c, end);
    }
  }

  /** The end of a graph made of one consuming rule reaches no other state. */
  lemma OneRuleClosure(rules: seq<Rule>, start: nat, end: nat, k: Kind)
    requires rules == [Rule(start, end, k)] && k != Epsilon
    ensures EpsilonClosure(rules, end) == {end}
  {
    ClosureLeast(rules, end, {end});
  }

  /** `singleCharacter(c)` accepts exactly the one-character string `c`. */
  lemma SingleCharacterLanguage(c: char, count: nat, w: string)
    ensures Accepts(SingleCharacter(c, count).0, w) <==> w == [c]
  {
    var g := SingleCharacter(c, count).0;
    OneRuleRun(g, Equal(c), w);
    if w == [c] {
      assert g.end in Run(g.rules, Initial(g), w);
    }
  }

  /** `anyCharacter` accepts exactly the one-character strings. */
  lemma AnyCharacterLanguage(count: nat, w: string)
    ensures Accepts(AnyCharacter(count).0, w) <==> |w| == 1
  {
    var g := AnyCharacter(count).0;
    OneRuleRun(g, Any, w);
  }

  /** The active states of an anchor graph: its state, until a character is read. */
  lemma {:induction false} AnchorRun(g: Graph, w: string)
    requires g.start == g.end && g.rules == [Rule(g.start, g.start, Epsilon)]
    ensures Run(g.rules, Initial(g), w) == if |w| == 0 then {g.start} else {}
    decreases |w|
  {
    InitialWithin(g, {g.start});
    if |w| > 0 {
      var before := Run(g.rules, Initial(g), w[..|w| - 1]);
      AnchorRun(g, w[..|w| - 1]);
      var after := Step(g.rules, before, w[|w| - 1]);
      forall x | x in after
        ensures false
      {
        StepMeaning(g.rules, before, w[|w| - 1], x);
      }
    }
  }

  /** The `^` anchor accepts exactly the empty string: it is an epsilon self-loop, not a position test. */
  lemma StartAnchorLanguage(count: nat, w: string)
    ensures Accepts(StartAnchor(count).0, w) <==> |w| == 0
  {
    AnchorRun(StartAnchor(count).0, w);
  }

  /** The `$` anchor accepts exactly the empty string as well. */
  lemma EndAnchorLanguage(count: nat, w: string)
    ensures Accepts(EndAnchor(count).0, w) <==> |w| == 0
  {
    AnchorRun(EndAnchor(count).0, w);
  }

  // ------------------------------------------------------------ combinators

  /** A closed set holding the source of an epsilon rule holds its target. */
  lemma Follow(rules: seq<Rule>, S: set<nat>, from: nat, to: nat)
    requires Closed(rules, S) && Rule(from, to, Epsilon) in rules && from in S
    ensures to in S
  {
    ClosedUnderEpsilon(rules, S, Rule(from, to, Epsilon));
  }

  /** A closed set after reading `w`: the initial states are closed and so is every step. */
  lemma RunOfInitialClosed(g: Graph, w: string)
    ensures Closed(g.rules, Run(g.rules, Initial(g), w))
  {
    RunClosed(g.rules, Initial(g), w);
  }

  /** `zeroOrOne(X)` accepts the empty string and every string `X` accepts. */
  lemma ZeroOrOneLanguage(subject: Graph, lo: nat, count: nat, w: string)
    requires Within(subject, lo, count)
    requires |w| == 0 || Accepts(subject, w)
    ensures Accepts(ZeroOrOne(subject, count).0, w)
  {
    var g := ZeroOrOne(subject, count).0;
    var S := Initial(g);
    assert g.rules[|subject.rules|..][1] == Rule(g.start, subject.start, Epsilon);
    assert Included(subject.rules, g.rules);
    Follow(g.rules, S, g.start, subject.start);
    if |w| == 0 {
      assert g.rules[|subject.rules|..][0] == Rule(g.start, g.end, Epsilon);
      Follow(g.rules, S, g.start, g.end);
    } else {
      Embed(subject, g.rules, S, w);
      RunOfInitialClosed(g, w);
      assert g.rules[|subject.rules|..][2] == Rule(subject.end, g.end, Epsilon);
      Follow(g.rules, Run(g.rules, S, w), subject.end, g.end);
    }
  }

  /** The concatenation of a sequence of strings. */
  function Flatten(pieces: seq<string>): (w: string)
    ensures |pieces| == 0 ==> w == []
    decreases |pieces|
  {
    if |pieces| == 0 then [] else Flatten(pieces[..|pieces| - 1]) + pieces[|pieces| - 1]
  }

  /** `zeroOrMore(X)` accepts every concatenation of strings `X` accepts, none included. */
  lemma ZeroOrMoreLanguage(subject: Graph, lo: nat, count: nat, pieces: seq<string>)
    requires Within(subject, lo, count)
    requires forall i | 0 <= i < |pieces| :: Accepts(subject, pieces[i])
    ensures Accepts(ZeroOrMore(subject, count).0, Flatten(pieces))
  {
    ZeroOrMoreLoops(subject, lo, count, pieces);
  }

  /** After any number of the subject's strings, both the subject's start and the end are active. */
  lemma {:induction false} ZeroOrMoreLoops(subject: Graph, lo: nat, count: nat, pieces: seq<string>)
    requires Within(subject, lo, count)
    requires forall i | 0 <= i < |pieces| :: Accepts(subject, pieces[i])
    ensures var g := ZeroOrMore(subject, count).0;
      var T := Run(g.rules, Initial(g), Flatten(pieces));
      subject.start in T && g.end in T
    decreases |pieces|
  {
    var g := ZeroOrMore(subject, count).0;
    var S := Initial(g);
    var loops := g.rules[|subject.rules|..];
    assert loops[0] == Rule(g.start, g.end, Epsilon) && loops[1] == Rule(g.start, subject.start, Epsilon);
    assert loops[2] == Rule(subject.end, g.end, Epsilon) && loops[3] == Rule(subject.end, subject.start, Epsilon);
    if |pieces| == 0 {
      Follow(g.rules, S, g.start, subject.start);
      Follow(g.rules, S, g.start, g.end);
    } else {
      var prefix, last := pieces[..|pieces| - 1], pieces[|pieces| - 1];
      ZeroOrMoreLoops(subject, lo, count, prefix);
      var T := Run(g.rules, S, Flatten(prefix));
      RunOfInitialClosed(g, Flatten(prefix));
      assert Included(subject.rules, g.rules);
      Embed(subject, g.rules, T, last);
      RunAppend(g.rules, S, Flatten(prefix), last);
      var U := Run(g.rules, S, Flatten(pieces));
      assert U == Run(g.rules, T, last);
      RunOfInitialClosed(g, Flatten(pieces));
      Follow(g.rules, U, subject.end, g.end);
      Follow(g.rules, U, subject.end, subject.start);
    }
  }

  /** `concat(L, R)` accepts a string `L` accepts followed by a string `R` accepts. */
  lemma ConcatLanguage(left: Graph, right: Graph, lo: nat, mid: nat, hi: nat, u: string, v: string)
    requires Within(left, lo, mid) && Within(right, mid, hi)
    requires Accepts(left, u) && Accepts(right, v)
    ensures Accepts(Concat(left, right), u + v)
  {
    var g := Concat(left, right);
    var S := Initial(g);
    DisjointRanges(left, right, lo, mid, hi);
    assert g.rules == left.rules + right.rules + [Rule(left.end, right.start, Epsilon)];
    assert Included(left.rules, g.rules) && Included(right.rules, g.rules);
    Embed(left, g.rules, S, u);
    var T := Run(g.rules, S, u);
    RunOfInitialClosed(g, u);
    Follow(g.rules, T, left.end, right.start);
    Embed(right, g.rules, T, v);
    RunAppend(g.rules, S, u, v);
  }

  /** `either(L, R)` accepts every string `L` accepts and every string `R` accepts. */
  lemma EitherLanguage(left: Graph, right: Graph, lo: nat, mid: nat, hi: nat, w: string)
    requires Within(left, lo, mid) && Within(right, mid, hi)
    requires Accepts(left, w) || Accepts(right, w)
    ensures Accepts(Either(left, right), w)
  {
    var g := Either(left, right);
    var S := Initial(g);
    DisjointRanges(left, right, lo, mid, hi);
    assert g.rules == left.rules + right.rules + [Rule(left.start, right.start, Epsilon), Rule(left.end, right.end, Epsilon)];
    assert Included(left.rules, g.rules) && Included(right.rules, g.rules);
    if Accepts(left, w) {
      Embed(left, g.rules, S, w);
      RunOfInitialClosed(g, w);
      Follow(g.rules, Run(g.rules, S, w), left.end, right.end);
    } else {
      Follow(g.rules, S, left.start, right.start);
      Embed(right, g.rules, S, w);
    }
  }
}
