/**
 * The automaton of lib/evaluator.ts: rule kinds, rules, graphs, and the graph
 * combinators that build a Thompson-style automaton piece by piece.
 *
 * A state is its number.  The source numbers states from a module-level
 * counter that every new state reads and increments, and that `resetState`
 * sets back to 0; here every combinator takes the counter's value and returns
 * its new value next to the graph it built.
 */
module Automaton {

  /**
   * What a rule matches: nothing (an epsilon rule, followed without consuming
   * a character), exactly one character, or any character.
   */
  datatype Kind = Epsilon | Equal(character: char) | Any

  /** `matchEqual`, `matchAny` and `EPSILON` applied to a character. */
  predicate Admits(k: Kind, c: char): (b: bool)
    ensures k.Epsilon? ==> !b
    ensures k.Equal? ==> (b <==> c == k.character)
    ensures k.Any? ==> b
  {
    match k
    case Epsilon => false
    case Equal(d) => c == d
    case Any => true
  }

  datatype Rule = Rule(from: nat, to: nat, kind: Kind)

  /** A graph: its label, its start and end states, and its rules in order. */
  datatype Graph = Graph(name: string, start: nat, end: nat, rules: seq<Rule>)

  /** The counter's value after `resetState`. */
  const InitialCount: nat := 0

  /** Every state `g` mentions was allocated while the counter ran from `lo` up to `hi`. */
  predicate Within(g: Graph, lo: nat, hi: nat) {
    lo <= g.start < hi && lo <= g.end < hi
    && forall r | r in g.rules :: lo <= r.from < hi && lo <= r.to < hi
  }

  /** The rules of `g` come first in `rules`, unchanged and in their order. */
  predicate Keeps(rules: seq<Rule>, g: Graph) {
    |g.rules| <= |rules| && rules[..|g.rules|] == g.rules
  }

  /**
   * Every rule from position `from` on is an epsilon rule (`from` is the
   * number of rules taken over from the subgraphs).
   */
  predicate EpsilonsFrom(rules: seq<Rule>, from: nat) {
    forall i | from <= i < |rules| :: rules[i].kind == Epsilon
  }

  // ------------------------------------------------------------- leaf graphs

  /** `singleCharacter`: two new states and one rule between them matching `c`. */
  function SingleCharacter(c: char, count: nat): (r: (Graph, nat))
    ensures r.1 == count + 2 && Within(r.0, count, r.1) && r.0.start != r.0.end
    ensures r.0.name == [c] && r.0.rules == [Rule(r.0.start, r.0.end, Equal(c))]
  {
    (Graph([c], count, count + 1, [Rule(count, count + 1, Equal(c))]), count + 2)
  }

  /** `anyCharacter`: two new states and one rule between them matching anything. */
  function AnyCharacter(count: nat): (r: (Graph, nat))
    ensures r.1 == count + 2 && Within(r.0, count, r.1) && r.0.start != r.0.end
    ensures r.0.name == "." && r.0.rules == [Rule(r.0.start, r.0.end, Any)]
  {
    (Graph(".", count, count + 1, [Rule(count, count + 1, Any)]), count + 2)
  }

  /** `start` (the `^` anchor): one new state, both start and end, with an epsilon self-loop. */
  function StartAnchor(count: nat): (r: (Graph, nat))
    ensures r.1 == count + 1 && Within(r.0, count, r.1) && r.0.start == r.0.end
    ensures r.0.name == "^" && r.0.rules == [Rule(r.0.start, r.0.start, Epsilon)]
  {
    (Graph("^", count, count, [Rule(count, count, Epsilon)]), count + 1)
  }

  /** `end` (the `$` anchor): like `start`, with another label. */
  function EndAnchor(count: nat): (r: (Graph, nat))
    ensures r.1 == count + 1 && Within(r.0, count, r.1) && r.0.start == r.0.end
    ensures r.0.name == "$" && r.0.rules == [Rule(r.0.end, r.0.end, Epsilon)]
  {
    (Graph("$", count, count, [Rule(count, count, Epsilon)]), count + 1)
  }

  // -------------------------------------------------------------- combinators

  /**
   * `zeroOrOne`: two new states around `subject`; its rules, then three
   * epsilon rules (skip, enter, leave).  `subject` was built from `lo` before
   * the counter reached `count`.
   */
  function ZeroOrOne(subject: Graph, count: nat): (r: (Graph, nat))
    ensures r.1 == count + 2
    ensures forall lo: nat | Within(subject, lo, count) :: Within(r.0, lo, r.1)
    ensures r.0.start == count && r.0.end == count + 1
    ensures Keeps(r.0.rules, subject) && |r.0.rules| == |subject.rules| + 3
    ensures EpsilonsFrom(r.0.rules, |subject.rules|)
    ensures r.0.rules[|subject.rules|..] ==
      [Rule(r.0.start, r.0.end, Epsilon), Rule(r.0.start, subject.start, Epsilon), Rule(subject.end, r.0.end, Epsilon)]
    ensures r.0.name == subject.name + "?"
  {
    var start, end := count, count + 1;
    var rules := subject.rules + [Rule(start, end, Epsilon), Rule(start, subject.start, Epsilon), Rule(subject.end, end, Epsilon)];
    assert rules[|subject.rules|..] == [Rule(start, end, Epsilon), Rule(start, subject.start, Epsilon), Rule(subject.end, end, Epsilon)];
    (Graph(subject.name + "?", start, end, rules), count + 2)
  }

  /**
   * `zeroOrMore`: like `zeroOrOne` with a fourth epsilon rule from the
   * subject's end back to its start.
   */
  function ZeroOrMore(subject: Graph, count: nat): (r: (Graph, nat))
    ensures r.1 == count + 2
    ensures forall lo: nat | Within(subject, lo, count) :: Within(r.0, lo, r.1)
    ensures r.0.start == count && r.0.end == count + 1
    ensures Keeps(r.0.rules, subject) && |r.0.rules| == |subject.rules| + 4
    ensures EpsilonsFrom(r.0.rules, |subject.rules|)
    ensures r.0.rules[|subject.rules|..] ==
      [Rule(r.0.start, r.0.end, Epsilon), Rule(r.0.start, subject.start, Epsilon),
       Rule(subject.end, r.0.end, Epsilon), Rule(subject.end, subject.start, Epsilon)]
    ensures r.0.name == subject.name + "*"
  {
    var start, end := count, count + 1;
    var loops := [Rule(start, end, Epsilon), Rule(start, subject.start, Epsilon),
                  Rule(subject.end, end, Epsilon), Rule(subject.end, subject.start, Epsilon)];
    assert (subject.rules + loops)[|subject.rules|..] == loops;
    assert forall r | r in loops :: r.from in {start, subject.end} && r.to in {end, subject.start};
    (Graph(subject.name + "*", start, end, subject.rules + loops), count + 2)
  }

  /**
   * `concat`: no new state; the left rules, the right rules, and one epsilon
   * rule from the left end to the right start.
   */
  function Concat(left: Graph, right: Graph): (g: Graph)
    ensures g.start == left.start && g.end == right.end
    ensures forall lo: nat, hi: nat | Within(left, lo, hi) && Within(right, lo, hi) :: Within(g, lo, hi)
    ensures |g.rules| == |left.rules| + |right.rules| + 1
    ensures Keeps(g.rules, left) && g.rules[|left.rules|..|left.rules| + |right.rules|] == right.rules
    ensures g.rules[|g.rules| - 1] == Rule(left.end, right.start, Epsilon)
    ensures g.name == left.name + right.name
  {
    var rules := left.rules + right.rules + [Rule(left.end, right.start, Epsilon)];
    assert rules[|left.rules|..|left.rules| + |right.rules|] == right.rules;
    Graph(left.name + right.name, left.start, right.end, rules)
  }

  /**
   * `either`: no new state; the left rules, the right rules, an epsilon rule
   * joining the two starts and one joining the two ends.
   */
  function Either(left: Graph, right: Graph): (g: Graph)
    ensures g.start == left.start && g.end == right.end
    ensures forall lo: nat, hi: nat | Within(left, lo, hi) && Within(right, lo, hi) :: Within(g, lo, hi)
    ensures |g.rules| == |left.rules| + |right.rules| + 2
    ensures Keeps(g.rules, left) && g.rules[|left.rules|..|left.rules| + |right.rules|] == right.rules
    ensures g.rules[|g.rules| - 2..] == [Rule(left.start, right.start, Epsilon), Rule(left.end, right.end, Epsilon)]
    ensures g.name == left.name + "|" + right.name
  {
    var joins := [Rule(left.start, right.start, Epsilon), Rule(left.end, right.end, Epsilon)];
    var rules := left.rules + right.rules + joins;
    assert rules[|left.rules|..|left.rules| + |right.rules|] == right.rules;
    assert rules[|rules| - 2..] == joins;
    Graph(left.name + "|" + right.name, left.start, right.end, rules)
  }

  /** Graphs built over disjoint counter ranges share no state. */
  lemma DisjointRanges(left: Graph, right: Graph, lo: nat, mid: nat, hi: nat)
    requires Within(left, lo, mid) && Within(right, mid, hi)
    ensures left.start != right.start && left.start != right.end
    ensures left.end != right.start && left.end != right.end
  {
  }
}
