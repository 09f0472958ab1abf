/**
 * The automaton of the unit test of lib/evaluator.ts, and a graph on which
 * `followEpsilons` as written does not terminate.
 */
module EvaluatorExamples {
  import opened Automaton
  import opened Acceptance
  import opened Constructions
  import opened Engine
  import opened Compiler
  import opened Composition

  lemma EmptyBounds(rules: seq<Rule>, c: char)
    ensures Bounds(rules, {}, c, {}) && Shut(rules, {})
  {
  }

  // ----------------------------------------------------------- (he)*lo*l

  // The automaton of the evaluator's unit test, built with the combinators;
  // the counter runs in the order the arguments are evaluated.
  const H: Graph := SingleCharacter('h', 0).0

  const E: Graph := SingleCharacter('e', 2).0

  const He: Graph := Concat(H, E)

  const HeStar: Graph := ZeroOrMore(He, 4).0

  const L: Graph := SingleCharacter('l', 6).0

  const O: Graph := SingleCharacter('o', 8).0

  const OStar: Graph := ZeroOrMore(O, 10).0

  const LastL: Graph := SingleCharacter('l', 12).0

  const HeStarL: Graph := Concat(HeStar, L)

  const OStarL: Graph := Concat(OStar, LastL)

  const Helol: Graph := Concat(HeStarL, OStarL)

  /** The counter ranges each piece was built in. */
  lemma HelolWithin()
    ensures Within(H, 0, 2) && Within(E, 2, 4) && Within(He, 0, 4) && Within(HeStar, 0, 6) && Within(L, 6, 8)
    ensures Within(O, 8, 10) && Within(OStar, 8, 12) && Within(LastL, 12, 14)
    ensures Within(HeStarL, 0, 8) && Within(OStarL, 8, 14)
  {
    Widen(H, 0, 2, 4);
    Widen(HeStar, 0, 6, 8);
    Widen(O, 8, 10, 12);
    Widen(OStar, 8, 12, 14);
  }

  lemma HeJoined()
    ensures Accepts(He, "h" + "e")
  {
    HelolWithin();
    SingleCharacterLanguage('h', 0, "h");
    SingleCharacterLanguage('e', 2, "e");
    ConcatLanguage(H, E, 0, 2, 4, "h", "e");
  }

  lemma HeAccepted()
    ensures Accepts(He, "he")
  {
    HeJoined();
    assert "h" + "e" == "he";
  }

  lemma HeStarLAccepts(hes: seq<string>)
    requires forall k | 0 <= k < |hes| :: hes[k] == "he"
    ensures Accepts(HeStarL, Flatten(hes) + "l")
  {
    HelolWithin();
    HeAccepted();
    ZeroOrMoreLanguage(He, 0, 4, hes);
    SingleCharacterLanguage('l', 6, "l");
    ConcatLanguage(HeStar, L, 0, 6, 8, Flatten(hes), "l");
  }

  lemma OStarLAccepts(os: seq<string>)
    requires forall k | 0 <= k < |os| :: os[k] == "o"
    ensures Accepts(OStarL, Flatten(os) + "l")
  {
    HelolWithin();
    forall k | 0 <= k < |os|
      ensures Accepts(O, os[k])
    {
      SingleCharacterLanguage('o', 8, os[k]);
    }
    ZeroOrMoreLanguage(O, 8, 10, os);
    SingleCharacterLanguage('l', 12, "l");
    ConcatLanguage(OStar, LastL, 8, 12, 14, Flatten(os), "l");
  }

  /** `(he)*lo*l` accepts any number of `he`, an `l`, any number of `o`, and an `l`. */
  lemma HelolLanguage(hes: seq<string>, os: seq<string>)
    requires forall k | 0 <= k < |hes| :: hes[k] == "he"
    requires forall k | 0 <= k < |os| :: os[k] == "o"
    ensures Accepts(Helol, Flatten(hes) + "l" + (Flatten(os) + "l"))
  {
    HelolWithin();
    HeStarLAccepts(hes);
    OStarLAccepts(os);
    ConcatLanguage(HeStarL, OStarL, 0, 8, 14, Flatten(hes) + "l", Flatten(os) + "l");
  }

  lemma Ll()
    ensures Flatten([]) + "l" + (Flatten([]) + "l") == "ll"
  {
  }

  lemma HeHe()
    ensures Flatten(["he", "he"]) + "l" + (Flatten([]) + "l") == "hehell"
  {
    assert Flatten(["he"]) == "he";
  }

  /** `(he)*lo*l` accepts `ll` and `hehell`. */
  lemma HelolAcceptsLl()
    ensures Accepts(Helol, "ll")
  {
    HelolLanguage([], []);
    Ll();
  }

  lemma HelolAcceptsHehell()
    ensures Accepts(Helol, "hehell")
  {
    var hes := ["he", "he"];
    assert hes[0] == "he" && hes[1] == "he";
    HelolLanguage(hes, []);
    HeHe();
  }

  /** The same automaton, rule by rule: seventeen rules from state 4 to state 13. */
  const HelolGraph: Graph := Graph("he*lo*l", 4, 13, [
    Rule(0, 1, Equal('h')), Rule(2, 3, Equal('e')), Rule(1, 2, Epsilon),
    Rule(4, 5, Epsilon), Rule(4, 0, Epsilon), Rule(3, 5, Epsilon), Rule(3, 0, Epsilon),
    Rule(6, 7, Equal('l')), Rule(5, 6, Epsilon),
    Rule(8, 9, Equal('o')), Rule(10, 11, Epsilon), Rule(10, 8, Epsilon), Rule(9, 11, Epsilon), Rule(9, 8, Epsilon),
    Rule(12, 13, Equal('l')), Rule(11, 12, Epsilon),
    Rule(7, 10, Epsilon)])

  lemma HeRules()
    ensures He == Graph("he", 0, 3, [Rule(0, 1, Equal('h')), Rule(2, 3, Equal('e')), Rule(1, 2, Epsilon)])
  {
  }

  lemma HeStarRules()
    ensures HeStar == Graph("he*", 4, 5, HelolGraph.rules[..7])
  {
    HeRules();
    assert "he" + "*" == "he*";
    assert He.rules + [Rule(4, 5, Epsilon), Rule(4, 0, Epsilon), Rule(3, 5, Epsilon), Rule(3, 0, Epsilon)]
      == HelolGraph.rules[..7];
  }

  lemma HeStarLRules()
    ensures HeStarL == Graph("he*l", 4, 7, HelolGraph.rules[..9])
  {
    HeStarRules();
    HeStarLJoins();
  }

  lemma HeStarLJoins()
    ensures "he*" + "l" == "he*l"
    ensures HelolGraph.rules[..7] + [Rule(6, 7, Equal('l'))] + [Rule(5, 6, Epsilon)] == HelolGraph.rules[..9]
  {
  }

  lemma OStarRules()
    ensures OStar == Graph("o*", 10, 11, HelolGraph.rules[9..14])
  {
    assert "o" + "*" == "o*";
    assert O.rules + [Rule(10, 11, Epsilon), Rule(10, 8, Epsilon), Rule(9, 11, Epsilon), Rule(9, 8, Epsilon)]
      == HelolGraph.rules[9..14];
  }

  lemma OStarLRules()
    ensures OStarL == Graph("o*l", 10, 13, HelolGraph.rules[9..16])
  {
    OStarRules();
    OStarLJoins();
  }

  lemma OStarLJoins()
    ensures "o*" + "l" == "o*l"
    ensures HelolGraph.rules[9..14] + [Rule(12, 13, Equal('l'))] + [Rule(11, 12, Epsilon)] == HelolGraph.rules[9..16]
  {
  }

  lemma HelolRules()
    ensures Helol == HelolGraph
  {
    HeStarLRules();
    OStarLRules();
    HelolJoins();
  }

  lemma HelolJoins()
    ensures "he*l" + "o*l" == HelolGraph.name
    ensures HelolGraph.rules[..9] + HelolGraph.rules[9..16] + [Rule(7, 10, Epsilon)] == HelolGraph.rules
  {
  }

  lemma HelolBoundsStart()
    ensures Shut(HelolGraph.rules, {0, 4, 5, 6})
  {
  }

  lemma HelolBoundsH()
    ensures Bounds(HelolGraph.rules, {0, 4, 5, 6}, 'h', {1, 2}) && Shut(HelolGraph.rules, {1, 2})
  {
  }

  lemma HelolBoundsHH()
    ensures Bounds(HelolGraph.rules, {1, 2}, 'h', {})
  {
  }

  lemma HelolGraphRejectsEmpty()
    ensures !Accepts(HelolGraph, "")
  {
    HelolBoundsStart();
    RejectedBy(HelolGraph, "", [{0, 4, 5, 6}]);
  }

  lemma HelolGraphRejectsHhell()
    ensures !Accepts(HelolGraph, "hhell")
  {
    HelolBoundsStart();
    HelolBoundsH();
    HelolBoundsHH();
    EmptyBounds(HelolGraph.rules, 'e');
    EmptyBounds(HelolGraph.rules, 'l');
    RejectedBy(HelolGraph, "hhell", [{0, 4, 5, 6}, {1, 2}, {}, {}, {}, {}]);
  }

  /** `(he)*lo*l` rejects the empty string and `hhell`: an `h` must be followed by `e`. */
  lemma HelolRejects()
    ensures !Accepts(Helol, "") && !Accepts(Helol, "hhell")
  {
    HelolRules();
    HelolGraphRejectsEmpty();
    HelolGraphRejectsHhell();
  }

  /** `match` on the unit test's automaton gives the results the test expects. */
  method HelolMatches() returns (ll: bool, hehell: bool, empty: bool, hhell: bool)
    ensures ll && hehell && !empty && !hhell
  {
    HelolAcceptsLl();
    HelolAcceptsHehell();
    HelolRejects();
    var evaluator := new Evaluator(Helol);
    ll := evaluator.Match("ll");
    hehell := evaluator.Match("hehell");
    empty := evaluator.Match("");
    hhell := evaluator.Match("hhell");
  }

  // --------------------------------------------------------------- (a*)*

  const StarStarGraph: Graph := Graph("a**", 4, 5, [
    Rule(0, 1, Equal('a')), Rule(2, 3, Epsilon), Rule(2, 0, Epsilon), Rule(1, 3, Epsilon), Rule(1, 0, Epsilon),
    Rule(4, 5, Epsilon), Rule(4, 2, Epsilon), Rule(3, 5, Epsilon), Rule(3, 2, Epsilon)])

  /**
   * `(a*)*` compiles to a graph whose states 2 and 3 reach each other along
   * epsilon rules, so `followEpsilons` as written recurses without end on it.
   */
  lemma StarStarCycles()
    ensures !NoEpsilonCycle(StarStarGraph.rules)
  {
    var rules := StarStarGraph.rules;
    assert Rule(2, 3, Epsilon) == rules[1] && Rule(3, 2, Epsilon) == rules[8];
    Follow(rules, EpsilonClosure(rules, 2), 2, 3);
    Follow(rules, EpsilonClosure(rules, 3), 3, 2);
  }

  // ------------------------------------------------ either needs fragments

  /** A graph whose end leads back to its start: not a fragment. */
  const Returning: Graph := Graph("a", 0, 1, [Rule(0, 1, Equal('a')), Rule(1, 0, Epsilon)])

  const BOnly: Graph := Graph("b", 2, 3, [Rule(2, 3, Equal('b'))])

  const Forked: Graph := Graph("a|b", 0, 3, [
    Rule(0, 1, Equal('a')), Rule(1, 0, Epsilon), Rule(2, 3, Equal('b')), Rule(0, 2, Epsilon), Rule(1, 3, Epsilon)])

  lemma ForkedJoins()
    ensures Either(Returning, BOnly) == Forked
  {
  }

  lemma ReturningRejects()
    ensures !Accepts(Returning, "ab")
  {
    assert Initial(Returning) == {0};
  }

  lemma BOnlyRejects()
    ensures !Accepts(BOnly, "ab")
  {
    assert BOnly == SingleCharacter('b', 2).0;
    SingleCharacterLanguage('b', 2, "ab");
  }

  /** After `a` the forked graph is back at the left start, and so at the right start. */
  lemma ForkedAfterA()
    ensures 2 in Run(Forked.rules, Initial(Forked), "a")
  {
    var S := Initial(Forked);
    var T := Step(Forked.rules, S, 'a');
    assert Forked.rules[0] == Rule(0, 1, Equal('a'));
    Stepped(Forked.rules, S, 'a', Forked.rules[0], 1);
    assert Forked.rules[1] == Rule(1, 0, Epsilon) && Forked.rules[3] == Rule(0, 2, Epsilon);
    Follow(Forked.rules, T, 1, 0);
    Follow(Forked.rules, T, 0, 2);
    RunStep(Forked.rules, S, "", 'a');
  }

  lemma ForkedAccepts()
    ensures Accepts(Forked, "ab")
  {
    var S := Run(Forked.rules, Initial(Forked), "a");
    ForkedAfterA();
    assert Forked.rules[2] == Rule(2, 3, Equal('b'));
    Stepped(Forked.rules, S, 'b', Forked.rules[2], 3);
    RunStep(Forked.rules, Initial(Forked), "a", 'b');
  }

  /**
   * Without the fragment shape `either` accepts more than its two sides:
   * after `a` the left graph is back at its start, which leads into the right one.
   */
  lemma EitherNeedsFragments()
    ensures !Accepts(Returning, "ab") && !Accepts(BOnly, "ab")
    ensures Accepts(Either(Returning, BOnly), "ab")
  {
    ReturningRejects();
    BOnlyRejects();
    ForkedJoins();
    ForkedAccepts();
  }
}
