/**
 * Patterns from the unit tests of lib/graph.ts: the graphs they compile to
 * and strings those graphs accept and reject.
 */
module GraphExamples {
  import opened Options
  import opened Parser
  import opened Automaton
  import opened Acceptance
  import opened Constructions
  import opened Compiler
  import opened CompilerProperties
  import opened ParserExamples
  import opened EvaluatorExamples

  /** A term followed by an expression describes one of its strings followed by one of the expression's. */
  lemma Then(t: Term, next: Expression, u: string, v: string)
    requires !t.precedesPipeOperator && TermDescribes(t, u) && ExpressionDescribes(next, v)
    ensures ExpressionDescribes(Expression(t, Some(next)), u + v)
  {
    assert (u + v)[..|u|] == u && (u + v)[|u|..] == v;
  }

  /** A term describes a string: so does the expression made of that term alone. */
  lemma Last(t: Term, w: string)
    requires TermDescribes(t, w)
    ensures ExpressionDescribes(Expression(t, None), w)
  {
  }

  /** A character other than `.`, `^` and `$` stands for itself. */
  lemma Literal(c: char)
    requires c !in ".^$"
    ensures TermDescribes(Char(c), [c])
  {
  }

  /** A word of plain characters describes itself. */
  lemma {:induction false} Word(s: string)
    requires |s| > 0 && forall i | 0 <= i < |s| :: s[i] !in ".^$"
    ensures ExpressionDescribes(Chars(s).value, s)
    decreases |s|
  {
    Literal(s[0]);
    if |s| == 1 {
      Last(Char(s[0]), s);
    } else {
      Word(s[1..]);
      Then(Char(s[0]), Chars(s[1..]).value, [s[0]], s[1..]);
      assert [s[0]] + s[1..] == s;
    }
  }

  // ----------------------------------------------------------------- hi.

  const HiDotGraph: Graph := Graph("hi.", 0, 5, [
    Rule(0, 1, Equal('h')), Rule(2, 3, Equal('i')), Rule(4, 5, Any), Rule(3, 4, Epsilon), Rule(1, 2, Epsilon)])

  lemma HCompiles()
    ensures CompileTerm(Char('h'), 0) == Some((Graph("h", 0, 1, [Rule(0, 1, Equal('h'))]), 2))
  {
  }

  lemma HiDotTail()
    ensures CompileExpression(Chars("i.").value, 2) ==
      Some((Graph("i.", 2, 5, [Rule(2, 3, Equal('i')), Rule(4, 5, Any), Rule(3, 4, Epsilon)]), 6))
  {
    assert CompileExpression(Chars(".").value, 4) == Some((Graph(".", 4, 5, [Rule(4, 5, Any)]), 6));
    assert CompileTerm(Char('i'), 2) == Some((Graph("i", 2, 3, [Rule(2, 3, Equal('i'))]), 4));
    assert Concat(Graph("i", 2, 3, [Rule(2, 3, Equal('i'))]), Graph(".", 4, 5, [Rule(4, 5, Any)]))
      == Graph("i.", 2, 5, [Rule(2, 3, Equal('i')), Rule(4, 5, Any), Rule(3, 4, Epsilon)]);
  }

  lemma HiDotHead()
    ensures Concat(Graph("h", 0, 1, [Rule(0, 1, Equal('h'))]),
                   Graph("i.", 2, 5, [Rule(2, 3, Equal('i')), Rule(4, 5, Any), Rule(3, 4, Epsilon)]))
      == HiDotGraph
  {
  }

  /** `hi.` compiles to five rules in the tested order, the `.` rule third. */
  lemma HiDotCompiles()
    ensures CompileStart(HiDot) == Some(HiDotGraph)
  {
    HiDotTail();
    HiDotHead();
    HCompiles();
  }

  lemma HiDotDescribes(x: char)
    ensures ExpressionDescribes(Chars("hi.").value, ['h', 'i', x])
  {
    Last(Char('.'), [x]);
    Literal('i');
    Then(Char('i'), Chars(".").value, "i", [x]);
    Literal('h');
    Then(Char('h'), Chars("i.").value, "h", "i" + [x]);
    assert "h" + ("i" + [x]) == ['h', 'i', x];
  }

  /** `hi.` accepts `him` and `hi `: an `h`, an `i`, then any character. */
  lemma HiDotAccepts()
    ensures Accepts(HiDotGraph, "him") && Accepts(HiDotGraph, "hi ")
  {
    HiDotCompiles();
    HiDotDescribes('m');
    CompileSound(HiDot, "him");
    HiDotDescribes(' ');
    CompileSound(HiDot, "hi ");
  }

  lemma HiDotBounds()
    ensures Shut(HiDotGraph.rules, {0}) && Bounds(HiDotGraph.rules, {0}, 'h', {1, 2}) && Shut(HiDotGraph.rules, {1, 2})
    ensures Bounds(HiDotGraph.rules, {1, 2}, 'i', {3, 4}) && Shut(HiDotGraph.rules, {3, 4})
    ensures Bounds(HiDotGraph.rules, {3, 4}, 'i', {5}) && Shut(HiDotGraph.rules, {5})
    ensures Bounds(HiDotGraph.rules, {5}, 'i', {}) && Shut(HiDotGraph.rules, {})
  {
  }

  /** `hi.` rejects `hi`: it is too short. */
  lemma HiDotRejectsShort()
    ensures !Accepts(HiDotGraph, "hi")
  {
    HiDotBounds();
    RejectedBy(HiDotGraph, "hi", [{0}, {1, 2}, {3, 4}]);
  }

  /** `hi.` rejects `hiii`: it is too long. */
  lemma HiDotRejectsLong()
    ensures !Accepts(HiDotGraph, "hiii")
  {
    HiDotBounds();
    RejectedBy(HiDotGraph, "hiii", [{0}, {1, 2}, {3, 4}, {5}, {}]);
  }

  // ------------------------------------------------------------- (ab)*|c

  const AbStarOrCGraph: Graph := Graph("ab*|c", 4, 7, [
    Rule(0, 1, Equal('a')), Rule(2, 3, Equal('b')), Rule(1, 2, Epsilon),
    Rule(4, 5, Epsilon), Rule(4, 0, Epsilon), Rule(3, 5, Epsilon), Rule(3, 0, Epsilon),
    Rule(6, 7, Equal('c')), Rule(4, 6, Epsilon), Rule(5, 7, Epsilon)])

  const AbGraph: Graph := Graph("ab", 0, 3, [Rule(0, 1, Equal('a')), Rule(2, 3, Equal('b')), Rule(1, 2, Epsilon)])

  const AbStarGraph: Graph := Graph("ab*", 4, 5, [
    Rule(0, 1, Equal('a')), Rule(2, 3, Equal('b')), Rule(1, 2, Epsilon),
    Rule(4, 5, Epsilon), Rule(4, 0, Epsilon), Rule(3, 5, Epsilon), Rule(3, 0, Epsilon)])

  lemma AbCompiles()
    ensures CompileExpression(Chars("ab").value, 0) == Some((Graph("ab", 0, 3, [Rule(0, 1, Equal('a')), Rule(2, 3, Equal('b')), Rule(1, 2, Epsilon)]), 4))
  {
    assert CompileExpression(Chars("b").value, 2) == Some((Graph("b", 2, 3, [Rule(2, 3, Equal('b'))]), 4));
    assert CompileTerm(Char('a'), 0) == Some((Graph("a", 0, 1, [Rule(0, 1, Equal('a'))]), 2));
    assert Concat(Graph("a", 0, 1, [Rule(0, 1, Equal('a'))]), Graph("b", 2, 3, [Rule(2, 3, Equal('b'))]))
      == Graph("ab", 0, 3, [Rule(0, 1, Equal('a')), Rule(2, 3, Equal('b')), Rule(1, 2, Epsilon)]);
  }

  lemma AbItemCompiles()
    ensures CompileItem(AbStar.item, 0) == Some((AbGraph, 4))
  {
    AbCompiles();
  }

  lemma AbLoops()
    ensures ZeroOrMore(AbGraph, 4) == (AbStarGraph, 6)
  {
    assert AbGraph.name + "*" == AbStarGraph.name;
    assert AbGraph.rules + [Rule(4, 5, Epsilon), Rule(4, 0, Epsilon), Rule(3, 5, Epsilon), Rule(3, 0, Epsilon)]
      == AbStarGraph.rules;
  }

  /** `(ab)*` compiles to seven rules labelled `ab*`: the group's three, then four epsilon rules. */
  lemma AbStarCompiles()
    ensures CompileTerm(AbStar, 0) == Some((AbStarGraph, 6))
  {
    AbItemCompiles();
    AbLoops();
  }

  lemma CCompiles()
    ensures CompileExpression(Chars("c").value, 6) == Some((Graph("c", 6, 7, [Rule(6, 7, Equal('c'))]), 8))
  {
  }

  lemma AbStarOrCJoins()
    ensures Either(AbStarGraph, Graph("c", 6, 7, [Rule(6, 7, Equal('c'))])) == AbStarOrCGraph
  {
  }

  /** `(ab)*|c` compiles to `either` of `zeroOrMore` of `ab` and `c`: ten rules. */
  lemma AbStarOrCCompiles()
    ensures CompileStart(AbStarOrC) == Some(AbStarOrCGraph)
  {
    AbStarCompiles();
    CCompiles();
    AbStarOrCJoins();
  }

  /** Strings an item describes, one after another, are repeats of it. */
  lemma RepeatsOf(i: Item, pieces: seq<string>)
    requires forall k | 0 <= k < |pieces| :: ItemDescribes(i, pieces[k])
    ensures Repeats(i, Flatten(pieces))
  {
  }

  lemma AbDescribed()
    ensures ItemDescribes(AbStar.item, "ab")
  {
    Literal('b');
    Last(Char('b'), "b");
    Literal('a');
    Then(Char('a'), Chars("b").value, "a", "b");
  }

  lemma AbStarDescribesNone()
    ensures TermDescribes(AbStar, "")
  {
    RepeatsOf(AbStar.item, []);
  }

  lemma AbStarDescribesOne()
    ensures TermDescribes(AbStar, "ab")
  {
    AbDescribed();
    RepeatsOf(AbStar.item, ["ab"]);
  }

  lemma AbTwice()
    ensures Flatten(["ab", "ab"]) == "abab"
  {
    assert Flatten(["ab"]) == "ab";
  }

  lemma AbStarDescribesTwo()
    ensures TermDescribes(AbStar, "abab")
  {
    AbDescribed();
    RepeatsOf(AbStar.item, ["ab", "ab"]);
    AbTwice();
  }

  lemma AbStarOrCDescribes()
    ensures ExpressionDescribes(AbStarOrC.content.value, "")
    ensures ExpressionDescribes(AbStarOrC.content.value, "ab")
    ensures ExpressionDescribes(AbStarOrC.content.value, "abab")
    ensures ExpressionDescribes(AbStarOrC.content.value, "c")
  {
    AbStarDescribesNone();
    AbStarDescribesOne();
    AbStarDescribesTwo();
    Literal('c');
    Last(Char('c'), "c");
  }

  /** `(ab)*|c` accepts the empty string, `ab`, `abab` and `c`. */
  lemma AbStarOrCAccepts()
    ensures Accepts(AbStarOrCGraph, "") && Accepts(AbStarOrCGraph, "ab")
    ensures Accepts(AbStarOrCGraph, "abab") && Accepts(AbStarOrCGraph, "c")
  {
    AbStarOrCCompiles();
    AbStarOrCDescribes();
    CompileSound(AbStarOrC, "");
    CompileSound(AbStarOrC, "ab");
    CompileSound(AbStarOrC, "abab");
    CompileSound(AbStarOrC, "c");
  }

  lemma AbStarOrCBounds()
    ensures var rules := AbStarOrCGraph.rules;
      Shut(rules, {0, 4, 5, 6, 7}) && Bounds(rules, {0, 4, 5, 6, 7}, 'a', {1, 2}) && Shut(rules, {1, 2})
      && Bounds(rules, {1, 2}, 'b', {0, 3, 5, 7}) && Shut(rules, {0, 3, 5, 7})
      && Bounds(rules, {0, 3, 5, 7}, 'c', {}) && Shut(rules, {})
  {
  }

  /** `(ab)*|c` rejects `abc`. */
  lemma AbStarOrCRejects()
    ensures !Accepts(AbStarOrCGraph, "abc")
  {
    AbStarOrCBounds();
    RejectedBy(AbStarOrCGraph, "abc", [{0, 4, 5, 6, 7}, {1, 2}, {0, 3, 5, 7}, {}]);
  }

  // ---------------------------------------------------------------- ^foo

  const CaretFooGraph: Graph := Graph("^foo", 0, 6, [
    Rule(0, 0, Epsilon), Rule(1, 2, Equal('f')), Rule(3, 4, Equal('o')), Rule(5, 6, Equal('o')),
    Rule(4, 5, Epsilon), Rule(2, 3, Epsilon), Rule(0, 1, Epsilon)])

  lemma OoCompiles()
    ensures CompileExpression(Chars("oo").value, 3) ==
      Some((Graph("oo", 3, 6, [Rule(3, 4, Equal('o')), Rule(5, 6, Equal('o')), Rule(4, 5, Epsilon)]), 7))
  {
    assert CompileExpression(Chars("o").value, 5) == Some((Graph("o", 5, 6, [Rule(5, 6, Equal('o'))]), 7));
    assert CompileTerm(Char('o'), 3) == Some((Graph("o", 3, 4, [Rule(3, 4, Equal('o'))]), 5));
    assert Concat(Graph("o", 3, 4, [Rule(3, 4, Equal('o'))]), Graph("o", 5, 6, [Rule(5, 6, Equal('o'))]))
      == Graph("oo", 3, 6, [Rule(3, 4, Equal('o')), Rule(5, 6, Equal('o')), Rule(4, 5, Epsilon)]);
  }

  lemma FCompiles()
    ensures CompileTerm(Char('f'), 1) == Some((Graph("f", 1, 2, [Rule(1, 2, Equal('f'))]), 3))
  {
  }

  lemma FooJoins()
    ensures Concat(Graph("f", 1, 2, [Rule(1, 2, Equal('f'))]),
                   Graph("oo", 3, 6, [Rule(3, 4, Equal('o')), Rule(5, 6, Equal('o')), Rule(4, 5, Epsilon)]))
      == Graph("foo", 1, 6, [Rule(1, 2, Equal('f')), Rule(3, 4, Equal('o')), Rule(5, 6, Equal('o')),
                             Rule(4, 5, Epsilon), Rule(2, 3, Epsilon)])
  {
  }

  lemma FooCompiles()
    ensures CompileExpression(Chars("foo").value, 1) ==
      Some((Graph("foo", 1, 6, [Rule(1, 2, Equal('f')), Rule(3, 4, Equal('o')), Rule(5, 6, Equal('o')),
                                Rule(4, 5, Epsilon), Rule(2, 3, Epsilon)]), 7))
  {
    OoCompiles();
    FCompiles();
    FooJoins();
  }

  lemma CaretCompiles()
    ensures CompileTerm(Char('^'), 0) == Some((Graph("^", 0, 0, [Rule(0, 0, Epsilon)]), 1))
  {
  }

  lemma CaretFooJoins()
    ensures Concat(Graph("^", 0, 0, [Rule(0, 0, Epsilon)]),
                   Graph("foo", 1, 6, [Rule(1, 2, Equal('f')), Rule(3, 4, Equal('o')), Rule(5, 6, Equal('o')),
                                       Rule(4, 5, Epsilon), Rule(2, 3, Epsilon)]))
      == CaretFooGraph
  {
  }

  /** `^foo` compiles to the anchor's self-loop, then `foo`, joined by an epsilon rule. */
  lemma CaretFooCompiles()
    ensures CompileStart(CaretFoo) == Some(CaretFooGraph)
  {
    FooCompiles();
    CaretCompiles();
    CaretFooJoins();
  }

  lemma CaretFooDescribes()
    ensures ExpressionDescribes(CaretFoo.content.value, "foo")
  {
    Word("foo");
    Then(Char('^'), Chars("foo").value, "", "foo");
    assert "" + "foo" == "foo";
  }

  /** `^foo` accepts `foo`: the anchor stands for the empty string. */
  lemma CaretFooAccepts()
    ensures Accepts(CaretFooGraph, "foo")
  {
    CaretFooCompiles();
    CaretFooDescribes();
    CompileSound(CaretFoo, "foo");
  }

  lemma CaretFooBounds()
    ensures Shut(CaretFooGraph.rules, {0, 1}) && Shut(CaretFooGraph.rules, {})
    ensures Bounds(CaretFooGraph.rules, {0, 1}, ' ', {}) && Bounds(CaretFooGraph.rules, {0, 1}, '^', {})
  {
  }

  /** `^foo` rejects ` foo`: nothing matches the space. */
  lemma CaretFooRejectsSpace()
    ensures !Accepts(CaretFooGraph, " foo")
  {
    CaretFooBounds();
    EmptyBounds(CaretFooGraph.rules, 'f');
    EmptyBounds(CaretFooGraph.rules, 'o');
    RejectedBy(CaretFooGraph, " foo", [{0, 1}, {}, {}, {}, {}]);
  }

  /** `^foo` rejects `^foo`: the anchor matches no character, not even `^`. */
  lemma CaretFooRejectsCaret()
    ensures !Accepts(CaretFooGraph, "^foo")
  {
    CaretFooBounds();
    EmptyBounds(CaretFooGraph.rules, 'f');
    EmptyBounds(CaretFooGraph.rules, 'o');
    RejectedBy(CaretFooGraph, "^foo", [{0, 1}, {}, {}, {}, {}]);
  }

  // --------------------------------------------------------------- (hi)*

  const HiGraph: Graph := Graph("hi", 0, 3, [Rule(0, 1, Equal('h')), Rule(2, 3, Equal('i')), Rule(1, 2, Epsilon)])

  const HiStarGraph: Graph := Graph("hi*", 4, 5, [
    Rule(0, 1, Equal('h')), Rule(2, 3, Equal('i')), Rule(1, 2, Epsilon),
    Rule(4, 5, Epsilon), Rule(4, 0, Epsilon), Rule(3, 5, Epsilon), Rule(3, 0, Epsilon)])

  lemma HiCompiles()
    ensures CompileExpression(Chars("hi").value, 0) == Some((HiGraph, 4))
  {
    assert CompileExpression(Chars("i").value, 2) == Some((Graph("i", 2, 3, [Rule(2, 3, Equal('i'))]), 4));
    assert CompileTerm(Char('h'), 0) == Some((Graph("h", 0, 1, [Rule(0, 1, Equal('h'))]), 2));
    assert Concat(Graph("h", 0, 1, [Rule(0, 1, Equal('h'))]), Graph("i", 2, 3, [Rule(2, 3, Equal('i'))])) == HiGraph;
  }

  lemma HiLoops()
    ensures ZeroOrMore(HiGraph, 4) == (HiStarGraph, 6)
  {
    assert HiGraph.name + "*" == HiStarGraph.name;
    assert HiGraph.rules + [Rule(4, 5, Epsilon), Rule(4, 0, Epsilon), Rule(3, 5, Epsilon), Rule(3, 0, Epsilon)]
      == HiStarGraph.rules;
  }

  /** `(hi)*` compiles to seven rules labelled `hi*`: `h`, `i`, then five epsilon rules. */
  lemma HiStarCompiles()
    ensures CompileStart(HiStar) == Some(HiStarGraph)
  {
    HiStarTermCompiles();
  }

  lemma HiItemCompiles()
    ensures CompileItem(HiStar.content.value.term.item, 0) == Some((HiGraph, 4))
  {
    HiCompiles();
  }

  lemma HiStarTermCompiles()
    ensures CompileTerm(HiStar.content.value.term, 0) == Some((HiStarGraph, 6))
  {
    HiItemCompiles();
    HiLoops();
  }

  // --------------------------------------------------------------- (a*)*

  const AStarGraph: Graph := Graph("a*", 2, 3, [
    Rule(0, 1, Equal('a')), Rule(2, 3, Epsilon), Rule(2, 0, Epsilon), Rule(1, 3, Epsilon), Rule(1, 0, Epsilon)])

  const AGraph: Graph := Graph("a", 0, 1, [Rule(0, 1, Equal('a'))])

  lemma AItemCompiles()
    ensures CompileItem(ATerm.item, 0) == Some((AGraph, 2))
  {
  }

  lemma ALoops()
    ensures ZeroOrMore(AGraph, 2) == (AStarGraph, 4)
  {
    assert AGraph.name + "*" == AStarGraph.name;
    assert AGraph.rules + [Rule(2, 3, Epsilon), Rule(2, 0, Epsilon), Rule(1, 3, Epsilon), Rule(1, 0, Epsilon)]
      == AStarGraph.rules;
  }

  lemma AStarCompiles()
    ensures CompileTerm(ATerm, 0) == Some((AStarGraph, 4))
  {
    AItemCompiles();
    ALoops();
  }

  lemma AStarLoops()
    ensures ZeroOrMore(AStarGraph, 4) == (StarStarGraph, 6)
  {
    assert AStarGraph.name + "*" == StarStarGraph.name;
    assert AStarGraph.rules + [Rule(4, 5, Epsilon), Rule(4, 2, Epsilon), Rule(3, 5, Epsilon), Rule(3, 2, Epsilon)]
      == StarStarGraph.rules;
  }

  lemma AStarGroupCompiles()
    ensures CompileItem(StarStar.content.value.term.item, 0) == Some((AStarGraph, 4))
  {
    AStarCompiles();
  }

  lemma StarStarTermCompiles()
    ensures CompileTerm(StarStar.content.value.term, 0) == Some((StarStarGraph, 6))
  {
    AStarGroupCompiles();
    AStarLoops();
  }

  /** `(a*)*` compiles to the graph with the epsilon cycle between states 2 and 3. */
  lemma StarStarCompiles()
    ensures CompileStart(StarStar) == Some(StarStarGraph)
  {
    StarStarTermCompiles();
  }

  // -------------------------------------------------------------- a^b$c

  /** An anchor in front of an expression adds nothing to the strings it describes. */
  lemma Anchor(c: char, next: Expression, w: string)
    requires c == '^' || c == '$'
    requires ExpressionDescribes(next, w)
    ensures ExpressionDescribes(Expression(Char(c), Some(next)), w)
  {
    Then(Char(c), next, "", w);
    assert "" + w == w;
  }

  /** A word of characters is its first character in front of the rest. */
  lemma Unfold(s: string)
    requires |s| > 0
    ensures Chars(s).value == Expression(Char(s[0]), Chars(s[1..]))
  {
  }

  lemma AnchoredPieces()
    ensures Anchored.content.value == Expression(Char('a'), Chars("^b$c"))
    ensures Chars("b$c").value == Expression(Char('b'), Chars("$c"))
    ensures "a" + "bc" == "abc" && "b" + "c" == "bc"
  {
    Unfold("a^b$c");
    assert "a^b$c"[1..] == "^b$c";
    Unfold("b$c");
    assert "b$c"[1..] == "$c";
  }

  lemma DollarC()
    ensures ExpressionDescribes(Chars("$c").value, "c")
  {
    Word("c");
    Anchor('$', Chars("c").value, "c");
  }

  lemma BDollarC()
    ensures ExpressionDescribes(Chars("b$c").value, "bc")
  {
    DollarC();
    Literal('b');
    AnchoredPieces();
    Then(Char('b'), Chars("$c").value, "b", "c");
  }

  lemma CaretBDollarC()
    ensures ExpressionDescribes(Chars("^b$c").value, "bc")
  {
    BDollarC();
    Anchor('^', Chars("b$c").value, "bc");
  }

  lemma AnchoredDescribes()
    ensures ExpressionDescribes(Anchored.content.value, "abc")
  {
    CaretBDollarC();
    Literal('a');
    AnchoredPieces();
    Then(Char('a'), Chars("^b$c").value, "a", "bc");
  }

  /**
   * `a^b$c` accepts `abc`: anchors in the middle of a pattern stand for the
   * empty string, as everywhere else.
   */
  lemma AnchoredAccepts()
    ensures CompileStart(Anchored).Some? && Accepts(CompileStart(Anchored).value, "abc")
  {
    AnchoredDescribes();
    CompileSound(Anchored, "abc");
  }

  // ----------------------------------------------------------------- .+

  lemma DotRepeats(w: string)
    ensures Repeats(DotPlus.content.value.term.item, w)
    decreases |w|
  {
    var pieces := seq(|w|, i requires 0 <= i < |w| => [w[i]]);
    DotPieces(w, pieces);
    RepeatsOf(DotPlus.content.value.term.item, pieces);
  }

  lemma {:induction false} DotPieces(w: string, pieces: seq<string>)
    requires |pieces| == |w| && forall i | 0 <= i < |w| :: pieces[i] == [w[i]]
    ensures Flatten(pieces) == w
    decreases |w|
  {
    if |w| > 0 {
      DotPieces(w[..|w| - 1], pieces[..|w| - 1]);
      assert w == w[..|w| - 1] + [w[|w| - 1]];
    }
  }

  /** `.+` describes every non-empty string: one character, then any number of them. */
  lemma DotPlusDescribes(w: string)
    requires |w| > 0
    ensures ExpressionDescribes(DotPlus.content.value, w)
  {
    DotRepeats(w[1..]);
    assert ItemDescribes(DotPlus.content.value.term.item, w[..1]);
  }

  /** `.+` accepts `h` and `hhh`, through the two separate copies of `.` it compiles to. */
  lemma DotPlusAccepts()
    ensures CompileStart(DotPlus).Some?
    ensures Accepts(CompileStart(DotPlus).value, "h") && Accepts(CompileStart(DotPlus).value, "hhh")
  {
    DotPlusDescribes("h");
    CompileSound(DotPlus, "h");
    DotPlusDescribes("hhh");
    CompileSound(DotPlus, "hhh");
  }

  // --------------------------------------------------------------- ab|c

  /** `ab|c` compiled: `a`, then `either` of `b` and `c`; the bar binds `b` alone. */
  const AbOrCGraph: Graph := Graph("ab|c", 0, 5, [
    Rule(0, 1, Equal('a')), Rule(2, 3, Equal('b')), Rule(4, 5, Equal('c')),
    Rule(2, 4, Epsilon), Rule(3, 5, Epsilon), Rule(1, 2, Epsilon)])

  const BOrCGraph: Graph := Graph("b|c", 2, 5, [
    Rule(2, 3, Equal('b')), Rule(4, 5, Equal('c')), Rule(2, 4, Epsilon), Rule(3, 5, Epsilon)])

  lemma BOrCCompiles()
    ensures CompileExpression(AbOrC.content.value.next.value, 2) == Some((BOrCGraph, 6))
  {
    assert CompileTerm(AbOrC.content.value.next.value.term, 2) == Some((Graph("b", 2, 3, [Rule(2, 3, Equal('b'))]), 4));
    assert CompileExpression(Chars("c").value, 4) == Some((Graph("c", 4, 5, [Rule(4, 5, Equal('c'))]), 6));
    assert Either(Graph("b", 2, 3, [Rule(2, 3, Equal('b'))]), Graph("c", 4, 5, [Rule(4, 5, Equal('c'))])) == BOrCGraph;
  }

  lemma AbOrCJoins()
    ensures Concat(Graph("a", 0, 1, [Rule(0, 1, Equal('a'))]), BOrCGraph) == AbOrCGraph
  {
  }

  /** `ab|c` compiles to `concat` of `a` and `either(b, c)`: six rules. */
  lemma AbOrCCompiles()
    ensures CompileStart(AbOrC) == Some(AbOrCGraph)
  {
    BOrCCompiles();
    AbOrCJoins();
    ACompiles();
  }

  lemma ACompiles()
    ensures CompileTerm(Char('a'), 0) == Some((Graph("a", 0, 1, [Rule(0, 1, Equal('a'))]), 2))
  {
  }

  lemma AbOrCBounds()
    ensures Shut(AbOrCGraph.rules, {0}) && Bounds(AbOrCGraph.rules, {0}, 'c', {}) && Shut(AbOrCGraph.rules, {})
  {
  }

  /** `ab|c` rejects `c`: the alternative to `b` is `c` after `a`, not `c` alone. */
  lemma AbOrCRejectsC()
    ensures !Accepts(AbOrCGraph, "c")
  {
    AbOrCBounds();
    RejectedBy(AbOrCGraph, "c", [{0}, {}]);
  }

  lemma AcJoined()
    ensures "a" + "c" == "ac"
  {
  }

  lemma AbOrCDescribes()
    ensures ExpressionDescribes(AbOrC.content.value, "ac")
  {
    Word("c");
    Literal('a');
    Then(Char('a'), AbOrC.content.value.next.value, "a", "c");
    AcJoined();
  }

  /** `ab|c` accepts `ac`. */
  lemma AbOrCAccepts()
    ensures Accepts(AbOrCGraph, "ac")
  {
    AbOrCCompiles();
    AbOrCDescribes();
    CompileSound(AbOrC, "ac");
  }

  // ----------------------------------------------------------------- a|

  /** A trailing bar has no effect: `a|` compiles to the same graph as `a`. */
  lemma TrailingBarDropped()
    ensures Parse("a|").Parsed? && Parse("a").Parsed?
    ensures CompileStart(Parse("a|").ast) == CompileStart(Parse("a").ast) == Some(Graph("a", 0, 1, [Rule(0, 1, Equal('a'))]))
  {
    ABarParses();
    AParses();
  }
}
