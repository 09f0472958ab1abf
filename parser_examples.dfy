/**
 * Patterns from the unit tests of lib/parser.ts and lib/graph.ts, parsed.
 */
module ParserExamples {
  import opened Options
  import opened Parser
  import opened ParserProperties

  /** A term made of one character, with no modifier and no bar after it. */
  function Char(c: char): Term {
    Term(CharacterItem(Character(c)), None, false)
  }

  /** A right-nested expression of single characters. */
  function Chars(s: string): Option<Expression>
    decreases |s|
  {
    if |s| == 0 then None else Some(Expression(Char(s[0]), Chars(s[1..])))
  }

  /** The expression of plain characters prints as those characters. */
  lemma {:induction false} CharsPrint(s: string)
    requires |s| > 0
    ensures Chars(s).value.ToString() == s
    decreases |s|
  {
    if |s| > 1 {
      CharsPrint(s[1..]);
      assert s == [s[0]] + s[1..];
    }
  }

  /** The empty pattern parses to an empty root; `&%foo` throws with nothing parsed. */
  lemma ParseEdges()
    ensures Parse("") == Parsed(Start(None))
    ensures Parse("&%foo") == Thrown("", "&%foo")
  {
    assert ParseTerm("&%foo").None?;
  }

  /** `ab|c` is `a` followed by `b|c`: the bar joins only the term before it. */
  const AbOrC: Start := Start(Some(
    Expression(Char('a'), Some(Expression(Term(CharacterItem(Character('b')), None, true), Chars("c"))))))

  lemma AlternationBindsOneTerm()
    ensures Parse("ab|c") == Parsed(AbOrC)
  {
    CParses();
    BarParses();
    assert ParseTerm("ab|c") == Some((Char('a'), "b|c"));
  }

  lemma BarParses()
    ensures ParseTerm("b|c") == Some((Term(CharacterItem(Character('b')), None, true), "c"))
  {
  }

  lemma CParses()
    ensures ParseExpression("c") == Some((Chars("c").value, ""))
  {
    assert ParseTerm("c") == Some((Char('c'), ""));
  }

  // ----------------------------------------------------------------- hi.

  const HiDot: Start := Start(Chars("hi."))

  /** `hi.` parses to three terms. */
  lemma HiDotParses()
    ensures Parse("hi.") == Parsed(HiDot)
  {
    assert HiDot.ToString() == "hi.";
    PrintThenParse(HiDot);
  }

  // ------------------------------------------------------------- (ab)*|c

  const AbStar: Term := Term(GroupItem(Group(Chars("ab").value)), Some(Modifier('*')), true)

  const AbStarOrC: Start := Start(Some(Expression(AbStar, Chars("c"))))

  lemma CloseParenEndsExpression()
    ensures ParseTerm(")*|c").None? && ParseExpression(")*|c").None?
  {
    assert ParseCharacter(")*|c").None? && ParseGroup(")*|c").None?;
  }

  lemma BParses()
    ensures ParseTerm("b)*|c") == Some((Char('b'), ")*|c"))
  {
    assert ParseItem("b)*|c") == Some((CharacterItem(Character('b')), ")*|c"));
    assert ParseModifier(")*|c").None?;
  }

  lemma AbParses()
    ensures ParseExpression("ab)*|c") == Some((Chars("ab").value, ")*|c"))
  {
    CloseParenEndsExpression();
    BParses();
    assert ParseExpression("b)*|c") == Some((Chars("b").value, ")*|c"));
    assert ParseItem("ab)*|c") == Some((CharacterItem(Character('a')), "b)*|c"));
    assert ParseModifier("b)*|c").None?;
    assert ParseTerm("ab)*|c") == Some((Char('a'), "b)*|c"));
  }

  lemma AbGroupParses()
    ensures ParseItem("(ab)*|c") == Some((GroupItem(Group(Chars("ab").value)), "*|c"))
  {
    AbGroupCloses();
  }

  lemma AbGroupCloses()
    ensures ParseGroup("(ab)*|c") == Some((Group(Chars("ab").value), "*|c"))
  {
    AbParses();
  }

  lemma StarParses()
    ensures ParseModifier("*|c") == Some((Modifier('*'), "|c"))
  {
  }

  lemma AbStarParses()
    ensures ParseTerm("(ab)*|c") == Some((AbStar, "c"))
  {
    AbGroupParses();
    StarParses();
  }

  /** `(ab)*|c` parses to the starred group, marked as followed by `|`, then `c`. */
  lemma AbStarOrCParses()
    ensures Parse("(ab)*|c") == Parsed(AbStarOrC)
  {
    AbStarParses();
    CParses();
    assert ParseExpression("(ab)*|c") == Some((AbStarOrC.content.value, ""));
  }

  // ---------------------------------------------------------------- ^foo

  const CaretFoo: Start := Start(Chars("^foo"))

  /** `^foo` parses to four character terms, the anchor first. */
  lemma CaretFooParses()
    ensures Parse("^foo") == Parsed(CaretFoo)
  {
    assert CaretFoo.ToString() == "^foo";
    PrintThenParse(CaretFoo);
  }

  // --------------------------------------------------------------- (hi)*

  const HiStar: Start := Start(Some(Expression(Term(GroupItem(Group(Chars("hi").value)), Some(Modifier('*')), false), None)))

  lemma HiStarParses()
    ensures Parse("(hi)*") == Parsed(HiStar)
  {
    assert HiStar.ToString() == "(hi)*";
    PrintThenParse(HiStar);
  }

  // --------------------------------------------------------------- (a*)*

  const ATerm: Term := Term(CharacterItem(Character('a')), Some(Modifier('*')), false)

  const StarStar: Start := Start(Some(Expression(Term(GroupItem(Group(Expression(ATerm, None))), Some(Modifier('*')), false), None)))

  lemma StarStarParses()
    ensures Parse("(a*)*") == Parsed(StarStar)
  {
    assert StarStar.ToString() == "(a*)*";
    PrintThenParse(StarStar);
  }

  // -------------------------------------------------------------- a^b$c

  const Anchored: Start := Start(Chars("a^b$c"))

  lemma AnchoredParses()
    ensures Parse("a^b$c") == Parsed(Anchored)
  {
    CharsPrint("a^b$c");
    PrintThenParse(Anchored);
  }

  // ----------------------------------------------------------------- .+

  const DotPlus: Start := Start(Some(Expression(Term(CharacterItem(Character('.')), Some(Modifier('+')), false), None)))

  lemma DotPlusParses()
    ensures Parse(".+") == Parsed(DotPlus)
  {
    assert DotPlus.ToString() == ".+";
    PrintThenParse(DotPlus);
  }

  // ----------------------------------------------------------------- a|

  /** `a|`: a single term flagged as preceding a bar, with nothing after it. */
  const ABar: Start := Start(Some(Expression(Term(CharacterItem(Character('a')), None, true), None)))

  lemma ABarTerm()
    ensures ParseTerm("a|") == Some((ABar.content.value.term, ""))
  {
  }

  /** A trailing bar is consumed with the term before it; nothing follows. */
  lemma ABarParses()
    ensures Parse("a|") == Parsed(ABar)
  {
    ABarTerm();
    assert ParseTerm("").None?;
  }

  lemma AParses()
    ensures Parse("a") == Parsed(Start(Chars("a")))
  {
    assert ParseTerm("a") == Some((Char('a'), ""));
  }
}
