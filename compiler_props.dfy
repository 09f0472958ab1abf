/**
 * What the graph compiled from a pattern accepts.
 *
 * `Describes` gives each AST node the strings it stands for as the compiler
 * reads it: anchors stand for the empty string, `x|y` joins only the term
 * before the bar with everything after it, and `x+` is one `x` followed by
 * any number of them.  The compiled graph accepts every string its node
 * describes.
 */
module CompilerProperties {
  import opened Options
  import opened Parser
  import opened Automaton
  import opened Acceptance
  import opened Constructions
  import opened Composition
  import opened Compiler

  // ---------------------------------------------------------- the language

  ghost predicate CharacterDescribes(c: Character, w: string) {
    match c.content
    case '.' => |w| == 1
    case '^' => |w| == 0
    case '$' => |w| == 0
    case _ => w == [c.content]
  }

  ghost predicate ItemDescribes(i: Item, w: string)
    decreases i, 1
  {
    match i
    case CharacterItem(c) => CharacterDescribes(c, w)
    case GroupItem(g) => ExpressionDescribes(g.content, w)
  }

  /** `w` is made of any number of strings the item describes. */
  ghost predicate Repeats(i: Item, w: string)
    decreases i, 2
  {
    exists pieces: seq<string> | Flatten(pieces) == w :: forall k | 0 <= k < |pieces| :: ItemDescribes(i, pieces[k])
  }

  ghost predicate TermDescribes(t: Term, w: string)
    decreases t, 0
  {
    if t.modifier.None? then ItemDescribes(t.item, w)
    else if t.modifier.value.content == '?' then |w| == 0 || ItemDescribes(t.item, w)
    else if t.modifier.value.content == '*' then Repeats(t.item, w)
    else if t.modifier.value.content == '+' then
      exists n | 0 <= n <= |w| :: ItemDescribes(t.item, w[..n]) && Repeats(t.item, w[n..])
    else false
  }

  ghost predicate ExpressionDescribes(e: Expression, w: string)
    decreases e, 0
  {
    if e.next.None? then TermDescribes(e.term, w)
    else if e.term.precedesPipeOperator then TermDescribes(e.term, w) || ExpressionDescribes(e.next.value, w)
    else exists n | 0 <= n <= |w| :: TermDescribes(e.term, w[..n]) && ExpressionDescribes(e.next.value, w[n..])
  }

  // ---------------------------------------------------------- soundness

  lemma Rejoin(w: string, n: nat)
    requires n <= |w|
    ensures w[..n] + w[n..] == w
  {
  }

  /** A character's graph accepts exactly the strings the character describes. */
  lemma CharacterLanguage(c: Character, count: nat, w: string)
    ensures Accepts(CompileCharacter(c, count).0, w) <==> CharacterDescribes(c, w)
  {
    match c.content
    case '.' => AnyCharacterLanguage(count, w);
    case '^' => StartAnchorLanguage(count, w);
    case '$' => EndAnchorLanguage(count, w);
    case _ => SingleCharacterLanguage(c.content, count, w);
  }

  lemma {:induction false} ItemSound(i: Item, count: nat, w: string)
    requires CompileItem(i, count).Some? && ItemDescribes(i, w)
    ensures Accepts(CompileItem(i, count).value.0, w)
    decreases i, 1
  {
    match i
    case CharacterItem(c) => CharacterLanguage(c, count, w);
    case GroupItem(g) => ExpressionSound(g.content, count, w);
  }

  /** Every concatenation of strings the item describes is accepted by `zeroOrMore` of its graph. */
  lemma RepeatsSound(i: Item, count: nat, w: string)
    requires CompileItem(i, count).Some? && Repeats(i, w)
    ensures var (x, afterX) := CompileItem(i, count).value;
      Accepts(ZeroOrMore(x, afterX).0, w)
    decreases i, 2
  {
    var (x, afterX) := CompileItem(i, count).value;
    var pieces: seq<string> :| Flatten(pieces) == w && forall k | 0 <= k < |pieces| :: ItemDescribes(i, pieces[k]);
    forall k | 0 <= k < |pieces|
      ensures Accepts(x, pieces[k])
    {
      ItemSound(i, count, pieces[k]);
    }
    ZeroOrMoreLanguage(x, count, afterX, pieces);
  }

  lemma {:induction false} TermSound(t: Term, count: nat, w: string)
    requires CompileTerm(t, count).Some? && TermDescribes(t, w)
    ensures Accepts(CompileTerm(t, count).value.0, w)
    decreases t, 1
  {
    var (x, afterX) := CompileItem(t.item, count).value;
    if t.modifier.None? {
      ItemSound(t.item, count, w);
    } else if t.modifier.value.content == '?' {
      if |w| > 0 {
        ItemSound(t.item, count, w);
      }
      ZeroOrOneLanguage(x, count, afterX, w);
    } else if t.modifier.value.content == '*' {
      RepeatsSound(t.item, count, w);
    } else {
      PlusSound(t, count, w);
    }
  }

  /** `x+`: one string of `x` accepted by the first copy, the rest by `zeroOrMore` of the second. */
  lemma {:induction false} PlusSound(t: Term, count: nat, w: string)
    requires t.modifier.Some? && t.modifier.value.content == '+'
    requires CompileTerm(t, count).Some? && TermDescribes(t, w)
    ensures Accepts(CompileTerm(t, count).value.0, w)
    decreases t, 0
  {
    var (x, afterX) := CompileItem(t.item, count).value;
    var (copy, afterCopy) := CompileItem(t.item, afterX).value;
    var (loop, next) := ZeroOrMore(copy, afterCopy);
    assert CompileTerm(t, count).value.0 == Concat(x, loop);
    var n :| 0 <= n <= |w| && ItemDescribes(t.item, w[..n]) && Repeats(t.item, w[n..]);
    ItemSound(t.item, count, w[..n]);
    RepeatsSound(t.item, afterX, w[n..]);
    Widen(x, count, afterX, next);
    ConcatLanguage(x, loop, count, afterX, next, w[..n], w[n..]);
    Rejoin(w, n);
  }

  lemma {:induction false} ExpressionSound(e: Expression, count: nat, w: string)
    requires CompileExpression(e, count).Some? && ExpressionDescribes(e, w)
    ensures Accepts(CompileExpression(e, count).value.0, w)
    decreases e, 0
  {
    var (first, afterFirst) := CompileTerm(e.term, count).value;
    if e.next.None? {
      TermSound(e.term, count, w);
    } else {
      var (rest, afterRest) := CompileExpression(e.next.value, afterFirst).value;
      Widen(first, count, afterFirst, afterRest);
      if e.term.precedesPipeOperator {
        if TermDescribes(e.term, w) {
          TermSound(e.term, count, w);
        } else {
          ExpressionSound(e.next.value, afterFirst, w);
        }
        EitherLanguage(first, rest, count, afterFirst, afterRest, w);
      } else {
        var n :| 0 <= n <= |w| && TermDescribes(e.term, w[..n]) && ExpressionDescribes(e.next.value, w[n..]);
        TermSound(e.term, count, w[..n]);
        ExpressionSound(e.next.value, afterFirst, w[n..]);
        ConcatLanguage(first, rest, count, afterFirst, afterRest, w[..n], w[n..]);
        Rejoin(w, n);
      }
    }
  }

  /** The graph of a pattern accepts every string the pattern describes. */
  lemma CompileSound(s: Start, w: string)
    requires CompileStart(s).Some? && ExpressionDescribes(s.content.value, w)
    ensures Accepts(CompileStart(s).value, w)
  {
    ExpressionSound(s.content.value, InitialCount, w);
  }

  /**
   * A pattern `parse` accepts compiles, unless it is empty, and its graph
   * accepts every string it describes.
   */
  lemma PatternSound(pattern: string, w: string)
    requires Parse(pattern).Parsed? && Parse(pattern).ast.content.Some?
    ensures CompileStart(Parse(pattern).ast).Some?
    ensures ExpressionDescribes(Parse(pattern).ast.content.value, w) ==> Accepts(CompileStart(Parse(pattern).ast).value, w)
  {
    if ExpressionDescribes(Parse(pattern).ast.content.value, w) {
      CompileSound(Parse(pattern).ast, w);
    }
  }

  // ---------------------------------------------------------- fragments

  /** The graph of a compiled item is a fragment: no rule enters its start or leaves its end. */
  lemma {:induction false} ItemFragment(i: Item, count: nat)
    requires CompileItem(i, count).Some?
    ensures Fragment(CompileItem(i, count).value.0)
    decreases i, 1
  {
    match i
    case CharacterItem(c) => LeafFragments(c.content, count);
    case GroupItem(g) => ExpressionFragment(g.content, count);
  }

  /** The graph of a compiled term is a fragment. */
  lemma {:induction false} TermFragment(t: Term, count: nat)
    requires CompileTerm(t, count).Some?
    ensures Fragment(CompileTerm(t, count).value.0)
    decreases t, 0
  {
    var (x, afterX) := CompileItem(t.item, count).value;
    if t.modifier.None? {
      ItemFragment(t.item, count);
    } else if t.modifier.value.content == '?' {
      ZeroOrOneFragment(x, count, afterX);
    } else if t.modifier.value.content == '*' {
      ZeroOrMoreFragment(x, count, afterX);
    } else {
      var (copy, afterCopy) := CompileItem(t.item, afterX).value;
      var (loop, next) := ZeroOrMore(copy, afterCopy);
      assert CompileTerm(t, count).value.0 == Concat(x, loop);
      ItemFragment(t.item, count);
      ZeroOrMoreFragment(copy, afterX, afterCopy);
      ConcatFragment(x, loop, count, afterX, next);
    }
  }

  /** The graph of a compiled expression is a fragment. */
  lemma {:induction false} ExpressionFragment(e: Expression, count: nat)
    requires CompileExpression(e, count).Some?
    ensures Fragment(CompileExpression(e, count).value.0)
    decreases e, 0
  {
    var (first, afterFirst) := CompileTerm(e.term, count).value;
    TermFragment(e.term, count);
    if e.next.Some? {
      var (rest, afterRest) := CompileExpression(e.next.value, afterFirst).value;
      ExpressionFragment(e.next.value, afterFirst);
      if e.term.precedesPipeOperator {
        EitherFragment(first, rest, count, afterFirst, afterRest);
      } else {
        ConcatFragment(first, rest, count, afterFirst, afterRest);
      }
    }
  }

  /**
   * A term followed by `|` and the rest of the expression: the compiled
   * graph accepts exactly what the term's graph or the rest's graph accepts.
   */
  lemma AlternationUnion(e: Expression, count: nat, w: string)
    requires CompileExpression(e, count).Some? && e.next.Some? && e.term.precedesPipeOperator
    ensures var (first, afterFirst) := CompileTerm(e.term, count).value;
      Accepts(CompileExpression(e, count).value.0, w) <==>
        Accepts(first, w) || Accepts(CompileExpression(e.next.value, afterFirst).value.0, w)
  {
    var (first, afterFirst) := CompileTerm(e.term, count).value;
    var (rest, afterRest) := CompileExpression(e.next.value, afterFirst).value;
    TermFragment(e.term, count);
    ExpressionFragment(e.next.value, afterFirst);
    EitherUnion(first, rest, count, afterFirst, afterRest, w);
  }

  /**
   * A term followed by the rest of the expression without a bar: the compiled
   * graph accepts exactly a string of the term's graph followed by one of the rest's.
   */
  lemma SequenceSplits(e: Expression, count: nat, w: string)
    requires CompileExpression(e, count).Some? && e.next.Some? && !e.term.precedesPipeOperator
    ensures var (first, afterFirst) := CompileTerm(e.term, count).value;
      Accepts(CompileExpression(e, count).value.0, w) <==>
        exists n | 0 <= n <= |w| :: Accepts(first, w[..n]) && Accepts(CompileExpression(e.next.value, afterFirst).value.0, w[n..])
  {
    var (first, afterFirst) := CompileTerm(e.term, count).value;
    var (rest, afterRest) := CompileExpression(e.next.value, afterFirst).value;
    ConcatSplits(first, rest, count, afterFirst, afterRest, w);
  }
}
