/**
 * `astToGraph` of lib/graph.ts: the AST of a pattern compiled, node by node,
 * into a graph with the combinators of lib/evaluator.ts.
 *
 * The source allocates states from a module-level counter; here every
 * function takes the counter's value and returns its new value next to the
 * graph.  A thrown error is `None`; it propagates out of every enclosing call.
 */
module Compiler {
  import opened Options
  import opened Parser
  import opened Automaton

  /** A graph within a counter range is within every range that contains it. */
  lemma Widen(g: Graph, lo: nat, mid: nat, hi: nat)
    requires Within(g, lo, mid) && mid <= hi
    ensures Within(g, lo, hi)
  {
  }

  // ------------------------------------------------------ the rule counts

  /**
   * How many rules the graph of each node has: one per character, one more
   * per concatenation, two per alternation, three per `?`, four per `*`, and
   * for `+` two copies of the item plus five.
   */
  function ItemRules(i: Item): nat
    decreases i, 1
  {
    match i
    case CharacterItem(_) => 1
    case GroupItem(g) => ExpressionRules(g.content)
  }

  function TermRules(t: Term): nat
    decreases t, 0
  {
    if t.modifier.None? then ItemRules(t.item)
    else if t.modifier.value.content == '?' then ItemRules(t.item) + 3
    else if t.modifier.value.content == '*' then ItemRules(t.item) + 4
    else 2 * ItemRules(t.item) + 5
  }

  function ExpressionRules(e: Expression): nat
    decreases e, 0
  {
    if e.next.None? then TermRules(e.term)
    else if e.term.precedesPipeOperator then TermRules(e.term) + ExpressionRules(e.next.value) + 2
    else TermRules(e.term) + ExpressionRules(e.next.value) + 1
  }

  // ---------------------------------------------------------- the compiler

  /**
   * A character: `.` to `anyCharacter`, the anchors `^` and `$` to `start`
   * and `end`, everything else to `singleCharacter`.  The graph's label is
   * the character itself in every case.
   */
  function CompileCharacter(c: Character, count: nat): (r: (Graph, nat))
    ensures count < r.1 && Within(r.0, count, r.1)
    ensures |r.0.rules| == 1 && r.0.name == c.ToString()
  {
    match c.content
    case '.' => AnyCharacter(count)
    case '^' => StartAnchor(count)
    case '$' => EndAnchor(count)
    case _ => SingleCharacter(c.content, count)
  }

  function CompileItem(i: Item, count: nat): (r: Option<(Graph, nat)>)
    ensures r.Some? ==> count < r.value.1 && Within(r.value.0, count, r.value.1)
    ensures r.Some? ==> |r.value.0.rules| == ItemRules(i)
    ensures ValidItem(i) ==> r.Some?
    decreases i, 1
  {
    match i
    case CharacterItem(c) => Some(CompileCharacter(c, count))
    case GroupItem(g) => CompileGroup(g, count)
  }

  /** A group compiles to the graph of its expression; the parentheses leave no trace. */
  function CompileGroup(g: Group, count: nat): (r: Option<(Graph, nat)>)
    ensures r.Some? ==> count < r.value.1 && Within(r.value.0, count, r.value.1)
    ensures r.Some? ==> |r.value.0.rules| == ExpressionRules(g.content)
    ensures ValidGroup(g) ==> r.Some?
    decreases g, 0
  {
    CompileExpression(g.content, count)
  }

  /**
   * A term: the item's graph, under `zeroOrOne` for `?` and `zeroOrMore` for
   * `*`; for `+` the item is compiled twice, and the first copy is
   * concatenated with `zeroOrMore` of the second.  Any other modifier throws.
   */
  function CompileTerm(t: Term, count: nat): (r: Option<(Graph, nat)>)
    ensures r.Some? ==> count < r.value.1 && Within(r.value.0, count, r.value.1)
    ensures r.Some? ==> |r.value.0.rules| == TermRules(t)
    ensures t.modifier.Some? && !ValidModifier(t.modifier.value) ==> r.None?
    ensures ValidTerm(t) ==> r.Some?
    decreases t, 0
  {
    if t.modifier.None? then
      CompileItem(t.item, count)
    else
      match t.modifier.value.content
      case '?' =>
        (match CompileItem(t.item, count)
         case None => None
         case Some((x, afterX)) => Some(ZeroOrOne(x, afterX)))
      case '*' =>
        (match CompileItem(t.item, count)
         case None => None
         case Some((x, afterX)) => Some(ZeroOrMore(x, afterX)))
      case '+' =>
        (match CompileItem(t.item, count)
         case None => None
         case Some((x, afterX)) =>
           match CompileItem(t.item, afterX)
           case None => None
           case Some((copy, afterCopy)) =>
             var (loop, next) := ZeroOrMore(copy, afterCopy);
             Widen(x, count, afterX, next);
             Some((Concat(x, loop), next)))
      case _ => None
  }

  /**
   * An expression: the term's graph when nothing follows; `either` of the
   * term and the rest when the term was followed by `|`; `concat` otherwise.
   * The alternation thus binds a single term to the rest of the expression.
   */
  function CompileExpression(e: Expression, count: nat): (r: Option<(Graph, nat)>)
    ensures r.Some? ==> count < r.value.1 && Within(r.value.0, count, r.value.1)
    ensures r.Some? ==> |r.value.0.rules| == ExpressionRules(e)
    ensures ValidExpression(e) ==> r.Some?
    decreases e, 0
  {
    match CompileTerm(e.term, count)
    case None => None
    case Some((first, afterFirst)) =>
      if e.next.None? then
        Some((first, afterFirst))
      else
        match CompileExpression(e.next.value, afterFirst)
        case None => None
        case Some((rest, afterRest)) =>
          Widen(first, count, afterFirst, afterRest);
          if e.term.precedesPipeOperator then
            Some((Either(first, rest), afterRest))
          else
            Some((Concat(first, rest), afterRest))
  }

  /**
   * `astToGraph` on the root: the counter is reset and the content compiled;
   * the empty pattern matches no case and throws.
   */
  function CompileStart(s: Start): (r: Option<Graph>)
    ensures r.Some? <==> s.content.Some? && CompileExpression(s.content.value, InitialCount).Some?
    ensures r.Some? ==> Within(r.value, InitialCount, CompileExpression(s.content.value, InitialCount).value.1)
    ensures r.Some? ==> |r.value.rules| == ExpressionRules(s.content.value)
    ensures ValidStart(s) && s.content.Some? ==> r.Some?
  {
    match s.content
    case None => None
    case Some(e) =>
      match CompileExpression(e, InitialCount)
      case None => None
      case Some((g, _)) => Some(g)
  }
}
