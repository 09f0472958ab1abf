/**
 * Properties of the parser of lib/parser.ts: printing a parsed tree gives back
 * the consumed text (with the `|` tokens dropped, since `Term.toString` does
 * not print them), and parsing a printed pipe-free tree gives back the tree.
 */
module ParserProperties {
  import opened Options
  import opened Parser

  /** `s` with every `|` removed. */
  function WithoutPipes(s: string): (r: string)
    ensures |r| <= |s|
  {
    if |s| == 0 then [] else (if s[0] == PipeChar then [] else [s[0]]) + WithoutPipes(s[1..])
  }

  lemma {:induction false} WithoutPipesOfPipeFree(s: string)
    requires PipeChar !in s
    ensures WithoutPipes(s) == s
  {
    if |s| > 0 {
      WithoutPipesOfPipeFree(s[1..]);
    }
  }

  lemma Associative(a: string, b: string, c: string)
    ensures a + (b + c) == (a + b) + c
  {}

  // ---------------------------------------- printing what was parsed

  lemma {:induction false} ItemPrintsConsumed(tokens: string)
    requires ParseItem(tokens).Some?
    ensures WithoutPipes(tokens) == ParseItem(tokens).value.0.ToString() + WithoutPipes(ParseItem(tokens).value.1)
    decreases |tokens|, 1
  {
    if ParseCharacter(tokens).None? {
      GroupPrintsConsumed(tokens);
    }
  }

  lemma {:induction false} GroupPrintsConsumed(tokens: string)
    requires ParseGroup(tokens).Some?
    ensures WithoutPipes(tokens) == ParseGroup(tokens).value.0.ToString() + WithoutPipes(ParseGroup(tokens).value.1)
    decreases |tokens|, 0
  {
    var (e, afterExpression) := ParseExpression(tokens[1..]).value;
    var (g, rest) := ParseGroup(tokens).value;
    assert g == Group(e) && rest == afterExpression[1..];
    ExpressionPrintsConsumed(tokens[1..]);
    assert WithoutPipes(tokens) == "(" + WithoutPipes(tokens[1..]);
    assert WithoutPipes(afterExpression) == ")" + WithoutPipes(rest);
    assert g.ToString() == "(" + e.ToString() + ")";
    Associative("(", e.ToString(), ")" + WithoutPipes(rest));
    Associative("(" + e.ToString(), ")", WithoutPipes(rest));
  }

  /** How `term` assembles its result from `item`, `modifier` and the pipe check. */
  lemma TermShape(tokens: string)
    requires ParseTerm(tokens).Some?
    ensures var (item, afterItem) := ParseItem(tokens).value;
      var m := ParseModifier(afterItem);
      var afterModifier := if m.Some? then m.value.1 else afterItem;
      var pipe := |afterModifier| > 0 && afterModifier[0] == PipeChar;
      ParseTerm(tokens) == Some((Term(item, if m.Some? then Some(m.value.0) else None, pipe),
                                 if pipe then afterModifier[1..] else afterModifier))
  {
  }

  lemma {:induction false} TermPrintsConsumed(tokens: string)
    requires ParseTerm(tokens).Some?
    ensures WithoutPipes(tokens) == ParseTerm(tokens).value.0.ToString() + WithoutPipes(ParseTerm(tokens).value.1)
    decreases |tokens|, 2
  {
    var (item, afterItem) := ParseItem(tokens).value;
    ItemPrintsConsumed(tokens);
    TermShape(tokens);
    var m := ParseModifier(afterItem);
    var afterModifier := if m.Some? then m.value.1 else afterItem;
    var modifierText := if m.Some? then m.value.0.ToString() else "";
    var (t, rest) := ParseTerm(tokens).value;
    assert t.ToString() == item.ToString() + modifierText;
    assert WithoutPipes(afterItem) == modifierText + WithoutPipes(afterModifier);
    assert WithoutPipes(afterModifier) == WithoutPipes(rest) by {
      if |afterModifier| > 0 && afterModifier[0] == PipeChar {
        assert WithoutPipes(afterModifier) == WithoutPipes(afterModifier[1..]);
      }
    }
    Associative(item.ToString(), modifierText, WithoutPipes(rest));
  }

  lemma {:induction false} ExpressionPrintsConsumed(tokens: string)
    requires ParseExpression(tokens).Some?
    ensures WithoutPipes(tokens) == ParseExpression(tokens).value.0.ToString() + WithoutPipes(ParseExpression(tokens).value.1)
    decreases |tokens|, 3
  {
    var (t, afterTerm) := ParseTerm(tokens).value;
    assert WithoutPipes(tokens) == t.ToString() + WithoutPipes(afterTerm) by {
      TermPrintsConsumed(tokens);
    }
    var (e, rest) := ParseExpression(tokens).value;
    if ParseExpression(afterTerm).Some? {
      var (next, afterNext) := ParseExpression(afterTerm).value;
      assert e == Expression(t, Some(next)) && rest == afterNext;
      assert WithoutPipes(afterTerm) == next.ToString() + WithoutPipes(rest) by {
        ExpressionPrintsConsumed(afterTerm);
      }
      PrintsJoined(WithoutPipes(tokens), t, WithoutPipes(afterTerm), next, WithoutPipes(rest));
    } else {
      assert e == Expression(t, None) && rest == afterTerm;
      assert e.ToString() == t.ToString() + "";
    }
  }

  /** A term's text, then the text of the expression after it, then the rest. */
  lemma PrintsJoined(x: string, t: Term, y: string, next: Expression, r: string)
    requires x == t.ToString() + y && y == next.ToString() + r
    ensures x == Expression(t, Some(next)).ToString() + r
  {
    Associative(t.ToString(), next.ToString(), r);
  }

  /** An expression prints its first term's text first, and never prints as the empty string. */
  lemma ExpressionPrintsTermFirst(e: Expression)
    ensures e.term.ToString() <= e.ToString() && |e.ToString()| > 0
  {
    var rest := if e.next.Some? then e.next.value.ToString() else "";
    assert e.ToString() == e.term.ToString() + rest;
  }

  /**
   * `toString` of a parsed pattern is the pattern with its `|` tokens removed;
   * for a pipe-free pattern it is the pattern itself.
   */
  lemma PrintParsed(tokens: string)
    requires Parse(tokens).Parsed?
    ensures Parse(tokens).ast.ToString() == WithoutPipes(tokens)
    ensures PipeChar !in tokens ==> Parse(tokens).ast.ToString() == tokens
  {
    if ParseExpression(tokens).Some? {
      ExpressionPrintsConsumed(tokens);
    }
    if PipeChar !in tokens {
      WithoutPipesOfPipeFree(tokens);
    }
  }

  /** On pipe-free text every successful parse prints back exactly what it consumed. */
  lemma ExpressionRoundTrip(tokens: string)
    requires ParseExpression(tokens).Some? && PipeChar !in tokens
    ensures ParseExpression(tokens).value.0.ToString() + ParseExpression(tokens).value.1 == tokens
  {
    var (e, rest) := ParseExpression(tokens).value;
    ExpressionPrintsConsumed(tokens);
    WithoutPipesOfPipeFree(tokens);
    PipeFreeSuffix(tokens, |tokens| - |rest|);
    WithoutPipesOfPipeFree(rest);
  }

  lemma PipeFreeSuffix(s: string, k: nat)
    requires k <= |s| && PipeChar !in s
    ensures PipeChar !in s[k..]
  {
  }

  // ---------------------------------------- parsing what was printed

  predicate PipeFreeItem(i: Item)
    decreases i, 1
  {
    i.GroupItem? ==> PipeFreeExpression(i.group.content)
  }

  predicate PipeFreeTerm(t: Term)
    decreases t, 0
  {
    !t.precedesPipeOperator && PipeFreeItem(t.item)
  }

  predicate PipeFreeExpression(e: Expression)
    decreases e, 0
  {
    PipeFreeTerm(e.term) && (e.next.Some? ==> PipeFreeExpression(e.next.value))
  }

  /** Text that cannot continue a term: the end of input or a closing parenthesis. */
  predicate EndsTerm(rest: string) {
    |rest| == 0 || rest[0] == ')'
  }

  lemma NothingAfterTerm(rest: string)
    requires EndsTerm(rest)
    ensures ParseTerm(rest).None? && ParseExpression(rest).None?
  {
    assert ParseCharacter(rest).None?;
    assert ParseGroup(rest).None?;
  }

  lemma {:induction false} ItemReparses(i: Item, rest: string)
    requires ValidItem(i) && PipeFreeItem(i)
    ensures ParseItem(i.ToString() + rest) == Some((i, rest))
    decreases i, 1
  {
    match i
    case CharacterItem(c) =>
      assert (i.ToString() + rest)[1..] == rest;
    case GroupItem(g) =>
      assert i.ToString() == "(" + g.content.ToString() + ")";
      Bracketed(g.content.ToString(), rest);
      ExpressionReparses(g.content, ")" + rest);
  }

  /** Where the parser finds the inner text and the rest in a bracketed text. */
  lemma Bracketed(inner: string, rest: string)
    ensures var text := "(" + inner + ")" + rest;
      text[0] == '(' && text[1..] == inner + (")" + rest) && (")" + rest)[1..] == rest
  {
    assert "(" + inner + ")" + rest == "(" + (inner + (")" + rest));
  }

  lemma {:induction false} TermReparses(t: Term, rest: string)
    requires ValidTerm(t) && PipeFreeTerm(t)
    requires |rest| == 0 || (!IsModifierChar(rest[0]) && rest[0] != PipeChar)
    ensures ParseTerm(t.ToString() + rest) == Some((t, rest))
    decreases t, 0
  {
    var afterItem := (if t.modifier.Some? then t.modifier.value.ToString() else "") + rest;
    assert t.ToString() + rest == t.item.ToString() + afterItem;
    ItemReparses(t.item, afterItem);
    if t.modifier.Some? {
      assert afterItem[1..] == rest;
    }
  }

  /** How `expression` assembles its result from a term and the expression after it. */
  lemma ExpressionShape(tokens: string)
    requires ParseTerm(tokens).Some?
    ensures var (t, afterTerm) := ParseTerm(tokens).value;
      var next := ParseExpression(afterTerm);
      ParseExpression(tokens) == if next.Some? then Some((Expression(t, Some(next.value.0)), next.value.1))
                                 else Some((Expression(t, None), afterTerm))
  {
  }

  lemma {:induction false} ExpressionReparses(e: Expression, rest: string)
    requires ValidExpression(e) && PipeFreeExpression(e)
    requires EndsTerm(rest)
    ensures ParseExpression(e.ToString() + rest) == Some((e, rest))
    decreases e, 0
  {
    var nextText := if e.next.Some? then e.next.value.ToString() else "";
    var afterTerm := nextText + rest;
    var text := e.ToString() + rest;
    Associative(e.term.ToString(), nextText, rest);
    assert text == e.term.ToString() + afterTerm;
    if e.next.Some? {
      ExpressionStarts(e.next.value);
      assert afterTerm[0] == nextText[0];
      TermReparses(e.term, afterTerm);
      assert ParseTerm(text) == Some((e.term, afterTerm));
      ExpressionReparses(e.next.value, rest);
      assert ParseExpression(afterTerm) == Some((e.next.value, rest));
      ExpressionShape(text);
    } else {
      assert afterTerm == rest;
      TermReparses(e.term, rest);
      assert ParseTerm(text) == Some((e.term, rest));
      NothingAfterTerm(rest);
      ExpressionShape(text);
    }
  }

  /** A printed item starts with a pattern character or `(`. */
  lemma ItemStarts(i: Item)
    requires ValidItem(i)
    ensures |i.ToString()| > 0 && (IsPatternChar(i.ToString()[0]) || i.ToString()[0] == '(')
  {
    match i
    case CharacterItem(c) =>
      assert i.ToString() == [c.content];
    case GroupItem(g) =>
      assert i.ToString() == "(" + g.content.ToString() + ")";
  }

  /** A printed expression starts with a pattern character or `(`. */
  lemma ExpressionStarts(e: Expression)
    requires ValidExpression(e)
    ensures |e.ToString()| > 0 && (IsPatternChar(e.ToString()[0]) || e.ToString()[0] == '(')
  {
    var itemText := e.term.item.ToString();
    ItemStarts(e.term.item);
    Associative(itemText, if e.term.modifier.Some? then e.term.modifier.value.ToString() else "",
                if e.next.Some? then e.next.value.ToString() else "");
    assert |e.ToString()| >= |itemText| > 0;
    assert e.ToString()[0] == itemText[0];
  }

  /** Parsing the printed form of a valid, pipe-free tree gives back that tree. */
  lemma PrintThenParse(s: Start)
    requires ValidStart(s) && (s.content.Some? ==> PipeFreeExpression(s.content.value))
    ensures Parse(s.ToString()) == Parsed(s)
  {
    if s.content.Some? {
      ExpressionReparses(s.content.value, "");
      assert s.ToString() + "" == s.ToString();
    }
  }
}
