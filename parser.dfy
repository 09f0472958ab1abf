/**
 * The recursive-descent pattern parser of lib/parser.ts.
 *
 * Every grammar function maps the remaining token sequence to `None` (the
 * production does not match here, the source's `null`) or to the parsed node
 * and the tokens left after it.  The AST classes become datatypes and their
 * `toString` methods become `ToString` member functions.
 */
module Parser {
  import opened Options

  /** Characters matched literally (lib/parser.ts:23-24). */
  const LiteralChars: string := " " + "abcdefghijklmnopqrstuvwxyz" + "ABCDEFGHIJKLMNOPQRSTUVWXYZ" + "0123456789" + "!"

  /** Characters with a meaning of their own: wildcard and the two anchors. */
  const SpecialChars: string := ".^$"

  const ModifierChars: string := "*+?"

  const PipeChar: char := '|'

  /** The character alphabet by ranges, a definition independent of the strings above. */
  predicate IsPatternChar(c: char) {
    c == ' ' || 'a' <= c <= 'z' || 'A' <= c <= 'Z' || '0' <= c <= '9' || c == '!'
    || c == '.' || c == '^' || c == '$'
  }

  predicate IsModifierChar(c: char) {
    c == '*' || c == '+' || c == '?'
  }

  /** The two definitions of the alphabet agree. */
  lemma PatternCharacters(c: char)
    ensures c in LiteralChars || c in SpecialChars <==> IsPatternChar(c)
  {
    Letters(c, "abcdefghijklmnopqrstuvwxyz", 'a');
    Letters(c, "ABCDEFGHIJKLMNOPQRSTUVWXYZ", 'A');
    Letters(c, "0123456789", '0');
  }

  /** A string of consecutive characters holds exactly the characters of its range. */
  lemma Letters(c: char, run: string, first: char)
    requires |run| > 0 && forall i | 0 <= i < |run| :: run[i] as int == first as int + i
    ensures c in run <==> first <= c && c as int < first as int + |run|
  {
    if first <= c && c as int < first as int + |run| {
      assert run[c as int - first as int] == c;
    }
  }

  // ---------------------------------------------------------------- the AST

  datatype Character = Character(content: char) {
    /** A character prints as itself. */
    function ToString(): (s: string)
      ensures |s| == 1 && s[0] == content
    {
      [content]
    }
  }

  datatype Modifier = Modifier(content: char) {
    /** A modifier prints as itself. */
    function ToString(): (s: string)
      ensures |s| == 1 && s[0] == content
    {
      [content]
    }
  }

  /** An item holds either a character or a parenthesised group. */
  datatype Item = CharacterItem(character: Character) | GroupItem(group: Group) {
    /** A character item prints one character; a group item starts with `(`. */
    function ToString(): (s: string)
      ensures CharacterItem? ==> |s| == 1
      ensures GroupItem? ==> |s| >= 2 && s[0] == '('
      decreases this, 1
    {
      match this
      case CharacterItem(c) => c.ToString()
      case GroupItem(g) => g.ToString()
    }
  }

  datatype Group = Group(content: Expression) {
    /** The inner expression's text between parentheses. */
    function ToString(): (s: string)
      ensures |s| >= 2 && s[0] == '(' && s[|s| - 1] == ')'
      decreases this, 0
    {
      "(" + content.ToString() + ")"
    }
  }

  /**
   * A term: an item, an optional modifier, and whether the term was directly
   * followed by `|` in the pattern.  The flag is not printed.
   */
  datatype Term = Term(item: Item, modifier: Option<Modifier>, precedesPipeOperator: bool) {
    /** The item's text, then one more character exactly when there is a modifier. */
    function ToString(): (s: string)
      ensures |s| == |item.ToString()| + (if modifier.Some? then 1 else 0)
      decreases this, 0
    {
      item.ToString() + (if modifier.Some? then modifier.value.ToString() else "")
    }
  }

  /** A right-nested list of terms. */
  datatype Expression = Expression(term: Term, next: Option<Expression>) {
    function ToString(): string
      decreases this, 0
    {
      term.ToString() + (if next.Some? then next.value.ToString() else "")
    }
  }

  /** The root; `None` content is the empty pattern. */
  datatype Start = Start(content: Option<Expression>) {
    /** Only the empty root prints as the empty string. */
    function ToString(): (s: string)
      ensures s == "" <==> content.None?
    {
      if content.Some? then content.value.ToString() else ""
    }
  }

  // ------------------------------------------- what the parser can produce

  predicate ValidCharacter(c: Character) {
    IsPatternChar(c.content)
  }

  predicate ValidModifier(m: Modifier) {
    m.content in ModifierChars
  }

  predicate ValidItem(i: Item)
    decreases i, 1
  {
    match i
    case CharacterItem(c) => ValidCharacter(c)
    case GroupItem(g) => ValidGroup(g)
  }

  predicate ValidGroup(g: Group)
    decreases g, 0
  {
    ValidExpression(g.content)
  }

  predicate ValidTerm(t: Term)
    decreases t, 0
  {
    ValidItem(t.item) && (t.modifier.Some? ==> ValidModifier(t.modifier.value))
  }

  predicate ValidExpression(e: Expression)
    decreases e, 0
  {
    ValidTerm(e.term) && (e.next.Some? ==> ValidExpression(e.next.value))
  }

  predicate ValidStart(s: Start) {
    s.content.Some? ==> ValidExpression(s.content.value)
  }

  // -------------------------------------------------------- the parsers

  /** `rest` is what is left of `tokens` after consuming some prefix. */
  predicate Suffix(rest: string, tokens: string) {
    |rest| <= |tokens| && rest == tokens[|tokens| - |rest|..]
  }

  /** `rest` is what is left after consuming at least one token of `tokens`. */
  predicate ProperSuffix(rest: string, tokens: string) {
    |rest| < |tokens| && Suffix(rest, tokens)
  }

  lemma DropIsSuffix(tokens: string, k: nat)
    requires k <= |tokens|
    ensures Suffix(tokens[k..], tokens)
  {
  }

  lemma SuffixTransitive(rest: string, middle: string, tokens: string)
    requires Suffix(rest, middle) && Suffix(middle, tokens)
    ensures Suffix(rest, tokens)
  {
    assert rest == tokens[|tokens| - |middle|..][|middle| - |rest|..];
  }

  function ParseCharacter(tokens: string): (r: Option<(Character, string)>)
    ensures r.Some? <==> |tokens| > 0 && IsPatternChar(tokens[0])
    ensures r.Some? ==> r.value.0.ToString() + r.value.1 == tokens && ValidCharacter(r.value.0)
  {
    if |tokens| == 0 then
      None
    else
      PatternCharacters(tokens[0]);
      if tokens[0] in LiteralChars || tokens[0] in SpecialChars then
        Some((Character(tokens[0]), tokens[1..]))
      else
        None
  }

  function ParseModifier(tokens: string): (r: Option<(Modifier, string)>)
    ensures r.Some? <==> |tokens| > 0 && IsModifierChar(tokens[0])
    ensures r.Some? ==> r.value.0.ToString() + r.value.1 == tokens && ValidModifier(r.value.0)
  {
    if |tokens| > 0 && tokens[0] in ModifierChars then
      Some((Modifier(tokens[0]), tokens[1..]))
    else
      None
  }

  function ParseItem(tokens: string): (r: Option<(Item, string)>)
    ensures r.Some? ==> ProperSuffix(r.value.1, tokens) && ValidItem(r.value.0)
    ensures r.Some? ==> (r.value.0.GroupItem? <==> tokens[0] == '(')
    ensures r.None? <==> ParseCharacter(tokens).None? && ParseGroup(tokens).None?
    decreases |tokens|, 1
  {
    match ParseCharacter(tokens)
    case Some((c, rest)) => Some((CharacterItem(c), rest))
    case None =>
      match ParseGroup(tokens)
      case Some((g, rest)) => Some((GroupItem(g), rest))
      case None => None
  }

  function ParseGroup(tokens: string): (r: Option<(Group, string)>)
    ensures r.Some? ==> ProperSuffix(r.value.1, tokens) && ValidGroup(r.value.0)
    ensures r.Some? ==> tokens[0] == '(' && tokens[|tokens| - |r.value.1| - 1] == ')'
    decreases |tokens|, 0
  {
    if |tokens| > 0 && tokens[0] == '(' then
      DropIsSuffix(tokens, 1);
      match ParseExpression(tokens[1..])
      case Some((e, afterExpression)) =>
        if |afterExpression| > 0 && afterExpression[0] == ')' then
          SuffixTransitive(afterExpression, tokens[1..], tokens);
          DropIsSuffix(afterExpression, 1);
          SuffixTransitive(afterExpression[1..], afterExpression, tokens);
          Some((Group(e), afterExpression[1..]))
        else
          None
      case None => None
    else
      None
  }

  function ParseTerm(tokens: string): (r: Option<(Term, string)>)
    ensures r.Some? <==> ParseItem(tokens).Some?
    ensures r.Some? ==> ProperSuffix(r.value.1, tokens) && ValidTerm(r.value.0)
    ensures r.Some? ==> (r.value.0.precedesPipeOperator <==> tokens[|tokens| - |r.value.1| - 1] == PipeChar)
    ensures r.Some? && !r.value.0.precedesPipeOperator ==> |r.value.1| == 0 || r.value.1[0] != PipeChar
    decreases |tokens|, 2
  {
    match ParseItem(tokens)
    case None => None
    case Some((item, afterItem)) =>
      match ParseModifier(afterItem)
      case Some((m, afterModifier)) =>
        DropIsSuffix(afterItem, 1);
        SuffixTransitive(afterModifier, afterItem, tokens);
        if |afterModifier| > 0 && afterModifier[0] == PipeChar then
          DropIsSuffix(afterModifier, 1);
          SuffixTransitive(afterModifier[1..], afterModifier, tokens);
          Some((Term(item, Some(m), true), afterModifier[1..]))
        else
          Some((Term(item, Some(m), false), afterModifier))
      case None =>
        if |afterItem| > 0 && afterItem[0] == PipeChar then
          DropIsSuffix(afterItem, 1);
          SuffixTransitive(afterItem[1..], afterItem, tokens);
          Some((Term(item, None, true), afterItem[1..]))
        else
          Some((Term(item, None, false), afterItem))
  }

  function ParseExpression(tokens: string): (r: Option<(Expression, string)>)
    ensures r.Some? <==> ParseTerm(tokens).Some?
    ensures r.Some? ==> ProperSuffix(r.value.1, tokens) && ValidExpression(r.value.0)
    ensures r.Some? ==> ParseTerm(r.value.1).None?
    decreases |tokens|, 3
  {
    match ParseTerm(tokens)
    case None => None
    case Some((t, afterTerm)) =>
      match ParseExpression(afterTerm)
      case Some((e, rest)) =>
        SuffixTransitive(rest, afterTerm, tokens);
        Some((Expression(t, Some(e)), rest))
      case None => Some((Expression(t, None), afterTerm))
  }

  function ParseStart(tokens: string): (r: Option<(Start, string)>)
    ensures r.Some? && ValidStart(r.value.0)
    ensures r.value.0.content.None? <==> ParseTerm(tokens).None?
    ensures r.value.0.content.None? ==> r.value.1 == tokens
    ensures r.value.0.content.Some? ==> ProperSuffix(r.value.1, tokens)
    ensures ParseTerm(r.value.1).None?
  {
    match ParseExpression(tokens)
    case Some((e, afterExpression)) => Some((Start(Some(e)), afterExpression))
    case None => Some((Start(None), tokens))
  }

  /**
   * The outcome of `parse`: the tree, the `null` return (never produced), or the
   * exception thrown when tokens are left over, with the parsed prefix and the rest.
   */
  datatype ParseOutcome = Parsed(ast: Start) | Null | Thrown(parsed: string, notParsed: string)

  function Parse(tokens: string): (r: ParseOutcome)
    ensures !r.Null?
    ensures r.Thrown? <==> |ParseStart(tokens).value.1| > 0
    ensures r.Parsed? ==> r.ast == ParseStart(tokens).value.0 && ValidStart(r.ast)
    ensures r.Thrown? ==> r.parsed + r.notParsed == tokens && |r.notParsed| > 0 && ParseTerm(r.notParsed).None?
    ensures r.Thrown? ==> r.notParsed == ParseStart(tokens).value.1
  {
    match ParseStart(tokens)
    case Some((parsed, afterParsed)) =>
      if |afterParsed| > 0 then
        assert afterParsed == tokens[|tokens| - |afterParsed|..];
        Thrown(tokens[..|tokens| - |afterParsed|], afterParsed)
      else
        Parsed(parsed)
    case None => Null
  }
}
