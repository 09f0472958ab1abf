# A verified model of a regex visualiser's engine

The system turns a small regular-expression language into a graph of states
and runs that graph on an input string. It records every step so that a user
interface can animate the run. The project models and proves three parts of it.

- **The parser** (`lib/parser.ts`) is a recursive-descent parser over the token string.
  - Its grammar is start, expression, term, item, group, character and modifier.
  - Its alphabet is space, `a-z`, `A-Z`, `0-9`, `!`, `.`, `^` and `$`.
  - Its modifiers are `*`, `+` and `?`.
  - A term followed by `|` is flagged `precedesPipeOperator`.
  - `parse` returns the tree, or throws with the parsed and unparsed parts of the pattern.
- **The evaluator** (`lib/evaluator.ts`) builds graphs from state numbers taken from a global counter.
  - The leaf builders are `singleCharacter`, `anyCharacter`, `start` and `end`.
  - The combinators are `zeroOrOne`, `zeroOrMore`, `concat` and `either`.
  - The `Evaluator` class matches an input: it follows epsilon rules and records each set of fired rules and each set of active states in `steps`.
- **The compiler** `astToGraph` (`lib/graph.ts`) turns a tree into a graph.
  - `x+` becomes `x` followed by `zeroOrMore` of a second copy of `x`.
  - `x|y` joins the term before the bar with the whole rest of the expression.

Dafny modules:

- `Parser` is the parser as total functions on `string`. Each function returns `None` where the source returns `null`.
- `ParserProperties` states what the parser consumes, that printing a tree gives back its pattern, and that parsing the printed tree gives back the same tree.
- `Automaton` holds the graph datatypes and the builders. The counter is a `nat` that is passed in and returned.
- `Acceptance` defines what `match` computes:
  - the epsilon closure, as the least set closed under epsilon rules;
  - one step on a character;
  - the run over a whole string;
  - acceptance.
  It also gives a way to prove that a string is rejected.
- `Constructions` states what each builder's graph accepts.
- `Composition` proves exactly what `concat` and `either` accept.
  - `concat(L, R)` accepts exactly the strings that split into a string of L followed by one of R.
  - A fragment is a graph that no rule enters at its start and no rule leaves at its end, epsilon self-loops apart. Every builder keeps this shape.
  - On fragments, `either(L, R)` accepts exactly what L or R accepts. Without the fragment shape it can accept more.
- `Engine` models the `Evaluator` class as a Dafny class. Its `Match` method is proved to return exactly `Accepts` and to record exactly `Trace`.
- `Compiler` and `CompilerProperties` model `astToGraph`. They prove that it compiles every valid tree, and that the graph accepts every string the tree describes.
- `ParserExamples`, `EvaluatorExamples` and `GraphExamples` hold the patterns and strings from the test files, proved on the model.

## Model

| member | source | states |
|---|---|---|
| Parser.PatternCharacters | lib/parser.ts:23-30 | The alphabet is space, letters, digits, `!`, `.`, `^` and `$`, with the two listings agreeing in both directions |
| Parser.ParseCharacter | lib/parser.ts:44-53 | Succeeds iff the first token is in the alphabet; it then consumes exactly that one token and yields a valid character |
| Parser.ParseModifier | lib/parser.ts:67-73 | Succeeds iff the first token is `*`, `+` or `?`; it then consumes exactly that one token |
| Parser.ParseItem | lib/parser.ts:87-99 | Fails iff both the character and the group parser fail; on success it consumes at least one token, and the item is a group iff the first token is `(` |
| Parser.ParseGroup | lib/parser.ts:113-130 | On success the consumed text opens with `(` and closes with `)`, and the group is valid |
| Parser.ParseTerm | lib/parser.ts:158-188 | Succeeds iff an item parses; the term is flagged as preceding a pipe iff it consumed a trailing `\|`; an unflagged term never leaves a `\|` next |
| Parser.ParseExpression | lib/parser.ts:210-226 | Succeeds iff a term parses; it consumes terms greedily, so no term can start what is left |
| Parser.ParseStart | lib/parser.ts:240-249 | Never fails; the root is empty iff no term parses, in which case nothing is consumed; no term can start what is left |
| Parser.Parse | lib/parser.ts:251-269 | Never returns `null`; it throws iff tokens remain, and then the parsed part followed by the unparsed part is the whole pattern, and the unparsed part is not empty |
| Parser.Character.ToString | lib/parser.ts:39-41 | A character prints as that one character |
| Parser.Modifier.ToString | lib/parser.ts:62-64 | A modifier prints as that one character |
| Parser.Item.ToString | lib/parser.ts:82-84 | A character item prints one character; a group item prints its group, which starts with `(` |
| Parser.Group.ToString | lib/parser.ts:108-110 | A group prints its expression between `(` and `)` |
| Parser.Term.ToString | lib/parser.ts:147-155 | A term prints its item, then one more character exactly when it has a modifier; the pipe flag is not printed |
| Parser.Start.ToString | lib/parser.ts:235-237 | The root prints as the empty string exactly when it holds no expression |
| ParserProperties.ItemPrintsConsumed | lib/parser.ts:75-99 | An item's text is exactly the tokens it consumed, apart from `\|` |
| ParserProperties.GroupPrintsConsumed | lib/parser.ts:101-130 | A group's text is exactly the tokens it consumed, apart from `\|` |
| ParserProperties.TermPrintsConsumed | lib/parser.ts:132-188 | A term's text is exactly the tokens it consumed, apart from `\|` |
| ParserProperties.ExpressionPrintsConsumed | lib/parser.ts:190-226 | An expression's text is exactly the tokens it consumed, apart from `\|` |
| ParserProperties.ExpressionPrintsTermFirst | lib/parser.ts:199-207 | An expression's text starts with its first term's text and is never empty |
| ParserProperties.PrintParsed | lib/parser.ts:228-269 | The text of a parsed tree is the pattern with its `\|` removed, and is the pattern itself when it has no `\|` |
| ParserProperties.ExpressionRoundTrip | lib/parser.ts:199-226 | A pipe-free expression parsed from a string prints back as the consumed prefix |
| ParserProperties.ItemReparses | lib/parser.ts:87-99 | A valid pipe-free item followed by text that cannot extend it parses back to itself |
| ParserProperties.TermReparses | lib/parser.ts:158-188 | A valid pipe-free term followed by text that cannot extend it parses back to itself |
| ParserProperties.ExpressionReparses | lib/parser.ts:210-226 | A valid pipe-free expression followed by text no term can start parses back to itself |
| ParserProperties.PrintThenParse | lib/parser.ts:228-269 | Parsing the text of a valid pipe-free tree gives that tree back |
| Automaton.Admits | lib/evaluator.ts:6-18 | `EPSILON` admits no character, `matchEqual(c)` exactly `c`, `matchAny` every character |
| Automaton.SingleCharacter | lib/evaluator.ts:163-170 | Two fresh states and one rule between them matching `c`; the counter advances by two |
| Automaton.AnyCharacter | lib/evaluator.ts:172-177 | Two fresh states and one rule between them matching any character; the counter advances by two |
| Automaton.StartAnchor | lib/evaluator.ts:180-184 | One fresh state that is both start and end, with one epsilon self-loop |
| Automaton.EndAnchor | lib/evaluator.ts:187-191 | One fresh state that is both start and end, with one epsilon self-loop |
| Automaton.ZeroOrOne | lib/evaluator.ts:193-203 | Two fresh states; the subject's rules kept in order, then the three epsilon rules in their order; name suffixed `?` |
| Automaton.ZeroOrMore | lib/evaluator.ts:205-216 | Two fresh states; the subject's rules kept in order, then the four epsilon rules in their order; name suffixed `*` |
| Automaton.Concat | lib/evaluator.ts:218-224 | Left's start and right's end; left's rules, then right's, then one epsilon rule joining them; names concatenated |
| Automaton.Either | lib/evaluator.ts:226-233 | Left's start and right's end; both rule lists, then epsilon rules start to start and end to end; names joined by `\|` |
| Acceptance.EpsilonClosure | lib/evaluator.ts:135-148 | The closure holds the state and is closed under followed epsilon rules |
| Acceptance.ClosureLeast | lib/evaluator.ts:135-148 | The closure is contained in every closed set holding the state, so it is the least one |
| Acceptance.Matching | lib/evaluator.ts:150-160 | A rule fires iff it leaves an active state and its matcher admits the character; no epsilon rule fires |
| Acceptance.Step | lib/evaluator.ts:111-130 | The states after one character form a closed set |
| Acceptance.Run | lib/evaluator.ts:111-130 | Reading nothing leaves the active states as they are; after any character the active states are closed under epsilon rules |
| Acceptance.Accepts | lib/evaluator.ts:105-133 | What `match` returns; the empty string is accepted exactly when the end state is reachable from the start by epsilon rules |
| Acceptance.StepMeaning | lib/evaluator.ts:111-130 | A state is active after a character iff it is in the closure of the target of a rule that fired |
| Acceptance.RunAppend | lib/evaluator.ts:105-133 | Reading `u` then `v` is reading `u + v` |
| Acceptance.RunEmpty | lib/evaluator.ts:105-133 | Once no state is active, none ever is again |
| Acceptance.RunGrows | lib/evaluator.ts:105-133 | More rules and more starting states never make fewer states active |
| Acceptance.Embed | lib/evaluator.ts:105-133 | A subgraph embedded in a larger rule list still reaches its end on the strings it accepts |
| Acceptance.RunWithin | lib/evaluator.ts:111-130 | A bound on the active states carries over one step |
| Acceptance.RejectedBy | lib/evaluator.ts:105-133 | A chain of bounds over the input that ends without the end state proves that `match` returns false |
| Constructions.OneRuleRun | lib/evaluator.ts:163-177 | A one-rule graph is at its start before reading, at its end after one admitted character, and nowhere otherwise |
| Constructions.SingleCharacterLanguage | lib/evaluator.ts:163-170 | `singleCharacter(c)` accepts exactly the string `c` |
| Constructions.AnyCharacterLanguage | lib/evaluator.ts:172-177 | `anyCharacter` accepts exactly the one-character strings |
| Constructions.AnchorRun | lib/evaluator.ts:180-191 | An anchor graph is at its state before reading and nowhere after |
| Constructions.StartAnchorLanguage | lib/evaluator.ts:180-184 | `^` accepts exactly the empty string |
| Constructions.EndAnchorLanguage | lib/evaluator.ts:187-191 | `$` accepts exactly the empty string |
| Constructions.ZeroOrOneLanguage | lib/evaluator.ts:193-203 | `zeroOrOne(X)` accepts the empty string and every string X accepts |
| Constructions.ZeroOrMoreLanguage | lib/evaluator.ts:205-216 | `zeroOrMore(X)` accepts every concatenation of strings X accepts |
| Constructions.ConcatLanguage | lib/evaluator.ts:218-224 | `concat(L, R)` accepts `u + v` when L accepts `u` and R accepts `v` (the converse is Composition.ConcatSplits) |
| Constructions.EitherLanguage | lib/evaluator.ts:226-233 | `either(L, R)` accepts every string L or R accepts (the converse is Composition.EitherUnion) |
| Composition.LeafFragments | lib/evaluator.ts:163-191 | The graphs of `singleCharacter`, `anyCharacter`, `start` and `end` are fragments |
| Composition.ZeroOrOneFragment | lib/evaluator.ts:193-203 | `zeroOrOne` of a graph over lower states is a fragment, whatever the subject |
| Composition.ZeroOrMoreFragment | lib/evaluator.ts:205-216 | `zeroOrMore` of a graph over lower states is a fragment, whatever the subject |
| Composition.ConcatFragment | lib/evaluator.ts:218-224 | `concat` of two fragments over successive state ranges is a fragment |
| Composition.EitherFragment | lib/evaluator.ts:226-233 | `either` of two fragments over successive state ranges is a fragment |
| Composition.EndClosure | lib/evaluator.ts:135-148 | In a fragment the epsilon closure of the end state is the end state alone |
| Composition.StartUnreached | lib/evaluator.ts:135-148 | In a fragment the start state is in the epsilon closure of no other state |
| Composition.ConcatRun | lib/evaluator.ts:218-224 | A state active in `concat(L, R)` after `w` is either active in L after `w`, or active in R after the rest of a split of `w` whose first part L accepts |
| Composition.ConcatSplits | lib/evaluator.ts:218-224 | `concat(L, R)` accepts `w` exactly when `w` splits into a string L accepts followed by one R accepts |
| Composition.EitherRun | lib/evaluator.ts:226-233 | On fragments, a state active in `either(L, R)` after `w` is active in L or in R after `w` |
| Composition.EitherUnion | lib/evaluator.ts:226-233 | On fragments, `either(L, R)` accepts exactly the strings that L or R accepts |
| Engine.TraceNext | lib/evaluator.ts:111-130 | One more character appends the fired rules and then the new active states to the trace, each only when non-empty |
| Engine.TraceShape | lib/evaluator.ts:105-133 | The trace starts with the initial states, has at most two entries per character, and ends with the final states when any are active |
| Engine.ClosureUnfolds | lib/evaluator.ts:135-148 | The closure of a state is the state plus the closures of the targets of its followed epsilon rules, as the recursion computes it |
| Engine.DeeperCall | lib/evaluator.ts:135-148 | Without epsilon cycles, a recursive call never revisits a state of an enclosing call |
| Engine.Evaluator.constructor | lib/evaluator.ts:101-103 | The evaluator holds the given graph and an empty trace |
| Engine.Evaluator.MatchingRules | lib/evaluator.ts:150-160 | The loop returns the rules that fire on the character from the active states |
| Engine.Evaluator.FollowEpsilons | lib/evaluator.ts:135-148 | The recursion as written returns the epsilon closure when the graph has no epsilon cycle |
| Engine.Evaluator.ResolveEpsilons | lib/evaluator.ts:135-148 | A worklist with a visited set returns the epsilon closure on every graph |
| Engine.Evaluator.Match | lib/evaluator.ts:105-133 | Returns whether the end state is active after the input, and records exactly the trace of fired rules and active states. It uses the corrected closure (ResolveEpsilons), so it returns on epsilon-cyclic graphs such as `(a*)*`, where the source's `match` does not (see Findings) |
| Compiler.CompileCharacter | lib/graph.ts:67-82 | `.`, `^`, `$` and plain characters each become one fresh one-rule graph, named after the character |
| Compiler.CompileItem | lib/graph.ts:65-66 | A valid item always compiles, into fresh states |
| Compiler.CompileGroup | lib/graph.ts:63-64 | A valid group always compiles, into fresh states |
| Compiler.CompileTerm | lib/graph.ts:40-62 | A valid term always compiles; an unknown modifier is the thrown error |
| Compiler.CompileExpression | lib/graph.ts:31-39 | A valid expression always compiles, with one more rule per join |
| Compiler.CompileStart | lib/graph.ts:27-30 | A graph is produced iff the root holds an expression that compiles, which every valid one does |
| CompilerProperties.CharacterLanguage | lib/graph.ts:67-82 | A character's graph accepts exactly the strings it stands for: any one character, the empty string, or itself |
| CompilerProperties.ItemSound | lib/graph.ts:63-66 | An item's graph accepts every string the item describes |
| CompilerProperties.RepeatsSound | lib/graph.ts:46-47 | `zeroOrMore` of an item's graph accepts every repetition of the item's strings |
| CompilerProperties.TermSound | lib/graph.ts:40-62 | A term's graph accepts every string the term describes, for each modifier |
| CompilerProperties.PlusSound | lib/graph.ts:49-53 | `x+` accepts one string of `x` followed by any repetition of them, through the two copies |
| CompilerProperties.ExpressionSound | lib/graph.ts:31-39 | An expression's graph accepts every string it describes: a concatenation, or after a bar either side |
| CompilerProperties.CompileSound | lib/graph.ts:27-30 | The compiled pattern accepts every string the pattern describes |
| CompilerProperties.ItemFragment | lib/graph.ts:63-82 | Every item's graph is a fragment |
| CompilerProperties.TermFragment | lib/graph.ts:40-62 | Every term's graph is a fragment, for each modifier |
| CompilerProperties.ExpressionFragment | lib/graph.ts:31-39 | Every expression's graph is a fragment |
| CompilerProperties.AlternationUnion | lib/graph.ts:33-35 | A term flagged before a bar and the rest of the expression compile to a graph that accepts exactly the union of the two graphs' strings |
| CompilerProperties.SequenceSplits | lib/graph.ts:32-36 | An unflagged term and the rest of the expression compile to a graph that accepts exactly the strings that split between the two |
| CompilerProperties.PatternSound | lib/graph.ts:27-86 | Every non-empty pattern that parses compiles, and accepts the strings it describes |
| ParserExamples.ParseEdges | lib/parser.test.ts:168-179 | The empty pattern parses to an empty root; `&%foo` throws with nothing parsed |
| ParserExamples.AlternationBindsOneTerm | lib/parser.ts:158-188 | In `c\|...` the bar flags only the term before it |
| ParserExamples.ABarParses | lib/parser.ts:158-188 | `a\|` parses to one term flagged before a bar, with nothing after it |
| ParserExamples.AParses | lib/parser.ts:158-188 | `a` parses to one unflagged term |
| ParserExamples.HiDotParses | lib/graph.test.ts:36-55 | `hi.` parses to three terms |
| ParserExamples.AbStarOrCParses | lib/graph.test.ts:95-101 | `(ab)*\|c` parses to a starred group flagged before a bar, then `c` |
| ParserExamples.CaretFooParses | lib/graph.test.ts:114-119 | `^foo` parses to four terms |
| ParserExamples.HiStarParses | lib/graph.test.ts:15-34 | `(hi)*` parses to one starred group |
| ParserExamples.StarStarParses | lib/parser.ts:158-188 | `(a*)*` parses to a starred group holding a starred character |
| ParserExamples.AnchoredParses | lib/graph.test.ts:156-159 | `a^b$c` parses to five terms |
| ParserExamples.DotPlusParses | lib/graph.test.ts:73-79 | `.+` parses to one term with modifier `+` |
| GraphExamples.HiDotCompiles | lib/graph.test.ts:36-55 | `hi.` compiles to the graph the test expects, rule for rule |
| GraphExamples.HiDotAccepts | lib/graph.test.ts:62-71 | `hi.` accepts `him` and `hi ` |
| GraphExamples.HiDotRejectsShort | lib/graph.test.ts:62-71 | `hi.` rejects `hi` |
| GraphExamples.HiDotRejectsLong | lib/graph.test.ts:62-71 | `hi.` rejects `hiii` |
| GraphExamples.AbStarOrCCompiles | lib/graph.test.ts:95-101 | `(ab)*\|c` compiles to its graph, rule for rule |
| GraphExamples.AbStarOrCAccepts | lib/graph.test.ts:95-101 | `(ab)*\|c` accepts the empty string, `ab`, `abab` and `c` |
| GraphExamples.AbStarOrCRejects | lib/graph.test.ts:95-101 | `(ab)*\|c` rejects `abc` |
| GraphExamples.CaretFooCompiles | lib/graph.test.ts:114-119 | `^foo` compiles to its graph, rule for rule |
| GraphExamples.CaretFooAccepts | lib/graph.test.ts:114-119 | `^foo` accepts `foo` |
| GraphExamples.CaretFooRejectsSpace | lib/graph.test.ts:114-119 | `^foo` rejects ` foo` |
| GraphExamples.CaretFooRejectsCaret | lib/graph.test.ts:114-119 | `^foo` rejects `^foo` |
| GraphExamples.AbOrCCompiles | lib/graph.ts:31-39 | `ab\|c` compiles as `a(b\|c)`: the `b` and `c` graphs are joined by `either`, then `a` by `concat` |
| GraphExamples.AbOrCRejectsC | lib/graph.ts:31-39 | `ab\|c` rejects `c` |
| GraphExamples.AbOrCAccepts | lib/graph.ts:31-39 | `ab\|c` accepts `ac` |
| GraphExamples.TrailingBarDropped | lib/graph.ts:31-39 | `a\|` and `a` both parse and compile to the same one-rule graph: a bar with nothing after it is dropped |
| GraphExamples.HiStarCompiles | lib/graph.test.ts:15-34 | `(hi)*` compiles to the graph the test expects, rule for rule |
| GraphExamples.StarStarCompiles | lib/graph.ts:46-47 | `(a*)*` compiles to a graph with the epsilon rules 2 to 3 and 3 to 2 |
| GraphExamples.AnchoredAccepts | lib/evaluator.ts:180-191 | `a^b$c` accepts `abc`, because anchors are epsilon nodes |
| GraphExamples.DotPlusDescribes | lib/graph.ts:49-53 | `.+` describes every non-empty string |
| GraphExamples.DotPlusAccepts | lib/graph.test.ts:73-79 | `.+` accepts `h` and `hhh` |
| EvaluatorExamples.HelolLanguage | lib/evaluator.test.ts:121-152 | `(he)*lo*l` accepts any number of `he`, then `l`, any number of `o`, then `l` |
| EvaluatorExamples.HelolAcceptsLl | lib/evaluator.test.ts:133-144 | `(he)*lo*l` accepts `ll` |
| EvaluatorExamples.HelolAcceptsHehell | lib/evaluator.test.ts:133-144 | `(he)*lo*l` accepts `hehell` |
| EvaluatorExamples.HelolRules | lib/evaluator.test.ts:121-131 | The combinators build the 17-rule graph for `(he)*lo*l` with start 4 and end 13 |
| EvaluatorExamples.HelolRejects | lib/evaluator.test.ts:133-144 | `(he)*lo*l` rejects the empty string and `hhell` |
| EvaluatorExamples.HelolMatches | lib/evaluator.test.ts:121-152 | A new evaluator on the graph answers true, true, false, false for `ll`, `hehell`, the empty string and `hhell` |
| EvaluatorExamples.EitherNeedsFragments | lib/evaluator.ts:226-233 | `either` of a graph whose end leads back to its start, and a graph for `b`, accepts `ab`, which neither side accepts |
| EvaluatorExamples.StarStarCycles | lib/evaluator.ts:135-148 | The graph of `(a*)*` has an epsilon cycle, so the recursion as written is outside its precondition |

## Left out

- Constructions.ZeroOrOneLanguage and Constructions.ZeroOrMoreLanguage go one way only: the converse (that the graph accepts nothing else) is not proved.
- Compiler soundness goes one way only. The compiled graph accepts every string its tree describes. The converse is not proved; rejections are proved only for the concrete examples.
- Engine.Evaluator.Match: it follows epsilon rules with the corrected closure (ResolveEpsilons), so it returns on every graph, including `(a*)*`, where the source's `match` does not terminate (see Findings).
- Engine.Evaluator.Match: the trace keeps each snapshot's states and rules as values. It does not keep the order in which states appear inside a snapshot. It also leaves out the string ids and creation times of the source's state and rule objects.
- Engine.Evaluator.constructor: it sets `steps` to the empty trace; the source leaves it unset until the first `match`.
- Anchors are epsilon self-loops, as in the source, and not position tests. So the `a^b$c` test, which expects `abc` to be rejected, disagrees with the code. The model follows the code (GraphExamples.AnchoredAccepts).
- The global state counter and `resetState` are a `nat` that is passed into each builder and returned from it. No shared mutable counter exists in the model.
- The source recognises an epsilon rule by the identity of its matcher function. The model gives each rule a `Kind` tag instead.
- Engine.Evaluator.FollowEpsilons requires the graph to have no epsilon cycle and carries a ghost set of enclosing calls. The recursion as written does not terminate from a state that reaches an epsilon cycle; the precondition asks for the stronger condition on the whole graph, so calls from states that reach no cycle, which the source completes, are outside it.
- Thrown exceptions are `None`, or `Thrown` for `parse`; the error-message text is not modelled.
- The test patterns `a|b`, `(ab)|c`, `(ab)+|c|(foo)`, `bar$`, `^baz$`, `(hi)|^bye.*` and `^0*|1*$` are not proved case by case. Soundness covers their acceptances.
- The `.+` rejection of the empty string and its acceptance of `hi` and `hih` are not proved separately.
- `src/util.ts` and the user interface are not part of this model.

## Findings

| source | as written | input that shows it | evidently intended | confidence | as-written member | corrected member |
|---|---|---|---|---|---|---|
| lib/evaluator.ts:135-148 | `followEpsilons` recurses along epsilon rules without remembering visited states | the pattern `(a*)*`, whose graph has the epsilon rules 2 to 3 and 3 to 2 (GraphExamples.StarStarCompiles, EvaluatorExamples.StarStarCycles) | the closure of a state is computed and the call returns on every graph | not executed | Engine.Evaluator.FollowEpsilons | Engine.Evaluator.ResolveEpsilons |
