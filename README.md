# A verified model of a small regular-expression engine

The modelled repository turns a pattern into tokens, tokens into a syntax tree, the tree
into a non-deterministic automaton built from four combinators, that automaton into a
deterministic one by the subset construction, and the deterministic one into a smaller
one by table-filling minimisation. A driver resets an automaton, feeds it a word and asks
whether it ended in a final state.

The Dafny project keeps each part in the form the program gives it:

- `scanner.dfy` (module `Scanner`): the scanner loop as a method proved equal to a
  recursive specification, with the scan/spelling round trip and the two error shapes.
- `tree.dfy` (`Tree`): the syntax tree as a datatype, its `children`, `value` and
  rendering, and the words each node matches.
- `parser.dfy` (`Parser`): the counting and scanning loops of the parser as methods
  proved against specification functions, and `parse_node`, `optimize` and `parse` as
  functions. It proves which errors can occur, that parsing keeps the literal characters,
  and two defects (see Findings).
- `grammar.dfy` (`Grammar`): a reference grammar for patterns (expression, term, factor)
  and a spelling of every tree in it; with the repaired unwrapping, `parse_node` inverts the
  spelling, which fixes the precedence and grouping of `|`, concatenation and `*`.
- `nfa.dfy` (`Nfas`): non-deterministic automata as values (starts, finals, a set of
  transition triples), stepping a set of states, paths, acceptance, shifting.
- `transitions.dfy` (`Transitions`): the mutable non-deterministic transition table (a
  class over a set of triples) and the loops that compute successors and the biggest state.
- `abstract.dfy` (`Abstract`): the `map` helper that copies a table through two renamings.
- `ndfa.dfy` and `ndfa_language.dfy` (`Ndfa`, `NdfaLanguage`): the automaton the
  determiniser consumes and its combinators; each combinator method builds exactly the
  automaton of a specification function, and each of those accepts exactly the regular
  operation it stands for.
- `nondetautomata.dfy` (`NonDetAutomata`): the earlier combinators, which accept every
  word they should and some more.
- `ndautomata.dfy` (`NdAutomata`) and `translator.dfy` (`Translator`): the single-start
  automata and the translation of a tree onto them.
- `detautomata.dfy` (`DetAutomata`): the deterministic table and automaton; automata/dfa.py
  repeats both classes and they are modelled once here.
- `dfa.dfy` (`Dfa`): `Mapping`, `group` and `from_ndfa`; the deterministic automaton
  returned accepts exactly the words the non-deterministic one accepts.
- `minify_matrix.dfy` (`MinifyMatrix`) and `minify.dfy` (`DfaMinify`): `minify`, with the
  matrix passes as functions, the loops as methods proved equal to them, the proof that the
  corrected fixpoint marks exactly the pairs some word tells apart, and that the merged
  automaton accepts the same words.
- `util.dfy` (`Util`): the match driver.
- `outcomes.dfy` (`Outcomes`): the exceptions as datatypes, and `Result`/`Option`.

Several members take a flag `corrected`: `false` is the code as written, `true` the
evidently intended behaviour where the two differ (see Findings).

## Model

| member | source | states |
|---|---|---|
| Scanner.ScanFrom | ast/scanner.py:28-46 | a successful scan yields no more tokens than characters and every Special token holds one of `\| * ( )`; a failure is BadEscapedSymbol or UnexpectedEnd |
| Scanner.Scan | ast/scanner.py:20-46 | the loop with its escape flag returns exactly the tokens or the first error of the left-to-right reading |
| Scanner.ScanSpelledOne | ast/scanner.py:29-42 | an escaped `\ ( ) * \|` gives that character as a plain literal, an unescaped metacharacter gives a Special token, any other character gives itself, and scanning goes on after it |
| Scanner.ScanSpelledPrefix | ast/scanner.py:28-42 | tokens come out in input order: scanning the spelling of well-formed tokens followed by more text gives those tokens followed by what the text gives |
| Scanner.ScanUnscan | ast/scanner.py:28-46 | every well-formed token list is the scan of its spelling |
| Scanner.UnscanScanFrom | ast/scanner.py:28-46 | the tokens of a successful scan spell the input, after one pending backslash when the scan started inside an escape |
| Scanner.UnscanScan | ast/scanner.py:28-46 | the tokens of a successful scan spell the input: nothing is lost |
| Scanner.ScanCount | ast/scanner.py:28-46 | the number of tokens is the input length minus the number of escaping backslashes |
| Scanner.BadEscapeReported | ast/scanner.py:29-34 | a backslash before any character outside `\ ( ) * \|` raises BadEscapedSymbol for that character |
| Scanner.TrailingBackslashReported | ast/scanner.py:36-44 | a pattern that ends inside an escape raises UnexpectedEnd |
| Scanner.ScanErrorShape | ast/scanner.py:28-44 | every failure is well-formed text followed by a bad escape or by a trailing backslash: nothing else is rejected |
| Tree.Children | ast/tree.py:11-17 | a leaf has no children, a closure exactly one (its operand), a concatenation and a decision two, left first |
| Tree.TagCollision | ast/tree.py:37-67 | `value()` is `*` exactly for a closure and for the leaf `*`, and likewise for `\|` and `+`: the tag does not tell the kind |
| Tree.Render | ast/tree.py:42-70 | every rendering is non-empty |
| Tree.RenderLength | ast/tree.py:42-70 | a rendering is the leaves plus one character for each `+`, three for each `(\|)` and three for each `()*` |
| Tree.RenderForgetsGrouping | ast/tree.py:46-52 | `(a+b)+c` and `a+(b+c)` render alike, since `l+r` adds no parentheses |
| Tree.ClosureAppend | ast/tree.py:64-70 | two words of a closure's language in a row are again in it |
| Tree.ClosureIdempotent | ast/tree.py:64-70 | a closure of a closure matches exactly what the inner closure matches |
| Tree.ClosureOfConcatenationMisses | ast/tree.py:64-70 | `(a*b)*` does not match `a` |
| Parser.ParenthesisTest | ast/parser.py:13-22 | true exactly when the `(` and `)` Special tokens are equally many; their order is not checked |
| Parser.OrFrom | ast/parser.py:30-39 | the scan from a position finds the first `\|` at parenthesis depth 0 from there, or reports that there is none |
| Parser.TopOr | ast/parser.py:25-39 | the first `\|` at depth 0 of the window, or none when no `\|` is at depth 0 |
| Parser.GetOrOp | ast/parser.py:25-39 | returns (position, True) of the first depth-0 `\|`, and (0, False) exactly when there is none |
| Parser.GroupEnd | ast/parser.py:59-69 | the group scan stops at the first prefix whose depth is back to 0, or at the end |
| Parser.GroupClose | ast/parser.py:58-69 | a first operand that opens with `(` ends at the first later prefix of depth 0, or at the end of the window |
| Parser.GroupScan | ast/parser.py:58-69 | the counting loop finds that position |
| Parser.SkipStars | ast/parser.py:73-78 | the operand is extended over every following `*` and stops at the first other token |
| Parser.StarScan | ast/parser.py:73-78 | the for-else loop finds that position |
| Parser.OpenCount | ast/parser.py:80-83 | the counted level is the number of `(` Special tokens |
| Parser.NextOp | ast/parser.py:42-94 | the loops return exactly the split or the error of the `next_op` specification as written |
| Parser.NextOpSplits | ast/parser.py:42-94 | an empty window raises EmptySubExpression and the only other error is Expression; a leaf is a single literal; operands are shorter than the window; the literals are shared out between the operands in order, except that a star split of an unclosed group drops one |
| Parser.StarLeft | ast/parser.py:88-90 | dropping the last token of a window the starred operand covers keeps its literals, unless what remains is an unclosed group |
| Parser.ParseNode | ast/parser.py:97-110 | a tree comes only from a non-empty window; the errors are EmptySubExpression and Expression |
| Parser.UnclosedFails | ast/parser.py:57-90 | a window whose opening parenthesis never closes is rejected with Expression |
| Parser.ParseKeepsLiterals | ast/parser.py:97-110 | the leaves of the tree are the literal characters of the window, in order |
| Parser.SameSplitSameParse | ast/parser.py:97-110 | `parse_node` depends only on the answer of `next_op` |
| Parser.OptimizeNode | ast/parser.py:113-124 | keeps the leaves; returns a root that is not a closure unchanged, and a closure whose child's tag is not `*` unchanged; a closure whose child's tag is `*` becomes the optimised child; a closure it returns has a child whose tag is not `*` |
| Parser.OptimizeNodeKeepsLanguage | ast/parser.py:113-124 | when no leaf is the letter `*`, the optimisation as written matches exactly the words the tree matched |
| Parser.OptimizeClosures | ast/parser.py:113-124 | the repaired optimisation keeps the leaves, returns non-closures unchanged and leaves no closure directly under a closure at the root |
| Parser.OptimizeClosuresKeepsLanguage | ast/parser.py:113-124 | the repaired optimisation matches exactly the words the tree matched |
| Parser.Optimize | ast/parser.py:127-129 | the optimised tree has the same leaves |
| Parser.Parse | ast/parser.py:132-139 | ParenthesisError exactly when the scan succeeds and the counts of `(` and `)` differ, checked before any tree is built; scanner errors pass through unchanged |
| Parser.ParseLiterals | ast/parser.py:132-139 | the leaves of a parsed tree are the literal characters of the pattern, escapes resolved, in order |
| Parser.GroupingUnwraps | ast/parser.py:85-86 | with the repaired unwrapping, a balanced window in a matching pair of parentheses splits like the window itself |
| Parser.GroupingTransparent | ast/parser.py:85-86 | with the repaired unwrapping, parentheses around a balanced window change neither the split nor the tree |
| Parser.SingleParenthesesSplit | ast/parser.py:80-86 | `(a)` is unwrapped to `a` |
| Parser.SingleParenthesesParsed | ast/parser.py:97-108 | `(a)` parses to the leaf `a` |
| Parser.DoubleParenthesesSplit | ast/parser.py:57-90 | as written, `((a))` is split as a closure over `((a)`, an unclosed group |
| Parser.StarSplitFails | ast/parser.py:105-106 | a closure split fails with the error of its operand |
| Parser.DoubleParenthesesRejected | ast/parser.py:80-90 | as written, `(a)` parses but `((a))` raises ExpressionError |
| Parser.DoubleParenthesesAccepted | ast/parser.py:85-86 | with the repaired unwrapping, `((a))` parses to the leaf `a` |
| Parser.EscapedStarClosureLost | ast/parser.py:113-124 | as written, `\**` parses to the leaf `*`; repaired, to the closure of `*`, which matches the empty word while the leaf does not |
| Parser.LeadingStarRejected | ast/parser.py:45-55 | `*\|a` raises the generic ExpressionError, from the one-token window `*` |
| Parser.EmptyPatternRejected | ast/parser.py:45-46 | the empty pattern raises EmptySubExpressionError, under either rule |
| Grammar.DecisionSplits | ast/parser.py:53-55 | `next_op` splits a spelled decision at its own `\|`: the left side spelled as a term, the right as an expression |
| Grammar.ConcatenationSplits | ast/parser.py:57-94 | `next_op` splits a spelled concatenation after its first factor, stars included, with the rest as the right operand |
| Grammar.ClosureSplits | ast/parser.py:73-90 | `next_op` splits a spelled closure before its last star, with the starred factor as the operand |
| Grammar.ParseSpelling | ast/parser.py:42-110 | with the repaired unwrapping, `parse_node` of the spelling of any tree at any grammar level (expression, term, factor) gives that tree back: `\|` binds loosest and groups to the right, concatenation next, `*` tightest, parentheses override |
| Grammar.ParseOfSpelling | ast/parser.py:132-139 | `parse` of the text of any tree's spelling gives that tree with its root closure chain collapsed |
| Grammar.OrGroupsRight | ast/parser.py:53-55 | under either rule, `a\|b\|c` parses to a decision whose right side is the decision of `b` and `c` |
| Grammar.ConcatenationBindsTighter | ast/parser.py:53-55 | under either rule, `ab\|c` parses to the decision of the concatenation `ab` and `c` |
| Grammar.ParenthesesOverride | ast/parser.py:57-94 | under either rule, `a(b\|c)` parses to the concatenation of `a` and the decision of `b` and `c` |
| Grammar.StarBindsTighter | ast/parser.py:73-94 | under either rule, `ab*` parses to the concatenation of `a` and the closure of `b` |
| Grammar.UngroupedSpelling | ast/parser.py:97-110 | a tree whose spelling holds no `(` parses back to itself under either rule |
| Grammar.LetterParses | ast/parser.py:47-49 | a one-letter window parses to that letter under either rule |
| Grammar.ConcatenationOfParts | ast/parser.py:101-102 | a concatenation split parses to the concatenation of its operands' trees when both parse |
| Grammar.ConcatenationAt | ast/parser.py:88-94 | a window with no depth-0 `\|` that is not one group splits as a concatenation where its first operand and its stars end, when a token other than `\|` follows |
| Grammar.UnwrapAsWritten | ast/parser.py:80-86 | as written, parentheses around a balanced window holding no `(` are dropped, and the window splits like its inside |
| Grammar.WrappedDecisionAsWritten | ast/parser.py:80-86 | as written, `(b\|c)` parses to the decision of `b` and `c` |
| Grammar.LetterThenGroupSplits | ast/parser.py:57-94 | as written, `a(b\|c)` splits after `a` as a concatenation with the group as right operand |
| Grammar.LetterThenGroupAsWritten | ast/parser.py:97-104 | as written, `a(b\|c)` parses to the concatenation of `a` and the decision of `b` and `c` |
| Grammar.TopOrDecides | ast/parser.py:53-55 | a window with a `\|` at depth 0 parses, under either rule, exactly when both sides of the first such `\|` parse, to their decision |
| Grammar.SplitTokens | ast/parser.py:42-94 | the operands `next_op` returns hold only tokens of the window |
| Grammar.NoGroupSameParse | ast/parser.py:85-86 | a window without `(` parses to the same tree, or fails the same way, under the code as written and the repaired unwrapping |
| Grammar.StarRunCollapses | ast/parser.py:113-124 | a chain of closures is spelled as one factor followed by a star run, and both optimisations collapse it to one closure (the one as written when the factor's tag is not `*`) |
| Grammar.ParseStarRun | ast/parser.py:73-78 | with the repaired rules, a factor followed by any run of stars parses to the single closure of that factor |
| Grammar.LetterStarsParse | ast/parser.py:132-139 | `a` followed by any run of stars parses, under either rule, to the closure of `a` |
| Grammar.DoubleStarAsOne | ast/parser.py:132-139 | `a**` and `a*` parse to the same tree, the closure of `a`, under either rule |
| Nfas.Biggest | automata/ndfa.py:101-117 | the biggest state is at least 1 and at least every state of I, F and T |
| Nfas.MaxOf | automata/ndfa.py:101-117 | the maximum of a non-empty set is in it and bounds it |
| Nfas.Step | automata/ndfa.py:125-135 | the successors on a symbol are exactly the ends of the transitions from a current state on it |
| Nfas.StepUnion | automata/ndfa.py:62-67 | the successors in a union of tables are the union of the successors |
| Nfas.RunAppend | automata/ndfa.py:119-138 | reading `u` and then `v` is reading `u + v` |
| Nfas.RunPath | automata/ndfa.py:119-138 | the set of current states after a word is the set of ends of the paths spelling it from a state of the start set |
| Nfas.RunAccepts | automata/ndfa.py:140-148 | after reset and a `put` per symbol, the current states meet F exactly when a path from a start to a final spells the word |
| Nfas.RunEmpty | automata/ndfa.py:136-138 | once no state is current none ever is again |
| Nfas.AcceptsEmpty | automata/ndfa.py:140-148 | the empty word is accepted exactly when a start is final |
| Nfas.ShiftPath | automata/ndfa.py:150-170 | shifting every state by `n` keeps the paths, shifted |
| Nfas.ShiftAccepts | automata/ndfa.py:150-170 | a shifted automaton accepts the same words |
| Nfas.ShiftAbove | automata/ndfa.py:150-170 | every state of an automaton shifted by `n` is at least `n` |
| Transitions.NonDetTransitions.constructor | automata/ndfa.py:11-16 | a table over the given transitions |
| Transitions.NonDetTransitions.Add | automata/ndfa.py:31-40 | adds exactly the one transition and changes nothing else |
| Transitions.NonDetTransitions.GetEndStates | automata/ndfa.py:42-48 | KeyError exactly when the state has no transition on the symbol; otherwise exactly its ends |
| Transitions.NonDetTransitions.Copy | automata/ndfa.py:69-74 | a fresh table with exactly the same transitions |
| Transitions.NonDetTransitions.Union | automata/ndfa.py:62-67 | a fresh table with exactly the transitions of both, the inputs unchanged |
| Transitions.AddThenLookup | automata/ndfa.py:31-48 | after `add(f, c, t)`, `t` is among the ends of `f` on `c` and every other lookup is unchanged |
| Transitions.Successors | automata/ndfa.py:125-133 | the loop over the current states, skipping the KeyErrors, collects exactly their successors |
| Transitions.MaxOverMoves | automata/ndfa.py:102-107 | the loop over T ends with a bound of every endpoint that is the start value or an endpoint |
| Transitions.MaxOverStates | automata/ndfa.py:109-115 | the loops over I and F end with a bound of every state that is the start value or one of them |
| Transitions.BiggestIs | automata/ndfa.py:101-117 | the value the three loops compute is the biggest state |
| Transitions.ShiftSet | automata/ndfa.py:162-168 | the loop adds `n` to every state of the set |
| Abstract.Map | automata/abstract.py:4-9 | raises when source and destination are the same table; otherwise the destination gains exactly the renamed transitions and keeps its own, and the source is unchanged; the copies at automaton/abstract.py:4-13, automata/nondetautomata.py:60-71 and automata/ndautomata.py:42-55 are the same loop and are modelled by this member |
| Abstract.RenamedByShift | automata/ndfa.py:157-159 | copying through `x + n` on both ends is shifting the transitions by `n` |
| Ndfa.Size | automata/ndfa.py:172-174 | `len` is at least 2 and above every state |
| Ndfa.NDFA.constructor | automata/ndfa.py:89-117 | stores I, F and T, starts stepping at I, and computes the biggest state |
| Ndfa.NDFA.Put | automata/ndfa.py:119-138 | the current states become exactly the successors on the symbol; the answer is whether any exist; nothing else changes |
| Ndfa.NDFA.Reset | automata/ndfa.py:140-143 | the current states become I |
| Ndfa.NDFA.IsFinalState | automata/ndfa.py:145-148 | true exactly when a current state is final |
| Ndfa.NDFA.Len | automata/ndfa.py:172-174 | the biggest state plus one, above every state |
| Ndfa.NDFA.Copy | automata/ndfa.py:185-188 | a fresh automaton with the same I, F and T, stepping from I |
| Ndfa.Shifting | automata/ndfa.py:150-170 | a fresh automaton with `n` added to every state of I, F and T |
| Ndfa.ByValue | automata/ndfa.py:190-194 | I = {0}, F = {1} and the one transition `0 -s-> 1` |
| Ndfa.AddToEach | automata/ndfa.py:227-228 | adds a transition to each start of the second automaton |
| Ndfa.AddBridges | automata/ndfa.py:224-228 | a fresh table of every transition into a final of the first automaton, redirected to each start of the second |
| Ndfa.ByConcatenation | automata/ndfa.py:196-232 | builds exactly: the second shifted by `len` of the first; I the first's starts, plus the shifted starts when a start of the first is final; F the shifted finals; T both tables and the bridges |
| Ndfa.ByDecision | automata/ndfa.py:234-247 | builds exactly the union of I, F and T after shifting the second |
| Ndfa.AddHubOut | automata/ndfa.py:260-262 | adds a copy from the hub of each transition that leaves a start |
| Ndfa.AddHubIn | automata/ndfa.py:267-270 | adds a copy into the hub of each transition, new copies included, that enters a final |
| Ndfa.ByClosure | automata/ndfa.py:249-274 | builds exactly: hub `biggest + 1` the only start and only final, with the two kinds of copies |
| NdfaLanguage.MovesBelow | automata/ndfa.py:172-174 | every transition stays below `len` |
| NdfaLanguage.MovesAbove | automata/ndfa.py:150-170 | every transition of an automaton shifted by `n` stays at `n` or above, so the two halves of a combination are disjoint |
| NdfaLanguage.ValueLang | automata/ndfa.py:190-194 | accepts exactly the one-symbol word |
| NdfaLanguage.DecisionLang | automata/ndfa.py:234-247 | accepts exactly the words either operand accepts |
| NdfaLanguage.ConcatShape | automata/ndfa.py:196-232 | the transitions from the upper half are the shifted second automaton's; those inside the lower half are the first's |
| NdfaLanguage.ConcatSound | automata/ndfa.py:196-232 | every accepted word splits into a word of the first and a word of the second |
| NdfaLanguage.ConcatComplete | automata/ndfa.py:196-232 | every such concatenation is accepted |
| NdfaLanguage.ConcatLang | automata/ndfa.py:196-232 | accepts exactly the concatenations of a word of the first and a word of the second |
| NdfaLanguage.ClosureMove | automata/ndfa.py:249-274 | each transition of the closure is an old one, or an old one out of a start or into a final redirected through the hub |
| NdfaLanguage.ClosureComplete | automata/ndfa.py:249-274 | every sequence of non-empty words of the operand leads from the hub back to the hub |
| NdfaLanguage.ClosureSound | automata/ndfa.py:249-274 | every path from the hub to the hub spells such a sequence |
| NdfaLanguage.ClosureLang | automata/ndfa.py:249-274 | accepts exactly the words made of zero or more words of the operand, the empty word included |
| NonDetAutomata.AddAllBridges | automata/nondetautomata.py:234-237 | a fresh table of every transition of the first automaton, whatever its end, redirected to each start of the second |
| NonDetAutomata.ByConcatenation | automata/nondetautomata.py:207-241 | builds exactly: I and F as in the other version, T both tables and those bridges |
| NonDetAutomata.ClosureStates | automata/nondetautomata.py:258-275 | the closure has the same states and the same biggest state as its operand |
| NonDetAutomata.ByClosure | automata/nondetautomata.py:258-275 | builds exactly: the copy plus, for each transition into a final, the same transition to each start; F becomes F ∪ I |
| NonDetAutomata.ConcatenationComplete | automata/nondetautomata.py:207-241 | every concatenation of a word of each operand is accepted |
| NonDetAutomata.ClosureAsBridge | automata/nondetautomata.py:268-271 | the loops of the closure are the bridges of a concatenation of the operand before its own starts |
| NonDetAutomata.ClosureComplete | automata/nondetautomata.py:258-275 | with at least one start, every sequence of words of the operand is accepted |
| NonDetAutomata.StrayShifted | automata/nondetautomata.py:234-237 | one transition out of a start of the first and one accepting transition of the second give an accepted two-symbol word, whether or not the first transition reaches a final |
| NonDetAutomata.ConcatenationAcceptsStray | automata/nondetautomata.py:234-237 | the concatenation of `ab` and `c` accepts `ac`, which the tree `ab+c` does not match |
| NonDetAutomata.ClosureAcceptsStray | automata/nondetautomata.py:258-275 | the closure of `a*b` accepts `a`, which `(a*b)*` does not match |
| NdAutomata.EndpointMax | automata/ndautomata.py:70-78 | `biggest_state` is at least 1 |
| NdAutomata.EndpointMaxBounds | automata/ndautomata.py:70-78 | it bounds every transition endpoint and is 1 or an endpoint; finals do not count |
| NdAutomata.NDAutomata.constructor | automata/ndautomata.py:66-78 | starts in {0}, stores the finals and the table, computes `biggest_state` |
| NdAutomata.NDAutomata.Put | automata/ndautomata.py:80-93 | the current states become exactly the successors; the answer is whether any exist |
| NdAutomata.NDAutomata.Reset | automata/ndautomata.py:95-97 | the current states become {0} |
| NdAutomata.NDAutomata.IsFinalState | automata/ndautomata.py:99-101 | true exactly when a current state is final |
| NdAutomata.ValueAutomata | automata/ndautomata.py:111-115 | finals {1} and the one transition `0 -s-> 1` |
| NdAutomata.EndsIn | automata/ndautomata.py:124-128 | `closed` holds exactly when 0 is a final of the right automaton and some transition of it ends in 0 (the caller checks the first) |
| NdAutomata.AddFromEach | automata/ndautomata.py:139-140 | adds the transition from each final of the left automaton |
| NdAutomata.AddConnections | automata/ndautomata.py:137-140 | a fresh table of each right transition out of 0, shifted, replicated from every left final |
| NdAutomata.AddShifted | automata/ndautomata.py:155-157 | adds every right final plus the shift |
| NdAutomata.ConcatenationTable | automata/ndautomata.py:147-152 | the right table shifted, the connections and the left table |
| NdAutomata.ConcatenationFinals | automata/ndautomata.py:154-162 | the shifted right finals, plus the left finals when `closed` |
| NdAutomata.ConcatenationSpecWith | automata/ndautomata.py:118-164 | the concatenation uses `shift = left.biggest_state`, not one more |
| NdAutomata.ConcatenationAutomata | automata/ndautomata.py:118-164 | resets both operands and builds exactly the concatenation automaton |
| NdAutomata.DecisionTable | automata/ndautomata.py:174-179 | the left table, the right table shifted, and the right transitions out of 0 shifted but still leaving 0 |
| NdAutomata.DecisionFinals | automata/ndautomata.py:181-185 | the left finals and the shifted right finals |
| NdAutomata.DecisionSpecWith | automata/ndautomata.py:167-187 | the decision shifts the right automaton by `left.biggest_state + 1` and shares the start 0 |
| NdAutomata.DecisionAutomata | automata/ndautomata.py:167-187 | resets both operands and builds exactly the decision automaton |
| NdAutomata.DecisionEmptyWord | automata/ndautomata.py:167-187 | the decision accepts the empty word exactly when 0 is a left final: a right final 0 is shifted away |
| NdAutomata.CliniTable | automata/ndautomata.py:195-198 | every operand transition, and a copy ending at 0 of each that ends in an operand final |
| NdAutomata.CliniAutomata | automata/ndautomata.py:190-201 | resets its operand and builds exactly that table with finals {0, `biggest_state`} |
| NdAutomata.RenamedIdentity | automata/ndautomata.py:151-152 | copying through the identity copies the table |
| NdAutomata.RenamedSharedStart | automata/ndautomata.py:177-179 | copying through `0 if x == 0 else x + shift` gives the shared-start transitions |
| NdAutomata.RenamedLooped | automata/ndautomata.py:196 | copying through `0 if x in final else x` on the ends gives the looped transitions |
| Translator.TranslateNode | tranlator/translator.py:5-26 | builds exactly the automaton of the tree: a leaf gives ValueAutomata of its character, `*` CliniAutomata, `\|` DecisionAutomata and `+` ConcatenationAutomata of the translated children; the raising branches cannot be reached |
| Translator.Translate | tranlator/translator.py:29-31 | translates the root |
| Translator.TranslateNdfaLang | tranlator/translator.py:5-26 | the same dispatch onto the combinators of automata/ndfa.py accepts exactly the words the tree matches |
| Translator.DecisionOfLettersBuilt | automata/ndautomata.py:167-187 | `a\|b` becomes finals {1, 3} and the transitions `0-a->1`, `2-b->3`, `0-b->3` |
| Translator.DecisionOfLettersExpected | test.py:18 | the automaton of `a\|b` accepts `a` and `b` and rejects `ab` |
| Translator.ClosureOfLetterBuilt | automata/ndautomata.py:190-201 | `b*` becomes finals {0, 1} and the transitions `0-b->0`, `0-b->1` |
| Translator.ConcatenationWithClosureBuilt | automata/ndautomata.py:118-164 | `ab*` becomes finals {1, 2} and the transitions `0-a->1`, `1-b->1`, `1-b->2` |
| Translator.ConcatenationWithClosureExpected | test.py:19 | the automaton of `ab*` accepts `a`, `ab` and `abb` and rejects `aab` |
| Translator.DecisionWithClosureRejectsEmpty | automata/ndautomata.py:167-187 | `a\|b*` matches the empty word, but its automaton rejects it |
| Translator.ClosureOfConcatenationAcceptsStray | automata/ndautomata.py:190-201 | the automaton of `(a*b)*` accepts `a`, which the tree does not match |
| Util.VerifyExpression | util.py:1-7 | resets, feeds the symbols in order and answers false at the first `put` that finds no move; a word that survives raises AttributeError as written, and the acceptance of the word when corrected; the table and finals are unchanged |
| Util.VerifyDeterministic | util.py:1-7 | the same driver over the deterministic automaton |
| DetAutomata.GraphBiggest | automata/detautomata.py:59-67 | the biggest state is at least 1 and at least every transition endpoint |
| DetAutomata.MaxOverGraph | automata/detautomata.py:59-67 | the loop over the transitions computes it |
| DetAutomata.RunDead | automata/detautomata.py:69-76 | once in the dead state -1, every word leaves it there |
| DetAutomata.RunAppend | automata/detautomata.py:69-76 | reading `u` and then `v` is reading `u + v` |
| DetAutomata.DetTransitions.constructor | automata/detautomata.py:9-10 | a table over the given dictionary |
| DetAutomata.DetTransitions.Add | automata/detautomata.py:20-24 | sets or overwrites the one entry and changes nothing else (repeated at automata/dfa.py:27-32) |
| DetAutomata.DetTransitions.GetEnd | automata/detautomata.py:26-27 | the end of the transition, or KeyError exactly when there is none (repeated at automata/dfa.py:34-39) |
| DetAutomata.DetTransitions.Map | automata/detautomata.py:36-49 | raises when the destination is the table itself; otherwise the destination gains the renamed keys, each holding the renamed end of a transition mapped onto it, keeps its other entries, and the source is unchanged |
| DetAutomata.RenamedFromInjective | automata/detautomata.py:48-49 | with an injective renaming of origins each renamed key holds its own renamed end |
| DetAutomata.DetAutomata.constructor | automata/detautomata.py:55-67 | starts in 0, stores the table and finals, computes the biggest state from the transitions only (repeated at automata/dfa.py:125-138) |
| DetAutomata.DetAutomata.Put | automata/detautomata.py:69-76 | follows the transition, or moves to -1 and answers false when none exists (repeated at automata/dfa.py:140-147) |
| DetAutomata.DetAutomata.Reset | automata/detautomata.py:78-80 | the state becomes 0 (repeated at automata/dfa.py:149-151) |
| DetAutomata.DetAutomata.IsFinalState | automata/detautomata.py:82-84 | true exactly when the state is a final, never in the dead state (repeated at automata/dfa.py:153-155) |
| Dfa.Mapping.constructor | automata/dfa.py:57-60 | no keys yet |
| Dfa.Mapping.Map | automata/dfa.py:62-71 | a known key gets its index and nothing changes; a new key is appended and gets the previous length; indices stay dense and distinct, and `unmap(map(k)) == k` |
| Dfa.Mapping.Unmap | automata/dfa.py:73-75 | the key of a number below the length, otherwise KeyError |
| Dfa.Mapping.Finals | automata/dfa.py:77-83 | exactly the indices whose tag is truthy |
| Dfa.MergedAt | automata/dfa.py:93-98 | merging the ends of one more state for a symbol keeps the union of successors and a tag that is truthy exactly when that union meets F |
| Dfa.GroupSymbol | automata/dfa.py:93-98 | one pass of the inner loop groups its symbol over one more state |
| Dfa.GroupState | automata/dfa.py:90-98 | a state without transitions is skipped; otherwise every one of its symbols is grouped over it |
| Dfa.Group | automata/dfa.py:86-99 | a symbol is present exactly when some state has successors on it; its subset is the union of those successors; its tag is the finals among the successors of one of the states, truthy exactly when the union meets F |
| Dfa.GroupKeyOk | automata/dfa.py:86-99 | every key `group` gives is one of finitely many, tagged truthy exactly when its subset meets F |
| Dfa.AddSuccessor | automata/dfa.py:184-189 | one symbol of the group: the subset numbered, the transition written, the number queued |
| Dfa.AddSuccessors | automata/dfa.py:183-189 | every symbol of the group gets a transition to the number of its subset, pushed on the worklist |
| Dfa.ProcessNext | automata/dfa.py:169-177 | pops the last number of the worklist and skips it when already processed, keeping the worklist invariant; each step processes a new number or shortens the worklist |
| Dfa.ProcessNew | automata/dfa.py:177-189 | a new number is marked processed and its group written and queued |
| Dfa.ProcessedBound | automata/dfa.py:165-177 | the processed numbers are bounded by the number of possible keys, so the worklist loop ends |
| Dfa.StartProgress | automata/dfa.py:161-163 | the start subset `nd.I` is number 0 and the only entry of the worklist |
| Dfa.BuiltClosed | automata/dfa.py:168-192 | once the worklist is empty every number has been processed and has a transition on exactly the symbols its subset moves on |
| Dfa.Tracks | automata/dfa.py:157-195 | from a number, the deterministic run reaches the number of the subset the non-deterministic run reaches, or dies exactly when that subset is empty |
| Dfa.SubsetLanguage | automata/dfa.py:157-195 | the finals `known.finals()` make the deterministic automaton accept exactly the non-deterministic one's words |
| Dfa.FinishedLanguage | automata/dfa.py:190-195 | the same at the end of the worklist loop |
| Dfa.FromNdfa | automata/dfa.py:157-195 | returns an automaton in state 0 whose biggest state is up to date and that accepts exactly the words the non-deterministic automaton accepts |
| MinifyMatrix.SeedShape | automata/dfa.py:208-215 | the seed has a row per state from 1 to the biggest, row `s1 - 1` of length `s1`, and a 1 wherever exactly one of the two states is final |
| MinifyMatrix.SeedMarkedGrows | automata/dfa.py:235-267 | entries only change from 0 to 1, so the seeded 1s stay |
| MinifyMatrix.Mark | automata/dfa.py:257-258 | the cell becomes 1 and no other cell changes |
| MinifyMatrix.ZerosMark | automata/dfa.py:235-267 | each new 1 lowers the number of 0s by one: the measure of the `while changes` loop |
| MinifyMatrix.TriangleCells | automata/dfa.py:102-106 | the iteration visits exactly the cells of the triangle |
| MinifyMatrix.CellVerdict | automata/dfa.py:240-267 | the symbol loop for one cell can only fail with IndexError |
| MinifyMatrix.PassFrom | automata/dfa.py:237-267 | a pass keeps the shape and every 1; it reports a change exactly when a 0 became 1, and no change means the same matrix; its only error is IndexError |
| MinifyMatrix.Fix | automata/dfa.py:235-267 | the passes stop after a pass with no change; the only error is IndexError |
| MinifyMatrix.FixGrows | automata/dfa.py:235-267 | the final matrix has the shape of the seed and keeps its 1s |
| MinifyMatrix.SeedSound | automata/dfa.py:208-215 | each seeded 1 is a pair of states some word tells apart |
| MinifyMatrix.SymbolVerdictSound | automata/dfa.py:240-266 | with the corrected lookup, a symbol marks a cell only for states some word tells apart |
| MinifyMatrix.SymbolVerdictOk | automata/dfa.py:254-256 | the corrected lookup never leaves the matrix |
| MinifyMatrix.CellVerdictOk | automata/dfa.py:240-267 | the corrected symbol loop never fails |
| MinifyMatrix.PassSound | automata/dfa.py:237-267 | a corrected pass never fails and marks only pairs some word tells apart |
| MinifyMatrix.FixSound | automata/dfa.py:235-267 | the corrected loop never fails and every 1 it ends with stands for two states some word tells apart |
| MinifyMatrix.PassStable | automata/dfa.py:237-267 | after a pass with no change, every symbol leaves every 0 cell at 0 |
| MinifyMatrix.FixStable | automata/dfa.py:235-267 | the final matrix is stable in that sense |
| MinifyMatrix.SameStep | automata/dfa.py:240-266 | on a stable matrix two states it does not tell apart both die on a symbol or both move to states it does not tell apart |
| MinifyMatrix.SameObserved | automata/dfa.py:230-234 | on a stable matrix holding the seed, states it does not tell apart behave alike on every word |
| MinifyMatrix.MatrixExact | automata/dfa.py:230-267 | a stable, seeded and sound matrix leaves a 0 exactly for the pairs no word tells apart |
| MinifyMatrix.FixExact | automata/dfa.py:208-267 | with the corrected lookup the loop from the seed never fails, and its matrix has a 0 exactly for the pairs of states no word tells apart |
| MinifyMatrix.ExactEquivalence | automata/dfa.py:269-275 | on such a matrix "not told apart" is transitive, so the equality sets are classes |
| MinifyMatrix.EqSetBounds | automata/dfa.py:112-119 | `equality_set(v, m, s)` contains `s` and only states from `s` up to the biggest |
| MinifyMatrix.EqSetFromBounds | automata/dfa.py:115-118 | its recursion reaches only strictly larger states |
| MinifyMatrix.EqSetClass | automata/dfa.py:112-119 | on an equivalence, `equality_set` of a state is that state and every later state the matrix does not tell from it |
| DfaMinify.SeedMatrix | automata/dfa.py:208-215 | the nested loops build the seed: cell `(s1 - 1, s2)` is 1 exactly when one of `s1`, `s2` is final |
| DfaMinify.Vocabulary | automata/dfa.py:218-220 | every symbol of a transition, and nothing else |
| DfaMinify.IterationOrder | automata/dfa.py:240 | some order of the vocabulary, each symbol once |
| DfaMinify.OrderCovers | automata/dfa.py:218-220 | that order lists the symbol of every transition |
| DfaMinify.CheckCell | automata/dfa.py:240-267 | the symbol loop with its exception counter gives the verdict of the cell |
| DfaMinify.Refine | automata/dfa.py:235-267 | the `while changes` loop returns exactly the fixpoint of the passes, or its IndexError |
| DfaMinify.EqualitySet | automata/dfa.py:112-119 | returns the equality set of the state and adds it, minus the state itself, to `viewed` |
| DfaMinify.EqualitySets | automata/dfa.py:269-275 | non-empty sets of states up to the biggest that together cover every state; on an equivalence they are disjoint classes |
| DfaMinify.AssignMain | automata/dfa.py:292-294 | every state of the set is mapped to the main state, other rules unchanged |
| DfaMinify.TransRules | automata/dfa.py:278-294 | every state of every set gets a rule and only those do; on disjoint sets every state maps into its own set, to 0 when 0 is in it, and all states of a set map alike |
| DfaMinify.RulesOfClasses | automata/dfa.py:278-294 | on classes the rules map every state up to the biggest to a state the matrix does not tell from it, alike for such states, and 0 to 0 |
| DfaMinify.RulesCover | automata/dfa.py:273-294 | the rules hold exactly the states 0 up to the biggest |
| DfaMinify.RewriteTransitions | automata/dfa.py:298-300 | KeyError exactly when a transition has a state without a rule; otherwise a fresh table of every transition with origin and end renamed |
| DfaMinify.RewriteFinals | automata/dfa.py:301-303 | KeyError exactly when a final has no rule; otherwise exactly the renamed finals |
| DfaMinify.ValidBounded | automata/dfa.py:130-138 | every transition endpoint is at most the biggest state |
| DfaMinify.QuotientNext | automata/dfa.py:298-300 | one step of the merged table is one step of the old one, renamed |
| DfaMinify.QuotientRun | automata/dfa.py:298-300 | a run of the merged table from a renamed state is the old run, renamed |
| DfaMinify.QuotientLanguage | automata/dfa.py:269-304 | the merged automaton accepts exactly the old one's words |
| DfaMinify.Merge | automata/dfa.py:269-304 | fails with KeyError exactly when a final is beyond the biggest state; otherwise returns an automaton in state 0, which accepts the old words when the matrix is exact |
| DfaMinify.Minify | automata/dfa.py:197-304 | fails only with IndexError or KeyError, KeyError only for a final beyond the biggest state; fails whenever every order of the vocabulary fails; corrected, it fails exactly for such a final and otherwise accepts exactly the old words |
| DfaMinify.ThreeAsIndexError | automata/dfa.py:254-256 | on the table `0-a->1-a->2-a->3` with final 3, every order of the vocabulary gives IndexError as written, while the corrected lookup reads a cell of the matrix |

## Left out

- The interactive front end, the test script's printing, the package re-exports and the
  exception classes: I/O and plumbing. The five parser errors and the runtime exceptions are
  the datatypes of `Outcomes`.
- The `__str__` methods of the automata and tables and `get_graph`: debug formatting and
  accessors. The renderings of the tree nodes are modelled.
- The `delete` methods of every table: never called, and they do not remove the transition.
- Python's set and dictionary iteration order. Where it matters it is an arbitrary choice:
  which truthy tag `group` keeps, which member `eq_set.pop()` picks, and the order of the
  vocabulary in `minify`, which the proofs quantify over.
- The unresolved `Automata` import of the translator: it is taken to name the classes of
  automata/ndautomata.py, and a second dispatch onto automata/ndfa.py is given too.
- The TypeError branch of the `map` methods in automata/ndautomata.py and
  automata/detautomata.py: the Dafny types make a destination of another class impossible.
- Python's unbounded integers need no wrap-around; states are `nat`, and the dead
  deterministic state -1 is an `int`.
- Tree.Render: its contract states only non-emptiness; RenderLength and
  RenderForgetsGrouping state the rest.
- DfaMinify.Minify: minimality of the result (no two of its states accept the same words)
  is not proved, only that it accepts the same words.
- DfaMinify.TransRules: requires non-empty sets, which `equality_set` always returns (its
  state is in it); on sets that are not disjoint it does not say which main state wins.
- Dfa.Group: the tag of a symbol is proved to be the finality of one of the states, not of
  which one, since that depends on iteration order.
- Translator.TranslateNode: the accepted words of the automata of automata/ndautomata.py
  are not characterised in general (they differ from the tree, see Findings); the cases
  `d(a|b)e*(g|k)` and `a(b|a|c)d*` of the test script are not checked against them.
- Specification and code differ on `*|a`: the code raises the generic ExpressionError from
  the one-token window `*`, not EmptySubExpressionError; the model follows the code.
- Specification and code differ on the empty pattern: the design says it matches only the
  empty word, but the code raises EmptySubExpressionError from the empty window
  (EmptyPatternRejected); the model follows the code.
- Nested closures below the root survive `optimize`, which looks only at the root chain;
  the model follows the code.
- Python's recursion limit: a deeply nested or very long pattern makes the recursive
  `parse_node` or `translate` raise RecursionError; the model's recursion has no depth bound.

## Findings

| source | as written | input that shows it | evidently intended | confidence | as-written member | corrected member |
|---|---|---|---|---|---|---|
| ast/parser.py:118-120 | a closure whose child's tag is `*` is replaced by that child, and an escaped `*` leaf has tag `*` | `\**` gives the leaf `*`, which no longer matches the empty word | collapse only a closure whose child is a closure | high, not executed | Parser.EscapedStarClosureLost | Parser.OptimizeClosuresKeepsLanguage |
| ast/parser.py:85-86 | the outer parentheses are dropped only when the window holds exactly one `(` | `((a))` is split as a closure over `((a)` and raises ExpressionError | drop them whenever the group opened by the first token closes at the last | high, not executed | Parser.DoubleParenthesesRejected | Parser.GroupingTransparent |
| automata/ndautomata.py:173-185 | the right automaton's finals are shifted, so a right final 0 is lost from the shared start | `a\|b*` rejects the empty word | the empty word accepted when either side accepts it | high, not executed | Translator.DecisionWithClosureRejectsEmpty | Translator.TranslateNdfaLang |
| automata/ndautomata.py:196-200 | transitions into an operand final are copied back to 0 and `biggest_state` becomes final | `(a*b)*` accepts `a` | accept exactly the sequences of operand words | high, not executed | Translator.ClosureOfConcatenationAcceptsStray | NdfaLanguage.ClosureLang |
| automata/nondetautomata.py:235-237 | bridges to the second automaton leave every transition of the first, whatever its end | the concatenation of `ab` and `c` accepts `ac` | bridge only transitions into a final, as automata/ndfa.py does | high, not executed | NonDetAutomata.ConcatenationAcceptsStray | NdfaLanguage.ConcatLang |
| automata/nondetautomata.py:268-274 | loops back to the starts and every start made final, with no fresh start state | the closure of `a*b` accepts `a` | accept exactly the sequences of operand words, as the hub of automata/ndfa.py does | high, not executed | NonDetAutomata.ClosureAcceptsStray | NdfaLanguage.ClosureLang |
| automata/dfa.py:256 | the successors' cell is read at row `x_tr + 1`, while the cell of states `x`, `y` lies in row `x - 1` | the table `0-a->1-a->2-a->3` with final 3: cell (1, 0) reads row 3 of a 3-row matrix, IndexError | read row `x_tr - 1` | high, not executed | DfaMinify.ThreeAsIndexError | MinifyMatrix.FixExact |
| util.py:7 | calls `in_final_state`, which no automaton class defines | any word on which every `put` succeeds, e.g. `a` for the automaton of `a`, raises AttributeError | call `is_final_state` | high, not executed | Util.VerifyExpression | Util.VerifyExpression |
