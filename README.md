# Prefix-condition simplifier: parser, size metric, serializer and line framing

`simplify.py` reads a trace of path conditions, one per line. Each line has the form

    #cond <condition in prefix tokens> ; <remainder>

The program takes the tokens between `#cond` and the first `;` and parses them
into a solver term with a token stack. It prints the term's size, hands the term
to a chain of solver simplification tactics, and conjoins the goals the tactic
leaves into one `And`. Then it writes the line back, with the rendering of that
`And` as the new condition and the old remainder unchanged.

This project models the parts of that program that are its own code:

- `Syntax` (`syntax.dfy`): the condition trees, meaning n-ary `And`/`Or`, unary `Not` and named variables.
  - `Size` is the node-count metric of `size_of_expr`.
  - `Tokens` is the prefix serializer of `expr_to_string`. It works at token level: `k` children write `k - 1` operator tokens, then the children in order.
  - `Binarize` rewrites every n-ary node into the left-nested binary shape that re-parsing produces.
  - `Eval` gives trees their truth value, to show that this change of shape is harmless.
- `Parser` (`parser.dfy`): the stack parser of `parse_cond`, in three layers.
  - `Step`, `RunFrom` and `Parse` are functions that say what the backward scan computes.
  - `ParseCond` is the loop itself, over a `seq` used as a stack, and is proved to compute `Parse`.
  - Lemmas about `Parse`. It is the exact inverse of `Tokens` on binary trees whose leaves are not operator names. A parsed tree has as many nodes as there were tokens. Parsing succeeds or fails exactly according to a stack-height counter.
- `Framing` (`framing.dfy`): how a line is cut into condition and remainder, how it is written back, and one iteration of the main loop.
  - The tactic chain is a parameter: a function from the parsed condition to its list of goals.
- `Results` (`results.dfy`): `Option` and `Result`. Error conditions are values, not exceptions.

The program's failures become error values. An operator that pops an empty list
(an `IndexError` in Python) is `StackUnderflow`. A final stack that does not
hold exactly one entry (the `assert` on line 24) is `StackSize(n)`. A missing
`#cond` and a missing `;` are `MissingMarker` and `MissingSemicolon`.

A parsed `And`/`Or` always has two children, but the program's `And(*goals)`
on line 91 has one child per goal the tactic leaves, and that can be just one.
So the model lets `And`/`Or` have any number of children:
- A single-child node writes no operator token (`SingleChildTokens`).
- A node with no children writes nothing, because `"#and " * -1` is the empty string in Python.
- When the tactic leaves no goal at all, `And()` on line 91 has no argument to take a solver context from, and no line is written. `ProcessLine` reports this case as `EmptyGoal`.

## Model

| member | source | states |
|---|---|---|
| Parser.Step | simplify.py:11-23 | one token of the scan succeeds exactly when the stack holds as many entries as the token pops (2 for `#and`/`#or`, 1 for `#not`, 0 for a variable); the height then changes by -1, 0 or +1, and everything below the popped entries is untouched |
| Parser.ParseCond | simplify.py:6-25 | the loop over the reversed tokens with a list as stack returns exactly `Parse(tokens)`, including the underflow error and the final-size error |
| Parser.UnderflowPersists | simplify.py:8-21 | once scanning a suffix of the tokens underflows, scanning the whole sequence underflows too |
| Parser.RunFrom | simplify.py:7-23 | when no pop fails, scanning `toks` from the right onto `base` changes the stack height by exactly the sum of the tokens' height changes |
| Parser.Parse | simplify.py:6-25 | a successful parse returns a binary tree with plain leaves whose rendering is exactly the tokens read, so rendering it reproduces them; a final-size error reports the final height, which is not 1 (see `ParseOutcome` and `ParseCharacterization` for the converse directions) |
| Parser.RunHeight | simplify.py:7-23 | the backward scan completes exactly when no token pops more entries than the tokens to its right leave, and then it holds as many entries as the sum of the tokens' height changes |
| Parser.ParseOutcome | simplify.py:11-25 | parsing underflows if and only if the height counter underflows; it succeeds if and only if the counter never underflows and ends at 1; a final-size error reports the final height, which is then not 1 |
| Parser.ParseCharacterization | simplify.py:6-25 | `Parse(toks) == Ok(e)` if and only if `e` is a binary tree with no leaf named like an operator and `Tokens(e) == toks`: the parser is the exact inverse of the serializer |
| Parser.RoundTrip | simplify.py:53-66 | parsing the rendering of a binary tree with plain leaves gives back that tree |
| Parser.ParsedSize | simplify.py:6-25 | a parsed tree is binary, its leaves are plain, and its size is the number of tokens read |
| Parser.OperandOrder | simplify.py:11-18 | `#and`/`#or` followed by the renderings of `a` and `b` parse to the node with `a` first and `b` second |
| Parser.NaryRoundTrip | simplify.py:54-59 | parsing the rendering of any tree whose nodes all have a child yields the tree's left-nested binary form |
| Parser.ChainRoundTrip | simplify.py:54-59 | an `And`/`Or` over one or more parseable children re-parses as the left-nested chain over the same children |
| Syntax.Size | simplify.py:42-51 | every tree has size at least 1 |
| Syntax.SizeSum | simplify.py:44 | the summed size of a list of children is at least the number of children |
| Syntax.SizeSumAppend | simplify.py:44 | the summed size of two lists of children put together is the sum of their summed sizes |
| Syntax.SizeSumPermutation | simplify.py:44 | two lists of children that are permutations of each other have the same summed size |
| Syntax.ReorderingPreservesSize | simplify.py:43-46 | reordering the children of an `And` or an `Or` does not change its size |
| Syntax.Binary | simplify.py:14-21 | a tree whose `And`/`Or` nodes all have exactly two children, as the parser builds them, can be serialized |
| Syntax.PairShape | simplify.py:14-18 | a binary node is binary, and has plain leaves, exactly when both its operands are and have |
| Syntax.Tokens | simplify.py:53-66 | every tree whose `And`/`Or` nodes all have a child renders to at least one token; its other properties are in `TokensOfNary`, `TokenCount` and `ParseCharacterization` |
| Syntax.TokensAll | simplify.py:56 | a list of such trees renders to at least one token per tree |
| Syntax.Repeat | simplify.py:56 | `n` copies of a token are `n` tokens long |
| Syntax.TokensAllAppend | simplify.py:56 | rendering a list of children with one more at the end appends that child's rendering |
| Syntax.TokensOfPair | simplify.py:54-59 | a two-child node writes its operator once, then its first and then its second operand |
| Syntax.SingleChildTokens | simplify.py:54-59 | a one-child `And`/`Or` writes no operator token, only its child |
| Syntax.TokensOfNary | simplify.py:54-59 | a node with k >= 1 children begins with k - 1 copies of its operator token, followed by its children's renderings in order |
| Syntax.TokenCount | simplify.py:42-66 | the rendering of a binary tree has exactly one token per node counted by the size metric |
| Syntax.ChainShape | simplify.py:54-59 | the left-nested chain over binary children with plain leaves is binary with plain leaves |
| Syntax.ChainTokens | simplify.py:54-59 | the left-nested chain renders to the same tokens as the n-ary node over the same children |
| Syntax.BinarizeShape | simplify.py:53-66 | binarizing a tree whose nodes all have a child gives a binary tree, and plain leaves stay plain |
| Syntax.BinarizeTokens | simplify.py:53-66 | the binarized tree renders to exactly the tokens of the original |
| Syntax.TokenCountNary | simplify.py:42-66 | the number of tokens of a serializable tree is the size of its binarized form |
| Syntax.BinarizeBinary | simplify.py:53-66 | binarizing an already binary tree changes nothing |
| Syntax.AllHold | simplify.py:91 | a conjunction of children holds exactly when every child holds |
| Syntax.AnyHolds | simplify.py:18 | a disjunction of children holds exactly when some child holds |
| Syntax.ChainEval | simplify.py:54-59 | the left-nested chain has the same truth value as the n-ary node under every assignment |
| Syntax.BinarizeEval | simplify.py:53-66 | binarizing does not change a tree's truth value under any assignment |
| Framing.IndexOf | simplify.py:73 | the position found holds the first occurrence of the token; no earlier position holds it; the length is returned exactly when the token is absent |
| Framing.SplitLine | simplify.py:71-75 | a line is rejected for its marker exactly when it is empty or does not start with `#cond`; it is accepted exactly when it starts with `#cond` and contains `;`; an accepted line is the marker, a condition without `;`, the semicolon and the remainder |
| Framing.FrameRoundTrip | simplify.py:73-75 | a line built from a condition without `;` and any remainder splits back into exactly that condition and remainder |
| Framing.RenderLine | simplify.py:99-100 | a written line whose condition has no `;` is accepted again, with the same condition and remainder |
| Framing.UnchangedConditionReproducesLine | simplify.py:71-100 | writing back the parsed condition itself, followed by the old remainder, reproduces the line token for token |
| Framing.ProcessLine | simplify.py:70-100 | a framing error or parse error is reported as the line's own error; a tactic that leaves no goal gives `EmptyGoal`; a written line starts with `#cond`, and after its new condition comes `;` and then the old remainder unchanged |
| Framing.UnchangedGoalReproducesLine | simplify.py:84-100 | with a tactic that leaves the condition as its only goal, every line whose frame is accepted and whose condition parses is written back exactly as it was read |
| Framing.ProcessedLineSplits | simplify.py:70-100 | a line is processed exactly when its frame is accepted, its condition parses and the tactic leaves at least one goal; the written line splits back into the new condition and the old remainder |

## Left out

- The solver tactics and `simplify` (lines 84-90) are a parameter of `ProcessLine`. The model says nothing about what they return, only how their goals are conjoined and written (line 91).
- `prove(expr == simplified_expr)` (line 97) is a call into the solver and is not modelled. `Eval` and `BinarizeEval` state equivalence of trees, but no property of the tactics is assumed.
- Solver terms are the datatype `Expr`. `is_and`/`is_or`/`is_not`/`children()` become pattern matching. A constant is rendered by its name: the quoting that `sexpr()` may add to unusual names is not modelled, and `true`/`false` are variables named that way.
- `Syntax.Tokens` works on token sequences. The joining with single spaces (lines 56, 59, 63, 100) and `line.split(" ")` (line 71) are not modelled. Neither are the trailing newline carried by the last token, empty tokens from repeated spaces, or the empty token a zero-child `And` would leave when the written line is split again.
- `Parser.RoundTrip`, `Parser.NaryRoundTrip`: these require that no leaf is named `#and`, `#or` or `#not`, and that every `And`/`Or` has a child. Without the first, a leaf name would parse back as an operator. Without the second, a zero-child node writes no token.
- File opening, reading and writing (lines 4, 68, 70, 100) are not modelled: the model is one line at a time.
- The progress print every 10000 tokens (lines 9-10) and the printed sizes and lengths (lines 74-95) are not modelled; `Size` is the metric those prints show.
- The commented-out recursive parser (lines 27-40) is not part of the running program and is not modelled.
- The `IndexError`, `ValueError`, `AssertionError` and the failing `And()` each end the whole run in Python. The model turns them into distinct error values for the one line being processed. It does not model that the run stops there and the later lines are never read.
- Framing.ProcessLine: with no goal left, `And()` on line 91 is taken to fail, as it does in solver bindings that demand an argument to take a context from. Bindings that fall back to a default context would instead build the empty conjunction, write an empty condition and go on; that behaviour is not modelled.

