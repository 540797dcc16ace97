# bee: pattern engine, scanner, scopes and types

This project models the core of the bee compiler front end, written in Go:

- **The pattern engine (`regex.go`).** A small pattern language is compiled into a graph of nodes, and that graph matches a prefix of the input by backtracking. Each node holds a state (epsilon, any byte, none, not, dash, literal text, byte set, byte interval), a layout index and a list of edges. The combinators `Scope`, `Concat`, `Push` and `Merge` splice subgraphs together by renumbering indices and adding edges. A node *branches* when one of its edges leads to a higher index. The recursive-descent parser turns the pattern source into such a graph.
- **The scanner (`scanner.go`).** The patterns of the syntax map are tried in table order at the cursor. The first one that matches makes the token, and blanks are skipped.
- **Symbol scopes (`ast.go`).** A scope maps names to definitions and may have an owner scope. A lookup tries the scope itself, then its owners outward.
- **Types (`type.go`).** A type is an atom, void or a struct. Sizes are summed in a Go `uint`, and the cast rule relates types of the same kind.

The modules are:

- `RegexGraph` (values): states, nodes, the node arena, members, and the combinators as functions on arenas.
- `RegexArena`: class `Graph`, which performs the combinators in place, each method proved to produce the arena its function describes.
- `RegexMatch`: the matcher.
- `RegexCompile`: the parser as step functions over the reader position, the operand stack and the arena.
- `RegexParser`: class `Parser`, the same steps performed in place, each method proved to agree with its step function.
- `RegexSyntax`: properties of the compiler.
- `RegexExamples`: compilations and matches worked through from the regex test suite.
- `RegexRuns`: the graphs of `{'abc'}?`, `{'abc'}*`, `{'a'|'b'}` and `^~'c'`, built step by step and run on the test inputs, and the sources with empty groups that do not compile.
- `Scanning`: the scanner.
- `Scopes`: the symbol scopes.
- `Typing`: the types.

A Go `*node` is a handle, meaning a position in the arena. A nil pointer is `Nil`. A Go string is a sequence of bytes, written as `char`s below 256.

## Model

| member | source | states |
|---|---|---|
| RegexGraph.NewNode | regex.go:141-147 | A fresh node has index 0, no edges and the given state. It is added at the end of the arena, and everything before it is kept. |
| RegexGraph.Insert | regex.go:83-99 | Inserting a handle into an edge list gives the same handles plus that one, as a multiset. |
| RegexGraph.InsertSorted | regex.go:83-99 | Inserting into a list ordered by index keeps it ordered by index. |
| RegexGraph.SortByIndex | regex.go:83-93 | Sorting an edge list only reorders it: it has the same length and the same multiset of handles. |
| RegexGraph.SortByIndexSorted | regex.go:83-93 | A sorted edge list is ordered by the index of its targets. |
| RegexGraph.Append | regex.go:95-99 | `nodes.Append` holds the old handles plus the new one, as a multiset. |
| RegexGraph.AppendSorted | regex.go:95-99 | The list `nodes.Append` returns is ordered by target index. |
| RegexGraph.Max | regex.go:101-107 | `nodes.Max` of a non-empty list is one of its handles, and no handle in the list has a higher index. |
| RegexGraph.LastIsMax | regex.go:101-107 | The last element of the sorted list is in the list and has the largest index. |
| RegexGraph.Membs | regex.go:216-231 | The member list starts with the node itself. Every later member lies strictly above it in index, and every member is a valid handle. |
| RegexGraph.MembsFrom | regex.go:216-226 | What the edges contribute through `makeMembers` lies strictly above the node. |
| RegexGraph.MembsHeadOnce | regex.go:216-231 | A node occurs exactly once among its own members. |
| RegexGraph.MembsReach | regex.go:216-231 | A node is among `n`'s members exactly when it can be reached from `n` along edges that each lead to a higher index. |
| RegexGraph.DiamondTwice | regex.go:216-231 | The member list has no visited set: on the diamond 0→1→3, 0→2→3, node 3 is listed twice among the members of 0. |
| RegexGraph.DiamondScoped | regex.go:263-267 | On that diamond, `Scope(10)` from 0 adds the base to node 3 once per listing, moving it from 3 to 23. |
| RegexGraph.SinkMember | regex.go:233-246 | The member of highest index, the one `NextIndex` and `Merge` build on, is a member and does not branch. |
| RegexGraph.NextIndex | regex.go:233-242 | The result is one more than the index of some member, exceeds the index of every member, and exceeds the node's own index. |
| RegexGraph.Branch | regex.go:244-246 | A node that branches has at least one edge. |
| RegexGraph.BranchByMax | regex.go:244-246 | Deciding `Branch` by sorting the edges and comparing the last one's index agrees with "some edge leads to a higher index". |
| RegexGraph.BranchIff | regex.go:244-246 | `Branch` depends only on the multiset of edge targets, not on their order. |
| RegexGraph.AddBase | regex.go:263-267 | Renumbering keeps the arena's length and every node's state and edges. |
| RegexGraph.AddBaseAt | regex.go:263-267 | After renumbering, each node's index has gained `base` once for each time the node occurs in the member list. |
| RegexGraph.Scoped | regex.go:263-267 | `n.Scope(base)` adds `base` to each member's index once per occurrence. It changes no state and no edge, and keeps the arena well formed. |
| RegexGraph.AppendEach | regex.go:254-261 | Running the `Concat` loop keeps every state and index and keeps the arena well formed. |
| RegexGraph.AppendEachEdges | regex.go:254-261 | After the `Concat` loop, a node that is not listed, or that already branched, keeps its edges. A listed node that did not branch gains at least one copy of the new edge. No node gains anything else. |
| RegexGraph.Concatenated | regex.go:254-261 | `n.Concat(e)` keeps every state and index and keeps the arena well formed. |
| RegexGraph.ConcatenatedKeeps | regex.go:254-261 | Under `Concat`, a node that is not a member, or that branches, keeps its edge list. |
| RegexGraph.ConcatenatedAppends | regex.go:254-261 | Under `Concat`, a member that does not branch gains the edge `e`, and nothing else. |
| RegexGraph.ConcatenatedGrows | regex.go:254-261 | `Concat` never removes an edge from any node. |
| RegexGraph.Pushed | regex.go:248-252 | `n.Push(e)` renumbers each member of `e` by `n.NextIndex()` per occurrence and adds exactly one edge `e` to `n`. Every other edge list and every state is unchanged. |
| RegexGraph.PushedBranches | regex.go:244-252 | After pushing `e` (not below 0, and not reaching `n`), `e` is placed above `n`'s old members, `n` keeps its index, holds the edge `e`, and branches. |
| RegexGraph.Merged | regex.go:269-272 | `n.Merge(s)` renumbers `s`'s members by `n.NextIndex()`, keeps every state, and keeps the arena well formed. |
| RegexGraph.MergedEdges | regex.go:269-272 | Under `n.Merge(s)`, with `s` already renumbered, a member of `n` that does not branch gains `s` and nothing else. Every other node keeps its edges. |
| RegexGraph.MergedGrows | regex.go:269-272 | `Merge` never removes an edge. |
| RegexGraph.MergedLinks | regex.go:269-272 | After `n.Merge(s)`, the member of `n` with the highest index has an edge to `s`, so the merged graph is entered from the end of `n`. |
| RegexGraph.SelfLoop | regex.go:573-581 | `n.Concat(n)`, the step of `x+`: a node that does not branch gains an edge to itself, and a node that branches keeps its edges. |
| RegexArena.Graph.NewNode | regex.go:141-147 | Allocating a node leaves exactly `RegexGraph.NewNode` of the old arena and returns the new handle. |
| RegexArena.Graph.Scope | regex.go:263-267 | The in-place loop over the members leaves exactly `Scoped` of the old arena. |
| RegexArena.Graph.Concat | regex.go:254-261 | The in-place loop leaves exactly `Concatenated` of the old arena and returns the edge. |
| RegexArena.Graph.Push | regex.go:248-252 | Leaves exactly `Pushed` of the old arena and returns the edge. |
| RegexArena.Graph.Merge | regex.go:269-272 | Leaves exactly `Merged` of the old arena. |
| RegexMatch.SubmitState | regex.go:149-190 | Each state fails on exhausted input unless it is epsilon, and `none` always fails. Epsilon and dash consume nothing. Any, not, set and interval consume one byte. Every result is "no match" or a position within the input. |
| RegexMatch.SubmitNode | regex.go:192-214 | A node's result is "no match" or a position between the start and the end of the input. |
| RegexMatch.Proceed | regex.go:195-210 | The continuation after the state matched at `m` yields "no match" or a position from `m` to the end. |
| RegexMatch.SubmitEdges | regex.go:201-206 | The loop over the edges yields "no match" or a position within the input. |
| RegexMatch.Match | regex.go:74-76 | `Regex.Match` yields -1 or the length of a prefix of the input. |
| RegexMatch.TextMatch | regex.go:171-176 | A literal matches exactly when it agrees with the input over their common length, and then consumes that length, even when the input ends inside the literal. |
| RegexMatch.TextPrefix | regex.go:171-176 | When enough input remains, a literal matches exactly when it is a prefix of the rest, and then consumes all of it. |
| RegexMatch.NodeFuel | regex.go:192-214 | A node's result does not depend on the recursion budget once the budget suffices. |
| RegexMatch.ProceedFuel | regex.go:195-210 | The same holds for the continuation after the state. |
| RegexMatch.StateFuel | regex.go:149-190 | The same holds for a state, including the inner graphs of not and dash. |
| RegexMatch.EdgesFuel | regex.go:201-206 | The same holds for the edge loop. |
| RegexMatch.EdgesFirst | regex.go:201-206 | Ordered choice: a match through the edges is the result of some edge, and every edge before it failed. |
| RegexMatch.EdgesNone | regex.go:201-206 | When every edge fails, the loop reports no match. |
| RegexMatch.ProceedAtEnd | regex.go:195-199 | A node that does not branch and has consumed the whole input accepts there without trying its edges. |
| RegexMatch.ProceedFallback | regex.go:201-210 | When every edge fails, a node that does not branch accepts its own match position and a node that branches fails. |
| RegexMatch.ProceedFirst | regex.go:195-206 | The edges are tried in ascending index order, as a reordering of the node's edges, and the node's result is that of the first edge that matches. |
| RegexMatch.TextExamples | regex_test.go:69-91 | `'abc'` matches three bytes of `abcccc`, and `'cba'` does not match `abc`. |
| RegexCompile.Leaf | regex.go:411-413 | A unit node is the next handle, and it is added with `newNode`. The reader and the stack are untouched. |
| RegexCompile.ReadOrZero | regex.go:431-448 | `ReadByte` with its error ignored yields the next byte and advances, or yields 0 at the end without moving. |
| RegexCompile.ReadText | regex.go:454-476 | A literal that is read ends strictly after where it started and within the source. |
| RegexCompile.ReadGroup | regex.go:478-503 | A group that is read ends strictly after where it started and within the source. |
| RegexCompile.NextToken | regex.go:313-372 | At the end of input the result is no unit, with the state unchanged. Otherwise a successful step reads at least one byte and only adds nodes. It can only pop the operand stack, and any unit it returns is a valid handle. |
| RegexCompile.ParsePreOp | regex.go:374-382 | An empty stack fails for want of a left operand, and only then. Otherwise the top of the stack is popped and returned, and nothing else changes. |
| RegexCompile.ParsePostOp | regex.go:384-393 | The operand that follows is read and must be a unit. At the end of input the step fails for want of a right operand. |
| RegexCompile.ParseBinOp | regex.go:395-409 | With an empty stack the step fails for want of a left operand. Otherwise it returns both operands as valid handles, having read past the right one. |
| RegexCompile.ParseScope | regex.go:431-448 | A compiled range adds one node, reads exactly four bytes and leaves the stack alone. |
| RegexCompile.ParseText | regex.go:454-476 | A compiled literal is one new text node holding exactly the bytes between the quotes. The reader stops right after the closing quote and the stack is untouched. The only error is an unterminated literal. |
| RegexCompile.ParseSequence | regex.go:505-513 | A group is compiled by a nested `Parse` of exactly the bytes between the braces, into the shared arena. The step returns that parse's head, stops right after the closing brace and leaves the outer stack alone. |
| RegexCompile.ParseDash | regex.go:515-522 | `/x` succeeds exactly when `parsePostOp` reads an operand `x`. It then adds one look-ahead node over `x` and returns it, keeping the reader and stack that `parsePostOp` left. |
| RegexCompile.ParseNot | regex.go:524-531 | `!x` succeeds exactly when `parsePostOp` reads an operand `x`. It then adds one negation node over `x` and returns it, keeping the reader and stack that `parsePostOp` left. |
| RegexCompile.ParseOr | regex.go:533-544 | `x | y` returns the node it adds last, and the reader moves past the right operand. The edges of that node are stated by `OrStep`. |
| RegexCompile.ParseQuest | regex.go:546-557 | `x?` fails exactly when the stack is empty. Otherwise it pops `x`, returns the first of the two nodes it adds, and does not read. |
| RegexCompile.ParseStar | regex.go:559-571 | `x*` fails exactly when the stack is empty. Otherwise it pops `x`, returns the first of the two nodes it adds, and does not read. |
| RegexCompile.ParsePlus | regex.go:573-581 | `x+` fails exactly when the stack is empty. Otherwise it pops `x` and returns `x` itself, without reading. The loop it adds is stated by `PlusLoops`. |
| RegexCompile.ParseWave | regex.go:583-596 | `x ~ y` returns the first of the two nodes it adds, and the reader moves past the right operand. |
| RegexCompile.OrOf | regex.go:533-544 | The graph of `x | y` adds one node and stays well formed. |
| RegexCompile.QuestOf | regex.go:546-557 | The graph of `x?` adds two nodes and stays well formed. |
| RegexCompile.StarOf | regex.go:559-571 | The graph of `x*` adds two nodes and stays well formed. |
| RegexCompile.WaveOf | regex.go:583-596 | The graph of `x ~ y` adds two nodes and stays well formed. |
| RegexCompile.WaveStates | regex.go:583-596 | The two nodes `x ~ y` adds keep their states through the concatenation and the merge: the head is epsilon and the second node is `none`. |
| RegexCompile.ParseLoop | regex.go:294-302 | The read loop ends with the whole source read, only adds nodes, and leaves a valid state. |
| RegexCompile.MergeAll | regex.go:304-309 | Merging the later operands into the first keeps the arena's size and well-formedness. |
| RegexCompile.Parse | regex.go:293-311 | A compiled head is nil or a valid handle, into an arena that only grew and is well formed. |
| RegexCompile.GroupShorter | regex.go:478-503 | The source of a group is shorter than the rest of the source it was read from. This is what bounds the nested parse. |
| RegexCompile.NewRegex | regex.go:63-72 | A compiled pattern keeps its source, and its graph is well formed with a valid head. |
| RegexParser.Parser.constructor | regex.go:289-291 | A new parser reads from the start with an empty stack. |
| RegexParser.Parser.ReadByte | regex.go:431-448 | Reading a byte in place agrees with `ReadOrZero`. |
| RegexParser.Parser.Leaf | regex.go:411-413 | Allocating a unit node in place agrees with `RegexCompile.Leaf`. |
| RegexParser.Parser.NextToken | regex.go:313-372 | The returned unit or error, and the parser state left behind, are those of `RegexCompile.NextToken`. |
| RegexParser.Parser.ParsePreOp | regex.go:374-382 | Agrees with `RegexCompile.ParsePreOp`. |
| RegexParser.Parser.ParsePostOp | regex.go:384-393 | Agrees with `RegexCompile.ParsePostOp`. |
| RegexParser.Parser.ParseBinOp | regex.go:395-409 | Agrees with `RegexCompile.ParseBinOp`. |
| RegexParser.Parser.ParseScope | regex.go:431-448 | Agrees with `RegexCompile.ParseScope`. |
| RegexParser.Parser.ParseText | regex.go:454-476 | The byte loop agrees with `RegexCompile.ParseText`. |
| RegexParser.Parser.ReadSequenceSrc | regex.go:478-503 | The brace-counting loop returns the group's bytes and stops past the matching brace, or fails, as `ReadGroup` says. |
| RegexParser.Parser.ParseSequence | regex.go:505-513 | A sub-parser over the group, sharing the graph, agrees with `RegexCompile.ParseSequence`. |
| RegexParser.Parser.ParseDash | regex.go:515-522 | Agrees with `RegexCompile.ParseDash`. |
| RegexParser.Parser.ParseNot | regex.go:524-531 | Agrees with `RegexCompile.ParseNot`. |
| RegexParser.Parser.ParseOr | regex.go:533-544 | Agrees with `RegexCompile.ParseOr`. |
| RegexParser.Parser.ParseQuest | regex.go:546-557 | Agrees with `RegexCompile.ParseQuest`. |
| RegexParser.Parser.ParseStar | regex.go:559-571 | Agrees with `RegexCompile.ParseStar`. |
| RegexParser.Parser.ParsePlus | regex.go:573-581 | Agrees with `RegexCompile.ParsePlus`. |
| RegexParser.Parser.ParseWave | regex.go:583-596 | Agrees with `RegexCompile.ParseWave`. |
| RegexParser.Parser.BuildOr | regex.go:533-544 | The in-place node building of `|` leaves exactly `OrOf`. |
| RegexParser.Parser.BuildQuest | regex.go:546-557 | The in-place node building of `?` leaves exactly `QuestOf`. |
| RegexParser.Parser.BuildStar | regex.go:559-571 | The in-place node building of `*` leaves exactly `StarOf`. |
| RegexParser.Parser.BuildWave | regex.go:583-596 | The in-place node building of `~` leaves exactly `WaveOf`. |
| RegexParser.Parser.Parse | regex.go:293-311 | The read loop and the merge loop give the head or error, and the graph, of `RegexCompile.Parse`. |
| RegexParser.NewRegex | regex.go:63-72 | Compiling in place gives exactly `RegexCompile.NewRegex`. |
| RegexSyntax.ReadTextVerbatim | regex.go:454-476 | A literal is the bytes up to the first closing quote, taken verbatim. The read fails, as an unterminated literal, exactly when no closing quote follows. |
| RegexSyntax.NestingCons | regex.go:478-503 | Brace nesting over a range is the first byte's change plus the nesting over the rest. |
| RegexSyntax.ReadGroupBalanced | regex.go:478-503 | A group ends right after the first `}` that brings the nesting to zero. It holds exactly the bytes before that brace, and the nesting stays at least one until then. |
| RegexSyntax.ReadGroupUnmatched | regex.go:478-503 | Reading a group fails, with an unmatched brace, exactly when the nesting never reaches zero. |
| RegexSyntax.ScopeShape | regex.go:431-448 | `[a-b]` compiles exactly when the four bytes are `a`, `-`, `b`, `]` with `a <= b`. It then adds the interval node. Otherwise the error is a missing hyphen, a missing bracket or an empty interval. |
| RegexSyntax.EmptyGroup | regex.go:505-513 | The empty group `{}` compiles to no unit, and the reader stops just past its `}`. |
| RegexSyntax.NilUnit | regex.go:313-372 | Blanks followed by the end of input, or by an empty group `{}`, give no unit. The reader stops at the end, or just past the `}`. |
| RegexSyntax.BlankSkips | regex.go:323-324 | A blank byte starts no unit of its own: reading a unit at a blank gives exactly what reading one byte on gives. |
| RegexSyntax.MissingLeft | regex.go:374-382 | `|`, `?`, `*`, `+` or `~` with an empty stack fails for want of a left operand. |
| RegexSyntax.MissingRightInfix | regex.go:395-409 | `|` or `~` with a left operand, followed only by blanks and then the end of input or `{}`, fails in `parseBinOp` for want of a right operand. |
| RegexSyntax.MissingRightPrefix | regex.go:384-393 | `!` or `/` followed only by blanks and then the end of input or `{}` fails in `parsePostOp` for want of an operand. |
| RegexSyntax.MissingRight | regex.go:384-393 | `!` or `/`, or `|` or `~` with a left operand, followed only by blanks and then the end of input or `{}`, fails for want of a right operand. |
| RegexSyntax.Unterminated | regex.go:454-476 | A quote with no closing quote after it fails as an unterminated literal. |
| RegexSyntax.Unclosed | regex.go:478-513 | A `{` whose nesting never closes fails as an unmatched brace. |
| RegexSyntax.Stray | regex.go:313-372 | A stray `}` or `]`, or a byte that starts no unit, fails at once with its own error. |
| RegexSyntax.PushedAdds | regex.go:248-252 | `n.Push(e)` adds exactly one edge `e` to `n` and keeps `n`'s state. |
| RegexSyntax.OrShape | regex.go:533-544 | The head that `x | y` adds has exactly the edges `x` and `y`. |
| RegexSyntax.QuestFirst | regex.go:546-557 | The first push of `x?` gives the fresh head exactly the edge `x`. |
| RegexSyntax.QuestExit | regex.go:546-557 | The second push of `x?` adds exactly the edge to the fresh exit. |
| RegexSyntax.QuestShape | regex.go:546-557 | The head that `x?` adds has exactly the edges `x` and the fresh empty exit. |
| RegexSyntax.StarShape | regex.go:559-571 | The head that `x*` adds has an edge to the fresh empty exit. |
| RegexSyntax.WaveKeeps | regex.go:583-596 | Concatenating back onto the head and merging the `none` node keep the head's edges. |
| RegexSyntax.WaveShape | regex.go:583-596 | The head that `x ~ y` adds keeps edges to both `x` and `y`. |
| RegexSyntax.StarLoops | regex.go:559-571 | The loop of `x*`: every end of the fresh head's chain, that is every member that does not branch once `x` is merged after the head, has the edge back to the head in the finished graph. The member with the largest index is such an end. |
| RegexSyntax.WaveLoops | regex.go:583-596 | The loop of `x ~ y`: every end of `x`'s chain, once `y` and `x` are pushed onto the fresh head, has the edge back to the head in the finished graph, so after `x` the head tries `y`, then `x`, again. The member with the largest index is such an end. |
| RegexSyntax.WaveOfLooped | regex.go:583-596 | The finished graph of `x ~ y` is the looped arena with the `none` node merged after `x`, so the ends of `x` also gain the edge to `none`, which never matches. |
| RegexSyntax.OrStep | regex.go:533-544 | `x | y` succeeds exactly when `parseBinOp` reads both operands. The left one is the top of the stack, the result is the node added after the operands, and that node's edges are exactly `x` and `y`. |
| RegexSyntax.QuestStep | regex.go:546-557 | `x?` succeeds exactly when an operand is popped. The result is the first fresh node, and its edges are exactly `x` and the second fresh node, the exit. |
| RegexSyntax.StarStep | regex.go:559-571 | `x*` succeeds exactly when an operand is popped. The result is the first fresh node, which has an edge to the second fresh node, the exit. |
| RegexSyntax.PlusLoops | regex.go:573-581 | `x+` succeeds exactly when an operand is popped. It returns `x` and adds no node. When `x` does not branch it gains an edge to itself, and when it branches its edges stay. |
| RegexSyntax.WaveStep | regex.go:583-596 | `x ~ y` succeeds exactly when `parseBinOp` reads both operands. The result is a fresh node with edges to `x` and to `y`. |
| RegexSyntax.MergeAllKeeps | regex.go:304-309 | Merging the later units into the first keeps every node's state and never removes an edge. |
| RegexSyntax.FirstJoined | regex.go:304-309 | The first unit merged is entered from the end of the head's chain as `Merge` finds it, the member with the largest index once the unit is renumbered above the chain, and it keeps that edge through the later merges. |
| RegexSyntax.MergeAllLinks | regex.go:304-309 | Each unit is entered, in the final graph, from the end of the head's chain as it stood when that unit was merged, that is after the units before it. |
| RegexSyntax.StackJoined | regex.go:304-309 | When a stack of units is merged into its first, every later unit is entered from the end of the chain that the units before it form (`StackJoins`). |
| RegexSyntax.ParseJoins | regex.go:293-311 | `Parse` fails exactly when its read loop fails. Its head is nil exactly when no unit was pushed. Otherwise the head is the first unit pushed, and every later unit is entered in the final graph from the end of the chain that the units before it form. |
| RegexExamples.PlusGraph | regex.go:573-581 | `[a-b]+` compiles to a single interval node that loops onto itself and does not branch. |
| RegexExamples.PlusRun | regex.go:192-214 | From any position, `[a-b]+` consumes the whole run of in-interval bytes that starts there, and fails when the run is empty. |
| RegexExamples.PlusCompiles | regex.go:431-448 | `[a-b]+` compiles to that graph when `a <= b`, as `[a-f]+`, `[a-a]+` and `[0-9]+` of the tests do, and fails with an empty interval otherwise. |
| RegexExamples.AlphabetMatch | regex_test.go:97 | `[a-f]+` matches 6 bytes of the alphabet. |
| RegexExamples.RepeatMatch | regex_test.go:98 | `[a-a]+` matches 7 bytes of `aaaaaaah`. |
| RegexExamples.DigitsMatch | regex_test.go:96 | `[0-9]+` matches 10 bytes of `0123456789yeet`. |
| RegexExamples.FirstFails | regex.go:293-299 | An error in the first unit is the error of the whole compilation. |
| RegexExamples.UnknownByte | regex.go:369-370 | `N` and `9]` are rejected as unrecognized bytes. |
| RegexExamples.StrayClosers | regex.go:364-370 | A lone `}` or `]` is rejected. |
| RegexExamples.BrokenRanges | regex_test.go:105-108 | `[`, `[0`, `[0-` and `[0-9` are rejected: the first two for a missing hyphen, the last two for a missing bracket. |
| RegexExamples.OpensLiteral | regex.go:454-476 | A source that starts with a quote never closed after it fails as an unterminated literal. |
| RegexExamples.OpenLiteral | regex_test.go:81-86 | `'hello` and a literal opened with one quote form and closed with the other are unterminated. |
| RegexExamples.OpensGroup | regex.go:478-513 | A source whose first `{` is never closed fails as an unmatched brace. |
| RegexExamples.OpenGroup | regex_test.go:137-139 | `{` and `{{{'abc'` are unmatched braces. |
| RegexExamples.NoLeftOperand | regex.go:374-382 | `+`, `|` and `~` alone are rejected for want of a left operand. |
| RegexRuns.AbcUnit | regex.go:293-311 | `'abc'` parses to one text node `abc`, which is the head. |
| RegexRuns.AbcGroup | regex.go:505-513 | `{'abc'}` followed by an operator byte reads the group as one text node `abc`, and the reader stops after the `}`. |
| RegexRuns.LoopFails | regex.go:294-302 | A unit that fails makes the read loop fail with its error. |
| RegexRuns.RunsToExit | regex.go:192-214 | An epsilon head whose first edge needs a byte and whose second edge is an empty epsilon exit matches the empty input, with length 0, through the exit. |
| RegexRuns.RunsLiteral | regex.go:192-214 | Such a head whose first edge is a literal that does not branch matches that literal in full, through the first edge. |
| RegexRuns.RunsEither | regex.go:192-214 | A branching epsilon head with two one-byte literal edges, on an input of at most one byte, matches exactly when the input is one of the two bytes. The first edge is tried first. |
| RegexRuns.QuestGraph | regex.go:546-557 | The graph of `{'abc'}?` is well formed, and its head branches. |
| RegexRuns.QuestBuilds | regex.go:546-557 | `x?` on the one-node arena of `'abc'` builds exactly `QuestGraph`: the literal, a head with edges to the literal and then to the exit, and the exit. |
| RegexRuns.QuestPops | regex.go:546-557 | After the group of `{'abc'}?`, `?` pops the literal and returns the head of `QuestGraph`, with the stack empty. |
| RegexRuns.QuestEmpty | regex_test.go:169 | `{'abc'}?` matches the empty input, with length 0. |
| RegexRuns.QuestFull | regex_test.go:168 | `{'abc'}?` matches all three bytes of `abc`. |
| RegexRuns.StarGraph | regex.go:559-571 | The graph of `{'abc'}*` is well formed. Its head branches, and the literal, whose edge leads back to the head, does not. |
| RegexRuns.StarBuilds | regex.go:559-571 | `x*` on the one-node arena of `'abc'` builds exactly `StarGraph`: the literal with an edge back to the head, a head with edges to the literal and then to the exit, and the exit. |
| RegexRuns.StarPops | regex.go:559-571 | After the group of `{'abc'}*`, `*` pops the literal and returns the head of `StarGraph`, with the stack empty. |
| RegexRuns.StarEmpty | regex_test.go:156 | `{'abc'}*` matches the empty input, with length 0. |
| RegexRuns.StarOnce | regex_test.go:155 | `{'abc'}*` matches all three bytes of `abc`. |
| RegexRuns.OrGraph | regex.go:533-544 | The graph of `'a'|'b'` is well formed, and its head branches. |
| RegexRuns.OrBuilds | regex.go:533-544 | `x | y` on the arena of `'a'` and `'b'` builds exactly `OrGraph`: a head with edges to `'a'` and then to `'b'`. |
| RegexRuns.OrPops | regex.go:533-544 | In `'a'|'b'`, once `'a'` is pushed, `|` pops it, reads `'b'` and returns the head of `OrGraph`, with the reader at the end. |
| RegexRuns.OrEither | regex_test.go:181-182 | `{'a'|'b'}` matches `a` with length 1, and `b` with length 1 after the edge to `'a'` fails. |
| RegexRuns.OrNeither | regex.go:195-210 | `{'a'|'b'}` matches neither `c` nor the empty input, because its head branches and so does not accept on its own. |
| RegexRuns.WaveGraph | regex.go:583-596 | The graph of `^~'c'` is well formed. Its head branches, and so does `^`, whose edges lead back to the head and on to the `none` node. The literal does not branch. |
| RegexRuns.WaveBuilds | regex.go:583-596 | `x ~ y` on the arena of `^` and `'c'` builds exactly `WaveGraph`: a head with edges to `'c'` and then to `^`, `^` with edges back to the head and then to the `none` node, and the `none` node. |
| RegexRuns.WavePops | regex.go:583-596 | In `^~'c'`, once `^` is pushed, `~` pops it, reads `'c'` and returns the head of `WaveGraph`, with the reader at the end and the stack empty. |
| RegexRuns.FirstFrom | regex.go:583-596 | The reference for a wave that stops at one byte `c`: the position of the first `c` at or after `i`, which is -1 exactly when no `c` follows. |
| RegexRuns.UntilStep | regex.go:192-214 | One visit of the head of `^ ~ 'c'`: no match at the end of the input, a match ending just after a `c`, and on any other byte the result of the head one byte on. |
| RegexRuns.UntilFinds | regex.go:192-214 | From any position, with enough fuel, a graph of the shape of `^ ~ 'c'` matches up to and including the first `c`, and fails when no `c` follows, because `^` never ends a match on its own. |
| RegexRuns.WaveRuns | regex_test.go:197 | `^~'c'` matches all three bytes of `abc`, and does not match `ab`, which has no `c`. |
| RegexRuns.EmptyThenOperator | regex.go:374-382 | A source that starts with `{}` and then `|`, `?`, `*`, `+` or `~` fails for want of a left operand, because `{}` pushes nothing. |
| RegexRuns.EmptyOperands | regex_test.go:151-208 | `{}+`, `{}*`, `{}?`, `{}|'b'`, `{}~` and `~{}` fail for want of a left operand, and `'a'|{}` for want of a right operand. |
| RegexRuns.OrEmptyRight | regex_test.go:190 | `'a'|{}` fails for want of a right operand. |
| Scanning.FirstHit | scanner.go:32-40 | The pattern found is the first, in table order, whose match is not -1, and its length fits the text. Nothing is found exactly when every pattern gives -1. |
| Scanning.Step | scanner.go:27-43 | A scan moves the cursor forward and never past the end of the source. |
| Scanning.StepAtEnd | scanner.go:28-30 | At the end of the source, the end-of-file token holds the last byte and leaves the cursor in place. The end-of-file token comes only there. |
| Scanning.StepFound | scanner.go:32-40 | A matched token carries the trait of the first pattern that matches at the cursor. Its bytes are the source from the cursor to the new cursor. |
| Scanning.StepNotFound | scanner.go:42 | A failed `None` token that keeps the cursor comes exactly when no pattern matches. |
| Scanning.Tokens | scanner.go:17-25 | A token that `Tokenize` returns is never a blank, and its cursor lies between the start and the end of the source. |
| Scanning.TokensNotBlank | scanner.go:17-25 | `Tokenize` never yields a blank. It ends inside the source, and a matched token's bytes are the source up to the final cursor. |
| Scanning.TokensFirst | scanner.go:17-25 | A token that is not a blank is returned as it is. |
| Scanning.Scanner.constructor | scanner.go:9-11 | `NewScanner` starts the cursor at the beginning. |
| Scanning.Scanner.Finished | scanner.go:13-15 | The scanner is finished exactly when the next `match` yields the end-of-file token, whatever the fuel. |
| Scanning.Scanner.TryAll | scanner.go:32-40 | The loop over the table stops at the first pattern that matches or runs out of fuel, and gives exactly the outcome of `FirstHit`. |
| Scanning.Scanner.Match | scanner.go:27-43 | The loop over the table gives the token and the cursor of `Step`. |
| Scanning.Scanner.Tokenize | scanner.go:17-25 | Scanning again after blanks gives the token and the cursor of `Tokens`. |
| Scopes.LookupInnermost | ast.go:18-26 | A lookup finds the binding of the innermost frame that has the name, and finds nothing exactly when no frame has it. |
| Scopes.Scope.OwnersBelow | ast.go:8-11 | A scope is never among its own owners, so the owner chain is finite. |
| Scopes.Scope.Frames | ast.go:8-11 | The frames of a scope start with its own definitions. |
| Scopes.Scope.Search | ast.go:18-26 | `Search` is the lookup along the scope's own definitions and then its owners outward. |
| Scopes.SearchInnermost | ast.go:18-26 | `Search` finds the innermost binding along the chain, and nil exactly when no scope on the chain has the name. |
| Scopes.Scope.constructor | ast.go:13-16 | A new scope has no definitions and the given owner. |
| Scopes.Scope.Add | ast.go:28-30 | `Add` binds the definition's id, replacing an earlier binding. Searching for that id then finds the definition, and every other search is unchanged. |
| Scopes.Ast.NewScope | ast.go:13-16 | A fresh, empty scope under the given owner is appended to the list and returned. |
| Typing.Size | type.go:24-26 | The size of an atom or of void is its exact size. Struct sizes are stated by `SizeWraps`. |
| Typing.TotalSizesSnoc | type.go:33-39 | The reference total of a member list grows by the last member's size. |
| Typing.SizeWraps | type.go:24-39 | A type's `uint` size is its true total size modulo 2^64. |
| Typing.SumSizesWrap | type.go:33-39 | The running `uint` sum of the members is their true total modulo 2^64. |
| Typing.StructSize | type.go:33-39 | The loop over the members gives `Size` of the struct, which is the members' true total modulo 2^64. |
| Typing.Cast | type.go:28-58 | Casting relates only types of the same kind. |
| Typing.CastEquivalence | type.go:28-58 | Casting relates only types of the same kind, and it is reflexive, symmetric and transitive. |
| Typing.StructCast | type.go:41-49 | A struct casts exactly to a struct with as many members, agreeing in name and type position by position. |
| Typing.InterfaceEq | type.go:44 | Go's `==` on two types panics exactly when both are structs. Otherwise it is equality. |
| Typing.MembersEqAsWritten | type.go:41-49 | The member comparison as written panics only at a position where both member types are structs. |
| Typing.StructCastAsWritten | type.go:41-49 | The written cast answers false, without panicking, for a target that is not a struct or that has a different member count. It panics only when the counts agree and some position holds two struct types. |
| Typing.MembersEqAgrees | type.go:41-49 | Where the written member comparison does not panic, it answers whether the member lists are equal. |
| Typing.StructCastAgrees | type.go:41-49 | Where `Struct.Cast` as written does not panic, it agrees with `Cast`. |
| Typing.NestedStructPanics | type.go:41-49 | A struct with a struct member panics when cast to itself, while `Cast` holds. |

## Left out

- Graphviz output (`Regex.Graph` and `RegexGraph`, regex.go:78-81 and 602-721) is not modelled. It only renders the graph as text.
- Error messages are modelled as the constructors of `ParseError`, not as formatted text.
- `parseText` reports the reader's end-of-input error when a literal is not closed. It is modelled as `UnterminatedText`.
- Both quote forms are read verbatim up to the matching closing quote (regex.go:454-476), with no escape interpreted; the model does the same.
- Go's `sort.Sort` is not stable. The model sorts edge lists with a stable insertion sort, so the order of edges whose targets have equal indices may differ.
- `Branch` sorts a node's edge list in place. The model sorts edge lists when an edge is appended, as `Append` does, and again where the order is observed, namely when the matcher tries the edges; `Branch`'s own in-place re-sort is not modelled. As a result, the order in which `Membs` lists members can differ from the source. The multiset of members, which is what `Scope`, `Concat` and `NextIndex` depend on, is the same.
- SubmitNode: matching takes a `fuel` bound on node visits and reports `OutOfFuel` when it runs out, because the source's recursion is unbounded on some graphs (a zero-width body under `*`). A result that is reached does not depend on the fuel (`NodeFuel`).
- Scanning.Tokens: a blank token that does not advance the cursor is reported as `Unfinished`, where the source recurses forever.
- RegexMatch.Match: requires a non-nil head, because the source dereferences it. A pattern of only blanks compiles to a nil head.
- Scanning.Step: requires a non-empty source, because the end-of-file token slices the last byte.
- The end-of-file trait is a separate constructor of `Trait`. The trait list (trait.go) is not part of this model. Only the numbers of `None` and `Blank` are used.
- `Ast.Body` and the statement and expression nodes are not modelled.
- `NewScope` in the source returns a pointer into a slice that later appends may move. The model gives each scope its own heap object.
- RegexCompile.OrOf, QuestOf, StarOf, WaveOf: their contracts state only size and well-formedness. The edges of the head they add are stated separately in `RegexSyntax`.
- RegexSyntax.StarStep: states only the edge to the exit, not the loop back through `x`. The loop is a property of the graph `StarOf` builds and is stated there, by `StarLoops`, rather than repeated for the parser step.
- RegexSyntax.StarShape: the same; `StarLoops` states the loop.
- RegexSyntax.WaveStep: states only the edges to `x` and `y`. The loop and the stop are properties of the graph `WaveOf` builds and are stated there: `WaveLoops` gives the edge from each end of `x` back to the head, and `WaveOfLooped` the `none` node merged after `x`.
- RegexSyntax.WaveShape: the same; `WaveLoops` and `WaveOfLooped` state the loop and the stop.
- RegexRuns.QuestPops: starts at `parseQuest`, with the group already on the stack. The step in `NextToken` from the `?` byte to `parseQuest` is not worked through, so `NewRegex("{'abc'}?")` itself is not stated. `AbcGroup` covers the group, and `QuestEmpty` and `QuestFull` run the graph these steps build. That step is not worked through because unfolding the dispatch of `NextToken` down to the operator's case exceeds the solver's resource limit.
- RegexRuns.StarPops: the same for `*`: `NewRegex("{'abc'}*")` itself is not stated, and `StarEmpty` and `StarOnce` run the graph that `StarBuilds` gives. That step is not worked through because unfolding the dispatch of `NextToken` down to the operator's case exceeds the solver's resource limit.
- RegexRuns.OrPops: the same for `|`: it starts after `'a'` is pushed, and `OrEither` and `OrNeither` run the graph that `OrBuilds` gives. That step is not worked through because unfolding the dispatch of `NextToken` down to the operator's case exceeds the solver's resource limit.
- RegexRuns.OrEither: runs only the blank-free `{'a'|'b'}` (regex_test.go:181-182). The tests with blanks, `{'a' | 'b'}` (regex_test.go:183-184), are not worked through: `BlankSkips` states that each blank is skipped, but the compilation of that source as a whole needs the `|` dispatch step left out above.
- RegexRuns.WavePops: the same for `~`: it starts after `^` is pushed, and `WaveRuns` runs the graph that `WaveBuilds` gives. That step is not worked through because unfolding the dispatch of `NextToken` down to the operator's case exceeds the solver's resource limit.
- RegexRuns.WaveRuns: only the first `~` test (regex_test.go:197) is worked through. The others (regex_test.go:198-203), among them `'//' {a|' '} ~ '//'` matching 29 bytes of a comment line, have larger graphs, and building each of them step by step, as `WaveBuilds` does for `^~'c'`, exceeds the solver's resource limit. `UntilFinds` states the run for every graph of the shape of `^ ~ 'c'`.
- The matching examples that repeat a group several times or nest groups (`{'abc'}+` on `abcabcabc`, `{'ab'n}*`, `{{{'hello'}}}*`, `a{a|'_'|n}*`) are not worked through. Repetition is shown on the one-node `[a-b]+` loop (`PlusRun`).
- Typing.Size: its contract gives the exact size only for atoms and void. The size of a struct, summed in a Go `uint` that wraps at 2^64, is stated by `SizeWraps`.
- RegexGraph.Membs: its own contract does not say which nodes are members. `MembsReach` states that a node is a member exactly when it is reached along edges to higher indices. `DiamondTwice` shows that a node reached along two such paths is listed twice.
- RegexGraph.Merged: its own contract states the renumbering and the kept states, not the edges. `MergedEdges`, `MergedGrows` and `MergedLinks` state the edges.
- RegexCompile.MergeAll: its own contract states only size and well-formedness. `MergeAllKeeps` states that every state is kept and no edge is removed, and `FirstJoined`, `MergeAllLinks` and `StackJoined` state that each later unit is entered from the end of the chain before it.
- RegexCompile.Parse: its own contract does not relate the head to the units read. `ParseJoins` states that relation.
- RegexCompile.NewRegex: its own contract states well-formedness only. Whole compilations are worked through for `[a-b]+` (`PlusCompiles`) and for the sources that fail, and the `?`, `*`, `|` and `~` examples start at the operator step, as the lines for `QuestPops`, `StarPops`, `OrPops` and `WavePops` say.
- parser.go, escape.go, syntax_map.go, trait.go, stmt.go, expr.go, literal.go, node.go, asm.go and main.go are not part of this model.

## Findings

| source | as written | input that shows it | evidently intended | confidence | as-written member | corrected member |
|---|---|---|---|---|---|---|
| type.go:41-49 | `Struct.Cast` compares member types with Go's `==` on the `Type` interface. When both dynamic types are `Struct`, whose member slice is not comparable, this panics at run time. | `Struct{[Var{"inner", Struct{}}]}` cast to itself | Two structs cast when their members agree in name and type, position by position. | not executed | Typing.StructCastAsWritten, Typing.NestedStructPanics | Typing.Cast, Typing.StructCast |
