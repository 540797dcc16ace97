/** Worked examples from the regex test suite that combine groups with the
    operators `?`, `*` and `|`: the graphs these sources compile to, run on
    the inputs of the tests, and the sources that fail because an operand is
    an empty group. */
module RegexRuns {
  import opened RegexGraph
  import opened RegexMatch
  import opened RegexCompile
  import opened RegexSyntax

  // ---------------------------------------------------------------------------
  // Compiling one unit at a time

  /** A literal closed at `j` reads the bytes in between. */
  lemma {:induction false} ReadTextUpTo(src: seq<byte>, pos: nat, j: nat, stop: byte)
    requires pos <= j < |src| && src[j] == stop
    requires forall k :: pos <= k < j ==> src[k] != stop
    ensures ReadText(src, pos, stop) == Got((src[pos..j], j + 1))
    decreases j - pos
  {
    if pos < j {
      ReadTextUpTo(src, pos + 1, j, stop);
      assert [src[pos]] + src[pos + 1..j] == src[pos..j];
    }
  }

  /** A group with no brace inside, closed at `j`, reads the bytes in between. */
  lemma {:induction false} ReadGroupFlat(src: seq<byte>, pos: nat, j: nat)
    requires pos <= j < |src| && src[j] == '}'
    requires forall k :: pos <= k < j ==> src[k] != '{' && src[k] != '}'
    ensures ReadGroup(src, pos, 1) == Got((src[pos..j], j + 1))
    decreases j - pos
  {
    if pos < j {
      ReadGroupFlat(src, pos + 1, j);
      assert [src[pos]] + src[pos + 1..j] == src[pos..j];
    }
  }

  /** `'...'` closed at `j` adds one text node holding the bytes in between. */
  lemma QuotedUnit(src: seq<byte>, st: PState, j: nat)
    requires Valid(src, st) && st.pos < j < |src| && src[st.pos] == '\'' && src[j] == '\''
    requires forall k :: st.pos < k < j ==> src[k] != '\''
    ensures NextToken(src, st) ==
      Ok(Ref(|st.g|), PState(j + 1, st.stack, NewNode(st.g, Text(src[st.pos + 1..j]))))
  {
    var st1 := st.(pos := st.pos + 1);
    DispatchText(src, st);
    ReadTextUpTo(src, st1.pos, j, '\'');
    assert ParseText(src, st1, '\'') == Leaf(st1.(pos := j + 1), Text(src[st1.pos..j]));
  }

  /** `{...}` with no brace inside, closed at `j`, is the unit its bytes compile to. */
  lemma GroupUnit(src: seq<byte>, st: PState, j: nat, h: Handle, inner: PState)
    requires Valid(src, st) && st.pos <= j < |src| && src[j] == '}'
    requires forall k :: st.pos <= k < j ==> src[k] != '{' && src[k] != '}'
    requires Parse(src[st.pos..j], st.g) == Ok(h, inner)
    ensures ParseSequence(src, st) == Ok(h, PState(j + 1, st.stack, inner.g))
  {
    ReadGroupFlat(src, st.pos, j);
    GroupParsed(src, st, src[st.pos..j], j + 1, h, inner);
  }

  /** A group read up to `next` whose bytes compile is the unit they compile to. */
  lemma GroupParsed(src: seq<byte>, st: PState, s: seq<byte>, next: nat, h: Handle, inner: PState)
    requires Valid(src, st) && ReadGroup(src, st.pos, 1) == Got((s, next))
    requires Parse(s, st.g) == Ok(h, inner)
    ensures ParseSequence(src, st) == Ok(h, PState(next, st.stack, inner.g))
  {
  }

  /** The loop pushes a unit that is not nil and goes on. */
  lemma LoopPush(src: seq<byte>, st: PState, n: nat, st': PState)
    requires Valid(src, st) && st.pos < |src| && NextToken(src, st) == Ok(Ref(n), st')
    ensures ParseLoop(src, st) == ParseLoop(src, st'.(stack := st'.stack + [n]))
  {
  }

  /** A source that leaves one unit on the stack compiles to that unit. */
  lemma ParseOne(src: seq<byte>, g: Arena, x: nat, g': Arena)
    requires Wf(g) && ParseLoop(src, PState(0, [], g)) == Ok((), PState(|src|, [x], g'))
    ensures Parse(src, g) == Ok(Ref(x), PState(|src|, [x], g'))
  {
    assert MergeAll(g', x, []) == g';
  }

  /** `'abc'` compiles to one text node. */
  lemma AbcUnit(sub: seq<byte>)
    requires sub == "'abc'"
    ensures Parse(sub, []) == Ok(Ref(0), PState(5, [0], [Node(Text("abc"), 0, [])]))
  {
    var g1: Arena := [Node(Text("abc"), 0, [])];
    QuotedUnit(sub, PState(0, [], []), 4);
    assert sub[1..4] == "abc";
    LoopPush(sub, PState(0, [], []), 0, PState(5, [], g1));
    ParseOne(sub, [], 0, g1);
  }

  /** `{'abc'}` followed by one operator byte reads the group as one text node. */
  lemma AbcGroup(op: byte)
    ensures NextToken("{'abc'}" + [op], PState(0, [], [])) ==
      Ok(Ref(0), PState(7, [], [Node(Text("abc"), 0, [])]))
  {
    var src: seq<byte> := "{'abc'}" + [op];
    assert src[1..6] == "'abc'";
    AbcUnit(src[1..6]);
    GroupUnit(src, PState(1, [], []), 6, Ref(0), PState(5, [0], [Node(Text("abc"), 0, [])]));
    DispatchGroup(src, PState(0, [], []));
  }

  // ---------------------------------------------------------------------------
  // Running a head with a literal edge and an exit edge

  /** Two edges whose targets are already in index order stay in that order. */
  lemma SortPair(g: Arena, x: nat, y: nat)
    requires x < |g| && y < |g| && g[x].index <= g[y].index
    ensures SortByIndex(g, [x, y]) == [x, y]
  {
    assert SortByIndex(g, [y]) == [y];
  }

  /** An epsilon head whose first edge needs input and whose second is an
      empty exit matches the empty input, through the exit. */
  lemma RunsToExit(g: Arena, h: nat, x: nat, y: nat)
    requires Wf(g) && h < |g| && x < |g| && y < |g|
    requires g[h].state == Epsilon && g[h].edges == [x, y] && g[x].index <= g[y].index
    requires !g[x].state.Epsilon? && g[y].state == Epsilon && g[y].edges == []
    ensures SubmitNode(g, h, [], 0, 2) == Done(0)
  {
    SortPair(g, x, y);
    assert SubmitNode(g, x, [], 0, 1) == Done(-1);
    assert !Branch(g, y);
    assert SubmitNode(g, y, [], 0, 1) == Done(0);
  }

  /** An epsilon head whose first edge is the literal `lit`, a node that
      does not branch, matches `lit` in full through that edge. */
  lemma RunsLiteral(g: Arena, h: nat, x: nat, y: nat, lit: seq<byte>)
    requires Wf(g) && h < |g| && x < |g| && y < |g|
    requires g[h].state == Epsilon && g[h].edges == [x, y] && g[x].index <= g[y].index
    requires g[x].state == Text(lit) && |lit| > 0 && !Branch(g, x)
    ensures SubmitNode(g, h, lit, 0, 2) == Done(|lit|)
  {
    SortPair(g, x, y);
    assert lit[..|lit|] == lit[0..|lit|];
    assert SubmitState(g, Text(lit), lit, 0, 0) == Done(|lit|);
    assert SubmitNode(g, x, lit, 0, 1) == Done(|lit|);
  }

  // ---------------------------------------------------------------------------
  // `{'abc'}?`

  /** The graph of `{'abc'}?`: the head (node 1) tries the literal, then the
      empty exit (node 2). */
  function QuestGraph(): (g: Arena)
    ensures Wf(g) && |g| == 3 && Branch(g, 1)
  {
    var g := [Node(Text("abc"), 1, []), Node(Epsilon, 0, [0, 2]), Node(Epsilon, 2, [])];
    assert g[g[1].edges[0]].index > g[1].index;
    g
  }

  /** A node whose only member is itself. */
  lemma MembsAlone(g: Arena, n: nat)
    requires Wf(g) && n < |g| && g[n].edges == []
    ensures Membs(g, n) == [n]
  {
    assert MembsFrom(g, n, 0) == [];
  }

  /** A node with one forward edge, to a node that is its own only member. */
  lemma MembsChain(g: Arena, n: nat, e: nat)
    requires Wf(g) && n < |g| && e < |g| && g[n].edges == [e] && Membs(g, e) == [e]
    requires g[e].index > g[n].index
    ensures Membs(g, n) == [n, e]
  {
    assert MembsFrom(g, n, 1) == [];
    assert MembsFrom(g, n, 0) == [e];
  }

  /** A node with one forward edge, to a node with no edges. */
  lemma MembsPair(g: Arena, n: nat, e: nat)
    requires Wf(g) && n < |g| && e < |g| && g[n].edges == [e] && g[e].edges == []
    requires g[e].index > g[n].index
    ensures Membs(g, n) == [n, e]
  {
    MembsAlone(g, e);
    MembsChain(g, n, e);
  }

  /** Renumbering a node that is its own only member moves that node alone. */
  lemma ScopedAlone(g: Arena, e: nat, base: int)
    requires Wf(g) && e < |g| && Membs(g, e) == [e]
    ensures Scoped(g, e, base) == g[e := g[e].(index := g[e].index + base)]
  {
    var r := Scoped(g, e, base);
    var t := g[e := g[e].(index := g[e].index + base)];
    forall k | 0 <= k < |g| ensures r[k] == t[k] {
      assert multiset(Membs(g, e))[k] == if k == e then 1 else 0;
    }
  }

  /** With the members of `n` known, `NextIndex` is one past the larger index. */
  lemma NextIndexPair(g: Arena, n: nat, e: nat)
    requires Wf(g) && n < |g| && e < |g| && Membs(g, n) == [n, e] && g[n].index <= g[e].index
    ensures NextIndex(g, n) == g[e].index + 1
  {
  }

  lemma NextIndexAlone(g: Arena, n: nat)
    requires Wf(g) && n < |g| && Membs(g, n) == [n]
    ensures NextIndex(g, n) == g[n].index + 1
  {
  }

  /** An edge appended after one of lower index goes last. */
  lemma AppendPair(g: Arena, x: nat, e: nat)
    requires x < |g| && e < |g| && g[x].index <= g[e].index
    ensures Append(g, [x], e) == [x, e]
  {
    assert SortByIndex(g, [e]) == [e];
    assert SortByIndex(g, [x, e]) == Insert(g, x, [e]);
  }

  lemma AppendFirst(g: Arena, e: nat)
    requires e < |g|
    ensures Append(g, [], e) == [e]
  {
    assert SortByIndex(g, [e]) == Insert(g, e, []);
  }

  /** `Push` once its renumbering and its new edge list are known. */
  lemma PushedBy(g: Arena, n: nat, e: nat, h: Arena, edges: seq<nat>)
    requires Wf(g) && n < |g| && e < |g|
    requires Scoped(g, e, NextIndex(g, n)) == h && n < |h| && Append(h, h[n].edges, e) == edges
    ensures Pushed(g, n, e) == h[n := h[n].(edges := edges)]
  {
  }

  /** The arena before the first push of `x?`: the literal and the fresh head. */
  function QuestStart(): (g: Arena)
    ensures Wf(g) && |g| == 2
  {
    [Node(Text("abc"), 0, []), Node(Epsilon, 0, [])]
  }

  lemma QuestStartNew()
    ensures NewNode([Node(Text("abc"), 0, [])], Epsilon) == QuestStart()
  {
  }

  lemma QuestHalfNew()
    ensures NewNode([Node(Text("abc"), 1, []), Node(Epsilon, 0, [0])], Epsilon) == QuestHalf()
  {
  }

  /** `QuestStart` with the literal renumbered to 1. */
  function QuestScoped(): (g: Arena)
    ensures Wf(g) && |g| == 2
  {
    [Node(Text("abc"), 1, []), Node(Epsilon, 0, [])]
  }

  /** The first push of `x?` renumbers the literal to 1. */
  lemma QuestScopeFirst()
    ensures Scoped(QuestStart(), 0, NextIndex(QuestStart(), 1)) == QuestScoped()
  {
    QuestStartNext();
    QuestScopeOne();
  }

  lemma QuestStartNext()
    ensures NextIndex(QuestStart(), 1) == 1
  {
    MembsAlone(QuestStart(), 1);
    NextIndexAlone(QuestStart(), 1);
  }

  lemma QuestScopeOne()
    ensures Scoped(QuestStart(), 0, 1) == QuestScoped()
  {
    MembsAlone(QuestStart(), 0);
    ScopedAlone(QuestStart(), 0, 1);
  }

  /** The first push of `x?`: the literal becomes the head's edge. */
  lemma QuestPushFirst()
    ensures Pushed(QuestStart(), 1, 0) ==
      [Node(Text("abc"), 1, []), Node(Epsilon, 0, [0])]
  {
    QuestScopeFirst();
    AppendFirst(QuestScoped(), 0);
    PushedBy(QuestStart(), 1, 0, QuestScoped(), [0]);
  }

  /** The arena before the second push of `x?`: the literal, the head with
      its edge to the literal, and the fresh exit. */
  function QuestHalf(): (g: Arena)
    ensures Wf(g) && |g| == 3
  {
    [Node(Text("abc"), 1, []), Node(Epsilon, 0, [0]), Node(Epsilon, 0, [])]
  }

  /** The head's members are itself and the literal; the exit has only itself. */
  lemma QuestHalfMembs()
    ensures Membs(QuestHalf(), 1) == [1, 0] && Membs(QuestHalf(), 2) == [2]
  {
    MembsPair(QuestHalf(), 1, 0);
    MembsAlone(QuestHalf(), 2);
  }

  lemma QuestHalfNext()
    ensures NextIndex(QuestHalf(), 1) == 2
  {
    QuestHalfMembs();
    NextIndexPair(QuestHalf(), 1, 0);
  }

  /** `QuestHalf` with the exit renumbered to 2. */
  function QuestExit(): (g: Arena)
    ensures Wf(g) && |g| == 3
  {
    [Node(Text("abc"), 1, []), Node(Epsilon, 0, [0]), Node(Epsilon, 2, [])]
  }

  /** The second push of `x?` renumbers the fresh exit to 2. */
  lemma QuestScopeExit()
    ensures Scoped(QuestHalf(), 2, 2) == QuestExit()
  {
    MembsAlone(QuestHalf(), 2);
    ScopedAlone(QuestHalf(), 2, 2);
  }

  /** The second push of `x?`: the exit follows the literal in the head's edges. */
  lemma QuestPushExit()
    ensures Pushed(QuestHalf(), 1, 2) == QuestGraph()
  {
    QuestScopeExit();
    QuestHalfNext();
    AppendPair(QuestExit(), 0, 2);
    PushedBy(QuestHalf(), 1, 2, QuestExit(), [0, 2]);
    QuestClose();
  }

  lemma QuestClose()
    ensures QuestExit()[1 := QuestExit()[1].(edges := [0, 2])] == QuestGraph()
  {
  }

  /** The two pushes of `x?` on the one-node arena of `'abc'`. */
  lemma QuestBuilds()
    ensures QuestOf([Node(Text("abc"), 0, [])], 0) == QuestGraph()
  {
    var g: Arena := [Node(Text("abc"), 0, [])];
    QuestUnfold(g, 0);
    QuestStartNew();
    QuestPushFirst();
    QuestHalfNew();
    QuestPushExit();
  }

  /** After the group, `?` pops it and builds `QuestGraph`. */
  lemma QuestPops(src: seq<byte>, g1: Arena)
    requires |src| == 8 && g1 == [Node(Text("abc"), 0, [])]
    ensures ParseQuest(src, PState(8, [0], g1)) == Ok(Ref(1), PState(8, [], QuestGraph()))
  {
    QuestBuilds();
    assert ParsePreOp(PState(8, [0], g1), '?') == Ok(0, PState(8, [], g1));
  }

  /** The compiled `{'abc'}?` matches the empty input through its exit edge. */
  lemma QuestEmpty()
    ensures Match(Regex("{'abc'}?", Ref(1), QuestGraph()), "", 2) == Done(0)
  {
    RunsToExit(QuestGraph(), 1, 0, 2);
  }

  /** The compiled `{'abc'}?` matches `"abc"` in full through the literal
      edge, which it tries first. */
  lemma QuestFull()
    ensures Match(Regex("{'abc'}?", Ref(1), QuestGraph()), "abc", 2) == Done(3)
  {
    RunsLiteral(QuestGraph(), 1, 0, 2, "abc");
  }

  // ---------------------------------------------------------------------------
  // `{'abc'}*`

  /** The graph `StarOf` builds over a lone `'abc'` node: the head (node 1)
      tries the literal, whose edge leads back to the head, then the empty
      exit (node 2). */
  function StarGraph(): (g: Arena)
    ensures Wf(g) && |g| == 3 && Branch(g, 1) && !Branch(g, 0)
  {
    var g := [Node(Text("abc"), 1, [1]), Node(Epsilon, 0, [0, 2]), Node(Epsilon, 2, [])];
    assert g[g[1].edges[0]].index > g[1].index;
    g
  }

  /** A node whose one edge leads back has no member but itself. */
  lemma MembsBack(g: Arena, n: nat, b: nat)
    requires Wf(g) && n < |g| && b < |g| && g[n].edges == [b] && g[b].index <= g[n].index
    ensures Membs(g, n) == [n]
  {
    assert MembsFrom(g, n, 1) == [];
    assert MembsFrom(g, n, 0) == [];
  }

  /** The arena after the merge of `x*`: the literal above the head, and the
      head's edge to it. */
  function StarMerged(): (g: Arena)
    ensures Wf(g) && |g| == 2 && Branch(g, 1)
  {
    var g := [Node(Text("abc"), 1, []), Node(Epsilon, 0, [0])];
    assert g[g[1].edges[0]].index > g[1].index;
    g
  }

  /** The arena after `x*` concatenates the head onto itself. */
  function StarLooped(): (g: Arena)
    ensures Wf(g) && |g| == 2
  {
    [Node(Text("abc"), 1, [1]), Node(Epsilon, 0, [0])]
  }

  /** Concatenating onto a node that is its own only member and does not
      branch gives that node the edge. */
  lemma ConcatAlone(g: Arena, n: nat, t: nat)
    requires Wf(g) && n < |g| && t < |g| && Membs(g, n) == [n] && !Branch(g, n)
    ensures Concatenated(g, n, t) == g[n := g[n].(edges := Append(g, g[n].edges, t))]
  {
    assert Concatenated(g, n, t) == AppendEach(g, [n], t);
    assert [n][..0] == [];
    assert AppendEach(g, [n][..0], t) == g;
  }

  /** Concatenating onto a branching node whose other member does not branch
      gives that other member the edge and leaves the node alone. */
  lemma ConcatPastBranch(g: Arena, n: nat, e: nat, t: nat)
    requires Wf(g) && n < |g| && e < |g| && t < |g| && Membs(g, n) == [n, e]
    requires Branch(g, n) && !Branch(g, e)
    ensures Concatenated(g, n, t) == g[e := g[e].(edges := Append(g, g[e].edges, t))]
  {
    assert Concatenated(g, n, t) == AppendEach(g, [n, e], t);
    assert [n, e][..1] == [n] && [n][..0] == [];
    assert AppendEach(g, [n][..0], t) == g;
    assert AppendEach(g, [n, e][..1], t) == g;
  }

  /** The merge of `x*` moves the literal above the fresh head and makes it
      the head's edge. */
  lemma StarMergeFirst()
    ensures Merged(QuestStart(), 1, 0) == StarMerged()
  {
    QuestScopeFirst();
    MembsAlone(QuestScoped(), 1);
    ConcatAlone(QuestScoped(), 1, 0);
    AppendFirst(QuestScoped(), 0);
    StarMergeClose();
  }

  lemma StarMergeClose()
    ensures QuestScoped()[1 := QuestScoped()[1].(edges := [0])] == StarMerged()
  {
  }

  /** The concatenation of `x*` onto its own head: the literal, which does
      not branch, gets the edge back; the head, which does, is left alone. */
  lemma StarLoopBack()
    ensures Concatenated(StarMerged(), 1, 1) == StarLooped()
  {
    MembsPair(StarMerged(), 1, 0);
    ConcatPastBranch(StarMerged(), 1, 0, 1);
    AppendFirst(StarMerged(), 1);
  }

  /** The arena before the push of the exit of `x*`. */
  function StarHalf(): (g: Arena)
    ensures Wf(g) && |g| == 3
  {
    [Node(Text("abc"), 1, [1]), Node(Epsilon, 0, [0]), Node(Epsilon, 0, [])]
  }

  lemma StarHalfNew()
    ensures NewNode(StarLooped(), Epsilon) == StarHalf()
  {
  }

  /** The head's members are itself and the literal, whose edge leads back. */
  lemma StarHalfMembs()
    ensures Membs(StarHalf(), 1) == [1, 0]
  {
    MembsBack(StarHalf(), 0, 1);
    MembsChain(StarHalf(), 1, 0);
  }

  lemma StarHalfNext()
    ensures NextIndex(StarHalf(), 1) == 2
  {
    StarHalfMembs();
    NextIndexPair(StarHalf(), 1, 0);
  }

  /** `StarHalf` with the exit renumbered to 2. */
  function StarExit(): (g: Arena)
    ensures Wf(g) && |g| == 3
  {
    [Node(Text("abc"), 1, [1]), Node(Epsilon, 0, [0]), Node(Epsilon, 2, [])]
  }

  /** The push of the exit of `x*` renumbers the exit to 2. */
  lemma StarScopeExit()
    ensures Scoped(StarHalf(), 2, 2) == StarExit()
  {
    MembsAlone(StarHalf(), 2);
    ScopedAlone(StarHalf(), 2, 2);
  }

  /** The push of the exit of `x*`: the exit follows the literal in the head's edges. */
  lemma StarPushExit()
    ensures Pushed(StarHalf(), 1, 2) == StarGraph()
  {
    StarScopeExit();
    StarHalfNext();
    AppendPair(StarExit(), 0, 2);
    PushedBy(StarHalf(), 1, 2, StarExit(), [0, 2]);
    StarClose();
  }

  lemma StarClose()
    ensures StarExit()[1 := StarExit()[1].(edges := [0, 2])] == StarGraph()
  {
  }

  /** `x*` on the one-node arena of `'abc'`. */
  lemma StarBuilds()
    ensures StarOf([Node(Text("abc"), 0, [])], 0) == StarGraph()
  {
    var g: Arena := [Node(Text("abc"), 0, [])];
    StarUnfold(g, 0);
    QuestStartNew();
    StarMergeFirst();
    StarLoopBack();
    StarHalfNew();
    StarPushExit();
  }

  /** After the group, `*` pops it and builds `StarGraph`. */
  lemma StarPops(src: seq<byte>, g1: Arena)
    requires |src| == 8 && g1 == [Node(Text("abc"), 0, [])]
    ensures ParseStar(src, PState(8, [0], g1)) == Ok(Ref(1), PState(8, [], StarGraph()))
  {
    StarBuilds();
    assert ParsePreOp(PState(8, [0], g1), '*') == Ok(0, PState(8, [], g1));
  }

  /** `{'abc'}*` matches the empty input through its exit edge. */
  lemma StarEmpty()
    ensures Match(Regex("{'abc'}*", Ref(1), StarGraph()), "", 2) == Done(0)
  {
    RunsToExit(StarGraph(), 1, 0, 2);
  }

  /** `{'abc'}*` matches one `"abc"` through the literal edge. */
  lemma StarOnce()
    ensures Match(Regex("{'abc'}*", Ref(1), StarGraph()), "abc", 2) == Done(3)
  {
    RunsLiteral(StarGraph(), 1, 0, 2, "abc");
  }

  // ---------------------------------------------------------------------------
  // `{'a'|'b'}`

  /** The graph `OrOf` builds over `'a'` (node 0) and `'b'` (node 1): the head
      (node 2) tries `'a'` first, then `'b'`. */
  function OrGraph(): (g: Arena)
    ensures Wf(g) && |g| == 3 && Branch(g, 2)
  {
    var g := [Node(Text("a"), 1, []), Node(Text("b"), 2, []), Node(Epsilon, 0, [0, 1])];
    assert g[g[2].edges[0]].index > g[2].index;
    g
  }

  /** A one-byte literal with no edges, run on a different byte, fails. */
  lemma ByteMisses(g: Arena, n: nat, c: byte, d: byte)
    requires Wf(g) && n < |g| && g[n].state == Text([c]) && c != d
    ensures SubmitNode(g, n, [d], 0, 1) == Done(-1)
  {
    assert [c][..1] == [c] && [d][0..1] == [d];
  }

  /** A one-byte literal with no edges, run on that byte, consumes it. */
  lemma ByteHits(g: Arena, n: nat, c: byte)
    requires Wf(g) && n < |g| && g[n].state == Text([c]) && g[n].edges == []
    ensures SubmitNode(g, n, [c], 0, 1) == Done(1)
  {
    assert [c][..1] == [c] == [c][0..1];
  }

  /** The arena of the operands of `'a' | 'b'`. */
  function OrPair(): (g: Arena)
    ensures Wf(g) && |g| == 2
  {
    [Node(Text("a"), 0, []), Node(Text("b"), 0, [])]
  }

  /** The arena before the first push of `x | y`: `'a'`, `'b'` and the fresh head. */
  function OrStart(): (g: Arena)
    ensures Wf(g) && |g| == 3
  {
    [Node(Text("a"), 0, []), Node(Text("b"), 0, []), Node(Epsilon, 0, [])]
  }

  lemma OrStartNew()
    ensures NewNode(OrPair(), Epsilon) == OrStart()
  {
  }

  /** `OrStart` with `'a'` renumbered to 1. */
  function OrFirstScoped(): (g: Arena)
    ensures Wf(g) && |g| == 3
  {
    [Node(Text("a"), 1, []), Node(Text("b"), 0, []), Node(Epsilon, 0, [])]
  }

  /** The first push of `x | y` renumbers `'a'` to 1. */
  lemma OrScopeFirst()
    ensures Scoped(OrStart(), 0, NextIndex(OrStart(), 2)) == OrFirstScoped()
  {
    OrStartNext();
    OrScopeOne();
  }

  lemma OrStartNext()
    ensures NextIndex(OrStart(), 2) == 1
  {
    MembsAlone(OrStart(), 2);
    NextIndexAlone(OrStart(), 2);
  }

  lemma OrScopeOne()
    ensures Scoped(OrStart(), 0, 1) == OrFirstScoped()
  {
    MembsAlone(OrStart(), 0);
    ScopedAlone(OrStart(), 0, 1);
  }

  /** The arena between the two pushes: the head has its edge to `'a'`. */
  function OrHalf(): (g: Arena)
    ensures Wf(g) && |g| == 3
  {
    [Node(Text("a"), 1, []), Node(Text("b"), 0, []), Node(Epsilon, 0, [0])]
  }

  /** The first push of `x | y`: `'a'` becomes the head's edge. */
  lemma OrPushFirst()
    ensures Pushed(OrStart(), 2, 0) == OrHalf()
  {
    OrScopeFirst();
    AppendFirst(OrFirstScoped(), 0);
    PushedBy(OrStart(), 2, 0, OrFirstScoped(), [0]);
    OrHalfClose();
  }

  lemma OrHalfClose()
    ensures OrFirstScoped()[2 := OrFirstScoped()[2].(edges := [0])] == OrHalf()
  {
  }

  lemma OrHalfNext()
    ensures NextIndex(OrHalf(), 2) == 2
  {
    MembsPair(OrHalf(), 2, 0);
    NextIndexPair(OrHalf(), 2, 0);
  }

  /** `OrHalf` with `'b'` renumbered to 2. */
  function OrLast(): (g: Arena)
    ensures Wf(g) && |g| == 3
  {
    [Node(Text("a"), 1, []), Node(Text("b"), 2, []), Node(Epsilon, 0, [0])]
  }

  /** The second push of `x | y` renumbers `'b'` to 2. */
  lemma OrScopeSecond()
    ensures Scoped(OrHalf(), 1, 2) == OrLast()
  {
    MembsAlone(OrHalf(), 1);
    ScopedAlone(OrHalf(), 1, 2);
  }

  /** The second push of `x | y`: `'b'` follows `'a'` in the head's edges. */
  lemma OrPushSecond()
    ensures Pushed(OrHalf(), 2, 1) == OrGraph()
  {
    OrScopeSecond();
    OrHalfNext();
    AppendPair(OrLast(), 0, 1);
    PushedBy(OrHalf(), 2, 1, OrLast(), [0, 1]);
    OrClose();
  }

  lemma OrClose()
    ensures OrLast()[2 := OrLast()[2].(edges := [0, 1])] == OrGraph()
  {
  }

  /** `'a' | 'b'` after `'a'` is pushed: `|` pops it, reads `'b'` and builds `OrGraph`. */
  lemma OrPops(src: seq<byte>)
    requires src == "'a'|'b'"
    ensures ParseOr(src, PState(4, [0], [Node(Text("a"), 0, [])])) ==
      Ok(Ref(2), PState(7, [], OrGraph()))
  {
    var g1: Arena := [Node(Text("a"), 0, [])];
    var g2 := OrPair();
    QuotedUnit(src, PState(4, [], g1), 6);
    assert src[5..6] == "b";
    assert NewNode(g1, Text("b")) == g2;
    assert ParsePostOp(src, PState(4, [], g1), '|') == Ok(1, PState(7, [], g2));
    assert ParseBinOp(src, PState(4, [0], g1), '|') == Ok((0, 1), PState(7, [], g2));
    OrBuilds();
  }

  /** The two pushes of `x | y` on the arena of `'a'` and `'b'`. */
  lemma OrBuilds()
    ensures OrOf(OrPair(), 0, 1) == OrGraph()
  {
    OrUnfold(OrPair(), 0, 1);
    OrStartNew();
    OrPushFirst();
    OrPushSecond();
  }

  /** A branching epsilon head whose two edges are one-byte literals, run
      on an input of at most one byte, matches exactly that byte when it is
      one of the two, trying the first edge first. */
  lemma RunsEither(g: Arena, h: nat, x: nat, y: nat, c: byte, d: byte, expr: seq<byte>)
    requires Wf(g) && h < |g| && x < |g| && y < |g| && Branch(g, h)
    requires g[h].state == Epsilon && g[h].edges == [x, y] && g[x].index <= g[y].index
    requires g[x].state == Text([c]) && g[x].edges == [] && g[y].state == Text([d]) && g[y].edges == []
    requires |expr| <= 1
    ensures SubmitNode(g, h, expr, 0, 2) == if expr == [c] || expr == [d] then Done(1) else Done(-1)
  {
    SortPair(g, x, y);
    if expr == [] {
      assert SubmitNode(g, x, expr, 0, 1) == Done(-1);
      assert SubmitNode(g, y, expr, 0, 1) == Done(-1);
      assert SubmitEdges(g, [y], expr, 0, 1) == Done(-1);
    } else if expr == [c] {
      ByteHits(g, x, c);
    } else {
      assert expr == [expr[0]];
      ByteMisses(g, x, c, expr[0]);
      if expr == [d] {
        ByteHits(g, y, d);
      } else {
        ByteMisses(g, y, d, expr[0]);
        assert SubmitEdges(g, [y], expr, 0, 1) == Done(-1);
      }
    }
  }

  /** `{'a'|'b'}` matches `"a"` through its first edge, and `"b"` through its
      second once the first fails. */
  lemma OrEither()
    ensures Match(Regex("{'a'|'b'}", Ref(2), OrGraph()), "a", 2) == Done(1)
    ensures Match(Regex("{'a'|'b'}", Ref(2), OrGraph()), "b", 2) == Done(1)
  {
    RunsEither(OrGraph(), 2, 0, 1, 'a', 'b', "a");
    RunsEither(OrGraph(), 2, 0, 1, 'a', 'b', "b");
  }

  /** `{'a'|'b'}` matches neither `"c"` nor the empty input. */
  lemma OrNeither()
    ensures Match(Regex("{'a'|'b'}", Ref(2), OrGraph()), "c", 2) == Done(-1)
    ensures Match(Regex("{'a'|'b'}", Ref(2), OrGraph()), "", 2) == Done(-1)
  {
    RunsEither(OrGraph(), 2, 0, 1, 'a', 'b', "c");
    RunsEither(OrGraph(), 2, 0, 1, 'a', 'b', "");
  }

  // ---------------------------------------------------------------------------
  // `^~'c'`

  /** The graph `WaveOf` builds over `^` (node 0) and `'c'` (node 1): the
      head (node 2) tries `'c'` first, then `^`; `^` leads back to the head
      and, through the `none` node (node 3), branches, so it never ends a
      match. */
  function WaveGraph(): (g: Arena)
    ensures Wf(g) && |g| == 4 && Branch(g, 2) && Branch(g, 0) && !Branch(g, 1)
  {
    var g := [Node(Anything, 2, [2, 3]), Node(Text("c"), 1, []), Node(Epsilon, 0, [1, 0]), Node(None, 3, [])];
    assert g[g[2].edges[0]].index > g[2].index;
    assert g[g[0].edges[1]].index > g[0].index;
    g
  }

  /** The arena of the operands of `^ ~ 'c'`. */
  function WavePair(): (g: Arena)
    ensures Wf(g) && |g| == 2
  {
    [Node(Anything, 0, []), Node(Text("c"), 0, [])]
  }

  /** The arena before the first push of `x ~ y`: the operands and the fresh head. */
  function WaveStart(): (g: Arena)
    ensures Wf(g) && |g| == 3
  {
    [Node(Anything, 0, []), Node(Text("c"), 0, []), Node(Epsilon, 0, [])]
  }

  lemma WaveStartNew()
    ensures NewNode(WavePair(), Epsilon) == WaveStart()
  {
  }

  /** `WaveStart` with `'c'` renumbered to 1. */
  function WavePostScoped(): (g: Arena)
    ensures Wf(g) && |g| == 3
  {
    [Node(Anything, 0, []), Node(Text("c"), 1, []), Node(Epsilon, 0, [])]
  }

  /** The first push of `x ~ y`, of `y`, renumbers `'c'` to 1. */
  lemma WaveScopePost()
    ensures Scoped(WaveStart(), 1, NextIndex(WaveStart(), 2)) == WavePostScoped()
  {
    MembsAlone(WaveStart(), 2);
    MembsAlone(WaveStart(), 1);
    NextIndexAlone(WaveStart(), 2);
    ScopedAlone(WaveStart(), 1, 1);
  }

  /** The arena between the two pushes: the head has its edge to `'c'`. */
  function WaveHalf(): (g: Arena)
    ensures Wf(g) && |g| == 3
  {
    [Node(Anything, 0, []), Node(Text("c"), 1, []), Node(Epsilon, 0, [1])]
  }

  /** The push of `y`: `'c'` becomes the head's edge. */
  lemma WavePushPost()
    ensures Pushed(WaveStart(), 2, 1) == WaveHalf()
  {
    WaveScopePost();
    AppendFirst(WavePostScoped(), 1);
    PushedBy(WaveStart(), 2, 1, WavePostScoped(), [1]);
    WaveHalfClose();
  }

  lemma WaveHalfClose()
    ensures WavePostScoped()[2 := WavePostScoped()[2].(edges := [1])] == WaveHalf()
  {
  }

  lemma WaveHalfNext()
    ensures NextIndex(WaveHalf(), 2) == 2
  {
    MembsPair(WaveHalf(), 2, 1);
    NextIndexPair(WaveHalf(), 2, 1);
  }

  /** `WaveHalf` with `^` renumbered to 2. */
  function WavePreScoped(): (g: Arena)
    ensures Wf(g) && |g| == 3
  {
    [Node(Anything, 2, []), Node(Text("c"), 1, []), Node(Epsilon, 0, [1])]
  }

  /** The second push, of `x`, renumbers `^` to 2. */
  lemma WaveScopePre()
    ensures Scoped(WaveHalf(), 0, 2) == WavePreScoped()
  {
    MembsAlone(WaveHalf(), 0);
    ScopedAlone(WaveHalf(), 0, 2);
  }

  /** The arena after both pushes: the head tries `'c'`, then `^`. */
  function WaveBoth(): (g: Arena)
    ensures Wf(g) && |g| == 3
  {
    [Node(Anything, 2, []), Node(Text("c"), 1, []), Node(Epsilon, 0, [1, 0])]
  }

  /** The push of `x`: `^` follows `'c'` in the head's edges. */
  lemma WavePushPre()
    ensures Pushed(WaveHalf(), 2, 0) == WaveBoth()
  {
    WaveScopeNext();
    WaveAppendPre();
    PushedBy(WaveHalf(), 2, 0, WavePreScoped(), [1, 0]);
    WaveBothClose();
  }

  lemma WaveScopeNext()
    ensures Scoped(WaveHalf(), 0, NextIndex(WaveHalf(), 2)) == WavePreScoped()
  {
    WaveScopePre();
    WaveHalfNext();
  }

  lemma WaveAppendPre()
    ensures Append(WavePreScoped(), WavePreScoped()[2].edges, 0) == [1, 0]
  {
    AppendPair(WavePreScoped(), 1, 0);
  }

  lemma WaveBothClose()
    ensures WavePreScoped()[2 := WavePreScoped()[2].(edges := [1, 0])] == WaveBoth()
  {
  }

  /** The arena after `x ~ y` concatenates the head onto `x`. */
  function WaveBack(): (g: Arena)
    ensures Wf(g) && |g| == 3
  {
    [Node(Anything, 2, [2]), Node(Text("c"), 1, []), Node(Epsilon, 0, [1, 0])]
  }

  /** The concatenation of the head onto `x`: `^`, which does not branch,
      gets the edge back to the head. */
  lemma WaveLoopBack()
    ensures Concatenated(WaveBoth(), 0, 2) == WaveBack()
  {
    MembsAlone(WaveBoth(), 0);
    ConcatAlone(WaveBoth(), 0, 2);
    AppendFirst(WaveBoth(), 2);
  }

  /** The arena with the fresh `none` node, before it is merged after `x`. */
  function WaveOpen(): (g: Arena)
    ensures Wf(g) && |g| == 4
  {
    [Node(Anything, 2, [2]), Node(Text("c"), 1, []), Node(Epsilon, 0, [1, 0]), Node(None, 0, [])]
  }

  lemma WaveOpenNew()
    ensures NewNode(WaveBack(), None) == WaveOpen()
  {
  }

  /** `WaveOpen` with the `none` node renumbered to 3. */
  function WaveRaised(): (g: Arena)
    ensures Wf(g) && |g| == 4
  {
    [Node(Anything, 2, [2]), Node(Text("c"), 1, []), Node(Epsilon, 0, [1, 0]), Node(None, 3, [])]
  }

  /** The edge of `^` back to the head leaves `^` its only member, so the
      `none` node is renumbered above it, to 3. */
  lemma WaveOpenNext()
    ensures NextIndex(WaveOpen(), 0) == 3
  {
    MembsBack(WaveOpen(), 0, 2);
    NextIndexAlone(WaveOpen(), 0);
  }

  lemma WaveScopeNone()
    ensures Scoped(WaveOpen(), 3, 3) == WaveRaised()
  {
    MembsAlone(WaveOpen(), 3);
    ScopedAlone(WaveOpen(), 3, 3);
    WaveRaisedClose();
  }

  lemma WaveRaisedClose()
    ensures WaveOpen()[3 := WaveOpen()[3].(index := 3)] == WaveRaised()
  {
  }

  /** `^`, which does not branch yet, gains the edge to the `none` node
      after its edge back to the head. */
  lemma WaveStopEdge()
    ensures Concatenated(WaveRaised(), 0, 3) == WaveGraph()
  {
    MembsBack(WaveRaised(), 0, 2);
    assert !Branch(WaveRaised(), 0);
    ConcatAlone(WaveRaised(), 0, 3);
    AppendPair(WaveRaised(), 2, 3);
    WaveClose();
  }

  /** The merge of the `none` node after `^`. */
  lemma WaveMergeNone()
    ensures Merged(WaveOpen(), 0, 3) == WaveGraph()
  {
    WaveOpenNext();
    WaveScopeNone();
    WaveStopEdge();
  }

  lemma WaveClose()
    ensures WaveRaised()[0 := WaveRaised()[0].(edges := [2, 3])] == WaveGraph()
  {
  }

  /** `x ~ y` on the arena of `^` and `'c'`. */
  lemma WaveBuilds()
    ensures WaveOf(WavePair(), 0, 1) == WaveGraph()
  {
    WaveUnfold(WavePair(), 0, 1);
    WaveStartNew();
    WavePushPost();
    WavePushPre();
    WaveLoopBack();
    WaveOpenNew();
    WaveMergeNone();
  }

  /** `^~'c'` after `^` is pushed: `~` pops it, reads `'c'` and builds `WaveGraph`. */
  lemma WavePops(src: seq<byte>)
    requires src == "^~'c'"
    ensures ParseWave(src, PState(2, [0], [Node(Anything, 0, [])])) ==
      Ok(Ref(2), PState(5, [], WaveGraph()))
  {
    var g1: Arena := [Node(Anything, 0, [])];
    QuotedUnit(src, PState(2, [], g1), 4);
    assert src[3..4] == "c";
    assert NewNode(g1, Text("c")) == WavePair();
    assert ParsePostOp(src, PState(2, [], g1), '~') == Ok(1, PState(5, [], WavePair()));
    assert ParseBinOp(src, PState(2, [0], g1), '~') == Ok((0, 1), PState(5, [], WavePair()));
    WaveBuilds();
  }

  /** The index of the first `c` in `e` at or after `i`, or -1 when there is none. */
  function FirstFrom(e: seq<byte>, i: nat, c: byte): (j: int)
    requires i <= |e|
    ensures j == -1 <==> forall k :: i <= k < |e| ==> e[k] != c
    ensures j != -1 ==> i <= j < |e| && e[j] == c && forall k :: i <= k < j ==> e[k] != c
    decreases |e| - i
  {
    if i == |e| then -1
    else if e[i] == c then i
    else FirstFrom(e, i + 1, c)
  }

  /** The shape of `^ ~ 'c'`: the head `h` tries the literal `y` first, then
      `^` at `x`; `x` leads back to the head and on to the `none` node `s`,
      so it branches. */
  predicate AnyUntil(g: Arena, h: nat, x: nat, y: nat, s: nat, c: byte)
    requires Wf(g)
  {
    h < |g| && x < |g| && y < |g| && s < |g| &&
    g[h] == Node(Epsilon, g[h].index, [y, x]) &&
    g[y] == Node(Text([c]), g[y].index, []) &&
    g[x] == Node(Anything, g[x].index, [h, s]) &&
    g[s].state == None &&
    g[h].index < g[y].index <= g[x].index < g[s].index
  }

  /** The head tries the literal, then `^`. */
  lemma UntilHead(g: Arena, h: nat, x: nat, y: nat, s: nat, c: byte, e: seq<byte>, i: nat, f: nat)
    requires Wf(g) && AnyUntil(g, h, x, y, s, c) && i <= |e|
    ensures SubmitNode(g, h, e, i, f + 1) == SubmitEdges(g, [y, x], e, i, f)
  {
    SortPair(g, y, x);
    assert g[g[h].edges[0]].index > g[h].index;
  }

  /** `^` takes one byte, then tries the head, then the `none` node. */
  lemma UntilAny(g: Arena, h: nat, x: nat, y: nat, s: nat, c: byte, e: seq<byte>, i: nat, f: nat)
    requires Wf(g) && AnyUntil(g, h, x, y, s, c) && i < |e|
    ensures SubmitNode(g, x, e, i, f + 1) == SubmitEdges(g, [h, s], e, i + 1, f)
  {
    SortPair(g, h, s);
    assert g[g[x].edges[1]].index > g[x].index;
  }

  /** The literal, which has no edges, matches one `c` and ends there. */
  lemma UntilText(g: Arena, h: nat, x: nat, y: nat, s: nat, c: byte, e: seq<byte>, i: nat, f: nat)
    requires Wf(g) && AnyUntil(g, h, x, y, s, c) && i <= |e|
    ensures SubmitNode(g, y, e, i, f + 1) == if i < |e| && e[i] == c then Done(i + 1) else Done(-1)
  {
    if i < |e| {
      assert Min(1, |e| - i) == 1;
      assert e[i..i + 1] == [e[i]] && [c][..1] == [c];
      if e[i] == c {
        assert SubmitState(g, Text([c]), e, i, f) == Done(i + 1);
        assert SortByIndex(g, []) == [];
        assert Proceed(g, y, e, i + 1, f) == Done(i + 1);
      } else {
        assert SubmitState(g, Text([c]), e, i, f) == Done(-1);
      }
    }
  }

  /** Two edges: the first decides when it matches, the second otherwise. */
  lemma EdgesOfTwo(g: Arena, x: nat, y: nat, e: seq<byte>, i: nat, f: nat)
    requires Wf(g) && x < |g| && y < |g| && i <= |e|
    requires SubmitNode(g, x, e, i, f).Done?
    requires SubmitNode(g, x, e, i, f).at == -1 ==> SubmitNode(g, y, e, i, f).Done?
    ensures SubmitEdges(g, [x, y], e, i, f) ==
      if SubmitNode(g, x, e, i, f).at != -1 then SubmitNode(g, x, e, i, f) else SubmitNode(g, y, e, i, f)
  {
    var rx := SubmitNode(g, x, e, i, f);
    assert [x, y][1..] == [y] && [y][1..] == [];
    assert SubmitEdges(g, [x, y], e, i, f) == if rx.at != -1 then rx else SubmitEdges(g, [y], e, i, f);
    if rx.at == -1 {
      var ry := SubmitNode(g, y, e, i, f);
      assert SubmitEdges(g, [y], e, i, f) == if ry.at != -1 then ry else SubmitEdges(g, [], e, i, f);
    }
  }

  /** At the end of the input neither the literal nor `^` matches. */
  lemma UntilEnd(g: Arena, h: nat, x: nat, y: nat, s: nat, c: byte, e: seq<byte>, f: nat)
    requires Wf(g) && AnyUntil(g, h, x, y, s, c) && f >= 2
    ensures SubmitNode(g, h, e, |e|, f) == Done(-1)
  {
    UntilHead(g, h, x, y, s, c, e, |e|, f - 1);
    UntilText(g, h, x, y, s, c, e, |e|, f - 2);
    assert SubmitNode(g, x, e, |e|, f - 1) == Done(-1);
    EdgesOfTwo(g, y, x, e, |e|, f - 1);
  }

  /** On a `c` the head's first edge, the literal, ends the match after it. */
  lemma UntilFound(g: Arena, h: nat, x: nat, y: nat, s: nat, c: byte, e: seq<byte>, i: nat, f: nat)
    requires Wf(g) && AnyUntil(g, h, x, y, s, c) && i < |e| && e[i] == c && f >= 2
    ensures SubmitNode(g, h, e, i, f) == Done(i + 1)
  {
    UntilHead(g, h, x, y, s, c, e, i, f - 1);
    UntilText(g, h, x, y, s, c, e, i, f - 2);
    EdgesOfTwo(g, y, x, e, i, f - 1);
  }

  /** On any other byte the literal fails, `^` takes the byte and the head
      starts again one byte on; when that fails, so does the `none` node. */
  lemma UntilSkips(g: Arena, h: nat, x: nat, y: nat, s: nat, c: byte, e: seq<byte>, i: nat, f: nat)
    requires Wf(g) && AnyUntil(g, h, x, y, s, c) && i < |e| && e[i] != c && f >= 3
    requires SubmitNode(g, h, e, i + 1, f - 2).Done?
    ensures SubmitNode(g, h, e, i, f) == SubmitNode(g, h, e, i + 1, f - 2)
  {
    UntilHead(g, h, x, y, s, c, e, i, f - 1);
    UntilText(g, h, x, y, s, c, e, i, f - 2);
    UntilAny(g, h, x, y, s, c, e, i, f - 2);
    assert SubmitNode(g, s, e, i + 1, f - 2) == Done(-1);
    EdgesOfTwo(g, h, s, e, i + 1, f - 2);
    EdgesOfTwo(g, y, x, e, i, f - 1);
  }

  /** From position `i`, with fuel for two visits per byte left, the head of
      `^ ~ 'c'` matches up to and including the first `c`, and fails when
      there is none: `^` never ends a match, so the wave runs on until the
      literal is found. */
  lemma {:induction false} UntilFinds(g: Arena, h: nat, x: nat, y: nat, s: nat, c: byte, e: seq<byte>, i: nat, f: nat)
    requires Wf(g) && AnyUntil(g, h, x, y, s, c) && i <= |e| && f >= 2 * (|e| - i) + 2
    ensures var j := FirstFrom(e, i, c);
      SubmitNode(g, h, e, i, f) == if j == -1 then Done(-1) else Done(j + 1)
    decreases |e| - i
  {
    if i < |e| && e[i] != c {
      UntilFinds(g, h, x, y, s, c, e, i + 1, f - 2);
    }
    UntilStep(g, h, x, y, s, c, e, i, f);
  }

  /** One visit of the head: fail at the end, stop after a `c`, and
      otherwise start again one byte on. */
  lemma UntilStep(g: Arena, h: nat, x: nat, y: nat, s: nat, c: byte, e: seq<byte>, i: nat, f: nat)
    requires Wf(g) && AnyUntil(g, h, x, y, s, c) && i <= |e| && f >= 2
    ensures i == |e| ==> SubmitNode(g, h, e, i, f) == Done(-1)
    ensures i < |e| && e[i] == c ==> SubmitNode(g, h, e, i, f) == Done(i + 1)
    ensures i < |e| && e[i] != c && f >= 3 && SubmitNode(g, h, e, i + 1, f - 2).Done? ==>
      SubmitNode(g, h, e, i, f) == SubmitNode(g, h, e, i + 1, f - 2)
  {
    if i == |e| {
      UntilEnd(g, h, x, y, s, c, e, f);
    } else if e[i] == c {
      UntilFound(g, h, x, y, s, c, e, i, f);
    } else if f >= 3 && SubmitNode(g, h, e, i + 1, f - 2).Done? {
      UntilSkips(g, h, x, y, s, c, e, i, f);
    }
  }

  /** `WaveGraph` has the shape of `^ ~ 'c'`, with its head at node 2. */
  lemma WaveGraphUntil()
    ensures AnyUntil(WaveGraph(), 2, 0, 1, 3, 'c')
  {
  }

  /** The test's input `"abc"` is matched in full; `"ab"`, which has no `c`,
      is not matched at all. */
  lemma WaveRuns()
    ensures Match(Regex("^~'c'", Ref(2), WaveGraph()), "abc", 8) == Done(3)
    ensures Match(Regex("^~'c'", Ref(2), WaveGraph()), "ab", 6) == Done(-1)
  {
    WaveGraphUntil();
    UntilFinds(WaveGraph(), 2, 0, 1, 3, 'c', "abc", 0, 8);
    assert FirstFrom("abc", 0, 'c') == 2;
    UntilFinds(WaveGraph(), 2, 0, 1, 3, 'c', "ab", 0, 6);
    assert FirstFrom("ab", 0, 'c') == -1;
  }

  // ---------------------------------------------------------------------------
  // Empty groups as operands

  /** A unit that fails fails the loop, and so the whole source. */
  lemma LoopFails(src: seq<byte>, st: PState, e: ParseError)
    requires Valid(src, st) && st.pos < |src| && NextToken(src, st) == Err(e)
    ensures ParseLoop(src, st) == Err(e)
  {
  }

  /** A leading `{}` pushes nothing, so an operator after it finds the
      stack empty. */
  lemma EmptyThenOperator(src: seq<byte>)
    requires |src| > 2 && src[0] == '{' && src[1] == '}' && src[2] in "|?*+~"
    ensures NewRegex(src) == Fail(MissingPreOperand(src[2]))
  {
    var st0 := PState(0, [], []);
    NilUnit(src, st0, 0);
    MissingLeft(src, PState(2, [], []));
    LoopFails(src, PState(2, [], []), MissingPreOperand(src[2]));
    assert ParseLoop(src, st0) == ParseLoop(src, PState(2, [], []));
  }

  /** `{}+`, `{}*`, `{}?`, `{}|'b'`, `{}~` and `~{}` all lack a left operand;
      `'a'|{}` lacks a right one. */
  lemma EmptyOperands()
    ensures NewRegex("{}+") == Fail(MissingPreOperand('+'))
    ensures NewRegex("{}*") == Fail(MissingPreOperand('*'))
    ensures NewRegex("{}?") == Fail(MissingPreOperand('?'))
    ensures NewRegex("{}|'b'") == Fail(MissingPreOperand('|'))
    ensures NewRegex("{}~") == Fail(MissingPreOperand('~'))
    ensures NewRegex("~{}") == Fail(MissingPreOperand('~'))
    ensures NewRegex("'a'|{}") == Fail(MissingPostOperand('|'))
  {
    EmptyThenOperator("{}+");
    EmptyThenOperator("{}*");
    EmptyThenOperator("{}?");
    EmptyThenOperator("{}|'b'");
    EmptyThenOperator("{}~");
    MissingLeft("~{}", PState(0, [], []));
    LoopFails("~{}", PState(0, [], []), MissingPreOperand('~'));
    OrEmptyRight();
  }

  /** `'a'|{}`: the literal is pushed, then `|` finds only `{}` after it. */
  lemma OrEmptyRight()
    ensures NewRegex("'a'|{}") == Fail(MissingPostOperand('|'))
  {
    var src: seq<byte> := "'a'|{}";
    var g1: Arena := [Node(Text("a"), 0, [])];
    QuotedUnit(src, PState(0, [], []), 2);
    assert src[1..2] == "a";
    LoopPush(src, PState(0, [], []), 0, PState(3, [], g1));
    assert [] + [0] == [0];
    assert NilAt(src, 4, 4);
    MissingRight(src, PState(3, [0], g1), 4);
    LoopFails(src, PState(3, [0], g1), MissingPostOperand('|'));
    assert ParseLoop(src, PState(0, [], [])) == Err(MissingPostOperand('|'));
  }
}
