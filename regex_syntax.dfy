/** Properties of the pattern compiler: literals are read verbatim, groups
    end at their matching brace, ranges have a fixed five-byte shape, and
    each malformed input produces its error. */
module RegexSyntax {
  import opened RegexGraph
  import opened RegexCompile

  // ---------------------------------------------------------------------------
  // Literals

  /** A literal is the bytes up to the first `stop`, taken as they are (no
      escape is interpreted); without a closing `stop` the read fails. */
  lemma {:induction false} ReadTextVerbatim(src: seq<byte>, pos: nat, stop: byte)
    requires pos <= |src|
    ensures var r := ReadText(src, pos, stop);
      (r.Fail? <==> stop !in src[pos..]) &&
      (r.Fail? ==> r.e == UnterminatedText) &&
      (r.Got? ==> pos < r.v.1 <= |src| && src[r.v.1 - 1] == stop &&
                  r.v.0 == src[pos..r.v.1 - 1] && stop !in r.v.0)
    decreases |src| - pos
  {
    if pos < |src| {
      assert src[pos..] == [src[pos]] + src[pos + 1..];
      if src[pos] != stop {
        ReadTextVerbatim(src, pos + 1, stop);
        var r := ReadText(src, pos + 1, stop);
        if r.Got? {
          assert src[pos..r.v.1 - 1] == [src[pos]] + src[pos + 1..r.v.1 - 1];
        }
      }
    }
  }

  // ---------------------------------------------------------------------------
  // Groups

  function Delta(b: byte): int
  {
    if b == '{' then 1 else if b == '}' then -1 else 0
  }

  /** Opening minus closing braces in `s`. */
  function Depth(s: seq<byte>): int
  {
    if s == [] then 0 else Delta(s[0]) + Depth(s[1..])
  }

  /** The nesting change over `src[from..to]`. */
  function Nesting(src: seq<byte>, from: nat, to: nat): int
    requires from <= to <= |src|
  {
    Depth(src[from..to])
  }

  lemma NestingCons(src: seq<byte>, pos: nat, k: nat)
    requires pos < k <= |src|
    ensures Nesting(src, pos, k) == Delta(src[pos]) + Nesting(src, pos + 1, k)
  {
    assert src[pos..k][1..] == src[pos + 1..k];
  }

  /** A group read at nesting `depth` ends right after the first `}` that
      brings the nesting to zero, and holds the bytes before that brace. */
  lemma {:induction false} ReadGroupBalanced(src: seq<byte>, pos: nat, depth: nat)
    requires pos <= |src| && depth >= 1
    ensures var r := ReadGroup(src, pos, depth);
      r.Got? ==> pos < r.v.1 <= |src| && src[r.v.1 - 1] == '}' &&
                 r.v.0 == src[pos..r.v.1 - 1] &&
                 depth + Nesting(src, pos, r.v.1) == 0 &&
                 forall k :: pos <= k < r.v.1 ==> depth + Nesting(src, pos, k) >= 1
    decreases |src| - pos
  {
    var r := ReadGroup(src, pos, depth);
    if r.Got? {
      var tok := src[pos];
      var d := depth + Delta(tok);
      assert Nesting(src, pos, pos) == 0;
      if d < 1 {
        NestingCons(src, pos, pos + 1);
        assert Nesting(src, pos + 1, pos + 1) == 0;
      } else {
        ReadGroupBalanced(src, pos + 1, d);
        ReadGroupNext(src, pos, depth);
        var q := ReadGroup(src, pos + 1, d);
        BalancedShift(src, pos, pos + 1, depth, q.v.1);
      }
    }
  }

  /** Balance from the byte after `pos` carries over to `pos` itself. */
  lemma BalancedShift(src: seq<byte>, pos: nat, next: nat, depth: nat, e: nat)
    requires next == pos + 1 && next <= e <= |src| && depth >= 1 && depth + Delta(src[pos]) >= 1
    requires depth + Delta(src[pos]) + Nesting(src, next, e) == 0
    requires forall k :: next <= k < e ==> depth + Delta(src[pos]) + Nesting(src, next, k) >= 1
    ensures depth + Nesting(src, pos, e) == 0
    ensures forall k :: pos <= k < e ==> depth + Nesting(src, pos, k) >= 1
  {
    NestingShift(src, pos, depth, e);
    forall k | pos <= k < e
      ensures depth + Nesting(src, pos, k) >= 1
    {
      if k == pos {
        assert Nesting(src, pos, pos) == 0;
      } else {
        assert depth + Delta(src[pos]) + Nesting(src, next, k) >= 1;
        assert depth + Nesting(src, pos, k) == depth + Delta(src[pos]) + Nesting(src, pos + 1, k);
      }
    }
  }

  /** A read that goes on past its first byte ends where the read from the
      next byte, at the new depth, ends. */
  lemma ReadGroupNext(src: seq<byte>, pos: nat, depth: nat)
    requires pos < |src| && depth >= 1 && depth + Delta(src[pos]) >= 1
    ensures var r := ReadGroup(src, pos, depth); var q := ReadGroup(src, pos + 1, depth + Delta(src[pos]));
      (r.Got? <==> q.Got?) && (r.Got? ==> r.v.1 == q.v.1)
  {
  }

  /** Past its first byte, the nesting of a stretch is that byte's change
      plus the nesting of the rest. */
  lemma NestingShift(src: seq<byte>, pos: nat, depth: int, end: nat)
    requires pos < end <= |src|
    ensures forall k :: pos < k <= end ==>
      depth + Nesting(src, pos, k) == depth + Delta(src[pos]) + Nesting(src, pos + 1, k)
  {
    forall k | pos < k <= end
      ensures depth + Nesting(src, pos, k) == depth + Delta(src[pos]) + Nesting(src, pos + 1, k)
    {
      NestingCons(src, pos, k);
    }
  }

  /** Starting at nesting `depth`, no prefix of `src[from..]` brings the nesting to zero. */
  predicate NeverCloses(src: seq<byte>, from: nat, depth: int)
    requires from <= |src|
  {
    forall k :: from <= k <= |src| ==> depth + Nesting(src, from, k) >= 1
  }

  /** When the nesting never reaches zero the brace is unmatched, and only then. */
  lemma {:induction false} ReadGroupUnmatched(src: seq<byte>, pos: nat, depth: nat)
    requires pos <= |src| && depth >= 1
    ensures var r := ReadGroup(src, pos, depth);
      (r.Fail? <==> NeverCloses(src, pos, depth)) &&
      (r.Fail? ==> r.e == UnmatchedOpenBrace)
    decreases |src| - pos
  {
    var r := ReadGroup(src, pos, depth);
    assert Nesting(src, pos, pos) == 0;
    if pos < |src| {
      var d := depth + Delta(src[pos]);
      NestingShift(src, pos, depth, |src|);
      if d < 1 {
        assert Nesting(src, pos + 1, pos + 1) == 0;
        assert depth + Nesting(src, pos, pos + 1) < 1;
      } else {
        ReadGroupUnmatched(src, pos + 1, d);
        ReadGroupNext(src, pos, depth);
        if NeverCloses(src, pos + 1, d) {
          forall k | pos <= k <= |src| ensures depth + Nesting(src, pos, k) >= 1 {
            if k > pos {
              assert d + Nesting(src, pos + 1, k) >= 1;
            }
          }
        } else {
          var k :| pos + 1 <= k <= |src| && d + Nesting(src, pos + 1, k) < 1;
          assert depth + Nesting(src, pos, k) < 1;
        }
      }
    }
  }

  // ---------------------------------------------------------------------------
  // Ranges

  /** `[a-b]` compiles exactly when the four bytes after `[` are `a`, `-`,
      `b`, `]` with `a <= b`; it then adds one node testing that interval. */
  lemma ScopeShape(src: seq<byte>, st: PState)
    requires Valid(src, st)
    ensures var r := ParseScope(src, st);
      (r.Ok? <==> st.pos + 4 <= |src| && src[st.pos + 1] == '-' && src[st.pos + 3] == ']' &&
                  src[st.pos] <= src[st.pos + 2]) &&
      (r.Ok? ==> r.st.g == NewNode(st.g, Scope(src[st.pos], src[st.pos + 2]))) &&
      (r.Err? ==> r.e == ExpectedHyphen || r.e == ExpectedCloseBracket || r.e == EmptyInterval)
  {
  }

  // ---------------------------------------------------------------------------
  // Errors

  /** The empty group `{}` compiles to no unit and adds no node. */
  lemma EmptyGroup(src: seq<byte>, st: PState)
    requires Valid(src, st) && st.pos < |src| && src[st.pos] == '}'
    ensures ParseSequence(src, st) == Ok(Nil, st.(pos := st.pos + 1))
  {
    var next: nat := st.pos + 1;
    assert ReadGroup(src, st.pos, 1) == Got(([], next));
    assert ParseLoop([], PState(0, [], st.g)) == Ok((), PState(0, [], st.g));
  }

  /** A blank is skipped: the unit read from it is the unit read one byte on. */
  lemma BlankSkips(src: seq<byte>, st: PState)
    requires Valid(src, st) && st.pos < |src| && src[st.pos] in Blanks
    ensures NextToken(src, st) == NextToken(src, st.(pos := st.pos + 1))
  {
  }

  /** From `from`, blanks up to `j`, then the end of input or an empty group. */
  predicate NilAt(src: seq<byte>, from: nat, j: nat)
  {
    from <= j <= |src| && (forall k :: from <= k < j ==> src[k] in Blanks) &&
    (j == |src| || (j + 1 < |src| && src[j] == '{' && src[j + 1] == '}'))
  }

  /** Blanks followed by the end of input or by `{}`: no unit, and the
      reader is past them. */
  lemma {:induction false} NilUnit(src: seq<byte>, st: PState, j: nat)
    requires Valid(src, st) && NilAt(src, st.pos, j)
    ensures NextToken(src, st) == Ok(Nil, st.(pos := if j == |src| then j else j + 2))
    decreases j - st.pos
  {
    if st.pos < j {
      NilUnit(src, st.(pos := st.pos + 1), j);
    } else if j < |src| {
      DispatchGroup(src, st);
      EmptyGroup(src, st.(pos := j + 1));
    }
  }

  /** A postfix or infix operator with an empty stack fails for want of a left operand. */
  lemma MissingLeft(src: seq<byte>, st: PState)
    requires Valid(src, st) && st.pos < |src| && st.stack == []
    requires src[st.pos] in "|?*+~"
    ensures NextToken(src, st) == Err(MissingPreOperand(src[st.pos]))
  {
    assert src[st.pos] !in Blanks;
  }

  /** An infix operator with its left operand present, followed only by
      blanks and then the end of input or `{}`, fails for want of a right
      operand. */
  lemma MissingRightInfix(src: seq<byte>, st: PState, j: nat)
    requires Valid(src, st) && st.pos < |src| && st.stack != []
    requires src[st.pos] == '|' || src[st.pos] == '~'
    requires NilAt(src, st.pos + 1, j)
    ensures ParseBinOp(src, st.(pos := st.pos + 1), src[st.pos]) == Err(MissingPostOperand(src[st.pos]))
  {
    var op := src[st.pos];
    var st1 := st.(pos := st.pos + 1);
    var st2 := st1.(stack := st.stack[..|st.stack| - 1]);
    assert ParsePreOp(st1, op) == Ok(st.stack[|st.stack| - 1], st2);
    NilUnit(src, st2, j);
    assert ParsePostOp(src, st2, op) == Err(MissingPostOperand(op));
  }

  /** A prefix operator followed only by blanks and then the end of input or
      `{}` fails for want of its operand. */
  lemma MissingRightPrefix(src: seq<byte>, st: PState, j: nat)
    requires Valid(src, st) && st.pos < |src|
    requires src[st.pos] == '!' || src[st.pos] == '/'
    requires NilAt(src, st.pos + 1, j)
    ensures ParsePostOp(src, st.(pos := st.pos + 1), src[st.pos]) == Err(MissingPostOperand(src[st.pos]))
  {
    NilUnit(src, st.(pos := st.pos + 1), j);
  }

  /** A prefix operator, or an infix one with its left operand present,
      followed only by blanks and then the end of input or `{}` fails for
      want of a right operand. */
  lemma MissingRight(src: seq<byte>, st: PState, j: nat)
    requires Valid(src, st) && st.pos < |src|
    requires src[st.pos] in "!/" || (src[st.pos] in "|~" && st.stack != [])
    requires NilAt(src, st.pos + 1, j)
    ensures NextToken(src, st) == Err(MissingPostOperand(src[st.pos]))
  {
    var st1 := st.(pos := st.pos + 1);
    assert src[st.pos] !in Blanks;
    if src[st.pos] in "|~" {
      MissingRightInfix(src, st, j);
      assert ParseBinOp(src, st1, src[st.pos]).Err?;
    } else {
      MissingRightPrefix(src, st, j);
      assert ParsePostOp(src, st1, src[st.pos]).Err?;
    }
  }

  /** A quote with no closing quote after it is an unterminated literal. */
  lemma Unterminated(src: seq<byte>, st: PState)
    requires Valid(src, st) && st.pos < |src| && (src[st.pos] == '\'' || src[st.pos] == '`')
    requires src[st.pos] !in src[st.pos + 1..]
    ensures NextToken(src, st) == Err(UnterminatedText)
  {
    assert src[st.pos] !in Blanks;
    ReadTextVerbatim(src, st.pos + 1, src[st.pos]);
  }

  /** A `{` whose nesting never closes is an unmatched brace. */
  lemma Unclosed(src: seq<byte>, st: PState)
    requires Valid(src, st) && st.pos < |src| && src[st.pos] == '{'
    requires NeverCloses(src, st.pos + 1, 1)
    ensures NextToken(src, st) == Err(UnmatchedOpenBrace)
  {
    var st1 := st.(pos := st.pos + 1);
    assert src[st.pos] !in Blanks;
    ReadGroupUnmatched(src, st1.pos, 1);
    assert ParseSequence(src, st1) == Err(UnmatchedOpenBrace);
  }

  /** The bytes that start a unit, an operator or a blank. */
  const Known: seq<byte> := "_aonQq!/[^'`{|?+*~}]" + Blanks

  /** A closing brace or bracket with no opener, or any byte that starts
      nothing, is an error at once. */
  lemma Stray(src: seq<byte>, st: PState)
    requires Valid(src, st) && st.pos < |src|
    ensures src[st.pos] == '}' ==> NextToken(src, st) == Err(StrayCloseBrace)
    ensures src[st.pos] == ']' ==> NextToken(src, st) == Err(StrayCloseBracket)
    ensures src[st.pos] !in Known ==> NextToken(src, st) == Err(Unrecognized(src[st.pos]))
  {
  }

  // ---------------------------------------------------------------------------
  // Operator graphs

  /** What `n.Push(e)` does to `n` itself. */
  lemma PushedAdds(g: Arena, n: nat, e: nat)
    requires Wf(g) && n < |g| && e < |g|
    ensures multiset(Pushed(g, n, e)[n].edges) == multiset(g[n].edges) + multiset{e}
    ensures Pushed(g, n, e)[n].state == g[n].state
  {
  }

  lemma OrUnfold(g: Arena, pre: nat, post: nat)
    requires Wf(g) && pre < |g| && post < |g|
    ensures OrOf(g, pre, post) == Pushed(Pushed(NewNode(g, Epsilon), |g|, pre), |g|, post)
  {
  }

  lemma OrEdges(g: Arena, pre: nat, post: nat)
    requires Wf(g) && pre < |g| && post < |g|
    ensures var g2 := Pushed(NewNode(g, Epsilon), |g|, pre);
      multiset(Pushed(g2, |g|, post)[|g|].edges) == multiset{pre, post}
  {
    var g1 := NewNode(g, Epsilon);
    PushedAdds(g1, |g|, pre);
    PushedAdds(Pushed(g1, |g|, pre), |g|, post);
  }

  /** The epsilon node `x | y` adds has exactly the edges `x` and `y`. */
  lemma OrShape(g: Arena, pre: nat, post: nat)
    requires Wf(g) && pre < |g| && post < |g|
    ensures multiset(OrOf(g, pre, post)[|g|].edges) == multiset{pre, post}
  {
    OrUnfold(g, pre, post);
    OrEdges(g, pre, post);
  }

  lemma QuestUnfold(g: Arena, pre: nat)
    requires Wf(g) && pre < |g|
    ensures QuestOf(g, pre) ==
      Pushed(NewNode(Pushed(NewNode(g, Epsilon), |g|, pre), Epsilon), |g|, |g| + 1)
  {
  }

  /** The first push of `x?`: the fresh head gets the edge `x`. */
  lemma QuestFirst(g: Arena, pre: nat)
    requires Wf(g) && pre < |g|
    ensures multiset(Pushed(NewNode(g, Epsilon), |g|, pre)[|g|].edges) == multiset{pre}
  {
    PushedAdds(NewNode(g, Epsilon), |g|, pre);
  }

  /** The second push of `x?`: a head with the one edge `x` gains the fresh exit. */
  lemma QuestExit(h: Arena, n: nat, pre: nat)
    requires Wf(h) && n < |h| && multiset(h[n].edges) == multiset{pre}
    ensures multiset(Pushed(NewNode(h, Epsilon), n, |h|)[n].edges) == multiset{pre, |h|}
  {
    var h1 := NewNode(h, Epsilon);
    assert h1[n] == h[n];
    PushedAdds(h1, n, |h|);
  }

  lemma QuestEdges(g: Arena, pre: nat)
    requires Wf(g) && pre < |g|
    ensures var g3 := NewNode(Pushed(NewNode(g, Epsilon), |g|, pre), Epsilon);
      multiset(Pushed(g3, |g|, |g| + 1)[|g|].edges) == multiset{pre, |g| + 1}
  {
    QuestFirst(g, pre);
    QuestExit(Pushed(NewNode(g, Epsilon), |g|, pre), |g|, pre);
  }

  /** The epsilon node `x?` adds has exactly the edges `x` and the fresh
      epsilon exit. */
  lemma QuestShape(g: Arena, pre: nat)
    requires Wf(g) && pre < |g|
    ensures multiset(QuestOf(g, pre)[|g|].edges) == multiset{pre, |g| + 1}
  {
    QuestUnfold(g, pre);
    QuestEdges(g, pre);
  }

  lemma StarUnfold(g: Arena, pre: nat)
    requires Wf(g) && pre < |g|
    ensures var g1 := Merged(NewNode(g, Epsilon), |g|, pre);
      StarOf(g, pre) == Pushed(NewNode(Concatenated(g1, |g|, |g|), Epsilon), |g|, |g| + 1)
  {
  }

  lemma StarEdges(g: Arena, pre: nat)
    requires Wf(g) && pre < |g|
    ensures var g1 := Merged(NewNode(g, Epsilon), |g|, pre);
      var g4 := NewNode(Concatenated(g1, |g|, |g|), Epsilon);
      |g| + 1 in Pushed(g4, |g|, |g| + 1)[|g|].edges
  {
    var g1 := Merged(NewNode(g, Epsilon), |g|, pre);
    var g4 := NewNode(Concatenated(g1, |g|, |g|), Epsilon);
    PushedAdds(g4, |g|, |g| + 1);
    assert |g| + 1 in multiset(Pushed(g4, |g|, |g| + 1)[|g|].edges);
  }

  /** The epsilon node `x*` adds has an edge to the fresh epsilon exit. */
  lemma StarShape(g: Arena, pre: nat)
    requires Wf(g) && pre < |g|
    ensures |g| + 1 in StarOf(g, pre)[|g|].edges
  {
    StarUnfold(g, pre);
    StarEdges(g, pre);
  }

  lemma WaveUnfold(g: Arena, pre: nat, post: nat)
    requires Wf(g) && pre < |g| && post < |g|
    ensures var g3 := Pushed(Pushed(NewNode(g, Epsilon), |g|, post), |g|, pre);
      WaveOf(g, pre, post) == Merged(NewNode(Concatenated(g3, pre, |g|), None), pre, |g| + 1)
  {
  }

  lemma WaveEdges(g: Arena, pre: nat, post: nat)
    requires Wf(g) && pre < |g| && post < |g|
    ensures var g3 := Pushed(Pushed(NewNode(g, Epsilon), |g|, post), |g|, pre);
      multiset{pre, post} <= multiset(g3[|g|].edges)
  {
    var g1 := NewNode(g, Epsilon);
    PushedAdds(g1, |g|, post);
    PushedAdds(Pushed(g1, |g|, post), |g|, pre);
  }

  lemma WaveKeeps(g3: Arena, pre: nat, wave: nat)
    requires Wf(g3) && pre < |g3| && wave < |g3|
    ensures var g5 := NewNode(Concatenated(g3, pre, wave), None);
      multiset(g3[wave].edges) <= multiset(Merged(g5, pre, |g3|)[wave].edges)
  {
    var g4 := Concatenated(g3, pre, wave);
    ConcatenatedGrows(g3, pre, wave, wave);
    var g5 := NewNode(g4, None);
    var g6 := Scoped(g5, |g4|, NextIndex(g5, pre));
    ConcatenatedGrows(g6, pre, |g4|, wave);
  }

  /** The epsilon node `x ~ y` adds keeps edges to both `x` and `y`. */
  lemma WaveShape(g: Arena, pre: nat, post: nat)
    requires Wf(g) && pre < |g| && post < |g|
    ensures pre in WaveOf(g, pre, post)[|g|].edges && post in WaveOf(g, pre, post)[|g|].edges
  {
    WaveUnfold(g, pre, post);
    WaveEdges(g, pre, post);
    var g3 := Pushed(Pushed(NewNode(g, Epsilon), |g|, post), |g|, pre);
    WaveKeeps(g3, pre, |g|);
    var r := WaveOf(g, pre, post);
    assert pre in multiset(r[|g|].edges) && post in multiset(r[|g|].edges);
  }

  /** The arena of `x*` once `x` is merged after the fresh head. */
  function StarChain(g: Arena, pre: nat): (c: Arena)
    requires Wf(g) && pre < |g|
    ensures Wf(c) && |c| == |g| + 1
  {
    Merged(NewNode(g, Epsilon), |g|, pre)
  }

  /** The loop of `x*`: every member of the fresh head's chain that does not
      branch, an end of `x`, gains the edge back to the head and keeps it in
      the finished graph. The member with the largest index is such an end. */
  lemma StarLoops(g: Arena, pre: nat, k: nat)
    requires Wf(g) && pre < |g| && k <= |g|
    ensures var c := StarChain(g, pre);
      k in Membs(c, |g|) && !Branch(c, k) ==> |g| in StarOf(g, pre)[k].edges
    ensures var c := StarChain(g, pre); var m := Max(c, Membs(c, |g|));
      m in Membs(c, |g|) && !Branch(c, m) && |g| in StarOf(g, pre)[m].edges
  {
    var c := StarChain(g, pre);
    SinkMember(c, |g|);
    var m := Max(c, Membs(c, |g|));
    if k in Membs(c, |g|) && !Branch(c, k) {
      StarEnd(g, pre, k);
    }
    StarEnd(g, pre, m);
  }

  /** One end of `x*`'s chain gains the edge back to the head. */
  lemma StarEnd(g: Arena, pre: nat, k: nat)
    requires Wf(g) && pre < |g| && k <= |g|
    requires k in Membs(StarChain(g, pre), |g|) && !Branch(StarChain(g, pre), k)
    ensures |g| in StarOf(g, pre)[k].edges
  {
    var c := StarChain(g, pre);
    StarUnfold(g, pre);
    ConcatenatedAppends(c, |g|, |g|, k);
    PushKeepsEdge(Concatenated(c, |g|, |g|), |g|, k, |g|);
  }

  /** An edge survives adding a fresh epsilon node and pushing it. */
  lemma PushKeepsEdge(c: Arena, n: nat, k: nat, x: nat)
    requires Wf(c) && n < |c| && k < |c| && x in c[k].edges
    ensures x in Pushed(NewNode(c, Epsilon), n, |c|)[k].edges
  {
    var c1 := NewNode(c, Epsilon);
    assert c1[k] == c[k];
    var r := Pushed(c1, n, |c|);
    assert x in multiset(c1[k].edges);
    assert x in multiset(r[k].edges);
  }

  /** The arena of `x ~ y` once `y`, then `x`, are pushed onto the fresh head. */
  function WavePushed(g: Arena, pre: nat, post: nat): (p: Arena)
    requires Wf(g) && pre < |g| && post < |g|
    ensures Wf(p) && |p| == |g| + 1
  {
    Pushed(Pushed(NewNode(g, Epsilon), |g|, post), |g|, pre)
  }

  /** The arena of `x ~ y` just before the `none` node is merged after `x`. */
  function WaveLooped(g: Arena, pre: nat, post: nat): (l: Arena)
    requires Wf(g) && pre < |g| && post < |g|
    ensures Wf(l) && |l| == |g| + 2
  {
    NewNode(Concatenated(WavePushed(g, pre, post), pre, |g|), None)
  }

  /** The loop of `x ~ y`: every member of `x`'s chain that does not branch,
      an end of `x`, gains the edge back to the head and keeps it in the
      finished graph, so that after one step of `x` the head tries `y`, then
      `x`, again. The member with the largest index is such an end. */
  lemma WaveLoops(g: Arena, pre: nat, post: nat, k: nat)
    requires Wf(g) && pre < |g| && post < |g| && k <= |g|
    ensures var p := WavePushed(g, pre, post);
      k in Membs(p, pre) && !Branch(p, k) ==> |g| in WaveOf(g, pre, post)[k].edges
    ensures var p := WavePushed(g, pre, post); var m := Max(p, Membs(p, pre));
      m in Membs(p, pre) && !Branch(p, m) && |g| in WaveOf(g, pre, post)[m].edges
  {
    var p := WavePushed(g, pre, post);
    SinkMember(p, pre);
    var m := Max(p, Membs(p, pre));
    if k in Membs(p, pre) && !Branch(p, k) {
      WaveEnd(g, pre, post, k);
    }
    WaveEnd(g, pre, post, m);
  }

  /** One end of `x`'s chain in `x ~ y` gains the edge back to the head. */
  lemma WaveEnd(g: Arena, pre: nat, post: nat, k: nat)
    requires Wf(g) && pre < |g| && post < |g| && k <= |g|
    requires k in Membs(WavePushed(g, pre, post), pre) && !Branch(WavePushed(g, pre, post), k)
    ensures |g| in WaveOf(g, pre, post)[k].edges
  {
    var p := WavePushed(g, pre, post);
    WaveUnfold(g, pre, post);
    ConcatenatedAppends(p, pre, |g|, k);
    MergeNoneKeepsEdge(Concatenated(p, pre, |g|), pre, k, |g|);
  }

  /** An edge survives adding a fresh `none` node and merging it. */
  lemma MergeNoneKeepsEdge(c: Arena, n: nat, k: nat, x: nat)
    requires Wf(c) && n < |c| && k < |c| && x in c[k].edges
    ensures x in Merged(NewNode(c, None), n, |c|)[k].edges
  {
    var c1 := NewNode(c, None);
    assert c1[k] == c[k];
    MergedGrows(c1, n, |c|, k);
    assert x in multiset(c1[k].edges);
  }

  /** The stop of `x ~ y`: the finished graph is the looped arena with the
      `none` node merged after `x`, so by `MergedEdges` and `MergedLinks`
      every end of `x`'s chain, among them the member with the largest
      index, gains the edge to `none`. Since `none` never matches, that edge
      only makes those ends branch: `x` cannot end a match without
      returning to the head. */
  lemma WaveOfLooped(g: Arena, pre: nat, post: nat)
    requires Wf(g) && pre < |g| && post < |g|
    ensures WaveOf(g, pre, post) == Merged(WaveLooped(g, pre, post), pre, |g| + 1)
  {
    WaveUnfold(g, pre, post);
  }

  // ---------------------------------------------------------------------------
  // The operator steps and the graphs they build

  /** `x | y`: the fresh head has exactly the edges `x` (the popped operand)
      and `y` (the unit read after the bar). */
  lemma OrStep(src: seq<byte>, st: PState)
    requires Valid(src, st)
    ensures var r := ParseOr(src, st); var b := ParseBinOp(src, st, '|');
      (r.Ok? <==> b.Ok?) &&
      (r.Ok? ==> r.v == Ref(|b.st.g|) && r.st.stack == b.st.stack && b.v.0 == st.stack[|st.stack| - 1] &&
                 multiset(r.st.g[r.v.node].edges) == multiset{b.v.0, b.v.1})
  {
    var b := ParseBinOp(src, st, '|');
    if b.Ok? {
      OrShape(b.st.g, b.v.0, b.v.1);
    }
  }

  /** `x?`: the fresh head has exactly the edges `x` (the popped operand)
      and the fresh exit. */
  lemma QuestStep(src: seq<byte>, st: PState)
    requires Valid(src, st)
    ensures var r := ParseQuest(src, st); var p := ParsePreOp(st, '?');
      (r.Ok? <==> p.Ok?) &&
      (r.Ok? ==> r.v == Ref(|st.g|) && r.st.stack == p.st.stack &&
                 multiset(r.st.g[|st.g|].edges) == multiset{p.v, |st.g| + 1})
  {
    if st.stack != [] {
      var pre := st.stack[|st.stack| - 1];
      var st' := st.(stack := st.stack[..|st.stack| - 1]);
      assert ParsePreOp(st, '?') == Ok(pre, st');
      QuestPopped(src, st, pre, st');
      QuestHead(st.g, pre, st', ParseQuest(src, st));
    }
  }

  lemma QuestPopped(src: seq<byte>, st: PState, pre: nat, st': PState)
    requires Valid(src, st) && ParsePreOp(st, '?') == Ok(pre, st')
    ensures pre < |st.g| && ParseQuest(src, st) == Ok(Ref(|st.g|), st'.(g := QuestOf(st.g, pre)))
  {
  }

  lemma QuestHead(g: Arena, pre: nat, st': PState, r: Out<Handle>)
    requires Wf(g) && pre < |g| && r == Ok(Ref(|g|), st'.(g := QuestOf(g, pre)))
    ensures multiset(r.st.g[|g|].edges) == multiset{pre, |g| + 1}
  {
    QuestShape(g, pre);
  }

  /** `x*`: the fresh head has an edge to the fresh exit. */
  lemma StarStep(src: seq<byte>, st: PState)
    requires Valid(src, st)
    ensures var r := ParseStar(src, st); var p := ParsePreOp(st, '*');
      (r.Ok? <==> p.Ok?) &&
      (r.Ok? ==> r.v == Ref(|st.g|) && r.st.stack == p.st.stack && |st.g| + 1 in r.st.g[|st.g|].edges)
  {
    if st.stack != [] {
      var pre := st.stack[|st.stack| - 1];
      var st' := st.(stack := st.stack[..|st.stack| - 1]);
      assert ParsePreOp(st, '*') == Ok(pre, st');
      assert ParseStar(src, st) == Ok(Ref(|st.g|), st'.(g := StarOf(st.g, pre)));
      StarShape(st.g, pre);
    }
  }

  /** `x+`: no node is added and the result is `x` itself; when `x` does not
      branch it gains an edge to itself, and when it branches its own edges
      stay. */
  lemma PlusLoops(src: seq<byte>, st: PState)
    requires Valid(src, st)
    ensures var r := ParsePlus(src, st); var p := ParsePreOp(st, '+');
      (r.Ok? <==> p.Ok?) &&
      (r.Ok? ==> r.v == Ref(p.v) && r.st.stack == p.st.stack && |r.st.g| == |st.g| &&
                 (!Branch(st.g, p.v) ==> p.v in r.st.g[p.v].edges) &&
                 (Branch(st.g, p.v) ==> r.st.g[p.v].edges == st.g[p.v].edges))
  {
    if st.stack != [] {
      SelfLoop(st.g, st.stack[|st.stack| - 1]);
    }
  }

  /** `x ~ y`: the fresh head keeps edges to both `x` and `y`. */
  lemma WaveStep(src: seq<byte>, st: PState)
    requires Valid(src, st)
    ensures var r := ParseWave(src, st); var b := ParseBinOp(src, st, '~');
      (r.Ok? <==> b.Ok?) &&
      (r.Ok? ==> r.v == Ref(|b.st.g|) && b.v.0 == st.stack[|st.stack| - 1] &&
                 b.v.0 in r.st.g[r.v.node].edges && b.v.1 in r.st.g[r.v.node].edges)
  {
    var b := ParseBinOp(src, st, '~');
    if b.Ok? {
      WaveShape(b.st.g, b.v.0, b.v.1);
    }
  }

  // ---------------------------------------------------------------------------
  // Joining the top-level units

  /** `t`, merged after `head` into `before`, is entered in `after` from the
      end of the head's chain as `Merge` finds it: the member of `head` with
      the largest index once `t` is renumbered above them. */
  ghost predicate JoinedAt(before: Arena, after: Arena, head: nat, t: nat)
    requires Wf(before) && head < |before| && t < |before| && |after| == |before|
  {
    var h := Scoped(before, t, NextIndex(before, head));
    var m := Max(h, Membs(h, head));
    m in Membs(h, head) && t in after[m].edges
  }

  /** Merging the later top-level units after the first keeps every state and
      every edge. */
  lemma {:induction false} MergeAllKeeps(g: Arena, head: nat, rest: seq<nat>, k: nat)
    requires Wf(g) && head < |g| && Refs(rest, |g|) && k < |g|
    ensures MergeAll(g, head, rest)[k].state == g[k].state
    ensures multiset(g[k].edges) <= multiset(MergeAll(g, head, rest)[k].edges)
    decreases |rest|
  {
    if rest != [] {
      var g1 := Merged(g, head, rest[0]);
      assert MergeAll(g, head, rest) == MergeAll(g1, head, rest[1..]);
      MergeAllKeeps(g1, head, rest[1..], k);
      MergedGrows(g, head, rest[0], k);
    }
  }

  lemma MergeAllUnfold(g: Arena, head: nat, rest: seq<nat>)
    requires Wf(g) && head < |g| && Refs(rest, |g|) && rest != []
    ensures MergeAll(g, head, rest) == MergeAll(Merged(g, head, rest[0]), head, rest[1..])
  {
  }

  /** The first unit merged is entered from the end of the head's chain, and
      stays entered through the later merges. */
  lemma FirstJoined(g: Arena, head: nat, rest: seq<nat>)
    requires Wf(g) && head < |g| && Refs(rest, |g|) && rest != []
    ensures JoinedAt(g, MergeAll(g, head, rest), head, rest[0])
  {
    var g1 := Merged(g, head, rest[0]);
    MergedLinks(g, head, rest[0]);
    var h := Scoped(g, rest[0], NextIndex(g, head));
    var m := Max(h, Membs(h, head));
    assert m < |g1| && rest[0] in g1[m].edges;
    MergeAllKeeps(g1, head, rest[1..], m);
    var r := MergeAll(g1, head, rest[1..]);
    assert rest[0] in r[m].edges by {
      assert rest[0] in multiset(g1[m].edges);
    }
    MergeAllUnfold(g, head, rest);
  }

  /** Merging the later top-level units after the first enters each of them
      from the end of the head's chain as it stood when that unit was merged,
      that is after the units before it: the edge `Merge` adds survives every
      later merge. */
  lemma {:induction false} MergeAllLinks(g: Arena, head: nat, rest: seq<nat>, i: nat)
    requires Wf(g) && head < |g| && Refs(rest, |g|) && i < |rest|
    ensures JoinedAt(MergeAll(g, head, rest[..i]), MergeAll(g, head, rest), head, rest[i])
    decreases |rest|, 1
  {
    if i > 0 {
      LaterJoined(g, head, rest, i);
    } else {
      assert rest[..0] == [];
      FirstJoined(g, head, rest);
    }
  }

  /** A later unit is joined as it is once the first is merged. */
  lemma {:induction false} LaterJoined(g: Arena, head: nat, rest: seq<nat>, i: nat)
    requires Wf(g) && head < |g| && Refs(rest, |g|) && 0 < i < |rest|
    ensures JoinedAt(MergeAll(g, head, rest[..i]), MergeAll(g, head, rest), head, rest[i])
    decreases |rest|, 0
  {
    var g1 := Merged(g, head, rest[0]);
    MergeAllLinks(g1, head, rest[1..], i - 1);
    MergeAllUnfold(g, head, rest);
    PrefixUnfold(g, head, rest, i);
  }

  /** Merging a non-empty prefix of the units is merging its first, then the rest of it. */
  lemma {:induction false} PrefixUnfold(g: Arena, head: nat, rest: seq<nat>, i: nat)
    requires Wf(g) && head < |g| && Refs(rest, |g|) && 0 < i <= |rest|
    ensures MergeAll(g, head, rest[..i]) == MergeAll(Merged(g, head, rest[0]), head, rest[1..][..i - 1])
  {
    var pre := rest[..i];
    assert pre[0] == rest[0] && pre[1..] == rest[1..][..i - 1];
    MergeAllUnfold(g, head, pre);
  }

  /** Every unit of `stack` after the first is entered in `after` from the
      end of the chain that the units before it form. */
  ghost predicate StackJoins(g: Arena, stack: seq<nat>, after: Arena)
    requires Wf(g) && Refs(stack, |g|) && stack != [] && |after| == |g|
  {
    forall i :: 1 <= i < |stack| ==>
      JoinedAt(MergeAll(g, stack[0], stack[1..i]), after, stack[0], stack[i])
  }

  /** Every unit of a stack after the first is joined when the stack is merged. */
  lemma {:induction false} StackJoined(g: Arena, stack: seq<nat>)
    requires Wf(g) && Refs(stack, |g|) && stack != []
    ensures StackJoins(g, stack, MergeAll(g, stack[0], stack[1..]))
  {
    forall i | 1 <= i < |stack|
      ensures JoinedAt(MergeAll(g, stack[0], stack[1..i]), MergeAll(g, stack[0], stack[1..]), stack[0], stack[i])
    {
      StackJoinedAt(g, stack, i);
    }
  }

  lemma {:induction false} StackJoinedAt(g: Arena, stack: seq<nat>, i: nat)
    requires Wf(g) && Refs(stack, |g|) && 1 <= i < |stack|
    ensures JoinedAt(MergeAll(g, stack[0], stack[1..i]), MergeAll(g, stack[0], stack[1..]), stack[0], stack[i])
  {
    MergeAllLinks(g, stack[0], stack[1..], i - 1);
    SliceOfTail(stack, i);
  }

  lemma SliceOfTail(s: seq<nat>, i: nat)
    requires 1 <= i < |s|
    ensures s[1..][..i - 1] == s[1..i] && s[1..][i - 1] == s[i]
  {
  }

  /** `Parse` answers nil exactly when the read loop pushed no unit;
      otherwise its head is the first unit pushed, and every later unit is
      entered from the end of the chain the units before it form. */
  lemma ParseJoins(src: seq<byte>, g: Arena)
    requires Wf(g)
    ensures var r := Parse(src, g); var l := ParseLoop(src, PState(0, [], g));
      (r.Ok? <==> l.Ok?) &&
      (r.Ok? ==> (r.v.Nil? <==> l.st.stack == []) &&
                 (l.st.stack != [] ==>
                    r.v == Ref(l.st.stack[0]) && StackJoins(l.st.g, l.st.stack, r.st.g)))
  {
    var l := ParseLoop(src, PState(0, [], g));
    if l.Ok? && l.st.stack != [] {
      StackJoined(l.st.g, l.st.stack);
    }
  }
}
