/** The pattern compiler of regex.go as it runs: a `Parser` advances a reader
    over its source, pops and pushes its operand stack, and builds nodes in a
    shared `Graph`. Each method is proved to produce what the step function
    of the same name in `RegexCompile` describes. */
module RegexParser {
  import opened RegexGraph
  import opened RegexMatch
  import opened RegexCompile
  import opened RegexArena

  class Parser {
    const src: seq<byte>
    var pos: nat
    var stack: seq<nat>
    const graph: Graph

    /** `newRegexParser`: a reader at the start and an empty stack. */
    constructor (src: seq<byte>, graph: Graph)
      ensures this.src == src && this.graph == graph && pos == 0 && stack == []
    {
      this.src := src;
      this.graph := graph;
      pos := 0;
      stack := [];
    }

    function State(): PState
      reads this, graph
    {
      PState(pos, stack, graph.nodes)
    }

    predicate Valid()
      reads this, graph
    {
      RegexCompile.Valid(src, State())
    }

    /** The method's result, and the state it left, are the step function's. */
    predicate Agrees<T(==)>(r: Result<T>, o: Out<T>)
      reads this, graph
    {
      match o
      case Err(e) => r == Fail(e)
      case Ok(v, st) => r == Got(v) && State() == st
    }

    /** `ReadByte` with its error ignored: 0 at the end, without moving. */
    method ReadByte() returns (b: byte)
      requires pos <= |src|
      modifies this
      ensures (b, pos) == ReadOrZero(src, old(pos)) && stack == old(stack)
    {
      if pos < |src| {
        b := src[pos];
        pos := pos + 1;
      } else {
        b := 0 as char;
      }
    }

    method Leaf(s: State) returns (r: Result<Handle>)
      requires Valid() && NodeWf(Node(s, 0, []), |graph.nodes|)
      modifies graph
      ensures Agrees(r, RegexCompile.Leaf(old(State()), s))
    {
      var h := graph.NewNode(s);
      r := Got(Ref(h));
    }

    /** `nextToken`. */
    method NextToken() returns (r: Result<Handle>)
      requires Valid()
      modifies this, graph
      ensures Agrees(r, RegexCompile.NextToken(src, old(State())))
      decreases |src|, |src| - pos, 0
    {
      if pos == |src| {
        return Got(Nil);
      }
      var tok := src[pos];
      pos := pos + 1;
      if tok in Blanks {
        r := NextToken();
      } else if tok == '_' {
        r := Leaf(Set(BlankSet));
      } else if tok == 'a' {
        r := Leaf(Set(Letters));
      } else if tok == 'o' {
        r := Leaf(Set(Operators));
      } else if tok == 'n' {
        r := Leaf(Set(Digits));
      } else if tok == 'Q' {
        r := Leaf(Set("\""));
      } else if tok == 'q' {
        r := Leaf(Set("'"));
      } else if tok == '!' {
        r := ParseNot();
      } else if tok == '/' {
        r := ParseDash();
      } else if tok == '[' {
        r := ParseScope();
      } else if tok == '^' {
        r := Leaf(Anything);
      } else if tok == '\'' || tok == '`' {
        r := ParseText(tok);
      } else if tok == '{' {
        r := ParseSequence();
      } else if tok == '|' {
        r := ParseOr();
      } else if tok == '?' {
        r := ParseQuest();
      } else if tok == '+' {
        r := ParsePlus();
      } else if tok == '*' {
        r := ParseStar();
      } else if tok == '~' {
        r := ParseWave();
      } else if tok == '}' {
        r := Fail(StrayCloseBrace);
      } else if tok == ']' {
        r := Fail(StrayCloseBracket);
      } else {
        r := Fail(Unrecognized(tok));
      }
    }

    /** `parsePreOp`: pop the operand, or fail on an empty stack. */
    method ParsePreOp(op: byte) returns (r: Result<nat>)
      requires Valid()
      modifies this
      ensures Agrees(r, RegexCompile.ParsePreOp(old(State()), op))
    {
      if stack == [] {
        return Fail(MissingPreOperand(op));
      }
      var top := stack[|stack| - 1];
      stack := stack[..|stack| - 1];
      r := Got(top);
    }

    /** `parsePostOp`: the next unit, which must not be nil. */
    method ParsePostOp(op: byte) returns (r: Result<nat>)
      requires Valid()
      modifies this, graph
      ensures Agrees(r, RegexCompile.ParsePostOp(src, old(State()), op))
      decreases |src|, |src| - pos, 1
    {
      var t := NextToken();
      match t
      case Fail(e) => r := Fail(e);
      case Got(h) =>
        if h.Nil? {
          r := Fail(MissingPostOperand(op));
        } else {
          r := Got(h.node);
        }
    }

    /** `parseBinOp`: the popped left operand and the following right one. */
    method ParseBinOp(op: byte) returns (r: Result<(nat, nat)>)
      requires Valid()
      modifies this, graph
      ensures Agrees(r, RegexCompile.ParseBinOp(src, old(State()), op))
      decreases |src|, |src| - pos, 2
    {
      var pre := ParsePreOp(op);
      if pre.Fail? {
        return Fail(pre.e);
      }
      var post := ParsePostOp(op);
      if post.Fail? {
        return Fail(post.e);
      }
      r := Got((pre.v, post.v));
    }

    /** `parseScope`. */
    method ParseScope() returns (r: Result<Handle>)
      requires Valid()
      modifies this, graph
      ensures Agrees(r, RegexCompile.ParseScope(src, old(State())))
      decreases |src|, |src| - pos, 3
    {
      var a := ReadByte();
      var hyphen := ReadByte();
      if hyphen != '-' {
        return Fail(ExpectedHyphen);
      }
      var b := ReadByte();
      var end := ReadByte();
      if end != ']' {
        return Fail(ExpectedCloseBracket);
      }
      if a > b {
        return Fail(EmptyInterval);
      }
      r := Leaf(Scope(a, b));
    }

    /** `parseText`: the `readText` loop, then a text node. */
    method ParseText(stop: byte) returns (r: Result<Handle>)
      requires Valid()
      modifies this, graph
      ensures Agrees(r, RegexCompile.ParseText(src, old(State()), stop))
      decreases |src|, |src| - pos, 3
    {
      ghost var start := pos;
      var buf: seq<byte> := [];
      PrefixedNil(ReadText(src, pos, stop));
      while true
        invariant start <= pos <= |src| && stack == old(stack) && graph.nodes == old(graph.nodes)
        invariant ReadText(src, start, stop) == Prefixed(buf, ReadText(src, pos, stop))
        decreases |src| - pos
      {
        if pos == |src| {
          return Fail(UnterminatedText);
        }
        var c := src[pos];
        pos := pos + 1;
        if c == stop {
          assert buf + [] == buf;
          break;
        }
        PrefixedTwice(buf, [c], ReadText(src, pos, stop));
        buf := buf + [c];
      }
      r := Leaf(Text(buf));
    }

    /** `readSequenceSrc`: the bytes of the group, up to its matching `}`. */
    method ReadSequenceSrc() returns (r: Result<seq<byte>>)
      requires Valid()
      modifies this
      ensures match ReadGroup(src, old(pos), 1)
        case Fail(e) => r == Fail(e)
        case Got(v) => r == Got(v.0) && pos == v.1
      ensures stack == old(stack)
    {
      ghost var start := pos;
      var depth: nat := 1;
      var buf: seq<byte> := [];
      PrefixedNil(ReadGroup(src, pos, depth));
      while true
        invariant start <= pos <= |src| && depth >= 1 && stack == old(stack)
        invariant ReadGroup(src, start, 1) == Prefixed(buf, ReadGroup(src, pos, depth))
        decreases |src| - pos
      {
        if pos == |src| {
          return Fail(UnmatchedOpenBrace);
        }
        var tok := src[pos];
        pos := pos + 1;
        if tok == '{' {
          depth := depth + 1;
        } else if tok == '}' {
          depth := depth - 1;
        }
        if depth < 1 {
          assert buf + [] == buf;
          break;
        }
        PrefixedTwice(buf, [tok], ReadGroup(src, pos, depth));
        buf := buf + [tok];
      }
      r := Got(buf);
    }

    /** `parseSequence`: a parser of its own compiles the group into the shared graph. */
    method ParseSequence() returns (r: Result<Handle>)
      requires Valid()
      modifies this, graph
      ensures Agrees(r, RegexCompile.ParseSequence(src, old(State())))
      decreases |src|, |src| - pos, 3
    {
      GroupShorter(src, pos, 1);
      var group := ReadSequenceSrc();
      if group.Fail? {
        return Fail(group.e);
      }
      var sp := new Parser(group.v, graph);
      var h := sp.Parse();
      r := h;
    }

    /** `parseDash`. */
    method ParseDash() returns (r: Result<Handle>)
      requires Valid()
      modifies this, graph
      ensures Agrees(r, RegexCompile.ParseDash(src, old(State())))
      decreases |src|, |src| - pos, 3
    {
      var inner := ParsePostOp('/');
      if inner.Fail? {
        return Fail(inner.e);
      }
      r := Leaf(Dash(inner.v));
    }

    /** `parseNot`. */
    method ParseNot() returns (r: Result<Handle>)
      requires Valid()
      modifies this, graph
      ensures Agrees(r, RegexCompile.ParseNot(src, old(State())))
      decreases |src|, |src| - pos, 3
    {
      var inner := ParsePostOp('!');
      if inner.Fail? {
        return Fail(inner.e);
      }
      r := Leaf(Not(inner.v));
    }

    /** `parseOr`. */
    method ParseOr() returns (r: Result<Handle>)
      requires Valid()
      modifies this, graph
      ensures Agrees(r, RegexCompile.ParseOr(src, old(State())))
      decreases |src|, |src| - pos, 3
    {
      var ops := ParseBinOp('|');
      if ops.Fail? {
        return Fail(ops.e);
      }
      var or := BuildOr(ops.v.0, ops.v.1);
      r := Got(Ref(or));
    }

    /** `parseQuest`. */
    method ParseQuest() returns (r: Result<Handle>)
      requires Valid()
      modifies this, graph
      ensures Agrees(r, RegexCompile.ParseQuest(src, old(State())))
      decreases |src|, |src| - pos, 3
    {
      var pre := ParsePreOp('?');
      if pre.Fail? {
        return Fail(pre.e);
      }
      var quest := BuildQuest(pre.v);
      r := Got(Ref(quest));
    }

    /** `parseStar`. */
    method ParseStar() returns (r: Result<Handle>)
      requires Valid()
      modifies this, graph
      ensures Agrees(r, RegexCompile.ParseStar(src, old(State())))
      decreases |src|, |src| - pos, 3
    {
      var pre := ParsePreOp('*');
      if pre.Fail? {
        return Fail(pre.e);
      }
      var star := BuildStar(pre.v);
      r := Got(Ref(star));
    }

    /** `parsePlus`. */
    method ParsePlus() returns (r: Result<Handle>)
      requires Valid()
      modifies this, graph
      ensures Agrees(r, RegexCompile.ParsePlus(src, old(State())))
      decreases |src|, |src| - pos, 3
    {
      var plus := ParsePreOp('+');
      if plus.Fail? {
        return Fail(plus.e);
      }
      var _ := graph.Concat(plus.v, plus.v);
      r := Got(Ref(plus.v));
    }

    /** `parseWave`. */
    method ParseWave() returns (r: Result<Handle>)
      requires Valid()
      modifies this, graph
      ensures Agrees(r, RegexCompile.ParseWave(src, old(State())))
      decreases |src|, |src| - pos, 3
    {
      var ops := ParseBinOp('~');
      if ops.Fail? {
        return Fail(ops.e);
      }
      var wave := BuildWave(ops.v.0, ops.v.1);
      r := Got(Ref(wave));
    }

    /** The graph of `x | y`, built in place. */
    method BuildOr(pre: nat, post: nat) returns (or: nat)
      requires Wf(graph.nodes) && pre < |graph.nodes| && post < |graph.nodes|
      modifies graph
      ensures graph.nodes == OrOf(old(graph.nodes), pre, post) && or == |old(graph.nodes)|
    {
      or := graph.NewNode(Epsilon);
      var _ := graph.Push(or, pre);
      var _ := graph.Push(or, post);
    }

    /** The graph of `x?`, built in place. */
    method BuildQuest(pre: nat) returns (quest: nat)
      requires Wf(graph.nodes) && pre < |graph.nodes|
      modifies graph
      ensures graph.nodes == QuestOf(old(graph.nodes), pre) && quest == |old(graph.nodes)|
    {
      quest := graph.NewNode(Epsilon);
      var _ := graph.Push(quest, pre);
      var eps := graph.NewNode(Epsilon);
      var _ := graph.Push(quest, eps);
    }

    /** The graph of `x*`, built in place. */
    method BuildStar(pre: nat) returns (star: nat)
      requires Wf(graph.nodes) && pre < |graph.nodes|
      modifies graph
      ensures graph.nodes == StarOf(old(graph.nodes), pre) && star == |old(graph.nodes)|
    {
      star := graph.NewNode(Epsilon);
      graph.Merge(star, pre);
      var _ := graph.Concat(star, star);
      var eps := graph.NewNode(Epsilon);
      var _ := graph.Push(star, eps);
    }

    /** The graph of `x ~ y`, built in place. */
    method BuildWave(pre: nat, post: nat) returns (wave: nat)
      requires Wf(graph.nodes) && pre < |graph.nodes| && post < |graph.nodes|
      modifies graph
      ensures graph.nodes == WaveOf(old(graph.nodes), pre, post) && wave == |old(graph.nodes)|
    {
      wave := graph.NewNode(Epsilon);
      var _ := graph.Push(wave, post);
      var _ := graph.Push(wave, pre);
      var _ := graph.Concat(pre, wave);
      var none := graph.NewNode(None);
      graph.Merge(pre, none);
    }

    /** `Parse`: read units until the reader is empty, then merge every later
        operand into the first. */
    method Parse() returns (r: Result<Handle>)
      requires Valid() && pos == 0 && stack == []
      modifies this, graph
      ensures match RegexCompile.Parse(src, old(graph.nodes))
        case Err(e) => r == Fail(e)
        case Ok(h, st) => r == Got(h) && graph.nodes == st.g
      decreases |src|, |src|, 5
    {
      ghost var st0 := State();
      while pos < |src|
        invariant Valid()
        invariant ParseLoop(src, st0) == ParseLoop(src, State())
        decreases |src| - pos
      {
        var t := NextToken();
        if t.Fail? {
          return Fail(t.e);
        }
        if t.v.Ref? {
          stack := stack + [t.v.node];
        }
      }
      if stack == [] {
        return Got(Nil);
      }
      ghost var g1 := graph.nodes;
      var ops := stack;
      for i := 1 to |ops|
        invariant Wf(graph.nodes) && |graph.nodes| == |g1|
        invariant MergeAll(graph.nodes, ops[0], ops[i..]) == MergeAll(g1, ops[0], ops[1..])
      {
        assert ops[i..][1..] == ops[i + 1..];
        graph.Merge(ops[0], ops[i]);
      }
      r := Got(Ref(ops[0]));
    }
  }

  /** `NewRegex`: compile `src` into a fresh graph. */
  method NewRegex(src: seq<byte>) returns (r: Result<Regex>)
    ensures r == RegexCompile.NewRegex(src)
  {
    var graph := new Graph();
    var p := new Parser(src, graph);
    var h := p.Parse();
    match h
    case Fail(e) => r := Fail(e);
    case Got(head) => r := Got(Regex(src, head, graph.nodes));
  }
}
