/** The pattern compiler of regex.go, as functions over the parser state.

    The parser reads the source one byte at a time, keeps an operand stack of
    node handles and builds nodes in a shared arena. A state is the reader
    position, the stack and the arena; every step returns the value it
    produced together with the next state, or the error that aborts the
    compilation. Class `RegexParser.Parser` performs the same steps in place. */
module RegexCompile {
  import opened RegexGraph
  import opened RegexMatch

  /** The ways compilation fails (the source reports each as an error text). */
  datatype ParseError =
    | UnmatchedOpenBrace        // `{` never closed
    | StrayCloseBrace           // `}` with no `{`
    | StrayCloseBracket         // `]` with no `[`
    | Unrecognized(tok: byte)   // a byte that starts no unit
    | MissingPreOperand(op: byte)  // the stack is empty for a postfix or infix operator
    | MissingPostOperand(op: byte) // nothing follows a prefix or infix operator
    | ExpectedHyphen            // `[a` not followed by `-`
    | ExpectedCloseBracket      // `[a-b` not followed by `]`
    | EmptyInterval             // `[a-b]` with `a > b`
    | UnterminatedText          // a quote never closed (the reader's end-of-input error)

  /** Reader position, operand stack and node arena. */
  datatype PState = PState(pos: nat, stack: seq<nat>, g: Arena)

  /** A step's outcome: a value and the next state, or an error. */
  datatype Out<T> = Ok(v: T, st: PState) | Err(e: ParseError)

  predicate Valid(src: seq<byte>, st: PState)
  {
    st.pos <= |src| && Wf(st.g) && Refs(st.stack, |st.g|)
  }

  /** What every step guarantees about the state it leaves: the reader has not
      moved back, nodes were only added, and all handles stay valid. */
  predicate Advanced(src: seq<byte>, st: PState, st': PState)
  {
    Valid(src, st') && st.pos <= st'.pos && |st.g| <= |st'.g|
  }

  const Blanks: seq<byte> := " \U{C}\n\r\t\U{B}"
  const BlankSet: seq<byte> := " \n\U{B}\U{8}\U{C}\t"
  const Upper: seq<byte> := "ABCDEFGHIJKLMNOPQRSTUVWXYZ"
  const Lower: seq<byte> := "abcdefghijklmnopqrstuvwxyz"
  const Letters: seq<byte> := Upper + Lower
  const Operators: seq<byte> := "!#$%&()*+,-./:;<=>?@[\\]^`{|}~"
  const Digits: seq<byte> := "0123456789"

  /** Add one fresh node holding `s` and hand it back. */
  function Leaf(st: PState, s: State): (r: Out<Handle>)
    requires Wf(st.g) && Refs(st.stack, |st.g|) && NodeWf(Node(s, 0, []), |st.g|)
    ensures r.Ok? && r.v == Ref(|st.g|) && r.st.pos == st.pos && r.st.stack == st.stack
    ensures r.st.g == NewNode(st.g, s)
  {
    Ok(Ref(|st.g|), st.(g := NewNode(st.g, s)))
  }

  /** `strings.Reader.ReadByte` where the source ignores the error: the byte 0
      at the end of input, without moving. */
  function ReadOrZero(src: seq<byte>, pos: nat): (r: (byte, nat))
    requires pos <= |src|
    ensures pos < |src| ==> r == (src[pos], pos + 1)
    ensures pos == |src| ==> r == (0 as char, pos)
  {
    if pos < |src| then (src[pos], pos + 1) else (0 as char, pos)
  }

  // ---------------------------------------------------------------------------
  // Reading literals and groups

  /** A value, or the error that aborts compilation. */
  datatype Result<T> = Got(v: T) | Fail(e: ParseError)

  /** `buf` followed by what a read produced. */
  function Prefixed(buf: seq<byte>, r: Result<(seq<byte>, nat)>): Result<(seq<byte>, nat)>
  {
    match r
    case Fail(e) => Fail(e)
    case Got(v) => Got((buf + v.0, v.1))
  }

  lemma PrefixedNil(r: Result<(seq<byte>, nat)>)
    ensures Prefixed([], r) == r
  {
    if r.Got? {
      assert [] + r.v.0 == r.v.0;
    }
  }

  lemma PrefixedTwice(a: seq<byte>, b: seq<byte>, r: Result<(seq<byte>, nat)>)
    ensures Prefixed(a, Prefixed(b, r)) == Prefixed(a + b, r)
  {
    if r.Got? {
      assert a + (b + r.v.0) == (a + b) + r.v.0;
    }
  }

  /** `readText`: the bytes up to the closing `stop`, and the position after it. */
  function ReadText(src: seq<byte>, pos: nat, stop: byte): (r: Result<(seq<byte>, nat)>)
    requires pos <= |src|
    ensures r.Got? ==> pos < r.v.1 <= |src| && src[r.v.1 - 1] == stop && r.v.0 == src[pos..r.v.1 - 1]
    ensures r.Fail? ==> r.e == UnterminatedText
    decreases |src| - pos
  {
    if pos == |src| then Fail(UnterminatedText)
    else if src[pos] == stop then Got(([], pos + 1))
    else
      var rest := ReadText(src, pos + 1, stop);
      assert rest.Got? ==> [src[pos]] + rest.v.0 == src[pos..rest.v.1 - 1];
      Prefixed([src[pos]], rest)
  }

  /** `readSequenceSrc`: the bytes of a group up to its matching `}` (nested
      braces counted), and the position after that brace. */
  function ReadGroup(src: seq<byte>, pos: nat, depth: nat): (r: Result<(seq<byte>, nat)>)
    requires pos <= |src| && depth >= 1
    ensures r.Got? ==> pos < r.v.1 <= |src| && src[r.v.1 - 1] == '}' && r.v.0 == src[pos..r.v.1 - 1]
    ensures r.Fail? ==> r.e == UnmatchedOpenBrace
    decreases |src| - pos
  {
    if pos == |src| then Fail(UnmatchedOpenBrace)
    else
      var tok := src[pos];
      var d := if tok == '{' then depth + 1 else if tok == '}' then depth - 1 else depth;
      if d < 1 then Got(([], pos + 1))
      else
        var rest := ReadGroup(src, pos + 1, d);
        assert rest.Got? ==> [tok] + rest.v.0 == src[pos..rest.v.1 - 1];
        Prefixed([tok], rest)
  }

  // ---------------------------------------------------------------------------
  // The recursive-descent steps. Each is measured by the length of the source
  // it reads, the bytes left, and a rank that orders the steps that call one
  // another without reading.

  /** `nextToken`: skip blanks, read one byte and dispatch on it. At the end of
      input there is no unit (a nil handle, no error). */
  function NextToken(src: seq<byte>, st: PState): (r: Out<Handle>)
    requires Valid(src, st)
    ensures r.Ok? ==> Advanced(src, st, r.st) && r.st.stack <= st.stack
    ensures r.Ok? && r.v.Ref? ==> r.v.node < |r.st.g|
    ensures r.Ok? && st.pos < |src| ==> r.st.pos > st.pos
    ensures st.pos == |src| ==> r == Ok(Nil, st)
    decreases |src|, |src| - st.pos, 0
  {
    if st.pos == |src| then Ok(Nil, st)
    else
      var tok := src[st.pos];
      var st1 := st.(pos := st.pos + 1);
      if tok in Blanks then NextToken(src, st1)
      else if tok == '_' then Leaf(st1, Set(BlankSet))
      else if tok == 'a' then Leaf(st1, Set(Letters))
      else if tok == 'o' then Leaf(st1, Set(Operators))
      else if tok == 'n' then Leaf(st1, Set(Digits))
      else if tok == 'Q' then Leaf(st1, Set("\""))
      else if tok == 'q' then Leaf(st1, Set("'"))
      else if tok == '!' then ParseNot(src, st1)
      else if tok == '/' then ParseDash(src, st1)
      else if tok == '[' then ParseScope(src, st1)
      else if tok == '^' then Leaf(st1, Anything)
      else if tok == '\'' || tok == '`' then ParseText(src, st1, tok)
      else if tok == '{' then ParseSequence(src, st1)
      else if tok == '|' then ParseOr(src, st1)
      else if tok == '?' then ParseQuest(src, st1)
      else if tok == '+' then ParsePlus(src, st1)
      else if tok == '*' then ParseStar(src, st1)
      else if tok == '~' then ParseWave(src, st1)
      else if tok == '}' then Err(StrayCloseBrace)
      else if tok == ']' then Err(StrayCloseBracket)
      else Err(Unrecognized(tok))
  }

  /** `{` goes to `parseSequence`. */
  lemma DispatchGroup(src: seq<byte>, st: PState)
    requires Valid(src, st) && st.pos < |src| && src[st.pos] == '{'
    ensures NextToken(src, st) == ParseSequence(src, st.(pos := st.pos + 1))
  {
    assert src[st.pos] !in Blanks;
  }

  /** `'` goes to `parseText`. */
  lemma DispatchText(src: seq<byte>, st: PState)
    requires Valid(src, st) && st.pos < |src| && src[st.pos] == '\''
    ensures NextToken(src, st) == ParseText(src, st.(pos := st.pos + 1), '\'')
  {
    assert src[st.pos] !in Blanks;
  }

  /** `parsePreOp`: pop the operand an operator applies to. */
  function ParsePreOp(st: PState, op: byte): (r: Out<nat>)
    ensures st.stack == [] <==> r == Err(MissingPreOperand(op))
    ensures r.Ok? ==> r.st.stack <= st.stack && r.st.g == st.g && r.st.pos == st.pos
    ensures r.Ok? && Refs(st.stack, |st.g|) ==> Refs(r.st.stack, |st.g|) && r.v < |st.g|
    ensures r.Ok? ==> r.st == st.(stack := st.stack[..|st.stack| - 1]) && r.v == st.stack[|st.stack| - 1]
  {
    if st.stack == [] then Err(MissingPreOperand(op))
    else Ok(st.stack[|st.stack| - 1], st.(stack := st.stack[..|st.stack| - 1]))
  }

  /** `parsePostOp`: the next unit, which must exist. */
  function ParsePostOp(src: seq<byte>, st: PState, op: byte): (r: Out<nat>)
    requires Valid(src, st)
    ensures r.Ok? ==> Advanced(src, st, r.st) && r.st.stack <= st.stack && r.v < |r.st.g|
    ensures r.Ok? ==> r.st.pos > st.pos
    ensures st.pos == |src| ==> r == Err(MissingPostOperand(op))
    decreases |src|, |src| - st.pos, 1
  {
    match NextToken(src, st)
    case Err(e) => Err(e)
    case Ok(h, st') => if h.Nil? then Err(MissingPostOperand(op)) else Ok(h.node, st')
  }

  /** `parseBinOp`: pop the left operand, then read the right one. */
  function ParseBinOp(src: seq<byte>, st: PState, op: byte): (r: Out<(nat, nat)>)
    requires Valid(src, st)
    ensures r.Ok? ==> Advanced(src, st, r.st) && r.st.stack <= st.stack
    ensures r.Ok? ==> r.v.0 < |r.st.g| && r.v.1 < |r.st.g| && r.st.pos > st.pos
    ensures st.stack == [] ==> r == Err(MissingPreOperand(op))
    ensures r.Ok? ==> st.stack != [] && r.v.0 == st.stack[|st.stack| - 1]
    decreases |src|, |src| - st.pos, 2
  {
    match ParsePreOp(st, op)
    case Err(e) => Err(e)
    case Ok(pre, st1) =>
      match ParsePostOp(src, st1, op)
      case Err(e) => Err(e)
      case Ok(post, st2) => Ok((pre, post), st2)
  }

  /** `parseScope`: `[a-b]`, already past the `[`. */
  function ParseScope(src: seq<byte>, st: PState): (r: Out<Handle>)
    requires Valid(src, st)
    ensures r.Ok? ==> Advanced(src, st, r.st) && r.st.stack == st.stack
    ensures r.Ok? ==> r.v == Ref(|st.g|) && r.st.pos == st.pos + 4
    decreases |src|, |src| - st.pos, 3
  {
    var (a, p1) := ReadOrZero(src, st.pos);
    var (hyphen, p2) := ReadOrZero(src, p1);
    if hyphen != '-' then Err(ExpectedHyphen)
    else
      var (b, p3) := ReadOrZero(src, p2);
      var (end, p4) := ReadOrZero(src, p3);
      if end != ']' then Err(ExpectedCloseBracket)
      else if a > b then Err(EmptyInterval)
      else Leaf(st.(pos := p4), Scope(a, b))
  }

  /** `parseText`: a literal between two `stop` quotes, read verbatim. On
      success exactly one node is added: a `Text` of the bytes before the
      closing quote, and the reader is just past that quote. */
  function ParseText(src: seq<byte>, st: PState, stop: byte): (r: Out<Handle>)
    requires Valid(src, st)
    ensures r.Ok? ==> Advanced(src, st, r.st) && r.st.stack == st.stack && r.v == Ref(|st.g|)
    ensures r.Ok? ==> r.st.pos > st.pos && src[r.st.pos - 1] == stop &&
                      r.st.g == NewNode(st.g, Text(src[st.pos..r.st.pos - 1]))
    ensures r.Err? ==> r.e == UnterminatedText
    decreases |src|, |src| - st.pos, 3
  {
    match ReadText(src, st.pos, stop)
    case Fail(e) => Err(e)
    case Got(v) => Leaf(st.(pos := v.1), Text(v.0))
  }

  /** `parseSequence`: a `{...}` group, compiled by a parser of its own over
      the group's bytes (own reader and stack, shared arena). On success the
      reader is just past the closing `}`, and the unit and the arena are
      those of compiling the bytes before that brace. */
  function ParseSequence(src: seq<byte>, st: PState): (r: Out<Handle>)
    requires Valid(src, st)
    ensures r.Ok? ==> Advanced(src, st, r.st) && r.st.stack == st.stack
    ensures r.Ok? && r.v.Ref? ==> r.v.node < |r.st.g|
    ensures r.Ok? ==> r.st.pos > st.pos && src[r.st.pos - 1] == '}'
    ensures r.Ok? ==> var sub := Parse(src[st.pos..r.st.pos - 1], st.g);
      sub.Ok? && r.v == sub.v && r.st.g == sub.st.g
    decreases |src|, |src| - st.pos, 3
  {
    match ReadGroup(src, st.pos, 1)
    case Fail(e) => Err(e)
    case Got(v) =>
      GroupShorter(src, st.pos, 1);
      assert v.0 == src[st.pos..v.1 - 1];
      var inner := Parse(v.0, st.g);
      if inner.Err? then Err(inner.e)
      else Ok(inner.v, PState(v.1, st.stack, inner.st.g))
  }

  /** `parseDash`: `/x`, a zero-width look-ahead for `x`. On success one
      node is added after what reading `x` built: a `Dash` over `x`. */
  function ParseDash(src: seq<byte>, st: PState): (r: Out<Handle>)
    requires Valid(src, st)
    ensures r.Ok? ==> Advanced(src, st, r.st) && r.st.stack <= st.stack && r.v.Ref?
    ensures r.Ok? ==> r.st.pos > st.pos && r.v.node < |r.st.g|
    ensures var x := ParsePostOp(src, st, '/');
      (r.Ok? <==> x.Ok?) &&
      (r.Ok? ==> r.v == Ref(|x.st.g|) && r.st == x.st.(g := NewNode(x.st.g, Dash(x.v))))
    decreases |src|, |src| - st.pos, 3
  {
    match ParsePostOp(src, st, '/')
    case Err(e) => Err(e)
    case Ok(inner, st') => Leaf(st', Dash(inner))
  }

  /** `parseNot`: `!x`, one byte where `x` does not match. On success one
      node is added after what reading `x` built: a `Not` over `x`. */
  function ParseNot(src: seq<byte>, st: PState): (r: Out<Handle>)
    requires Valid(src, st)
    ensures r.Ok? ==> Advanced(src, st, r.st) && r.st.stack <= st.stack && r.v.Ref?
    ensures r.Ok? ==> r.st.pos > st.pos && r.v.node < |r.st.g|
    ensures var x := ParsePostOp(src, st, '!');
      (r.Ok? <==> x.Ok?) &&
      (r.Ok? ==> r.v == Ref(|x.st.g|) && r.st == x.st.(g := NewNode(x.st.g, Not(x.v))))
    decreases |src|, |src| - st.pos, 3
  {
    match ParsePostOp(src, st, '!')
    case Err(e) => Err(e)
    case Ok(inner, st') => Leaf(st', Not(inner))
  }

  /** `parseOr`: `x | y`, an epsilon node with both operands pushed. */
  function ParseOr(src: seq<byte>, st: PState): (r: Out<Handle>)
    requires Valid(src, st)
    ensures r.Ok? ==> Advanced(src, st, r.st) && r.st.stack <= st.stack && r.v.Ref?
    ensures r.Ok? ==> r.st.pos > st.pos && r.v.node < |r.st.g|
    ensures r.Ok? ==> r.v.node == |r.st.g| - 1
    decreases |src|, |src| - st.pos, 3
  {
    match ParseBinOp(src, st, '|')
    case Err(e) => Err(e)
    case Ok(v, st') => Ok(Ref(|st'.g|), st'.(g := OrOf(st'.g, v.0, v.1)))
  }

  /** `parseQuest`: `x?`, an epsilon node with `x` and an empty branch pushed. */
  function ParseQuest(src: seq<byte>, st: PState): (r: Out<Handle>)
    requires Valid(src, st)
    ensures r.Ok? ==> Advanced(src, st, r.st) && r.st.stack <= st.stack && r.v.Ref?
    ensures r.Ok? ==> r.st.pos == st.pos && r.v.node < |r.st.g|
    ensures st.stack == [] <==> r == Err(MissingPreOperand('?'))
    ensures r.Ok? ==> r.st.stack == st.stack[..|st.stack| - 1] && r.v.node == |r.st.g| - 2
    decreases |src|, |src| - st.pos, 3
  {
    match ParsePreOp(st, '?')
    case Err(e) => Err(e)
    case Ok(pre, st') =>
      assert st'.stack == st.stack[..|st.stack| - 1];
      Ok(Ref(|st'.g|), st'.(g := QuestOf(st'.g, pre)))
  }

  /** `parseStar`: `x*`, an epsilon node merged with `x`, looped back onto
      itself, with an empty exit pushed. */
  function ParseStar(src: seq<byte>, st: PState): (r: Out<Handle>)
    requires Valid(src, st)
    ensures r.Ok? ==> Advanced(src, st, r.st) && r.st.stack <= st.stack && r.v.Ref?
    ensures r.Ok? ==> r.st.pos == st.pos && r.v.node < |r.st.g|
    ensures st.stack == [] <==> r == Err(MissingPreOperand('*'))
    ensures r.Ok? ==> r.st.stack == st.stack[..|st.stack| - 1] && r.v.node == |r.st.g| - 2
    decreases |src|, |src| - st.pos, 3
  {
    match ParsePreOp(st, '*')
    case Err(e) => Err(e)
    case Ok(pre, st') =>
      assert st'.stack == st.stack[..|st.stack| - 1];
      Ok(Ref(|st'.g|), st'.(g := StarOf(st'.g, pre)))
  }

  /** `parsePlus`: `x+`, `x` looped back onto itself. The result is the
      popped operand itself, and no node is added; when `x` does not branch
      it gains an edge to itself, and when it branches its own edges stay
      (the loop then leaves from its last members). */
  function ParsePlus(src: seq<byte>, st: PState): (r: Out<Handle>)
    requires Valid(src, st)
    ensures r.Ok? ==> Advanced(src, st, r.st) && r.st.stack <= st.stack && r.v.Ref?
    ensures r.Ok? ==> r.st.pos == st.pos && r.v.node < |r.st.g|
    ensures st.stack == [] <==> r == Err(MissingPreOperand('+'))
    ensures r.Ok? ==> r.v == Ref(st.stack[|st.stack| - 1]) && r.st.stack == st.stack[..|st.stack| - 1]
    decreases |src|, |src| - st.pos, 3
  {
    match ParsePreOp(st, '+')
    case Err(e) => Err(e)
    case Ok(plus, st') =>
      assert st'.stack == st.stack[..|st.stack| - 1];
      Ok(Ref(plus), st'.(g := Concatenated(st'.g, plus, plus)))
  }

  /** `parseWave`: `x ~ y`, any repetition of `x` up to the first `y`. */
  function ParseWave(src: seq<byte>, st: PState): (r: Out<Handle>)
    requires Valid(src, st)
    ensures r.Ok? ==> Advanced(src, st, r.st) && r.st.stack <= st.stack && r.v.Ref?
    ensures r.Ok? ==> r.st.pos > st.pos && r.v.node < |r.st.g|
    ensures r.Ok? ==> r.v.node == |r.st.g| - 2
    decreases |src|, |src| - st.pos, 3
  {
    match ParseBinOp(src, st, '~')
    case Err(e) => Err(e)
    case Ok(v, st') => Ok(Ref(|st'.g|), st'.(g := WaveOf(st'.g, v.0, v.1)))
  }

  // ---------------------------------------------------------------------------
  // The graphs the operators build; the new head is the first node added

  /** `x | y`: an epsilon node with `x`, then `y`, pushed. */
  function OrOf(g: Arena, pre: nat, post: nat): (r: Arena)
    requires Wf(g) && pre < |g| && post < |g|
    ensures Wf(r) && |r| == |g| + 1
  {
    var or := |g|;
    var g := NewNode(g, Epsilon);
    var g := Pushed(g, or, pre);
    Pushed(g, or, post)
  }

  /** `x?`: an epsilon node with `x`, then a fresh epsilon, pushed. */
  function QuestOf(g: Arena, pre: nat): (r: Arena)
    requires Wf(g) && pre < |g|
    ensures Wf(r) && |r| == |g| + 2
  {
    var quest := |g|;
    var g := NewNode(g, Epsilon);
    var g := Pushed(g, quest, pre);
    var eps := |g|;
    var g := NewNode(g, Epsilon);
    Pushed(g, quest, eps)
  }

  /** `x*`: an epsilon node merged with `x`, concatenated onto itself, with a
      fresh epsilon exit pushed. */
  function StarOf(g: Arena, pre: nat): (r: Arena)
    requires Wf(g) && pre < |g|
    ensures Wf(r) && |r| == |g| + 2
  {
    var star := |g|;
    var g := NewNode(g, Epsilon);
    var g := Merged(g, star, pre);
    var g := Concatenated(g, star, star);
    var eps := |g|;
    var g := NewNode(g, Epsilon);
    Pushed(g, star, eps)
  }

  /** `x ~ y`: an epsilon node with `y`, then `x`, pushed; `x` concatenated
      back onto it; and a `none` node merged after `x`. */
  function WaveOf(g: Arena, pre: nat, post: nat): (r: Arena)
    requires Wf(g) && pre < |g| && post < |g|
    ensures Wf(r) && |r| == |g| + 2
  {
    var wave := |g|;
    var g := NewNode(g, Epsilon);
    var g := Pushed(g, wave, post);
    var g := Pushed(g, wave, pre);
    var g := Concatenated(g, pre, wave);
    var none := |g|;
    var g := NewNode(g, None);
    Merged(g, pre, none)
  }

  /** The two nodes `x ~ y` adds keep the states they were created with. */
  lemma WaveStates(g: Arena, pre: nat, post: nat)
    requires Wf(g) && pre < |g| && post < |g|
    ensures var g3 := Pushed(Pushed(NewNode(g, Epsilon), |g|, post), |g|, pre);
      var g4 := Concatenated(g3, pre, |g|);
      var r := Merged(NewNode(g4, None), pre, |g4|);
      r[|g|].state == Epsilon && r[|g| + 1].state == None
  {
    WaveHead(g, pre, post);
    var g3 := Pushed(Pushed(NewNode(g, Epsilon), |g|, post), |g|, pre);
    NoneMerged(Concatenated(g3, pre, |g|), pre, |g|);
  }

  lemma WaveHead(g: Arena, pre: nat, post: nat)
    requires Wf(g) && pre < |g| && post < |g|
    ensures var g3 := Pushed(Pushed(NewNode(g, Epsilon), |g|, post), |g|, pre);
      Concatenated(g3, pre, |g|)[|g|].state == Epsilon
  {
    var g1 := NewNode(g, Epsilon);
    var g2 := Pushed(g1, |g|, post);
    assert g2[|g|].state == Epsilon;
  }

  lemma NoneMerged(g: Arena, pre: nat, k: nat)
    requires Wf(g) && pre < |g| && k < |g|
    ensures var r := Merged(NewNode(g, None), pre, |g|);
      r[k].state == g[k].state && r[|g|].state == None
  {
    var g1 := NewNode(g, None);
    assert g1[k] == g[k];
  }

  /** The loop of `Parse`: read units until the input is exhausted, pushing
      every unit that is not nil. */
  function ParseLoop(src: seq<byte>, st: PState): (r: Out<()>)
    requires Valid(src, st)
    ensures r.Ok? ==> Valid(src, r.st) && r.st.pos == |src| && |st.g| <= |r.st.g|
    decreases |src|, |src| - st.pos, 4
  {
    if st.pos == |src| then Ok((), st)
    else
      match NextToken(src, st)
      case Err(e) => Err(e)
      case Ok(h, st') =>
        if h.Nil? then ParseLoop(src, st')
        else ParseLoop(src, st'.(stack := st'.stack + [h.node]))
  }

  /** The final loop of `Parse`: merge every later operand into the first. */
  function MergeAll(g: Arena, head: nat, rest: seq<nat>): (r: Arena)
    requires Wf(g) && head < |g| && Refs(rest, |g|)
    ensures Wf(r) && |r| == |g|
    decreases |rest|
  {
    if rest == [] then g else MergeAll(Merged(g, head, rest[0]), head, rest[1..])
  }

  /** `Parse`: compile a whole source with a fresh reader and an empty stack
      into the given arena; the head is nil when the source holds no unit. */
  function Parse(src: seq<byte>, g: Arena): (r: Out<Handle>)
    requires Wf(g)
    ensures r.Ok? ==> Wf(r.st.g) && |g| <= |r.st.g|
    ensures r.Ok? && r.v.Ref? ==> r.v.node < |r.st.g|
    decreases |src|, |src|, 5
  {
    match ParseLoop(src, PState(0, [], g))
    case Err(e) => Err(e)
    case Ok(_, st) =>
      if st.stack == [] then Ok(Nil, st)
      else Ok(Ref(st.stack[0]), st.(g := MergeAll(st.g, st.stack[0], st.stack[1..])))
  }

  /** A group read from `src` is shorter than `src`. */
  lemma {:induction false} GroupShorter(src: seq<byte>, pos: nat, depth: nat)
    requires pos <= |src| && depth >= 1
    ensures ReadGroup(src, pos, depth).Got? ==> |ReadGroup(src, pos, depth).v.0| < |src| - pos
    decreases |src| - pos
  {
    if pos < |src| {
      var tok := src[pos];
      var d := if tok == '{' then depth + 1 else if tok == '}' then depth - 1 else depth;
      if d >= 1 {
        GroupShorter(src, pos + 1, d);
      }
    }
  }

  /** `NewRegex`: compile a source into a fresh arena. */
  function NewRegex(src: seq<byte>): (r: Result<Regex>)
    ensures r.Got? ==> r.v.src == src && Wf(r.v.g) && (r.v.head.Ref? ==> r.v.head.node < |r.v.g|)
  {
    match Parse(src, [])
    case Err(e) => Fail(e)
    case Ok(h, st) => Got(Regex(src, h, st.g))
  }
}
