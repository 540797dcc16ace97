/** Worked examples from the regex test suite: the `[a-b]+` loop compiles to
    one node and matches the longest run of bytes in its interval, and
    malformed sources fail with the error of their first bad unit. */
module RegexExamples {
  import opened RegexGraph
  import opened RegexMatch
  import opened RegexCompile
  import opened RegexSyntax

  /** The graph of `[a-b]+`: one interval node with an edge back to itself. */
  function PlusGraph(a: byte, b: byte): (g: Arena)
    ensures Wf(g) && |g| == 1 && !Branch(g, 0)
  {
    [Node(Scope(a, b), 0, [0])]
  }

  /** `[a-b]+` from position `i` consumes the whole run of bytes in the
      interval that starts there, and fails when there is none. */
  lemma {:induction false} PlusRun(a: byte, b: byte, expr: seq<byte>, i: nat, j: nat, fuel: nat)
    requires i <= j <= |expr| && fuel > j - i
    requires forall k :: i <= k < j ==> a <= expr[k] <= b
    requires j == |expr| || !(a <= expr[j] <= b)
    ensures SubmitNode(PlusGraph(a, b), 0, expr, i, fuel) == if i == j then Done(-1) else Done(j)
    decreases j - i
  {
    var g := PlusGraph(a, b);
    assert SortByIndex(g, [0]) == [0];
    if i < j {
      assert SubmitState(g, g[0].state, expr, i, fuel - 1) == Done(i + 1);
      if i + 1 < |expr| {
        PlusRun(a, b, expr, i + 1, j, fuel - 1);
        assert SubmitEdges(g, [0], expr, i + 1, fuel - 1) == SubmitNode(g, 0, expr, i + 1, fuel - 1);
      }
      assert Proceed(g, 0, expr, i + 1, fuel - 1) == Done(j);
    } else if i < |expr| {
      assert SubmitState(g, g[0].state, expr, i, fuel - 1) == Done(-1);
    }
  }

  /** The source `[a-b]+`. */
  function PlusSource(a: byte, b: byte): (src: seq<byte>)
    ensures |src| == 6
  {
    ['[', a, '-', b, ']', '+']
  }

  lemma PlusScopeStep(a: byte, b: byte)
    requires a <= b
    ensures NextToken(PlusSource(a, b), PState(0, [], [])) ==
            Ok(Ref(0), PState(5, [], [Node(Scope(a, b), 0, [])]))
  {
    var src := PlusSource(a, b);
    assert ParseScope(src, PState(1, [], [])) == Ok(Ref(0), PState(5, [], [Node(Scope(a, b), 0, [])]));
  }

  lemma PlusConcat(a: byte, b: byte)
    ensures Concatenated([Node(Scope(a, b), 0, [])], 0, 0) == PlusGraph(a, b)
  {
    var g1: Arena := [Node(Scope(a, b), 0, [])];
    assert MembsFrom(g1, 0, 0) == [];
    assert Membs(g1, 0) == [0];
    assert AppendEach(g1, [0], 0) == PlusGraph(a, b) by {
      assert AppendEach(g1, [], 0) == g1;
    }
  }

  lemma PlusStep(a: byte, b: byte)
    ensures ParsePlus(PlusSource(a, b), PState(6, [0], [Node(Scope(a, b), 0, [])])) ==
            Ok(Ref(0), PState(6, [], PlusGraph(a, b)))
  {
    var g1: Arena := [Node(Scope(a, b), 0, [])];
    PlusConcat(a, b);
    assert ParsePreOp(PState(6, [0], g1), '+') == Ok(0, PState(6, [], g1));
  }

  lemma PlusLoopStep(a: byte, b: byte)
    ensures NextToken(PlusSource(a, b), PState(5, [0], [Node(Scope(a, b), 0, [])])) ==
            Ok(Ref(0), PState(6, [], PlusGraph(a, b)))
  {
    PlusStep(a, b);
    var src := PlusSource(a, b);
    assert src[5] == '+' && src[5] !in Blanks;
  }

  /** `[a-b]+` compiles to the one-node loop of `PlusGraph`, and to an
      empty-interval error when `a > b`. */
  lemma PlusCompiles(a: byte, b: byte)
    ensures a <= b ==> NewRegex(PlusSource(a, b)) == Got(Regex(PlusSource(a, b), Ref(0), PlusGraph(a, b)))
    ensures a > b ==> NewRegex(PlusSource(a, b)) == Fail(EmptyInterval)
  {
    var src := PlusSource(a, b);
    if a <= b {
      PlusScopeStep(a, b);
      PlusLoopStep(a, b);
      var g1: Arena := [Node(Scope(a, b), 0, [])];
      assert ParseLoop(src, PState(5, [0], g1)) == Ok((), PState(6, [0], PlusGraph(a, b)));
      assert ParseLoop(src, PState(0, [], [])) == Ok((), PState(6, [0], PlusGraph(a, b)));
    } else {
      assert ParseScope(src, PState(1, [], [])) == Err(EmptyInterval);
      assert NextToken(src, PState(0, [], [])) == Err(EmptyInterval);
      assert ParseLoop(src, PState(0, [], [])) == Err(EmptyInterval);
    }
  }

  /** `[a-f]+` takes the first six letters of the alphabet. */
  lemma AlphabetMatch()
    ensures Match(Regex("[a-f]+", Ref(0), PlusGraph('a', 'f')), "abcdefghijklmnopqrstuvwxyz", 7) == Done(6)
  {
    PlusRun('a', 'f', "abcdefghijklmnopqrstuvwxyz", 0, 6, 7);
  }

  /** `[a-a]+` takes the seven leading `a`s of `"aaaaaaah"`. */
  lemma RepeatMatch()
    ensures Match(Regex("[a-a]+", Ref(0), PlusGraph('a', 'a')), "aaaaaaah", 8) == Done(7)
  {
    PlusRun('a', 'a', "aaaaaaah", 0, 7, 8);
  }

  /** `[0-9]+` takes the ten digits of `"0123456789yeet"`. */
  lemma DigitsMatch()
    ensures Match(Regex("[0-9]+", Ref(0), PlusGraph('0', '9')), "0123456789yeet", 11) == Done(10)
  {
    PlusRun('0', '9', "0123456789yeet", 0, 10, 11);
  }

  // ---------------------------------------------------------------------------
  // Sources that do not compile

  /** A first unit that fails makes the whole source fail with its error. */
  lemma FirstFails(src: seq<byte>, e: ParseError)
    requires NextToken(src, PState(0, [], [])) == Err(e)
    ensures NewRegex(src) == Fail(e)
  {
    assert |src| > 0;
    assert ParseLoop(src, PState(0, [], [])) == Err(e);
  }

  lemma UnknownByte()
    ensures NewRegex("N") == Fail(Unrecognized('N'))
    ensures NewRegex("9]") == Fail(Unrecognized('9'))
  {
    FirstFails("N", Unrecognized('N'));
    FirstFails("9]", Unrecognized('9'));
  }

  lemma StrayClosers()
    ensures NewRegex("}") == Fail(StrayCloseBrace)
    ensures NewRegex("]") == Fail(StrayCloseBracket)
  {
    FirstFails("}", StrayCloseBrace);
    FirstFails("]", StrayCloseBracket);
  }

  lemma BrokenRanges()
    ensures NewRegex("[") == Fail(ExpectedHyphen)
    ensures NewRegex("[0") == Fail(ExpectedHyphen)
    ensures NewRegex("[0-") == Fail(ExpectedCloseBracket)
    ensures NewRegex("[0-9") == Fail(ExpectedCloseBracket)
  {
    FirstFails("[", ExpectedHyphen);
    FirstFails("[0", ExpectedHyphen);
    FirstFails("[0-", ExpectedCloseBracket);
    FirstFails("[0-9", ExpectedCloseBracket);
  }

  /** A first quote that is never closed fails the source. */
  lemma OpensLiteral(src: seq<byte>)
    requires |src| > 0 && (src[0] == '\'' || src[0] == '`') && src[0] !in src[1..]
    ensures NewRegex(src) == Fail(UnterminatedText)
  {
    Unterminated(src, PState(0, [], []));
    FirstFails(src, UnterminatedText);
  }

  lemma OpenLiteral()
    ensures NewRegex("'hello") == Fail(UnterminatedText)
    ensures NewRegex("`hello'") == Fail(UnterminatedText)
  {
    OpensLiteral("'hello");
    OpensLiteral("`hello'");
  }

  /** A first `{` whose group is never read to its end fails the source. */
  lemma OpensGroup(src: seq<byte>)
    requires |src| > 0 && src[0] == '{' && ReadGroup(src, 1, 1).Fail?
    ensures NewRegex(src) == Fail(UnmatchedOpenBrace)
  {
    DispatchGroup(src, PState(0, [], []));
    FirstFails(src, UnmatchedOpenBrace);
  }

  lemma OpenGroup()
    ensures NewRegex("{") == Fail(UnmatchedOpenBrace)
    ensures NewRegex("{{{'abc'") == Fail(UnmatchedOpenBrace)
  {
    OpensGroup("{");
    OpensGroup("{{{'abc'");
  }

  lemma NoLeftOperand()
    ensures NewRegex("+") == Fail(MissingPreOperand('+'))
    ensures NewRegex("|") == Fail(MissingPreOperand('|'))
    ensures NewRegex("~") == Fail(MissingPreOperand('~'))
  {
    FirstFails("+", MissingPreOperand('+'));
    FirstFails("|", MissingPreOperand('|'));
    FirstFails("~", MissingPreOperand('~'));
  }
}
