/** The backtracking matcher of regex.go: `state.Submit` and `node.Submit`.
    A node's edges are tried in ascending order of target index (the order
    `Branch` leaves them in), and the first edge that matches wins.

    Back edges make the source's recursion unbounded (a zero-width body under
    `*` recurses forever), so every function takes `fuel`, the number of node
    visits allowed along a path; running out yields `OutOfFuel` rather than a
    result. */
module RegexMatch {
  import opened RegexGraph

  /** The outcome of a submission: a position (-1 for no match), or out of fuel. */
  datatype Run = Done(at: int) | OutOfFuel

  /** A compiled pattern (`Regex`): its source and the head of its graph. */
  datatype Regex = Regex(src: seq<byte>, head: Handle, g: Arena)

  function Min(a: int, b: int): int
  {
    if a < b then a else b
  }

  /** A result that is either "no match" or a position between `index` and the end. */
  predicate InRange(r: Run, index: int, len: int)
  {
    r.Done? ==> r.at == -1 || index <= r.at <= len
  }

  /** `state.Submit`: test one state at `index`. */
  function SubmitState(g: Arena, s: State, expr: seq<byte>, index: nat, fuel: nat): (r: Run)
    requires Wf(g) && NodeWf(Node(s, 0, []), |g|) && index <= |expr|
    ensures InRange(r, index, |expr|)
    ensures !s.Epsilon? && index >= |expr| ==> r == Done(-1)
    ensures r.Done? && r.at != -1 ==>
      ((s.Epsilon? || s.Dash?) ==> r.at == index) &&
      ((s.Anything? || s.Not? || s.Set? || s.Scope?) ==> r.at == index + 1)
    ensures s.None? ==> r == Done(-1)
    decreases fuel, 1, 0
  {
    if !s.Epsilon? && index >= |expr| then Done(-1)
    else
      match s
      case Epsilon => Done(index)
      case Anything => Done(index + 1)
      case None => Done(-1)
      case Not(inner) =>
        (match SubmitNode(g, inner, expr, index, fuel)
         case OutOfFuel => OutOfFuel
         case Done(m) => if m == -1 then Done(index + 1) else Done(-1))
      case Dash(inner) =>
        (match SubmitNode(g, inner, expr, index, fuel)
         case OutOfFuel => OutOfFuel
         case Done(m) => if m != -1 then Done(index) else Done(-1))
      case Text(str) =>
        var k := Min(|str|, |expr| - index);
        if str[..k] == expr[index..index + k] then Done(index + k) else Done(-1)
      case Set(str) => if expr[index] in str then Done(index + 1) else Done(-1)
      case Scope(a, b) => if a <= expr[index] <= b then Done(index + 1) else Done(-1)
  }

  /** `node.Submit`: test the node's state, then continue along its edges. */
  function SubmitNode(g: Arena, n: nat, expr: seq<byte>, index: nat, fuel: nat): (r: Run)
    requires Wf(g) && n < |g| && index <= |expr|
    ensures InRange(r, index, |expr|)
    decreases fuel, 0, 0
  {
    if fuel == 0 then OutOfFuel
    else
      match SubmitState(g, g[n].state, expr, index, fuel - 1)
      case OutOfFuel => OutOfFuel
      case Done(m) => if m == -1 then Done(-1) else Proceed(g, n, expr, m, fuel - 1)
  }

  /** The rest of `node.Submit` once the state has matched up to `m`: a node
      that does not branch stops at the end of the input; otherwise the edges
      are tried, and if none matches a node that does not branch accepts `m`. */
  function Proceed(g: Arena, n: nat, expr: seq<byte>, m: nat, fuel: nat): (r: Run)
    requires Wf(g) && n < |g| && m <= |expr|
    ensures InRange(r, m, |expr|)
    decreases fuel, 2, 0
  {
    var branch := Branch(g, n);
    if !branch && m >= |expr| then Done(m)
    else
      match SubmitEdges(g, SortByIndex(g, g[n].edges), expr, m, fuel)
      case OutOfFuel => OutOfFuel
      case Done(f) =>
        if f != -1 then Done(f)
        else if !branch then Done(m)
        else Done(-1)
  }

  /** The loop over a node's edges: the first edge that matches decides. */
  function SubmitEdges(g: Arena, es: seq<nat>, expr: seq<byte>, index: nat, fuel: nat): (r: Run)
    requires Wf(g) && Refs(es, |g|) && index <= |expr|
    ensures InRange(r, index, |expr|)
    decreases fuel, 1, |es|
  {
    if es == [] then Done(-1)
    else
      match SubmitNode(g, es[0], expr, index, fuel)
      case OutOfFuel => OutOfFuel
      case Done(m) => if m != -1 then Done(m) else SubmitEdges(g, es[1..], expr, index, fuel)
  }

  /** `Regex.Match`: the length of the prefix matched from the head, or -1.
      Choice is ordered, not greedy: at every node the first edge, in index
      order, that leads to a match decides. */
  function Match(rx: Regex, expr: seq<byte>, fuel: nat): (r: Run)
    requires Wf(rx.g) && rx.head.Ref? && rx.head.node < |rx.g|
    ensures InRange(r, 0, |expr|)
  {
    SubmitNode(rx.g, rx.head.node, expr, 0, fuel)
  }

  // ---------------------------------------------------------------------------
  // Properties

  /** A literal succeeds iff it agrees with the input on their common length,
      and then consumes that length: in full when enough input remains, and
      only the rest of the input when the input ends inside the literal. */
  lemma TextMatch(g: Arena, str: seq<byte>, expr: seq<byte>, index: nat, fuel: nat)
    requires Wf(g) && index < |expr|
    ensures var r := SubmitState(g, Text(str), expr, index, fuel);
      var k := Min(|str|, |expr| - index);
      r.Done? &&
      (r.at != -1 <==> forall i :: 0 <= i < k ==> str[i] == expr[index + i]) &&
      (r.at != -1 ==> r.at == index + k)
  {
    var k := Min(|str|, |expr| - index);
    if forall i :: 0 <= i < k ==> str[i] == expr[index + i] {
      assert str[..k] == expr[index..index + k];
    } else {
      var i :| 0 <= i < k && str[i] != expr[index + i];
      assert str[..k][i] != expr[index..index + k][i];
    }
  }

  /** With enough input left, a literal matches exactly when it is a prefix of the rest. */
  lemma TextPrefix(g: Arena, str: seq<byte>, expr: seq<byte>, index: nat, fuel: nat)
    requires Wf(g) && index < |expr| && |str| <= |expr| - index
    ensures var r := SubmitState(g, Text(str), expr, index, fuel);
      r.Done? && (r.at != -1 <==> str <= expr[index..]) &&
      (r.at != -1 ==> r.at == index + |str|)
  {
    assert expr[index..][..|str|] == expr[index..index + |str|];
  }

  /** More fuel never changes a result that was reached. */
  lemma {:induction false} NodeFuel(g: Arena, n: nat, expr: seq<byte>, index: nat, fuel: nat, more: nat)
    requires Wf(g) && n < |g| && index <= |expr| && fuel <= more
    requires SubmitNode(g, n, expr, index, fuel).Done?
    ensures SubmitNode(g, n, expr, index, more) == SubmitNode(g, n, expr, index, fuel)
    decreases fuel, 0, 0
  {
    var m := SubmitState(g, g[n].state, expr, index, fuel - 1);
    assert m.Done?;
    StateFuel(g, g[n].state, expr, index, fuel - 1, more - 1);
    assert SubmitState(g, g[n].state, expr, index, more - 1) == m;
    if m.at != -1 {
      ProceedFuel(g, n, expr, m.at, fuel - 1, more - 1);
    }
  }

  lemma {:induction false} ProceedFuel(g: Arena, n: nat, expr: seq<byte>, m: nat, fuel: nat, more: nat)
    requires Wf(g) && n < |g| && m <= |expr| && fuel <= more
    requires Proceed(g, n, expr, m, fuel).Done?
    ensures Proceed(g, n, expr, m, more) == Proceed(g, n, expr, m, fuel)
    decreases fuel, 2, 0
  {
    if Branch(g, n) || m < |expr| {
      EdgesFuel(g, SortByIndex(g, g[n].edges), expr, m, fuel, more);
    }
  }

  lemma {:induction false} StateFuel(g: Arena, s: State, expr: seq<byte>, index: nat, fuel: nat, more: nat)
    requires Wf(g) && NodeWf(Node(s, 0, []), |g|) && index <= |expr| && fuel <= more
    requires SubmitState(g, s, expr, index, fuel).Done?
    ensures SubmitState(g, s, expr, index, more) == SubmitState(g, s, expr, index, fuel)
    decreases fuel, 1, 0
  {
    if s.Epsilon? || index < |expr| {
      match s
      case Not(inner) => NodeFuel(g, inner, expr, index, fuel, more);
      case Dash(inner) => NodeFuel(g, inner, expr, index, fuel, more);
      case _ =>
    }
  }

  lemma {:induction false} EdgesFuel(g: Arena, es: seq<nat>, expr: seq<byte>, index: nat, fuel: nat, more: nat)
    requires Wf(g) && Refs(es, |g|) && index <= |expr| && fuel <= more
    requires SubmitEdges(g, es, expr, index, fuel).Done?
    ensures SubmitEdges(g, es, expr, index, more) == SubmitEdges(g, es, expr, index, fuel)
    decreases fuel, 1, |es|
  {
    if es != [] {
      NodeFuel(g, es[0], expr, index, fuel, more);
      if SubmitNode(g, es[0], expr, index, fuel).at == -1 {
        EdgesFuel(g, es[1..], expr, index, fuel, more);
      }
    }
  }

  /** Ordered choice: a match found along the edges is the result of some edge,
      and every edge before it failed. */
  lemma {:induction false} EdgesFirst(g: Arena, es: seq<nat>, expr: seq<byte>, index: nat, fuel: nat)
    requires Wf(g) && Refs(es, |g|) && index <= |expr|
    requires SubmitEdges(g, es, expr, index, fuel).Done? && SubmitEdges(g, es, expr, index, fuel).at != -1
    ensures exists i ::
      0 <= i < |es| &&
      SubmitNode(g, es[i], expr, index, fuel) == SubmitEdges(g, es, expr, index, fuel) &&
      (forall j :: 0 <= j < i ==> SubmitNode(g, es[j], expr, index, fuel) == Done(-1))
    decreases |es|
  {
    var r := SubmitEdges(g, es, expr, index, fuel);
    if SubmitNode(g, es[0], expr, index, fuel) != r {
      EdgesFirst(g, es[1..], expr, index, fuel);
      var i :| 0 <= i < |es| - 1 &&
        SubmitNode(g, es[1..][i], expr, index, fuel) == r &&
        forall j :: 0 <= j < i ==> SubmitNode(g, es[1..][j], expr, index, fuel) == Done(-1);
      assert SubmitNode(g, es[i + 1], expr, index, fuel) == r;
      forall j | 0 <= j < i + 1
        ensures SubmitNode(g, es[j], expr, index, fuel) == Done(-1)
      {
        if j > 0 {
          assert es[j] == es[1..][j - 1];
        }
      }
    }
  }

  /** No edge matches: the loop reports no match. */
  lemma {:induction false} EdgesNone(g: Arena, es: seq<nat>, expr: seq<byte>, index: nat, fuel: nat)
    requires Wf(g) && Refs(es, |g|) && index <= |expr|
    requires forall j :: 0 <= j < |es| ==> SubmitNode(g, es[j], expr, index, fuel) == Done(-1)
    ensures SubmitEdges(g, es, expr, index, fuel) == Done(-1)
    decreases |es|
  {
    if es != [] {
      EdgesNone(g, es[1..], expr, index, fuel);
    }
  }

  /** A node that does not branch and whose state has consumed the whole
      input accepts there, without trying its edges. */
  lemma ProceedAtEnd(g: Arena, n: nat, expr: seq<byte>, fuel: nat)
    requires Wf(g) && n < |g| && !Branch(g, n)
    ensures Proceed(g, n, expr, |expr|, fuel) == Done(|expr|)
  {
  }

  /** When every edge fails, a node that does not branch accepts its own
      position and a branching node fails. */
  lemma ProceedFallback(g: Arena, n: nat, expr: seq<byte>, m: nat, fuel: nat)
    requires Wf(g) && n < |g| && m <= |expr|
    requires forall j :: 0 <= j < |g[n].edges| ==> SubmitNode(g, g[n].edges[j], expr, m, fuel) == Done(-1)
    ensures Proceed(g, n, expr, m, fuel) == if Branch(g, n) then Done(-1) else Done(m)
  {
    var es := SortByIndex(g, g[n].edges);
    forall j | 0 <= j < |es| ensures SubmitNode(g, es[j], expr, m, fuel) == Done(-1) {
      assert es[j] in multiset(g[n].edges);
    }
    EdgesNone(g, es, expr, m, fuel);
  }

  /** When an edge matches, the node's result is that of the first edge, in
      ascending index order, that matches. */
  lemma ProceedFirst(g: Arena, n: nat, expr: seq<byte>, m: nat, fuel: nat)
    requires Wf(g) && n < |g| && m <= |expr| && (Branch(g, n) || m < |expr|)
    requires SubmitEdges(g, SortByIndex(g, g[n].edges), expr, m, fuel).Done?
    requires SubmitEdges(g, SortByIndex(g, g[n].edges), expr, m, fuel).at != -1
    ensures var es := SortByIndex(g, g[n].edges);
      SortedByIndex(g, es) && multiset(es) == multiset(g[n].edges) &&
      exists i ::
        0 <= i < |es| &&
        SubmitNode(g, es[i], expr, m, fuel) == Proceed(g, n, expr, m, fuel) &&
        (forall j :: 0 <= j < i ==> SubmitNode(g, es[j], expr, m, fuel) == Done(-1))
  {
    SortByIndexSorted(g, g[n].edges);
    EdgesFirst(g, SortByIndex(g, g[n].edges), expr, m, fuel);
  }

  /** `'abc'` matches a prefix of `"abcccc"`; `'cba'` does not match `"abc"`. */
  lemma TextExamples()
    ensures Match(Regex("'abc'", Ref(0), [Node(Text("abc"), 0, [])]), "abcccc", 1) == Done(3)
    ensures Match(Regex("'cba'", Ref(0), [Node(Text("cba"), 0, [])]), "abc", 1) == Done(-1)
  {
    var g: Arena := [Node(Text("abc"), 0, [])];
    assert "abc" == "abcccc"[0..3];
    assert !Branch(g, 0);
    var h: Arena := [Node(Text("cba"), 0, [])];
    assert "cba"[0] != "abc"[0];
  }
}
