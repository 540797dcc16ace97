/** The node graph of the pattern engine (regex.go): states, nodes kept in an
    arena and addressed by handle, member enumeration over forward edges, and
    the combinators that splice subgraphs together by renumbering indices.

    The combinators are stated here as functions from the old arena to the new
    one; module RegexArena holds the in-place versions, proved equal to these. */
module RegexGraph {

  /** One byte of a Go string: a `char` below 256 stands for the byte of that value. */
  type byte = c: char | c as int < 256

  /** The atomic test of one node (the tagged `state` struct). `Not` and `Dash`
      own an inner subgraph, named by the handle of its head node. */
  datatype State =
    | Epsilon              // zero width, always succeeds
    | Anything             // any one byte
    | None                 // always fails
    | Not(inner: nat)      // one byte, where the inner graph does not match
    | Dash(inner: nat)     // zero width, where the inner graph matches
    | Text(str: seq<byte>) // a literal, compared against a possibly truncated input
    | Set(str: seq<byte>)  // one byte that occurs in `str`
    | Scope(a: byte, b: byte) // one byte in the closed interval [a, b]

  /** A node: its test, its layout index and its outgoing edges (handles). */
  datatype Node = Node(state: State, index: int, edges: seq<nat>)

  /** Every node ever allocated; a handle is a position in this sequence. */
  type Arena = seq<Node>

  /** A possibly nil `*node`. */
  datatype Handle = Nil | Ref(node: nat)

  predicate Refs(s: seq<nat>, size: nat)
  {
    forall i :: 0 <= i < |s| ==> s[i] < size
  }

  predicate NodeWf(n: Node, size: nat)
  {
    Refs(n.edges, size) && ((n.state.Not? || n.state.Dash?) ==> n.state.inner < size)
  }

  /** Every handle stored in the arena names a node of the arena. */
  predicate Wf(g: Arena)
  {
    forall k :: 0 <= k < |g| ==> NodeWf(g[k], |g|)
  }

  /** A fresh node as `newNode` builds it: index 0, no edges. */
  function NewNode(g: Arena, s: State): (r: Arena)
    requires Wf(g) && NodeWf(Node(s, 0, []), |g|)
    ensures Wf(r) && |r| == |g| + 1 && r[..|g|] == g
    ensures r[|g|] == Node(s, 0, [])
  {
    g + [Node(s, 0, [])]
  }

  // ---------------------------------------------------------------------------
  // Ordering edge lists by target index (`sort.Sort` on `nodes`)

  predicate SortedByIndex(g: Arena, s: seq<nat>)
    requires Refs(s, |g|)
  {
    forall i, j :: 0 <= i < j < |s| ==> g[s[i]].index <= g[s[j]].index
  }

  /** Inserts `x` before the first element of higher index. */
  function Insert(g: Arena, x: nat, s: seq<nat>): (r: seq<nat>)
    requires x < |g| && Refs(s, |g|)
    ensures Refs(r, |g|) && multiset(r) == multiset(s) + multiset{x}
  {
    if s == [] then [x]
    else if g[x].index <= g[s[0]].index then [x] + s
    else
      assert s == [s[0]] + s[1..];
      [s[0]] + Insert(g, x, s[1..])
  }

  lemma {:induction false} InsertSorted(g: Arena, x: nat, s: seq<nat>)
    requires x < |g| && Refs(s, |g|) && SortedByIndex(g, s)
    ensures SortedByIndex(g, Insert(g, x, s))
  {
    if s != [] && g[x].index > g[s[0]].index {
      InsertSorted(g, x, s[1..]);
      var t := Insert(g, x, s[1..]);
      forall y | y in t ensures g[s[0]].index <= g[y].index {
        assert y in multiset(t);
        assert y in multiset(s[1..]) || y == x;
      }
    }
  }

  /** Insertion sort by target index; a reordering of the same handles. */
  function SortByIndex(g: Arena, s: seq<nat>): (r: seq<nat>)
    requires Refs(s, |g|)
    ensures Refs(r, |g|) && multiset(r) == multiset(s) && |r| == |s|
  {
    if s == [] then []
    else
      assert s == [s[0]] + s[1..];
      Insert(g, s[0], SortByIndex(g, s[1..]))
  }

  lemma {:induction false} SortByIndexSorted(g: Arena, s: seq<nat>)
    requires Refs(s, |g|)
    ensures SortedByIndex(g, SortByIndex(g, s))
  {
    if s != [] {
      SortByIndexSorted(g, s[1..]);
      InsertSorted(g, s[0], SortByIndex(g, s[1..]));
    }
  }

  /** `nodes.Append`: the list extended by `e` and sorted again by index. */
  function Append(g: Arena, s: seq<nat>, e: nat): (r: seq<nat>)
    requires Refs(s, |g|) && e < |g|
    ensures Refs(r, |g|) && multiset(r) == multiset(s) + multiset{e}
  {
    SortByIndex(g, s + [e])
  }

  /** The list `Append` returns is ordered by target index. */
  lemma AppendSorted(g: Arena, s: seq<nat>, e: nat)
    requires Refs(s, |g|) && e < |g|
    ensures SortedByIndex(g, Append(g, s, e))
  {
    SortByIndexSorted(g, s + [e]);
  }

  /** `nodes.Max`: the last handle once the list is sorted by index. */
  function Max(g: Arena, s: seq<nat>): (m: nat)
    requires Refs(s, |g|) && |s| > 0
    ensures m in s && m < |g|
    ensures forall i :: 0 <= i < |s| ==> g[s[i]].index <= g[m].index
  {
    var t := SortByIndex(g, s);
    LastIsMax(g, s);
    t[|t| - 1]
  }

  lemma LastIsMax(g: Arena, s: seq<nat>)
    requires Refs(s, |g|) && |s| > 0
    ensures var t := SortByIndex(g, s);
      t[|t| - 1] in s &&
      forall i :: 0 <= i < |s| ==> g[s[i]].index <= g[t[|t| - 1]].index
  {
    var t := SortByIndex(g, s);
    SortByIndexSorted(g, s);
    var m := t[|t| - 1];
    assert m in multiset(t);
    assert m in multiset(s);
    forall i | 0 <= i < |s| ensures g[s[i]].index <= g[m].index {
      assert s[i] in multiset(s);
      assert s[i] in multiset(t);
      var j :| 0 <= j < |t| && t[j] == s[i];
      assert j <= |t| - 1;
    }
  }

  // ---------------------------------------------------------------------------
  // Members: the nodes reached from `n` by forward edges only

  /** The largest index in the arena; bounds every forward path. */
  ghost function MaxIndex(g: Arena): (m: int)
    ensures forall k :: 0 <= k < |g| ==> g[k].index <= m
  {
    if |g| == 0 then 0
    else
      var m := MaxIndex(g[..|g| - 1]);
      assert forall k :: 0 <= k < |g| - 1 ==> g[..|g| - 1][k] == g[k];
      if g[|g| - 1].index > m then g[|g| - 1].index else m
  }

  /** `Membs`: `n` first, then, edge by edge, the members of every edge target
      whose index exceeds `n`'s. There is no visited set, so a node reached along
      two forward paths is listed twice. */
  function Membs(g: Arena, n: nat): (ms: seq<nat>)
    requires Wf(g) && n < |g|
    ensures |ms| >= 1 && ms[0] == n && Refs(ms, |g|)
    ensures forall i :: 1 <= i < |ms| ==> g[ms[i]].index > g[n].index
    decreases MaxIndex(g) - g[n].index, 1
  {
    [n] + MembsFrom(g, n, 0)
  }

  /** The members contributed by the edges of `n` from the `j`-th on. */
  function MembsFrom(g: Arena, n: nat, j: nat): (ms: seq<nat>)
    requires Wf(g) && n < |g| && j <= |g[n].edges|
    ensures Refs(ms, |g|)
    ensures forall i :: 0 <= i < |ms| ==> g[ms[i]].index > g[n].index
    decreases MaxIndex(g) - g[n].index, 0, |g[n].edges| - j
  {
    if j == |g[n].edges| then []
    else
      var e := g[n].edges[j];
      (if g[e].index > g[n].index then Membs(g, e) else []) + MembsFrom(g, n, j + 1)
  }

  /** `NextIndex`: one more than the largest index among the members. */
  function NextIndex(g: Arena, n: nat): (r: int)
    requires Wf(g) && n < |g|
    ensures forall i :: 0 <= i < |Membs(g, n)| ==> g[Membs(g, n)[i]].index < r
    ensures exists i :: 0 <= i < |Membs(g, n)| && r == g[Membs(g, n)[i]].index + 1
    ensures r > g[n].index
  {
    var m := Max(g, Membs(g, n));
    assert exists i :: 0 <= i < |Membs(g, n)| && Membs(g, n)[i] == m;
    g[m].index + 1
  }

  /** `Branch`: some edge of `n` is a forward edge, i.e. leads to a higher index. */
  predicate Branch(g: Arena, n: nat)
    requires Wf(g) && n < |g|
    ensures Branch(g, n) ==> g[n].edges != []
  {
    exists j :: 0 <= j < |g[n].edges| && g[g[n].edges[j]].index > g[n].index
  }

  /** The source decides Branch by sorting the edges and comparing the last
      one's index (`n.edges.Max().index > n.index`); that test agrees. */
  lemma BranchByMax(g: Arena, n: nat)
    requires Wf(g) && n < |g|
    ensures Branch(g, n) <==> |g[n].edges| > 0 && g[Max(g, g[n].edges)].index > g[n].index
  {
    if Branch(g, n) {
      var j :| 0 <= j < |g[n].edges| && g[g[n].edges[j]].index > g[n].index;
      assert g[g[n].edges[j]].index <= g[Max(g, g[n].edges)].index;
    }
    if |g[n].edges| > 0 && g[Max(g, g[n].edges)].index > g[n].index {
      var m := Max(g, g[n].edges);
      var j :| 0 <= j < |g[n].edges| && g[n].edges[j] == m;
    }
  }

  // ---------------------------------------------------------------------------
  // Combinators, stated on values

  /** Adds `base` to the index of every listed handle, once per occurrence. */
  function AddBase(g: Arena, ms: seq<nat>, base: int): (r: Arena)
    requires Refs(ms, |g|)
    ensures |r| == |g|
    ensures forall k {:trigger r[k]} :: 0 <= k < |g| ==> r[k].state == g[k].state && r[k].edges == g[k].edges
    decreases |ms|
  {
    if ms == [] then g
    else
      var h := AddBase(g, ms[..|ms| - 1], base);
      var m := ms[|ms| - 1];
      h[m := h[m].(index := h[m].index + base)]
  }

  lemma {:induction false} AddBaseAt(g: Arena, ms: seq<nat>, base: int, k: nat)
    requires Refs(ms, |g|) && k < |g|
    ensures AddBase(g, ms, base)[k] == g[k].(index := g[k].index + base * multiset(ms)[k])
    decreases |ms|
  {
    if ms != [] {
      var init := ms[..|ms| - 1];
      assert ms == init + [ms[|ms| - 1]];
      AddBaseAt(g, init, base, k);
    }
  }

  /** `n.Scope(base)`: every member occurrence gains `base`; no edge changes. */
  function Scoped(g: Arena, n: nat, base: int): (r: Arena)
    requires Wf(g) && n < |g|
    ensures |r| == |g| && Wf(r)
    ensures forall k {:trigger r[k]} :: 0 <= k < |g| ==>
      r[k].state == g[k].state && r[k].edges == g[k].edges &&
      r[k].index == g[k].index + base * multiset(Membs(g, n))[k]
  {
    var r := AddBase(g, Membs(g, n), base);
    forall k | 0 <= k < |g|
      ensures r[k] == g[k].(index := g[k].index + base * multiset(Membs(g, n))[k])
    {
      AddBaseAt(g, Membs(g, n), base, k);
    }
    r
  }

  /** Appends `e` to each listed node that does not branch at the moment its
      occurrence is reached. */
  function AppendEach(g: Arena, ms: seq<nat>, e: nat): (r: Arena)
    requires Wf(g) && Refs(ms, |g|) && e < |g|
    ensures |r| == |g| && Wf(r)
    ensures forall k {:trigger r[k]} :: 0 <= k < |g| ==> r[k].state == g[k].state && r[k].index == g[k].index
    decreases |ms|
  {
    if ms == [] then g
    else
      var h := AppendEach(g, ms[..|ms| - 1], e);
      var m := ms[|ms| - 1];
      if Branch(h, m) then h
      else h[m := h[m].(edges := Append(h, h[m].edges, e))]
  }

  /** One more occurrence at the end of the list: one more step of the fold. */
  lemma AppendEachSnoc(g: Arena, ms: seq<nat>, m: nat, e: nat)
    requires Wf(g) && Refs(ms, |g|) && m < |g| && e < |g|
    ensures var h := AppendEach(g, ms, e);
      AppendEach(g, ms + [m], e) ==
        if Branch(h, m) then h else h[m := h[m].(edges := Append(h, h[m].edges, e))]
  {
    assert (ms + [m])[..|ms|] == ms;
  }

  /** The fold over the first `i + 1` occurrences: the fold over the first `i`, then one step. */
  lemma AppendEachPrefix(g: Arena, ms: seq<nat>, i: nat, e: nat)
    requires Wf(g) && Refs(ms, |g|) && i < |ms| && e < |g|
    ensures var h := AppendEach(g, ms[..i], e);
      var m := ms[i];
      AppendEach(g, ms[..i + 1], e) ==
        if Branch(h, m) then h else h[m := h[m].(edges := Append(h, h[m].edges, e))]
  {
    assert ms[..i + 1] == ms[..i] + [ms[i]];
    AppendEachSnoc(g, ms[..i], ms[i], e);
  }

  /** `n.Concat(e)`: every member that does not branch gains the edge `e`. */
  function Concatenated(g: Arena, n: nat, e: nat): (r: Arena)
    requires Wf(g) && n < |g| && e < |g|
    ensures |r| == |g| && Wf(r)
    ensures forall k {:trigger r[k]} :: 0 <= k < |g| ==> r[k].state == g[k].state && r[k].index == g[k].index
  {
    AppendEach(g, Membs(g, n), e)
  }

  /** `n.Push(e)`: renumber `e`'s members from `n.NextIndex()`, then add the
      edge to `n`'s list. Nothing else changes. */
  function Pushed(g: Arena, n: nat, e: nat): (r: Arena)
    requires Wf(g) && n < |g| && e < |g|
    ensures |r| == |g| && Wf(r)
    ensures forall k {:trigger r[k]} :: 0 <= k < |g| ==>
      r[k].state == g[k].state &&
      r[k].index == g[k].index + NextIndex(g, n) * multiset(Membs(g, e))[k] &&
      (k != n ==> r[k].edges == g[k].edges)
    ensures multiset(r[n].edges) == multiset(g[n].edges) + multiset{e}
  {
    var h := Scoped(g, e, NextIndex(g, n));
    h[n := h[n].(edges := Append(h, h[n].edges, e))]
  }

  /** `n.Merge(s)`: renumber `s` above `n`'s members, then concatenate it. */
  function Merged(g: Arena, n: nat, s: nat): (r: Arena)
    requires Wf(g) && n < |g| && s < |g|
    ensures |r| == |g| && Wf(r)
    ensures forall k {:trigger r[k]} :: 0 <= k < |g| ==>
      r[k].state == g[k].state &&
      r[k].index == g[k].index + NextIndex(g, n) * multiset(Membs(g, s))[k]
  {
    Concatenated(Scoped(g, s, NextIndex(g, n)), n, s)
  }

  // ---------------------------------------------------------------------------
  // Properties of the combinators

  /** A node is listed exactly once among its own members: every later member
      lies strictly above it. */
  lemma MembsHeadOnce(g: Arena, n: nat)
    requires Wf(g) && n < |g|
    ensures multiset(Membs(g, n))[n] == 1
  {
    var rest := MembsFrom(g, n, 0);
    assert Membs(g, n) == [n] + rest;
    assert forall i :: 0 <= i < |rest| ==> rest[i] != n;
    assert n !in multiset(rest);
  }

  /** After `n.Push(e)` the pushed node sits strictly above `n`, so `n` branches
      (when `e`'s index is not negative and `n` is not itself one of `e`'s members). */
  lemma {:induction false} PushedBranches(g: Arena, n: nat, e: nat)
    requires Wf(g) && n < |g| && e < |g|
    requires 0 <= g[e].index && n !in Membs(g, e)
    ensures var r := Pushed(g, n, e);
      r[e].index == g[e].index + NextIndex(g, n) && r[n].index == g[n].index &&
      e in r[n].edges && Branch(r, n)
  {
    var r := Pushed(g, n, e);
    MembsHeadOnce(g, e);
    assert multiset(Membs(g, e))[n] == 0;
    assert e in multiset(r[n].edges);
    var j :| 0 <= j < |r[n].edges| && r[n].edges[j] == e;
    assert r[r[n].edges[j]].index > r[n].index;
  }

  /** Branch depends only on which handles the edge list holds. */
  lemma BranchIff(g: Arena, k: nat)
    requires Wf(g) && k < |g|
    ensures Branch(g, k) <==> exists x :: x in multiset(g[k].edges) && g[x].index > g[k].index
  {
    if Branch(g, k) {
      var j :| 0 <= j < |g[k].edges| && g[g[k].edges[j]].index > g[k].index;
      assert g[k].edges[j] in multiset(g[k].edges);
    }
    if exists x :: x in multiset(g[k].edges) && g[x].index > g[k].index {
      var x :| x in multiset(g[k].edges) && g[x].index > g[k].index;
      assert x in g[k].edges;
    }
  }

  /** `k`'s edge list differs from the one in `g` at most by extra copies of `e`. */
  ghost predicate GainsOnly(g: Arena, h: Arena, e: nat, k: nat)
    requires k < |g| && k < |h|
  {
    multiset(h[k].edges)[e] >= multiset(g[k].edges)[e] &&
    forall x :: x != e ==> multiset(h[k].edges)[x] == multiset(g[k].edges)[x]
  }

  /** Two arenas that agree on `k`'s edges and on all indices agree on Branch. */
  lemma BranchSame(g: Arena, h: Arena, k: nat)
    requires Wf(g) && Wf(h) && |g| == |h| && k < |g|
    requires h[k].edges == g[k].edges
    requires forall x :: 0 <= x < |g| ==> h[x].index == g[x].index
    ensures Branch(h, k) <==> Branch(g, k)
  {
    if Branch(g, k) {
      var j :| 0 <= j < |g[k].edges| && g[g[k].edges[j]].index > g[k].index;
      assert h[h[k].edges[j]].index > h[k].index;
    }
    if Branch(h, k) {
      var j :| 0 <= j < |h[k].edges| && h[h[k].edges[j]].index > h[k].index;
      assert g[g[k].edges[j]].index > g[k].index;
    }
  }

  /** What AppendEach does to one node `k`: it is untouched when unlisted or
      already branching; otherwise it gains at least one copy of `e` and
      nothing else. */
  lemma {:induction false} AppendEachEdges(g: Arena, ms: seq<nat>, e: nat, k: nat)
    requires Wf(g) && Refs(ms, |g|) && e < |g| && k < |g|
    ensures var r := AppendEach(g, ms, e);
      (k !in ms || Branch(g, k) ==> r[k].edges == g[k].edges) &&
      GainsOnly(g, r, e, k) &&
      (k in ms && !Branch(g, k) ==> multiset(r[k].edges)[e] > multiset(g[k].edges)[e])
    decreases |ms|
  {
    if ms != [] {
      var init: seq<nat> := ms[..|ms| - 1];
      var m := ms[|ms| - 1];
      assert ms == init + [m];
      AppendEachEdges(g, init, e, k);
      var h := AppendEach(g, init, e);
      if m != k {
        assert AppendEach(g, ms, e)[k] == h[k];
      } else if Branch(h, k) {
        assert AppendEach(g, ms, e) == h;
        if !Branch(g, k) && k !in init {
          BranchSame(g, h, k);
        }
      } else {
        if Branch(g, k) {
          BranchSame(g, h, k);
        }
        AppendEachGrows(g, h, e, k);
        assert AppendEach(g, ms, e)[k].edges == Append(h, h[k].edges, e);
      }
    }
  }

  /** The step of AppendEachEdges that appends `e` to `k`. */
  lemma AppendEachGrows(g: Arena, h: Arena, e: nat, k: nat)
    requires Wf(h) && e < |h| && k < |g| && k < |h|
    requires GainsOnly(g, h, e, k)
    ensures GainsOnly(g, h[k := h[k].(edges := Append(h, h[k].edges, e))], e, k)
    ensures multiset(Append(h, h[k].edges, e))[e] > multiset(g[k].edges)[e]
  {
  }

  /** `n.Concat(e)` adds `e` only to members that do not branch: a node that
      is no member, or that branches, keeps its edge list. */
  lemma ConcatenatedKeeps(g: Arena, n: nat, e: nat, k: nat)
    requires Wf(g) && n < |g| && e < |g| && k < |g|
    requires k !in Membs(g, n) || Branch(g, k)
    ensures Concatenated(g, n, e)[k].edges == g[k].edges
  {
    AppendEachEdges(g, Membs(g, n), e, k);
  }

  /** A member that does not branch gains `e`, and nothing else. */
  lemma ConcatenatedAppends(g: Arena, n: nat, e: nat, k: nat)
    requires Wf(g) && n < |g| && e < |g| && k < |g|
    requires k in Membs(g, n) && !Branch(g, k)
    ensures var r := Concatenated(g, n, e);
      e in r[k].edges && GainsOnly(g, r, e, k) &&
      multiset(r[k].edges)[e] > multiset(g[k].edges)[e]
  {
    AppendEachEdges(g, Membs(g, n), e, k);
  }

  /** `n.Concatenate(n)`, the loop of `x+`: a node that does not branch gains
      an edge to itself; a branching one keeps its own edges. */
  lemma SelfLoop(g: Arena, n: nat)
    requires Wf(g) && n < |g|
    ensures !Branch(g, n) ==> n in Concatenated(g, n, n)[n].edges
    ensures Branch(g, n) ==> Concatenated(g, n, n)[n].edges == g[n].edges
  {
    assert Membs(g, n)[0] == n;
    if Branch(g, n) {
      ConcatenatedKeeps(g, n, n, n);
    } else {
      ConcatenatedAppends(g, n, n, n);
    }
  }

  /** `n.Concat(e)` never removes an edge: every node keeps at least the
      edges it had. */
  lemma ConcatenatedGrows(g: Arena, n: nat, e: nat, k: nat)
    requires Wf(g) && n < |g| && e < |g| && k < |g|
    ensures multiset(g[k].edges) <= multiset(Concatenated(g, n, e)[k].edges)
  {
    if k in Membs(g, n) && !Branch(g, k) {
      ConcatenatedAppends(g, n, e, k);
    } else {
      ConcatenatedKeeps(g, n, e, k);
    }
  }

  // ---------------------------------------------------------------------------
  // Members as forward paths

  /** `p` follows forward edges: each handle is an edge target of the one
      before it, at a strictly higher index. */
  ghost predicate ForwardPath(g: Arena, p: seq<nat>)
  {
    |p| >= 1 && Refs(p, |g|) &&
    forall i :: 0 <= i < |p| - 1 ==> p[i + 1] in g[p[i]].edges && g[p[i + 1]].index > g[p[i]].index
  }

  /** `k` is reached from `n` along forward edges. */
  ghost predicate Reaches(g: Arena, n: nat, k: nat)
  {
    exists p :: ForwardPath(g, p) && p[0] == n && p[|p| - 1] == k
  }

  /** A forward path from `e`, preceded by a forward edge into `e`. */
  lemma PathCons(g: Arena, n: nat, p: seq<nat>)
    requires n < |g| && ForwardPath(g, p)
    requires p[0] in g[n].edges && g[p[0]].index > g[n].index
    ensures ForwardPath(g, [n] + p) && ([n] + p)[|p|] == p[|p| - 1]
  {
    var q := [n] + p;
    forall i | 0 <= i < |q| - 1
      ensures q[i + 1] in g[q[i]].edges && g[q[i + 1]].index > g[q[i]].index
    {
      if i > 0 {
        assert q[i] == p[i - 1] && q[i + 1] == p[i];
      }
    }
  }

  /** A forward edge out of `m` extends every forward path into `m`. */
  lemma ReachesSnoc(g: Arena, n: nat, m: nat, e: nat)
    requires m < |g| && e < |g| && e in g[m].edges && g[e].index > g[m].index && Reaches(g, n, m)
    ensures Reaches(g, n, e)
  {
    var p :| ForwardPath(g, p) && p[0] == n && p[|p| - 1] == m;
    var q := p + [e];
    forall i | 0 <= i < |q| - 1
      ensures q[i + 1] in g[q[i]].edges && g[q[i + 1]].index > g[q[i]].index
    {
      if i < |p| - 1 {
        assert q[i] == p[i] && q[i + 1] == p[i + 1];
      }
    }
    assert ForwardPath(g, q) && q[0] == n && q[|q| - 1] == e;
  }

  /** A forward edge into `e` extends every forward path from `e`. */
  lemma ReachesCons(g: Arena, n: nat, e: nat, k: nat)
    requires n < |g| && e < |g| && e in g[n].edges && g[e].index > g[n].index && Reaches(g, e, k)
    ensures Reaches(g, n, k)
  {
    var p :| ForwardPath(g, p) && p[0] == e && p[|p| - 1] == k;
    PathCons(g, n, p);
  }

  lemma {:induction false} MembsToPath(g: Arena, n: nat, k: nat)
    requires Wf(g) && n < |g| && k in Membs(g, n)
    ensures Reaches(g, n, k)
    decreases MaxIndex(g) - g[n].index, 1
  {
    if k == n {
      assert ForwardPath(g, [n]);
    } else {
      MembsFromToPath(g, n, 0, k);
    }
  }

  lemma {:induction false} MembsFromToPath(g: Arena, n: nat, j: nat, k: nat)
    requires Wf(g) && n < |g| && j <= |g[n].edges| && k in MembsFrom(g, n, j)
    ensures Reaches(g, n, k)
    decreases MaxIndex(g) - g[n].index, 0, |g[n].edges| - j
  {
    var e := g[n].edges[j];
    if g[e].index > g[n].index && k in Membs(g, e) {
      MembsToPath(g, e, k);
      ReachesCons(g, n, e, k);
    } else {
      MembsFromToPath(g, n, j + 1, k);
    }
  }

  /** The members of the `j`-th edge target, when it lies above `n`, are among
      the members the edges of `n` contribute from any earlier position on. */
  lemma {:induction false} MembsFromHas(g: Arena, n: nat, i: nat, j: nat, k: nat)
    requires Wf(g) && n < |g| && i <= j < |g[n].edges|
    requires g[g[n].edges[j]].index > g[n].index && k in Membs(g, g[n].edges[j])
    ensures k in MembsFrom(g, n, i)
    decreases j - i
  {
    var e := g[n].edges[i];
    var here := if g[e].index > g[n].index then Membs(g, e) else [];
    assert MembsFrom(g, n, i) == here + MembsFrom(g, n, i + 1);
    if i < j {
      MembsFromHas(g, n, i + 1, j, k);
    }
  }

  lemma {:induction false} PathToMembs(g: Arena, p: seq<nat>)
    requires Wf(g) && ForwardPath(g, p)
    ensures p[|p| - 1] in Membs(g, p[0])
    decreases |p|
  {
    if |p| > 1 {
      var q := p[1..];
      forall i | 0 <= i < |q| - 1
        ensures q[i + 1] in g[q[i]].edges && g[q[i + 1]].index > g[q[i]].index
      {
        assert q[i] == p[i + 1] && q[i + 1] == p[i + 2];
      }
      PathToMembs(g, q);
      var j :| 0 <= j < |g[p[0]].edges| && g[p[0]].edges[j] == p[1];
      MembsFromHas(g, p[0], 0, j, p[|p| - 1]);
    }
  }

  /** The members of `n` are exactly the nodes reached from `n` along forward
      edges: descending only to strictly higher indices, `makeMembers` finds
      every such node and no other. */
  lemma MembsReach(g: Arena, n: nat, k: nat)
    requires Wf(g) && n < |g|
    ensures k in Membs(g, n) <==> Reaches(g, n, k)
  {
    if k in Membs(g, n) {
      MembsToPath(g, n, k);
    }
    if Reaches(g, n, k) {
      var p :| ForwardPath(g, p) && p[0] == n && p[|p| - 1] == k;
      PathToMembs(g, p);
    }
  }

  /** Four nodes where `0` reaches `3` along two forward paths, through `1`
      and through `2`. */
  function Diamond(): (g: Arena)
    ensures Wf(g) && |g| == 4
  {
    [Node(Epsilon, 0, [1, 2]), Node(Epsilon, 1, [3]), Node(Epsilon, 2, [3]), Node(Epsilon, 3, [])]
  }

  /** The two middle nodes of the diamond each list themselves, then `3`. */
  lemma DiamondSides()
    ensures Membs(Diamond(), 1) == [1, 3] && Membs(Diamond(), 2) == [2, 3]
  {
    var g := Diamond();
    assert MembsFrom(g, 3, 0) == [];
    assert MembsFrom(g, 1, 1) == [] && MembsFrom(g, 2, 1) == [];
    assert MembsFrom(g, 1, 0) == [3] && MembsFrom(g, 2, 0) == [3];
  }

  /** The edges of `0` contribute both sides, so `3` comes twice. */
  lemma DiamondTop()
    ensures MembsFrom(Diamond(), 0, 0) == [1, 3, 2, 3]
  {
    var g := Diamond();
    DiamondSides();
    assert MembsFrom(g, 0, 2) == [];
    assert MembsFrom(g, 0, 1) == Membs(g, 2) + MembsFrom(g, 0, 2);
    assert MembsFrom(g, 0, 0) == Membs(g, 1) + MembsFrom(g, 0, 1);
  }

  /** With no visited set, a node reached along two forward paths is listed
      twice. */
  lemma DiamondTwice()
    ensures Membs(Diamond(), 0) == [0, 1, 3, 2, 3]
    ensures multiset(Membs(Diamond(), 0))[3] == 2
  {
    DiamondTop();
    DiamondCount(Membs(Diamond(), 0));
  }

  lemma DiamondCount(ms: seq<nat>)
    requires ms == [0, 1, 3, 2, 3]
    ensures multiset(ms)[3] == 2
  {
    assert ms == [0, 1] + [3] + [2] + [3];
  }

  /** `Scope` on the diamond adds the base to the doubly reached node twice. */
  lemma DiamondScoped()
    ensures Scoped(Diamond(), 0, 10)[3].index == 23
  {
    DiamondTwice();
    var r := Scoped(Diamond(), 0, 10);
    assert r[3].index == Diamond()[3].index + 10 * 2;
  }

  /** The member of highest index does not branch: a forward edge out of it
      would lead to a member of still higher index. */
  lemma SinkMember(g: Arena, n: nat)
    requires Wf(g) && n < |g|
    ensures Max(g, Membs(g, n)) in Membs(g, n) && !Branch(g, Max(g, Membs(g, n)))
  {
    var ms := Membs(g, n);
    var m := Max(g, ms);
    if Branch(g, m) {
      var j :| 0 <= j < |g[m].edges| && g[g[m].edges[j]].index > g[m].index;
      var e := g[m].edges[j];
      MembsReach(g, n, m);
      ReachesSnoc(g, n, m, e);
      MembsReach(g, n, e);
      assert false;
    }
  }

  // ---------------------------------------------------------------------------
  // What `Merge` does to edges

  /** `n.Merge(s)` on edges: with `h` the arena after `s` is renumbered, a
      member of `n` in `h` that does not branch gains `s` and nothing else;
      every other node keeps its edges. */
  lemma MergedEdges(g: Arena, n: nat, s: nat, k: nat)
    requires Wf(g) && n < |g| && s < |g| && k < |g|
    ensures var h := Scoped(g, s, NextIndex(g, n));
      var r := Merged(g, n, s);
      (k !in Membs(h, n) || Branch(h, k) ==> r[k].edges == g[k].edges) &&
      (k in Membs(h, n) && !Branch(h, k) ==> s in r[k].edges && GainsOnly(g, r, s, k))
  {
    var h := Scoped(g, s, NextIndex(g, n));
    assert h[k].edges == g[k].edges;
    if k !in Membs(h, n) || Branch(h, k) {
      ConcatenatedKeeps(h, n, s, k);
    } else {
      ConcatenatedAppends(h, n, s, k);
    }
  }

  /** `n.Merge(s)` never removes an edge. */
  lemma MergedGrows(g: Arena, n: nat, s: nat, k: nat)
    requires Wf(g) && n < |g| && s < |g| && k < |g|
    ensures multiset(g[k].edges) <= multiset(Merged(g, n, s)[k].edges)
  {
    var h := Scoped(g, s, NextIndex(g, n));
    assert h[k].edges == g[k].edges;
    ConcatenatedGrows(h, n, s, k);
  }

  /** After `n.Merge(s)` the member of `n` with the highest index has an edge
      to `s`: the merged graph is entered from the end of `n`. */
  lemma MergedLinks(g: Arena, n: nat, s: nat)
    requires Wf(g) && n < |g| && s < |g|
    ensures var h := Scoped(g, s, NextIndex(g, n));
      var m := Max(h, Membs(h, n));
      m in Membs(h, n) && s in Merged(g, n, s)[m].edges
  {
    var h := Scoped(g, s, NextIndex(g, n));
    SinkMember(h, n);
    MergedEdges(g, n, s, Max(h, Membs(h, n)));
  }
}
