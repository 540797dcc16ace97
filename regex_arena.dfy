/**
  In-place versions of the graph combinators of regex.go. A `Graph` owns the
  node arena; its methods rewrite indices and edge lists in loops over the
  member list, as `node.Scope`, `node.Concat`, `node.Push` and `node.Merge`
  do, and each is proved to leave exactly the arena that the corresponding
  value-level function of `RegexGraph` describes.
*/
module RegexArena {
  import opened RegexGraph

  class Graph {
    var nodes: seq<Node>

    constructor ()
      ensures nodes == []
    {
      nodes := [];
    }

    /** `newNode`: a fresh node with index 0 and no edges. */
    method NewNode(s: State) returns (h: nat)
      requires Wf(nodes) && NodeWf(Node(s, 0, []), |nodes|)
      modifies this
      ensures nodes == RegexGraph.NewNode(old(nodes), s)
      ensures h == |old(nodes)| && h < |nodes|
    {
      h := |nodes|;
      nodes := nodes + [Node(s, 0, [])];
    }

    /** `n.Scope(base)`: add `base` to every member occurrence's index. */
    method Scope(n: nat, base: int)
      requires Wf(nodes) && n < |nodes|
      modifies this
      ensures nodes == Scoped(old(nodes), n, base)
    {
      var ms := Membs(nodes, n);
      ghost var g := nodes;
      for i := 0 to |ms|
        invariant nodes == AddBase(g, ms[..i], base)
      {
        assert ms[..i + 1][..i] == ms[..i];
        var m := ms[i];
        nodes := nodes[m := nodes[m].(index := nodes[m].index + base)];
      }
      assert ms[..|ms|] == ms;
    }

    /** `n.Concat(edge)`: every member that does not branch gains `edge`. */
    method Concat(n: nat, edge: nat) returns (r: nat)
      requires Wf(nodes) && n < |nodes| && edge < |nodes|
      modifies this
      ensures nodes == Concatenated(old(nodes), n, edge) && r == edge
    {
      var ms := Membs(nodes, n);
      ghost var g := nodes;
      for i := 0 to |ms|
        invariant Wf(nodes) && |nodes| == |g|
        invariant nodes == AppendEach(g, ms[..i], edge)
      {
        AppendEachPrefix(g, ms, i, edge);
        var m := ms[i];
        if !Branch(nodes, m) {
          nodes := nodes[m := nodes[m].(edges := Append(nodes, nodes[m].edges, edge))];
        }
      }
      assert ms[..|ms|] == ms;
      r := edge;
    }

    /** `n.Push(edge)`: renumber `edge` above `n`'s members and add the edge. */
    method Push(n: nat, edge: nat) returns (r: nat)
      requires Wf(nodes) && n < |nodes| && edge < |nodes|
      modifies this
      ensures nodes == Pushed(old(nodes), n, edge) && r == edge
    {
      var base := NextIndex(nodes, n);
      Scope(edge, base);
      nodes := nodes[n := nodes[n].(edges := Append(nodes, nodes[n].edges, edge))];
      r := edge;
    }

    /** `n.Merge(seq)`: renumber `seq` above `n`'s members, then concatenate it. */
    method Merge(n: nat, s: nat)
      requires Wf(nodes) && n < |nodes| && s < |nodes|
      modifies this
      ensures nodes == Merged(old(nodes), n, s)
    {
      var base := NextIndex(nodes, n);
      Scope(s, base);
      var _ := Concat(n, s);
    }
  }
}
