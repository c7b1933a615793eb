/**
 * `calculateDegrees` (analyze.js; scripts.js holds an identical copy): every node
 * gets an entry starting at 0, raised by one for each edge whose `to` or `from` is
 * the node.  Only the counting is modelled; the table it renders is not.
 */
module Degrees {
  import opened Graphs

  /** How many edges have v at an end; a self-loop at v is one such edge. */
  function Degree(edges: seq<Edge>, v: int): nat
  {
    if edges == [] then 0
    else Degree(edges[..|edges| - 1], v) + (if Touches(edges[|edges| - 1], v) then 1 else 0)
  }

  /** The positions of the edges that have v at an end. */
  ghost function IncidentPositions(edges: seq<Edge>, v: int): set<int>
  {
    set i | 0 <= i < |edges| && Touches(edges[i], v)
  }

  /** The degree counts the incident edges, each once. */
  lemma {:induction false} DegreeCountsIncident(edges: seq<Edge>, v: int)
    ensures Degree(edges, v) == |IncidentPositions(edges, v)|
    decreases |edges|
  {
    if edges != [] {
      var n := |edges| - 1;
      var init := edges[..n];
      DegreeCountsIncident(init, v);
      IncidentSnoc(edges, v);
    }
  }

  /** The incident positions of all edges but the last, and the last one if it touches v. */
  lemma IncidentSnoc(edges: seq<Edge>, v: int)
    requires edges != []
    ensures var n := |edges| - 1;
      && n !in IncidentPositions(edges[..n], v)
      && IncidentPositions(edges, v) == IncidentPositions(edges[..n], v) + (if Touches(edges[n], v) then {n} else {})
  {
    var n := |edges| - 1;
    forall i | 0 <= i < n ensures edges[i] == edges[..n][i] {
    }
  }

  /**
   * `calculateDegrees`: one entry per node id, holding the number of edges at
   * that node.
   */
  method CalculateDegrees(g: Graph) returns (degreeCount: map<int, int>)
    ensures degreeCount.Keys == IdSet(g.nodes)
    ensures forall n :: n in g.nodes ==> degreeCount[n.id] == Degree(g.edges, n.id)
  {
    degreeCount := map[];
    var i := 0;
    while i < |g.nodes|
      invariant 0 <= i <= |g.nodes|
      invariant degreeCount.Keys == IdSet(g.nodes[..i])
      invariant forall n :: n in g.nodes[..i] ==> degreeCount[n.id] == Degree(g.edges, n.id)
    {
      var node := g.nodes[i];
      degreeCount := degreeCount[node.id := 0];
      var j := 0;
      while j < |g.edges|
        invariant 0 <= j <= |g.edges|
        invariant degreeCount.Keys == IdSet(g.nodes[..i + 1])
        invariant degreeCount[node.id] == Degree(g.edges[..j], node.id)
        invariant forall n :: n in g.nodes[..i] && n.id != node.id ==> degreeCount[n.id] == Degree(g.edges, n.id)
      {
        var edge := g.edges[j];
        assert g.edges[..j + 1][..j] == g.edges[..j];
        if edge.to == node.id || edge.from == node.id {
          degreeCount := degreeCount[node.id := degreeCount[node.id] + 1];
        }
        j := j + 1;
      }
      assert g.edges[..j] == g.edges;
      assert g.nodes[..i + 1] == g.nodes[..i] + [node];
      i := i + 1;
    }
    assert g.nodes[..i] == g.nodes;
  }

  /** How many edges are self-loops. */
  function Loops(edges: seq<Edge>): nat
  {
    if edges == [] then 0
    else Loops(edges[..|edges| - 1]) + (if edges[|edges| - 1].from == edges[|edges| - 1].to then 1 else 0)
  }

  /** The degrees of all nodes, added up. */
  function DegreeSum(nodes: seq<Node>, edges: seq<Edge>): nat
  {
    if nodes == [] then 0 else Degree(edges, nodes[0].id) + DegreeSum(nodes[1..], edges)
  }

  /** How many nodes have id x. */
  function Occurrences(nodes: seq<Node>, x: int): nat
  {
    if nodes == [] then 0 else (if nodes[0].id == x then 1 else 0) + Occurrences(nodes[1..], x)
  }

  /** How many nodes lie at an end of e. */
  function EndCount(nodes: seq<Node>, e: Edge): nat
  {
    if nodes == [] then 0 else (if Touches(e, nodes[0].id) then 1 else 0) + EndCount(nodes[1..], e)
  }

  lemma {:induction false} DegreeSumSnoc(nodes: seq<Node>, edges: seq<Edge>, e: Edge)
    ensures DegreeSum(nodes, edges + [e]) == DegreeSum(nodes, edges) + EndCount(nodes, e)
    decreases |nodes|
  {
    if nodes != [] {
      DegreeSumSnoc(nodes[1..], edges, e);
      assert (edges + [e])[..|edges + [e]| - 1] == edges;
    }
  }

  lemma {:induction false} EndCountSplit(nodes: seq<Node>, e: Edge)
    ensures EndCount(nodes, e) + (if e.from == e.to then Occurrences(nodes, e.from) else 0)
         == Occurrences(nodes, e.from) + Occurrences(nodes, e.to)
    decreases |nodes|
  {
    if nodes != [] {
      EndCountSplit(nodes[1..], e);
    }
  }

  /** With unique ids, a node id occurs exactly once. */
  lemma {:induction false} OccursOnce(nodes: seq<Node>, x: int)
    requires UniqueIds(nodes) && HasNode(nodes, x)
    ensures Occurrences(nodes, x) == 1
    decreases |nodes|
  {
    UniqueTail(nodes);
    if nodes[0].id == x {
      NotOccurring(nodes[1..], x);
    } else {
      var n :| n in nodes && n.id == x;
      assert n in nodes[1..] by {
        assert nodes == [nodes[0]] + nodes[1..];
      }
      OccursOnce(nodes[1..], x);
    }
  }

  lemma {:induction false} NotOccurring(nodes: seq<Node>, x: int)
    requires forall n :: n in nodes ==> n.id != x
    ensures Occurrences(nodes, x) == 0
    decreases |nodes|
  {
    if nodes != [] {
      assert nodes[0] in nodes;
      NotOccurring(nodes[1..], x);
    }
  }

  /**
   * The handshake count: in a well-formed graph the degrees add up to twice the
   * number of edges, less one for each self-loop (which the count sees once).
   */
  lemma {:induction false} Handshake(nodes: seq<Node>, edges: seq<Edge>)
    requires WellFormed(Graph(nodes, edges))
    ensures DegreeSum(nodes, edges) == 2 * |edges| - Loops(edges)
    decreases |edges|
  {
    if edges == [] {
      ZeroDegreeSum(nodes);
    } else {
      var init, e := edges[..|edges| - 1], edges[|edges| - 1];
      assert edges == init + [e];
      Handshake(nodes, init);
      DegreeSumSnoc(nodes, init, e);
      EndCountSplit(nodes, e);
      OccursOnce(nodes, e.from);
      OccursOnce(nodes, e.to);
    }
  }

  lemma {:induction false} ZeroDegreeSum(nodes: seq<Node>)
    ensures DegreeSum(nodes, []) == 0
    decreases |nodes|
  {
    if nodes != [] {
      ZeroDegreeSum(nodes[1..]);
    }
  }
}
