/**
 * `createAdjacencyMatrix` and `transpose` (analyze.js; scripts.js holds the same
 * matrix construction).  Nodes are numbered by their position in the store; the
 * entry at (i, j) is 1 when some edge joins node i and node j, in either
 * direction, and 0 otherwise.  The eigen-decomposition and the HTML table are not
 * modelled.
 */
module Matrix {
  import opened Graphs

  /** The 0/1 matrix the construction is meant to produce, over store positions. */
  ghost function AdjacencyOf(g: Graph): seq<seq<int>>
  {
    seq(|g.nodes|, i requires 0 <= i < |g.nodes| =>
      seq(|g.nodes|, j requires 0 <= j < |g.nodes| =>
        if Linked(g.edges, g.nodes[i].id, g.nodes[j].id) then 1 else 0))
  }

  /**
   * `adj_obj[v]` after the edges have been scanned: each edge adds its `from` to
   * the set of its `to` end and its `to` to the set of its `from` end.
   */
  function AdjacentAmong(edges: seq<Edge>, v: int): set<int>
  {
    if edges == [] then {}
    else
      var e := edges[|edges| - 1];
      AdjacentAmong(edges[..|edges| - 1], v)
        + (if e.to == v then {e.from} else {}) + (if e.from == v then {e.to} else {})
  }

  /**
   * Scanning the edge at j: adding its `from` to the set of its `to` end and then
   * its `to` to the set of its `from` end keeps the sets equal to the scan so far.
   */
  lemma AddEdgeEnds(adjObj: map<int, set<int>>, edges: seq<Edge>, j: int)
    requires 0 <= j < |edges| && edges[j].to in adjObj && edges[j].from in adjObj
    requires forall v :: v in adjObj ==> adjObj[v] == AdjacentAmong(edges[..j], v)
    ensures var e := edges[j];
      var once := adjObj[e.to := adjObj[e.to] + {e.from}];
      var twice := once[e.from := once[e.from] + {e.to}];
      && twice.Keys == adjObj.Keys
      && forall v :: v in twice ==> twice[v] == AdjacentAmong(edges[..j + 1], v)
  {
    assert edges[..j + 1][..j] == edges[..j];
  }

  /** The scan collects exactly the ids some edge joins to v. */
  lemma {:induction false} AdjacentAmongMembers(edges: seq<Edge>, v: int)
    ensures forall u :: u in AdjacentAmong(edges, v) <==> Linked(edges, v, u)
    decreases |edges|
  {
    if edges != [] {
      var init := edges[..|edges| - 1];
      AdjacentAmongMembers(init, v);
      assert edges == init + [edges[|edges| - 1]];
    }
  }

  /** `node_ID_to_index`: each node id maps to the node's position in the store. */
  ghost predicate IndexOf(nodes: seq<Node>, index: map<int, int>)
  {
    && index.Keys == IdSet(nodes)
    && forall i :: 0 <= i < |nodes| ==> index[nodes[i].id] == i
  }

  /** The first loop of `createAdjacencyMatrix`: number the nodes by store position. */
  method NodeIndex(nodes: seq<Node>) returns (nodeIdToIndex: map<int, int>)
    requires UniqueIds(nodes)
    ensures IndexOf(nodes, nodeIdToIndex)
  {
    nodeIdToIndex := map[];
    var i := 0;
    while i < |nodes|
      invariant 0 <= i <= |nodes|
      invariant nodeIdToIndex.Keys == IdSet(nodes[..i])
      invariant forall k :: 0 <= k < i ==> nodeIdToIndex[nodes[k].id] == k
    {
      assert nodes[..i + 1] == nodes[..i] + [nodes[i]];
      nodeIdToIndex := nodeIdToIndex[nodes[i].id := i];
      i := i + 1;
    }
    assert nodes[..i] == nodes;
  }

  /** `adj_obj`: for each node id, the set of ids some edge joins to it. */
  method AdjacencySets(g: Graph) returns (adjObj: map<int, set<int>>)
    requires WellFormed(g)
    ensures adjObj.Keys == IdSet(g.nodes)
    ensures forall v :: v in adjObj ==> adjObj[v] == AdjacentAmong(g.edges, v)
  {
    adjObj := map[];
    var i := 0;
    while i < |g.nodes|
      invariant 0 <= i <= |g.nodes|
      invariant adjObj.Keys == IdSet(g.nodes[..i])
      invariant forall v :: v in adjObj ==> adjObj[v] == {}
    {
      assert g.nodes[..i + 1] == g.nodes[..i] + [g.nodes[i]];
      adjObj := adjObj[g.nodes[i].id := {}];
      i := i + 1;
    }
    assert g.nodes[..i] == g.nodes;
    var j := 0;
    while j < |g.edges|
      invariant 0 <= j <= |g.edges|
      invariant adjObj.Keys == IdSet(g.nodes)
      invariant forall v :: v in adjObj ==> adjObj[v] == AdjacentAmong(g.edges[..j], v)
    {
      var edge := g.edges[j];
      EdgeEndsAreNodes(g, edge);
      AddEdgeEnds(adjObj, g.edges, j);
      adjObj := adjObj[edge.to := adjObj[edge.to] + {edge.from}];
      adjObj := adjObj[edge.from := adjObj[edge.from] + {edge.to}];
      j := j + 1;
    }
    assert g.edges[..j] == g.edges;
  }

  /**
   * The inner loop of the matrix construction: set to 1 the entry of every
   * connection of one node, in a row that starts out all 0.
   */
  method MarkConnections(nodes: seq<Node>, nodeIdToIndex: map<int, int>, connections: set<int>)
    returns (row: seq<int>)
    requires IndexOf(nodes, nodeIdToIndex) && connections <= IdSet(nodes)
    ensures |row| == |nodes|
    ensures forall c :: 0 <= c < |nodes| ==> row[c] == if nodes[c].id in connections then 1 else 0
  {
    row := seq(|nodes|, _ => 0);
    var pending := connections;
    ghost var done: set<int> := {};
    while pending != {}
      invariant pending + done == connections && pending !! done
      invariant |row| == |nodes|
      invariant forall c :: 0 <= c < |nodes| ==> row[c] == if nodes[c].id in done then 1 else 0
      decreases pending
    {
      var connection := Pick(pending);
      var toIndex := nodeIdToIndex[connection];
      assert nodes[toIndex].id == connection by {
        var k :| 0 <= k < |nodes| && nodes[k].id == connection;
      }
      row := row[toIndex := 1];
      pending := pending - {connection};
      done := done + {connection};
    }
  }

  /**
   * `createAdjacencyMatrix`: the matrix is n by n for n nodes, and its entry (i, j)
   * is 1 exactly when an edge joins the i-th and j-th node of the store.
   */
  method CreateAdjacencyMatrix(g: Graph) returns (adjMatrix: seq<seq<int>>)
    requires WellFormed(g)
    ensures adjMatrix == AdjacencyOf(g)
  {
    var length := |g.nodes|;
    var nodeIdToIndex := NodeIndex(g.nodes);
    var adjObj := AdjacencySets(g);
    adjMatrix := seq(length, _ => seq(length, _ => 0));
    var i := 0;
    while i < length
      invariant 0 <= i <= length
      invariant |adjMatrix| == length
      invariant forall r :: 0 <= r < i ==> adjMatrix[r] == AdjacencyOf(g)[r]
    {
      var node := g.nodes[i];
      var fromIndex := nodeIdToIndex[node.id];
      AdjacentAreNodes(g, node.id);
      var row := MarkConnections(g.nodes, nodeIdToIndex, adjObj[node.id]);
      MarkedRow(g, i, row);
      adjMatrix := adjMatrix[fromIndex := row];
      i := i + 1;
    }
  }

  /** The ids joined to a node by some edge are node ids. */
  lemma AdjacentAreNodes(g: Graph, v: int)
    requires WellFormed(g)
    ensures AdjacentAmong(g.edges, v) <= IdSet(g.nodes)
  {
    AdjacentAmongMembers(g.edges, v);
    forall u | u in AdjacentAmong(g.edges, v) ensures u in IdSet(g.nodes) {
      var e :| e in g.edges && Joins(e, v, u);
      EdgeEndsAreNodes(g, e);
    }
  }

  /** The row marked from the set of node i's neighbours is row i of the matrix. */
  lemma MarkedRow(g: Graph, i: int, row: seq<int>)
    requires 0 <= i < |g.nodes| && |row| == |g.nodes|
    requires forall c :: 0 <= c < |g.nodes| ==>
      row[c] == if g.nodes[c].id in AdjacentAmong(g.edges, g.nodes[i].id) then 1 else 0
    ensures row == AdjacencyOf(g)[i]
  {
    AdjacentAmongMembers(g.edges, g.nodes[i].id);
  }

  /** Every row of the matrix has the same length. */
  ghost predicate Rectangular<T>(m: seq<seq<T>>)
  {
    forall i :: 0 <= i < |m| ==> |m[i]| == |m[0]|
  }

  /**
   * `transpose`: row c of the result is column c of the input.  As in the source,
   * the number of columns is read off the first row.  The page applies it to the
   * eigenvector matrix, whose entries are doubles, so the entry type is left open.
   */
  function Transpose<T>(m: seq<seq<T>>): (t: seq<seq<T>>)
    requires |m| > 0 && Rectangular(m)
    ensures |t| == |m[0]|
    ensures forall c :: 0 <= c < |t| ==> |t[c]| == |m|
    ensures forall c, r :: 0 <= c < |t| && 0 <= r < |m| ==> t[c][r] == m[r][c]
  {
    seq(|m[0]|, c requires 0 <= c < |m[0]| => seq(|m|, r requires 0 <= r < |m| => m[r][c]))
  }

  /** Transposing a non-empty rectangular matrix twice gives it back. */
  lemma TransposeTwice<T>(m: seq<seq<T>>)
    requires |m| > 0 && |m[0]| > 0 && Rectangular(m)
    ensures Rectangular(Transpose(m))
    ensures Transpose(Transpose(m)) == m
  {
    var t := Transpose(m);
    var tt := Transpose(t);
    assert |tt| == |m|;
    forall r | 0 <= r < |m| ensures tt[r] == m[r] {
      assert |tt[r]| == |m[r]|;
    }
  }

  /** The matrix is square, holds only 0 and 1, and is symmetric. */
  lemma AdjacencyShape(g: Graph)
    ensures var m := AdjacencyOf(g);
      && |m| == |g.nodes|
      && (forall i :: 0 <= i < |m| ==> |m[i]| == |g.nodes|)
      && (forall i, j :: 0 <= i < |m| && 0 <= j < |m| ==> m[i][j] == 0 || m[i][j] == 1)
      && (forall i, j :: 0 <= i < |m| && 0 <= j < |m| ==> m[i][j] == m[j][i])
  {
    var m := AdjacencyOf(g);
    forall i, j | 0 <= i < |m| && 0 <= j < |m| ensures m[i][j] == m[j][i] {
      var x, y := g.nodes[i].id, g.nodes[j].id;
      if Linked(g.edges, x, y) {
        var e :| e in g.edges && Joins(e, x, y);
        assert Joins(e, y, x);
      }
      if Linked(g.edges, y, x) {
        var e :| e in g.edges && Joins(e, y, x);
        assert Joins(e, x, y);
      }
    }
  }
}
