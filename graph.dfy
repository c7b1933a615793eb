/**
 * Nodes, edges and the neighbour relations that the analysis routines of the
 * sketchpad traverse.  Ids are plain integers; the stores keep nodes and edges in
 * insertion order, so a graph snapshot is a pair of sequences.
 */
module Graphs {

  datatype Option<T> = None | Some(value: T)

  /** A node of the sketch: its integer id and its label (the text drawn on the canvas). */
  datatype Node = Node(id: int, name: string)

  /** An edge: the id taken from the store's edge counter and its two endpoints. */
  datatype Edge = Edge(id: int, from: int, to: int)

  /** What `nodes.get()` and `edges.get()` return: both stores, in insertion order. */
  datatype Graph = Graph(nodes: seq<Node>, edges: seq<Edge>)

  /** Whether a direction-sensitive traversal follows outgoing or incoming edges. */
  datatype Direction = Outgoing | Incoming

  ghost function IdSet(nodes: seq<Node>): set<int>
  {
    set n | n in nodes :: n.id
  }

  predicate HasNode(nodes: seq<Node>, id: int)
  {
    exists n :: n in nodes && n.id == id
  }

  predicate HasLabel(nodes: seq<Node>, text: string)
  {
    exists n :: n in nodes && n.name == text
  }

  /** A character `String.prototype.trim` strips: JavaScript white space or a line terminator. */
  predicate IsJsSpace(c: char)
  {
    || c in {'\t', '\n', '\U{B}', '\U{C}', '\r', ' ', '\U{A0}', '\U{1680}'}
    || c in {'\U{2028}', '\U{2029}', '\U{202F}', '\U{205F}', '\U{3000}', '\U{FEFF}'}
    || '\U{2000}' <= c <= '\U{200A}'
  }

  /** `text.trim() === ''`: the text is empty or all white space. */
  predicate IsBlank(text: string)
  {
    forall i :: 0 <= i < |text| ==> IsJsSpace(text[i])
  }

  /** No two nodes carry the same label (the label check before every add keeps it so). */
  predicate DistinctLabels(nodes: seq<Node>)
  {
    forall n, m :: n in nodes && m in nodes && n.name == m.name ==> n == m
  }

  predicate HasEdge(edges: seq<Edge>, id: int)
  {
    exists e :: e in edges && e.id == id
  }

  /** No two nodes share an id (a vis.js DataSet refuses a second item with a taken id). */
  predicate UniqueIds(nodes: seq<Node>)
  {
    forall i, j :: 0 <= i < j < |nodes| ==> nodes[i].id != nodes[j].id
  }

  predicate UniqueEdgeIds(edges: seq<Edge>)
  {
    forall i, j :: 0 <= i < j < |edges| ==> edges[i].id != edges[j].id
  }

  /** Both ends of every edge are nodes of the store. */
  predicate EndpointsExist(nodes: seq<Node>, edges: seq<Edge>)
  {
    forall e :: e in edges ==> HasNode(nodes, e.from) && HasNode(nodes, e.to)
  }

  /** The shape every snapshot of the stores has: unique node ids, no dangling edge. */
  predicate WellFormed(g: Graph)
  {
    UniqueIds(g.nodes) && EndpointsExist(g.nodes, g.edges)
  }

  /** In a well-formed graph both ends of an edge are node ids. */
  lemma EdgeEndsAreNodes(g: Graph, e: Edge)
    requires WellFormed(g) && e in g.edges
    ensures e.from in IdSet(g.nodes) && e.to in IdSet(g.nodes)
  {
    var a :| a in g.nodes && a.id == e.from;
    var b :| b in g.nodes && b.id == e.to;
  }

  predicate Joins(e: Edge, x: int, y: int)
  {
    (e.from == x && e.to == y) || (e.from == y && e.to == x)
  }

  /**
   * Some edge leads from x to y: along its direction when `directed`, in either
   * direction otherwise.
   */
  predicate Arc(edges: seq<Edge>, directed: bool, x: int, y: int)
  {
    exists e :: e in edges && (if directed then e.from == x && e.to == y else Joins(e, x, y))
  }

  /** A walk that follows arcs (along their direction when `directed`), never standing still. */
  ghost predicate ArcWalk(edges: seq<Edge>, directed: bool, w: seq<int>)
  {
    |w| > 0 && forall i :: 0 <= i < |w| - 1 ==> Arc(edges, directed, w[i], w[i + 1])
  }

  /** Some walk along arcs leads from s to t (the one-node walk when s == t). */
  ghost predicate Reaches(edges: seq<Edge>, directed: bool, s: int, t: int)
  {
    exists w :: ArcWalk(edges, directed, w) && w[0] == s && w[|w| - 1] == t
  }

  /** Every id at an end of some edge. */
  ghost function Ends(edges: seq<Edge>): set<int>
  {
    (set e | e in edges :: e.from) + (set e | e in edges :: e.to)
  }

  /** Both ends of an arc are edge ends. */
  lemma ArcEnds(edges: seq<Edge>, directed: bool, x: int, y: int)
    requires Arc(edges, directed, x, y)
    ensures x in Ends(edges) && y in Ends(edges)
  {
    var e :| e in edges && (if directed then e.from == x && e.to == y else Joins(e, x, y));
    assert e.from in Ends(edges) && e.to in Ends(edges);
  }

  /** A walk extended by an arc from its last id is a walk. */
  lemma ArcWalkSnoc(edges: seq<Edge>, directed: bool, w: seq<int>, y: int)
    requires ArcWalk(edges, directed, w) && Arc(edges, directed, w[|w| - 1], y)
    ensures ArcWalk(edges, directed, w + [y])
  {
    var w' := w + [y];
    forall i | 0 <= i < |w'| - 1 ensures Arc(edges, directed, w'[i], w'[i + 1]) {
      if i < |w| - 1 {
        assert w'[i] == w[i] && w'[i + 1] == w[i + 1];
      }
    }
  }

  /** Undirected adjacency: some edge joins x and y, in either direction. */
  predicate Linked(edges: seq<Edge>, x: int, y: int)
  {
    Arc(edges, false, x, y)
  }

  /**
   * vis.js `getConnectedNodes(v)`: for each edge at v, the end that is not v, or v
   * itself for a self-loop, in edge order.  vis.js also drops repeats; no caller
   * depends on repeats, so they are kept here.
   */
  function ConnectedNodes(edges: seq<Edge>, v: int): (r: seq<int>)
    ensures |r| <= |edges|
  {
    if edges == [] then []
    else
      (if edges[0].to == v then [edges[0].from] else if edges[0].from == v then [edges[0].to] else [])
      + ConnectedNodes(edges[1..], v)
  }

  lemma {:induction false} ConnectedNodesMembers(edges: seq<Edge>, v: int)
    ensures forall x :: x in ConnectedNodes(edges, v) <==> Linked(edges, v, x)
    decreases |edges|
  {
    if edges != [] {
      ConnectedNodesMembers(edges[1..], v);
      assert forall e :: e in edges <==> e == edges[0] || e in edges[1..];
    }
  }

  /**
   * `getDirectedNeighbors(v, direction)`: among the edges at v, the heads of those
   * leaving v (Outgoing) or the tails of those entering v (Incoming), in edge order.
   */
  function DirectedNeighbors(edges: seq<Edge>, v: int, direction: Direction): (r: seq<int>)
    ensures |r| <= |edges|
  {
    if edges == [] then []
    else
      (if direction == Outgoing && edges[0].from == v then [edges[0].to]
       else if direction == Incoming && edges[0].to == v then [edges[0].from]
       else [])
      + DirectedNeighbors(edges[1..], v, direction)
  }

  lemma {:induction false} DirectedNeighborsMembers(edges: seq<Edge>, v: int, direction: Direction)
    ensures direction == Outgoing ==> forall x :: x in DirectedNeighbors(edges, v, direction) <==> Arc(edges, true, v, x)
    ensures direction == Incoming ==> forall x :: x in DirectedNeighbors(edges, v, direction) <==> Arc(edges, true, x, v)
    decreases |edges|
  {
    if edges != [] {
      DirectedNeighborsMembers(edges[1..], v, direction);
      assert forall e :: e in edges <==> e == edges[0] || e in edges[1..];
    }
  }

  /** The neighbours a traversal visits: heads of outgoing edges when directed, else all. */
  function Neighbors(edges: seq<Edge>, directed: bool, v: int): seq<int>
  {
    if directed then DirectedNeighbors(edges, v, Outgoing) else ConnectedNodes(edges, v)
  }

  lemma NeighborsMembers(edges: seq<Edge>, directed: bool, v: int)
    ensures forall x :: x in Neighbors(edges, directed, v) <==> Arc(edges, directed, v, x)
  {
    DirectedNeighborsMembers(edges, v, Outgoing);
    ConnectedNodesMembers(edges, v);
  }

  /** The node store after `nodes.remove(id)`: every node except the one with that id. */
  function WithoutNode(nodes: seq<Node>, id: int): (r: seq<Node>)
    ensures |r| <= |nodes|
  {
    if nodes == [] then []
    else (if nodes[0].id == id then [] else [nodes[0]]) + WithoutNode(nodes[1..], id)
  }

  lemma {:induction false} WithoutNodeMembers(nodes: seq<Node>, id: int)
    ensures forall n :: n in WithoutNode(nodes, id) <==> n in nodes && n.id != id
    decreases |nodes|
  {
    if nodes != [] {
      WithoutNodeMembers(nodes[1..], id);
      assert forall n :: n in nodes <==> n == nodes[0] || n in nodes[1..];
    }
  }

  /** Whether edge e has v at either end. */
  predicate Touches(e: Edge, v: int)
  {
    e.from == v || e.to == v
  }

  /** The edges that survive deleting node v: those with neither end at v, in order. */
  function WithoutIncident(edges: seq<Edge>, v: int): (r: seq<Edge>)
    ensures |r| <= |edges|
  {
    if edges == [] then []
    else (if Touches(edges[0], v) then [] else [edges[0]]) + WithoutIncident(edges[1..], v)
  }

  lemma {:induction false} WithoutIncidentMembers(edges: seq<Edge>, v: int)
    ensures forall e :: e in WithoutIncident(edges, v) <==> e in edges && !Touches(e, v)
    decreases |edges|
  {
    if edges != [] {
      WithoutIncidentMembers(edges[1..], v);
      assert forall e :: e in edges <==> e == edges[0] || e in edges[1..];
    }
  }

  /** The store after `edges.remove(id)`: every edge except the one with that id. */
  function WithoutEdge(edges: seq<Edge>, id: int): (r: seq<Edge>)
    ensures |r| <= |edges|
  {
    if edges == [] then []
    else (if edges[0].id == id then [] else [edges[0]]) + WithoutEdge(edges[1..], id)
  }

  lemma {:induction false} WithoutEdgeMembers(edges: seq<Edge>, id: int)
    ensures forall e :: e in WithoutEdge(edges, id) <==> e in edges && e.id != id
    decreases |edges|
  {
    if edges != [] {
      WithoutEdgeMembers(edges[1..], id);
      assert forall e :: e in edges <==> e == edges[0] || e in edges[1..];
    }
  }

  lemma {:induction false} WithoutEdgeAppend(a: seq<Edge>, b: seq<Edge>, id: int)
    ensures WithoutEdge(a + b, id) == WithoutEdge(a, id) + WithoutEdge(b, id)
    decreases |a|
  {
    if a == [] {
      assert a + b == b;
    } else {
      assert (a + b)[1..] == a[1..] + b;
      WithoutEdgeAppend(a[1..], b, id);
    }
  }

  lemma {:induction false} WithoutAbsentEdge(edges: seq<Edge>, id: int)
    requires !HasEdge(edges, id)
    ensures WithoutEdge(edges, id) == edges
    decreases |edges|
  {
    if edges != [] {
      assert edges[0] in edges;
      assert !HasEdge(edges[1..], id) by {
        forall e | e in edges[1..] ensures e.id != id {
          assert e in edges;
        }
      }
      WithoutAbsentEdge(edges[1..], id);
    }
  }

  /** Removing the id of the first edge of a store with unique ids drops exactly that edge. */
  lemma WithoutFirstEdge(edges: seq<Edge>)
    requires |edges| > 0 && UniqueEdgeIds(edges)
    ensures WithoutEdge(edges, edges[0].id) == edges[1..]
  {
    var rest := edges[1..];
    forall e | e in rest ensures e.id != edges[0].id {
      var k :| 0 <= k < |rest| && rest[k] == e;
      assert edges[k + 1] == e;
    }
    WithoutAbsentEdge(rest, edges[0].id);
  }

  lemma {:induction false} WithoutIncidentAppend(a: seq<Edge>, b: seq<Edge>, v: int)
    ensures WithoutIncident(a + b, v) == WithoutIncident(a, v) + WithoutIncident(b, v)
    decreases |a|
  {
    if a == [] {
      assert a + b == b;
    } else {
      assert (a + b)[1..] == a[1..] + b;
      WithoutIncidentAppend(a[1..], b, v);
    }
  }

  /** In a store with unique ids, no other edge shares the id of the one at position |a|. */
  lemma IdsApart(a: seq<Edge>, e: Edge, b: seq<Edge>)
    requires UniqueEdgeIds(a + [e] + b)
    ensures !HasEdge(a, e.id) && !HasEdge(b, e.id)
  {
    var all := a + [e] + b;
    assert all[|a|] == e;
    forall x | x in a ensures x.id != e.id {
      var k :| 0 <= k < |a| && a[k] == x;
      assert all[k] == x;
    }
    forall x | x in b ensures x.id != e.id {
      var k :| 0 <= k < |b| && b[k] == x;
      assert all[|a| + 1 + k] == x;
    }
  }

  /** When no other edge shares its id, removing the id of an edge drops exactly that edge. */
  lemma {:induction false} RemoveMiddleEdge(a: seq<Edge>, e: Edge, b: seq<Edge>)
    requires !HasEdge(a, e.id) && !HasEdge(b, e.id)
    ensures WithoutEdge(a + [e] + b, e.id) == a + b
    decreases |a|
  {
    var all := a + [e] + b;
    if a == [] {
      assert all[0] == e && all[1..] == b;
      WithoutAbsentEdge(b, e.id);
    } else {
      assert all[0] == a[0] && all[1..] == a[1..] + [e] + b;
      assert a[0] in a;
      assert !HasEdge(a[1..], e.id) by {
        forall x | x in a[1..] ensures x.id != e.id {
          assert x in a;
        }
      }
      RemoveMiddleEdge(a[1..], e, b);
      assert [a[0]] + (a[1..] + b) == a + b;
    }
  }

  lemma {:induction false} WithoutNodeUnique(nodes: seq<Node>, id: int)
    requires UniqueIds(nodes)
    ensures UniqueIds(WithoutNode(nodes, id))
    decreases |nodes|
  {
    if nodes != [] {
      UniqueTail(nodes);
      WithoutNodeUnique(nodes[1..], id);
      if nodes[0].id != id {
        WithoutNodeMembers(nodes[1..], id);
        UniqueCons(nodes[0], WithoutNode(nodes[1..], id));
      }
    }
  }

  lemma UniqueTail(s: seq<Node>)
    requires |s| > 0 && UniqueIds(s)
    ensures UniqueIds(s[1..])
    ensures forall n :: n in s[1..] ==> n.id != s[0].id
  {
    forall n | n in s[1..] ensures n.id != s[0].id {
      var k :| 0 <= k < |s[1..]| && s[1..][k] == n;
      assert s[k + 1] == n;
    }
  }

  lemma UniqueCons(h: Node, t: seq<Node>)
    requires UniqueIds(t) && forall n :: n in t ==> n.id != h.id
    ensures UniqueIds([h] + t)
  {
    var r := [h] + t;
    forall i, j | 0 <= i < j < |r| ensures r[i].id != r[j].id {
      assert r[j] == t[j - 1];
      if i > 0 {
        assert r[i] == t[i - 1];
      } else {
        assert r[j] in t;
      }
    }
  }

  lemma {:induction false} WithoutEdgeUnique(edges: seq<Edge>, id: int)
    requires UniqueEdgeIds(edges)
    ensures UniqueEdgeIds(WithoutEdge(edges, id))
    decreases |edges|
  {
    if edges != [] {
      UniqueEdgeTail(edges);
      WithoutEdgeUnique(edges[1..], id);
      if edges[0].id != id {
        WithoutEdgeMembers(edges[1..], id);
        UniqueEdgeCons(edges[0], WithoutEdge(edges[1..], id));
      }
    }
  }

  lemma UniqueEdgeTail(s: seq<Edge>)
    requires |s| > 0 && UniqueEdgeIds(s)
    ensures UniqueEdgeIds(s[1..])
    ensures !HasEdge(s[1..], s[0].id)
  {
    forall x | x in s[1..] ensures x.id != s[0].id {
      var k :| 0 <= k < |s[1..]| && s[1..][k] == x;
      assert s[k + 1] == x;
    }
  }

  lemma UniqueEdgeCons(h: Edge, t: seq<Edge>)
    requires UniqueEdgeIds(t) && !HasEdge(t, h.id)
    ensures UniqueEdgeIds([h] + t)
  {
    var r := [h] + t;
    forall i, j | 0 <= i < j < |r| ensures r[i].id != r[j].id {
      assert r[j] == t[j - 1];
      if i > 0 {
        assert r[i] == t[i - 1];
      } else {
        assert r[j] in t;
      }
    }
  }

  /** Appending an item whose id is not taken keeps the ids unique. */
  lemma UniqueSnoc(s: seq<Node>, n: Node)
    requires UniqueIds(s) && !HasNode(s, n.id)
    ensures UniqueIds(s + [n])
  {
    var r := s + [n];
    forall i, j | 0 <= i < j < |r| ensures r[i].id != r[j].id {
      assert r[i] == s[i] || i == |s|;
      if j == |s| {
        assert r[i] in s;
      } else {
        assert r[j] == s[j];
      }
    }
  }

  lemma UniqueEdgeSnoc(s: seq<Edge>, e: Edge)
    requires UniqueEdgeIds(s) && !HasEdge(s, e.id)
    ensures UniqueEdgeIds(s + [e])
  {
    var r := s + [e];
    forall i, j | 0 <= i < j < |r| ensures r[i].id != r[j].id {
      assert r[i] == s[i];
      if j == |s| {
        assert r[i] in s;
      } else {
        assert r[j] == s[j];
      }
    }
  }

  /** `nodes.get(id)`: the node with that id, if any. */
  function FindNode(nodes: seq<Node>, id: int): (r: Option<Node>)
    ensures r.Some? <==> HasNode(nodes, id)
    ensures r.Some? ==> r.value in nodes && r.value.id == id
  {
    if nodes == [] then None
    else if nodes[0].id == id then Some(nodes[0])
    else
      assert forall n :: n in nodes <==> n == nodes[0] || n in nodes[1..];
      FindNode(nodes[1..], id)
  }

  /** `nodes.get().find(n => n.label === text)`: the first node carrying that label. */
  function FindLabel(nodes: seq<Node>, text: string): (r: Option<Node>)
    ensures r.Some? <==> HasLabel(nodes, text)
    ensures r.Some? ==> r.value in nodes && r.value.name == text
  {
    if nodes == [] then None
    else if nodes[0].name == text then Some(nodes[0])
    else
      assert forall n :: n in nodes <==> n == nodes[0] || n in nodes[1..];
      FindLabel(nodes[1..], text)
  }

  /** With unique ids, a node is determined by its id. */
  lemma SameIdSameNode(nodes: seq<Node>, n: Node, m: Node)
    requires UniqueIds(nodes) && n in nodes && m in nodes && n.id == m.id
    ensures n == m
  {
    var i :| 0 <= i < |nodes| && nodes[i] == n;
    var j :| 0 <= j < |nodes| && nodes[j] == m;
    assert !(i < j) && !(j < i);
  }

  /** `nodes.remove({id})` drops one node when the id is present and none otherwise. */
  lemma {:induction false} WithoutNodeLength(nodes: seq<Node>, id: int)
    requires UniqueIds(nodes)
    ensures |WithoutNode(nodes, id)| == |nodes| - (if HasNode(nodes, id) then 1 else 0)
    decreases |nodes|
  {
    if nodes != [] {
      UniqueTail(nodes);
      WithoutNodeLength(nodes[1..], id);
      assert forall n :: n in nodes <==> n == nodes[0] || n in nodes[1..];
    }
  }

  /** `edges.remove(id)` drops one edge when the id is present and none otherwise. */
  lemma {:induction false} WithoutEdgeLength(edges: seq<Edge>, id: int)
    requires UniqueEdgeIds(edges)
    ensures |WithoutEdge(edges, id)| == |edges| - (if HasEdge(edges, id) then 1 else 0)
    decreases |edges|
  {
    if edges != [] {
      UniqueEdgeTail(edges);
      WithoutEdgeLength(edges[1..], id);
      assert forall e :: e in edges <==> e == edges[0] || e in edges[1..];
    }
  }

  /** Edge ids rise along the store, as edges handed out by a rising counter do. */
  predicate AscendingEdgeIds(edges: seq<Edge>)
  {
    forall i, j :: 0 <= i < j < |edges| ==> edges[i].id < edges[j].id
  }

  lemma AscendingTail(s: seq<Edge>)
    requires |s| > 0 && AscendingEdgeIds(s)
    ensures AscendingEdgeIds(s[1..])
    ensures forall x :: x in s[1..] ==> s[0].id < x.id
  {
    forall x | x in s[1..] ensures s[0].id < x.id {
      var k :| 0 <= k < |s[1..]| && s[1..][k] == x;
      assert s[k + 1] == x;
    }
  }

  lemma AscendingCons(h: Edge, t: seq<Edge>)
    requires AscendingEdgeIds(t) && forall x :: x in t ==> h.id < x.id
    ensures AscendingEdgeIds([h] + t)
  {
    var r := [h] + t;
    forall i, j | 0 <= i < j < |r| ensures r[i].id < r[j].id {
      assert r[j] == t[j - 1];
      if i > 0 {
        assert r[i] == t[i - 1];
      } else {
        assert r[j] in t;
      }
    }
  }

  /** Appending an edge whose id is above every id in the store keeps the ids rising. */
  lemma AscendingSnoc(s: seq<Edge>, e: Edge)
    requires AscendingEdgeIds(s) && forall x :: x in s ==> x.id < e.id
    ensures AscendingEdgeIds(s + [e])
  {
    var r := s + [e];
    forall i, j | 0 <= i < j < |r| ensures r[i].id < r[j].id {
      assert r[i] == s[i];
      if j == |s| {
        assert r[i] in s;
      } else {
        assert r[j] == s[j];
      }
    }
  }

  /** `edges.remove(id)` keeps the remaining ids rising. */
  lemma {:induction false} WithoutEdgeAscending(edges: seq<Edge>, id: int)
    requires AscendingEdgeIds(edges)
    ensures AscendingEdgeIds(WithoutEdge(edges, id))
    decreases |edges|
  {
    if edges != [] {
      AscendingTail(edges);
      WithoutEdgeAscending(edges[1..], id);
      WithoutEdgeMembers(edges[1..], id);
      if edges[0].id == id {
        assert WithoutEdge(edges, id) == WithoutEdge(edges[1..], id);
      } else {
        AscendingCons(edges[0], WithoutEdge(edges[1..], id));
      }
    }
  }

  /** Deleting the edges at a node keeps the remaining ids rising. */
  lemma {:induction false} WithoutIncidentAscending(edges: seq<Edge>, v: int)
    requires AscendingEdgeIds(edges)
    ensures AscendingEdgeIds(WithoutIncident(edges, v))
    decreases |edges|
  {
    if edges != [] {
      AscendingTail(edges);
      WithoutIncidentAscending(edges[1..], v);
      WithoutIncidentMembers(edges[1..], v);
      if Touches(edges[0], v) {
        assert WithoutIncident(edges, v) == WithoutIncident(edges[1..], v);
      } else {
        AscendingCons(edges[0], WithoutIncident(edges[1..], v));
      }
    }
  }

  /** Some member of a non-empty set. */
  method Pick<T>(s: set<T>) returns (x: T)
    requires s != {}
    ensures x in s
  {
    x :| x in s;
  }
}
