/**
 * `getBridges` (analyze.js; scripts.js holds an identical copy): for each edge of
 * a snapshot of the edge store, count the components, remove the edge from the
 * store, count again, and add the edge back; the edge is a bridge when the two
 * counts differ.
 */
module Bridges {
  import opened Graphs
  import opened Connectivity
  import opened DataSet
  import opened Components

  /** Removing e from the edge store changes the number of components. */
  ghost predicate IsBridge(nodes: seq<Node>, edges: seq<Edge>, e: Edge)
  {
    NumComponents(Graph(nodes, WithoutEdge(edges, e.id))) != NumComponents(Graph(nodes, edges))
  }

  /** The bridges among `candidates`, in their order. */
  ghost function BridgesOf(nodes: seq<Node>, edges: seq<Edge>, candidates: seq<Edge>): seq<Edge>
  {
    if candidates == [] then []
    else
      var last := candidates[|candidates| - 1];
      BridgesOf(nodes, edges, candidates[..|candidates| - 1]) + (if IsBridge(nodes, edges, last) then [last] else [])
  }

  /** The reported edges are exactly the candidates whose removal changes the component count. */
  lemma {:induction false} BridgesOfMembers(nodes: seq<Node>, edges: seq<Edge>, candidates: seq<Edge>)
    ensures forall e :: e in BridgesOf(nodes, edges, candidates) <==> e in candidates && IsBridge(nodes, edges, e)
    decreases |candidates|
  {
    if candidates != [] {
      var init := candidates[..|candidates| - 1];
      BridgesOfMembers(nodes, edges, init);
      assert candidates == init + [candidates[|candidates| - 1]];
    }
  }

  /**
   * After the edge at i has been handled, the store holds the snapshot rotated by
   * one more place: removing that edge leaves the others, and re-adding appends it.
   */
  lemma RotationStep(snapshot: seq<Edge>, i: int)
    requires UniqueEdgeIds(snapshot) && 0 <= i < |snapshot|
    requires UniqueEdgeIds(snapshot[i..] + snapshot[..i])
    ensures WithoutEdge(snapshot[i..] + snapshot[..i], snapshot[i].id) == snapshot[i + 1..] + snapshot[..i]
    ensures (snapshot[i + 1..] + snapshot[..i]) + [snapshot[i]] == snapshot[i + 1..] + snapshot[..i + 1]
  {
    var rot := snapshot[i..] + snapshot[..i];
    assert rot[0] == snapshot[i] && rot[1..] == snapshot[i + 1..] + snapshot[..i];
    RemoveAt([], rot);
    assert [] + rot == rot;
    assert snapshot[..i + 1] == snapshot[..i] + [snapshot[i]];
  }

  /** Without the edge at i, the rest of the snapshot, in either order, is the store minus its id. */
  lemma OthersAreWithout(snapshot: seq<Edge>, i: int)
    requires UniqueEdgeIds(snapshot) && 0 <= i < |snapshot|
    ensures forall x :: x in snapshot[i + 1..] + snapshot[..i] <==> x in WithoutEdge(snapshot, snapshot[i].id)
  {
    WithoutEdgeMembers(snapshot, snapshot[i].id);
    forall x | x in snapshot && x.id != snapshot[i].id ensures x in snapshot[i + 1..] + snapshot[..i] {
      var k :| 0 <= k < |snapshot| && snapshot[k] == x;
      if k < i {
        assert snapshot[..i][k] == x;
      } else {
        assert snapshot[i + 1..][k - i - 1] == x;
      }
    }
    forall x | x in snapshot[i + 1..] + snapshot[..i] ensures x in snapshot && x.id != snapshot[i].id {
      if x in snapshot[i + 1..] {
        var k :| 0 <= k < |snapshot[i + 1..]| && snapshot[i + 1..][k] == x;
        assert snapshot[i + 1 + k] == x;
      } else {
        var k :| 0 <= k < i && snapshot[..i][k] == x;
        assert snapshot[k] == x;
      }
    }
  }

  /** A rotation of the store holds the same edges. */
  lemma RotationMembers(snapshot: seq<Edge>, i: int)
    requires 0 <= i <= |snapshot|
    ensures forall x :: x in snapshot[i..] + snapshot[..i] <==> x in snapshot
  {
    assert snapshot == snapshot[..i] + snapshot[i..];
  }

  lemma SubsetEndpoints(nodes: seq<Node>, edges: seq<Edge>, sub: seq<Edge>)
    requires EndpointsExist(nodes, edges)
    requires forall x :: x in sub ==> x in edges
    ensures EndpointsExist(nodes, sub)
  {
  }

  /**
   * One round of `getBridges` on the store rotated by i: both stores it counts
   * components of are well formed, the counts are those of the snapshot with and
   * without the edge at i, and re-adding that edge rotates the store one place on.
   */
  lemma BridgeRound(nodes: seq<Node>, snapshot: seq<Edge>, i: int)
    requires WellFormed(Graph(nodes, snapshot)) && UniqueEdgeIds(snapshot) && 0 <= i < |snapshot|
    requires UniqueEdgeIds(snapshot[i..] + snapshot[..i])
    ensures var e, rot := snapshot[i], snapshot[i..] + snapshot[..i];
      && WellFormed(Graph(nodes, rot))
      && NumComponents(Graph(nodes, rot)) == NumComponents(Graph(nodes, snapshot))
      && WithoutEdge(rot, e.id) == snapshot[i + 1..] + snapshot[..i]
      && WellFormed(Graph(nodes, snapshot[i + 1..] + snapshot[..i]))
      && NumComponents(Graph(nodes, snapshot[i + 1..] + snapshot[..i]))
         == NumComponents(Graph(nodes, WithoutEdge(snapshot, e.id)))
      && !HasEdge(snapshot[i + 1..] + snapshot[..i], e.id)
      && (snapshot[i + 1..] + snapshot[..i]) + [e] == snapshot[i + 1..] + snapshot[..i + 1]
      && BridgesOf(nodes, snapshot, snapshot[..i + 1])
         == BridgesOf(nodes, snapshot, snapshot[..i]) + (if IsBridge(nodes, snapshot, e) then [e] else [])
  {
    var e, rot := snapshot[i], snapshot[i..] + snapshot[..i];
    var others := snapshot[i + 1..] + snapshot[..i];
    RotationMembers(snapshot, i);
    SubsetEndpoints(nodes, snapshot, rot);
    SameEdgesSameClasses(Graph(nodes, rot), Graph(nodes, snapshot));
    RotationStep(snapshot, i);
    OthersAreWithout(snapshot, i);
    WithoutEdgeMembers(snapshot, e.id);
    SubsetEndpoints(nodes, snapshot, others);
    SameEdgesSameClasses(Graph(nodes, others), Graph(nodes, WithoutEdge(snapshot, e.id)));
    assert snapshot[..i + 1][..i] == snapshot[..i];
  }

  /**
   * `getBridges`: the reported edges are, in store order, exactly those whose
   * removal changes the number of components, and the store ends as it began,
   * order included.
   */
  method Bridges(nodes: NodeDataSet, edges: EdgeDataSet) returns (bridges: seq<Edge>)
    requires edges.Valid() && WellFormed(Graph(nodes.items, edges.items))
    modifies edges
    ensures edges.Valid() && edges.items == old(edges.items)
    ensures bridges == BridgesOf(nodes.items, edges.items, edges.items)
  {
    var snapshot := edges.items;
    bridges := [];
    var i := 0;
    while i < |snapshot|
      invariant 0 <= i <= |snapshot|
      invariant edges.Valid()
      invariant edges.items == snapshot[i..] + snapshot[..i]
      invariant bridges == BridgesOf(nodes.items, snapshot, snapshot[..i])
    {
      var e := snapshot[i];
      BridgeRound(nodes.items, snapshot, i);
      var before := GetComponents(Graph(nodes.items, edges.items));
      edges.Remove(e.id);
      var after := GetComponents(Graph(nodes.items, edges.items));
      var readded := edges.Add(e);
      if |before| != |after| {
        bridges := bridges + [e];
      }
      i := i + 1;
    }
    assert snapshot[..i] == snapshot && snapshot[i..] == [];
  }

  /** In a store with unique ids, no edge other than e carries e's id. */
  lemma OnlyOneWithId(edges: seq<Edge>, e: Edge)
    requires e in edges && UniqueEdgeIds(edges)
    ensures forall f :: f in edges && f != e ==> f.id != e.id
  {
    forall f | f in edges && f != e ensures f.id != e.id {
      var i :| 0 <= i < |edges| && edges[i] == e;
      var j :| 0 <= j < |edges| && edges[j] == f;
      assert i != j;
    }
  }

  /** A self-loop joins nothing new, so removing it never changes the count. */
  lemma SelfLoopNeverBridge(nodes: seq<Node>, edges: seq<Edge>, e: Edge)
    requires e in edges && UniqueEdgeIds(edges) && e.from == e.to
    ensures !IsBridge(nodes, edges, e)
  {
    var rest := WithoutEdge(edges, e.id);
    WithoutEdgeMembers(edges, e.id);
    OnlyOneWithId(edges, e);
    forall x, y | Step(edges, x, y) ensures Step(rest, x, y) {
      if x != y {
        var f :| f in edges && Joins(f, x, y);
        assert f != e;
        assert f in rest;
      }
    }
    SameStepsSameClasses(Graph(nodes, edges), Graph(nodes, rest));
  }

  /** An edge with a parallel twin (same ends, either direction) is never a bridge. */
  lemma ParallelNeverBridge(nodes: seq<Node>, edges: seq<Edge>, e: Edge, twin: Edge)
    requires e in edges && UniqueEdgeIds(edges)
    requires twin in edges && twin.id != e.id && Joins(twin, e.from, e.to)
    ensures !IsBridge(nodes, edges, e)
  {
    var rest := WithoutEdge(edges, e.id);
    WithoutEdgeMembers(edges, e.id);
    OnlyOneWithId(edges, e);
    assert twin in rest;
    forall x, y | Step(edges, x, y) ensures Step(rest, x, y) {
      if x != y {
        var f :| f in edges && Joins(f, x, y);
        if f == e {
          assert Joins(twin, x, y);
        } else {
          assert f in rest;
        }
      }
    }
    SameStepsSameClasses(Graph(nodes, edges), Graph(nodes, rest));
  }
}
