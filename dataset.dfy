/**
 * The two vis.js DataSets the sketchpad keeps its graph in.  A DataSet holds its
 * items in insertion order (`get()` lists them in that order), refuses a second
 * item with an id it already holds, and drops items by id.  Only the operations
 * the sketchpad calls are modelled.
 */
module DataSet {
  import opened Graphs

  class NodeDataSet {
    var items: seq<Node>

    ghost predicate Valid()
      reads this
    {
      UniqueIds(items)
    }

    /** `new vis.DataSet([])` */
    constructor ()
      ensures Valid() && items == []
    {
      items := [];
    }

    /**
     * `add(item)`: appends the item, or (vis.js throws) leaves the store as it
     * was when its id is taken.
     */
    method Add(n: Node) returns (added: bool)
      requires Valid()
      modifies this
      ensures Valid()
      ensures added <==> !HasNode(old(items), n.id)
      ensures items == if added then old(items) + [n] else old(items)
    {
      added := FindNode(items, n.id).None?;
      if added {
        UniqueSnoc(items, n);
        items := items + [n];
      }
    }

    /** `remove({id})`: drops the node with that id; an absent id changes nothing. */
    method Remove(id: int)
      requires Valid()
      modifies this
      ensures Valid()
      ensures items == WithoutNode(old(items), id)
    {
      WithoutNodeUnique(items, id);
      items := WithoutNode(items, id);
    }

    /** `clear()` */
    method Clear()
      modifies this
      ensures Valid() && items == []
    {
      items := [];
    }
  }

  class EdgeDataSet {
    var items: seq<Edge>

    ghost predicate Valid()
      reads this
    {
      UniqueEdgeIds(items)
    }

    /** `new vis.DataSet([])` */
    constructor ()
      ensures Valid() && items == []
    {
      items := [];
    }

    /** `add(item)`: appends the edge, or leaves the store as it was when its id is taken. */
    method Add(e: Edge) returns (added: bool)
      requires Valid()
      modifies this
      ensures Valid()
      ensures added <==> !HasEdge(old(items), e.id)
      ensures items == if added then old(items) + [e] else old(items)
    {
      added := !exists x :: x in items && x.id == e.id;
      if added {
        UniqueEdgeSnoc(items, e);
        items := items + [e];
      }
    }

    /** `remove(id)`: drops the edge with that id; an absent id changes nothing. */
    method Remove(id: int)
      requires Valid()
      modifies this
      ensures Valid()
      ensures items == WithoutEdge(old(items), id)
    {
      WithoutEdgeUnique(items, id);
      items := WithoutEdge(items, id);
    }

    /** `clear()` */
    method Clear()
      modifies this
      ensures Valid() && items == []
    {
      items := [];
    }

    /**
     * The cascade of `deleteNode`: walks a snapshot of the edges and removes, one by
     * one, each edge with `from` or `to` equal to v; `removed` counts the removals,
     * which the callers subtract from their edge counter.
     */
    method RemoveTouching(v: int) returns (removed: nat)
      requires Valid()
      modifies this
      ensures Valid()
      ensures items == WithoutIncident(old(items), v)
      ensures removed == |old(items)| - |items|
    {
      var snapshot := items;
      removed := 0;
      var i := 0;
      while i < |snapshot|
        invariant 0 <= i <= |snapshot|
        invariant Valid()
        invariant items == WithoutIncident(snapshot[..i], v) + snapshot[i..]
        invariant removed + |WithoutIncident(snapshot[..i], v)| == i
      {
        var e := snapshot[i];
        CascadeStep(snapshot, i, v, items);
        if Touches(e, v) {
          Remove(e.id);
          removed := removed + 1;
        }
        i := i + 1;
      }
      assert snapshot[..i] == snapshot;
    }
  }

  /**
   * One step of the cascade: with the prefix before i already filtered, handling the
   * edge at i (removing it when it touches v) leaves the prefix up to i filtered.
   */
  lemma CascadeStep(snapshot: seq<Edge>, i: int, v: int, items: seq<Edge>)
    requires 0 <= i < |snapshot| && UniqueEdgeIds(items)
    requires items == WithoutIncident(snapshot[..i], v) + snapshot[i..]
    ensures var next := WithoutIncident(snapshot[..i + 1], v) + snapshot[i + 1..];
      if Touches(snapshot[i], v) then WithoutEdge(items, snapshot[i].id) == next else items == next
    ensures |WithoutIncident(snapshot[..i + 1], v)|
         == |WithoutIncident(snapshot[..i], v)| + (if Touches(snapshot[i], v) then 0 else 1)
  {
    var e := snapshot[i];
    var kept := WithoutIncident(snapshot[..i], v);
    FilteredPrefixGrows(snapshot, i, v);
    assert snapshot[i..] == [e] + snapshot[i + 1..];
    if Touches(e, v) {
      RemoveAt(kept, snapshot[i..]);
    } else {
      assert items == (kept + [e]) + snapshot[i + 1..];
    }
  }

  lemma FilteredPrefixGrows(snapshot: seq<Edge>, i: int, v: int)
    requires 0 <= i < |snapshot|
    ensures WithoutIncident(snapshot[..i + 1], v)
         == WithoutIncident(snapshot[..i], v) + (if Touches(snapshot[i], v) then [] else [snapshot[i]])
  {
    var e := snapshot[i];
    assert snapshot[..i + 1] == snapshot[..i] + [e];
    WithoutIncidentAppend(snapshot[..i], [e], v);
    SingleIncident(e, v);
  }

  lemma SingleIncident(e: Edge, v: int)
    ensures WithoutIncident([e], v) == if Touches(e, v) then [] else [e]
  {
    assert [e][1..] == [];
  }

  /** Removing the id of the first edge after `kept` drops that edge and nothing else. */
  lemma RemoveAt(kept: seq<Edge>, rest: seq<Edge>)
    requires |rest| > 0 && UniqueEdgeIds(kept + rest)
    ensures WithoutEdge(kept + rest, rest[0].id) == kept + rest[1..]
  {
    assert kept + rest == kept + [rest[0]] + rest[1..];
    IdsApart(kept, rest[0], rest[1..]);
    RemoveMiddleEdge(kept, rest[0], rest[1..]);
  }

  /**
   * What the editing handlers keep true of the two stores: a well-formed graph with
   * distinct labels, and edge ids that rise along the store and stay below the edge
   * counter `next`.
   */
  ghost predicate Coherent(nodes: seq<Node>, edges: seq<Edge>, next: int)
  {
    && WellFormed(Graph(nodes, edges))
    && DistinctLabels(nodes)
    && AscendingEdgeIds(edges)
    && forall e :: e in edges ==> e.id < next
  }

  /** Adding a node whose id and label are both free keeps the stores coherent. */
  lemma AddNodeCoherent(nodes: seq<Node>, edges: seq<Edge>, n: Node, next: int)
    requires Coherent(nodes, edges, next) && !HasNode(nodes, n.id) && !HasLabel(nodes, n.name)
    ensures Coherent(nodes + [n], edges, next)
  {
    UniqueSnoc(nodes, n);
    forall e | e in edges ensures HasNode(nodes + [n], e.from) && HasNode(nodes + [n], e.to) {
      var a :| a in nodes && a.id == e.from;
      var b :| b in nodes && b.id == e.to;
      assert a in nodes + [n] && b in nodes + [n];
    }
  }

  /**
   * Deleting a node together with the edges at it keeps the stores coherent, and
   * the node store loses one node exactly when the id was present.
   */
  lemma DeleteNodeCoherent(nodes: seq<Node>, edges: seq<Edge>, id: int, next: int)
    requires Coherent(nodes, edges, next)
    ensures Coherent(WithoutNode(nodes, id), WithoutIncident(edges, id), next)
    ensures |WithoutNode(nodes, id)| == |nodes| - (if HasNode(nodes, id) then 1 else 0)
  {
    var kept := WithoutNode(nodes, id);
    WithoutNodeUnique(nodes, id);
    WithoutNodeMembers(nodes, id);
    WithoutNodeLength(nodes, id);
    WithoutIncidentMembers(edges, id);
    WithoutIncidentAscending(edges, id);
    forall e | e in WithoutIncident(edges, id) ensures HasNode(kept, e.from) && HasNode(kept, e.to) {
      var a :| a in nodes && a.id == e.from;
      var b :| b in nodes && b.id == e.to;
      assert a in kept && b in kept;
    }
  }

  /**
   * An edge between two nodes of the store, numbered by the counter, takes an id
   * no edge holds, and the stores stay coherent once the counter moves past it.
   */
  lemma AddEdgeCoherent(nodes: seq<Node>, edges: seq<Edge>, e: Edge, next: int)
    requires Coherent(nodes, edges, next) && HasNode(nodes, e.from) && HasNode(nodes, e.to)
    requires e.id == next
    ensures !HasEdge(edges, e.id)
    ensures Coherent(nodes, edges + [e], next + 1)
  {
    AscendingSnoc(edges, e);
  }

  /**
   * Deleting an edge keeps the stores coherent, and the edge store loses one edge
   * exactly when the id was present.
   */
  lemma DeleteEdgeCoherent(nodes: seq<Node>, edges: seq<Edge>, id: int, next: int)
    requires Coherent(nodes, edges, next) && UniqueEdgeIds(edges)
    ensures Coherent(nodes, WithoutEdge(edges, id), next)
    ensures |WithoutEdge(edges, id)| == |edges| - (if HasEdge(edges, id) then 1 else 0)
  {
    WithoutEdgeMembers(edges, id);
    WithoutEdgeAscending(edges, id);
    WithoutEdgeLength(edges, id);
  }
}
