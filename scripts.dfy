/**
 * The editing handlers of scripts.js, the single-file variant of the sketchpad.
 * Its state is a set of page globals: the two stores, the node and edge counts,
 * the edge counter and the arrows option.  Here every node takes `Number` of its
 * label as its id, nodes are deleted by label, and there is no counter for
 * automatic labels.  Canvas positions, alerts, the input fields and the refresh of
 * the information panel are not modelled.
 */
module Scripts {
  import opened Graphs
  import opened DataSet
  import Connectivity
  import ShortestPath

  /** Every node's id is `Number` of its label. */
  ghost predicate LabelsNumbered(nodes: seq<Node>, toNumber: string -> int)
  {
    forall n :: n in nodes ==> n.id == toNumber(n.name)
  }

  /**
   * When ids are the numbers of distinct labels, removing the id `Number(label)`
   * of a label in use drops exactly the node carrying that label.
   */
  lemma DeleteLabelled(nodes: seq<Node>, toNumber: string -> int, text: string)
    requires UniqueIds(nodes) && LabelsNumbered(nodes, toNumber) && HasLabel(nodes, text)
    ensures forall n :: n in WithoutNode(nodes, toNumber(text)) <==> n in nodes && n.name != text
    ensures |WithoutNode(nodes, toNumber(text))| == |nodes| - 1
  {
    var found :| found in nodes && found.name == text;
    WithoutNodeMembers(nodes, toNumber(text));
    WithoutNodeLength(nodes, toNumber(text));
    forall n | n in nodes && n.id == toNumber(text) ensures n.name == text {
      SameIdSameNode(nodes, n, found);
    }
  }

  /** The globals of scripts.js that the editing handlers read and write. */
  class ScriptState {
    const nodes: NodeDataSet
    const edges: EdgeDataSet
    var nodeCount: int
    var edgeCount: int
    var edgeId: nat
    var directed: bool
    /** `Number(text)` on a label the user typed. */
    const toNumber: string -> int

    /**
     * The stores form a well-formed graph whose labels are distinct and give the
     * ids; edge ids rise along the store and stay below the edge counter.
     */
    ghost predicate Valid()
      reads this, nodes, edges
    {
      && nodes.Valid() && edges.Valid()
      && Coherent(nodes.items, edges.items, edgeId)
      && LabelsNumbered(nodes.items, toNumber)
    }

    /** The counts shown on the page are the sizes of the stores. */
    ghost predicate CountsAgree()
      reads this, nodes, edges
    {
      nodeCount == |nodes.items| && edgeCount == |edges.items|
    }

    /** The page as loaded: empty stores, zero counters, undirected edges. */
    constructor (toNumber: string -> int)
      ensures Valid() && CountsAgree()
      ensures nodes.items == [] && edges.items == []
      ensures nodeCount == 0 && edgeCount == 0 && edgeId == 0 && !directed
      ensures this.toNumber == toNumber
    {
      nodes := new NodeDataSet();
      edges := new EdgeDataSet();
      nodeCount := 0;
      edgeCount := 0;
      edgeId := 0;
      directed := false;
      this.toNumber := toNumber;
    }

    /**
     * `addNode`: a blank label is refused, and so is a label already in use; any
     * other label is added with its `Number` as id, unless the store refuses that
     * id.  The count follows only a successful add.
     */
    method AddNode(text: string) returns (added: bool)
      requires Valid()
      modifies this, nodes
      ensures Valid()
      ensures added <==>
        && !IsBlank(text)
        && !HasLabel(old(nodes.items), text)
        && !HasNode(old(nodes.items), toNumber(text))
      ensures nodes.items == if added then old(nodes.items) + [Node(toNumber(text), text)] else old(nodes.items)
      ensures nodeCount == old(nodeCount) + (if added then 1 else 0)
      ensures edgeCount == old(edgeCount) && edgeId == old(edgeId) && directed == old(directed)
      ensures old(CountsAgree()) ==> CountsAgree()
    {
      if IsBlank(text) {
        return false;
      }
      if FindLabel(nodes.items, text).Some? {
        return false;
      }
      ghost var before := nodes.items;
      var node := Node(toNumber(text), text);
      added := nodes.Add(node);
      if added {
        AddNodeCoherent(before, edges.items, node, edgeId);
        nodeCount := nodeCount + 1;
      }
    }

    /**
     * `deleteNode`: a blank label, or one no node carries, changes nothing.
     * Otherwise the node with id `Number(label)` is removed, then every edge with an
     * end at the id of the node found by label; the counts drop by one and by the
     * number of edges removed.  Since ids are the numbers of distinct labels, the
     * node removed is exactly the one carrying the label.
     */
    method DeleteNode(text: string) returns (deleted: bool)
      requires Valid()
      modifies this, nodes, edges
      ensures Valid()
      ensures deleted <==> !IsBlank(text) && HasLabel(old(nodes.items), text)
      ensures deleted ==>
        && nodes.items == WithoutNode(old(nodes.items), toNumber(text))
        && edges.items == WithoutIncident(old(edges.items), toNumber(text))
        && nodeCount == old(nodeCount) - 1
        && edgeCount == old(edgeCount) - (|old(edges.items)| - |edges.items|)
      ensures deleted ==> forall n :: n in nodes.items <==> n in old(nodes.items) && n.name != text
      ensures !deleted ==>
        && nodes.items == old(nodes.items) && edges.items == old(edges.items)
        && nodeCount == old(nodeCount) && edgeCount == old(edgeCount)
      ensures edgeId == old(edgeId) && directed == old(directed)
      ensures old(CountsAgree()) ==> CountsAgree()
    {
      if IsBlank(text) {
        return false;
      }
      var existing := FindLabel(nodes.items, text);
      if existing.None? {
        return false;
      }
      var existingNode := existing.value;
      assert existingNode.id == toNumber(text);
      DeleteNodeCoherent(nodes.items, edges.items, existingNode.id, edgeId);
      DeleteLabelled(nodes.items, toNumber, text);
      nodes.Remove(toNumber(text));
      nodeCount := nodeCount - 1;
      var removed := edges.RemoveTouching(existingNode.id);
      edgeCount := edgeCount - removed;
      deleted := true;
    }

    /**
     * `addEdge`: with both ends parsed as numbers (`None` stands for `NaN`) naming
     * nodes of the store, adds an edge whose id is the edge counter and advances
     * the counter and the count; otherwise nothing changes.
     */
    method AddEdge(fromId: Option<int>, toId: Option<int>) returns (added: bool)
      requires Valid()
      modifies this, edges
      ensures Valid()
      ensures added <==>
        && fromId.Some? && toId.Some?
        && HasNode(nodes.items, fromId.value) && HasNode(nodes.items, toId.value)
      ensures added ==>
        && edges.items == old(edges.items) + [Edge(old(edgeId), fromId.value, toId.value)]
        && edgeId == old(edgeId) + 1 && edgeCount == old(edgeCount) + 1
      ensures !added ==> edges.items == old(edges.items) && edgeId == old(edgeId) && edgeCount == old(edgeCount)
      ensures nodeCount == old(nodeCount) && directed == old(directed)
      ensures old(CountsAgree()) ==> CountsAgree()
    {
      if fromId.None? || toId.None? {
        return false;
      }
      if FindNode(nodes.items, fromId.value).None? || FindNode(nodes.items, toId.value).None? {
        return false;
      }
      var edge := Edge(edgeId, fromId.value, toId.value);
      AddEdgeCoherent(nodes.items, edges.items, edge, edgeId);
      added := edges.Add(edge);
      edgeId := edgeId + 1;
      edgeCount := edgeCount + 1;
    }

    /**
     * `deleteEdge`: with an id parsed as a number naming an edge of the store,
     * removes that edge and lowers the count; otherwise nothing changes.
     */
    method DeleteEdge(id: Option<int>) returns (removed: bool)
      requires Valid()
      modifies this, edges
      ensures Valid()
      ensures removed <==> id.Some? && HasEdge(old(edges.items), id.value)
      ensures removed ==>
        && edges.items == WithoutEdge(old(edges.items), id.value)
        && |edges.items| == |old(edges.items)| - 1 && edgeCount == old(edgeCount) - 1
      ensures !removed ==> edges.items == old(edges.items) && edgeCount == old(edgeCount)
      ensures nodeCount == old(nodeCount) && edgeId == old(edgeId) && directed == old(directed)
      ensures old(CountsAgree()) ==> CountsAgree()
    {
      if id.None? {
        return false;
      }
      if !HasEdge(edges.items, id.value) {
        return false;
      }
      DeleteEdgeCoherent(nodes.items, edges.items, id.value, edgeId);
      edges.Remove(id.value);
      edgeCount := edgeCount - 1;
      removed := true;
    }

    /** `clearGraph`: empties both stores and resets the counts and the edge counter. */
    method ClearGraph()
      modifies this, nodes, edges
      ensures Valid() && CountsAgree()
      ensures nodes.items == [] && edges.items == []
      ensures nodeCount == 0 && edgeCount == 0 && edgeId == 0
      ensures directed == old(directed)
    {
      nodes.Clear();
      edges.Clear();
      nodeCount := 0;
      edgeCount := 0;
      edgeId := 0;
    }

    /** `toggleDirection`: switches edges between undirected lines and arrows. */
    method ToggleDirection()
      requires Valid()
      modifies this
      ensures Valid()
      ensures directed == !old(directed)
      ensures nodeCount == old(nodeCount) && edgeCount == old(edgeCount) && edgeId == old(edgeId)
    {
      directed := !directed;
    }

    /**
     * `dijkstra` on the stores.  When no component holds both endpoints it returns
     * before touching the options.  Otherwise it first writes the "directed path"
     * checkbox into the arrows flag, which a later bipartite check reads, and
     * searches with that flag.  The path is traced back to the source even through
     * a node with id 0; it is empty when the target is unreached, and the lone
     * `{from: undefined, to: target}` when the target is at no edge end.
     */
    method Dijkstra(source: int, target: int, checked: bool) returns (out: ShortestPath.Outcome)
      requires Valid()
      modifies this
      ensures Valid()
      ensures out.Aborted? <==> !(source in IdSet(nodes.items) && target in Connectivity.Class(Graph(nodes.items, edges.items), source))
      ensures directed == if out.Aborted? then old(directed) else checked
      ensures out.Traced? && target in Ends(edges.items) && Reaches(edges.items, checked, source, target) ==>
        && ShortestPath.IsPath(edges.items, checked, source, target, out.path)
        && forall w :: ArcWalk(edges.items, checked, w) && w[0] == source && w[|w| - 1] == target ==>
             |out.path| <= |w| - 1
      ensures out.Traced? && target in Ends(edges.items) && !Reaches(edges.items, checked, source, target) ==>
        out.path == []
      ensures out.Traced? && target !in Ends(edges.items) ==> out.path == [ShortestPath.Hop(None, target)]
      ensures out.Traced? && !checked ==> Reaches(edges.items, false, source, target)
      ensures nodeCount == old(nodeCount) && edgeCount == old(edgeCount) && edgeId == old(edgeId)
    {
      out := ShortestPath.Dijkstra(Graph(nodes.items, edges.items), checked, source, target);
      if out.Traced? {
        directed := checked;
      }
    }
  }
}
