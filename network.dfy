/**
 * The editing half of network.js: `NetworkState` with its two stores and four
 * counters, and the handlers that add and delete nodes and edges, clear the graph
 * and switch edges between plain lines and arrows.  Canvas positions, alerts, the
 * label field and the refresh of the information panel are not modelled.
 */
module Network {
  import opened Graphs
  import opened DataSet
  import Connectivity
  import ShortestPath

  /** One decimal digit. */
  function DigitChar(d: nat): (c: char)
    requires d < 10
    ensures '0' <= c <= '9' && c as int - '0' as int == d
  {
    ('0' as int + d) as char
  }

  /** `String(n)` for a non-negative integer: its decimal digits, with no leading zero. */
  function DecimalString(n: nat): (s: string)
    ensures |s| > 0 && forall i :: 0 <= i < |s| ==> '0' <= s[i] <= '9'
    ensures s[0] == '0' ==> s == "0"
  {
    if n < 10 then [DigitChar(n)] else DecimalString(n / 10) + [DigitChar(n % 10)]
  }

  /** The number a string of decimal digits denotes, as `Number` reads it. */
  function DecimalValue(s: string): nat
    requires forall i :: 0 <= i < |s| ==> '0' <= s[i] <= '9'
  {
    if s == [] then 0 else 10 * DecimalValue(s[..|s| - 1]) + (s[|s| - 1] as int - '0' as int)
  }

  /** Reading back the label given to an unlabelled node yields its id. */
  lemma {:induction false} DecimalRoundTrip(n: nat)
    ensures DecimalValue(DecimalString(n)) == n
    decreases n
  {
    if n >= 10 {
      var s := DecimalString(n);
      assert s[..|s| - 1] == DecimalString(n / 10);
      DecimalRoundTrip(n / 10);
    }
  }

  /** Different counter values give different automatic labels. */
  lemma DecimalInjective(a: nat, b: nat)
    requires a != b
    ensures DecimalString(a) != DecimalString(b)
  {
    DecimalRoundTrip(a);
    DecimalRoundTrip(b);
  }

  /**
   * `NetworkState`: the node and edge stores, the node and edge counts shown on the
   * page, the counters that hand out edge ids and automatic node ids, and
   * `options.edges.arrows.to.enabled`, which makes the graph directed.
   */
  class NetworkState {
    const nodes: NodeDataSet
    const edges: EdgeDataSet
    var nodeCount: int
    var edgeCount: int
    var edgeId: nat
    var nodeId: nat
    var directed: bool
    /** `Number(text)` on a label the user typed. */
    const toNumber: string -> int

    /**
     * The stores form a well-formed graph with distinct labels; edge ids rise along
     * the store and stay below the edge counter, so none is handed out twice.
     */
    ghost predicate Valid()
      reads this, nodes, edges
    {
      && nodes.Valid() && edges.Valid()
      && Coherent(nodes.items, edges.items, edgeId)
    }

    /** The counts shown on the page are the sizes of the stores. */
    ghost predicate CountsAgree()
      reads this, nodes, edges
    {
      nodeCount == |nodes.items| && edgeCount == |edges.items|
    }

    /** What the analysis routines read: both stores, in insertion order. */
    function Snapshot(): (g: Graph)
      reads this, nodes, edges
      ensures Valid() ==> WellFormed(g)
    {
      Graph(nodes.items, edges.items)
    }

    /** The initial `NetworkState`: empty stores, zero counters, undirected edges. */
    constructor (toNumber: string -> int)
      ensures Valid() && CountsAgree()
      ensures nodes.items == [] && edges.items == []
      ensures nodeCount == 0 && edgeCount == 0 && edgeId == 0 && nodeId == 0 && !directed
      ensures this.toNumber == toNumber
    {
      nodes := new NodeDataSet();
      edges := new EdgeDataSet();
      nodeCount := 0;
      edgeCount := 0;
      edgeId := 0;
      nodeId := 0;
      directed := false;
      this.toNumber := toNumber;
    }

    /**
     * `addNode`: a blank label is replaced by the decimal form of the node counter,
     * which also becomes the id and is advanced before the duplicate check; any
     * other label is kept and its `Number` is the id.  The node is added unless its
     * label is already in use or the store refuses its id; the count follows only
     * a successful add.  The comparison meant to advance the counter past a typed
     * label compares a number with a string under `===` and never holds, so the
     * counter moves only on blank labels.
     */
    method AddNode(userLabel: string) returns (added: bool)
      requires Valid()
      modifies this, nodes
      ensures Valid()
      ensures var blank := IsBlank(userLabel);
        var name := if blank then DecimalString(old(nodeId)) else userLabel;
        var id := if blank then old(nodeId) else toNumber(userLabel);
        && (added <==> !HasLabel(old(nodes.items), name) && !HasNode(old(nodes.items), id))
        && nodes.items == (if added then old(nodes.items) + [Node(id, name)] else old(nodes.items))
        && nodeCount == old(nodeCount) + (if added then 1 else 0)
        && nodeId == old(nodeId) + (if blank then 1 else 0)
      ensures edgeCount == old(edgeCount) && edgeId == old(edgeId) && directed == old(directed)
      ensures old(CountsAgree()) ==> CountsAgree()
    {
      var name: string;
      var id: int;
      if IsBlank(userLabel) {
        name := DecimalString(nodeId);
        id := nodeId;
        nodeId := nodeId + 1;
      } else {
        name := userLabel;
        id := toNumber(userLabel);
      }
      if FindLabel(nodes.items, name).Some? {
        return false;
      }
      ghost var before := nodes.items;
      added := nodes.Add(Node(id, name));
      if added {
        AddNodeCoherent(before, edges.items, Node(id, name), edgeId);
        nodeCount := nodeCount + 1;
      }
    }

    /**
     * `deleteNode`: removes the node with that id and then every edge with an end
     * at it, lowering the edge count once per removed edge.  The node count drops
     * by one whether or not the id was present, so the counts stay in step exactly
     * when it was.
     */
    method DeleteNode(id: int)
      requires Valid()
      modifies this, nodes, edges
      ensures Valid()
      ensures nodes.items == WithoutNode(old(nodes.items), id)
      ensures edges.items == WithoutIncident(old(edges.items), id)
      ensures nodeCount == old(nodeCount) - 1
      ensures edgeCount == old(edgeCount) - (|old(edges.items)| - |edges.items|)
      ensures edgeId == old(edgeId) && nodeId == old(nodeId) && directed == old(directed)
      ensures old(CountsAgree()) ==> (CountsAgree() <==> HasNode(old(nodes.items), id))
    {
      DeleteNodeCoherent(nodes.items, edges.items, id, edgeId);
      nodes.Remove(id);
      nodeCount := nodeCount - 1;
      var removed := edges.RemoveTouching(id);
      edgeCount := edgeCount - removed;
    }

    /**
     * `addEdge`: with both ends numbers naming nodes of the store (`None` stands for
     * `NaN`), adds an edge whose id is the edge counter and advances the counter and
     * the count; otherwise nothing changes.  The store never refuses the id: every
     * id in it is below the counter.
     */
    method AddEdge(fromId: Option<int>, toId: Option<int>) returns (added: bool)
      requires Valid()
      modifies this, edges
      ensures Valid()
      ensures added <==>
        && fromId.Some? && toId.Some?
        && HasNode(nodes.items, fromId.value) && HasNode(nodes.items, toId.value)
      ensures added ==>
        && edges.items == old(edges.items) + [Edge(old(edgeId), fromId.value, toId.value)]
        && edgeId == old(edgeId) + 1 && edgeCount == old(edgeCount) + 1
      ensures !added ==> edges.items == old(edges.items) && edgeId == old(edgeId) && edgeCount == old(edgeCount)
      ensures nodeCount == old(nodeCount) && nodeId == old(nodeId) && directed == old(directed)
      ensures old(CountsAgree()) ==> CountsAgree()
    {
      if fromId.None? || toId.None? {
        return false;
      }
      if FindNode(nodes.items, fromId.value).None? || FindNode(nodes.items, toId.value).None? {
        return false;
      }
      var edge := Edge(edgeId, fromId.value, toId.value);
      AddEdgeCoherent(nodes.items, edges.items, edge, edgeId);
      added := edges.Add(edge);
      edgeId := edgeId + 1;
      edgeCount := edgeCount + 1;
    }

    /**
     * `deleteEdge`: with a number naming an edge of the store, removes that edge and
     * lowers the count; otherwise nothing changes.
     */
    method DeleteEdge(id: Option<int>) returns (removed: bool)
      requires Valid()
      modifies this, edges
      ensures Valid()
      ensures removed <==> id.Some? && HasEdge(old(edges.items), id.value)
      ensures removed ==>
        && edges.items == WithoutEdge(old(edges.items), id.value)
        && |edges.items| == |old(edges.items)| - 1 && edgeCount == old(edgeCount) - 1
      ensures !removed ==> edges.items == old(edges.items) && edgeCount == old(edgeCount)
      ensures nodeCount == old(nodeCount) && edgeId == old(edgeId) && nodeId == old(nodeId)
      ensures directed == old(directed)
      ensures old(CountsAgree()) ==> CountsAgree()
    {
      if id.None? {
        return false;
      }
      if !HasEdge(edges.items, id.value) {
        return false;
      }
      DeleteEdgeCoherent(nodes.items, edges.items, id.value, edgeId);
      edges.Remove(id.value);
      edgeCount := edgeCount - 1;
      removed := true;
    }

    /** `clearGraph`: empties both stores and resets all four counters. */
    method ClearGraph()
      modifies this, nodes, edges
      ensures Valid() && CountsAgree()
      ensures nodes.items == [] && edges.items == []
      ensures nodeCount == 0 && edgeCount == 0 && edgeId == 0 && nodeId == 0
      ensures directed == old(directed)
    {
      nodes.Clear();
      edges.Clear();
      nodeCount := 0;
      edgeCount := 0;
      edgeId := 0;
      nodeId := 0;
    }

    /** `toggleDirection`: switches edges between undirected lines and arrows. */
    method ToggleDirection()
      requires Valid()
      modifies this
      ensures Valid()
      ensures directed == !old(directed)
      ensures nodeCount == old(nodeCount) && edgeCount == old(edgeCount)
      ensures edgeId == old(edgeId) && nodeId == old(nodeId)
    {
      directed := !directed;
    }

    /**
     * `dijkstra` on the stores.  When no component holds both endpoints it returns
     * before touching the options.  Otherwise it first writes the "directed path"
     * checkbox into the arrows flag, which a later bipartite check reads, and
     * searches with that flag.  The path is traced back to the source even through
     * a node with id 0; it is empty when the target is unreached, and the lone
     * `{from: undefined, to: target}` when the target is at no edge end.
     */
    method Dijkstra(source: int, target: int, checked: bool) returns (out: ShortestPath.Outcome)
      requires Valid()
      modifies this
      ensures Valid()
      ensures out.Aborted? <==> !(source in IdSet(nodes.items) && target in Connectivity.Class(Snapshot(), source))
      ensures directed == if out.Aborted? then old(directed) else checked
      ensures out.Traced? && target in Ends(edges.items) && Reaches(edges.items, checked, source, target) ==>
        && ShortestPath.IsPath(edges.items, checked, source, target, out.path)
        && forall w :: ArcWalk(edges.items, checked, w) && w[0] == source && w[|w| - 1] == target ==>
             |out.path| <= |w| - 1
      ensures out.Traced? && target in Ends(edges.items) && !Reaches(edges.items, checked, source, target) ==>
        out.path == []
      ensures out.Traced? && target !in Ends(edges.items) ==> out.path == [ShortestPath.Hop(None, target)]
      ensures out.Traced? && !checked ==> Reaches(edges.items, false, source, target)
      ensures nodeCount == old(nodeCount) && edgeCount == old(edgeCount) && edgeId == old(edgeId) && nodeId == old(nodeId)
    {
      out := ShortestPath.Dijkstra(Snapshot(), checked, source, target);
      if out.Traced? {
        directed := checked;
      }
    }
  }
}
