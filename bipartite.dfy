/**
 * `isComponentBipartite` and `isGraphBipartite` (analyze.js).  A breadth-first
 * traversal from the first node of a component gives it colour 0 and every newly
 * reached neighbour the other colour of the node it was reached from; it fails as
 * soon as a neighbour already carries the colour of the current node.  When arrows
 * are shown the traversal follows only the heads of outgoing edges.
 */
module Bipartite {
  import opened Graphs
  import opened Connectivity
  import opened Components

  /**
   * A colouring with 0 and 1 that colours s and gives the head of every arc out of
   * a coloured node a colour, different from its tail's.
   */
  ghost predicate ProperColouring(edges: seq<Edge>, directed: bool, s: int, col: map<int, int>)
  {
    && s in col
    && (forall x :: x in col ==> col[x] == 0 || col[x] == 1)
    && (forall x, y :: x in col && Arc(edges, directed, x, y) ==> y in col && col[y] != col[x])
  }

  /** What the traversal from s decides: the part of the graph it reaches can be 2-coloured. */
  ghost predicate BipartiteFrom(edges: seq<Edge>, directed: bool, s: int)
  {
    exists col :: ProperColouring(edges, directed, s, col)
  }

  /** Any colouring alternates along a walk: the colour at its end is fixed by its length. */
  lemma {:induction false} WalkParity(edges: seq<Edge>, directed: bool, s: int, col: map<int, int>, w: seq<int>)
    requires ProperColouring(edges, directed, s, col) && ArcWalk(edges, directed, w) && w[0] == s
    ensures w[|w| - 1] in col && col[w[|w| - 1]] == (col[s] + |w| - 1) % 2
    decreases |w|
  {
    if |w| > 1 {
      var init := w[..|w| - 1];
      assert ArcWalk(edges, directed, init) by {
        forall i | 0 <= i < |init| - 1 ensures Arc(edges, directed, init[i], init[i + 1]) {
          assert init[i] == w[i] && init[i + 1] == w[i + 1];
        }
      }
      WalkParity(edges, directed, s, col, init);
      assert Arc(edges, directed, w[|w| - 2], w[|w| - 1]);
    }
  }

  /**
   * Two walks from s of the same parity whose ends an arc joins rule out every
   * 2-colouring: the arc would join two nodes of one colour.
   */
  lemma SameParityClash(edges: seq<Edge>, directed: bool, s: int, wa: seq<int>, wb: seq<int>)
    requires ArcWalk(edges, directed, wa) && wa[0] == s
    requires ArcWalk(edges, directed, wb) && wb[0] == s
    requires Arc(edges, directed, wa[|wa| - 1], wb[|wb| - 1])
    requires |wa| % 2 == |wb| % 2
    ensures !BipartiteFrom(edges, directed, s)
  {
    var a, b := wa[|wa| - 1], wb[|wb| - 1];
    forall col | ProperColouring(edges, directed, s, col)
      ensures a in col && b in col && col[a] == col[b]
    {
      WalkParity(edges, directed, s, col, wa);
      WalkParity(edges, directed, s, col, wb);
    }
  }

  /**
   * The traversal's colours so far: the start has one, every coloured id is the
   * start or an edge end, and each colour is the parity of a walk from the start.
   */
  ghost predicate Colouring(edges: seq<Edge>, directed: bool, start: int, colors: map<int, int>, walks: map<int, seq<int>>)
  {
    && start in colors
    && colors.Keys <= Ends(edges) + {start}
    && walks.Keys == colors.Keys
    && (forall x :: x in colors ==> colors[x] == 0 || colors[x] == 1)
    && (forall x :: x in walks ==>
         && ArcWalk(edges, directed, walks[x]) && walks[x][0] == start
         && walks[x][|walks[x]| - 1] == x && colors[x] == (|walks[x]| - 1) % 2)
  }

  /** Every arc out of an explored id leads to an id of the other colour. */
  ghost predicate Explored(edges: seq<Edge>, directed: bool, colors: map<int, int>, done: set<int>)
  {
    forall x, y :: x in done && Arc(edges, directed, x, y) ==> x in colors && y in colors && colors[y] != colors[x]
  }

  /**
   * The coloured ids are the explored ones, the one being explored (`busy`) and the
   * queued ones, each in exactly one place and queued once.
   */
  ghost predicate Queue(colors: map<int, int>, done: set<int>, busy: set<int>, toVisit: seq<int>)
  {
    && colors.Keys == done + busy + Elems(toVisit)
    && done !! busy && done !! Elems(toVisit) && busy !! Elems(toVisit)
    && Distinct(toVisit)
  }

  lemma ColouringStart(edges: seq<Edge>, directed: bool, start: int)
    ensures Colouring(edges, directed, start, map[start := 0], map[start := [start]])
    ensures Queue(map[start := 0], {}, {}, [start])
    ensures Explored(edges, directed, map[start := 0], {})
  {
    assert Elems([start]) == {start};
  }

  /** `toVisit.shift()`: the front id becomes the one being explored. */
  lemma PopFront(colors: map<int, int>, done: set<int>, toVisit: seq<int>)
    requires Queue(colors, done, {}, toVisit) && |toVisit| > 0
    ensures Queue(colors, done, {toVisit[0]}, toVisit[1..])
    ensures toVisit[0] in colors && toVisit[0] !in done
  {
    assert Elems(toVisit) == {toVisit[0]} + Elems(toVisit[1..]) by {
      assert toVisit == [toVisit[0]] + toVisit[1..];
    }
    assert toVisit[0] !in Elems(toVisit[1..]) by {
      forall k | 0 <= k < |toVisit[1..]| ensures toVisit[1..][k] != toVisit[0] {
        assert toVisit[1..][k] == toVisit[k + 1];
      }
    }
  }

  /** Colouring a newly reached neighbour with the other colour keeps the parity witnesses. */
  lemma ColourNew(edges: seq<Edge>, directed: bool, start: int, colors: map<int, int>, walks: map<int, seq<int>>,
                  cur: int, n: int)
    requires Colouring(edges, directed, start, colors, walks)
    requires cur in colors && Arc(edges, directed, cur, n) && n !in colors
    ensures Colouring(edges, directed, start, colors[n := 1 - colors[cur]], walks[n := walks[cur] + [n]])
  {
    ArcWalkSnoc(edges, directed, walks[cur], n);
    ArcEnds(edges, directed, cur, n);
  }

  /** A new colour for an uncoloured id changes no colour an explored id's arcs depend on. */
  lemma ExploredGrows(edges: seq<Edge>, directed: bool, colors: map<int, int>, done: set<int>, n: int, c: int)
    requires Explored(edges, directed, colors, done) && n !in colors
    ensures Explored(edges, directed, colors[n := c], done)
  {
  }

  /** `toVisit.push(n)` for a newly coloured n. */
  lemma QueuePush(colors: map<int, int>, done: set<int>, cur: int, toVisit: seq<int>, n: int, c: int)
    requires Queue(colors, done, {cur}, toVisit) && n !in colors
    ensures Queue(colors[n := c], done, {cur}, toVisit + [n])
  {
    DistinctSnoc(toVisit, n);
  }

  /** Once every arc out of the busy id has been checked, it joins the explored ids. */
  lemma FinishNode(edges: seq<Edge>, directed: bool, colors: map<int, int>, done: set<int>, cur: int, toVisit: seq<int>)
    requires Explored(edges, directed, colors, done)
    requires Queue(colors, done, {cur}, toVisit)
    requires forall y :: Arc(edges, directed, cur, y) ==> y in colors && colors[y] != colors[cur]
    ensures Explored(edges, directed, colors, done + {cur})
    ensures Queue(colors, done + {cur}, {}, toVisit)
  {
  }

  /** The ids the traversal can ever colour. */
  ghost function Universe(edges: seq<Edge>, start: int): set<int>
  {
    Ends(edges) + {start}
  }

  /** All that the traversal keeps true, with `busy` the id whose neighbours are being checked. */
  ghost predicate Traversal(edges: seq<Edge>, directed: bool, start: int, colors: map<int, int>,
                            walks: map<int, seq<int>>, done: set<int>, busy: set<int>, toVisit: seq<int>)
  {
    && Colouring(edges, directed, start, colors, walks)
    && Explored(edges, directed, colors, done)
    && Queue(colors, done, busy, toVisit)
  }

  /** One neighbour newly reached: colouring and queueing it keeps the traversal invariant. */
  lemma ColourStep(edges: seq<Edge>, directed: bool, start: int, colors: map<int, int>,
                   walks: map<int, seq<int>>, done: set<int>, cur: int, toVisit: seq<int>, n: int)
    requires Traversal(edges, directed, start, colors, walks, done, {cur}, toVisit)
    requires Arc(edges, directed, cur, n) && n !in colors
    ensures Traversal(edges, directed, start, colors[n := 1 - colors[cur]], walks[n := walks[cur] + [n]],
                      done, {cur}, toVisit + [n])
  {
    ColourNew(edges, directed, start, colors, walks, cur, n);
    ExploredGrows(edges, directed, colors, done, n, 1 - colors[cur]);
    QueuePush(colors, done, cur, toVisit, n, 1 - colors[cur]);
  }

  /** A neighbour already carrying the colour of the current id shows that no 2-colouring exists. */
  lemma ClashStep(edges: seq<Edge>, directed: bool, start: int, colors: map<int, int>,
                  walks: map<int, seq<int>>, cur: int, n: int)
    requires Colouring(edges, directed, start, colors, walks)
    requires cur in colors && n in colors && Arc(edges, directed, cur, n) && colors[n] == colors[cur]
    ensures !BipartiteFrom(edges, directed, start)
  {
    var wa, wb := walks[cur], walks[n];
    assert ArcWalk(edges, directed, wa) && wa[0] == start && wa[|wa| - 1] == cur;
    assert ArcWalk(edges, directed, wb) && wb[0] == start && wb[|wb| - 1] == n;
    assert (|wa| - 1) % 2 == (|wb| - 1) % 2;
    SameParityClash(edges, directed, start, wa, wb);
  }

  /** The first j neighbours of cur are coloured, each with the other colour than cur. */
  ghost predicate Checked(colors: map<int, int>, cur: int, neighbors: seq<int>, j: int)
    requires 0 <= j <= |neighbors|
  {
    forall k :: 0 <= k < j ==> neighbors[k] in colors && cur in colors && colors[neighbors[k]] != colors[cur]
  }

  /** Checking one more neighbour, newly coloured with c or already of the other colour. */
  lemma CheckedStep(colors: map<int, int>, cur: int, neighbors: seq<int>, j: int, c: int)
    requires 0 <= j < |neighbors| && cur in colors && Checked(colors, cur, neighbors, j)
    requires neighbors[j] in colors ==> colors[neighbors[j]] != colors[cur]
    requires neighbors[j] !in colors ==> c != colors[cur]
    ensures neighbors[j] !in colors ==> Checked(colors[neighbors[j] := c], cur, neighbors, j + 1)
    ensures neighbors[j] in colors ==> Checked(colors, cur, neighbors, j + 1)
  {
  }

  /**
   * The `for` loop of `isComponentBipartite` over the neighbours of `curNode`:
   * colours and queues each uncoloured one, and reports a clash as soon as one
   * carries the colour of `curNode`.  Without a clash every arc out of `curNode`
   * ends at an id of the other colour.
   */
  method VisitNeighbors(edges: seq<Edge>, directed: bool, ghost start: int, curNode: int,
                        colors0: map<int, int>, toVisit0: seq<int>, ghost walks0: map<int, seq<int>>, ghost done: set<int>)
    returns (clash: bool, colors: map<int, int>, toVisit: seq<int>, ghost walks: map<int, seq<int>>)
    requires Traversal(edges, directed, start, colors0, walks0, done, {curNode}, toVisit0)
    ensures Traversal(edges, directed, start, colors, walks, done, {curNode}, toVisit)
    ensures clash ==> !BipartiteFrom(edges, directed, start)
    ensures !clash ==> forall y :: Arc(edges, directed, curNode, y) ==> y in colors && colors[y] != colors[curNode]
  {
    colors, toVisit, walks := colors0, toVisit0, walks0;
    clash := false;
    var neighbors := Neighbors(edges, directed, curNode);
    NeighborsMembers(edges, directed, curNode);
    var j := 0;
    while j < |neighbors| && !clash
      invariant 0 <= j <= |neighbors|
      invariant Traversal(edges, directed, start, colors, walks, done, {curNode}, toVisit)
      invariant clash ==> !BipartiteFrom(edges, directed, start)
      invariant !clash ==> Checked(colors, curNode, neighbors, j)
      decreases |neighbors| - j, !clash
    {
      var n := neighbors[j];
      assert Arc(edges, directed, curNode, n);
      if n !in colors {
        ColourStep(edges, directed, start, colors, walks, done, curNode, toVisit, n);
        CheckedStep(colors, curNode, neighbors, j, 1 - colors[curNode]);
        colors := colors[n := 1 - colors[curNode]];
        walks := walks[n := walks[curNode] + [n]];
        toVisit := toVisit + [n];
        j := j + 1;
      } else if colors[n] == colors[curNode] {
        ClashStep(edges, directed, start, colors, walks, curNode, n);
        clash := true;
      } else {
        CheckedStep(colors, curNode, neighbors, j, 0);
        j := j + 1;
      }
    }
    if !clash {
      forall y | Arc(edges, directed, curNode, y) ensures y in colors && colors[y] != colors[curNode] {
        var k :| 0 <= k < |neighbors| && neighbors[k] == y;
      }
    }
  }

  /**
   * `isComponentBipartite`: the traversal from the first id of the component
   * succeeds exactly when what it reaches from there can be 2-coloured.
   */
  method IsComponentBipartite(edges: seq<Edge>, directed: bool, component: seq<int>) returns (ok: bool)
    requires |component| > 0
    ensures ok <==> BipartiteFrom(edges, directed, component[0])
  {
    var start := component[0];
    var colors: map<int, int> := map[start := 0];
    var toVisit := [start];
    ghost var walks: map<int, seq<int>> := map[start := [start]];
    ghost var done: set<int> := {};
    ColouringStart(edges, directed, start);
    while |toVisit| > 0
      invariant Traversal(edges, directed, start, colors, walks, done, {}, toVisit)
      decreases |Universe(edges, start) - done|
    {
      var curNode := toVisit[0];
      PopFront(colors, done, toVisit);
      var clash;
      clash, colors, toVisit, walks := VisitNeighbors(edges, directed, start, curNode, colors, toVisit[1..], walks, done);
      if clash {
        return false;
      }
      FinishNode(edges, directed, colors, done, curNode, toVisit);
      assert curNode in Universe(edges, start) - done;
      done := done + {curNode};
    }
    assert ProperColouring(edges, directed, start, colors);
    return true;
  }

  /** In the undirected view, a 2-colouring that colours a also colours everything connected to a. */
  lemma ColouringCoversClass(edges: seq<Edge>, a: int, b: int, col: map<int, int>)
    requires ProperColouring(edges, false, a, col) && Connected(edges, a, b)
    ensures ProperColouring(edges, false, b, col)
  {
    var w :| Walk(edges, w) && w[0] == a && w[|w| - 1] == b;
    var i := 0;
    while i < |w| - 1
      invariant 0 <= i < |w| && w[i] in col
    {
      assert Step(edges, w[i], w[i + 1]);
      i := i + 1;
    }
  }

  /** Ignoring direction, whether a component can be 2-coloured does not depend on where one starts. */
  lemma BipartiteClassInvariant(edges: seq<Edge>, a: int, b: int)
    requires Connected(edges, a, b)
    ensures BipartiteFrom(edges, false, a) <==> BipartiteFrom(edges, false, b)
  {
    ConnectedSym(edges, a, b);
    if BipartiteFrom(edges, false, a) {
      var col :| ProperColouring(edges, false, a, col);
      ColouringCoversClass(edges, a, b, col);
    }
    if BipartiteFrom(edges, false, b) {
      var col :| ProperColouring(edges, false, b, col);
      ColouringCoversClass(edges, b, a, col);
    }
  }

  /**
   * `isGraphBipartite`: every component returned by `getComponents` passes the
   * traversal from its first id.  Ignoring direction, that holds exactly when the
   * whole graph can be 2-coloured from any node; with arrows shown only what each
   * component's first id reaches along outgoing edges is checked, and that id is the
   * seed `getComponents` picks, fixed by the order of the node store.
   */
  method IsGraphBipartite(g: Graph, directed: bool) returns (ok: bool, ghost comps: seq<seq<int>>)
    requires WellFormed(g)
    ensures IsComponentList(g, comps) && SeededInOrder(Ids(g.nodes), comps)
    ensures ok <==> forall i :: 0 <= i < |comps| ==> BipartiteFrom(g.edges, directed, comps[i][0])
    ensures !directed ==> (ok <==> forall v :: v in IdSet(g.nodes) ==> BipartiteFrom(g.edges, false, v))
  {
    var components := GetComponents(g);
    comps := components;
    ok := true;
    var i := 0;
    while i < |components| && ok
      invariant 0 <= i <= |components|
      invariant forall k :: 0 <= k < i ==> BipartiteFrom(g.edges, directed, comps[k][0])
      invariant !ok ==> i < |comps| && !BipartiteFrom(g.edges, directed, comps[i][0])
      decreases |components| - i, ok
    {
      ok := IsComponentBipartite(g.edges, directed, components[i]);
      if ok {
        i := i + 1;
      }
    }
    if !directed {
      EveryComponentEveryNode(g, comps);
    }
  }

  /** Ignoring direction, the components' first ids pass exactly when every node does. */
  lemma EveryComponentEveryNode(g: Graph, comps: seq<seq<int>>)
    requires IsComponentList(g, comps)
    ensures (forall i :: 0 <= i < |comps| ==> BipartiteFrom(g.edges, false, comps[i][0]))
        <==> (forall v :: v in IdSet(g.nodes) ==> BipartiteFrom(g.edges, false, v))
  {
    if forall i :: 0 <= i < |comps| ==> BipartiteFrom(g.edges, false, comps[i][0]) {
      forall v | v in IdSet(g.nodes) ensures BipartiteFrom(g.edges, false, v) {
        var i :| 0 <= i < |comps| && v in comps[i];
        assert IsComponent(g, comps[i]) && v in Elems(comps[i]);
        BipartiteClassInvariant(g.edges, comps[i][0], v);
      }
    }
    if forall v :: v in IdSet(g.nodes) ==> BipartiteFrom(g.edges, false, v) {
      forall i | 0 <= i < |comps| ensures BipartiteFrom(g.edges, false, comps[i][0]) {
        assert IsComponent(g, comps[i]) && comps[i][0] in Elems(comps[i]);
      }
    }
  }
}
