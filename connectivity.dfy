/**
 * Undirected connectivity, the notion behind `getComponents`: two nodes are in one
 * component when a walk that ignores edge direction joins them.  A walk may also
 * stay where it is for a step, so a self-loop never matters to connectivity.
 */
module Connectivity {
  import opened Graphs

  /** One step of an undirected walk: stay put, or cross an edge in either direction. */
  ghost predicate Step(edges: seq<Edge>, x: int, y: int)
  {
    x == y || Linked(edges, x, y)
  }

  ghost predicate Walk(edges: seq<Edge>, w: seq<int>)
  {
    |w| > 0 && forall i :: 0 <= i < |w| - 1 ==> Step(edges, w[i], w[i + 1])
  }

  ghost predicate Connected(edges: seq<Edge>, a: int, b: int)
  {
    exists w :: Walk(edges, w) && w[0] == a && w[|w| - 1] == b
  }

  /** The component of v: the nodes connected to it. */
  ghost function Class(g: Graph, v: int): set<int>
  {
    set u | u in IdSet(g.nodes) && Connected(g.edges, v, u)
  }

  ghost function Classes(g: Graph): set<set<int>>
  {
    set v | v in IdSet(g.nodes) :: Class(g, v)
  }

  /** How many pieces the graph is in. */
  ghost function NumComponents(g: Graph): nat
  {
    |Classes(g)|
  }

  function Elems(s: seq<int>): set<int>
  {
    set x | x in s
  }

  predicate Distinct(s: seq<int>)
  {
    forall i, j :: 0 <= i < j < |s| ==> s[i] != s[j]
  }

  /** Appending an id not yet in s keeps s free of repeats. */
  lemma DistinctSnoc(s: seq<int>, v: int)
    requires Distinct(s) && v !in s
    ensures Distinct(s + [v]) && Elems(s + [v]) == Elems(s) + {v}
  {
    var s' := s + [v];
    forall i, j | 0 <= i < j < |s'| ensures s'[i] != s'[j] {
      if j == |s| {
        assert s'[i] in s;
      }
    }
  }

  /** No edge leaves the set s. */
  ghost predicate Closed(edges: seq<Edge>, s: set<int>)
  {
    forall u, v :: u in s && Linked(edges, u, v) ==> v in s
  }

  /** A component as `getComponents` reports it: its seed first, no repeats, the whole class. */
  ghost predicate IsComponent(g: Graph, c: seq<int>)
  {
    |c| > 0 && Distinct(c) && Elems(c) == Class(g, c[0])
  }

  /** A list of components that partitions the node ids. */
  ghost predicate IsComponentList(g: Graph, comps: seq<seq<int>>)
  {
    && (forall i :: 0 <= i < |comps| ==> IsComponent(g, comps[i]))
    && (forall i, j :: 0 <= i < j < |comps| ==> Elems(comps[i]) !! Elems(comps[j]))
    && (forall v :: v in IdSet(g.nodes) ==> exists i :: 0 <= i < |comps| && v in comps[i])
  }

  lemma StepSym(edges: seq<Edge>, x: int, y: int)
    requires Step(edges, x, y)
    ensures Step(edges, y, x)
  {
    if x != y {
      var e :| e in edges && Joins(e, x, y);
      assert Joins(e, y, x);
    }
  }

  lemma ConnectedRefl(edges: seq<Edge>, a: int)
    ensures Connected(edges, a, a)
  {
    assert Walk(edges, [a]);
  }

  lemma ConnectedStep(edges: seq<Edge>, a: int, b: int, c: int)
    requires Connected(edges, a, b) && Step(edges, b, c)
    ensures Connected(edges, a, c)
  {
    var w :| Walk(edges, w) && w[0] == a && w[|w| - 1] == b;
    var w' := w + [c];
    forall i | 0 <= i < |w'| - 1
      ensures Step(edges, w'[i], w'[i + 1])
    {
      if i < |w| - 1 {
        assert w'[i] == w[i] && w'[i + 1] == w[i + 1];
      }
    }
    assert Walk(edges, w') && w'[0] == a && w'[|w'| - 1] == c;
  }

  lemma ConnectedSym(edges: seq<Edge>, a: int, b: int)
    requires Connected(edges, a, b)
    ensures Connected(edges, b, a)
  {
    var w :| Walk(edges, w) && w[0] == a && w[|w| - 1] == b;
    var r := seq(|w|, i requires 0 <= i < |w| => w[|w| - 1 - i]);
    forall i | 0 <= i < |r| - 1
      ensures Step(edges, r[i], r[i + 1])
    {
      var k := |w| - 2 - i;
      assert Step(edges, w[k], w[k + 1]);
      StepSym(edges, w[k], w[k + 1]);
    }
    assert Walk(edges, r) && r[0] == b && r[|r| - 1] == a;
  }

  lemma ConnectedTrans(edges: seq<Edge>, a: int, b: int, c: int)
    requires Connected(edges, a, b) && Connected(edges, b, c)
    ensures Connected(edges, a, c)
  {
    var w1 :| Walk(edges, w1) && w1[0] == a && w1[|w1| - 1] == b;
    var w2 :| Walk(edges, w2) && w2[0] == b && w2[|w2| - 1] == c;
    var w := w1 + w2[1..];
    forall i | 0 <= i < |w| - 1
      ensures Step(edges, w[i], w[i + 1])
    {
      if i < |w1| - 1 {
        assert w[i] == w1[i] && w[i + 1] == w1[i + 1];
      } else {
        var k := i - |w1| + 1;
        assert w[i] == w2[k] && w[i + 1] == w2[k + 1];
      }
    }
    assert Walk(edges, w) && w[0] == a && w[|w| - 1] == c;
  }

  lemma InOwnClass(g: Graph, v: int)
    requires v in IdSet(g.nodes)
    ensures v in Class(g, v)
  {
    ConnectedRefl(g.edges, v);
  }

  /** Connected nodes have the same component. */
  lemma SameClass(g: Graph, a: int, b: int)
    requires Connected(g.edges, a, b)
    ensures Class(g, a) == Class(g, b)
  {
    ConnectedSym(g.edges, a, b);
    forall u | u in Class(g, a) ensures u in Class(g, b) {
      ConnectedTrans(g.edges, b, a, u);
    }
    forall u | u in Class(g, b) ensures u in Class(g, a) {
      ConnectedTrans(g.edges, a, b, u);
    }
  }

  /** A set of nodes that no edge leaves holds the whole component of each member. */
  lemma ClosedContainsClass(g: Graph, s: set<int>, v: int)
    requires Closed(g.edges, s) && v in s
    ensures Class(g, v) <= s
  {
    forall u | u in Class(g, v) ensures u in s {
      var w :| Walk(g.edges, w) && w[0] == v && w[|w| - 1] == u;
      var i := 0;
      while i < |w| - 1
        invariant 0 <= i < |w| && w[i] in s
      {
        assert Step(g.edges, w[i], w[i + 1]);
        i := i + 1;
      }
    }
  }

  /** A component list lists exactly the classes of the graph. */
  lemma ComponentListClasses(g: Graph, comps: seq<seq<int>>)
    requires IsComponentList(g, comps)
    ensures (set i | 0 <= i < |comps| :: Elems(comps[i])) == Classes(g)
  {
    var listed := set i | 0 <= i < |comps| :: Elems(comps[i]);
    forall c | c in Classes(g) ensures c in listed {
      var v :| v in IdSet(g.nodes) && c == Class(g, v);
      var i :| 0 <= i < |comps| && v in comps[i];
      assert IsComponent(g, comps[i]);
      assert v in Elems(comps[i]);
      SameClass(g, comps[i][0], v);
      assert c == Elems(comps[i]);
    }
    forall c | c in listed ensures c in Classes(g) {
      var i :| 0 <= i < |comps| && c == Elems(comps[i]);
      assert IsComponent(g, comps[i]);
      var s := comps[i][0];
      assert s in Elems(comps[i]);
      assert s in IdSet(g.nodes) && c == Class(g, s);
    }
  }

  /** Pairwise disjoint, non-empty member sets are pairwise different, so they count once each. */
  lemma {:induction false} DisjointCard(comps: seq<seq<int>>)
    requires forall i :: 0 <= i < |comps| ==> |comps[i]| > 0
    requires forall i, j :: 0 <= i < j < |comps| ==> Elems(comps[i]) !! Elems(comps[j])
    ensures |set i | 0 <= i < |comps| :: Elems(comps[i])| == |comps|
  {
    if |comps| > 0 {
      var t := comps[..|comps| - 1];
      var last := comps[|comps| - 1];
      DisjointCard(t);
      var a := set i | 0 <= i < |t| :: Elems(t[i]);
      var b := set i | 0 <= i < |comps| :: Elems(comps[i]);
      assert b == a + {Elems(last)};
      forall c | c in a ensures c != Elems(last) {
        var i :| 0 <= i < |t| && c == Elems(t[i]);
        assert last[0] in Elems(last);
        assert last[0] !in Elems(comps[i]);
      }
    }
  }

  /**
   * The number of components `getComponents` reports is the number of pieces the
   * graph is in, whatever order the traversal produced them in.
   */
  lemma ComponentListCount(g: Graph, comps: seq<seq<int>>)
    requires IsComponentList(g, comps)
    ensures |comps| == NumComponents(g)
  {
    ComponentListClasses(g, comps);
    DisjointCard(comps);
  }

  /** Two traversals of the same graph report the same components, up to order. */
  lemma ComponentsUnique(g: Graph, c1: seq<seq<int>>, c2: seq<seq<int>>)
    requires IsComponentList(g, c1) && IsComponentList(g, c2)
    ensures (set i | 0 <= i < |c1| :: Elems(c1[i])) == (set i | 0 <= i < |c2| :: Elems(c2[i]))
    ensures |c1| == |c2|
  {
    ComponentListClasses(g, c1);
    ComponentListClasses(g, c2);
    ComponentListCount(g, c1);
    ComponentListCount(g, c2);
  }

  /** Components depend only on which pairs of nodes one step joins. */
  lemma SameStepsSameClasses(g1: Graph, g2: Graph)
    requires g1.nodes == g2.nodes
    requires forall x, y :: Step(g1.edges, x, y) <==> Step(g2.edges, x, y)
    ensures forall v :: Class(g1, v) == Class(g2, v)
    ensures Classes(g1) == Classes(g2)
    ensures NumComponents(g1) == NumComponents(g2)
  {
    forall w ensures Walk(g1.edges, w) <==> Walk(g2.edges, w) {
    }
    forall a, b ensures Connected(g1.edges, a, b) <==> Connected(g2.edges, a, b) {
      if Connected(g1.edges, a, b) {
        var w :| Walk(g1.edges, w) && w[0] == a && w[|w| - 1] == b;
        assert Walk(g2.edges, w);
      }
      if Connected(g2.edges, a, b) {
        var w :| Walk(g2.edges, w) && w[0] == a && w[|w| - 1] == b;
        assert Walk(g1.edges, w);
      }
    }
    forall v ensures Class(g1, v) == Class(g2, v) {
    }
  }

  /** Two edge stores holding the same edges, in any order, give the same components. */
  lemma SameEdgesSameClasses(g1: Graph, g2: Graph)
    requires g1.nodes == g2.nodes
    requires forall e :: e in g1.edges <==> e in g2.edges
    ensures NumComponents(g1) == NumComponents(g2)
  {
    forall x, y ensures Step(g1.edges, x, y) <==> Step(g2.edges, x, y) {
      if Linked(g1.edges, x, y) {
        var e :| e in g1.edges && Joins(e, x, y);
        assert e in g2.edges;
      }
      if Linked(g2.edges, x, y) {
        var e :| e in g2.edges && Joins(e, x, y);
        assert e in g1.edges;
      }
    }
    SameStepsSameClasses(g1, g2);
  }

  lemma {:induction false} UniqueIdsCard(nodes: seq<Node>)
    requires UniqueIds(nodes)
    ensures |IdSet(nodes)| == |nodes|
  {
    if |nodes| > 0 {
      var t, last := nodes[..|nodes| - 1], nodes[|nodes| - 1];
      assert nodes == t + [last];
      assert UniqueIds(t);
      UniqueIdsCard(t);
      assert last.id !in IdSet(t) by {
        forall n | n in t ensures n.id != last.id {
          var k :| 0 <= k < |t| && t[k] == n;
          assert nodes[k] == n;
        }
      }
      assert IdSet(nodes) == IdSet(t) + {last.id};
    }
  }

  lemma {:induction false} DistinctElemsCard(s: seq<int>)
    requires Distinct(s)
    ensures |Elems(s)| == |s|
  {
    if |s| > 0 {
      var t, last := s[..|s| - 1], s[|s| - 1];
      assert s == t + [last];
      assert Distinct(t);
      DistinctElemsCard(t);
      assert last !in Elems(t) by {
        forall x | x in t ensures x != last {
          var k :| 0 <= k < |t| && t[k] == x;
          assert s[k] == x;
        }
      }
      assert Elems(s) == Elems(t) + {last};
    }
  }

  /**
   * With no edges every component is a single node, and there are as many
   * components as nodes.
   */
  lemma NoEdgesSingletons(g: Graph, comps: seq<seq<int>>)
    requires UniqueIds(g.nodes) && g.edges == [] && IsComponentList(g, comps)
    ensures forall i :: 0 <= i < |comps| ==> |comps[i]| == 1
    ensures |comps| == |g.nodes|
  {
    forall v, u | Connected(g.edges, v, u) ensures u == v {
      var w :| Walk(g.edges, w) && w[0] == v && w[|w| - 1] == u;
      var i := 0;
      while i < |w| - 1
        invariant 0 <= i < |w| && w[i] == v
      {
        assert Step(g.edges, w[i], w[i + 1]);
        i := i + 1;
      }
    }
    forall i | 0 <= i < |comps| ensures |comps[i]| == 1 {
      var c := comps[i];
      assert Elems(c) == Class(g, c[0]);
      forall u | u in Class(g, c[0]) ensures u == c[0] {
      }
      assert Elems(c) == {c[0]};
      DistinctElemsCard(c);
    }
    var firsts := seq(|comps|, i requires 0 <= i < |comps| => comps[i][0]);
    forall i, j | 0 <= i < j < |firsts| ensures firsts[i] != firsts[j] {
      assert firsts[i] in Elems(comps[i]) && firsts[j] in Elems(comps[j]);
    }
    forall v | v in IdSet(g.nodes) ensures v in Elems(firsts) {
      var i :| 0 <= i < |comps| && v in comps[i];
      assert v in Elems(comps[i]);
      assert firsts[i] == v;
    }
    forall v | v in Elems(firsts) ensures v in IdSet(g.nodes) {
      var i :| 0 <= i < |firsts| && firsts[i] == v;
      assert v in Elems(comps[i]);
    }
    assert Elems(firsts) == IdSet(g.nodes);
    DistinctElemsCard(firsts);
    UniqueIdsCard(g.nodes);
  }
}
