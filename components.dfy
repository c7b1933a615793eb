/**
 * `getComponents` (analyze.js; scripts.js holds an identical copy): repeatedly
 * takes the last unassigned node id as a seed, collects everything reachable from
 * it with a stack of nodes still to visit, and drops the collected ids from the
 * unassigned list.
 */
module Components {
  import opened Graphs
  import opened Connectivity

  /** `nodes.get().map(n => n.id)` */
  function Ids(nodes: seq<Node>): (r: seq<int>)
    ensures |r| == |nodes|
    ensures forall i :: 0 <= i < |nodes| ==> r[i] == nodes[i].id
  {
    seq(|nodes|, i requires 0 <= i < |nodes| => nodes[i].id)
  }

  /** `allNodes.filter(n => !curComponent.includes(n))` */
  function FilterOut(s: seq<int>, c: seq<int>): (r: seq<int>)
    ensures |r| <= |s|
  {
    if s == [] then []
    else (if s[0] in c then [] else [s[0]]) + FilterOut(s[1..], c)
  }

  lemma {:induction false} FilterOutMembers(s: seq<int>, c: seq<int>)
    ensures forall x :: x in FilterOut(s, c) <==> x in s && x !in c
    decreases |s|
  {
    if s != [] {
      FilterOutMembers(s[1..], c);
      assert forall x :: x in s <==> x == s[0] || x in s[1..];
    }
  }

  /** An id at an end of an edge of a well-formed graph is a node id. */
  lemma LinkedIsNode(g: Graph, u: int, w: int)
    requires WellFormed(g) && Linked(g.edges, u, w)
    ensures w in IdSet(g.nodes)
  {
    var e :| e in g.edges && Joins(e, u, w);
    var n :| n in g.nodes && n.id == w;
  }

  /** Every x in a component that meets the class of `seed` puts `seed` in that component. */
  lemma MeetsClass(g: Graph, c: seq<int>, seed: int)
    requires IsComponent(g, c) && seed in IdSet(g.nodes)
    ensures forall x :: x in Elems(c) && x in Class(g, seed) ==> seed in Elems(c)
  {
    forall x | x in Elems(c) && x in Class(g, seed) ensures seed in Elems(c) {
      ConnectedSym(g.edges, seed, x);
      ConnectedTrans(g.edges, c[0], x, seed);
    }
  }

  /**
   * What the inner loop of `getComponents` keeps true: the collected ids have no
   * repeats and start with the seed; collected and pending ids are nodes connected
   * to the seed; and every neighbour of a collected id is collected or pending.
   */
  ghost predicate Collecting(g: Graph, seed: int, cur: seq<int>, toVisit: seq<int>)
  {
    && Distinct(cur)
    && (|cur| > 0 ==> cur[0] == seed)
    && (|cur| == 0 ==> toVisit == [seed])
    && (forall x :: x in cur ==> x in IdSet(g.nodes) && Connected(g.edges, seed, x))
    && (forall x :: x in toVisit ==> x in IdSet(g.nodes) && Connected(g.edges, seed, x))
    && (forall u, w :: u in cur && Linked(g.edges, u, w) ==> w in cur || w in toVisit)
  }

  lemma CollectStart(g: Graph, seed: int)
    requires seed in IdSet(g.nodes)
    ensures Collecting(g, seed, [], [seed])
  {
    ConnectedRefl(g.edges, seed);
  }

  /** Popping an id that is already collected keeps the loop invariant. */
  lemma SkipStep(g: Graph, seed: int, cur: seq<int>, toVisit: seq<int>)
    requires Collecting(g, seed, cur, toVisit) && |toVisit| > 0 && toVisit[|toVisit| - 1] in cur
    ensures Collecting(g, seed, cur, toVisit[..|toVisit| - 1])
  {
    var last := toVisit[|toVisit| - 1];
    assert forall x :: x in toVisit ==> x == last || x in toVisit[..|toVisit| - 1] by {
      assert toVisit == toVisit[..|toVisit| - 1] + [last];
    }
  }

  /** Collecting a popped id and pushing its neighbours keeps the loop invariant. */
  lemma VisitStep(g: Graph, seed: int, cur: seq<int>, toVisit: seq<int>)
    requires WellFormed(g)
    requires Collecting(g, seed, cur, toVisit) && |toVisit| > 0 && toVisit[|toVisit| - 1] !in cur
    ensures var v := toVisit[|toVisit| - 1];
      Collecting(g, seed, cur + [v], toVisit[..|toVisit| - 1] + ConnectedNodes(g.edges, v))
  {
    var v := toVisit[|toVisit| - 1];
    var rest := toVisit[..|toVisit| - 1];
    var next := ConnectedNodes(g.edges, v);
    assert toVisit == rest + [v];
    ConnectedNodesMembers(g.edges, v);
    forall w | w in next ensures w in IdSet(g.nodes) && Connected(g.edges, seed, w) {
      LinkedIsNode(g, v, w);
      ConnectedStep(g.edges, seed, v, w);
    }
    DistinctSnoc(cur, v);
  }

  /** Collecting a new node id leaves fewer node ids uncollected. */
  lemma VisitShrinks(g: Graph, cur: seq<int>, v: int)
    requires v in IdSet(g.nodes) && v !in cur
    ensures |IdSet(g.nodes) - Elems(cur + [v])| < |IdSet(g.nodes) - Elems(cur)|
  {
    assert IdSet(g.nodes) - Elems(cur + [v]) == (IdSet(g.nodes) - Elems(cur)) - {v};
  }

  lemma CollectDone(g: Graph, seed: int, cur: seq<int>)
    requires Collecting(g, seed, cur, [])
    ensures IsComponent(g, cur) && cur[0] == seed
  {
    assert Closed(g.edges, Elems(cur));
    ClosedContainsClass(g, Elems(cur), seed);
  }

  /**
   * The inner loop of `getComponents`: pops ids off `toVisit`, skips those already
   * collected, and pushes the neighbours of each newly collected id.  The result
   * starts with the seed, has no repeats and is exactly the seed's component.
   */
  method CollectComponent(g: Graph, seed: int) returns (cur: seq<int>)
    requires WellFormed(g) && seed in IdSet(g.nodes)
    ensures IsComponent(g, cur) && cur[0] == seed
  {
    cur := [];
    var toVisit := [seed];
    CollectStart(g, seed);
    while |toVisit| > 0
      invariant Collecting(g, seed, cur, toVisit)
      decreases |IdSet(g.nodes) - Elems(cur)|, |toVisit|
    {
      var curNode := toVisit[|toVisit| - 1];
      if curNode in cur {
        SkipStep(g, seed, cur, toVisit);
        toVisit := toVisit[..|toVisit| - 1];
        continue;
      }
      VisitStep(g, seed, cur, toVisit);
      VisitShrinks(g, cur, curNode);
      toVisit := toVisit[..|toVisit| - 1] + ConnectedNodes(g.edges, curNode);
      cur := cur + [curNode];
    }
    CollectDone(g, seed, cur);
  }

  /** The ids not yet assigned to a component: the outer loop's invariant. */
  ghost predicate Assigning(g: Graph, allNodes: seq<int>, comps: seq<seq<int>>)
  {
    && Unassigned(g, allNodes, comps)
    && (forall i :: 0 <= i < |comps| ==> IsComponent(g, comps[i]))
    && PairwiseDisjoint(comps)
  }

  /** `allNodes` holds exactly the node ids in none of the components found so far. */
  ghost predicate Unassigned(g: Graph, allNodes: seq<int>, comps: seq<seq<int>>)
  {
    forall v :: v in allNodes <==> v in IdSet(g.nodes) && forall i :: 0 <= i < |comps| ==> v !in Elems(comps[i])
  }

  ghost predicate PairwiseDisjoint(comps: seq<seq<int>>)
  {
    forall i, j :: 0 <= i < j < |comps| ==> Elems(comps[i]) !! Elems(comps[j])
  }

  /** Adding the component of the last unassigned id and filtering it out keeps the invariant. */
  lemma AssignStep(g: Graph, allNodes: seq<int>, comps: seq<seq<int>>, cur: seq<int>)
    requires Assigning(g, allNodes, comps) && |allNodes| > 0
    requires IsComponent(g, cur) && cur[0] == allNodes[|allNodes| - 1]
    ensures Assigning(g, FilterOut(allNodes[..|allNodes| - 1], cur), comps + [cur])
  {
    var seed := allNodes[|allNodes| - 1];
    assert seed in allNodes;
    AssignDisjoint(g, comps, cur);
    AssignUnassigned(g, allNodes, comps, cur);
    var comps' := comps + [cur];
    assert forall i :: 0 <= i < |comps| ==> comps'[i] == comps[i];
  }

  /** A component whose seed is in no earlier component is disjoint from all of them. */
  lemma AssignDisjoint(g: Graph, comps: seq<seq<int>>, cur: seq<int>)
    requires forall i :: 0 <= i < |comps| ==> IsComponent(g, comps[i])
    requires PairwiseDisjoint(comps) && IsComponent(g, cur) && cur[0] in IdSet(g.nodes)
    requires forall i :: 0 <= i < |comps| ==> cur[0] !in Elems(comps[i])
    ensures PairwiseDisjoint(comps + [cur])
  {
    var comps' := comps + [cur];
    assert cur[0] in Elems(cur);
    forall i | 0 <= i < |comps| ensures Elems(comps[i]) !! Elems(cur) {
      MeetsClass(g, comps[i], cur[0]);
    }
    forall i, j | 0 <= i < j < |comps'| ensures Elems(comps'[i]) !! Elems(comps'[j]) {
      assert comps'[i] == comps[i];
      if j < |comps| {
        assert comps'[j] == comps[j];
      }
    }
  }

  /** Filtering out the new component leaves exactly the ids in no component. */
  lemma AssignUnassigned(g: Graph, allNodes: seq<int>, comps: seq<seq<int>>, cur: seq<int>)
    requires Unassigned(g, allNodes, comps) && |allNodes| > 0
    requires |cur| > 0 && cur[0] == allNodes[|allNodes| - 1]
    ensures Unassigned(g, FilterOut(allNodes[..|allNodes| - 1], cur), comps + [cur])
  {
    var seed, rest := allNodes[|allNodes| - 1], allNodes[..|allNodes| - 1];
    assert allNodes == rest + [seed];
    var comps' := comps + [cur];
    FilterOutMembers(rest, cur);
    forall v ensures v in FilterOut(rest, cur) <==>
      v in IdSet(g.nodes) && forall i :: 0 <= i < |comps'| ==> v !in Elems(comps'[i])
    {
      assert forall i :: 0 <= i < |comps| ==> comps'[i] == comps[i];
      assert comps'[|comps|] == cur;
      if v in allNodes && v !in Elems(cur) {
        assert v != seed;
      }
    }
  }

  /**
   * The unassigned list `allNodes` after the outer loop has produced `comps`: each
   * round pops the last id and filters out the component collected from it.
   */
  ghost function Remaining(ids: seq<int>, comps: seq<seq<int>>): seq<int>
    decreases |comps|
  {
    if comps == [] then ids
    else
      var before := Remaining(ids, comps[..|comps| - 1]);
      if before == [] then [] else FilterOut(before[..|before| - 1], comps[|comps| - 1])
  }

  /** Every component is seeded by the last id still unassigned when its round began. */
  ghost predicate SeededInOrder(ids: seq<int>, comps: seq<seq<int>>)
    decreases |comps|
  {
    comps == [] ||
      var before := Remaining(ids, comps[..|comps| - 1]);
      && SeededInOrder(ids, comps[..|comps| - 1])
      && |before| > 0 && |comps[|comps| - 1]| > 0
      && comps[|comps| - 1][0] == before[|before| - 1]
  }

  /** The seeding order holds for every prefix, so component k was seeded from the ids left by the first k. */
  lemma {:induction false} SeededAt(ids: seq<int>, comps: seq<seq<int>>, k: nat)
    requires SeededInOrder(ids, comps) && k < |comps|
    ensures var before := Remaining(ids, comps[..k]);
      |before| > 0 && |comps[k]| > 0 && comps[k][0] == before[|before| - 1]
    decreases |comps|
  {
    var last := |comps| - 1;
    if k < last {
      SeededAt(ids, comps[..last], k);
      assert comps[..last][..k] == comps[..k] && comps[..last][k] == comps[k];
    }
  }

  /** One round of the outer loop extends the seeding order by the new component. */
  lemma SeededStep(ids: seq<int>, comps: seq<seq<int>>, cur: seq<int>)
    requires SeededInOrder(ids, comps)
    requires var r := Remaining(ids, comps); |r| > 0 && |cur| > 0 && cur[0] == r[|r| - 1]
    ensures var r := Remaining(ids, comps);
      Remaining(ids, comps + [cur]) == FilterOut(r[..|r| - 1], cur)
    ensures SeededInOrder(ids, comps + [cur])
  {
    assert (comps + [cur])[..|comps|] == comps;
  }

  /** One round of the outer loop keeps both its invariant and the seeding order. */
  lemma OuterStep(g: Graph, allNodes: seq<int>, comps: seq<seq<int>>, cur: seq<int>)
    requires Assigning(g, allNodes, comps) && |allNodes| > 0
    requires allNodes == Remaining(Ids(g.nodes), comps) && SeededInOrder(Ids(g.nodes), comps)
    requires IsComponent(g, cur) && cur[0] == allNodes[|allNodes| - 1]
    ensures var allNodes' := FilterOut(allNodes[..|allNodes| - 1], cur);
      && Assigning(g, allNodes', comps + [cur])
      && allNodes' == Remaining(Ids(g.nodes), comps + [cur])
      && SeededInOrder(Ids(g.nodes), comps + [cur])
  {
    AssignStep(g, allNodes, comps, cur);
    SeededStep(Ids(g.nodes), comps, cur);
  }

  /** Filtering against two lists with the same elements gives the same result. */
  lemma {:induction false} FilterOutElems(s: seq<int>, c1: seq<int>, c2: seq<int>)
    requires Elems(c1) == Elems(c2)
    ensures FilterOut(s, c1) == FilterOut(s, c2)
    decreases |s|
  {
    if s != [] {
      assert (s[0] in c1) == (s[0] in Elems(c1));
      assert (s[0] in c2) == (s[0] in Elems(c2));
      FilterOutElems(s[1..], c1, c2);
    }
  }

  /** Component lists that agree as sets up to round n leave the same ids unassigned. */
  lemma {:induction false} RemainingAgree(ids: seq<int>, c1: seq<seq<int>>, c2: seq<seq<int>>, n: nat)
    requires n <= |c1| && n <= |c2|
    requires forall k :: 0 <= k < n ==> Elems(c1[k]) == Elems(c2[k])
    ensures Remaining(ids, c1[..n]) == Remaining(ids, c2[..n])
    decreases n
  {
    if n > 0 {
      assert c1[..n][..n - 1] == c1[..n - 1];
      assert c2[..n][..n - 1] == c2[..n - 1];
      RemainingAgree(ids, c1, c2, n - 1);
      var before := Remaining(ids, c1[..n - 1]);
      if before != [] {
        FilterOutElems(before[..|before| - 1], c1[n - 1], c2[n - 1]);
      }
    }
  }

  /** Two components seeded from the same unassigned list have the same seed and members. */
  lemma SameSeedSameComponent(g: Graph, before: seq<int>, a: seq<int>, b: seq<int>)
    requires IsComponent(g, a) && IsComponent(g, b) && |before| > 0
    requires a[0] == before[|before| - 1] && b[0] == before[|before| - 1]
    ensures a[0] == b[0] && Elems(a) == Elems(b)
  {
  }

  /**
   * Partitions seeded in the order of `getComponents` agree round by round: the
   * same seeds and the same components.  So the list, and each component's first
   * id, is fixed by the graph and the order of its node store.
   */
  lemma {:induction false} SeededComponentsAgree(g: Graph, c1: seq<seq<int>>, c2: seq<seq<int>>, n: nat)
    requires forall k :: 0 <= k < |c1| ==> |c1[k]| > 0 && IsComponent(g, c1[k])
    requires forall k :: 0 <= k < |c2| ==> |c2[k]| > 0 && IsComponent(g, c2[k])
    requires SeededInOrder(Ids(g.nodes), c1) && SeededInOrder(Ids(g.nodes), c2)
    requires n <= |c1| && n <= |c2|
    ensures forall k :: 0 <= k < n ==> c1[k][0] == c2[k][0] && Elems(c1[k]) == Elems(c2[k])
    decreases n
  {
    if n > 0 {
      var k := n - 1;
      SeededComponentsAgree(g, c1, c2, k);
      RemainingAgree(Ids(g.nodes), c1, c2, k);
      SeededAt(Ids(g.nodes), c1, k);
      SeededAt(Ids(g.nodes), c2, k);
      SameSeedSameComponent(g, Remaining(Ids(g.nodes), c1[..k]), c1[k], c2[k]);
    }
  }

  /** Two runs of `getComponents` on the same stores give the same seeds and components. */
  lemma ComponentsDetermined(g: Graph, c1: seq<seq<int>>, c2: seq<seq<int>>)
    requires IsComponentList(g, c1) && SeededInOrder(Ids(g.nodes), c1)
    requires IsComponentList(g, c2) && SeededInOrder(Ids(g.nodes), c2)
    ensures |c1| == |c2|
    ensures forall k :: 0 <= k < |c1| ==> c1[k][0] == c2[k][0] && Elems(c1[k]) == Elems(c2[k])
  {
    ComponentListCount(g, c1);
    ComponentListCount(g, c2);
    SeededComponentsAgree(g, c1, c2, |c1|);
  }

  /**
   * `getComponents`: the components, one per class of the graph, each listed from
   * its seed; they are pairwise disjoint and cover every node, and each seed is the
   * last id of the store not yet assigned when its round began.
   */
  method GetComponents(g: Graph) returns (comps: seq<seq<int>>)
    requires WellFormed(g)
    ensures IsComponentList(g, comps)
    ensures SeededInOrder(Ids(g.nodes), comps)
    ensures |comps| == NumComponents(g)
  {
    var allNodes := Ids(g.nodes);
    comps := [];
    assert forall v :: v in allNodes <==> v in IdSet(g.nodes) by {
      forall v | v in IdSet(g.nodes) ensures v in allNodes {
        var k :| 0 <= k < |g.nodes| && g.nodes[k].id == v;
        assert allNodes[k] == v;
      }
    }
    while |allNodes| > 0
      invariant Assigning(g, allNodes, comps)
      invariant allNodes == Remaining(Ids(g.nodes), comps) && SeededInOrder(Ids(g.nodes), comps)
      decreases |allNodes|
    {
      var cur := CollectComponent(g, allNodes[|allNodes| - 1]);
      OuterStep(g, allNodes, comps, cur);
      allNodes := FilterOut(allNodes[..|allNodes| - 1], cur);
      comps := comps + [cur];
    }
    ComponentListCount(g, comps);
  }
}
