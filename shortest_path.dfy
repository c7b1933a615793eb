/**
 * `dijkstra` (analyze.js; scripts.js holds an identical copy).  After checking that
 * some component holds both endpoints, it builds an adjacency object from the edge
 * store (both directions unless arrows are on, every weight 1 because no edge ever
 * gets a `value`), runs Dijkstra's algorithm with a linear minimum scan over a queue
 * of every edge end, stops when the target is taken off the queue, and follows the
 * `previous` links back from the target.  The highlighting of the result is not
 * modelled.
 */
module ShortestPath {
  import opened Graphs
  import opened Connectivity
  import opened Components

  // ---------------------------------------------------------------------------
  // Distances: a natural number or JavaScript's Infinity.

  datatype Dist = Fin(n: nat) | Infinity

  /** `a < b` on numbers that may be Infinity. */
  predicate Less(a: Dist, b: Dist)
  {
    a.Fin? && (b.Infinity? || a.n < b.n)
  }

  /** `d + 1`, with `Infinity + 1 == Infinity`. */
  function Plus1(d: Dist): Dist
  {
    if d.Fin? then Fin(d.n + 1) else Infinity
  }

  /** a is finite and at most n. */
  predicate AtMost(a: Dist, n: int)
  {
    a.Fin? && a.n <= n
  }

  // ---------------------------------------------------------------------------
  // The order of `Object.keys`: keys that are array indices (integers from 0 to
  // 2^32 - 2) come first in ascending order, then the others in insertion order.

  predicate IsArrayIndex(k: int)
  {
    0 <= k < 0xFFFF_FFFF
  }

  predicate Ascending(s: seq<int>)
  {
    forall i, j :: 0 <= i < j < |s| ==> s[i] < s[j]
  }

  /** Puts x into an ascending sequence, after the smaller elements. */
  function InsertAscending(s: seq<int>, x: int): (r: seq<int>)
    ensures |r| == |s| + 1
  {
    if s == [] || x <= s[0] then [x] + s else [s[0]] + InsertAscending(s[1..], x)
  }

  lemma ElemsCons(a: int, s: seq<int>)
    ensures Elems([a] + s) == {a} + Elems(s)
  {
    assert forall y :: y in [a] + s <==> y == a || y in s;
  }

  /** A number below every element of an ascending sequence can go in front. */
  lemma AscendingCons(a: int, s: seq<int>)
    requires Ascending(s) && forall y :: y in s ==> a < y
    ensures Ascending([a] + s)
  {
    forall i, j | 0 <= i < j < |[a] + s| ensures ([a] + s)[i] < ([a] + s)[j] {
      assert ([a] + s)[j] == s[j - 1];
      assert s[j - 1] in s;
    }
  }

  /** In an ascending sequence, the head is below every later element. */
  lemma AscendingHead(s: seq<int>)
    requires Ascending(s) && s != []
    ensures Ascending(s[1..]) && forall y :: y in s[1..] ==> s[0] < y
  {
    forall y | y in s[1..] ensures s[0] < y {
      var k :| 0 <= k < |s[1..]| && s[1..][k] == y;
      assert s[k + 1] == y;
    }
  }

  lemma {:induction false} InsertAscendingElems(s: seq<int>, x: int)
    ensures Elems(InsertAscending(s, x)) == Elems(s) + {x}
    decreases |s|
  {
    if s == [] || x <= s[0] {
      ElemsCons(x, s);
    } else {
      InsertAscendingElems(s[1..], x);
      ElemsCons(s[0], InsertAscending(s[1..], x));
      ElemsCons(s[0], s[1..]);
      assert s == [s[0]] + s[1..];
    }
  }

  lemma {:induction false} InsertAscendingProps(s: seq<int>, x: int)
    requires Ascending(s) && x !in s
    ensures Ascending(InsertAscending(s, x))
    ensures Elems(InsertAscending(s, x)) == Elems(s) + {x}
    decreases |s|
  {
    InsertAscendingElems(s, x);
    if s != [] {
      AscendingHead(s);
    }
    if s == [] || x <= s[0] {
      AscendingCons(x, s);
    } else {
      assert s == [s[0]] + s[1..];
      InsertAscendingProps(s[1..], x);
      var r := InsertAscending(s[1..], x);
      assert forall y :: y in r ==> y in Elems(r);
      AscendingCons(s[0], r);
    }
  }

  /** The array-index keys of `inserted`, ascending. */
  function SortedIndexKeys(inserted: seq<int>): seq<int>
  {
    if inserted == [] then []
    else
      var init, last := inserted[..|inserted| - 1], inserted[|inserted| - 1];
      if IsArrayIndex(last) then InsertAscending(SortedIndexKeys(init), last) else SortedIndexKeys(init)
  }

  /** The other keys of `inserted`, in insertion order. */
  function OtherKeys(inserted: seq<int>): seq<int>
  {
    if inserted == [] then []
    else
      var init, last := inserted[..|inserted| - 1], inserted[|inserted| - 1];
      OtherKeys(init) + (if IsArrayIndex(last) then [] else [last])
  }

  /** `Object.keys(graph).map(Number)` for keys created in the order `inserted`. */
  function ObjectKeys(inserted: seq<int>): seq<int>
  {
    SortedIndexKeys(inserted) + OtherKeys(inserted)
  }

  lemma {:induction false} SortedIndexKeysProps(inserted: seq<int>)
    requires Distinct(inserted)
    ensures Ascending(SortedIndexKeys(inserted))
    ensures Elems(SortedIndexKeys(inserted)) == set x | x in inserted && IsArrayIndex(x)
    decreases |inserted|
  {
    if inserted != [] {
      var init, last := inserted[..|inserted| - 1], inserted[|inserted| - 1];
      assert inserted == init + [last];
      assert Distinct(init);
      SortedIndexKeysProps(init);
      if IsArrayIndex(last) {
        assert last !in SortedIndexKeys(init) by {
          assert last !in Elems(SortedIndexKeys(init)) by {
            forall k | 0 <= k < |init| ensures init[k] != last {
              assert inserted[k] == init[k];
            }
          }
        }
        InsertAscendingProps(SortedIndexKeys(init), last);
      }
    }
  }

  lemma {:induction false} OtherKeysProps(inserted: seq<int>)
    requires Distinct(inserted)
    ensures Distinct(OtherKeys(inserted))
    ensures Elems(OtherKeys(inserted)) == set x | x in inserted && !IsArrayIndex(x)
    decreases |inserted|
  {
    if inserted != [] {
      var init, last := inserted[..|inserted| - 1], inserted[|inserted| - 1];
      assert inserted == init + [last];
      assert Distinct(init);
      OtherKeysProps(init);
      var o := OtherKeys(init);
      assert (set x | x in inserted && !IsArrayIndex(x))
          == (set x | x in init && !IsArrayIndex(x)) + (if IsArrayIndex(last) then {} else {last});
      if !IsArrayIndex(last) {
        assert last !in Elems(o) by {
          forall k | 0 <= k < |init| ensures init[k] != last {
            assert inserted[k] == init[k];
          }
        }
        assert Elems(o + [last]) == Elems(o) + {last};
        forall i, j | 0 <= i < j < |o + [last]| ensures (o + [last])[i] != (o + [last])[j] {
          if j == |o| {
            assert (o + [last])[i] in Elems(o);
          }
        }
      }
    }
  }

  lemma AscendingDistinct(s: seq<int>)
    requires Ascending(s)
    ensures Distinct(s)
  {
  }

  /** The queue holds every key exactly once. */
  lemma ObjectKeysProps(inserted: seq<int>)
    requires Distinct(inserted)
    ensures Distinct(ObjectKeys(inserted))
    ensures Elems(ObjectKeys(inserted)) == Elems(inserted)
  {
    var a, b := SortedIndexKeys(inserted), OtherKeys(inserted);
    SortedIndexKeysProps(inserted);
    OtherKeysProps(inserted);
    AscendingDistinct(a);
    assert Elems(a + b) == Elems(a) + Elems(b);
    forall i, j | 0 <= i < j < |a + b| ensures (a + b)[i] != (a + b)[j] {
      if i < |a| && j >= |a| {
        assert (a + b)[i] in Elems(a) && (a + b)[j] in Elems(b);
      }
    }
  }

  // ---------------------------------------------------------------------------
  // The adjacency object `graph`.

  /** The ids `graph[x]` lists after the edges have been scanned: the heads of arcs out of x. */
  function HeadsOf(edges: seq<Edge>, directed: bool, x: int): set<int>
  {
    if edges == [] then {} else HeadsOf(edges[..|edges| - 1], directed, x) + Added(edges[|edges| - 1], directed, x)
  }

  /** What one edge adds under key x: its `to` when x is its `from`, and its `from` when x is its `to` and arrows are off. */
  function Added(e: Edge, directed: bool, x: int): set<int>
  {
    (if e.from == x then {e.to} else {}) + (if !directed && e.to == x then {e.from} else {})
  }

  lemma HeadsOfSnoc(prefix: seq<Edge>, e: Edge, directed: bool, x: int)
    ensures HeadsOf(prefix + [e], directed, x) == HeadsOf(prefix, directed, x) + Added(e, directed, x)
  {
    assert (prefix + [e])[..|prefix|] == prefix;
  }

  /** Adding the `to` under `from` and, unless directed, the `from` under `to`. */
  method ListArcs(both: map<int, set<int>>, e: Edge, directed: bool) returns (after: map<int, set<int>>)
    requires e.from in both && e.to in both
    ensures after.Keys == both.Keys
    ensures forall y :: y in after ==> after[y] == both[y] + Added(e, directed, y)
  {
    after := both[e.from := both[e.from] + {e.to}];
    if !directed {
      after := after[e.to := after[e.to] + {e.from}];
    }
  }

  /** `graph[x]` lists y exactly when an arc leads from x to y. */
  lemma {:induction false} HeadsOfMembers(edges: seq<Edge>, directed: bool, x: int)
    ensures forall y :: y in HeadsOf(edges, directed, x) <==> Arc(edges, directed, x, y)
    decreases |edges|
  {
    if edges != [] {
      var init := edges[..|edges| - 1];
      HeadsOfMembers(init, directed, x);
      assert edges == init + [edges[|edges| - 1]];
    }
  }

  /** An id at no edge end is the tail of no arc. */
  lemma {:induction false} HeadsOfOutside(edges: seq<Edge>, directed: bool, x: int)
    requires x !in Ends(edges)
    ensures HeadsOf(edges, directed, x) == {}
    decreases |edges|
  {
    if edges != [] {
      var init := edges[..|edges| - 1];
      assert edges == init + [edges[|edges| - 1]];
      assert x !in Ends(init) by {
        assert forall e :: e in init ==> e in edges;
      }
      HeadsOfOutside(init, directed, x);
    }
  }

  lemma EndsSnoc(edges: seq<Edge>, e: Edge)
    ensures Ends(edges + [e]) == Ends(edges) + {e.from, e.to}
  {
    assert forall f :: f in edges + [e] <==> f in edges || f == e;
  }

  /**
   * `graph` lists every edge end as a key, and y under x exactly when an arc leads
   * from x to y (every weight being 1, only the keys matter).
   */
  ghost predicate Adjacency(edges: seq<Edge>, directed: bool, graph: map<int, set<int>>)
  {
    && graph.Keys == Ends(edges)
    && forall x, y :: x in graph ==> (y in graph[x] <==> Arc(edges, directed, x, y))
  }

  /** The adjacency object as the scan of the edges builds it. */
  ghost predicate Scanned(edges: seq<Edge>, directed: bool, graph: map<int, set<int>>)
  {
    && graph.Keys == Ends(edges)
    && forall x :: x in graph ==> graph[x] == HeadsOf(edges, directed, x)
  }

  /**
   * One edge scanned: its ends become keys (`keyed` after `from`, `both` after `to`),
   * and its head (and its tail, unless directed) are listed.
   */
  lemma ScanStep(prefix: seq<Edge>, e: Edge, directed: bool,
                 before: map<int, set<int>>, keyed: map<int, set<int>>, both: map<int, set<int>>, after: map<int, set<int>>)
    requires Scanned(prefix, directed, before)
    requires keyed.Keys == before.Keys + {e.from}
    requires forall y :: y in keyed ==> keyed[y] == if y in before then before[y] else {}
    requires both.Keys == keyed.Keys + {e.to}
    requires forall y :: y in both ==> both[y] == if y in keyed then keyed[y] else {}
    requires after.Keys == both.Keys
    requires forall y :: y in after ==> after[y] == both[y] + Added(e, directed, y)
    ensures Scanned(prefix + [e], directed, after)
  {
    var edges := prefix + [e];
    EndsSnoc(prefix, e);
    forall x | x in after ensures after[x] == HeadsOf(edges, directed, x) {
      var base := if x in before then before[x] else {};
      if x !in before {
        HeadsOfOutside(prefix, directed, x);
      }
      assert x in both && both[x] == base;
      HeadsOfSnoc(prefix, e, directed, x);
    }
  }

  lemma PrefixSnoc<T>(s: seq<T>, j: int)
    requires 0 <= j < |s|
    ensures s[..j + 1] == s[..j] + [s[j]]
  {
  }

  /**
   * The order in which the scan makes keys of `graph`: for each edge in turn its
   * `from`, then its `to`, each the first time it appears.
   */
  function KeyOrder(edges: seq<Edge>): seq<int>
    decreases |edges|
  {
    if edges == [] then []
    else
      var before := KeyOrder(edges[..|edges| - 1]);
      var e := edges[|edges| - 1];
      var withFrom := if e.from in before then before else before + [e.from];
      if e.to in withFrom then withFrom else withFrom + [e.to]
  }

  /** The key order lists every edge end, each exactly once. */
  lemma {:induction false} KeyOrderProps(edges: seq<Edge>)
    ensures Distinct(KeyOrder(edges)) && Elems(KeyOrder(edges)) == Ends(edges)
    decreases |edges|
  {
    if edges != [] {
      var init, e := edges[..|edges| - 1], edges[|edges| - 1];
      KeyOrderProps(init);
      assert edges == init + [e];
      EndsSnoc(init, e);
      var before := KeyOrder(init);
      var withFrom := if e.from in before then before else before + [e.from];
      if e.from !in before {
        DistinctSnoc(before, e.from);
      }
      if e.to !in withFrom {
        DistinctSnoc(withFrom, e.to);
      }
    }
  }

  /** `if (!graph[x]) graph[x] = {}`, noting when x became a key. */
  method AddKey(graph0: map<int, set<int>>, inserted0: seq<int>, x: int)
    returns (graph: map<int, set<int>>, inserted: seq<int>)
    requires Distinct(inserted0) && Elems(inserted0) == graph0.Keys
    ensures Distinct(inserted) && Elems(inserted) == graph.Keys
    ensures inserted == if x in inserted0 then inserted0 else inserted0 + [x]
    ensures graph.Keys == graph0.Keys + {x}
    ensures forall y :: y in graph ==> graph[y] == if y in graph0 then graph0[y] else {}
  {
    graph, inserted := graph0, inserted0;
    assert x in graph <==> x in inserted;
    if x !in graph {
      DistinctSnoc(inserted, x);
      graph := graph[x := {}];
      inserted := inserted + [x];
    }
  }

  /**
   * The `forEach` over the edges: creates `graph[from]` and `graph[to]` when
   * missing (recording the order in which keys appear), then adds `to` under
   * `from`, and `from` under `to` unless directed.  The keys are made in the
   * order `KeyOrder` gives, each once, and are exactly the edge ends.
   */
  method BuildAdjacency(edges: seq<Edge>, directed: bool) returns (graph: map<int, set<int>>, inserted: seq<int>)
    ensures Adjacency(edges, directed, graph)
    ensures inserted == KeyOrder(edges)
    ensures Distinct(inserted) && Elems(inserted) == graph.Keys
  {
    graph := map[];
    inserted := [];
    var j := 0;
    while j < |edges|
      invariant 0 <= j <= |edges|
      invariant Scanned(edges[..j], directed, graph)
      invariant Distinct(inserted) && Elems(inserted) == graph.Keys
      invariant inserted == KeyOrder(edges[..j])
    {
      var edge := edges[j];
      PrefixSnoc(edges, j);
      ghost var before := graph;
      graph, inserted := AddKey(graph, inserted, edge.from);
      ghost var keyed := graph;
      graph, inserted := AddKey(graph, inserted, edge.to);
      ghost var both := graph;
      graph := ListArcs(graph, edge, directed);
      ScanStep(edges[..j], edge, directed, before, keyed, both, graph);
      assert edges[..j + 1][..j] == edges[..j];
      j := j + 1;
    }
    assert edges[..j] == edges;
    ScannedAdjacency(edges, directed, graph);
  }

  /** The scanned object is the adjacency of the edges. */
  lemma ScannedAdjacency(edges: seq<Edge>, directed: bool, graph: map<int, set<int>>)
    requires Scanned(edges, directed, graph)
    ensures Adjacency(edges, directed, graph)
  {
    forall x | x in graph {
      HeadsOfMembers(edges, directed, x);
    }
  }

  // ---------------------------------------------------------------------------
  // The minimum scan.

  /**
   * `queue.reduce((minNode, node) => distances[node] < distances[minNode] ? node : minNode)`,
   * as the position of the result.
   */
  function MinIndex(queue: seq<int>, dist: map<int, Dist>): (i: nat)
    requires |queue| > 0 && forall x :: x in queue ==> x in dist
    ensures i < |queue|
    decreases |queue|
  {
    if |queue| == 1 then 0
    else
      var init := queue[..|queue| - 1];
      assert forall x :: x in init ==> x in queue;
      var j := MinIndex(init, dist);
      var last, least := queue[|queue| - 1], init[j];
      assert last in queue && least in init;
      if Less(dist[last], dist[least]) then |queue| - 1 else j
  }

  /** The entry at i has a distance no other queued id is below. */
  ghost predicate LeastAt(queue: seq<int>, dist: map<int, Dist>, i: int)
  {
    0 <= i < |queue| && queue[i] in dist && forall q :: q in queue ==> q in dist && !Less(dist[q], dist[queue[i]])
  }

  /** The scan finds the first of the entries with the least distance. */
  lemma {:induction false} MinIndexIsFirstLeast(queue: seq<int>, dist: map<int, Dist>)
    requires |queue| > 0 && forall x :: x in queue ==> x in dist
    ensures var i := MinIndex(queue, dist);
      && LeastAt(queue, dist, i)
      && (forall k :: 0 <= k < |queue| ==> !Less(dist[queue[k]], dist[queue[i]]))
      && (forall k :: 0 <= k < i ==> Less(dist[queue[i]], dist[queue[k]]))
    decreases |queue|
  {
    if |queue| > 1 {
      var init := queue[..|queue| - 1];
      assert forall x :: x in init ==> x in queue;
      MinIndexIsFirstLeast(init, dist);
      forall k | 0 <= k < |init| ensures queue[k] == init[k] {
      }
    }
    var i := MinIndex(queue, dist);
    forall q | q in queue ensures !Less(dist[q], dist[queue[i]]) {
      var k :| 0 <= k < |queue| && queue[k] == q;
    }
  }

  // ---------------------------------------------------------------------------
  // The main loop.

  /**
   * The `previous` links: the source (when it is a key) has none and distance 0;
   * any other key without a link is at Infinity; a key linked to p is one arc
   * from p and one further than p.
   */
  ghost predicate Links(edges: seq<Edge>, directed: bool, source: int, dist: map<int, Dist>, prev: map<int, Option<int>>)
  {
    && (source in prev ==> source in dist && dist[source] == Fin(0) && prev[source] == None)
    && (forall x :: x in prev && prev[x].None? ==> x in dist && (x == source || dist[x] == Infinity))
    && (forall x :: x in prev && prev[x].Some? ==>
         var p := prev[x].value;
         && x != source && x in dist && p in prev && p in dist && dist[p].Fin?
         && dist[x] == Fin(dist[p].n + 1) && Arc(edges, directed, p, x))
  }

  /** Every link points at a visited id. */
  ghost predicate LinksVisited(prev: map<int, Option<int>>, visited: set<int>)
  {
    forall x :: x in prev && prev[x].Some? ==> prev[x].value in visited
  }

  /**
   * The queue and `visited` split the keys; `done` holds the visited ids whose
   * neighbours have been relaxed: all but possibly the one taken last.
   */
  ghost predicate Layout(keys: set<int>, queue: seq<int>, done: set<int>, visited: set<int>)
  {
    && Elems(queue) + visited == keys && Elems(queue) !! visited
    && Distinct(queue) && done <= visited && |visited - done| <= 1
  }

  /** No queued id is nearer than a visited one, and the one taken last is no nearer than the rest. */
  ghost predicate Ordered(queue: seq<int>, done: set<int>, visited: set<int>, dist: map<int, Dist>)
  {
    && (forall v, q :: v in visited && q in queue ==> v in dist && q in dist && !Less(dist[q], dist[v]))
    && (forall v, b :: v in done && b in visited - done ==> v in dist && b in dist && !Less(dist[b], dist[v]))
  }

  /** Every arc out of a relaxed id ends at most one further than that id. */
  ghost predicate Relaxed(edges: seq<Edge>, directed: bool, done: set<int>, dist: map<int, Dist>)
  {
    forall u, y :: u in done && Arc(edges, directed, u, y) ==>
      u in dist && y in dist && !Less(Plus1(dist[u]), dist[y])
  }

  /** A visited id's distance is finite and no longer than any walk to it from the source. */
  ghost predicate Settled(edges: seq<Edge>, directed: bool, source: int, visited: set<int>, dist: map<int, Dist>)
  {
    forall u, w :: u in visited && ArcWalk(edges, directed, w) && w[0] == source && w[|w| - 1] == u ==>
      u in dist && AtMost(dist[u], |w| - 1)
  }

  /** Everything the main loop keeps true. */
  ghost predicate Search(edges: seq<Edge>, directed: bool, source: int, queue: seq<int>, done: set<int>,
                         visited: set<int>, dist: map<int, Dist>, prev: map<int, Option<int>>)
  {
    && dist.Keys == Ends(edges) + {source} && prev.Keys == Ends(edges) && dist[source] == Fin(0)
    && Layout(Ends(edges), queue, done, visited)
    && Links(edges, directed, source, dist, prev)
    && LinksVisited(prev, visited)
    && Ordered(queue, done, visited, dist)
    && Relaxed(edges, directed, done, dist)
    && Settled(edges, directed, source, visited, dist)
  }

  /** The first id of a walk that has not been visited, when its last one has not. */
  lemma FirstUnvisited(w: seq<int>, visited: set<int>) returns (i: int)
    requires |w| > 0 && w[|w| - 1] !in visited
    ensures 0 <= i < |w| && w[i] !in visited
    ensures forall k :: 0 <= k < i ==> w[k] in visited
  {
    i := 0;
    while w[i] in visited
      invariant 0 <= i < |w|
      invariant forall k :: 0 <= k < i ==> w[k] in visited
      decreases |w| - i
    {
      i := i + 1;
    }
  }

  /** Every id on a walk of more than one id is an edge end. */
  lemma WalkInEnds(edges: seq<Edge>, directed: bool, w: seq<int>, i: int)
    requires ArcWalk(edges, directed, w) && 0 <= i < |w| && |w| > 1
    ensures w[i] in Ends(edges)
  {
    if i < |w| - 1 {
      ArcEnds(edges, directed, w[i], w[i + 1]);
    } else {
      ArcEnds(edges, directed, w[i - 1], w[i]);
    }
  }

  lemma WalkPrefix(edges: seq<Edge>, directed: bool, w: seq<int>, i: int)
    requires ArcWalk(edges, directed, w) && 0 <= i < |w|
    ensures ArcWalk(edges, directed, w[..i + 1])
  {
    var p := w[..i + 1];
    forall k | 0 <= k < |p| - 1 ensures Arc(edges, directed, p[k], p[k + 1]) {
      assert p[k] == w[k] && p[k + 1] == w[k + 1];
    }
  }

  /**
   * The key step of Dijkstra's argument, for one walk: the walk must leave the
   * relaxed ids somewhere; the first queued id on it is at most as far as its
   * position, and an id of least distance in the queue is no further than that one.
   */
  lemma TakenWalk(edges: seq<Edge>, directed: bool, source: int, queue: seq<int>, done: set<int>,
                  dist: map<int, Dist>, c: int, w: seq<int>)
    requires Elems(queue) + done == Ends(edges) && Elems(queue) !! done
    requires source in dist && dist[source] == Fin(0)
    requires Relaxed(edges, directed, done, dist) && Settled(edges, directed, source, done, dist)
    requires c in queue && c in dist && forall q :: q in queue ==> q in dist && !Less(dist[q], dist[c])
    requires ArcWalk(edges, directed, w) && w[0] == source && w[|w| - 1] == c
    ensures AtMost(dist[c], |w| - 1)
  {
    assert c in Elems(queue);
    var i := FirstUnvisited(w, done);
    var y := w[i];
    if |w| > 1 {
      WalkInEnds(edges, directed, w, i);
    }
    assert y in Elems(queue);
    if i > 0 {
      var u := w[i - 1];
      WalkPrefix(edges, directed, w, i - 1);
      assert AtMost(dist[u], i - 1);
      assert Arc(edges, directed, u, y);
    }
  }

  /** `queue.splice(i, 1)` on a queue without repeats drops exactly the id at i. */
  lemma SpliceProps(queue: seq<int>, i: int)
    requires Distinct(queue) && 0 <= i < |queue|
    ensures |queue[..i] + queue[i + 1..]| == |queue| - 1
    ensures Distinct(queue[..i] + queue[i + 1..])
    ensures Elems(queue[..i] + queue[i + 1..]) == Elems(queue) - {queue[i]}
  {
    var r := queue[..i] + queue[i + 1..];
    forall k | 0 <= k < |r| ensures r[k] == queue[if k < i then k else k + 1] {
    }
    forall x | x in Elems(queue) - {queue[i]} ensures x in Elems(r) {
      var k :| 0 <= k < |queue| && queue[k] == x;
      assert r[if k < i then k else k - 1] == x;
    }
  }

  /** Before the first round: every key at Infinity and unlinked, the source at 0. */
  lemma InitSearch(edges: seq<Edge>, directed: bool, source: int, queue: seq<int>,
                   dist: map<int, Dist>, prev: map<int, Option<int>>)
    requires Distinct(queue) && Elems(queue) == Ends(edges)
    requires prev.Keys == Ends(edges) && forall x :: x in prev ==> prev[x] == None
    requires dist.Keys == Ends(edges) + {source} && dist[source] == Fin(0)
    requires forall x :: x in dist && x != source ==> dist[x] == Infinity
    ensures Search(edges, directed, source, queue, {}, {}, dist, prev)
  {
  }

  /**
   * Taking the first id of least distance out of the queue keeps the invariant,
   * with that id visited but not yet relaxed.
   */
  lemma PopStep(edges: seq<Edge>, directed: bool, source: int, queue: seq<int>, done: set<int>,
                dist: map<int, Dist>, prev: map<int, Option<int>>, i: int)
    requires Search(edges, directed, source, queue, done, done, dist, prev)
    requires LeastAt(queue, dist, i)
    ensures queue[i] !in done
    ensures Search(edges, directed, source, queue[..i] + queue[i + 1..], done, done + {queue[i]}, dist, prev)
  {
    SpliceProps(queue, i);
    PopLayout(Ends(edges), queue, done, i);
    PopSettled(edges, directed, source, queue, done, dist, i);
    PopOrdered(queue, done, dist, i);
  }

  /** Moving the id at i from the queue to the visited ones keeps the split. */
  lemma PopLayout(keys: set<int>, queue: seq<int>, done: set<int>, i: int)
    requires Layout(keys, queue, done, done) && 0 <= i < |queue|
    requires Distinct(queue[..i] + queue[i + 1..])
    requires Elems(queue[..i] + queue[i + 1..]) == Elems(queue) - {queue[i]}
    ensures queue[i] !in done
    ensures Layout(keys, queue[..i] + queue[i + 1..], done, done + {queue[i]})
  {
    assert queue[i] in Elems(queue);
    assert (done + {queue[i]}) - done == {queue[i]};
  }

  /** The id taken, of least distance in the queue, is settled. */
  lemma PopSettled(edges: seq<Edge>, directed: bool, source: int, queue: seq<int>, done: set<int>,
                   dist: map<int, Dist>, i: int)
    requires Elems(queue) + done == Ends(edges) && Elems(queue) !! done
    requires source in dist && dist[source] == Fin(0)
    requires Relaxed(edges, directed, done, dist) && Settled(edges, directed, source, done, dist)
    requires LeastAt(queue, dist, i)
    ensures Settled(edges, directed, source, done + {queue[i]}, dist)
  {
    var c := queue[i];
    forall w | ArcWalk(edges, directed, w) && w[0] == source && w[|w| - 1] == c
      ensures AtMost(dist[c], |w| - 1)
    {
      TakenWalk(edges, directed, source, queue, done, dist, c, w);
    }
  }

  /** The id taken is no nearer than any visited one and no further than any still queued. */
  lemma PopOrdered(queue: seq<int>, done: set<int>, dist: map<int, Dist>, i: int)
    requires Ordered(queue, done, done, dist) && LeastAt(queue, dist, i) && queue[i] !in done
    requires Elems(queue[..i] + queue[i + 1..]) == Elems(queue) - {queue[i]}
    ensures Ordered(queue[..i] + queue[i + 1..], done, done + {queue[i]}, dist)
  {
    var c, rest := queue[i], queue[..i] + queue[i + 1..];
    forall v, q | v in done + {c} && q in rest ensures v in dist && q in dist && !Less(dist[q], dist[v]) {
      assert q in Elems(rest);
    }
    assert (done + {c}) - done == {c};
  }

  /** A neighbour in the adjacency object is the head of an arc, hence an edge end. */
  lemma NeighborArc(edges: seq<Edge>, directed: bool, graph: map<int, set<int>>, x: int, y: int)
    requires Adjacency(edges, directed, graph) && x in graph && y in graph[x]
    ensures Arc(edges, directed, x, y) && y in Ends(edges)
  {
    ArcEnds(edges, directed, x, y);
  }

  /** No distance has grown since `before`, and none has gone away. */
  ghost predicate NoIncrease(before: map<int, Dist>, after: map<int, Dist>)
  {
    forall x :: x in before ==> x in after && !Less(before[x], after[x])
  }

  /** Lowering one distance keeps every distance at or below where it started. */
  lemma Lowered(before: map<int, Dist>, dist: map<int, Dist>, y: int, d: Dist)
    requires NoIncrease(before, dist) && y in dist && Less(d, dist[y])
    ensures NoIncrease(before, dist[y := d])
  {
  }

  /** The invariant while the neighbours of c, the id taken last, are relaxed. */
  ghost predicate Relaxing(edges: seq<Edge>, directed: bool, source: int, queue: seq<int>, done: set<int>,
                           visited: set<int>, dist: map<int, Dist>, prev: map<int, Option<int>>, c: int)
  {
    Search(edges, directed, source, queue, done, visited, dist, prev) && c !in done && visited == done + {c}
  }

  /** Every neighbour of c already handled is at most one further than c. */
  ghost predicate RelaxedFrom(graph: map<int, set<int>>, c: int, pending: set<int>, dist: map<int, Dist>)
  {
    c in graph && c in dist &&
    forall y :: y in graph[c] && y !in pending ==> y in dist && !Less(Plus1(dist[c]), dist[y])
  }

  /** A visited neighbour is skipped: it is no further than c already. */
  lemma RelaxSkip(edges: seq<Edge>, directed: bool, source: int, queue: seq<int>, done: set<int>,
                  visited: set<int>, dist: map<int, Dist>, prev: map<int, Option<int>>, c: int, y: int)
    requires Relaxing(edges, directed, source, queue, done, visited, dist, prev, c)
    requires y in visited
    ensures !Less(Plus1(dist[c]), dist[y])
  {
    if y != c {
      assert y in done && c in visited - done;
    }
  }

  /** Linking an unvisited y to a visited c, one further than c, keeps the links sound. */
  lemma LinksUpdate(edges: seq<Edge>, directed: bool, source: int, visited: set<int>,
                    dist: map<int, Dist>, prev: map<int, Option<int>>, c: int, y: int)
    requires Links(edges, directed, source, dist, prev) && LinksVisited(prev, visited)
    requires c in visited && c in prev && c in dist && dist[c].Fin?
    requires y !in visited && y in prev && y != source && Arc(edges, directed, c, y)
    ensures Links(edges, directed, source, dist[y := Plus1(dist[c])], prev[y := Some(c)])
  {
    var dist', prev' := dist[y := Plus1(dist[c])], prev[y := Some(c)];
    forall x | x in prev' && prev'[x].Some?
      ensures var p := prev'[x].value;
        && x != source && x in dist' && p in prev' && p in dist' && dist'[p].Fin?
        && dist'[x] == Fin(dist'[p].n + 1) && Arc(edges, directed, p, x)
    {
      if x != y {
        var p := prev[x].value;
        assert p in visited;
        assert p != y && dist'[p] == dist[p] && dist'[x] == dist[x];
      } else {
        assert c != y && dist'[c] == dist[c];
      }
    }
    forall x | x in prev' && prev'[x].None? ensures x in dist' && (x == source || dist'[x] == Infinity) {
      assert x != y && dist'[x] == dist[x];
    }
  }

  /** A new link to a visited id keeps every link pointing at a visited id. */
  lemma LinksVisitedUpdate(prev: map<int, Option<int>>, visited: set<int>, c: int, y: int)
    requires LinksVisited(prev, visited) && c in visited
    ensures LinksVisited(prev[y := Some(c)], visited)
  {
  }

  /** Lowering an unvisited y to one more than the last taken c keeps the order. */
  lemma OrderedUpdate(queue: seq<int>, done: set<int>, visited: set<int>, dist: map<int, Dist>, c: int, y: int)
    requires Ordered(queue, done, visited, dist) && c !in done && visited == done + {c} && y !in visited
    requires c in dist && y in dist
    ensures Ordered(queue, done, visited, dist[y := Plus1(dist[c])])
  {
    forall v | v in visited ensures !Less(dist[c], dist[v]) {
      if v != c {
        assert v in done && c in visited - done;
      }
    }
  }

  /** Lowering y to one more than c, itself no nearer than any relaxed id, keeps the relaxed arcs sound. */
  lemma RelaxedUpdate(edges: seq<Edge>, directed: bool, done: set<int>, dist: map<int, Dist>, c: int, y: int)
    requires Relaxed(edges, directed, done, dist) && c !in done && y !in done && c in dist && y in dist && dist[c].Fin?
    requires forall u :: u in done ==> u in dist && !Less(dist[c], dist[u])
    requires Less(Plus1(dist[c]), dist[y])
    ensures Relaxed(edges, directed, done, dist[y := Plus1(dist[c])])
  {
    var dist' := dist[y := Plus1(dist[c])];
    forall u, z | u in done && Arc(edges, directed, u, z) ensures !Less(Plus1(dist'[u]), dist'[z]) {
      assert u in dist && !Less(dist[c], dist[u]) && u != y;
      assert z in dist && !Less(Plus1(dist[u]), dist[z]);
    }
  }

  /**
   * `distances[neighbor] = newDist; previous[neighbor] = current` for an unvisited
   * neighbour that gets nearer keeps the invariant.
   */
  lemma RelaxUpdate(edges: seq<Edge>, directed: bool, source: int, queue: seq<int>, done: set<int>,
                    visited: set<int>, dist: map<int, Dist>, prev: map<int, Option<int>>, c: int, y: int)
    requires Relaxing(edges, directed, source, queue, done, visited, dist, prev, c)
    requires Arc(edges, directed, c, y) && y !in visited && y in dist && Less(Plus1(dist[c]), dist[y])
    ensures Relaxing(edges, directed, source, queue, done, visited,
                     dist[y := Plus1(dist[c])], prev[y := Some(c)], c)
  {
    ArcEnds(edges, directed, c, y);
    assert y in queue by {
      assert y in Elems(queue);
    }
    assert c in Ends(edges) by {
      assert c in Elems(queue) + visited;
    }
    LinksUpdate(edges, directed, source, visited, dist, prev, c, y);
    LinksVisitedUpdate(prev, visited, c, y);
    OrderedUpdate(queue, done, visited, dist, c, y);
    assert forall u :: u in done ==> u in dist && !Less(dist[c], dist[u]) by {
      assert c in visited - done;
    }
    RelaxedUpdate(edges, directed, done, dist, c, y);
    SettledUpdate(edges, directed, source, visited, dist, y, Plus1(dist[c]));
    UpdateKeys(dist, y, Plus1(dist[c]));
    UpdateKeys(prev, y, Some(c));
  }

  /** Updating a present key leaves the key set as it was. */
  lemma UpdateKeys<K, V>(m: map<K, V>, k: K, v: V)
    requires k in m
    ensures m[k := v].Keys == m.Keys
  {
  }

  /** Changing the distance of an unvisited id leaves the visited ones settled. */
  lemma SettledUpdate(edges: seq<Edge>, directed: bool, source: int, visited: set<int>,
                      dist: map<int, Dist>, y: int, d: Dist)
    requires Settled(edges, directed, source, visited, dist) && y !in visited
    ensures Settled(edges, directed, source, visited, dist[y := d])
  {
  }

  /** Handling one more neighbour y that ends at most one further than c. */
  lemma RelaxedFromStep(graph: map<int, set<int>>, c: int, pending: set<int>, dist: map<int, Dist>, y: int)
    requires RelaxedFrom(graph, c, pending, dist) && y in pending && y in dist && !Less(Plus1(dist[c]), dist[y])
    ensures RelaxedFrom(graph, c, pending - {y}, dist)
  {
  }

  /** Lowering a pending neighbour y other than c leaves the handled ones as they were. */
  lemma RelaxedFromUpdate(graph: map<int, set<int>>, c: int, pending: set<int>, dist: map<int, Dist>, y: int)
    requires RelaxedFrom(graph, c, pending, dist) && y in pending && y != c
    ensures RelaxedFrom(graph, c, pending, dist[y := Plus1(dist[c])])
  {
  }

  /** Before any neighbour of c has been handled, c has a distance and an entry in the graph. */
  lemma StartRelax(edges: seq<Edge>, directed: bool, graph: map<int, set<int>>, source: int, queue: seq<int>,
                   done: set<int>, visited: set<int>, dist: map<int, Dist>, prev: map<int, Option<int>>, c: int)
    requires Adjacency(edges, directed, graph)
    requires Relaxing(edges, directed, source, queue, done, visited, dist, prev, c)
    ensures c in graph && RelaxedFrom(graph, c, graph[c], dist)
  {
    assert c in Elems(queue) + visited;
  }

  /** Once every neighbour of c has been handled, c joins the relaxed ids. */
  lemma FinishRelax(edges: seq<Edge>, directed: bool, graph: map<int, set<int>>, source: int, queue: seq<int>,
                    done: set<int>, visited: set<int>, dist: map<int, Dist>, prev: map<int, Option<int>>, c: int)
    requires Adjacency(edges, directed, graph)
    requires Relaxing(edges, directed, source, queue, done, visited, dist, prev, c)
    requires RelaxedFrom(graph, c, {}, dist)
    ensures Search(edges, directed, source, queue, visited, visited, dist, prev)
  {
    forall u, y | u in visited && Arc(edges, directed, u, y) ensures !Less(Plus1(dist[u]), dist[y]) {
      if u == c {
        assert y in graph[c];
      }
    }
    assert Relaxed(edges, directed, visited, dist);
    forall v, q | v in visited && q in queue ensures !Less(dist[q], dist[v]) {
    }
    assert Ordered(queue, visited, visited, dist);
  }

  /**
   * The inner loop of the search: relax every neighbour of `current` that has not
   * been visited.  The source walks the neighbours in key order; the outcome does
   * not depend on it, since `distances[current]` stays put meanwhile.
   */
  method Relax(edges: seq<Edge>, directed: bool, graph: map<int, set<int>>, source: int, ghost queue: seq<int>,
               ghost done: set<int>, visited: set<int>, current: int,
               dist0: map<int, Dist>, prev0: map<int, Option<int>>)
    returns (dist: map<int, Dist>, prev: map<int, Option<int>>)
    requires Adjacency(edges, directed, graph)
    requires Relaxing(edges, directed, source, queue, done, visited, dist0, prev0, current)
    ensures Search(edges, directed, source, queue, visited, visited, dist, prev)
    ensures NoIncrease(dist0, dist)
  {
    dist, prev := dist0, prev0;
    StartRelax(edges, directed, graph, source, queue, done, visited, dist, prev, current);
    var pending := graph[current];
    while pending != {}
      invariant pending <= graph[current]
      invariant Relaxing(edges, directed, source, queue, done, visited, dist, prev, current)
      invariant RelaxedFrom(graph, current, pending, dist)
      invariant NoIncrease(dist0, dist)
      decreases pending
    {
      var neighbor := Pick(pending);
      dist, prev := RelaxNeighbor(edges, directed, graph, source, queue, done, visited, current, neighbor,
                                  pending, dist0, dist, prev);
      pending := pending - {neighbor};
    }
    FinishRelax(edges, directed, graph, source, queue, done, visited, dist, prev, current);
  }

  /**
   * One round of the inner loop: skip a visited neighbour; otherwise, when going
   * through `current` is shorter, record the new distance and the link.
   */
  method RelaxNeighbor(edges: seq<Edge>, directed: bool, graph: map<int, set<int>>, source: int,
                       ghost queue: seq<int>, ghost done: set<int>, visited: set<int>, current: int, neighbor: int,
                       ghost pending: set<int>, ghost dist0: map<int, Dist>,
                       dist: map<int, Dist>, prev: map<int, Option<int>>)
    returns (dist': map<int, Dist>, prev': map<int, Option<int>>)
    requires Adjacency(edges, directed, graph) && current in graph
    requires neighbor in pending && pending <= graph[current]
    requires Relaxing(edges, directed, source, queue, done, visited, dist, prev, current)
    requires RelaxedFrom(graph, current, pending, dist) && NoIncrease(dist0, dist)
    ensures Relaxing(edges, directed, source, queue, done, visited, dist', prev', current)
    ensures RelaxedFrom(graph, current, pending - {neighbor}, dist') && NoIncrease(dist0, dist')
  {
    dist', prev' := dist, prev;
    NeighborArc(edges, directed, graph, current, neighbor);
    KeyedEnd(dist, Ends(edges), source, neighbor);
    if neighbor in visited {
      RelaxSkip(edges, directed, source, queue, done, visited, dist, prev, current, neighbor);
      RelaxedFromStep(graph, current, pending, dist, neighbor);
    } else {
      var newDist := Plus1(dist[current]);
      if Less(newDist, dist[neighbor]) {
        RelaxUpdate(edges, directed, source, queue, done, visited, dist, prev, current, neighbor);
        RelaxedFromUpdate(graph, current, pending, dist, neighbor);
        Lowered(dist0, dist, neighbor, newDist);
        dist' := dist[neighbor := newDist];
        prev' := prev[neighbor := Some(current)];
      }
      RelaxedFromStep(graph, current, pending, dist', neighbor);
    }
  }

  /** An edge end has a distance. */
  lemma KeyedEnd(dist: map<int, Dist>, ends: set<int>, source: int, y: int)
    requires dist.Keys == ends + {source} && y in ends
    ensures y in dist
  {
  }

  /** Every queued id has a distance. */
  lemma QueuedHaveDistances(edges: seq<Edge>, directed: bool, source: int, queue: seq<int>, done: set<int>,
                            visited: set<int>, dist: map<int, Dist>, prev: map<int, Option<int>>)
    requires Search(edges, directed, source, queue, done, visited, dist, prev)
    ensures forall x :: x in queue ==> x in dist
  {
    forall x | x in queue ensures x in dist {
      assert x in Elems(queue);
    }
  }

  /** When the queue has run dry, every edge end has been visited. */
  lemma DrainedQueue(keys: set<int>, queue: seq<int>, done: set<int>, visited: set<int>)
    requires Layout(keys, queue, done, visited) && |queue| == 0
    ensures keys <= visited
  {
    assert Elems(queue) == {};
  }

  /**
   * `for (const node of queue) { distances[node] = Infinity; previous[node] = null }`
   * followed by `distances[fromNode] = 0`.
   */
  method InitTables(queue: seq<int>, source: int) returns (dist: map<int, Dist>, prev: map<int, Option<int>>)
    ensures prev.Keys == Elems(queue) && forall x :: x in prev ==> prev[x] == None
    ensures dist.Keys == Elems(queue) + {source} && dist[source] == Fin(0)
    ensures forall x :: x in dist && x != source ==> dist[x] == Infinity
  {
    dist, prev := map[], map[];
    for i := 0 to |queue|
      invariant prev.Keys == Elems(queue[..i]) && forall x :: x in prev ==> prev[x] == None
      invariant dist.Keys == Elems(queue[..i]) && forall x :: x in dist ==> dist[x] == Infinity
    {
      PrefixSnoc(queue, i);
      dist := dist[queue[i] := Infinity];
      prev := prev[queue[i] := None];
    }
    assert queue[..|queue|] == queue;
    dist := dist[source := Fin(0)];
  }

  /**
   * What the search leaves behind: a distance for every edge end and the source,
   * a sound `previous` link for every edge end, and, when the target is an edge
   * end, a distance for it no longer than any walk to it.
   */
  ghost predicate SearchResult(edges: seq<Edge>, directed: bool, source: int, target: int,
                               dist: map<int, Dist>, prev: map<int, Option<int>>)
  {
    && dist.Keys == Ends(edges) + {source} && prev.Keys == Ends(edges)
    && Links(edges, directed, source, dist, prev)
    && (target in Ends(edges) ==>
          forall w :: ArcWalk(edges, directed, w) && w[0] == source && w[|w| - 1] == target ==>
            AtMost(dist[target], |w| - 1))
  }

  /**
   * The search: from the source, take ids off the queue in order of distance,
   * stopping once the target has been taken, and relax the neighbours of each.
   * On return the `previous` links are sound and, if the target is an edge end,
   * its distance is no longer than any walk to it.
   */
  method Explore(edges: seq<Edge>, directed: bool, graph: map<int, set<int>>, inserted: seq<int>,
                 source: int, target: int)
    returns (dist: map<int, Dist>, prev: map<int, Option<int>>)
    requires Adjacency(edges, directed, graph) && Distinct(inserted) && Elems(inserted) == graph.Keys
    ensures SearchResult(edges, directed, source, target, dist, prev)
  {
    var queue := ObjectKeys(inserted);
    ObjectKeysProps(inserted);
    dist, prev := InitTables(queue, source);
    InitSearch(edges, directed, source, queue, dist, prev);
    var visited: set<int> := {};
    while |queue| > 0
      invariant Search(edges, directed, source, queue, visited, visited, dist, prev)
      decreases |queue|
    {
      QueuedHaveDistances(edges, directed, source, queue, visited, visited, dist, prev);
      MinIndexIsFirstLeast(queue, dist);
      var i := MinIndex(queue, dist);
      var current := queue[i];
      PopStep(edges, directed, source, queue, visited, dist, prev, i);
      SpliceProps(queue, i);
      ghost var done := visited;
      queue := queue[..i] + queue[i + 1..];
      visited := visited + {current};
      if current == target {
        break;
      }
      dist, prev := Relax(edges, directed, graph, source, queue, done, visited, current, dist, prev);
    }
    if |queue| == 0 {
      DrainedQueue(Ends(edges), queue, visited, visited);
    }
    assert target in Ends(edges) ==> target in visited;
  }

  // ---------------------------------------------------------------------------
  // Tracing the path back from the target.

  /** One entry of the traced path; `from` is None where `previous` has no entry (JavaScript's undefined). */
  datatype Hop = Hop(from: Option<int>, to: int)

  /** Every link leads to an id strictly nearer the source, so following links ends. */
  ghost predicate Descending(dist: map<int, Dist>, prev: map<int, Option<int>>)
  {
    forall x :: x in prev && prev[x].Some? ==>
      x in dist && prev[x].value in dist && dist[x].Fin? && dist[prev[x].value].Fin?
      && dist[prev[x].value].n < dist[x].n
  }

  lemma LinksDescend(edges: seq<Edge>, directed: bool, source: int, dist: map<int, Dist>, prev: map<int, Option<int>>)
    requires Links(edges, directed, source, dist, prev)
    ensures Descending(dist, prev)
  {
  }

  function Height(dist: map<int, Dist>, x: int): nat
  {
    if x in dist && dist[x].Fin? then dist[x].n + 1 else 0
  }

  /**
   * The path the trace-back loop means to produce from x: nothing when x has a
   * null link, a single `{from: undefined, to: x}` when x has no entry at all, and
   * otherwise the path to x's predecessor followed by the hop into x.
   */
  function TraceFrom(dist: map<int, Dist>, prev: map<int, Option<int>>, x: int): seq<Hop>
    requires Descending(dist, prev)
    decreases Height(dist, x)
  {
    if x !in prev then [Hop(None, x)]
    else match prev[x]
      case None => []
      case Some(p) => TraceFrom(dist, prev, p) + [Hop(Some(p), x)]
  }

  /**
   * The trace-back loop as written, `while (currentNode)`: a predecessor with id 0
   * is falsy in JavaScript, so the loop stops there after pushing the hop out of 0.
   */
  function TraceAsWritten(dist: map<int, Dist>, prev: map<int, Option<int>>, x: int): seq<Hop>
    requires Descending(dist, prev)
    decreases Height(dist, x)
  {
    if x !in prev then [Hop(None, x)]
    else match prev[x]
      case None => []
      case Some(p) => (if p == 0 then [] else TraceAsWritten(dist, prev, p)) + [Hop(Some(p), x)]
  }

  /** A sequence in reverse order, as `Array.prototype.reverse` leaves it. */
  function Reverse<T>(s: seq<T>): (r: seq<T>)
    ensures |r| == |s| && forall i :: 0 <= i < |s| ==> r[i] == s[|s| - 1 - i]
  {
    if s == [] then [] else [s[|s| - 1]] + Reverse(s[..|s| - 1])
  }

  lemma ReverseSnoc<T>(s: seq<T>, h: T)
    ensures Reverse(s + [h]) == [h] + Reverse(s)
  {
  }

  /** What the loop still has to push, nearest the source first, for the id it stands on. */
  function Pending(dist: map<int, Dist>, prev: map<int, Option<int>>, current: Option<int>): seq<Hop>
    requires Descending(dist, prev)
  {
    if current.Some? then TraceFrom(dist, prev, current.value) else []
  }

  /**
   * The trace-back loop: push `{from: previous[x], to: x}` unless the link is null,
   * step to `previous[x]`, and reverse at the end.  The loop runs while the current
   * id is present (not undefined or null), which is what `while (currentNode)` is
   * meant to test; see `TraceAsWritten` for the loop as written.
   */
  method TracePath(ghost dist: map<int, Dist>, prev: map<int, Option<int>>, target: int) returns (path: seq<Hop>)
    requires Descending(dist, prev)
    ensures path == TraceFrom(dist, prev, target)
  {
    var pushed: seq<Hop> := [];
    var current: Option<int> := Some(target);
    while current.Some?
      invariant TraceFrom(dist, prev, target) == Pending(dist, prev, current) + Reverse(pushed)
      decreases if current.Some? then Height(dist, current.value) + 1 else 0
    {
      var x := current.value;
      ghost var rest := Reverse(pushed);
      if x !in prev {
        ReverseSnoc(pushed, Hop(None, x));
        pushed := pushed + [Hop(None, x)];
        current := None;
      } else {
        var prevNode := prev[x];
        if prevNode.Some? {
          ReverseSnoc(pushed, Hop(prevNode, x));
          pushed := pushed + [Hop(prevNode, x)];
        }
        current := prevNode;
      }
    }
    path := Reverse(pushed);
  }

  /**
   * A chain of hops from s to t: each hop follows an arc, each starts where the
   * previous one ended, the first starts at s and the last ends at t; the empty
   * chain when s is t.
   */
  ghost predicate IsPath(edges: seq<Edge>, directed: bool, s: int, t: int, path: seq<Hop>)
  {
    if path == [] then s == t
    else
      && path[0].from == Some(s) && path[|path| - 1].to == t
      && (forall i :: 0 <= i < |path| ==> path[i].from.Some? && Arc(edges, directed, path[i].from.value, path[i].to))
      && (forall i :: 0 <= i < |path| - 1 ==> path[i + 1].from == Some(path[i].to))
  }

  lemma IsPathSnoc(edges: seq<Edge>, directed: bool, s: int, t: int, path: seq<Hop>, u: int)
    requires IsPath(edges, directed, s, t, path) && Arc(edges, directed, t, u)
    ensures IsPath(edges, directed, s, u, path + [Hop(Some(t), u)])
  {
    var p := path + [Hop(Some(t), u)];
    forall i | 0 <= i < |p| - 1 ensures p[i + 1].from == Some(p[i].to) {
      if i < |path| - 1 {
        assert p[i] == path[i] && p[i + 1] == path[i + 1];
      }
    }
  }

  /**
   * Following the links back from an id at finite distance d gives a chain of
   * exactly d hops from the source to it.
   */
  lemma {:induction false} TraceChain(edges: seq<Edge>, directed: bool, source: int,
                                      dist: map<int, Dist>, prev: map<int, Option<int>>, x: int)
    requires Links(edges, directed, source, dist, prev)
    requires x in prev && x in dist && dist[x].Fin?
    ensures Descending(dist, prev)
    ensures IsPath(edges, directed, source, x, TraceFrom(dist, prev, x))
    ensures |TraceFrom(dist, prev, x)| == dist[x].n
    decreases dist[x].n
  {
    LinksDescend(edges, directed, source, dist, prev);
    match prev[x]
    case None =>
    case Some(p) =>
      TraceChain(edges, directed, source, dist, prev, p);
      IsPathSnoc(edges, directed, source, p, TraceFrom(dist, prev, p), x);
  }

  /** An id at Infinity has a null link, so the trace from it is empty. */
  lemma TraceUnreached(edges: seq<Edge>, directed: bool, source: int,
                       dist: map<int, Dist>, prev: map<int, Option<int>>, x: int)
    requires Links(edges, directed, source, dist, prev)
    requires x in prev && x in dist && dist[x] == Infinity
    ensures Descending(dist, prev)
    ensures TraceFrom(dist, prev, x) == []
  {
    LinksDescend(edges, directed, source, dist, prev);
  }

  /** The ids a chain passes through, starting with s. */
  function Visits(s: int, path: seq<Hop>): (w: seq<int>)
    ensures |w| == |path| + 1 && w[0] == s
  {
    [s] + seq(|path|, i requires 0 <= i < |path| => path[i].to)
  }

  /** A chain of hops is a walk along arcs of one more id. */
  lemma PathIsWalk(edges: seq<Edge>, directed: bool, s: int, t: int, path: seq<Hop>)
    ensures IsPath(edges, directed, s, t, path) ==>
      ArcWalk(edges, directed, Visits(s, path)) && Visits(s, path)[|path|] == t
  {
    if IsPath(edges, directed, s, t, path) {
      var w := Visits(s, path);
      forall i | 0 <= i < |w| - 1 ensures Arc(edges, directed, w[i], w[i + 1]) {
        assert w[i + 1] == path[i].to;
        if i > 0 {
          assert w[i] == path[i - 1].to;
        }
      }
    }
  }

  /**
   * What the trace gives on a finished search: a shortest chain from the source
   * when the target is an edge end the source reaches, nothing when it is an edge
   * end the source does not reach, and the lone `{from: undefined, to: target}`
   * when the target is at no edge end.
   */
  lemma TraceIsShortest(edges: seq<Edge>, directed: bool, source: int, target: int,
                        dist: map<int, Dist>, prev: map<int, Option<int>>)
    requires SearchResult(edges, directed, source, target, dist, prev)
    ensures Descending(dist, prev)
    ensures target in Ends(edges) && Reaches(edges, directed, source, target) ==>
      && IsPath(edges, directed, source, target, TraceFrom(dist, prev, target))
      && forall w :: ArcWalk(edges, directed, w) && w[0] == source && w[|w| - 1] == target ==>
           |TraceFrom(dist, prev, target)| <= |w| - 1
    ensures target in Ends(edges) && !Reaches(edges, directed, source, target) ==>
      TraceFrom(dist, prev, target) == []
    ensures target !in Ends(edges) ==> TraceFrom(dist, prev, target) == [Hop(None, target)]
  {
    LinksDescend(edges, directed, source, dist, prev);
    if target in Ends(edges) {
      if dist[target].Fin? {
        TraceChain(edges, directed, source, dist, prev, target);
        PathIsWalk(edges, directed, source, target, TraceFrom(dist, prev, target));
      } else {
        TraceUnreached(edges, directed, source, dist, prev, target);
      }
    }
  }

  /** The graph of the finding: an edge joining 1 and 0, then one joining 0 and 2. */
  function ZeroGraph(): seq<Edge>
  {
    [Edge(0, 1, 0), Edge(1, 0, 2)]
  }

  /**
   * On that graph, from 1 to 2, every outcome of the search has the shortest chain
   * 1, 0, 2, which the intended trace follows; the loop as written stops at the
   * predecessor 0 and returns only the hop out of 0, which does not start at the
   * source.
   */
  lemma TraceStopsAtZero(dist: map<int, Dist>, prev: map<int, Option<int>>)
    requires SearchResult(ZeroGraph(), false, 1, 2, dist, prev)
    ensures Descending(dist, prev)
    ensures TraceFrom(dist, prev, 2) == [Hop(Some(1), 0), Hop(Some(0), 2)]
    ensures TraceAsWritten(dist, prev, 2) == [Hop(Some(0), 2)]
    ensures !IsPath(ZeroGraph(), false, 1, 2, TraceAsWritten(dist, prev, 2))
  {
    var edges := ZeroGraph();
    LinksDescend(edges, false, 1, dist, prev);
    ZeroGraphArcs();
    var w := [1, 0, 2];
    assert ArcWalk(edges, false, w);
    assert AtMost(dist[2], 2);
    assert prev[2] == Some(0);
    assert prev[0] == Some(1);
    assert prev[1] == None;
    assert TraceFrom(dist, prev, 1) == [];
    assert TraceFrom(dist, prev, 0) == [Hop(Some(1), 0)];
  }

  /** The arcs of the finding's graph, without arrows. */
  lemma ZeroGraphArcs()
    ensures Ends(ZeroGraph()) == {0, 1, 2}
    ensures Arc(ZeroGraph(), false, 1, 0) && Arc(ZeroGraph(), false, 0, 2)
    ensures forall p :: Arc(ZeroGraph(), false, p, 2) ==> p == 0
    ensures forall q :: Arc(ZeroGraph(), false, q, 0) ==> q == 1 || q == 2
  {
    var edges := ZeroGraph();
    assert Joins(edges[0], 1, 0) && Joins(edges[1], 0, 2);
    assert forall e :: e in edges ==> e == edges[0] || e == edges[1];
  }

  /** `component.includes(fromNode) && component.includes(toNode)` for some component. */
  method BothInOneComponent(components: seq<seq<int>>, source: int, target: int) returns (possible: bool)
    ensures possible <==> exists i :: 0 <= i < |components| && source in components[i] && target in components[i]
  {
    possible := false;
    for i := 0 to |components|
      invariant possible <==> exists k :: 0 <= k < i && source in components[k] && target in components[k]
    {
      if source in components[i] && target in components[i] {
        possible := true;
      }
    }
  }

  /** Some listed component holds both ids exactly when the first is a node and the second is in its component. */
  lemma ComponentHoldsBoth(g: Graph, comps: seq<seq<int>>, s: int, t: int)
    requires IsComponentList(g, comps)
    ensures (exists i :: 0 <= i < |comps| && s in comps[i] && t in comps[i]) <==> s in IdSet(g.nodes) && t in Class(g, s)
  {
    if i :| 0 <= i < |comps| && s in comps[i] && t in comps[i] {
      assert IsComponent(g, comps[i]);
      assert s in Elems(comps[i]) && t in Elems(comps[i]);
      SameClass(g, comps[i][0], s);
    }
    if s in IdSet(g.nodes) && t in Class(g, s) {
      var i :| 0 <= i < |comps| && s in comps[i];
      assert IsComponent(g, comps[i]);
      assert s in Elems(comps[i]);
      SameClass(g, comps[i][0], s);
      assert t in Elems(comps[i]);
    }
  }

  /** Undirected connectivity gives a walk along arcs once the standing-still steps are dropped. */
  lemma ConnectedReaches(edges: seq<Edge>, a: int, b: int)
    requires Connected(edges, a, b)
    ensures Reaches(edges, false, a, b)
  {
    var w :| Walk(edges, w) && w[0] == a && w[|w| - 1] == b;
    var v := [a];
    var i := 0;
    while i < |w| - 1
      invariant 0 <= i < |w| && ArcWalk(edges, false, v) && v[0] == a && v[|v| - 1] == w[i]
    {
      assert Step(edges, w[i], w[i + 1]);
      if w[i] != w[i + 1] {
        v := v + [w[i + 1]];
      }
      i := i + 1;
    }
  }

  /** What `dijkstra` ends with: it gave up on the endpoints, or it traced a path. */
  datatype Outcome = Aborted | Traced(path: seq<Hop>)

  /**
   * `dijkstra`: gives up exactly when no component holds both endpoints.  Otherwise
   * the traced path is a shortest chain of hops from the source when the target is
   * an edge end the source reaches (always so without arrows), empty when it does
   * not reach it, and the lone `{from: undefined, to: target}` when the target is
   * at no edge end.
   */
  method Dijkstra(g: Graph, directed: bool, source: int, target: int) returns (out: Outcome)
    requires WellFormed(g)
    ensures out.Aborted? <==> !(source in IdSet(g.nodes) && target in Class(g, source))
    ensures out.Traced? && target in Ends(g.edges) && Reaches(g.edges, directed, source, target) ==>
      && IsPath(g.edges, directed, source, target, out.path)
      && forall w :: ArcWalk(g.edges, directed, w) && w[0] == source && w[|w| - 1] == target ==> |out.path| <= |w| - 1
    ensures out.Traced? && target in Ends(g.edges) && !Reaches(g.edges, directed, source, target) ==> out.path == []
    ensures out.Traced? && target !in Ends(g.edges) ==> out.path == [Hop(None, target)]
    ensures out.Traced? && !directed ==> Reaches(g.edges, false, source, target)
  {
    var components := GetComponents(g);
    var possible := BothInOneComponent(components, source, target);
    ComponentHoldsBoth(g, components, source, target);
    if !possible {
      return Aborted;
    }
    ConnectedReaches(g.edges, source, target);
    var graph, inserted := BuildAdjacency(g.edges, directed);
    var dist, prev := Explore(g.edges, directed, graph, inserted, source, target);
    TraceIsShortest(g.edges, directed, source, target, dist, prev);
    var path := TracePath(dist, prev, target);
    return Traced(path);
  }
}
