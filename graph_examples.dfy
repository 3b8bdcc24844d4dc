/**
  The scenarios of internal/graph/graph_test.go, replayed on the model: each
  method builds its graph through NewGraph, AddNode and AddEdge (or the
  loader) and its `ensures` is the answer the test expects.
 */
module GraphExamples {
  import opened Adjacency
  import opened Ranking
  import opened Components
  import opened Graph
  import opened Loader

  // ---------------------------------------------------------------------------
  // The graphs
  // ---------------------------------------------------------------------------

  /** setupTestGraph: nodes 1 to 5 and the edges 1→2, 2→3, 4→5. */
  function TestAdj(): AdjMap
  {
    map[1 := [2], 2 := [3], 3 := [], 4 := [5], 5 := []]
  }

  /** Nodes 1, 2, 3 and the edges 1→2 and 3→2. */
  function FanInAdj(): AdjMap
  {
    map[1 := [2], 2 := [], 3 := [2]]
  }

  /** The chain 1→2→3→4, every node created by AddEdge. */
  function ChainAdj(): AdjMap
  {
    map[1 := [2], 2 := [3], 3 := [4], 4 := []]
  }

  method SetupTestGraph() returns (g: Graph)
    ensures fresh(g) && g.adj == TestAdj()
  {
    g := new Graph();
    g.AddNode(1);
    g.AddNode(2);
    g.AddNode(3);
    g.AddNode(4);
    g.AddNode(5);
    g.AddEdge(1, 2);
    g.AddEdge(2, 3);
    g.AddEdge(4, 5);
    TestAdjBuilt();
  }

  method SetupFanIn() returns (g: Graph)
    ensures fresh(g) && g.adj == FanInAdj()
  {
    g := new Graph();
    g.AddNode(1);
    g.AddNode(2);
    g.AddNode(3);
    g.AddEdge(1, 2);
    g.AddEdge(3, 2);
    FanInBuilt();
  }

  /** A WithEdge step on a concrete map: only the source's list changes, and both ends become keys. */
  lemma WithEdgeIs(adj: AdjMap, from: int, to: int, r: AdjMap)
    requires r.Keys == adj.Keys + {from, to}
    requires r[from] == Succ(adj, from) + [to]
    requires forall k :: k in r && k != from ==> r[k] == Succ(adj, k)
    ensures WithEdge(adj, from, to) == r
  {
    var w := WithEdge(adj, from, to);
    assert w.Keys == r.Keys;
    forall k | k in r ensures w[k] == r[k] {
    }
  }

  /** Between existing nodes, AddEdge only appends to the source's list. */
  lemma WithEdgeOnNodes(adj: AdjMap, from: int, to: int)
    requires from in adj && to in adj
    ensures WithEdge(adj, from, to) == adj[from := adj[from] + [to]]
  {
  }

  /** The five AddNode calls of setupTestGraph. */
  lemma TestNodesBuilt()
    ensures WithNode(WithNode(WithNode(WithNode(WithNode(map[], 1), 2), 3), 4), 5)
            == map[1 := [], 2 := [], 3 := [], 4 := [], 5 := []]
  {
    var m0: AdjMap := map[];
    var m1 := WithNode(m0, 1);
    assert m1 == map[1 := []];
    var m2 := WithNode(m1, 2);
    assert m2 == map[1 := [], 2 := []];
    var m3 := WithNode(m2, 3);
    assert m3 == map[1 := [], 2 := [], 3 := []];
    var m4 := WithNode(m3, 4);
    assert m4 == map[1 := [], 2 := [], 3 := [], 4 := []];
  }

  /** Then its three AddEdge calls. */
  lemma TestAdjBuilt()
    ensures WithEdge(WithEdge(WithEdge(WithNode(WithNode(WithNode(WithNode(WithNode(map[], 1), 2), 3), 4), 5),
                                       1, 2), 2, 3), 4, 5) == TestAdj()
  {
    TestNodesBuilt();
    var m5: AdjMap := map[1 := [], 2 := [], 3 := [], 4 := [], 5 := []];
    var m6 := m5[1 := [2]];
    var m7 := m6[2 := [3]];
    var m8 := m7[4 := [5]];
    assert m8 == TestAdj();
    assert m5[1] + [2] == [2] && m6[2] + [3] == [3] && m7[4] + [5] == [5];
    WithEdgeOnNodes(m5, 1, 2);
    WithEdgeOnNodes(m6, 2, 3);
    WithEdgeOnNodes(m7, 4, 5);
  }

  lemma FanInBuilt()
    ensures WithEdge(WithEdge(WithNode(WithNode(WithNode(map[], 1), 2), 3), 1, 2), 3, 2) == FanInAdj()
  {
    var m0: AdjMap := map[];
    var m3: AdjMap := map[1 := [], 2 := [], 3 := []];
    var m4 := m3[1 := [2]];
    var m5 := m4[3 := [2]];
    assert m5 == FanInAdj();
    assert WithNode(WithNode(WithNode(m0, 1), 2), 3) == m3;
    assert m3[1] + [2] == [2] && m4[3] + [2] == [2];
    WithEdgeOnNodes(m3, 1, 2);
    WithEdgeOnNodes(m4, 3, 2);
  }

  lemma ChainBuilt()
    ensures WithEdge(WithEdge(WithEdge(map[], 1, 2), 2, 3), 3, 4) == ChainAdj()
  {
    var m0: AdjMap := map[];
    WithEdgeIs(m0, 1, 2, map[1 := [2], 2 := []]);
    var m1 := WithEdge(m0, 1, 2);
    assert m1 == map[1 := [2], 2 := []];
    WithEdgeIs(m1, 2, 3, map[1 := [2], 2 := [3], 3 := []]);
    var m2 := WithEdge(m1, 2, 3);
    assert m2 == map[1 := [2], 2 := [3], 3 := []];
    WithEdgeIs(m2, 3, 4, ChainAdj());
    var m3 := WithEdge(m2, 3, 4);
    assert m3 == ChainAdj();
  }

  /** What LoadGraph builds from users 1, 2, 3 and the rows (1, 2), (3, 2). */
  lemma FanInLoaded()
    ensures Built([1, 2, 3], [Connection(1, 2), Connection(3, 2)]) == FanInAdj()
  {
    var rows := [Connection(1, 2), Connection(3, 2)];
    assert Sources(rows) == {1, 3};
    assert rows[..1] == [Connection(1, 2)];
    assert [Connection(1, 2)][..0] == [];
    assert Outgoing(rows, 1) == [2];
    assert Outgoing(rows, 2) == [];
    assert Outgoing(rows, 3) == [2];
    var adj := Built([1, 2, 3], rows);
    assert adj.Keys == {1, 2, 3};
  }

  // ---------------------------------------------------------------------------
  // Facts about the graphs
  // ---------------------------------------------------------------------------

  /** In the test graph every path from 1 to 3 has at least three nodes, and [1, 2, 3] is the only one with three. */
  lemma TestAdjPathsOneToThree(p: seq<int>)
    requires PathBetween(TestAdj(), p, 1, 3)
    ensures |p| >= 3 && (|p| == 3 ==> p == [1, 2, 3])
  {
    var adj := TestAdj();
    assert |p| >= 2;
    assert p[1] in Succ(adj, p[0]);
    assert p[1] == 2;
    if |p| == 3 {
      assert p[2] in Succ(adj, p[1]);
    }
  }

  /** The reachability the tests rely on in the test graph. */
  lemma TestAdjPaths()
    ensures PathBetween(TestAdj(), [1, 2], 1, 2) && Reachable(TestAdj(), 1, 2)
    ensures PathBetween(TestAdj(), [1, 2, 3], 1, 3) && Reachable(TestAdj(), 1, 3)
    ensures PathBetween(TestAdj(), [4, 5], 4, 5) && Reachable(TestAdj(), 4, 5)
  {
    var adj := TestAdj();
    var p12, p123, p45 := [1, 2], [1, 2, 3], [4, 5];
    assert p12[1] in Succ(adj, p12[0]);
    assert PathBetween(adj, p12, 1, 2);
    assert p123[1] in Succ(adj, p123[0]) && p123[2] in Succ(adj, p123[1]);
    assert PathBetween(adj, p123, 1, 3);
    assert p45[1] in Succ(adj, p45[0]);
    assert PathBetween(adj, p45, 4, 5);
  }

  /** Along outgoing edges, nothing leaves {1, 2, 3} in the test graph. */
  lemma TestAdjClosed()
    ensures ClosedUnder(TestAdj(), {1, 2, 3})
    ensures ClosedUnder(TestAdj(), {1, 2, 3, 5})
    ensures ClosedUnder(TestAdj(), {3})
    ensures ClosedUnder(TestAdj(), {2, 3})
  {
  }

  /** No start lying in a successor-closed set reaches an id outside it. */
  lemma NotReachedFromAny(adj: AdjMap, starts: seq<int>, s: set<int>, x: int)
    requires ClosedUnder(adj, s) && x !in s
    requires forall i :: 0 <= i < |starts| ==> starts[i] in s
    ensures !ReachedFromAny(adj, starts, x)
  {
    if ReachedFromAny(adj, starts, x) {
      var i :| 0 <= i < |starts| && Reachable(adj, starts[i], x);
      ClosedContainsReachable(adj, s, starts[i], x);
    }
  }

  /** One more key in the iteration order: it is a start unless an earlier start reaches it. */
  lemma StartsSnoc(adj: AdjMap, order: seq<int>, x: int)
    ensures Starts(adj, order + [x]) ==
            if ReachedFromAny(adj, Starts(adj, order), x) then Starts(adj, order) else Starts(adj, order) + [x]
  {
    assert (order + [x])[..|order|] == order;
  }

  /** Ranging over the keys in increasing order, 1 starts a traversal that reaches 2 and 3. */
  lemma StartsIncreasingHead()
    ensures Starts(TestAdj(), [1, 2, 3]) == [1]
  {
    var adj := TestAdj();
    var o0: seq<int> := [];
    var o1 := o0 + [1];
    var o2 := o1 + [2];
    var o3 := o2 + [3];
    assert o3 == [1, 2, 3];
    var one: seq<int> := [1];
    assert ReachedFromAny(adj, one, 2) && ReachedFromAny(adj, one, 3) by {
      TestAdjPaths();
      assert one[0] == 1;
    }
    StartsSnoc(adj, o0, 1);
    assert Starts(adj, o1) == one;
    StartsSnoc(adj, o1, 2);
    StartsSnoc(adj, o2, 3);
  }

  /** Ranging over the keys in increasing order starts traversals at 1 and at 4 only. */
  lemma StartsIncreasing()
    ensures Starts(TestAdj(), [1, 2, 3, 4, 5]) == [1, 4]
  {
    var adj := TestAdj();
    var o3: seq<int> := [1, 2, 3];
    var o4 := o3 + [4];
    var o5 := o4 + [5];
    assert o5 == [1, 2, 3, 4, 5];
    var one: seq<int> := [1];
    var oneFour := one + [4];
    StartsIncreasingHead();
    assert ReachedFromAny(adj, oneFour, 5) by {
      TestAdjPaths();
      assert oneFour[1] == 4;
    }
    assert !ReachedFromAny(adj, one, 4) by {
      TestAdjClosed();
      NotReachedFromAny(adj, one, {1, 2, 3}, 4);
    }
    StartsSnoc(adj, o3, 4);
    StartsSnoc(adj, o4, 5);
  }

  /** Ranging over the keys as 3, 2, 1: none reaches the next, so each is a start. */
  lemma StartsReversedHead()
    ensures Starts(TestAdj(), [3, 2, 1]) == [3, 2, 1]
  {
    var adj := TestAdj();
    var o0: seq<int> := [];
    var o1 := o0 + [3];
    var o2 := o1 + [2];
    var o3 := o2 + [1];
    assert o3 == [3, 2, 1];
    assert !ReachedFromAny(adj, o1, 2) && !ReachedFromAny(adj, o2, 1) by {
      TestAdjClosed();
      NotReachedFromAny(adj, o1, {3}, 2);
      NotReachedFromAny(adj, o2, {2, 3}, 1);
    }
    StartsSnoc(adj, o0, 3);
    assert Starts(adj, o1) == o1;
    StartsSnoc(adj, o1, 2);
    StartsSnoc(adj, o2, 1);
  }

  /** Ranging over them as 3, 2, 1, 5, 4 starts a traversal at every key. */
  lemma StartsReversed()
    ensures Starts(TestAdj(), [3, 2, 1, 5, 4]) == [3, 2, 1, 5, 4]
  {
    var adj := TestAdj();
    var o3: seq<int> := [3, 2, 1];
    var o4 := o3 + [5];
    var o5 := o4 + [4];
    assert o5 == [3, 2, 1, 5, 4];
    StartsReversedHead();
    assert !ReachedFromAny(adj, o3, 5) && !ReachedFromAny(adj, o4, 4) by {
      TestAdjClosed();
      NotReachedFromAny(adj, o3, {1, 2, 3}, 5);
      NotReachedFromAny(adj, o4, {1, 2, 3, 5}, 4);
    }
    StartsSnoc(adj, o3, 5);
    StartsSnoc(adj, o4, 4);
  }

  /** In the fan-in graph, 2 has in-degree two and every other id none. */
  lemma FanInDegrees(x: int)
    ensures InDegree(FanInAdj(), x) == if x == 2 then 2 else 0
  {
    var adj := FanInAdj();
    assert adj.Keys == {1, 2, 3};
    SumOverThree(adj.Keys, CountIn(adj, x), 1, 2, 3);
    FanInCounts(x);
  }

  /** A sum over three distinct keys. */
  lemma SumOverThree(ks: set<int>, w: int -> int, a: int, b: int, c: int)
    requires ks == {a, b, c} && a != b && b != c && a != c
    ensures SumOver(ks, w) == w(a) + w(b) + w(c)
  {
    SumOverPick(ks, w, a);
    assert ks - {a} == {b, c};
    SumOverPick({b, c}, w, b);
    assert {b, c} - {b} == {c};
    SumOverPick({c}, w, c);
    assert {c} - {c} == {};
  }

  /** How often `x` occurs in each of the fan-in graph's three lists. */
  lemma FanInCounts(x: int)
    ensures CountIn(FanInAdj(), x)(1) + CountIn(FanInAdj(), x)(2) + CountIn(FanInAdj(), x)(3)
            == if x == 2 then 2 else 0
  {
    var adj := FanInAdj();
    CountInAt(adj, x, 1);
    CountInAt(adj, x, 2);
    CountInAt(adj, x, 3);
  }

  /** Every id the fan-in graph mentions is a key. */
  lemma FanInIds()
    ensures AllIds(FanInAdj()) == {1, 2, 3}
  {
    var adj := FanInAdj();
    forall x | x in Targets(adj) ensures x == 2 {
      var k :| k in adj && x in adj[k];
    }
    assert 2 in adj[1];
  }

  /** In the chain, the ids within two hops of 1 are 1, 2 and 3. */
  lemma ChainWithinTwo(p: seq<int>, v: int)
    requires PathBetween(ChainAdj(), p, 1, v) && |p| <= 3
    ensures v == 1 || v == 2 || v == 3
  {
    var adj := ChainAdj();
    if |p| >= 2 {
      assert p[1] in Succ(adj, p[0]);
      if |p| == 3 {
        assert p[2] in Succ(adj, p[1]);
      }
    }
  }

  /** Any distinct list holding exactly the ids within two hops of 1 in the chain, 1 excepted, is 2 and 3. */
  lemma ChainWithinDepthTwo(result: seq<int>)
    requires Distinct(result)
    requires forall v :: v in result <==> v != 1 && ReachableWithin(ChainAdj(), 1, v, 2)
    ensures |result| == 2 && forall v :: v in result <==> v == 2 || v == 3
  {
    var adj := ChainAdj();
    assert PathBetween(adj, [1, 2], 1, 2);
    assert PathBetween(adj, [1, 2, 3], 1, 3);
    forall v | v in result ensures v == 2 || v == 3 {
      var p :| PathBetween(adj, p, 1, v) && |p| <= 3;
      ChainWithinTwo(p, v);
    }
    assert (set x | x in result) == {2, 3};
    DistinctSetSize(result);
  }

  // ---------------------------------------------------------------------------
  // The tests
  // ---------------------------------------------------------------------------

  /** TestShortestPathSuccess: the path from 1 to 3 is [1, 2, 3]. */
  method ShortestPathSuccess() returns (path: Option<seq<int>>)
    ensures path == Some([1, 2, 3])
  {
    var g := SetupTestGraph();
    path := g.ShortestPath(1, 3);
    TestAdjPaths();
    TestAdjPathsOneToThree(path.value);
  }

  /** TestShortestPathNoPath: 5 is not reachable from 1, so the result is nil. */
  method ShortestPathNoPath() returns (path: Option<seq<int>>)
    ensures path == None
  {
    var g := SetupTestGraph();
    path := g.ShortestPath(1, 5);
    TestAdjClosed();
    if Reachable(g.adj, 1, 5) {
      ClosedContainsReachable(g.adj, {1, 2, 3}, 1, 5);
    }
  }

  /** TestInfluenceInDegree, with the other fields: in 2, out 0, normalised 2 / (3 - 1). */
  method InfluenceInDegree() returns (m: InfluenceMetrics)
    ensures m == InfluenceMetrics(2, 2, 0, Ratio(2, 2))
  {
    var g := SetupFanIn();
    m := g.Influence(2);
    FanInDegrees(2);
  }

  /** TestTopInfluencers: with limit 1 the answer is [2]. */
  method TopInfluencer() returns (top: seq<int>)
    ensures top == [2]
  {
    var g := SetupFanIn();
    top := g.TopInfluencers(1);
    FanInIds();
    var first := top[0];
    FanInDegrees(first);
    FanInDegrees(2);
  }

  /** TestConnectedComponents: 2, when the keys are ranged over in increasing order. */
  method ComponentsIncreasing() returns (components: int)
    ensures components == 2
  {
    var g := SetupTestGraph();
    components := g.ConnectedComponents([1, 2, 3, 4, 5]);
    StartsIncreasing();
  }

  /** The same graph ranged over as 3, 2, 1, 5, 4: every key starts a traversal, so 5. */
  method ComponentsReversed() returns (components: int)
    ensures components == 5
  {
    var g := SetupTestGraph();
    components := g.ConnectedComponents([3, 2, 1, 5, 4]);
    StartsReversed();
  }

  /** On 1→2→3→4, the connections of 1 within depth 2 are 2 and 3. */
  method WithinDepthTwo() returns (result: seq<int>)
    ensures |result| == 2 && forall v :: v in result <==> v == 2 || v == 3
  {
    var g := new Graph();
    g.AddEdge(1, 2);
    g.AddEdge(2, 3);
    g.AddEdge(3, 4);
    ChainBuilt();
    result := g.ConnectionsWithinDepth(1, 2);
    ChainWithinDepthTwo(result);
  }

  /** LoadGraph over users 1, 2, 3 and the rows (1, 2), (3, 2) gives the same graph and influence. */
  method InfluenceAfterLoad() returns (m: InfluenceMetrics)
    ensures m == InfluenceMetrics(2, 2, 0, Ratio(2, 2))
  {
    var rows := [Connection(1, 2), Connection(3, 2)];
    var g := LoadGraph([1, 2, 3], rows);
    FanInLoaded();
    FanInDegrees(2);
    assert g.adj == FanInAdj();
    m := g.Influence(2);
  }
}
