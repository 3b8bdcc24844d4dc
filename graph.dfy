/**
  The in-memory directed social graph (`Graph` in internal/graph/graph.go):
  one adjacency map updated in place, and the read-only queries run over it.
  Every call is one atomic sequential step; the reader-writer lock is not
  modelled.
 */
module Graph {
  import opened Adjacency
  import opened Ranking
  import opened Components

  /** A fraction kept exact: the float64 division of the source, before rounding. */
  datatype Ratio = Ratio(num: int, den: int)

  datatype InfluenceMetrics = InfluenceMetrics(userId: int, inDegree: int, outDegree: int, normalizedInDegree: Ratio)

  /** A breadth-first queue entry of ConnectionsWithinDepth. */
  datatype NodeDepth = NodeDepth(node: int, depth: int)

  /** Go's `m[x]` on a `map[int]int`: zero for a missing key. */
  function Get(m: map<int, int>, x: int): int
  {
    if x in m then m[x] else 0
  }

  function Nodes(q: seq<NodeDepth>): (r: seq<int>)
    ensures |r| == |q| && forall i :: 0 <= i < |q| ==> r[i] == q[i].node
  {
    if q == [] then [] else [q[0].node] + Nodes(q[1..])
  }

  /** One queue entry per id of `ns`, in order, each at depth `d`. */
  function AtDepth(ns: seq<int>, d: int): (r: seq<NodeDepth>)
    ensures Nodes(r) == ns && forall i :: 0 <= i < |r| ==> r[i].depth == d
    decreases |ns|
  {
    if ns == [] then []
    else AtDepth(ns[..|ns| - 1], d) + [NodeDepth(ns[|ns| - 1], d)]
  }

  lemma AtDepthAppend(ns: seq<int>, x: int, d: int)
    ensures AtDepth(ns + [x], d) == AtDepth(ns, d) + [NodeDepth(x, d)]
  {
    assert (ns + [x])[..|ns|] == ns;
  }

  /**
    One more entry of the score list: the pair of a key not yet listed keeps
    the ids distinct and each score equal to the key's count.
   */
  lemma ScoreAppend(m: map<int, int>, scores: seq<UserScore>, rest: set<int>, id: int)
    requires rest <= m.Keys && id in rest
    requires UniqueIds(scores) && IdsOf(scores) == m.Keys - rest
    requires forall e :: e in scores ==> e.id in m && e.score == m[e.id]
    ensures UniqueIds(scores + [UserScore(id, m[id])])
    ensures IdsOf(scores + [UserScore(id, m[id])]) == m.Keys - (rest - {id})
    ensures forall e :: e in scores + [UserScore(id, m[id])] ==> e.id in m && e.score == m[e.id]
  {
    var s' := scores + [UserScore(id, m[id])];
    assert IdsOf(s') == IdsOf(scores) + {id};
    forall i, j | 0 <= i < j < |s'| ensures s'[i].id != s'[j].id {
      assert s'[i] == scores[i];
      if j == |scores| {
        assert scores[i] in scores;
      } else {
        assert s'[j] == scores[j];
      }
    }
  }

  // ---------------------------------------------------------------------------
  // The state of TopInfluencers' counting loop
  // ---------------------------------------------------------------------------

  /**
    After ranging over the keys outside `remaining`, the map holds a count for
    every key and every target seen so far, and each count plus what the
    remaining lists contribute is the in-degree.
   */
  ghost predicate Counted(adj: AdjMap, remaining: set<int>, m: map<int, int>)
  {
    && m.Keys == adj.Keys + TargetsIn(adj, adj.Keys - remaining)
    && forall x {:trigger Get(m, x)} :: Get(m, x) + SumOver(remaining, CountIn(adj, x)) == InDegree(adj, x)
  }

  /** Counting the list of one more key `k` keeps the count correct. */
  lemma CountedStep(adj: AdjMap, remaining: set<int>, k: int, before: map<int, int>, after: map<int, int>)
    requires remaining <= adj.Keys && k in remaining && Counted(adj, remaining, before)
    requires after.Keys == before.Keys + (set y | y in adj[k])
    requires forall x :: Get(after, x) == Get(before, x) + multiset(adj[k])[x]
    ensures Counted(adj, remaining - {k}, after)
  {
    TargetsInAdd(adj, adj.Keys - remaining, k);
    assert adj.Keys - (remaining - {k}) == (adj.Keys - remaining) + {k};
    forall x ensures Get(after, x) + SumOver(remaining - {k}, CountIn(adj, x)) == InDegree(adj, x) {
      SumOverPick(remaining, CountIn(adj, x), k);
      CountInAt(adj, x, k);
      assert Get(after, x) == Get(before, x) + multiset(adj[k])[x];
    }
  }

  // ---------------------------------------------------------------------------
  // The state of a breadth-first search between steps (ShortestPath and
  // ConnectionsWithinDepth).  `dist` records the BFS level of every visited
  // node and `level` is the level of the node being expanded.
  // ---------------------------------------------------------------------------

  /** The root is at level 0 and no visited node is more than one level past `level`. */
  ghost predicate Levels(src: int, dist: map<int, int>, level: int)
  {
    src in dist && dist[src] == 0 && forall v :: v in dist ==> 0 <= dist[v] <= level + 1
  }

  /** The parent map is a tree of edges into `src`'s search, each climbing exactly one level. */
  ghost predicate ParentTree(adj: AdjMap, src: int, visited: set<int>, parent: map<int, int>, dist: map<int, int>, level: int)
  {
    && visited == dist.Keys && Levels(src, dist, level)
    && parent.Keys == visited - {src}
    && (forall v :: v in parent ==> parent[v] in visited && v in Succ(adj, parent[v]) && dist[v] == dist[parent[v]] + 1)
  }

  /** The FIFO queue holds visited nodes in non-decreasing level, spanning two levels at most. */
  ghost predicate LayeredQueue(queue: seq<int>, dist: map<int, int>, level: int)
  {
    && (forall i :: 0 <= i < |queue| ==> queue[i] in dist && level <= dist[queue[i]] <= level + 1)
    && (forall i, j :: 0 <= i < j < |queue| ==> dist[queue[i]] <= dist[queue[j]])
  }

  /** Fully expanded nodes: every successor is visited, at most one level further. */
  ghost predicate ExpandedNodes(adj: AdjMap, processed: set<int>, dist: map<int, int>)
  {
    && processed <= dist.Keys
    && forall u, v :: u in processed && v in Succ(adj, u) ==> v in dist && dist[v] <= dist[u] + 1
  }

  /** Taking the head of the queue moves the current level up to the head's level. */
  lemma DequeueKeepsLayers(src: int, dist: map<int, int>, rest: seq<int>, level: int, current: int)
    requires Levels(src, dist, level)
    requires LayeredQueue([current] + rest, dist, level)
    ensures current in dist && level <= dist[current]
    ensures Levels(src, dist, dist[current])
    ensures LayeredQueue(rest, dist, dist[current])
  {
    var q := [current] + rest;
    assert q[0] == current;
    forall i | 0 <= i < |rest| ensures rest[i] in dist && dist[current] <= dist[rest[i]] <= dist[current] + 1 {
      assert rest[i] == q[i + 1];
    }
    forall i, j | 0 <= i < j < |rest| ensures dist[rest[i]] <= dist[rest[j]] {
      assert rest[i] == q[i + 1] && rest[j] == q[j + 1];
    }
  }

  /** Discovering `next` from the node being expanded puts it one level further, at the back. */
  lemma VisitKeepsLayers(adj: AdjMap, src: int, dist: map<int, int>, queue: seq<int>, processed: set<int>,
                         level: int, current: int, next: int)
    requires Levels(src, dist, level)
    requires LayeredQueue(queue, dist, level)
    requires ExpandedNodes(adj, processed, dist)
    requires current in dist && dist[current] == level && next !in dist
    ensures Levels(src, dist[next := level + 1], level)
    ensures LayeredQueue(queue + [next], dist[next := level + 1], level)
    ensures ExpandedNodes(adj, processed, dist[next := level + 1])
  {
    var dist' := dist[next := level + 1];
    var queue' := queue + [next];
    forall i | 0 <= i < |queue'| ensures queue'[i] in dist' && level <= dist'[queue'[i]] <= level + 1 {
      if i < |queue| {
        assert queue'[i] == queue[i];
      }
    }
    forall i, j | 0 <= i < j < |queue'| ensures dist'[queue'[i]] <= dist'[queue'[j]] {
      if j < |queue| {
        assert queue'[i] == queue[i] && queue'[j] == queue[j];
      } else {
        assert queue'[i] == queue[i];
      }
    }
  }

  /** Discovering `next` from `current` records the edge as `next`'s parent, one level deeper. */
  lemma DiscoverKeepsTree(adj: AdjMap, src: int, visited: set<int>, parent: map<int, int>, dist: map<int, int>,
                          level: int, current: int, next: int)
    requires ParentTree(adj, src, visited, parent, dist, level)
    requires current in visited && dist[current] == level && next in Succ(adj, current) && next !in visited
    ensures ParentTree(adj, src, visited + {next}, parent[next := current], dist[next := level + 1], level)
  {
  }

  /** Everything ShortestPath keeps true while `current`, at `level`, is being expanded. */
  ghost predicate Expanding(adj: AdjMap, src: int, visited: set<int>, parent: map<int, int>, dist: map<int, int>,
                            queue: seq<int>, processed: set<int>, level: int, current: int)
  {
    && ParentTree(adj, src, visited, parent, dist, level)
    && LayeredQueue(queue, dist, level)
    && ExpandedNodes(adj, processed, dist)
    && current in visited && dist[current] == level
    && forall v :: v in visited ==> v in processed || v in queue || v == current
  }

  /** Discovering a successor of `current` (Go's three updates) keeps that state. */
  lemma DiscoverKeepsExpanding(adj: AdjMap, src: int, visited: set<int>, parent: map<int, int>, dist: map<int, int>,
                               queue: seq<int>, processed: set<int>, level: int, current: int, next: int)
    requires Expanding(adj, src, visited, parent, dist, queue, processed, level, current)
    requires next in Succ(adj, current) && next !in visited
    ensures Expanding(adj, src, visited + {next}, parent[next := current], dist[next := level + 1],
                      queue + [next], processed, level, current)
  {
    VisitKeepsLayers(adj, src, dist, queue, processed, level, current, next);
    DiscoverKeepsTree(adj, src, visited, parent, dist, level, current, next);
  }

  /**
    What one expansion of `current` has added to a search that had visited
    `visited0` with parents `parent0`: every new node is a child of `current`
    one level deeper, and the earlier parents stay.
   */
  ghost predicate ChildrenOf(current: int, level: int, visited0: set<int>, parent0: map<int, int>,
                             visited: set<int>, parent: map<int, int>, dist: map<int, int>)
  {
    && (forall v :: v in visited && v !in visited0 ==> v in parent && parent[v] == current && v in dist && dist[v] == level + 1)
    && (forall v :: v in parent0 ==> v in parent && parent[v] == parent0[v])
  }

  lemma ChildStep(current: int, level: int, visited0: set<int>, parent0: map<int, int>,
                  visited: set<int>, parent: map<int, int>, dist: map<int, int>, next: int)
    requires ChildrenOf(current, level, visited0, parent0, visited, parent, dist)
    requires parent0.Keys <= visited0 <= visited && next !in visited
    ensures ChildrenOf(current, level, visited0, parent0, visited + {next}, parent[next := current], dist[next := level + 1])
  {
  }

  /** Once every successor of `current` is visited, `current` counts as expanded. */
  lemma ExpansionDone(adj: AdjMap, src: int, dist: map<int, int>, processed: set<int>, level: int, current: int)
    requires Levels(src, dist, level)
    requires ExpandedNodes(adj, processed, dist)
    requires current in dist && dist[current] == level
    requires forall k :: 0 <= k < |Succ(adj, current)| ==> Succ(adj, current)[k] in dist
    ensures ExpandedNodes(adj, processed + {current}, dist)
  {
  }

  // ---------------------------------------------------------------------------
  // The extra state of ConnectionsWithinDepth's search
  // ---------------------------------------------------------------------------

  lemma NodesAppend(q: seq<NodeDepth>, x: NodeDepth)
    ensures Nodes(q + [x]) == Nodes(q) + [x.node]
  {
    var l, r := Nodes(q + [x]), Nodes(q) + [x.node];
    assert |l| == |r|;
    forall i | 0 <= i < |l| ensures l[i] == r[i] {
      assert (q + [x])[i] == if i < |q| then q[i] else x;
    }
  }

  lemma NodesAppendFront(x: NodeDepth, q: seq<NodeDepth>)
    ensures Nodes([x] + q) == [x.node] + Nodes(q)
  {
    assert ([x] + q)[1..] == q;
  }

  /** Every visited node carries a witness path from the root with as many edges as its level. */
  ghost predicate Witnessed(adj: AdjMap, src: int, dist: map<int, int>, via: map<int, seq<int>>)
  {
    forall v :: v in dist ==> v in via && PathBetween(adj, via[v], src, v) && |via[v]| == dist[v] + 1
  }

  /** Each queue entry's `depth` is its node's BFS level. */
  ghost predicate DepthsMatch(queue: seq<NodeDepth>, dist: map<int, int>)
  {
    forall i :: 0 <= i < |queue| ==> queue[i].node in dist && queue[i].depth == dist[queue[i].node]
  }

  /** `result` lists every visited node except the root, each once. */
  ghost predicate Collected(src: int, visited: set<int>, result: seq<int>)
  {
    Distinct(result) && forall v :: v in result <==> v in visited && v != src
  }

  /** Everything ConnectionsWithinDepth keeps true between two steps of its search. */
  ghost predicate SearchState(adj: AdjMap, src: int, depth: int, visited: set<int>, queue: seq<NodeDepth>,
                              result: seq<int>, dist: map<int, int>, via: map<int, seq<int>>,
                              processed: set<int>, level: int)
  {
    && visited == dist.Keys && Levels(src, dist, level)
    && Witnessed(adj, src, dist, via)
    && DepthsMatch(queue, dist) && LayeredQueue(Nodes(queue), dist, level)
    && ExpandedNodes(adj, processed, dist)
    && Collected(src, visited, result)
    && (depth >= 0 ==> forall v :: v in dist ==> dist[v] <= depth)
  }

  /** Discovering `next` from an entry below the depth limit keeps the search state. */
  lemma DiscoverKeepsState(adj: AdjMap, src: int, depth: int, visited: set<int>, queue: seq<NodeDepth>,
                           result: seq<int>, dist: map<int, int>, via: map<int, seq<int>>,
                           processed: set<int>, level: int, current: NodeDepth, next: int)
    requires SearchState(adj, src, depth, visited, queue, result, dist, via, processed, level)
    requires current.node in dist && current.depth == dist[current.node] == level
    requires depth < 0 || level < depth
    requires next in Succ(adj, current.node) && next !in visited
    ensures SearchState(adj, src, depth, visited + {next}, queue + [NodeDepth(next, current.depth + 1)],
                        result + [next], dist[next := level + 1], via[next := via[current.node] + [next]],
                        processed, level)
    ensures Nodes(queue + [NodeDepth(next, current.depth + 1)]) == Nodes(queue) + [next]
  {
    var entry := NodeDepth(next, current.depth + 1);
    VisitKeepsLayers(adj, src, dist, Nodes(queue), processed, level, current.node, next);
    PathExtend(adj, via[current.node], src, current.node, next);
    NodesAppend(queue, entry);
    var queue', dist' := queue + [entry], dist[next := level + 1];
    forall i | 0 <= i < |queue'| ensures queue'[i].node in dist' && queue'[i].depth == dist'[queue'[i].node] {
      if i < |queue| {
        assert queue'[i] == queue[i];
      }
    }
    var result' := result + [next];
    forall i, j | 0 <= i < j < |result'| ensures result'[i] != result'[j] {
      assert result'[i] == result[i];
    }
  }

  /** Taking the head of the queue moves the current level up to the head's depth. */
  lemma PopKeepsState(adj: AdjMap, src: int, depth: int, visited: set<int>, queue: seq<NodeDepth>,
                      result: seq<int>, dist: map<int, int>, via: map<int, seq<int>>,
                      processed: set<int>, level: int)
    requires SearchState(adj, src, depth, visited, queue, result, dist, via, processed, level) && |queue| > 0
    ensures queue[0].node in dist && queue[0].depth == dist[queue[0].node] && level <= queue[0].depth
    ensures SearchState(adj, src, depth, visited, queue[1..], result, dist, via, processed, queue[0].depth)
    ensures Nodes(queue) == [queue[0].node] + Nodes(queue[1..])
  {
    var rest := queue[1..];
    assert Nodes(queue) == [queue[0].node] + Nodes(rest) by {
      assert queue == [queue[0]] + rest;
      NodesAppendFront(queue[0], rest);
    }
    assert Levels(src, dist, queue[0].depth) && LayeredQueue(Nodes(rest), dist, queue[0].depth) by {
      DequeueKeepsLayers(src, dist, Nodes(rest), level, queue[0].node);
    }
    assert DepthsMatch(rest, dist) by {
      forall i | 0 <= i < |rest| ensures rest[i].node in dist && rest[i].depth == dist[rest[i].node] {
        assert rest[i] == queue[i + 1];
      }
    }
  }

  /**
    What one expansion step adds to the search: visited nodes keep their level,
    queued nodes stay queued and every newly visited node is queued.
   */
  ghost predicate Extends(visited0: set<int>, queue0: seq<NodeDepth>, dist0: map<int, int>,
                          visited: set<int>, queue: seq<NodeDepth>, dist: map<int, int>)
  {
    && visited0 <= visited
    && (forall v :: v in dist0 ==> v in dist && dist[v] == dist0[v])
    && (visited == visited0 ==> queue == queue0)
    && (forall v :: v in Nodes(queue0) ==> v in Nodes(queue))
    && (forall v :: v in visited && v !in visited0 ==> v in Nodes(queue))
  }

  lemma ExtendsStep(visited0: set<int>, queue0: seq<NodeDepth>, dist0: map<int, int>,
                    visited: set<int>, queue: seq<NodeDepth>, dist: map<int, int>, entry: NodeDepth, d: int)
    requires Extends(visited0, queue0, dist0, visited, queue, dist)
    requires visited0 == dist0.Keys && entry.node !in dist
    ensures Extends(visited0, queue0, dist0, visited + {entry.node}, queue + [entry], dist[entry.node := d])
  {
    NodesAppend(queue, entry);
  }

  /**
    The state of ConnectionsWithinDepth's inner loop after the first `j`
    successors `ns` of `current`: the search state holds, and the pass has
    appended the fresh successors to the result and, one level deeper, to the
    queue.
   */
  ghost predicate Visiting(adj: AdjMap, src: int, depth: int, current: NodeDepth, ns: seq<int>, j: int,
                           visited0: set<int>, queue0: seq<NodeDepth>, result0: seq<int>, dist0: map<int, int>,
                           visited: set<int>, queue: seq<NodeDepth>, result: seq<int>, dist: map<int, int>,
                           via: map<int, seq<int>>, processed: set<int>, level: int)
    requires 0 <= j <= |ns|
  {
    && SearchState(adj, src, depth, visited, queue, result, dist, via, processed, level)
    && Extends(visited0, queue0, dist0, visited, queue, dist)
    && Scanned(ns, j, visited0, result0, visited, result)
    && queue == queue0 + AtDepth(Fresh(ns[..j], visited0), current.depth + 1)
    && visited <= visited0 + AllIds(adj)
  }

  /** A successor already visited is passed over. */
  lemma SkipVisited(adj: AdjMap, src: int, depth: int, current: NodeDepth, ns: seq<int>, j: int,
                    visited0: set<int>, queue0: seq<NodeDepth>, result0: seq<int>, dist0: map<int, int>,
                    visited: set<int>, queue: seq<NodeDepth>, result: seq<int>, dist: map<int, int>,
                    via: map<int, seq<int>>, processed: set<int>, level: int)
    requires 0 <= j < |ns| && ns[j] in visited
    requires Visiting(adj, src, depth, current, ns, j, visited0, queue0, result0, dist0,
                      visited, queue, result, dist, via, processed, level)
    ensures Visiting(adj, src, depth, current, ns, j + 1, visited0, queue0, result0, dist0,
                     visited, queue, result, dist, via, processed, level)
  {
    ScanStep(ns, j, visited0, result0, visited, result);
    FreshStep(ns, visited0, j);
  }

  /** An unvisited successor is marked, collected and queued one level deeper. */
  lemma VisitFresh(adj: AdjMap, src: int, depth: int, current: NodeDepth, ns: seq<int>, j: int,
                   visited0: set<int>, queue0: seq<NodeDepth>, result0: seq<int>, dist0: map<int, int>,
                   visited: set<int>, queue: seq<NodeDepth>, result: seq<int>, dist: map<int, int>,
                   via: map<int, seq<int>>, processed: set<int>, level: int)
    requires 0 <= j < |ns| && ns == Succ(adj, current.node) && ns[j] !in visited
    requires current.node in dist && current.depth == dist[current.node] == level
    requires depth < 0 || level < depth
    requires visited0 == dist0.Keys
    requires Visiting(adj, src, depth, current, ns, j, visited0, queue0, result0, dist0,
                      visited, queue, result, dist, via, processed, level)
    ensures Visiting(adj, src, depth, current, ns, j + 1, visited0, queue0, result0, dist0,
                     visited + {ns[j]}, queue + [NodeDepth(ns[j], current.depth + 1)], result + [ns[j]],
                     dist[ns[j] := level + 1], via[ns[j] := via[current.node] + [ns[j]]], processed, level)
  {
    var next, entry := ns[j], NodeDepth(ns[j], current.depth + 1);
    assert next in Succ(adj, current.node);
    DiscoverKeepsState(adj, src, depth, visited, queue, result, dist, via, processed, level, current, next);
    ExtendsStep(visited0, queue0, dist0, visited, queue, dist, entry, level + 1);
    ScanFresh(adj, current, ns, j, visited0, queue0, result0, visited, queue, result);
  }

  /** The list-scan half of VisitFresh: result, queue and the visited bound. */
  lemma ScanFresh(adj: AdjMap, current: NodeDepth, ns: seq<int>, j: int,
                  visited0: set<int>, queue0: seq<NodeDepth>, result0: seq<int>,
                  visited: set<int>, queue: seq<NodeDepth>, result: seq<int>)
    requires 0 <= j < |ns| && ns == Succ(adj, current.node) && ns[j] !in visited
    requires Scanned(ns, j, visited0, result0, visited, result)
    requires queue == queue0 + AtDepth(Fresh(ns[..j], visited0), current.depth + 1)
    requires visited <= visited0 + AllIds(adj)
    ensures Scanned(ns, j + 1, visited0, result0, visited + {ns[j]}, result + [ns[j]])
    ensures queue + [NodeDepth(ns[j], current.depth + 1)] ==
            queue0 + AtDepth(Fresh(ns[..j + 1], visited0), current.depth + 1)
    ensures visited + {ns[j]} <= visited0 + AllIds(adj)
  {
    var next := ns[j];
    ScanStep(ns, j, visited0, result0, visited, result);
    var marked := Fresh(ns[..j], visited0);
    assert Fresh(ns[..j + 1], visited0) == marked + [next] by {
      assert next !in visited0 && next !in ns[..j];
      FreshStep(ns, visited0, j);
    }
    AtDepthAppend(marked, next, current.depth + 1);
    SuccInAllIds(adj, current.node, next);
  }

  /**
    Every visited node is expanded, still queued or at the depth limit, and
    only nodes below the limit are expanded.
   */
  ghost predicate Covered(depth: int, visited: set<int>, processed: set<int>, queue: seq<NodeDepth>, dist: map<int, int>)
  {
    && (forall v :: v in processed ==> v in dist && (depth < 0 || dist[v] < depth))
    && (forall v :: v in visited ==> v in processed || v in Nodes(queue) || (v in dist && dist[v] == depth))
  }

  /** Dropping a dequeued entry at the depth limit keeps every node covered. */
  lemma SkipKeepsCoverage(depth: int, visited: set<int>, processed: set<int>, queue: seq<NodeDepth>, dist: map<int, int>)
    requires Covered(depth, visited, processed, queue, dist) && |queue| > 0
    requires Nodes(queue) == [queue[0].node] + Nodes(queue[1..])
    requires queue[0].node in dist && dist[queue[0].node] == depth
    ensures Covered(depth, visited, processed, queue[1..], dist)
  {
  }

  /** Expanding the dequeued entry below the depth limit keeps every node covered. */
  lemma ExpandKeepsCoverage(depth: int, visited0: set<int>, processed: set<int>, queue0: seq<NodeDepth>,
                            dist0: map<int, int>, visited: set<int>, queue: seq<NodeDepth>, dist: map<int, int>)
    requires Covered(depth, visited0, processed, queue0, dist0) && |queue0| > 0
    requires Nodes(queue0) == [queue0[0].node] + Nodes(queue0[1..])
    requires queue0[0].node in dist0 && (depth < 0 || dist0[queue0[0].node] < depth)
    requires Extends(visited0, queue0[1..], dist0, visited, queue, dist)
    ensures Covered(depth, visited, processed + {queue0[0].node}, queue, dist)
  {
  }

  /**
    When the search stops, every visited node below `depth` has been expanded
    (below any level at all when `depth` is negative), so what was collected is
    exactly what lies within `depth` hops of the root.
   */
  lemma CollectedIsWithinDepth(adj: AdjMap, src: int, depth: int, dist: map<int, int>, via: map<int, seq<int>>,
                               processed: set<int>, level: int, result: seq<int>)
    requires SearchState(adj, src, depth, dist.Keys, [], result, dist, via, processed, level)
    requires Covered(depth, dist.Keys, processed, [], dist)
    ensures depth >= 0 ==> forall v :: v in result <==> v != src && ReachableWithin(adj, src, v, depth)
    ensures depth < 0 ==> forall v :: v in result <==> v != src && Reachable(adj, src, v)
  {
    if depth >= 0 {
      forall v ensures v in result <==> v != src && ReachableWithin(adj, src, v, depth) {
        if v in result {
          assert PathBetween(adj, via[v], src, v);
        }
        if v != src && ReachableWithin(adj, src, v, depth) {
          var p :| PathBetween(adj, p, src, v) && |p| <= depth + 1;
          forall u, w | u in dist && dist[u] < depth && w in Succ(adj, u)
            ensures w in dist && dist[w] <= dist[u] + 1
          {
            assert u in processed;
          }
          LayeredPathBound(adj, dist, depth, p);
        }
      }
    } else {
      assert ClosedUnder(adj, dist.Keys) by {
        forall u, w | u in dist && w in Succ(adj, u) ensures w in dist {
          assert u in processed;
        }
      }
      forall v ensures v in result <==> v != src && Reachable(adj, src, v) {
        if v in result {
          assert PathBetween(adj, via[v], src, v);
        }
        if v != src && Reachable(adj, src, v) {
          ClosedContainsReachable(adj, dist.Keys, src, v);
        }
      }
    }
  }

  /** A search that visits a new node of a fixed bound leaves fewer nodes to visit. */
  lemma FewerLeft(bound: set<int>, before: set<int>, after: set<int>)
    requires before <= after <= bound && after != before
    ensures bound - after < bound - before
  {
    assert bound - (bound - after) == after;
    assert bound - (bound - before) == before;
  }

  class Graph {
    var adj: AdjMap

    /** NewGraph: an empty map. */
    constructor ()
      ensures adj == map[]
    {
      adj := map[];
    }

    method AddNode(id: int)
      modifies this
      ensures adj == WithNode(old(adj), id)
      ensures old(EndpointsAreNodes(adj)) ==> EndpointsAreNodes(adj)
      ensures TotalEdges(adj) == old(TotalEdges(adj))
      ensures forall x :: InDegree(adj, x) == old(InDegree(adj, x))
    {
      if id !in adj {
        adj := adj[id := []];
      }
      if old(EndpointsAreNodes(adj)) {
        WithNodeKeepsEndpoints(old(adj), id);
      }
      EdgeCountNewNode(old(adj), id);
      forall x ensures InDegree(adj, x) == old(InDegree(adj, x)) {
        InDegreeNewNode(old(adj), id, x);
      }
    }

    method AddEdge(from: int, to: int)
      modifies this
      ensures adj == WithEdge(old(adj), from, to)
      ensures TotalEdges(adj) == old(TotalEdges(adj)) + 1
      ensures forall x :: InDegree(adj, x) == old(InDegree(adj, x)) + (if x == to then 1 else 0)
      ensures old(EndpointsAreNodes(adj)) ==> EndpointsAreNodes(adj)
    {
      if from !in adj {
        adj := adj[from := []];
      }
      if to !in adj {
        adj := adj[to := []];
      }
      adj := adj[from := adj[from] + [to]];
      EdgeCountWithEdge(old(adj), from, to);
      forall x ensures InDegree(adj, x) == old(InDegree(adj, x)) + (if x == to then 1 else 0) {
        InDegreeWithEdge(old(adj), from, to, x);
      }
      if old(EndpointsAreNodes(adj)) {
        WithEdgeKeepsEndpoints(old(adj), from, to);
      }
    }

    method HasNode(id: int) returns (present: bool)
      ensures present <==> id in adj
    {
      present := id in adj;
    }

    method NodeCount() returns (n: int)
      ensures n == |adj|
    {
      n := |adj|;
    }

    method EdgeCount() returns (count: int)
      ensures count == TotalEdges(adj)
    {
      count := 0;
      var remaining := adj.Keys;
      while |remaining| != 0
        invariant remaining <= adj.Keys
        invariant count + SumOver(remaining, Lens(adj)) == TotalEdges(adj)
        decreases |remaining|
      {
        NonEmptyHasMember(remaining);
        var k :| k in remaining;
        SumOverPick(remaining, Lens(adj), k);
        count := count + |adj[k]|;
        remaining := remaining - {k};
      }
    }

    /** Zero both for an absent id and for a node without outgoing edges. */
    method OutDegree(userId: int) returns (n: int)
      ensures n == |Succ(adj, userId)|
      ensures userId !in adj ==> n == 0
    {
      n := |Succ(adj, userId)|;
    }

    /** The full scan for the in-degree, done while the caller holds the lock. */
    method InDegreeUnsafe(userId: int) returns (count: int)
      ensures count == InDegree(adj, userId)
    {
      count := 0;
      var remaining := adj.Keys;
      while |remaining| != 0
        invariant remaining <= adj.Keys
        invariant count + SumOver(remaining, CountIn(adj, userId)) == InDegree(adj, userId)
        decreases |remaining|
      {
        NonEmptyHasMember(remaining);
        var k :| k in remaining;
        SumOverPick(remaining, CountIn(adj, userId), k);
        var occurrences := Occurrences(adj[k], userId);
        count := count + occurrences;
        remaining := remaining - {k};
      }
    }

    /** The inner loop of inDegreeUnsafe: how many times `userId` occurs in one adjacency list. */
    static method Occurrences(neighbors: seq<int>, userId: int) returns (count: int)
      ensures count == multiset(neighbors)[userId]
    {
      count := 0;
      for j := 0 to |neighbors|
        invariant count == multiset(neighbors[..j])[userId]
      {
        assert neighbors[..j + 1] == neighbors[..j] + [neighbors[j]];
        if neighbors[j] == userId {
          count := count + 1;
        }
      }
      assert neighbors[..|neighbors|] == neighbors;
    }

    method Influence(userId: int) returns (m: InfluenceMetrics)
      ensures m.userId == userId
      ensures m.inDegree == InDegree(adj, userId)
      ensures m.outDegree == |Succ(adj, userId)|
      ensures m.normalizedInDegree == if |adj| > 1 then Ratio(m.inDegree, |adj| - 1) else Ratio(0, 1)
    {
      var in_ := InDegreeUnsafe(userId);
      var out := |Succ(adj, userId)|;
      var totalNodes := |adj|;
      var normalized := Ratio(0, 1);
      if totalNodes > 1 {
        normalized := Ratio(in_, totalNodes - 1);
      }
      m := InfluenceMetrics(userId, in_, out, normalized);
    }

    /**
      Breadth-first search from `src`; None is Go's nil (no path).  The path is
      rebuilt from the parent map as soon as `dest` is first discovered.
     */
    method ShortestPath(src: int, dest: int) returns (path: Option<seq<int>>)
      ensures src == dest ==> path == Some([src])
      ensures path.Some? ==> PathBetween(adj, path.value, src, dest) && Distinct(path.value)
      ensures path.Some? ==> forall q :: PathBetween(adj, q, src, dest) ==> |path.value| <= |q|
      ensures path.None? <==> !Reachable(adj, src, dest)
    {
      if src == dest {
        ReachableSelf(adj, src);
        return Some([src]);
      }
      var visited: set<int> := {src};
      var parent: map<int, int> := map[];
      var queue: seq<int> := [src];
      // ghost: the BFS level of every visited node, the nodes already fully
      // expanded, and the level of the node being expanded
      ghost var dist: map<int, int> := map[src := 0];
      ghost var processed: set<int> := {};
      ghost var level := 0;
      ghost var bound := AllIds(adj) + {src};

      while |queue| > 0
        invariant ParentTree(adj, src, visited, parent, dist, level)
        invariant LayeredQueue(queue, dist, level)
        invariant ExpandedNodes(adj, processed, dist)
        invariant dest !in visited && visited <= bound
        invariant forall v :: v in visited ==> v in processed || v in queue
        decreases bound - visited, |queue|
      {
        var current := queue[0];
        queue := queue[1..];
        DequeueKeepsLayers(src, dist, queue, level, current);
        level := dist[current];
        var found;
        ghost var visited0 := visited;
        found, visited, parent, queue, dist := ExpandNode(src, dest, current, visited, parent, queue, dist, processed, level);
        if found {
          var p := RebuildPath(src, dest, parent, visited, dist);
          FirstDiscoveryIsShortest(src, dest, dist, processed, queue, current, level);
          return Some(p);
        }
        if visited != visited0 {
          FewerLeft(bound, visited0, visited);
        }
        ExpansionDone(adj, src, dist, processed, level, current);
        processed := processed + {current};
      }
      assert ClosedUnder(adj, visited) by {
        forall u, v | u in visited && v in Succ(adj, u) ensures v in visited {
          assert u in processed;
        }
      }
      if Reachable(adj, src, dest) {
        ClosedContainsReachable(adj, visited, src, dest);
      }
      return None;
    }

    /**
      The inner loop of ShortestPath: visit the unvisited successors of
      `current` in adjacency order, each with `current` as parent and one level
      deeper, stopping as soon as `dest` is discovered.
     */
    method ExpandNode(src: int, dest: int, current: int, visited0: set<int>, parent0: map<int, int>,
                      queue0: seq<int>, ghost dist0: map<int, int>, ghost processed: set<int>, ghost level: int)
      returns (found: bool, visited: set<int>, parent: map<int, int>, queue: seq<int>, ghost dist: map<int, int>)
      requires ParentTree(adj, src, visited0, parent0, dist0, level)
      requires LayeredQueue(queue0, dist0, level)
      requires ExpandedNodes(adj, processed, dist0)
      requires dest !in visited0 && current in visited0 && dist0[current] == level
      requires forall v :: v in visited0 ==> v in processed || v in queue0 || v == current
      ensures ParentTree(adj, src, visited, parent, dist, level)
      ensures LayeredQueue(queue, dist, level)
      ensures ExpandedNodes(adj, processed, dist)
      ensures found <==> dest in Succ(adj, current)
      ensures queue == queue0 + Fresh(UpTo(Succ(adj, current), dest), visited0)
      ensures visited == visited0 + set v | v in UpTo(Succ(adj, current), dest)
      ensures forall v :: v in visited && v !in visited0 ==> parent[v] == current && dist[v] == level + 1
      ensures forall v :: v in parent0 ==> v in parent && parent[v] == parent0[v]
      ensures visited <= visited0 + AllIds(adj)
      ensures visited == visited0 ==> queue == queue0
      ensures current in visited && dist[current] == level
      ensures forall v :: v in visited ==> v in processed || v in queue || v == current
      ensures found <==> dest in visited
      ensures found ==> dist[dest] == level + 1
      ensures !found ==> forall k :: 0 <= k < |Succ(adj, current)| ==> Succ(adj, current)[k] in visited
    {
      visited, parent, queue, dist := visited0, parent0, queue0, dist0;
      var neighbors := Succ(adj, current);
      for j := 0 to |neighbors|
        invariant Expanding(adj, src, visited, parent, dist, queue, processed, level, current)
        invariant Scanned(neighbors, j, visited0, queue0, visited, queue)
        invariant ChildrenOf(current, level, visited0, parent0, visited, parent, dist)
        invariant dest !in visited && visited <= visited0 + AllIds(adj)
        invariant visited == visited0 ==> queue == queue0
      {
        var neighbor := neighbors[j];
        ScanStep(neighbors, j, visited0, queue0, visited, queue);
        if neighbor !in visited {
          SuccInAllIds(adj, current, neighbor);
          DiscoverKeepsExpanding(adj, src, visited, parent, dist, queue, processed, level, current, neighbor);
          ChildStep(current, level, visited0, parent0, visited, parent, dist, neighbor);
          visited := visited + {neighbor};
          parent := parent[neighbor := current];
          dist := dist[neighbor := level + 1];
          queue := queue + [neighbor];
          if neighbor == dest {
            UpToAt(neighbors, dest, j);
            return true, visited, parent, queue, dist;
          }
        }
      }
      assert neighbors[..|neighbors|] == neighbors;
      UpToPrefix(neighbors, dest);
      found := false;
      forall k | 0 <= k < |neighbors| ensures neighbors[k] in visited {
        assert neighbors[k] in neighbors[..|neighbors|];
      }
    }

    /**
      The nodes reachable from `userId` in at most `depth` hops, in breadth-first
      discovery order and without `userId` itself.  A negative `depth` never
      equals an entry's depth, so the search is then unbounded.
     */
    method ConnectionsWithinDepth(userId: int, depth: int) returns (result: seq<int>)
      ensures Distinct(result) && userId !in result
      ensures depth >= 0 ==> forall v :: v in result <==> v != userId && ReachableWithin(adj, userId, v, depth)
      ensures depth < 0 ==> forall v :: v in result <==> v != userId && Reachable(adj, userId, v)
    {
      var visited: set<int> := {userId};
      var queue: seq<NodeDepth> := [NodeDepth(userId, 0)];
      result := [];
      // ghost: levels, a witness path per visited node, the expanded nodes
      ghost var dist: map<int, int> := map[userId := 0];
      ghost var via: map<int, seq<int>> := map[userId := [userId]];
      ghost var processed: set<int> := {};
      ghost var level := 0;
      ghost var bound := AllIds(adj) + {userId};

      while |queue| > 0
        invariant SearchState(adj, userId, depth, visited, queue, result, dist, via, processed, level)
        invariant Covered(depth, visited, processed, queue, dist)
        invariant visited <= bound
        decreases bound - visited, |queue|
      {
        var current := queue[0];
        PopKeepsState(adj, userId, depth, visited, queue, result, dist, via, processed, level);
        ghost var whole := queue;
        queue := queue[1..];
        level := dist[current.node];

        if current.depth == depth {
          SkipKeepsCoverage(depth, visited, processed, whole, dist);
          continue;
        }

        ghost var visited0, queue0, dist0 := visited, queue, dist;
        visited, queue, result, dist, via := VisitWithin(userId, depth, current, visited, queue, result, dist, via, processed, level);
        if visited != visited0 {
          FewerLeft(bound, visited0, visited);
        }
        ExpansionDone(adj, userId, dist, processed, level, current.node);
        ExpandKeepsCoverage(depth, visited0, processed, whole, dist0, visited, queue, dist);
        processed := processed + {current.node};
      }
      assert Nodes(queue) == [];
      CollectedIsWithinDepth(adj, userId, depth, dist, via, processed, level, result);
    }

    /**
      The inner loop of ConnectionsWithinDepth: visit the unvisited successors
      of `current` in adjacency order, appending each to the result and, one
      level deeper, to the queue.
     */
    method VisitWithin(userId: int, depth: int, current: NodeDepth, visited0: set<int>, queue0: seq<NodeDepth>,
                       result0: seq<int>, ghost dist0: map<int, int>, ghost via0: map<int, seq<int>>,
                       ghost processed: set<int>, ghost level: int)
      returns (visited: set<int>, queue: seq<NodeDepth>, result: seq<int>, ghost dist: map<int, int>,
               ghost via: map<int, seq<int>>)
      requires SearchState(adj, userId, depth, visited0, queue0, result0, dist0, via0, processed, level)
      requires current.node in dist0 && current.depth == dist0[current.node] == level
      requires depth < 0 || level < depth
      ensures result == result0 + Fresh(Succ(adj, current.node), visited0)
      ensures queue == queue0 + AtDepth(Fresh(Succ(adj, current.node), visited0), current.depth + 1)
      ensures visited == visited0 + set v | v in Succ(adj, current.node)
      ensures SearchState(adj, userId, depth, visited, queue, result, dist, via, processed, level)
      ensures Extends(visited0, queue0, dist0, visited, queue, dist)
      ensures visited <= visited0 + AllIds(adj)
      ensures forall k :: 0 <= k < |Succ(adj, current.node)| ==> Succ(adj, current.node)[k] in visited
    {
      visited, queue, result, dist, via := visited0, queue0, result0, dist0, via0;
      var neighbors := Succ(adj, current.node);
      for j := 0 to |neighbors|
        invariant Visiting(adj, userId, depth, current, neighbors, j, visited0, queue0, result0, dist0,
                           visited, queue, result, dist, via, processed, level)
      {
        var neighbor := neighbors[j];
        if neighbor !in visited {
          VisitFresh(adj, userId, depth, current, neighbors, j, visited0, queue0, result0, dist0,
                     visited, queue, result, dist, via, processed, level);
          visited := visited + {neighbor};
          result := result + [neighbor];
          queue := queue + [NodeDepth(neighbor, current.depth + 1)];
          dist := dist[neighbor := level + 1];
          via := via[neighbor := via[current.node] + [neighbor]];
        } else {
          SkipVisited(adj, userId, depth, current, neighbors, j, visited0, queue0, result0, dist0,
                      visited, queue, result, dist, via, processed, level);
        }
      }
      assert neighbors[..|neighbors|] == neighbors;
      forall k | 0 <= k < |neighbors| ensures neighbors[k] in visited {
        assert neighbors[k] in neighbors[..|neighbors|];
      }
    }

    /**
      The `limit` ids with the highest in-degree, highest first.  Every id the
      graph mentions is ranked, keys and edge targets alike; a negative `limit`
      makes Go's allocation of the result slice panic, so it is excluded.
     */
    method TopInfluencers(limit: int) returns (result: seq<int>)
      requires limit >= 0
      ensures |result| == Min(limit, |AllIds(adj)|)
      ensures EndpointsAreNodes(adj) ==> |result| == Min(limit, |adj|)
      ensures Distinct(result) && forall i :: 0 <= i < |result| ==> result[i] in AllIds(adj)
      ensures forall i, j :: 0 <= i < j < |result| ==> InDegree(adj, result[i]) >= InDegree(adj, result[j])
      ensures forall x, i :: x in AllIds(adj) && x !in result && 0 <= i < |result| ==>
                InDegree(adj, x) <= InDegree(adj, result[i])
    {
      var inDegreeMap := InDegrees();
      result := RankIds(inDegreeMap, limit);
      if EndpointsAreNodes(adj) {
        EndpointsGiveKeys(adj);
      }
      forall i, j | 0 <= i < j < |result| ensures InDegree(adj, result[i]) >= InDegree(adj, result[j]) {
        assert inDegreeMap[result[i]] >= inDegreeMap[result[j]];
      }
      forall x, i | x in AllIds(adj) && x !in result && 0 <= i < |result|
        ensures InDegree(adj, x) <= InDegree(adj, result[i])
      {
        assert inDegreeMap[x] <= inDegreeMap[result[i]];
      }
    }

    /** The last two steps of TopInfluencers: sort the (id, count) pairs and keep the first `limit` ids. */
    static method RankIds(inDegreeMap: map<int, int>, limit: int) returns (result: seq<int>)
      requires limit >= 0
      ensures |result| == Min(limit, |inDegreeMap.Keys|)
      ensures Distinct(result) && forall i :: 0 <= i < |result| ==> result[i] in inDegreeMap
      ensures forall i, j :: 0 <= i < j < |result| ==> inDegreeMap[result[i]] >= inDegreeMap[result[j]]
      ensures forall x, i :: x in inDegreeMap && x !in result && 0 <= i < |result| ==>
                inDegreeMap[x] <= inDegreeMap[result[i]]
    {
      var scores := ScoreList(inDegreeMap);
      var ranked := new UserScore[|scores|](i requires 0 <= i < |scores| => scores[i]);
      assert ranked[..] == scores;
      SortByScore(ranked);
      ghost var sorted := ranked[..];
      var lim := limit;
      if lim > ranked.Length {
        lim := ranked.Length;
      }
      result := FirstIds(ranked, lim);
      TopByScore(inDegreeMap, scores, sorted, result, limit);
    }

    /** A result slice of length `limit`, holding the ids of the first `limit` ranked pairs in order. */
    static method FirstIds(ranked: array<UserScore>, limit: int) returns (result: seq<int>)
      requires 0 <= limit <= ranked.Length
      ensures |result| == limit && forall i :: 0 <= i < limit ==> result[i] == ranked[i].id
    {
      var res := new int[limit];
      for i := 0 to limit
        invariant forall k :: 0 <= k < i ==> res[k] == ranked[k].id
      {
        res[i] := ranked[i].id;
      }
      result := res[..];
    }

    /** The first two loops of TopInfluencers: zero for every key, then one per incoming edge. */
    method InDegrees() returns (inDegreeMap: map<int, int>)
      ensures inDegreeMap.Keys == AllIds(adj)
      ensures forall x :: x in inDegreeMap ==> inDegreeMap[x] == InDegree(adj, x)
    {
      inDegreeMap := ZeroDegrees();
      inDegreeMap := CountInbound(inDegreeMap);
    }

    /** The "Initialize" loop of TopInfluencers: a zero for every key. */
    method ZeroDegrees() returns (inDegreeMap: map<int, int>)
      ensures inDegreeMap.Keys == adj.Keys
      ensures forall x :: x in inDegreeMap ==> inDegreeMap[x] == 0
    {
      inDegreeMap := map[];
      var unset := adj.Keys;
      while |unset| != 0
        invariant unset <= adj.Keys && inDegreeMap.Keys == adj.Keys - unset
        invariant forall x :: x in inDegreeMap ==> inDegreeMap[x] == 0
        decreases |unset|
      {
        NonEmptyHasMember(unset);
        var id :| id in unset;
        inDegreeMap := inDegreeMap[id := 0];
        unset := unset - {id};
      }
    }

    /** The "Count inbound edges" loop of TopInfluencers: one increment per edge. */
    method CountInbound(zeros: map<int, int>) returns (inDegreeMap: map<int, int>)
      requires zeros.Keys == adj.Keys && forall x :: x in zeros ==> zeros[x] == 0
      ensures inDegreeMap.Keys == AllIds(adj)
      ensures forall x :: x in inDegreeMap ==> inDegreeMap[x] == InDegree(adj, x)
    {
      inDegreeMap := zeros;
      var remaining := adj.Keys;
      assert Counted(adj, remaining, inDegreeMap) by {
        assert forall x :: Get(inDegreeMap, x) == 0;
        assert adj.Keys - remaining == {};
      }
      while |remaining| != 0
        invariant remaining <= adj.Keys && Counted(adj, remaining, inDegreeMap)
        decreases |remaining|
      {
        NonEmptyHasMember(remaining);
        var k :| k in remaining;
        ghost var before := inDegreeMap;
        inDegreeMap := CountTargets(inDegreeMap, adj[k]);
        CountedStep(adj, remaining, k, before, inDegreeMap);
        remaining := remaining - {k};
      }
      forall x | x in inDegreeMap ensures inDegreeMap[x] == InDegree(adj, x) {
        assert Get(inDegreeMap, x) == inDegreeMap[x];
      }
    }

    /** The inner counting loop: one increment per listed neighbour, a missing entry counting from zero. */
    static method CountTargets(m0: map<int, int>, neighbors: seq<int>) returns (m: map<int, int>)
      ensures m.Keys == m0.Keys + (set y | y in neighbors)
      ensures forall x :: Get(m, x) == Get(m0, x) + multiset(neighbors)[x]
    {
      m := m0;
      for j := 0 to |neighbors|
        invariant m.Keys == m0.Keys + (set y | y in neighbors[..j])
        invariant forall x :: Get(m, x) == Get(m0, x) + multiset(neighbors[..j])[x]
      {
        var neighbor := neighbors[j];
        assert neighbors[..j + 1] == neighbors[..j] + [neighbor];
        m := m[neighbor := Get(m, neighbor) + 1];
      }
      assert neighbors[..|neighbors|] == neighbors;
    }

    /** The third loop of TopInfluencers: one (id, score) pair per map entry. */
    static method ScoreList(m: map<int, int>) returns (scores: seq<UserScore>)
      ensures |scores| == |m.Keys| && UniqueIds(scores) && IdsOf(scores) == m.Keys
      ensures forall e :: e in scores ==> e.id in m && e.score == m[e.id]
    {
      scores := [];
      var rest := m.Keys;
      while |rest| != 0
        invariant rest <= m.Keys && |scores| + |rest| == |m.Keys|
        invariant UniqueIds(scores) && IdsOf(scores) == m.Keys - rest
        invariant forall e :: e in scores ==> e.id in m && e.score == m[e.id]
        decreases |rest|
      {
        NonEmptyHasMember(rest);
        var id :| id in rest;
        ScoreAppend(m, scores, rest, id);
        scores := scores + [UserScore(id, m[id])];
        rest := rest - {id};
      }
    }

    /**
      `dfs`: mark `node`, then visit depth first every unmarked successor.  Go
      shares one `visited` map across the recursion; here the marked set is
      passed in and the enlarged set returned.
     */
    method Dfs(node: int, visited: set<int>) returns (reached: set<int>)
      requires node in AllIds(adj) && node !in visited && visited <= AllIds(adj)
      ensures visited + {node} <= reached <= AllIds(adj)
      ensures forall v :: v in reached && v !in visited ==> Reachable(adj, node, v)
      ensures forall u, v :: u in reached && u !in visited && v in Succ(adj, u) ==> v in reached
      decreases AllIds(adj) - visited
    {
      reached := visited + {node};
      ReachableSelf(adj, node);
      var neighbors := Succ(adj, node);
      for j := 0 to |neighbors|
        invariant visited + {node} <= reached <= AllIds(adj)
        invariant forall v :: v in reached && v !in visited ==> Reachable(adj, node, v)
        invariant forall u, v :: u in reached && u !in visited && u != node && v in Succ(adj, u) ==> v in reached
        invariant forall k :: 0 <= k < j ==> neighbors[k] in reached
      {
        var neighbor := neighbors[j];
        if neighbor !in reached {
          SuccInAllIds(adj, node, neighbor);
          FewerLeft(AllIds(adj), visited, reached);
          var more := Dfs(neighbor, reached);
          forall v | v in more && v !in reached ensures Reachable(adj, node, v) {
            ReachableStep(adj, node, neighbor, v);
          }
          reached := more;
        }
      }
    }

    /**
      The number of traversal starts while ranging over the keys in `order`,
      Go's map iteration order made explicit.
     */
    method ConnectedComponents(order: seq<int>) returns (components: int)
      requires IsKeyOrder(adj, order)
      ensures components == |Starts(adj, order)|
      ensures components == 0 <==> |adj.Keys| == 0
      ensures components <= |adj.Keys|
    {
      var visited: set<int> := {};
      components := 0;
      ghost var starts: seq<int> := [];
      for i := 0 to |order|
        invariant starts == Starts(adj, order[..i]) && components == |starts|
        invariant forall v :: v in visited <==> ReachedFromAny(adj, starts, v)
        invariant ClosedUnder(adj, visited) && visited <= AllIds(adj)
      {
        var node := order[i];
        assert order[..i + 1][..i] == order[..i];
        if node !in visited {
          assert node in adj;
          var reached := Dfs(node, visited);
          forall v ensures v in reached <==> ReachedFromAny(adj, starts + [node], v) {
            if v in reached && v in visited {
              var k :| 0 <= k < |starts| && Reachable(adj, starts[k], v);
              assert (starts + [node])[k] == starts[k];
            }
            if v in reached && v !in visited {
              assert (starts + [node])[|starts|] == node;
            }
            if ReachedFromAny(adj, starts + [node], v) {
              var k :| 0 <= k < |starts| + 1 && Reachable(adj, (starts + [node])[k], v);
              if k < |starts| {
                assert ReachedFromAny(adj, starts, v);
              } else {
                ClosedContainsReachable(adj, reached, node, v);
              }
            }
          }
          visited := reached;
          components := components + 1;
          starts := starts + [node];
        }
      }
      assert order[..|order|] == order;
      StartsCount(adj, order);
    }

    /**
      When BFS first discovers `dest` while expanding a node at `level`, no
      path from `src` to `dest` has `level` edges or fewer.
     */
    lemma FirstDiscoveryIsShortest(src: int, dest: int, dist: map<int, int>, processed: set<int>,
                                   queue: seq<int>, current: int, level: int)
      requires src in dist && dist[src] == 0 && dest in dist && dist[dest] == level + 1
      requires current in dist && dist[current] == level
      requires LayeredQueue(queue, dist, level)
      requires ExpandedNodes(adj, processed, dist)
      requires forall v :: v in dist ==> v in processed || v in queue || v == current
      ensures forall q :: PathBetween(adj, q, src, dest) ==> |q| >= level + 2
    {
      forall q | PathBetween(adj, q, src, dest) ensures |q| >= level + 2 {
        if |q| - 1 <= level {
          forall u, v | u in dist && dist[u] < level && v in Succ(adj, u)
            ensures v in dist && dist[v] <= dist[u] + 1
          {
            assert u in processed;
          }
          LayeredPathBound(adj, dist, level, q);
        }
      }
    }

    /** The path-reconstruction loop of ShortestPath: walk `parent` back from `dest`. */
    method RebuildPath(src: int, dest: int, parent: map<int, int>, ghost visited: set<int>, ghost dist: map<int, int>)
      returns (path: seq<int>)
      requires dest in visited && dest in dist
      requires ParentTree(adj, src, visited, parent, dist, dist[dest])
      ensures PathBetween(adj, path, src, dest) && Distinct(path) && |path| == dist[dest] + 1
    {
      path := [];
      var at := dest;
      while true
        invariant at in visited
        invariant |path| == dist[dest] - dist[at]
        invariant forall i :: 0 <= i < |path| ==> path[i] in visited && dist[path[i]] == dist[at] + 1 + i
        invariant path == [] ==> at == dest
        invariant path != [] ==> PathBetween(adj, path, path[0], dest) && path[0] in Succ(adj, at)
        decreases dist[at]
      {
        if path != [] {
          PathPrepend(adj, path, at, path[0], dest);
        } else {
          assert PathBetween(adj, [at], at, dest);
        }
        path := [at] + path;
        if at == src {
          break;
        }
        at := parent[at];
      }
    }
  }
}
