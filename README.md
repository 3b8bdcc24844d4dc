# Social graph engine, modelled in Dafny

This project models the in-memory graph of a small social-network service. The
graph is a directed map from user id to the ordered list of ids that user
follows. It holds:

- the `Graph` type and its queries (`internal/graph/graph.go`);
- the two routines that fill it from the database (`internal/graph/loader.go`).

Every operation is modelled, and its contract ties the result to a definition
of what the source computes.

Modules:

- `Adjacency` (`adjacency.dfy`): the value model.
  - `AdjMap` is `map<int, seq<int>>`.
  - `Succ` is Go's `g.AdjList[id]`, which yields an empty list for a missing key.
  - `TotalEdges` and `InDegree` are sums over the keys. `SumOverPick` shows the sums do not depend on Go's map iteration order.
  - `WithNode` and `WithEdge` are the two mutations.
  - Paths, reachability and successor-closed sets are defined here too.
- `Graph` (`graph.dfy`): the class `Graph`, whose field `adj` is `AdjList`.
  - Every Go method is a Dafny method. The method updates `adj` in place or reads it.
  - A `range` over the map becomes a loop that picks any remaining key (`var k :| k in remaining`). So nothing depends on the order in which Go yields keys.
  - Inner loops are separate methods, for example `ExpandNode`, `VisitWithin` and `CountTargets`. The outer loop calls them where Go has the nested loop.
  - Breadth-first search carries ghost BFS levels and witness paths. These let it prove path minimality, and that the depth-limited search returns exactly the nodes within `depth` hops.
- `Ranking` (`ranking.dfy`): the sort and truncation inside `TopInfluencers`.
  - `sort.Slice` is a verified insertion sort.
  - Its contract is only what `sort.Slice` promises: non-increasing scores and a permutation. The order of ties is not specified.
- `Components` (`components.dfy`): what `ConnectedComponents` counts.
  - Go's map order is unspecified, so the method takes the order as a parameter.
  - The count is `|Starts(adj, order)|`: the number of keys no earlier traversal reached.
- `Loader` (`loader.dfy`): `LoadGraph` and `ReloadGraph`.
  - The two SQL queries are replaced by what they return: the user ids, and the `(from, to)` rows in cursor order.
  - `Built` is the map the two loops produce.
- `GraphExamples` (`graph_examples.dfy`): concrete graphs and the values the operations give on them.
  - The five scenarios of `internal/graph/graph_test.go` are methods whose `ensures` include the value the test checks. `InfluenceInDegree` also pins the fields the test does not check.
  - The other examples are not in the test file: `WithinDepthTwo`, `InfluenceAfterLoad`, and the second key order for `ConnectedComponents` (`StartsReversed`, `ComponentsReversed`).

The test for `ConnectedComponents` (graph_test.go:76-84) expects 2. That holds
for some map orders only:

- `ComponentsIncreasing` proves 2 for the key order 1, 2, 3, 4, 5.
- `ComponentsReversed` proves 5 for the order 3, 2, 1, 5, 4.

The count is that of traversal starts along outgoing edges, not of weakly
connected components. The model keeps exactly that behaviour.

Where the documented behaviour and the code differ, the model follows the code:

- `TopInfluencers` truncates to `min(limit, number of ids ranked)`, and it ranks every id that is a key or an edge target. This equals the node count only when every target is a key. `AddNode` and `AddEdge` preserve that property (`EndpointsAreNodes`). The loader ends with it exactly when every row's target is a user or the source of some row (`BuiltEndpoints`); one row to an unknown id already breaks it (`TargetNotAKey`). When it holds, `TopInfluencers` returns `min(limit, node count)` ids, as documented (`EndpointsGiveKeys`).
- `ReloadGraph` does not build a replacement off to the side and swap it in. It empties `AdjList` under the write lock (loader.go:37) and then fills the live map. Its final state is what `LoadGraph` builds, whatever the graph held before.
- `ConnectionsWithinDepth` accepts any `depth`. With `depth` 0 it returns nothing. With a negative `depth` no queue entry ever sits at the limit, so the search is unbounded. The HTTP handler rejects `depth < 1` before calling it (internal/handlers/handler.go:144).

## Model

| member | source | states |
|---|---|---|
| Adjacency.SumOverPick | internal/graph/graph.go:67-69 | a sum over the keys of a map does not depend on which key the range yields first |
| Adjacency.InDegreePositive | internal/graph/graph.go:79-89 | the in-degree is never negative, and is positive exactly when the id is the target of some edge |
| Adjacency.WithNode | internal/graph/graph.go:26-33 | afterwards `id` is a key; a new id gets an empty list; every existing key keeps its list |
| Adjacency.WithEdge | internal/graph/graph.go:35-47 | both endpoints become keys, `to` is appended after the old entries of `from`'s list, every other list is unchanged |
| Adjacency.EdgeCountAppend | internal/graph/graph.go:46 | appending one target to one list adds exactly one edge to the sum of list lengths |
| Adjacency.EdgeCountNewNode | internal/graph/graph.go:30-32 | adding an empty list for a new id leaves the edge count unchanged |
| Adjacency.EdgeCountWithEdge | internal/graph/graph.go:35-47 | AddEdge raises the edge count by exactly one, for a duplicate edge too |
| Adjacency.InDegreeAppend | internal/graph/graph.go:46 | appending `to` raises the in-degree of `to` by one and leaves every other in-degree unchanged |
| Adjacency.InDegreeNewNode | internal/graph/graph.go:30-32 | adding an empty list changes no in-degree |
| Adjacency.InDegreeWithEdge | internal/graph/graph.go:35-47 | AddEdge(from, to) raises the in-degree of `to` by one and of no other id |
| Adjacency.WithNodeKeepsEndpoints | internal/graph/graph.go:26-33 | AddNode keeps the invariant that every edge target is a key |
| Adjacency.WithEdgeKeepsEndpoints | internal/graph/graph.go:39-46 | AddEdge creates both endpoints before appending, so the invariant is kept |
| Adjacency.EndpointsGiveKeys | internal/graph/graph.go:191-203 | when every target is a key, the ids TopInfluencers counts are exactly the nodes |
| Adjacency.FreshMembers | internal/graph/graph.go:129-133 | one pass over a successor list marks exactly the entries not visited before, each once |
| Adjacency.ScanStep | internal/graph/graph.go:129-133 | the pass skips an entry already marked and marks and appends an unmarked one |
| Adjacency.UpToPrefix | internal/graph/graph.go:134-145 | stopping at `dest` scans a prefix of the list that ends at the first `dest`, or the whole list when `dest` is absent |
| Adjacency.UpToAt | internal/graph/graph.go:134-145 | when `dest` first occurs at position j, the pass scans exactly the entries up to j |
| Adjacency.ReachableStep | internal/graph/graph.go:233-236 | a node reaches everything a successor of it reaches |
| Adjacency.ClosedContainsReachable | internal/graph/graph.go:231-238 | a set closed under successors holds everything reachable from its members |
| Adjacency.LayeredPathBound | internal/graph/graph.go:125-148 | when every node below the current BFS level is expanded, a path from the root ends at a visited node whose level is at most its length |
| Ranking.SortByScore | internal/graph/graph.go:215-217 | the array ends sorted by non-increasing score and is a permutation of its old contents |
| Ranking.OccursAtMostOnce | internal/graph/graph.go:211-213 | pairs built from distinct map keys occur at most once each |
| Ranking.RankedPrefix | internal/graph/graph.go:219-226 | a prefix of the sorted pairs has distinct ids, and every pair left out scores no more than every pair taken |
| Ranking.TopByScore | internal/graph/graph.go:219-226 | the ids taken number min(limit, entries), are distinct keys of the score map, come in non-increasing score, and no id left out outscores one taken |
| Components.StartsBound | internal/graph/graph.go:247-252 | there are at most as many starts as keys iterated, at least one when there is a key, and each start is an iterated key |
| Components.StartsCover | internal/graph/graph.go:247-252 | after the loop every iterated key has been reached by some traversal |
| Components.StartsUnreachable | internal/graph/graph.go:248-250 | no start is reachable from an earlier start |
| Components.StartsCount | internal/graph/graph.go:240-255 | the count is at most the number of nodes, and zero exactly for an empty graph |
| Graph.CountedStep | internal/graph/graph.go:199-203 | counting one more key's list keeps every count equal to the in-degree minus what the uncounted lists still contribute |
| Graph.DequeueKeepsLayers | internal/graph/graph.go:126-127 | taking the queue head keeps the queue ordered by BFS level, spanning at most two levels |
| Graph.VisitKeepsLayers | internal/graph/graph.go:130-133 | a newly discovered node goes one level below the node being expanded, at the back of the queue, and the queue stays ordered by level |
| Graph.DiscoverKeepsTree | internal/graph/graph.go:130-132 | recording the node being expanded as the new node's parent keeps the parent map a tree of edges, each one level up |
| Graph.DiscoverKeepsExpanding | internal/graph/graph.go:130-133 | the three updates of a discovery keep the whole state of ShortestPath's search |
| Graph.ChildStep | internal/graph/graph.go:130-132 | after a discovery, every node new in this expansion has the node being expanded as its parent and sits one level deeper, and earlier parents stay |
| Graph.AtDepth | internal/graph/graph.go:179 | the queue entries appended by one expansion carry the new nodes in order, all at one depth |
| Graph.VisitFresh | internal/graph/graph.go:176-180 | marking, collecting and queuing an unvisited successor keeps the inner loop's state, one list entry further on |
| Graph.SkipVisited | internal/graph/graph.go:176 | an already-visited successor changes nothing but the position in the list |
| Graph.ScanFresh | internal/graph/graph.go:176-180 | a discovery appends the node to the result and, one level deeper, to the queue |
| Graph.ExpansionDone | internal/graph/graph.go:129-147 | once all successors of the current node are visited, it counts as expanded |
| Graph.PopKeepsState | internal/graph/graph.go:168-169 | dequeuing keeps the search state, and the head's depth is its BFS level |
| Graph.DiscoverKeepsState | internal/graph/graph.go:176-179 | marking, recording and enqueuing a new successor keeps the search state, with a witness path one edge longer |
| Graph.ExtendsStep | internal/graph/graph.go:176-179 | each discovery only adds visited nodes, keeps earlier levels and queue entries, and queues what it adds |
| Graph.SkipKeepsCoverage | internal/graph/graph.go:171-173 | skipping an entry at the depth limit keeps every visited node accounted for |
| Graph.ExpandKeepsCoverage | internal/graph/graph.go:175-181 | expanding an entry below the limit keeps every visited node accounted for |
| Graph.CollectedIsWithinDepth | internal/graph/graph.go:165-184 | when the queue empties, the result is exactly the nodes other than the origin reachable within `depth` hops (any number when `depth` is negative) |
| Graph.Graph.constructor | internal/graph/graph.go:20-24 | a new graph has an empty map |
| Graph.Graph.AddNode | internal/graph/graph.go:26-33 | the map becomes WithNode of the old one; edge count, every in-degree and the endpoint invariant are kept |
| Graph.Graph.AddEdge | internal/graph/graph.go:35-47 | the map becomes WithEdge of the old one; the edge count grows by one, only the in-degree of `to` grows (by one), the endpoint invariant is kept |
| Graph.Graph.HasNode | internal/graph/graph.go:49-54 | true exactly when the id is a key |
| Graph.Graph.NodeCount | internal/graph/graph.go:56-60 | the number of keys |
| Graph.Graph.EdgeCount | internal/graph/graph.go:62-71 | the sum of all list lengths, duplicates included |
| Graph.Graph.OutDegree | internal/graph/graph.go:73-77 | the length of the id's list, zero for an absent id |
| Graph.Graph.InDegreeUnsafe | internal/graph/graph.go:79-89 | the number of occurrences of the id across all lists |
| Graph.Graph.Occurrences | internal/graph/graph.go:82-86 | the number of occurrences of the id in one list |
| Graph.Graph.Influence | internal/graph/graph.go:91-110 | the id, its in-degree, its out-degree, and in-degree / (nodes - 1) when there is more than one node, else zero |
| Graph.Graph.ShortestPath | internal/graph/graph.go:112-150 | `[src]` when src = dest; otherwise a path along edges from src to dest without repeated nodes and no longer than any other such path; nil exactly when dest is unreachable |
| Graph.Graph.ExpandNode | internal/graph/graph.go:129-147 | scans the successor list up to the first `dest` (the whole list when `dest` is not in it). It marks the entries not yet visited and appends them to the queue in list order, each with the current node as parent and one level deeper. Earlier parents stay. It reports `found` exactly when `dest` is a successor |
| Graph.Graph.FirstDiscoveryIsShortest | internal/graph/graph.go:135-145 | when dest is first discovered from a node at level L, no path from src to dest has L edges or fewer |
| Graph.Graph.RebuildPath | internal/graph/graph.go:136-144 | walking the parent map back from dest yields a path from src to dest without repeats, of dest's level plus one nodes |
| Graph.Graph.ConnectionsWithinDepth | internal/graph/graph.go:152-185 | distinct ids, the origin excluded, exactly those reachable within `depth` hops; every reachable id when `depth` is negative |
| Graph.Graph.VisitWithin | internal/graph/graph.go:175-181 | appends the successors not yet visited, in list order, to the result and, with depth one more than the current entry's, to the queue; every successor ends visited and the search state is kept |
| Graph.Graph.TopInfluencers | internal/graph/graph.go:187-229 | min(limit, ids ranked) distinct ids, each a key or target, in non-increasing in-degree, none left out having a higher in-degree than one taken; min(limit, node count) ids when every target is a node |
| Graph.Graph.InDegrees | internal/graph/graph.go:191-203 | a count for every key and every target, equal to its in-degree |
| Graph.Graph.ZeroDegrees | internal/graph/graph.go:193-196 | zero for every key and no other entry |
| Graph.Graph.CountInbound | internal/graph/graph.go:198-203 | adds targets as keys and ends with each entry equal to the in-degree |
| Graph.Graph.CountTargets | internal/graph/graph.go:200-202 | each listed neighbour's count grows by its number of occurrences, missing ones starting at zero |
| Graph.ScoreAppend | internal/graph/graph.go:211-213 | the pair of a key not yet listed keeps the listed ids distinct and every score equal to its key's count |
| Graph.Graph.ScoreList | internal/graph/graph.go:210-213 | one pair per map entry, with distinct ids and the entry's value as score |
| Graph.Graph.RankIds | internal/graph/graph.go:215-228 | the first min(limit, entries) ids by non-increasing count, distinct, none left out counting more than one taken |
| Graph.Graph.FirstIds | internal/graph/graph.go:223-226 | the ids of the first `limit` ranked pairs, in order |
| Graph.Graph.Dfs | internal/graph/graph.go:231-238 | marks the node; every newly marked id is reachable from it, and every successor of a newly marked id ends marked |
| Graph.Graph.ConnectedComponents | internal/graph/graph.go:240-255 | the number of keys, in the given order, that no earlier traversal reached; at most the number of nodes, zero only for an empty graph |
| Loader.Fill | internal/graph/loader.go:14-27 | an emptied graph ends holding Built(users, rows) |
| Loader.LoadGraph | internal/graph/loader.go:7-30 | a new graph holding Built(users, rows) |
| Loader.ReloadGraph | internal/graph/loader.go:32-56 | the graph ends holding Built(users, rows), independent of its previous contents |
| Loader.OutgoingMembers | internal/graph/loader.go:23-27 | a key's list contains `x` exactly when some row goes from the key to `x` |
| Loader.OutgoingNone | internal/graph/loader.go:23-27 | an id that is no row's source gets no targets |
| Loader.OutgoingLength | internal/graph/loader.go:23-27 | a key's list has one entry per row from that key |
| Loader.BuiltStep | internal/graph/loader.go:26 | one more row appends its target to its source's list and changes nothing else |
| Loader.UnconnectedUser | internal/graph/loader.go:14-18 | a user that is no row's source ends with an empty list |
| Loader.BuiltKeys | internal/graph/loader.go:14-27 | the keys are exactly the users and the sources of rows |
| Loader.BuiltEdgeCount | internal/graph/loader.go:23-27 | the edge count after loading equals the number of rows |
| Loader.BuiltEndpoints | internal/graph/loader.go:23-27 | every edge target is a key exactly when every row's target is a user or some row's source |
| Loader.BuiltWithForeignKeys | internal/db/schema.go:21-27 | when every row's endpoints are users, as the foreign keys demand, the keys are exactly the users and every target is a key |
| Loader.TargetNotAKey | internal/graph/loader.go:26 | one row to an id that is not a user leaves a target that is not a key |
| GraphExamples.SetupTestGraph | internal/graph/graph_test.go:8-19 | five AddNode and three AddEdge calls give the map {1: [2], 2: [3], 3: [], 4: [5], 5: []} |
| GraphExamples.SetupFanIn | internal/graph/graph_test.go:43-50 | three AddNode and two AddEdge calls give the map {1: [2], 2: [], 3: [2]}, the fixture of the influence and top-influencer tests |
| GraphExamples.ShortestPathSuccess | internal/graph/graph_test.go:21-30 | the shortest path from 1 to 3 is [1, 2, 3] |
| GraphExamples.ShortestPathNoPath | internal/graph/graph_test.go:32-40 | there is no path from 1 to 5 |
| GraphExamples.InfluenceInDegree | internal/graph/graph_test.go:42-57 | with edges 1→2 and 3→2, the influence of 2 is in-degree 2, out-degree 0, normalised 2/2 |
| GraphExamples.TopInfluencer | internal/graph/graph_test.go:59-74 | with the same edges, the top influencer with limit 1 is [2] |
| GraphExamples.StartsIncreasing | internal/graph/graph.go:247-252 | on the test graph, ranging over the keys as 1, 2, 3, 4, 5 starts traversals at 1 and 4 only |
| GraphExamples.StartsReversed | internal/graph/graph.go:247-252 | ranging over them as 3, 2, 1, 5, 4 starts a traversal at every key |
| GraphExamples.ComponentsIncreasing | internal/graph/graph_test.go:76-84 | the expected count 2, for the key order 1, 2, 3, 4, 5 |
| GraphExamples.ComponentsReversed | internal/graph/graph_test.go:76-84 | the same graph gives 5 for the key order 3, 2, 1, 5, 4 |
| GraphExamples.WithinDepthTwo | internal/graph/graph.go:152-185 | on 1→2→3→4, the connections of 1 within depth 2 are exactly 2 and 3 |
| GraphExamples.InfluenceAfterLoad | internal/graph/loader.go:7-30 | loading users 1, 2, 3 and rows (1, 2), (3, 2) gives the graph of the influence test and the same metrics |

## Left out

- The reader-writer lock `mu`: each call is one atomic step, and concurrent callers are not modelled.
- The database: the queries are replaced by their results. The discarded errors of `db.Query` and `Scan` (loader.go:11, 16, 20, 25) are not modelled, and neither is a query that fails after `ReloadGraph` has emptied the map.
- Graph.Graph.Influence: `NormalizedInDegree` is the exact fraction `Ratio(in, nodes - 1)`, not the rounded `float64` the source divides out.
- Go's 64-bit `int` wrap-around: ids and counts are unbounded integers, since no count can reach 2^63 in a map that fits in memory.
- Graph.Graph.ShortestPath: promises a shortest path, not which of several equally short ones. Go's choice (the first node, in queue and list order, to reach each node becomes its parent) is stated one expansion at a time by ExpandNode, but it is not carried up to the returned path.
- Ranking.SortByScore: any algorithm satisfying `sort.Slice`'s promise gives the same guarantees, so the model uses insertion sort. Its contract leaves the order of equal scores open, as `sort.Slice` does. No secondary key by id is applied, because the source applies none.
- Graph.Graph.TopInfluencers: requires `limit >= 0`, because `make([]int, limit)` panics on a negative length. The handler only passes positive limits (handler.go:106).
- Graph.Graph.Dfs: the source shares one mutable `visited` map across the recursion. The model passes the marked set in and returns the enlarged set, which is the same sequence of markings.
- Graph.Graph.ConnectedComponents: Go's random map order is an explicit parameter rather than a nondeterministic choice inside the method.
- The HTTP handlers, user CRUD and `cmd/main.go` are outside the graph core.
