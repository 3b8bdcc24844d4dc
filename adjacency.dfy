/**
  The mathematical view of the in-memory social graph: an adjacency map from a
  user id to the ordered list of ids that user connects to.  Everything here is
  pure; the `Graph` module runs its loops against these definitions.
 */
module Adjacency {

  type AdjMap = map<int, seq<int>>

  datatype Option<T> = None | Some(value: T)

  /** The successor list Go returns for `AdjList[u]`: nil (empty) for an absent id. */
  function Succ(adj: AdjMap, u: int): seq<int>
  {
    if u in adj then adj[u] else []
  }

  /** Ids that appear in the successor lists of the keys in `ks`. */
  ghost function TargetsIn(adj: AdjMap, ks: set<int>): set<int>
  {
    set k, x | k in ks && k in adj && x in adj[k] :: x
  }

  ghost function Targets(adj: AdjMap): set<int>
  {
    TargetsIn(adj, adj.Keys)
  }

  /** Every id the graph mentions: its keys and every edge target. */
  ghost function AllIds(adj: AdjMap): set<int>
  {
    adj.Keys + Targets(adj)
  }

  /** The invariant AddNode/AddEdge keep: every edge target is itself a key. */
  ghost predicate EndpointsAreNodes(adj: AdjMap)
  {
    forall k, x :: k in adj && x in adj[k] ==> x in adj
  }

  /** Under that invariant the ids the graph mentions are just its keys. */
  lemma EndpointsGiveKeys(adj: AdjMap)
    requires EndpointsAreNodes(adj)
    ensures AllIds(adj) == adj.Keys
  {
    forall x | x in Targets(adj) ensures x in adj {
      var k :| k in adj && x in adj[k];
    }
  }

  lemma SuccInAllIds(adj: AdjMap, u: int, x: int)
    requires x in Succ(adj, u)
    ensures x in AllIds(adj) && x in Targets(adj)
  {
    assert u in adj;
  }

  // ---------------------------------------------------------------------------
  // Sums over a set of keys (the order of Go's map iteration does not matter)
  // ---------------------------------------------------------------------------

  lemma NonEmptyHasMember(ks: set<int>)
    requires |ks| != 0
    ensures exists k :: k in ks
  {
    assert !(forall k :: k !in ks) by {
      if forall k :: k !in ks {
        assert false;
      }
    }
  }

  /** Some member of a non-empty set, standing for whichever key Go's map range yields first. */
  ghost function Pick(ks: set<int>): (k: int)
    requires |ks| != 0
    ensures k in ks
  {
    NonEmptyHasMember(ks);
    var k :| k in ks;
    k
  }

  ghost function SumOver(ks: set<int>, w: int -> int): int
    decreases |ks|
  {
    if |ks| == 0 then 0
    else
      var k := Pick(ks);
      w(k) + SumOver(ks - {k}, w)
  }

  /** Any key may be taken out first: the sum does not depend on the order. */
  lemma {:induction false} SumOverPick(ks: set<int>, w: int -> int, k: int)
    requires k in ks
    ensures SumOver(ks, w) == w(k) + SumOver(ks - {k}, w)
    decreases |ks|
  {
    var j := Pick(ks);
    if j != k {
      SumOverPick(ks - {j}, w, k);
      SumOverPick(ks - {k}, w, j);
      assert ks - {j} - {k} == ks - {k} - {j};
    }
  }

  lemma {:induction false} SumOverAgree(ks: set<int>, w1: int -> int, w2: int -> int)
    requires forall k :: k in ks ==> w1(k) == w2(k)
    ensures SumOver(ks, w1) == SumOver(ks, w2)
    decreases |ks|
  {
    if |ks| != 0 {
      var k := Pick(ks);
      SumOverPick(ks, w1, k);
      SumOverPick(ks, w2, k);
      SumOverAgree(ks - {k}, w1, w2);
    }
  }

  lemma {:induction false} SumOverNonNegative(ks: set<int>, w: int -> int)
    requires forall k :: k in ks ==> w(k) >= 0
    ensures SumOver(ks, w) >= 0
    ensures SumOver(ks, w) == 0 <==> forall k :: k in ks ==> w(k) == 0
    decreases |ks|
  {
    if |ks| != 0 {
      var k := Pick(ks);
      SumOverPick(ks, w, k);
      SumOverNonNegative(ks - {k}, w);
    }
  }

  /** Length of each successor list, the summand of EdgeCount. */
  function Lens(adj: AdjMap): int -> int
  {
    k => |Succ(adj, k)|
  }

  /** Occurrences of `id` in each successor list, the summand of the in-degree. */
  function CountIn(adj: AdjMap, id: int): int -> int
  {
    k => multiset(Succ(adj, k))[id]
  }

  lemma CountInAt(adj: AdjMap, id: int, k: int)
    ensures CountIn(adj, id)(k) == multiset(Succ(adj, k))[id]
  {
  }

  /** Number of edges: the sum of all successor-list lengths, duplicates included. */
  ghost function TotalEdges(adj: AdjMap): int
  {
    SumOver(adj.Keys, Lens(adj))
  }

  /** In-degree: occurrences of `id` across all successor lists. */
  ghost function InDegree(adj: AdjMap, id: int): int
  {
    SumOver(adj.Keys, CountIn(adj, id))
  }

  /** An id has positive in-degree exactly when it is the target of some edge. */
  lemma {:induction false} InDegreePositive(adj: AdjMap, id: int)
    ensures InDegree(adj, id) >= 0
    ensures InDegree(adj, id) > 0 <==> id in Targets(adj)
  {
    SumOverNonNegative(adj.Keys, CountIn(adj, id));
    assert id in Targets(adj) ==> InDegree(adj, id) > 0 by {
      if id in Targets(adj) {
        var k :| k in adj && id in adj[k];
        CountInAt(adj, id, k);
      }
    }
    assert InDegree(adj, id) > 0 ==> id in Targets(adj) by {
      if InDegree(adj, id) > 0 {
        var k :| k in adj && CountIn(adj, id)(k) != 0;
        CountInAt(adj, id, k);
        assert id in adj[k];
      }
    }
  }

  // ---------------------------------------------------------------------------
  // Single-step updates of the map and what they do to the sums
  // ---------------------------------------------------------------------------

  /** The map after AddNode(id). */
  function WithNode(adj: AdjMap, id: int): (r: AdjMap)
    ensures id in r && r.Keys == adj.Keys + {id}
    ensures id !in adj ==> r[id] == []
    ensures forall k :: k in adj ==> r[k] == adj[k]
  {
    if id in adj then adj else adj[id := []]
  }

  /** The map after AddEdge(from, to). */
  function WithEdge(adj: AdjMap, from: int, to: int): (r: AdjMap)
    ensures r.Keys == adj.Keys + {from, to}
    ensures r[from] == Succ(adj, from) + [to]
    ensures forall k :: k in r && k != from ==> r[k] == Succ(adj, k)
  {
    var m := WithNode(WithNode(adj, from), to);
    m[from := Succ(m, from) + [to]]
  }

  /** Changing the summand at one key changes the sum by that key's difference only. */
  lemma {:induction false} SumOverChangeAt(ks1: set<int>, ks2: set<int>, w1: int -> int, w2: int -> int, k: int)
    requires ks2 == ks1 + {k}
    requires forall j :: j in ks1 && j != k ==> w1(j) == w2(j)
    ensures SumOver(ks2, w2) == SumOver(ks1, w1) - (if k in ks1 then w1(k) else 0) + w2(k)
  {
    var rest := ks1 - {k};
    SumOverPick(ks2, w2, k);
    assert ks2 - {k} == rest;
    SumOverAgree(rest, w2, w1);
    if k in ks1 {
      SumOverPick(ks1, w1, k);
    } else {
      assert ks1 == rest;
    }
  }

  /** Two maps that differ at most at key `k`, which the second one has. */
  ghost predicate DifferAt(adj: AdjMap, r: AdjMap, k: int)
  {
    r.Keys == adj.Keys + {k} && forall j :: j in adj && j != k ==> r[j] == adj[j]
  }

  lemma {:induction false} TotalEdgesChangeAt(adj: AdjMap, r: AdjMap, k: int)
    requires DifferAt(adj, r, k)
    ensures TotalEdges(r) == TotalEdges(adj) - |Succ(adj, k)| + |Succ(r, k)|
  {
    assert forall j :: j in adj.Keys && j != k ==> Lens(adj)(j) == Lens(r)(j) by {
      forall j | j in adj.Keys && j != k ensures Lens(adj)(j) == Lens(r)(j) {
        assert Succ(adj, j) == Succ(r, j);
      }
    }
    SumOverChangeAt(adj.Keys, r.Keys, Lens(adj), Lens(r), k);
  }

  /** Appending one target to one list adds exactly one edge. */
  lemma {:induction false} EdgeCountAppend(adj: AdjMap, from: int, to: int)
    ensures TotalEdges(adj[from := Succ(adj, from) + [to]]) == TotalEdges(adj) + 1
  {
    TotalEdgesChangeAt(adj, adj[from := Succ(adj, from) + [to]], from);
  }

  /** A new key with an empty list adds no edge. */
  lemma {:induction false} EdgeCountNewNode(adj: AdjMap, id: int)
    ensures TotalEdges(WithNode(adj, id)) == TotalEdges(adj)
  {
    TotalEdgesChangeAt(adj, WithNode(adj, id), id);
  }

  /** AddEdge grows the edge count by exactly one, even for a duplicate edge. */
  lemma {:induction false} EdgeCountWithEdge(adj: AdjMap, from: int, to: int)
    ensures TotalEdges(WithEdge(adj, from, to)) == TotalEdges(adj) + 1
  {
    var m1 := WithNode(adj, from);
    var m := WithNode(m1, to);
    EdgeCountNewNode(adj, from);
    EdgeCountNewNode(m1, to);
    EdgeCountAppend(m, from, to);
  }

  lemma MultisetAppend(s: seq<int>, x: int, id: int)
    ensures multiset(s + [x])[id] == multiset(s)[id] + (if id == x then 1 else 0)
  {
    assert multiset(s + [x]) == multiset(s) + multiset{x};
  }

  lemma {:induction false} InDegreeChangeAt(adj: AdjMap, r: AdjMap, k: int, id: int)
    requires DifferAt(adj, r, k)
    ensures InDegree(r, id) == InDegree(adj, id) - multiset(Succ(adj, k))[id] + multiset(Succ(r, k))[id]
  {
    assert forall j :: j in adj.Keys && j != k ==> CountIn(adj, id)(j) == CountIn(r, id)(j) by {
      forall j | j in adj.Keys && j != k ensures CountIn(adj, id)(j) == CountIn(r, id)(j) {
        assert Succ(adj, j) == Succ(r, j);
      }
    }
    SumOverChangeAt(adj.Keys, r.Keys, CountIn(adj, id), CountIn(r, id), k);
  }

  lemma {:induction false} InDegreeAppend(adj: AdjMap, from: int, to: int, id: int)
    ensures InDegree(adj[from := Succ(adj, from) + [to]], id) == InDegree(adj, id) + (if id == to then 1 else 0)
  {
    var r := adj[from := Succ(adj, from) + [to]];
    InDegreeChangeAt(adj, r, from, id);
    MultisetAppend(Succ(adj, from), to, id);
  }

  lemma {:induction false} InDegreeNewNode(adj: AdjMap, n: int, id: int)
    ensures InDegree(WithNode(adj, n), id) == InDegree(adj, id)
  {
    InDegreeChangeAt(adj, WithNode(adj, n), n, id);
  }

  /** AddEdge(from, to) raises the in-degree of `to` by one and no other. */
  lemma {:induction false} InDegreeWithEdge(adj: AdjMap, from: int, to: int, id: int)
    ensures InDegree(WithEdge(adj, from, to), id) == InDegree(adj, id) + (if id == to then 1 else 0)
  {
    var m1 := WithNode(adj, from);
    var m := WithNode(m1, to);
    InDegreeNewNode(adj, from, id);
    InDegreeNewNode(m1, to, id);
    InDegreeAppend(m, from, to, id);
  }

  lemma WithNodeKeepsEndpoints(adj: AdjMap, id: int)
    requires EndpointsAreNodes(adj)
    ensures EndpointsAreNodes(WithNode(adj, id))
  {
    var r := WithNode(adj, id);
    forall k, x | k in r && x in r[k] ensures x in r {
      assert k in adj;
    }
  }

  lemma WithEdgeKeepsEndpoints(adj: AdjMap, from: int, to: int)
    requires EndpointsAreNodes(adj)
    ensures EndpointsAreNodes(WithEdge(adj, from, to))
  {
    var r := WithEdge(adj, from, to);
    forall k, x | k in r && x in r[k] ensures x in r {
      if k == from {
        assert x in Succ(adj, from) + [to];
        if x != to {
          assert from in adj;
        }
      } else {
        assert k in adj;
      }
    }
  }

  // ---------------------------------------------------------------------------
  // Paths and reachability along directed edges
  // ---------------------------------------------------------------------------

  /** A non-empty walk in which every step follows an edge. */
  ghost predicate IsPath(adj: AdjMap, p: seq<int>)
  {
    |p| >= 1 && forall i :: 0 <= i < |p| - 1 ==> p[i + 1] in Succ(adj, p[i])
  }

  ghost predicate PathBetween(adj: AdjMap, p: seq<int>, a: int, b: int)
  {
    IsPath(adj, p) && p[0] == a && p[|p| - 1] == b
  }

  ghost predicate Reachable(adj: AdjMap, a: int, b: int)
  {
    exists p :: PathBetween(adj, p, a, b)
  }

  /** `b` is reachable from `a` in at most `hops` edges. */
  ghost predicate ReachableWithin(adj: AdjMap, a: int, b: int, hops: int)
  {
    exists p :: PathBetween(adj, p, a, b) && |p| <= hops + 1
  }

  ghost predicate Distinct(s: seq<int>)
  {
    forall i, j :: 0 <= i < j < |s| ==> s[i] != s[j]
  }

  // ---------------------------------------------------------------------------
  // One pass over a successor list that marks what it meets as visited
  // ---------------------------------------------------------------------------

  /**
    The entries of `ns` such a pass newly marks, in list order: those not in
    `seen` and not met earlier in `ns`.
   */
  function Fresh(ns: seq<int>, seen: set<int>): seq<int>
    decreases |ns|
  {
    if ns == [] then []
    else
      var pre, x := ns[..|ns| - 1], ns[|ns| - 1];
      Fresh(pre, seen) + (if x in seen || x in pre then [] else [x])
  }

  /** `ns` up to and including the first occurrence of `stop`; all of `ns` when `stop` does not occur. */
  function UpTo(ns: seq<int>, stop: int): seq<int>
  {
    if ns == [] then []
    else if ns[0] == stop then [stop]
    else [ns[0]] + UpTo(ns[1..], stop)
  }

  /** The pass marks exactly the entries outside `seen`, each of them once. */
  lemma {:induction false} FreshMembers(ns: seq<int>, seen: set<int>)
    ensures Distinct(Fresh(ns, seen))
    ensures forall x :: x in Fresh(ns, seen) <==> x in ns && x !in seen
    decreases |ns|
  {
    if ns != [] {
      var pre, x := ns[..|ns| - 1], ns[|ns| - 1];
      FreshMembers(pre, seen);
      assert ns == pre + [x];
    }
  }

  /** One more entry: it is marked exactly when neither `seen` nor the earlier entries hold it. */
  lemma FreshStep(ns: seq<int>, seen: set<int>, j: int)
    requires 0 <= j < |ns|
    ensures Fresh(ns[..j + 1], seen) ==
            Fresh(ns[..j], seen) + (if ns[j] in seen || ns[j] in ns[..j] then [] else [ns[j]])
  {
    assert ns[..j + 1][..j] == ns[..j];
  }

  /**
    After the first `j` entries of `ns`, a pass that started from `seen` and
    `out0` has marked those entries and appended the fresh ones to `out0`.
   */
  ghost predicate Scanned(ns: seq<int>, j: int, seen: set<int>, out0: seq<int>, visited: set<int>, out: seq<int>)
    requires 0 <= j <= |ns|
  {
    visited == seen + (set v | v in ns[..j]) && out == out0 + Fresh(ns[..j], seen)
  }

  /** The pass goes on by one entry: a marked entry is skipped, an unmarked one marked and appended. */
  lemma ScanStep(ns: seq<int>, j: int, seen: set<int>, out0: seq<int>, visited: set<int>, out: seq<int>)
    requires 0 <= j < |ns| && Scanned(ns, j, seen, out0, visited, out)
    ensures ns[j] in visited ==> Scanned(ns, j + 1, seen, out0, visited, out)
    ensures ns[j] !in visited ==> Scanned(ns, j + 1, seen, out0, visited + {ns[j]}, out + [ns[j]])
  {
    FreshStep(ns, seen, j);
    assert ns[..j + 1] == ns[..j] + [ns[j]];
  }

  /**
    Cutting at `stop` keeps a prefix of `ns` that holds `stop` exactly when
    `ns` does, then as its last entry and nowhere before.
   */
  lemma {:induction false} UpToPrefix(ns: seq<int>, stop: int)
    ensures UpTo(ns, stop) <= ns
    ensures stop !in ns ==> UpTo(ns, stop) == ns
    ensures stop in ns ==> |UpTo(ns, stop)| > 0 && UpTo(ns, stop)[|UpTo(ns, stop)| - 1] == stop
    ensures stop in ns ==> stop !in UpTo(ns, stop)[..|UpTo(ns, stop)| - 1]
    decreases |ns|
  {
    if ns != [] && ns[0] != stop {
      UpToPrefix(ns[1..], stop);
      assert ns == [ns[0]] + ns[1..];
      if stop in ns {
        var r := UpTo(ns[1..], stop);
        assert UpTo(ns, stop)[..|UpTo(ns, stop)| - 1] == [ns[0]] + r[..|r| - 1];
      }
    }
  }

  /** When `stop` first occurs at `j`, the cut keeps the entries up to `j`. */
  lemma {:induction false} UpToAt(ns: seq<int>, stop: int, j: int)
    requires 0 <= j < |ns| && ns[j] == stop && stop !in ns[..j]
    ensures UpTo(ns, stop) == ns[..j + 1]
    decreases j
  {
    if j > 0 {
      assert ns[0] in ns[..j];
      assert ns[1..][..j - 1] == ns[1..j];
      UpToAt(ns[1..], stop, j - 1);
      assert ns[..j + 1] == [ns[0]] + ns[1..][..j];
    }
  }

  lemma PathExtend(adj: AdjMap, p: seq<int>, a: int, b: int, c: int)
    requires PathBetween(adj, p, a, b) && c in Succ(adj, b)
    ensures PathBetween(adj, p + [c], a, c)
  {
    var q := p + [c];
    forall i | 0 <= i < |q| - 1 ensures q[i + 1] in Succ(adj, q[i]) {
      if i < |p| - 1 {
        assert q[i] == p[i] && q[i + 1] == p[i + 1];
      }
    }
  }

  lemma PathPrepend(adj: AdjMap, p: seq<int>, a: int, b: int, c: int)
    requires PathBetween(adj, p, b, c) && b in Succ(adj, a)
    ensures PathBetween(adj, [a] + p, a, c)
  {
    var q := [a] + p;
    forall i | 0 <= i < |q| - 1 ensures q[i + 1] in Succ(adj, q[i]) {
      if i > 0 {
        assert q[i] == p[i - 1] && q[i + 1] == p[i];
      }
    }
  }

  lemma ReachableStep(adj: AdjMap, a: int, b: int, c: int)
    requires b in Succ(adj, a) && Reachable(adj, b, c)
    ensures Reachable(adj, a, c)
  {
    var p :| PathBetween(adj, p, b, c);
    PathPrepend(adj, p, a, b, c);
  }

  lemma ReachableSelf(adj: AdjMap, a: int)
    ensures Reachable(adj, a, a) && ReachableWithin(adj, a, a, 0)
  {
    assert PathBetween(adj, [a], a, a);
  }

  /** A set closed under successors. */
  ghost predicate ClosedUnder(adj: AdjMap, s: set<int>)
  {
    forall u, v :: u in s && v in Succ(adj, u) ==> v in s
  }

  lemma {:induction false} ClosedContainsPath(adj: AdjMap, s: set<int>, p: seq<int>)
    requires ClosedUnder(adj, s) && IsPath(adj, p) && p[0] in s
    ensures p[|p| - 1] in s
    decreases |p|
  {
    if |p| > 1 {
      var q := p[..|p| - 1];
      assert IsPath(adj, q) by {
        forall i | 0 <= i < |q| - 1 ensures q[i + 1] in Succ(adj, q[i]) {
          assert q[i] == p[i] && q[i + 1] == p[i + 1];
        }
      }
      ClosedContainsPath(adj, s, q);
      var u, v := p[|p| - 2], p[|p| - 1];
      assert q[|q| - 1] == u;
      assert u in s && v in Succ(adj, u);
    }
  }

  /** A successor-closed set holds everything reachable from its members. */
  lemma ClosedContainsReachable(adj: AdjMap, s: set<int>, a: int, b: int)
    requires ClosedUnder(adj, s) && a in s && Reachable(adj, a, b)
    ensures b in s
  {
    var p :| PathBetween(adj, p, a, b);
    ClosedContainsPath(adj, s, p);
  }

  /**
    The breadth-first layering argument.  If every node that `dist` records
    below level `level` has had all its successors recorded one level further
    at most, then a path of at most `level` edges from the root (dist 0) ends
    at a recorded node whose recorded distance is at most the path's length.
   */
  lemma {:induction false} LayeredPathBound(adj: AdjMap, dist: map<int, int>, level: int, p: seq<int>)
    requires IsPath(adj, p) && p[0] in dist && dist[p[0]] == 0
    requires forall u, v :: u in dist && dist[u] < level && v in Succ(adj, u) ==> v in dist && dist[v] <= dist[u] + 1
    requires |p| - 1 <= level
    ensures p[|p| - 1] in dist && dist[p[|p| - 1]] <= |p| - 1
    decreases |p|
  {
    if |p| > 1 {
      var q := p[..|p| - 1];
      assert IsPath(adj, q) by {
        forall i | 0 <= i < |q| - 1 ensures q[i + 1] in Succ(adj, q[i]) {
          assert q[i] == p[i] && q[i + 1] == p[i + 1];
        }
      }
      LayeredPathBound(adj, dist, level, q);
      assert q[|q| - 1] == p[|p| - 2];
      assert p[|p| - 1] in Succ(adj, p[|p| - 2]);
    }
  }

  lemma TargetsInAdd(adj: AdjMap, ks: set<int>, k: int)
    requires k in adj
    ensures TargetsIn(adj, ks + {k}) == TargetsIn(adj, ks) + (set y | y in adj[k])
  {
    var lhs, rhs := TargetsIn(adj, ks + {k}), TargetsIn(adj, ks) + (set y | y in adj[k]);
    forall x | x in lhs ensures x in rhs {
      var j :| j in ks + {k} && j in adj && x in adj[j];
      if j != k {
        assert j in ks;
      }
    }
    forall x | x in rhs ensures x in lhs {
      if x in TargetsIn(adj, ks) {
        var j :| j in ks && j in adj && x in adj[j];
        assert j in ks + {k};
      } else {
        assert k in ks + {k};
      }
    }
  }
}
