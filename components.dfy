/**
  What ConnectedComponents (internal/graph/graph.go) counts.  It ranges over
  the keys in Go's unspecified map order and starts a depth-first traversal,
  along outgoing edges only, from every key no earlier traversal reached.  The
  count is the number of such starts; on a directed graph it depends on the
  order, so the order is an explicit parameter here.
 */
module Components {
  import opened Adjacency

  /** Some traversal start in `starts` reaches `x`. */
  ghost predicate ReachedFromAny(adj: AdjMap, starts: seq<int>, x: int)
  {
    exists i :: 0 <= i < |starts| && Reachable(adj, starts[i], x)
  }

  /**
    The keys, in iteration order, from which ConnectedComponents starts a
    traversal: those not reachable from any earlier start.
   */
  ghost function Starts(adj: AdjMap, order: seq<int>): seq<int>
    decreases |order|
  {
    if order == [] then []
    else
      var prior := Starts(adj, order[..|order| - 1]);
      var x := order[|order| - 1];
      if ReachedFromAny(adj, prior, x) then prior else prior + [x]
  }

  /** `order` lists every key exactly once, as a range over the map does. */
  ghost predicate IsKeyOrder(adj: AdjMap, order: seq<int>)
  {
    Distinct(order) && forall k :: k in adj <==> k in order
  }

  /** Every start is a key taken from `order`, there are at most as many as keys, and at least one. */
  lemma {:induction false} StartsBound(adj: AdjMap, order: seq<int>)
    ensures |Starts(adj, order)| <= |order|
    ensures order != [] ==> |Starts(adj, order)| >= 1
    ensures forall s :: s in Starts(adj, order) ==> s in order
    decreases |order|
  {
    if order != [] {
      var pre := order[..|order| - 1];
      StartsBound(adj, pre);
      forall s | s in Starts(adj, pre) ensures s in order {
        var i :| 0 <= i < |pre| && pre[i] == s;
        assert order[i] == s;
      }
      if pre == [] {
        assert !ReachedFromAny(adj, [], order[0]);
      }
    }
  }

  /** Every key in `order` is reached by one of the traversals, so every key ends up visited. */
  lemma {:induction false} StartsCover(adj: AdjMap, order: seq<int>)
    ensures forall k :: k in order ==> ReachedFromAny(adj, Starts(adj, order), k)
    decreases |order|
  {
    if order != [] {
      var pre := order[..|order| - 1];
      var prior := Starts(adj, pre);
      var x := order[|order| - 1];
      var all := Starts(adj, order);
      StartsCover(adj, pre);
      assert all == prior || all == prior + [x];
      forall k | k in order ensures ReachedFromAny(adj, all, k) {
        if k in pre {
          var i :| 0 <= i < |prior| && Reachable(adj, prior[i], k);
          assert all[i] == prior[i];
        } else {
          assert order == pre + [x];
          if !ReachedFromAny(adj, prior, x) {
            ReachableSelf(adj, x);
            assert all[|prior|] == x;
          }
        }
      }
    }
  }

  /** No start is reachable from an earlier one. */
  lemma {:induction false} StartsUnreachable(adj: AdjMap, order: seq<int>)
    ensures forall i, j :: 0 <= i < j < |Starts(adj, order)| ==> !Reachable(adj, Starts(adj, order)[i], Starts(adj, order)[j])
    decreases |order|
  {
    if order != [] {
      var pre := order[..|order| - 1];
      var prior := Starts(adj, pre);
      var x := order[|order| - 1];
      StartsUnreachable(adj, pre);
      if !ReachedFromAny(adj, prior, x) {
        var all := prior + [x];
        forall i, j | 0 <= i < j < |all| ensures !Reachable(adj, all[i], all[j]) {
          if j < |prior| {
            assert all[i] == prior[i] && all[j] == prior[j];
          } else {
            assert all[i] == prior[i] && all[j] == x;
          }
        }
      }
    }
  }

  lemma {:induction false} DistinctSetSize(s: seq<int>)
    requires Distinct(s)
    ensures |set x | x in s| == |s|
    decreases |s|
  {
    if s != [] {
      var t := s[1..];
      assert Distinct(t) by {
        forall i, j | 0 <= i < j < |t| ensures t[i] != t[j] {
          assert t[i] == s[i + 1] && t[j] == s[j + 1];
        }
      }
      DistinctSetSize(t);
      assert s[0] !in t by {
        forall i | 0 <= i < |t| ensures t[i] != s[0] {
          assert t[i] == s[i + 1];
        }
      }
      assert (set x | x in s) == {s[0]} + (set x | x in t);
    }
  }

  /** The count is 0 exactly on an empty graph and never exceeds the number of keys. */
  lemma StartsCount(adj: AdjMap, order: seq<int>)
    requires IsKeyOrder(adj, order)
    ensures |Starts(adj, order)| <= |adj.Keys|
    ensures |Starts(adj, order)| == 0 <==> |adj.Keys| == 0
  {
    StartsBound(adj, order);
    DistinctSetSize(order);
    assert (set x | x in order) == adj.Keys by {
      forall k ensures k in (set x | x in order) <==> k in adj.Keys {
        assert k in adj <==> k in order;
      }
    }
  }
}
