/**
  LoadGraph and ReloadGraph (internal/graph/loader.go) with the SQL queries
  replaced by their results: the ids of the users table and the (from, to)
  pairs of the connections table, in the order the cursor returns them.
 */
module Loader {
  import opened Adjacency
  import opened Graph

  /** One row of the connections table. */
  datatype Connection = Connection(from: int, to: int)

  /** The `to` of every row whose `from` is `k`, in row order. */
  function Outgoing(rows: seq<Connection>, k: int): seq<int>
    decreases |rows|
  {
    if rows == [] then []
    else
      var last := rows[|rows| - 1];
      Outgoing(rows[..|rows| - 1], k) + (if last.from == k then [last.to] else [])
  }

  /** The `from` ids of the rows. */
  function Sources(rows: seq<Connection>): set<int>
  {
    set r | r in rows :: r.from
  }

  /** The adjacency map the two loops build: a key per user and per row source. */
  function Built(users: seq<int>, rows: seq<Connection>): AdjMap
  {
    map k | k in (set u | u in users) + Sources(rows) :: Outgoing(rows, k)
  }

  /** Fill an emptied graph: a `[]` list per user, then each row appended to its source's list. */
  method Fill(g: Graph, users: seq<int>, rows: seq<Connection>)
    requires g.adj == map[]
    modifies g
    ensures g.adj == Built(users, rows)
  {
    for i := 0 to |users|
      invariant g.adj == Built(users[..i], [])
    {
      assert users[..i + 1] == users[..i] + [users[i]];
      g.adj := g.adj[users[i] := []];
    }
    assert users[..|users|] == users;
    assert g.adj == Built(users, []) by {
      OutgoingNone(rows[..0], 0);
    }
    for j := 0 to |rows|
      invariant g.adj == Built(users, rows[..j])
    {
      var row := rows[j];
      assert rows[..j + 1] == rows[..j] + [row];
      BuiltStep(users, rows[..j], row);
      g.adj := g.adj[row.from := Succ(g.adj, row.from) + [row.to]];
    }
    assert rows[..|rows|] == rows;
  }

  /** LoadGraph: a brand-new graph holding exactly what the two queries returned. */
  method LoadGraph(users: seq<int>, rows: seq<Connection>) returns (g: Graph)
    ensures fresh(g) && g.adj == Built(users, rows)
  {
    g := new Graph();
    Fill(g, users, rows);
  }

  /**
    ReloadGraph: the old map is discarded first (line 37), so the result is
    what LoadGraph builds from the same rows, whatever `g` held before.
   */
  method ReloadGraph(g: Graph, users: seq<int>, rows: seq<Connection>)
    modifies g
    ensures g.adj == Built(users, rows)
  {
    g.adj := map[];
    Fill(g, users, rows);
  }

  // ---------------------------------------------------------------------------
  // What the build produces
  // ---------------------------------------------------------------------------

  /** A target is in a key's list exactly when some row connects the two. */
  lemma {:induction false} OutgoingMembers(rows: seq<Connection>, k: int, x: int)
    ensures x in Outgoing(rows, k) <==> Connection(k, x) in rows
    decreases |rows|
  {
    if rows != [] {
      var pre, last := rows[..|rows| - 1], rows[|rows| - 1];
      OutgoingMembers(pre, k, x);
      assert rows == pre + [last];
    }
  }

  /** An id that is no row's source gets no targets. */
  lemma {:induction false} OutgoingNone(rows: seq<Connection>, k: int)
    requires k !in Sources(rows)
    ensures Outgoing(rows, k) == []
    decreases |rows|
  {
    if rows != [] {
      var pre, last := rows[..|rows| - 1], rows[|rows| - 1];
      assert rows == pre + [last];
      assert last in rows;
      assert Sources(pre) <= Sources(rows);
      OutgoingNone(pre, k);
    }
  }

  /** Each key's list has one entry per row it is the source of, so the lists add up to the rows. */
  lemma {:induction false} OutgoingLength(rows: seq<Connection>, k: int)
    ensures |Outgoing(rows, k)| == |set i | 0 <= i < |rows| && rows[i].from == k|
    decreases |rows|
  {
    if rows != [] {
      var n := |rows| - 1;
      var pre := rows[..n];
      OutgoingLength(pre, k);
      var before := set i | 0 <= i < n && pre[i].from == k;
      var after := set i | 0 <= i < |rows| && rows[i].from == k;
      if rows[n].from == k {
        assert after == before + {n};
      } else {
        assert after == before;
      }
    }
  }

  /** Appending one more row is line 26: the row's source gets the row's target appended. */
  lemma BuiltStep(users: seq<int>, rows: seq<Connection>, row: Connection)
    ensures Built(users, rows + [row]) == Built(users, rows)[row.from := Succ(Built(users, rows), row.from) + [row.to]]
  {
    var all := rows + [row];
    var before := Built(users, rows);
    assert all[..|all| - 1] == rows;
    assert Sources(all) == Sources(rows) + {row.from};
    var after := Built(users, all);
    var wanted := before[row.from := Succ(before, row.from) + [row.to]];
    assert after.Keys == wanted.Keys;
    forall k | k in after ensures after[k] == wanted[k] {
      assert after[k] == Outgoing(rows, k) + (if row.from == k then [row.to] else []);
      if k == row.from && row.from !in before {
        OutgoingNone(rows, row.from);
      }
    }
  }

  /** A user that is no row's source keeps the empty list of line 17. */
  lemma UnconnectedUser(users: seq<int>, rows: seq<Connection>, u: int)
    requires u in users && u !in Sources(rows)
    ensures u in Built(users, rows) && Built(users, rows)[u] == []
  {
    OutgoingNone(rows, u);
  }

  /** The keys are the users and the row sources, and nothing else. */
  lemma BuiltKeys(users: seq<int>, rows: seq<Connection>, k: int)
    ensures k in Built(users, rows) <==> k in users || exists r :: r in rows && r.from == k
  {
    if k in Sources(rows) {
      var r :| r in rows && r.from == k;
    }
  }

  /** Every row becomes exactly one edge: EdgeCount after the build is the number of rows. */
  lemma {:induction false} BuiltEdgeCount(users: seq<int>, rows: seq<Connection>)
    ensures TotalEdges(Built(users, rows)) == |rows|
    decreases |rows|
  {
    if rows == [] {
      var adj := Built(users, rows);
      SumOverNonNegative(adj.Keys, Lens(adj));
    } else {
      var pre, last := rows[..|rows| - 1], rows[|rows| - 1];
      assert rows == pre + [last];
      BuiltEdgeCount(users, pre);
      BuiltStep(users, pre, last);
      EdgeCountAppend(Built(users, pre), last.from, last.to);
    }
  }

  /**
    The build keeps AddEdge's invariant (every target is a key) exactly when
    every row's target is a user or the source of some row: a `to` is never
    made a key on its own.
   */
  lemma BuiltEndpoints(users: seq<int>, rows: seq<Connection>)
    ensures EndpointsAreNodes(Built(users, rows)) <==>
            forall r :: r in rows ==> r.to in users || r.to in Sources(rows)
  {
    var adj := Built(users, rows);
    if EndpointsAreNodes(adj) {
      forall r | r in rows ensures r.to in users || r.to in Sources(rows) {
        assert r.from in Sources(rows);
        OutgoingMembers(rows, r.from, r.to);
        assert r.to in adj[r.from];
        assert r.to in adj;
        assert r.to in (set u | u in users) + Sources(rows);
      }
    }
    if forall r :: r in rows ==> r.to in users || r.to in Sources(rows) {
      forall k, x | k in adj && x in adj[k] ensures x in adj {
        OutgoingMembers(rows, k, x);
        assert Connection(k, x) in rows;
      }
    }
  }

  /**
    With the schema's foreign keys (every `from_user_id` and `to_user_id`
    references `users(id)`), every edge target is a node after the build.
   */
  lemma BuiltWithForeignKeys(users: seq<int>, rows: seq<Connection>)
    requires forall r :: r in rows ==> r.from in users && r.to in users
    ensures EndpointsAreNodes(Built(users, rows))
    ensures Built(users, rows).Keys == set u | u in users
  {
    BuiltEndpoints(users, rows);
    assert Sources(rows) <= set u | u in users;
  }

  /** Without them, one row to an unknown id already leaves a target that is no key. */
  lemma TargetNotAKey()
    ensures 2 in AllIds(Built([1], [Connection(1, 2)]))
    ensures 2 !in Built([1], [Connection(1, 2)])
    ensures !EndpointsAreNodes(Built([1], [Connection(1, 2)]))
  {
    var rows := [Connection(1, 2)];
    var adj := Built([1], rows);
    assert Sources(rows) == {1};
    assert adj.Keys == {1};
    OutgoingMembers(rows, 1, 2);
    assert 2 in adj[1];
    SuccInAllIds(adj, 1, 2);
  }
}
