/**
  The ranking step of TopInfluencers (internal/graph/graph.go): (id, score)
  pairs sorted in place by decreasing score, then cut to a prefix.  The
  source calls `sort.Slice`, which promises only the order it is asked for,
  not stability; the insertion sort here is one algorithm that keeps that
  promise, and nothing below depends on how ties are broken.
 */
module Ranking {
  import opened Adjacency

  /** An (id, in-degree) pair as TopInfluencers ranks them. */
  datatype UserScore = UserScore(id: int, score: int)

  /** Non-increasing by score: the order TopInfluencers' comparator (higher score first) asks for. */
  ghost predicate SortedByScore(s: seq<UserScore>)
  {
    forall i, j :: 0 <= i < j < |s| ==> s[i].score >= s[j].score
  }

  /** No id is listed twice, as when the pairs come from the keys of one map. */
  ghost predicate UniqueIds(s: seq<UserScore>)
  {
    forall i, j :: 0 <= i < j < |s| ==> s[i].id != s[j].id
  }

  function Min(a: int, b: int): int
  {
    if a < b then a else b
  }

  ghost function IdsOf(s: seq<UserScore>): set<int>
  {
    set e | e in s :: e.id
  }

  method Swap(a: array<UserScore>, i: int, j: int)
    requires 0 <= i < a.Length && 0 <= j < a.Length
    modifies a
    ensures a[..] == old(a[..])[i := old(a[j])][j := old(a[i])]
    ensures multiset(a[..]) == multiset(old(a[..]))
  {
    a[i], a[j] := a[j], a[i];
  }

  /** sort.Slice by descending score: any order of equal scores is allowed, as sort.Slice is not stable. */
  method SortByScore(a: array<UserScore>)
    modifies a
    ensures SortedByScore(a[..])
    ensures multiset(a[..]) == multiset(old(a[..]))
  {
    var i := 0;
    while i < a.Length
      invariant 0 <= i <= a.Length
      invariant SortedByScore(a[..i])
      invariant multiset(a[..]) == multiset(old(a[..]))
    {
      var j := i;
      while j > 0 && a[j - 1].score < a[j].score
        invariant 0 <= j <= i
        invariant forall p, q :: 0 <= p < q <= i && p != j && q != j ==> a[p].score >= a[q].score
        invariant forall p, q :: 0 <= p < j < q <= i ==> a[p].score >= a[q].score
        invariant forall q :: j < q <= i ==> a[j].score >= a[q].score
        invariant multiset(a[..]) == multiset(old(a[..]))
      {
        Swap(a, j - 1, j);
        j := j - 1;
      }
      i := i + 1;
    }
  }

  lemma OccursTwice(s: seq<UserScore>, i: int, j: int)
    requires 0 <= i < j < |s| && s[i] == s[j]
    ensures multiset(s)[s[i]] >= 2
  {
    assert s == s[..j] + [s[j]] + s[j + 1..];
    assert s[..j][i] == s[i];
    assert multiset(s) == multiset(s[..j]) + multiset{s[j]} + multiset(s[j + 1..]);
  }

  lemma {:induction false} OccursAtMostOnce(s: seq<UserScore>, e: UserScore)
    requires UniqueIds(s)
    ensures multiset(s)[e] <= 1
  {
    if s != [] {
      assert s == [s[0]] + s[1..];
      assert multiset(s) == multiset{s[0]} + multiset(s[1..]);
      OccursAtMostOnce(s[1..], e);
      if e == s[0] {
        assert e !in s[1..] by {
          forall k | 0 <= k < |s| - 1 ensures s[1..][k] != e {
            assert s[1..][k] == s[k + 1];
          }
        }
      }
    }
  }

  /**
    Taking the ids of a prefix of the sorted pairs picks distinct ids, and every
    pair left out scores no more than any pair taken.
   */
  lemma RankedPrefix(scores: seq<UserScore>, sorted: seq<UserScore>, r: seq<int>)
    requires UniqueIds(scores)
    requires multiset(sorted) == multiset(scores) && SortedByScore(sorted)
    requires |r| <= |sorted| && forall i :: 0 <= i < |r| ==> r[i] == sorted[i].id
    ensures |sorted| == |scores|
    ensures forall i :: 0 <= i < |sorted| ==> sorted[i] in scores
    ensures Distinct(r)
    ensures forall e :: e in scores && e.id !in r ==> forall i :: 0 <= i < |r| ==> e.score <= sorted[i].score
  {
    assert |multiset(sorted)| == |multiset(scores)|;
    forall i | 0 <= i < |sorted| ensures sorted[i] in scores {
      assert sorted[i] in multiset(sorted);
    }
    forall i, j | 0 <= i < j < |r| ensures r[i] != r[j] {
      if r[i] == r[j] {
        var a, b := sorted[i], sorted[j];
        assert a in multiset(scores) && b in multiset(scores);
        var ia :| 0 <= ia < |scores| && scores[ia] == a;
        var ib :| 0 <= ib < |scores| && scores[ib] == b;
        assert ia == ib;
        OccursTwice(sorted, i, j);
        OccursAtMostOnce(scores, a);
        assert false;
      }
    }
    forall e, i | e in scores && e.id !in r && 0 <= i < |r| ensures e.score <= sorted[i].score {
      assert e in multiset(sorted);
      var t :| 0 <= t < |sorted| && sorted[t] == e;
      assert forall k :: 0 <= k < |r| ==> r[k] != e.id;
    }
  }

  /**
    The ids of the first `limit` pairs, once the pairs of a score map are
    sorted: as many as the map allows, distinct, in non-increasing score, and
    no id left out scores more than one taken.
   */
  lemma TopByScore(m: map<int, int>, scores: seq<UserScore>, sorted: seq<UserScore>, r: seq<int>, limit: int)
    requires |scores| == |m.Keys| && UniqueIds(scores) && IdsOf(scores) == m.Keys
    requires forall e :: e in scores ==> e.id in m && e.score == m[e.id]
    requires multiset(sorted) == multiset(scores) && SortedByScore(sorted)
    requires |r| == Min(limit, |sorted|) && forall i :: 0 <= i < |r| ==> r[i] == sorted[i].id
    ensures |r| == Min(limit, |m.Keys|)
    ensures Distinct(r) && forall i :: 0 <= i < |r| ==> r[i] in m
    ensures forall i, j :: 0 <= i < j < |r| ==> m[r[i]] >= m[r[j]]
    ensures forall x, i :: x in m && x !in r && 0 <= i < |r| ==> m[x] <= m[r[i]]
  {
    RankedPrefix(scores, sorted, r);
    forall i | 0 <= i < |r| ensures r[i] in m {
      assert sorted[i] in scores;
    }
    forall i, j | 0 <= i < j < |r| ensures m[r[i]] >= m[r[j]] {
      assert sorted[i] in scores && sorted[j] in scores;
    }
    forall x, i | x in m && x !in r && 0 <= i < |r| ensures m[x] <= m[r[i]] {
      var e :| e in scores && e.id == x;
      assert sorted[i] in scores;
    }
  }
}
