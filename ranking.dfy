/** `road_benefits.sort(key=lambda x: x[1], reverse=True)`: Python's sort is
    stable also when reversed, so roads are ranked by benefit, highest first,
    and roads of equal benefit keep the order in which they were scored. */
module Ranking {
  import opened Graphs

  /** A `(road, benefit)` pair of the `road_benefits` list. */
  type Scored = (Edge, real)

  predicate SortedDesc(s: seq<Scored>) {
    forall i, j | 0 <= i < j < |s| :: s[i].1 >= s[j].1
  }

  /** The entries of `s` whose benefit is exactly `v`, in their order in `s`. */
  function WithKey(s: seq<Scored>, v: real): (r: seq<Scored>)
    ensures |r| <= |s|
  {
    if s == [] then []
    else (if s[0].1 == v then [s[0]] else []) + WithKey(s[1..], v)
  }

  /** Puts `x` in front of the first entry whose benefit does not exceed its
      own: `x` came before all of `s` in the scored list, so it goes before
      its ties. */
  function Insert(x: Scored, s: seq<Scored>): (r: seq<Scored>)
    requires SortedDesc(s)
    ensures SortedDesc(r)
    ensures |r| == |s| + 1
    ensures r[0] == x || (s != [] && r[0] == s[0])
  {
    if s == [] || x.1 >= s[0].1 then [x] + s
    else
      var r' := Insert(x, s[1..]);
      assert forall k | 0 <= k < |r'| :: r'[k].1 <= r'[0].1;
      [s[0]] + r'
  }

  /** Inserting adds exactly `x`. */
  lemma {:induction false} InsertPerm(x: Scored, s: seq<Scored>)
    requires SortedDesc(s)
    ensures multiset(Insert(x, s)) == multiset(s) + multiset{x}
  {
    if s != [] && x.1 < s[0].1 {
      InsertPerm(x, s[1..]);
      assert s == [s[0]] + s[1..];
    }
  }

  /** Inserting keeps every group of equal benefit in order, `x` first
      among its ties. */
  lemma {:induction false} InsertWithKey(x: Scored, s: seq<Scored>, v: real)
    requires SortedDesc(s)
    ensures WithKey(Insert(x, s), v) == if x.1 == v then [x] + WithKey(s, v) else WithKey(s, v)
  {
    var r := Insert(x, s);
    if s == [] || x.1 >= s[0].1 {
      assert r[1..] == s;
    } else {
      InsertWithKey(x, s[1..], v);
      assert r[1..] == Insert(x, s[1..]);
      assert s[0].1 > x.1;
    }
  }

  /** The ranked list: stable descending insertion sort. */
  function Rank(s: seq<Scored>): (r: seq<Scored>)
    ensures SortedDesc(r)
    ensures multiset(r) == multiset(s)
    ensures |r| == |s|
    ensures forall v :: WithKey(r, v) == WithKey(s, v)
  {
    if s == [] then []
    else
      assert s == [s[0]] + s[1..];
      var rest := Rank(s[1..]);
      assert forall v :: WithKey(Insert(s[0], rest), v) == WithKey(s, v) by {
        forall v
          ensures WithKey(Insert(s[0], rest), v) == WithKey(s, v)
        {
          InsertWithKey(s[0], rest, v);
        }
      }
      InsertPerm(s[0], rest);
      Insert(s[0], rest)
  }

  /** The head of the ranking is the first scored entry of greatest benefit:
      no entry beats it and every entry before it in the scored list is
      strictly worse. */
  lemma RankHeadIsFirstBest(s: seq<Scored>) returns (i: nat)
    requires s != []
    ensures i < |s| && Rank(s)[0] == s[i]
    ensures forall j | 0 <= j < |s| :: s[j].1 <= s[i].1
    ensures forall j | 0 <= j < i :: s[j].1 < s[i].1
  {
    var r := Rank(s);
    var top := r[0];
    assert top in multiset(s);
    forall j | 0 <= j < |s|
      ensures s[j].1 <= top.1
    {
      assert s[j] in multiset(r);
      var m :| 0 <= m < |r| && r[m] == s[j];
    }
    assert WithKey(r, top.1) == WithKey(s, top.1);
    assert WithKey(r, top.1)[0] == top;
    i := FirstWithKey(s, top.1);
  }

  /** An entry outside the first `n` of the ranking scores no higher than
      any of those `n`. */
  lemma RankPrefixBeatsRest(s: seq<Scored>, n: nat, i: nat, x: Scored)
    requires i < n <= |s| && x in s && x !in Rank(s)[..n]
    ensures x.1 <= Rank(s)[i].1
  {
    var r := Rank(s);
    forall j | 0 <= j < n
      ensures r[j] != x
    {
      assert r[j] == r[..n][j];
    }
    assert x in multiset(s);
    assert x in multiset(r);
    var m :| 0 <= m < |r| && r[m] == x;
    assert i < m && r[i].1 >= r[m].1;
  }

  /** The first entry of `WithKey(s, v)` sits at the first index holding `v`. */
  lemma {:induction false} FirstWithKey(s: seq<Scored>, v: real) returns (i: nat)
    requires WithKey(s, v) != []
    ensures i < |s| && s[i] == WithKey(s, v)[0] && s[i].1 == v
    ensures forall j | 0 <= j < i :: s[j].1 != v
  {
    if s[0].1 == v {
      i := 0;
    } else {
      var i' := FirstWithKey(s[1..], v);
      i := i' + 1;
    }
  }

  /** The roads of a scored list, in order. */
  function RoadsOf(ss: seq<Scored>): seq<Edge> {
    seq(|ss|, i requires 0 <= i < |ss| => ss[i].0)
  }

  /** The roads of a list with one more entry in front. */
  lemma RoadsOfCons(x: Scored, ss: seq<Scored>)
    ensures RoadsOf([x] + ss) == [x.0] + RoadsOf(ss)
  {
  }

  /** Inserting an entry adds exactly its road to the roads of the list. */
  lemma {:induction false} InsertRoads(x: Scored, s: seq<Scored>)
    requires SortedDesc(s)
    ensures multiset(RoadsOf(Insert(x, s))) == multiset(RoadsOf(s)) + multiset{x.0}
  {
    if s == [] || x.1 >= s[0].1 {
      RoadsOfCons(x, s);
    } else {
      InsertRoads(x, s[1..]);
      RoadsOfCons(s[0], Insert(x, s[1..]));
      RoadsOfCons(s[0], s[1..]);
      assert s == [s[0]] + s[1..];
    }
  }

  /** Ranking neither loses nor invents a road: the ranked roads are the
      scored roads, each as often. */
  lemma {:induction false} RankKeepsRoads(s: seq<Scored>)
    ensures multiset(RoadsOf(Rank(s))) == multiset(RoadsOf(s))
  {
    if s != [] {
      RankKeepsRoads(s[1..]);
      InsertRoads(s[0], Rank(s[1..]));
      RoadsOfCons(s[0], s[1..]);
      assert s == [s[0]] + s[1..];
    }
  }
}
