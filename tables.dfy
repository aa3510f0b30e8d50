/** The planned-traffic dictionary `nt`: a trip count per edge orientation,
    read with `dict.get(edge, 0)` and created zeroed over `G.edges()`. */
module Tables {
  import opened Graphs

  type Table = map<Edge, nat>

  /** `nt.get(e, 0)`. */
  function Get(t: Table, e: Edge): (c: nat)
    ensures e !in t ==> c == 0
  {
    if e in t then t[e] else 0
  }

  /** `{edge: 0 for edge in G.edges()}`: a table that has counted no trip
      yet, with a key for every road of the network, in the orientation the
      edge view reports, and for nothing else. */
  function ZeroTable(g: Graph): (t: Table)
    ensures t.Keys == g.weight.Keys
    ensures Total(t) == 0
  {
    var t := map e | e in g.weight :: 0;
    TotalZero(t);
    t
  }

  /** Some key of a non-empty table (the fold below does not depend on which). */
  ghost function Pick(keys: set<Edge>): (e: Edge)
    requires keys != {}
    ensures e in keys
  {
    var e :| e in keys; e
  }

  /** Sum of all counts in the table. */
  ghost function Total(t: Table): nat
    decreases |t.Keys|
  {
    if t == map[] then 0
    else
      var e := Pick(t.Keys);
      t[e] + Total(t - {e})
  }

  /** The fold may take any key first. */
  lemma {:induction false} TotalRemove(t: Table, e: Edge)
    requires e in t
    ensures Total(t) == t[e] + Total(t - {e})
    decreases |t.Keys|
  {
    var d := Pick(t.Keys);
    if d != e {
      TotalRemove(t - {d}, e);
      TotalRemove(t - {e}, d);
      assert t - {d} - {e} == t - {e} - {d};
    }
  }

  /** Setting one entry changes the total by the difference. */
  lemma TotalUpdate(t: Table, e: Edge, c: nat)
    ensures e in t ==> Total(t[e := c]) + t[e] == Total(t) + c
    ensures e !in t ==> Total(t[e := c]) == Total(t) + c
  {
    var u := t[e := c];
    TotalRemove(u, e);
    if e in t {
      TotalRemove(t, e);
      assert u - {e} == t - {e};
    } else {
      assert u - {e} == t;
    }
  }

  /** A zeroed table counts no trips. */
  lemma {:induction false} TotalZero(t: Table)
    requires forall e | e in t :: t[e] == 0
    ensures Total(t) == 0
    decreases |t.Keys|
  {
    if t != map[] {
      TotalZero(t - {Pick(t.Keys)});
    }
  }

  /** `t` counts at least what `s` does, entry by entry, on every key of `s`. */
  predicate Dominates(t: Table, s: Table) {
    forall e | e in s :: e in t && s[e] <= t[e]
  }
}
