/** Sequence helpers for the Python list operations the simulation relies on:
    duplicate-freedom, first-index lookup, the "keep what is not listed"
    comprehension, `list.remove`, negative slicing and a pigeonhole fact. */
module Seqs {

  datatype Option<+T> = None | Some(value: T)

  predicate Distinct<T(==)>(s: seq<T>) {
    forall i, j | 0 <= i < j < |s| :: s[i] != s[j]
  }

  function MinNat(a: nat, b: nat): nat {
    if a <= b then a else b
  }

  /** `[e for e in s if e not in drop]`: keeps, in order, the elements of
      `s` that `drop` does not list. */
  function Without<T(==)>(s: seq<T>, drop: seq<T>): (r: seq<T>)
    ensures |r| <= |s|
  {
    if s == [] then []
    else (if s[0] in drop then [] else [s[0]]) + Without(s[1..], drop)
  }

  /** An element survives exactly when it was there and is not dropped, and
      it survives as often as it occurred. */
  lemma {:induction false} WithoutMembers<T>(s: seq<T>, drop: seq<T>)
    ensures forall x :: x in Without(s, drop) <==> x in s && x !in drop
    ensures forall x | x !in drop :: multiset(Without(s, drop))[x] == multiset(s)[x]
    decreases |s|
  {
    if s != [] {
      WithoutMembers(s[1..], drop);
      assert s == [s[0]] + s[1..];
    }
  }

  /** The comprehension distributes over concatenation: it keeps the
      relative order of the elements it keeps. */
  lemma {:induction false} WithoutAppend<T>(a: seq<T>, b: seq<T>, drop: seq<T>)
    ensures Without(a + b, drop) == Without(a, drop) + Without(b, drop)
    decreases |a|
  {
    if a == [] {
      assert a + b == b;
    } else {
      var ab := a + b;
      assert ab[0] == a[0] && ab[1..] == a[1..] + b;
      WithoutAppend(a[1..], b, drop);
    }
  }

  /** The comprehension over one more element. */
  lemma WithoutSnoc<T>(s: seq<T>, x: T, drop: seq<T>)
    ensures Without(s + [x], drop) == Without(s, drop) + (if x in drop then [] else [x])
  {
    WithoutAppend(s, [x], drop);
    assert [x][1..] == [];
  }

  /** With nothing to drop the comprehension is a copy. */
  lemma {:induction false} WithoutNothing<T>(s: seq<T>)
    ensures Without(s, []) == s
    decreases |s|
  {
    if s != [] {
      WithoutNothing(s[1..]);
    }
  }

  /** `list.remove(x)`: drops the first occurrence of `x`. */
  function RemoveFirst<T(==)>(s: seq<T>, x: T): (r: seq<T>)
    requires x in s
    ensures |r| == |s| - 1
    decreases |s|
  {
    if s[0] == x then s[1..]
    else
      assert x in s[1..];
      [s[0]] + RemoveFirst(s[1..], x)
  }

  /** `list.remove` takes away exactly one `x`. */
  lemma {:induction false} RemoveFirstCount<T>(s: seq<T>, x: T)
    requires x in s
    ensures multiset(RemoveFirst(s, x)) == multiset(s) - multiset{x}
    decreases |s|
  {
    assert s == [s[0]] + s[1..];
    if s[0] != x {
      assert x in s[1..];
      RemoveFirstCount(s[1..], x);
    }
  }

  /** What `list.remove` leaves is the list with the element at the first
      occurrence cut out. */
  lemma {:induction false} RemoveFirstCuts<T>(s: seq<T>, i: nat)
    requires i < |s| && forall k | 0 <= k < i :: s[k] != s[i]
    ensures RemoveFirst(s, s[i]) == s[..i] + s[i + 1..]
    decreases i
  {
    if i == 0 {
      assert s[..0] + s[1..] == s[1..];
    } else {
      var t := s[1..];
      assert t[i - 1] == s[i];
      forall k | 0 <= k < i - 1
        ensures t[k] != t[i - 1]
      {
        assert t[k] == s[k + 1];
      }
      RemoveFirstCuts(t, i - 1);
      assert s == [s[0]] + t;
      ConsCut(s[0], t, i - 1);
    }
  }

  /** Cutting position `j` out of a tail is cutting `j + 1` out of the
      whole list. */
  lemma ConsCut<T>(a: T, t: seq<T>, j: nat)
    requires j < |t|
    ensures [a] + (t[..j] + t[j + 1..]) == ([a] + t)[..j + 1] + ([a] + t)[j + 2..]
  {
    var s := [a] + t;
    assert s[..j + 1] == [a] + t[..j];
    assert s[j + 2..] == t[j + 1..];
  }

  /** A prefix one longer is the prefix plus the next element. */
  lemma TakeNext<T>(s: seq<T>, i: nat)
    requires i < |s|
    ensures s[..i + 1] == s[..i] + [s[i]]
  {
  }

  /** An element of a non-empty sequence is in its front or is its last. */
  lemma InFrontOrLast<T>(s: seq<T>)
    requires s != []
    ensures forall x :: x in s <==> x in s[..|s| - 1] || x == s[|s| - 1]
  {
    assert s == s[..|s| - 1] + [s[|s| - 1]];
  }

  /** Python's `s[-k:]`: the last `k` elements, except that `-0` is `0`,
      so `k == 0` yields the whole list. */
  function LastK<T>(s: seq<T>, k: nat): (r: seq<T>)
    ensures |r| <= |s| && r == s[|s| - |r|..]
    ensures k == 0 || k >= |s| ==> r == s
    ensures 0 < k <= |s| ==> |r| == k
  {
    if k == 0 then s
    else s[|s| - MinNat(k, |s|)..]
  }

  /** Taking the last `k` of a list that ends with at most `k` new
      elements keeps all of them, at its end. */
  lemma LastKEndsWith<T>(s: seq<T>, t: seq<T>, k: nat, l: seq<T>)
    requires |t| <= k && l == LastK(s + t, k)
    ensures |t| <= |l| && forall j | 0 <= j < |t| :: l[|l| - |t| + j] == t[j]
    ensures forall x | x in l :: x in s + t
  {
    forall j | 0 <= j < |t|
      ensures l[|l| - |t| + j] == t[j]
    {
      assert l[|l| - |t| + j] == (s + t)[|s| + j];
    }
  }

  /** A sequence longer than the set its elements come from repeats one. */
  lemma {:induction false} Pigeonhole<T>(p: seq<T>, elems: set<T>) returns (i: nat, j: nat)
    requires forall k | 0 <= k < |p| :: p[k] in elems
    requires |p| > |elems|
    ensures i < j < |p| && p[i] == p[j]
    decreases |p|
  {
    if p[0] in p[1..] {
      var m :| 0 <= m < |p[1..]| && p[1..][m] == p[0];
      i, j := 0, m + 1;
    } else {
      var rest := elems - {p[0]};
      assert |rest| == |elems| - 1;
      forall k | 0 <= k < |p[1..]|
        ensures p[1..][k] in rest
      {
        assert p[1..][k] in p[1..];
      }
      var i', j' := Pigeonhole(p[1..], rest);
      i, j := i' + 1, j' + 1;
    }
  }

  /** The set of a sequence's elements is no larger than the sequence. */
  lemma {:induction false} ElemsCard<T>(s: seq<T>)
    ensures |set x | x in s| <= |s|
    decreases |s|
  {
    if s != [] {
      ElemsCard(s[1..]);
      assert (set x | x in s) == {s[0]} + (set x | x in s[1..]);
    }
  }

  /** Concatenating duplicate-free sequences with no element in common. */
  lemma DistinctConcat<T>(a: seq<T>, b: seq<T>)
    requires Distinct(a) && Distinct(b) && forall x | x in a :: x !in b
    ensures Distinct(a + b)
  {
    var t := a + b;
    forall i, j | 0 <= i < j < |t|
      ensures t[i] != t[j]
    {
      if i < |a| <= j {
        assert t[i] in a && t[j] in b;
      }
    }
  }

  /** `Distinct` stated one head at a time. Structures that carry a
      duplicate-free list in their invariant use this form: the solver
      unfolds it one step at a time instead of pairing every two positions. */
  predicate NoRepeats<T(==)>(s: seq<T>)
    decreases |s|
  {
    s == [] || (s[0] !in s[1..] && NoRepeats(s[1..]))
  }

  lemma {:induction false} NoRepeatsIffDistinct<T>(s: seq<T>)
    ensures NoRepeats(s) <==> Distinct(s)
    decreases |s|
  {
    if s != [] {
      NoRepeatsIffDistinct(s[1..]);
      if Distinct(s) {
        DistinctTail(s);
      } else if NoRepeats(s) {
        forall i, j | 0 <= i < j < |s|
          ensures s[i] != s[j]
        {
          if i == 0 {
            assert s[j] == s[1..][j - 1];
          } else {
            assert s[i] == s[1..][i - 1] && s[j] == s[1..][j - 1];
          }
        }
      }
    }
  }

  /** The tail of a list without repeats has none and lacks the head. */
  lemma DistinctTail<T>(s: seq<T>)
    requires Distinct(s) && s != []
    ensures Distinct(s[1..]) && s[0] !in s[1..]
  {
    forall i, j | 0 <= i < j < |s[1..]|
      ensures s[1..][i] != s[1..][j]
    {
      assert s[1..][i] == s[i + 1] && s[1..][j] == s[j + 1];
    }
    forall j | 0 <= j < |s[1..]|
      ensures s[1..][j] != s[0]
    {
      assert s[1..][j] == s[j + 1];
    }
  }

  /** The nested draw loops (`for iteration ...: for agent ...:`) visit the
      draws of each iteration in turn. */
  function Flatten<T>(d: seq<seq<T>>): (r: seq<T>)
    decreases |d|
  {
    if d == [] then [] else Flatten(d[..|d| - 1]) + d[|d| - 1]
  }

  lemma {:induction false} FlattenAppend<T>(a: seq<seq<T>>, b: seq<seq<T>>)
    ensures Flatten(a + b) == Flatten(a) + Flatten(b)
    decreases |b|
  {
    if b == [] {
      assert a + b == a;
    } else {
      var b' := b[..|b| - 1];
      FlattenAppend(a, b');
      assert (a + b)[..|a + b| - 1] == a + b';
    }
  }

  lemma FlattenStep<T>(d: seq<seq<T>>, i: nat)
    requires i < |d|
    ensures Flatten(d[..i + 1]) == Flatten(d[..i]) + d[i]
  {
    assert d[..i + 1][..i] == d[..i];
  }
}
