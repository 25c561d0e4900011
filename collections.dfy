/**
  Python dictionaries and list comprehensions as the core uses them. An ordered
  dictionary (keyword arguments, cleaned form data) is a sequence of (key, value)
  pairs; a dictionary whose order does not matter is a `map`.
 */
module Collections {
  import opened Wrappers

  /** A comprehension with a condition: the elements of `s` that satisfy `p`, in their order. */
  function Filter<T>(p: T -> bool, s: seq<T>): (r: seq<T>)
    ensures |r| <= |s|
    ensures forall i :: 0 <= i < |r| ==> r[i] in s && p(r[i])
    ensures forall i :: 0 <= i < |s| && p(s[i]) ==> s[i] in r
    ensures multiset(r) <= multiset(s)
    ensures forall x | x in s :: multiset(r)[x] == if p(x) then multiset(s)[x] else 0
  {
    if s == [] then []
    else
      var init, last := s[..|s| - 1], s[|s| - 1];
      assert s == init + [last];
      assert multiset(s) == multiset(init) + multiset{last};
      var rest := Filter(p, init);
      if p(last) then
        assert multiset(rest + [last]) == multiset(rest) + multiset{last};
        rest + [last]
      else rest
  }

  /** Filtering one more element appends it exactly when it satisfies the condition. */
  lemma FilterSnoc<T>(p: T -> bool, s: seq<T>, x: T)
    ensures Filter(p, s + [x]) == Filter(p, s) + (if p(x) then [x] else [])
  {
    assert (s + [x])[..|s + [x]| - 1] == s;
  }

  /**
    Order: filtering a concatenation filters each part and concatenates the results, so
    the kept elements keep their relative order.
   */
  lemma {:induction false} FilterConcat<T>(p: T -> bool, a: seq<T>, b: seq<T>)
    ensures Filter(p, a + b) == Filter(p, a) + Filter(p, b)
  {
    if b != [] {
      var init := b[..|b| - 1];
      var x := b[|b| - 1];
      assert b == init + [x];
      assert a + b == (a + init) + [x];
      FilterConcat(p, a, init);
      FilterSnoc(p, a + init, x);
      FilterSnoc(p, init, x);
    } else {
      assert a + b == a;
    }
  }

  /** The keys of an ordered dictionary: a key is listed exactly when some pair carries it. */
  function Keys<K, V>(d: seq<(K, V)>): (r: seq<K>)
    ensures |r| == |d|
    ensures forall i :: 0 <= i < |d| ==> r[i] == d[i].0
    ensures forall k | k in r :: exists e | e in d :: e.0 == k
    ensures forall e | e in d :: e.0 in r
  {
    var r := seq(|d|, i requires 0 <= i < |d| => d[i].0);
    assert forall k | k in r :: exists e | e in d :: e.0 == k by {
      forall k | k in r ensures exists e | e in d :: e.0 == k {
        var i :| 0 <= i < |r| && r[i] == k;
        assert d[i] in d;
      }
    }
    assert forall e | e in d :: e.0 in r by {
      forall e | e in d ensures e.0 in r {
        var i :| 0 <= i < |d| && d[i] == e;
        assert r[i] == e.0;
      }
    }
    r
  }

  /** The keys of an ordered dictionary are pairwise distinct, as those of a Python dict are. */
  predicate DistinctKeys<K(==), V>(d: seq<(K, V)>)
  {
    forall i, j :: 0 <= i < j < |d| ==> d[i].0 != d[j].0
  }

  /** `d.get(k)`: the value stored under `k` in an ordered dictionary. */
  function Get<K(==), V>(d: seq<(K, V)>, k: K): (r: Option<V>)
    ensures r.Some? <==> k in Keys(d)
    ensures r.Some? ==> (k, r.value) in d
  {
    if d == [] then None
    else if d[0].0 == k then Some(d[0].1)
    else
      assert Keys(d) == [d[0].0] + Keys(d[1..]);
      Get(d[1..], k)
  }

  /** The map left by performing `m[k] = v` for every pair of `w` in order; a later pair overrides an earlier one. */
  function Assign<K, V>(m: map<K, V>, w: seq<(K, V)>): map<K, V>
  {
    if w == [] then m else Assign(m, w[..|w| - 1])[w[|w| - 1].0 := w[|w| - 1].1]
  }

  /** One more assignment updates the map left by the earlier ones. */
  lemma AssignSnoc<K, V>(m: map<K, V>, w: seq<(K, V)>, x: (K, V))
    ensures Assign(m, w + [x]) == Assign(m, w)[x.0 := x.1]
  {
    assert (w + [x])[..|w + [x]| - 1] == w;
  }

  /** Assigning the pairs of `w` to `m` is overriding `m` with the dictionary `w` builds on its own. */
  lemma {:induction false} AssignIsUnion<K, V>(m: map<K, V>, w: seq<(K, V)>)
    ensures Assign(m, w) == m + Assign(map[], w)
  {
    if w != [] {
      AssignIsUnion(m, w[..|w| - 1]);
    }
  }

  /** Performing the same assignments twice leaves what performing them once leaves. */
  lemma AssignIdempotent<K, V>(m: map<K, V>, w: seq<(K, V)>)
    ensures Assign(Assign(m, w), w) == Assign(m, w)
  {
    AssignIsUnion(m, w);
    AssignIsUnion(Assign(m, w), w);
  }

  /** Assignments that a map already reflects change nothing. */
  lemma AssignAbsorbed<K, V>(m: map<K, V>, w: seq<(K, V)>)
    requires forall k :: k in Assign(map[], w) ==> k in m && m[k] == Assign(map[], w)[k]
    ensures Assign(m, w) == m
  {
    AssignIsUnion(m, w);
  }

  /** The keys a sequence of assignments introduces are exactly the keys it names. */
  lemma {:induction false} AssignKeys<K, V>(m: map<K, V>, w: seq<(K, V)>)
    ensures Assign(m, w).Keys == m.Keys + (set i | 0 <= i < |w| :: w[i].0)
  {
    if w != [] {
      AssignKeys(m, w[..|w| - 1]);
    }
  }

  /** With distinct keys, every pair of `w` is found in the result of the assignments. */
  lemma {:induction false} AssignDistinct<K, V>(m: map<K, V>, w: seq<(K, V)>, i: nat)
    requires DistinctKeys(w)
    requires i < |w|
    ensures w[i].0 in Assign(m, w) && Assign(m, w)[w[i].0] == w[i].1
  {
    if i < |w| - 1 {
      AssignDistinct(m, w[..|w| - 1], i);
    }
  }
  /** Assigning `a` and then `b` is assigning `a + b`. */
  lemma {:induction false} AssignConcat<K, V>(m: map<K, V>, a: seq<(K, V)>, b: seq<(K, V)>)
    ensures Assign(m, a + b) == Assign(Assign(m, a), b)
  {
    if b == [] {
      assert a + b == a;
    } else {
      assert (a + b)[..|a + b| - 1] == a + b[..|b| - 1];
      AssignConcat(m, a, b[..|b| - 1]);
    }
  }

  /** A key that `w` names ends up holding the value of one of the pairs of `w` that name it. */
  lemma {:induction false} AssignFromSome<K, V>(m: map<K, V>, w: seq<(K, V)>, k: K)
    requires exists i :: 0 <= i < |w| && w[i].0 == k
    ensures k in Assign(m, w)
    ensures exists i :: 0 <= i < |w| && w[i].0 == k && Assign(m, w)[k] == w[i].1
  {
    var n := |w| - 1;
    if w[n].0 != k {
      var i :| 0 <= i < |w| && w[i].0 == k;
      assert i < n && w[..n][i] == w[i];
      AssignFromSome(m, w[..n], k);
      var j :| 0 <= j < n && w[..n][j].0 == k && Assign(m, w[..n])[k] == w[..n][j].1;
      assert w[j] == w[..n][j];
    }
  }

  /** An assignment run that never names `k` leaves the value under `k` as it was. */
  lemma {:induction false} AssignKeepsOthers<K, V>(m: map<K, V>, w: seq<(K, V)>, k: K)
    requires k in m
    requires forall i :: 0 <= i < |w| ==> w[i].0 != k
    ensures k in Assign(m, w) && Assign(m, w)[k] == m[k]
  {
    if w != [] {
      var n := |w| - 1;
      assert forall i :: 0 <= i < n ==> w[..n][i] == w[i];
      AssignKeepsOthers(m, w[..n], k);
    }
  }
}
