/**
 * The grouping dicts the duplicate checks and the makefile checks build: a
 * `collections.defaultdict(list)` filled by appending, and a `defaultdict(int)` filled by counting.
 */
module Grouping {
  /** The values of the pairs whose key is `k`, in order. */
  function Select<K(==), V>(ps: seq<(K, V)>, k: K): seq<V> {
    if ps == [] then []
    else Select(ps[..|ps| - 1], k) + if ps[|ps| - 1].0 == k then [ps[|ps| - 1].1] else []
  }

  /** A `defaultdict(list)` after `d[k].append(v)` for each pair `(k, v)` in turn. */
  function Group<K(==), V>(ps: seq<(K, V)>): map<K, seq<V>> {
    if ps == [] then map[]
    else
      var d := Group(ps[..|ps| - 1]);
      var k := ps[|ps| - 1].0;
      d[k := (if k in d then d[k] else []) + [ps[|ps| - 1].1]]
  }

  /** The keys of `Group(ps)` in insertion order, the order in which the dict yields them. */
  function Order<K(==), V>(ps: seq<(K, V)>): seq<K> {
    if ps == [] then []
    else
      var o := Order(ps[..|ps| - 1]);
      if ps[|ps| - 1].0 in o then o else o + [ps[|ps| - 1].0]
  }

  /** Every key of the pairs, once. */
  predicate Distinct<K(==)>(o: seq<K>) {
    forall i, j :: 0 <= i < j < |o| ==> o[i] != o[j]
  }

  /** The dict holds a list for exactly the keys seen, in the order first seen, each listing the values under that key. */
  lemma {:induction false} GroupIsSelect<K, V>(ps: seq<(K, V)>)
    ensures forall k :: k in Group(ps) <==> k in Order(ps)
    ensures forall k :: k in Order(ps) <==> exists i :: 0 <= i < |ps| && ps[i].0 == k
    ensures forall k :: k in Group(ps) ==> Group(ps)[k] == Select(ps, k)
    ensures Distinct(Order(ps))
  {
    if ps != [] {
      var pre := ps[..|ps| - 1];
      GroupIsSelect(pre);
      forall k | k in Group(ps) ensures Group(ps)[k] == Select(ps, k) {
        SelectNonEmpty(pre, k);
      }
      forall k ensures k in Order(ps) <==> exists i :: 0 <= i < |ps| && ps[i].0 == k {
        if k in Order(pre) {
          var i :| 0 <= i < |pre| && pre[i].0 == k;
          assert ps[i] == pre[i];
        }
        if exists i :: 0 <= i < |ps| && ps[i].0 == k {
          var i :| 0 <= i < |ps| && ps[i].0 == k;
          if i < |pre| {
            assert pre[i] == ps[i];
          }
        }
      }
    }
  }

  /** A value is listed under `k` exactly when the pair `(k, v)` occurs. */
  lemma {:induction false} SelectMembers<K, V>(ps: seq<(K, V)>, k: K)
    ensures forall v :: v in Select(ps, k) <==> (k, v) in ps
  {
    if ps != [] {
      var pre := ps[..|ps| - 1];
      SelectMembers(pre, k);
      assert ps == pre + [ps[|ps| - 1]];
    }
  }

  /** Some pair has key `k` exactly when something is listed under it. */
  lemma {:induction false} SelectNonEmpty<K, V>(ps: seq<(K, V)>, k: K)
    ensures |Select(ps, k)| >= 1 <==> exists i :: 0 <= i < |ps| && ps[i].0 == k
  {
    if ps != [] {
      var pre := ps[..|ps| - 1];
      SelectNonEmpty(pre, k);
      if exists i :: 0 <= i < |ps| && ps[i].0 == k {
        var i :| 0 <= i < |ps| && ps[i].0 == k;
        if i < |pre| {
          assert pre[i] == ps[i];
        }
      }
      if exists i :: 0 <= i < |pre| && pre[i].0 == k {
        var i :| 0 <= i < |pre| && pre[i].0 == k;
        assert ps[i] == pre[i];
      }
    }
  }

  /** Two things are listed under `k` exactly when two of the pairs have key `k`. */
  lemma {:induction false} SelectTwice<K, V>(ps: seq<(K, V)>, k: K)
    ensures |Select(ps, k)| >= 2 <==> exists i, j :: 0 <= i < j < |ps| && ps[i].0 == k && ps[j].0 == k
  {
    if ps != [] {
      var pre := ps[..|ps| - 1];
      var last := |ps| - 1;
      SelectTwice(pre, k);
      SelectNonEmpty(pre, k);
      if exists i, j :: 0 <= i < j < |ps| && ps[i].0 == k && ps[j].0 == k {
        var i, j :| 0 <= i < j < |ps| && ps[i].0 == k && ps[j].0 == k;
        assert pre[i] == ps[i];
        if j < last {
          assert pre[j] == ps[j];
        }
      }
      if exists i, j :: 0 <= i < j < |pre| && pre[i].0 == k && pre[j].0 == k {
        var i, j :| 0 <= i < j < |pre| && pre[i].0 == k && pre[j].0 == k;
        assert ps[i] == pre[i] && ps[j] == pre[j];
      }
      if ps[last].0 == k && exists i :: 0 <= i < |pre| && pre[i].0 == k {
        var i :| 0 <= i < |pre| && pre[i].0 == k;
        assert ps[i] == pre[i];
      }
    }
  }

  /** The `defaultdict(list)` loop: `d[k].append(v)` for each pair. */
  method GroupPairs<K(==), V>(ps: seq<(K, V)>) returns (d: map<K, seq<V>>, order: seq<K>)
    ensures d == Group(ps) && order == Order(ps)
    ensures forall k :: k in order ==> k in d
  {
    d, order := map[], [];
    for i := 0 to |ps|
      invariant d == Group(ps[..i]) && order == Order(ps[..i])
    {
      var k := ps[i].0;
      assert ps[..i + 1][..i] == ps[..i];
      GroupIsSelect(ps[..i]);
      if k !in d {
        order := order + [k];
      }
      d := d[k := (if k in d then d[k] else []) + [ps[i].1]];
    }
    assert ps[..|ps|] == ps;
    GroupIsSelect(ps);
  }

  /** The number of times `x` occurs. */
  function Occurrences<T(==)>(s: seq<T>, x: T): nat {
    if s == [] then 0 else Occurrences(s[..|s| - 1], x) + if s[|s| - 1] == x then 1 else 0
  }

  /** A `defaultdict(int)` after `d[x] += 1` for each element in turn. */
  function Tally<T(==)>(s: seq<T>): map<T, nat> {
    if s == [] then map[]
    else
      var d := Tally(s[..|s| - 1]);
      var x := s[|s| - 1];
      d[x := (if x in d then d[x] else 0) + 1]
  }

  /** The tally holds exactly the elements seen, each with the number of times it occurs. */
  lemma {:induction false} TallyCounts<T>(s: seq<T>)
    ensures forall x :: x in Tally(s) <==> x in s
    ensures forall x :: x in Tally(s) ==> Tally(s)[x] == Occurrences(s, x)
    ensures forall x :: x !in Tally(s) ==> Occurrences(s, x) == 0
  {
    if s != [] {
      TallyCounts(s[..|s| - 1]);
      assert s == s[..|s| - 1] + [s[|s| - 1]];
    }
  }

  /** The `defaultdict(int)` loop: `d[x] += 1` for each element. */
  method TallyItems<T(==)>(s: seq<T>) returns (d: map<T, nat>)
    ensures d == Tally(s)
  {
    d := map[];
    for i := 0 to |s|
      invariant d == Tally(s[..i])
    {
      assert s[..i + 1][..i] == s[..i];
      d := d[s[i] := (if s[i] in d then d[s[i]] else 0) + 1];
    }
    assert s[..|s|] == s;
  }
}
