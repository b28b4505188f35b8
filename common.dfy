/** Generic pieces shared by the models of the notifier: an optional value
    and the order-preserving filter that a `SELECT … WHERE` performs on a
    table kept in row order. */
module Common {

  datatype Option<T> = None | Some(value: T)

  /** The elements of `s` that satisfy `p`, in the order they have in `s`. */
  function Filter<T(!new)>(s: seq<T>, p: T -> bool): (r: seq<T>)
    ensures |r| <= |s|
    ensures forall i :: 0 <= i < |r| ==> p(r[i])
    ensures forall x :: x in r <==> x in s && p(x)
  {
    if s == [] then []
    else
      assert s == [s[0]] + s[1..];
      (if p(s[0]) then [s[0]] else []) + Filter(s[1..], p)
  }

  /** Filtering distributes over concatenation: together with the
      one-element case this says the filter keeps the table's order. */
  lemma {:induction false} FilterAppend<T(!new)>(a: seq<T>, b: seq<T>, p: T -> bool)
    ensures Filter(a + b, p) == Filter(a, p) + Filter(b, p)
  {
    if a == [] {
      assert a + b == b;
    } else {
      assert (a + b)[0] == a[0];
      assert (a + b)[1..] == a[1..] + b;
      FilterAppend(a[1..], b, p);
    }
  }

  /** Filtering a list that grows by one element at its end. */
  lemma FilterSnoc<T(!new)>(s: seq<T>, x: T, p: T -> bool)
    ensures Filter(s + [x], p) == Filter(s, p) + (if p(x) then [x] else [])
  {
    FilterAppend(s, [x], p);
    assert [x][1..] == [];
  }

  /** No two positions of `s` share a key. */
  ghost predicate DistinctBy<T, K>(s: seq<T>, key: T -> K) {
    forall i, j :: 0 <= i < j < |s| ==> key(s[i]) != key(s[j])
  }

  /** In a list with distinct keys, the tail has distinct keys and none
      of them is the key of the head. */
  lemma DistinctByTail<T, K>(s: seq<T>, key: T -> K)
    requires s != [] && DistinctBy(s, key)
    ensures DistinctBy(s[1..], key)
    ensures forall x :: x in s[1..] ==> key(x) != key(s[0])
  {
    var tail := s[1..];
    forall i, j | 0 <= i < j < |tail|
      ensures key(tail[i]) != key(tail[j])
    {
      assert tail[i] == s[i + 1] && tail[j] == s[j + 1];
    }
    forall x | x in tail
      ensures key(x) != key(s[0])
    {
      var k :| 0 <= k < |tail| && tail[k] == x;
      assert s[k + 1] == x;
    }
  }

  /** Filtering keeps keys distinct: deleting rows from a table never
      makes two rows share a key. */
  lemma {:induction false} FilterDistinctBy<T(!new), K>(s: seq<T>, p: T -> bool, key: T -> K)
    requires DistinctBy(s, key)
    ensures DistinctBy(Filter(s, p), key)
  {
    if s != [] {
      var tail := s[1..];
      DistinctByTail(s, key);
      FilterDistinctBy(tail, p, key);
      var ft := Filter(tail, p);
      if p(s[0]) {
        var r := Filter(s, p);
        assert r == [s[0]] + ft;
        forall i, j | 0 <= i < j < |r|
          ensures key(r[i]) != key(r[j])
        {
          assert r[j] == ft[j - 1];
          if i > 0 {
            assert r[i] == ft[i - 1];
          }
        }
      }
    }
  }
}
