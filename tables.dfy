/** Generic table machinery shared by the in-memory models of the database tables:
    identifiers, optional and fallible results, and WHERE-style filters over rows kept
    in store order. */
module Tables {

  /** Primary keys (UUIDs in the database) are modelled as naturals handed out by a counter. */
  type Id = nat

  datatype Option<T> = None | Some(value: T)

  datatype Result<T, E> = Success(value: T) | Failure(error: E)

  /** The rows of `s` that satisfy `p`, in their original order (a SELECT ... WHERE). */
  function Filter<T(!new)>(s: seq<T>, p: T -> bool): (r: seq<T>)
    ensures |r| <= |s|
    ensures forall x :: x in r <==> x in s && p(x)
  {
    if s == [] then [] else (if p(s[0]) then [s[0]] else []) + Filter(s[1..], p)
  }

  /** Filtering distributes over concatenation (rows appended at the end of a table). */
  lemma {:induction false} FilterAppend<T(!new)>(s: seq<T>, t: seq<T>, p: T -> bool)
    ensures Filter(s + t, p) == Filter(s, p) + Filter(t, p)
  {
    if s == [] {
      assert s + t == t;
    } else {
      assert (s + t)[1..] == s[1..] + t;
      FilterAppend(s[1..], t, p);
    }
  }

  /** One step of a scan that extends the prefix `s[..i]`. */
  lemma FilterSnoc<T(!new)>(s: seq<T>, i: int, p: T -> bool)
    requires 0 <= i < |s|
    ensures Filter(s[..i + 1], p) == Filter(s[..i], p) + (if p(s[i]) then [s[i]] else [])
  {
    assert s[..i + 1] == s[..i] + [s[i]];
    FilterAppend(s[..i], [s[i]], p);
    assert [s[i]][1..] == [];
  }

  /** One step of a count over the prefix `s[..i]`. */
  lemma CountSnoc<T(!new)>(s: seq<T>, i: int, p: T -> bool)
    requires 0 <= i < |s|
    ensures |Filter(s[..i + 1], p)| == |Filter(s[..i], p)| + if p(s[i]) then 1 else 0
  {
    FilterSnoc(s, i, p);
  }

  /** When `p` splits into the disjoint alternatives `q` and `r`, the counts add up. */
  lemma {:induction false} FilterPartition<T(!new)>(s: seq<T>, p: T -> bool, q: T -> bool, r: T -> bool)
    requires forall x :: p(x) <==> q(x) || r(x)
    requires forall x :: !(q(x) && r(x))
    ensures |Filter(s, p)| == |Filter(s, q)| + |Filter(s, r)|
  {
    if s != [] {
      FilterPartition(s[1..], p, q, r);
    }
  }

  /** No two rows of `s` share a key (a primary-key or unique constraint). */
  ghost predicate KeysDistinct<T, K>(s: seq<T>, key: T -> K)
  {
    forall i, j :: 0 <= i < j < |s| ==> key(s[i]) != key(s[j])
  }

  /** Deleting rows keeps a unique key unique. */
  lemma {:induction false} FilterKeysDistinct<T(!new), K>(s: seq<T>, p: T -> bool, key: T -> K)
    requires KeysDistinct(s, key)
    ensures KeysDistinct(Filter(s, p), key)
  {
    if s != [] {
      var tail := Filter(s[1..], p);
      FilterKeysDistinct(s[1..], p, key);
      if p(s[0]) {
        forall j | 0 <= j < |tail|
          ensures key(s[0]) != key(tail[j])
        {
          assert tail[j] in s[1..];
          var k :| 0 <= k < |s[1..]| && s[1..][k] == tail[j];
          assert s[k + 1] == tail[j];
        }
        var r := [s[0]] + tail;
        forall i, j | 0 <= i < j < |r|
          ensures key(r[i]) != key(r[j])
        {
          if i > 0 {
            assert r[i] == tail[i - 1] && r[j] == tail[j - 1];
          } else {
            assert r[j] == tail[j - 1];
          }
        }
      }
    }
  }
}
