/** Sequence helpers shared by the storage model and the handlers: an optional
    value, the row filter that every ORM `filter(...)` reduces to, and key
    uniqueness as a database constraint states it. */
module Collections {

  datatype Option<+T> = None | Some(value: T)

  /** The rows of `s` that satisfy `p`, in their stored order. */
  function Filter<T(!new)>(s: seq<T>, p: T -> bool): (r: seq<T>)
    ensures |r| <= |s|
    ensures forall x :: x in r <==> x in s && p(x)
  {
    if s == [] then []
    else if p(s[0]) then [s[0]] + Filter(s[1..], p)
    else Filter(s[1..], p)
  }

  /** No two rows of `s` agree on `key`: a primary key or a unique constraint. */
  ghost predicate Distinct<T, K>(s: seq<T>, key: T -> K) {
    forall i, j | 0 <= i < j < |s| :: key(s[i]) != key(s[j])
  }

  /** Under a unique constraint, two stored rows with the same key are the same row. */
  lemma DistinctMembers<T, K>(s: seq<T>, key: T -> K, a: T, b: T)
    requires Distinct(s, key)
    requires a in s && b in s && key(a) == key(b)
    ensures a == b
  {
    var i :| 0 <= i < |s| && s[i] == a;
    var j :| 0 <= j < |s| && s[j] == b;
    assert key(s[i]) == key(s[j]);
  }

  /** Removing rows never breaks a unique constraint. */
  lemma {:induction false} FilterKeepsDistinct<T(!new), K>(s: seq<T>, p: T -> bool, key: T -> K)
    requires Distinct(s, key)
    ensures Distinct(Filter(s, p), key)
  {
    if s != [] {
      var tail := s[1..];
      assert Distinct(tail, key) by {
        forall i, j | 0 <= i < j < |tail| ensures key(tail[i]) != key(tail[j]) {
          assert tail[i] == s[i + 1] && tail[j] == s[j + 1];
        }
      }
      FilterKeepsDistinct(tail, p, key);
      if p(s[0]) {
        var rest := Filter(tail, p);
        var r := [s[0]] + rest;
        forall x | x in rest ensures key(x) != key(s[0]) {
          var j :| 0 <= j < |tail| && tail[j] == x;
          assert s[j + 1] == x;
        }
        forall i, j | 0 <= i < j < |r| ensures key(r[i]) != key(r[j]) {
          if i == 0 {
            assert r[j] == rest[j - 1] && r[j] in rest;
          } else {
            assert r[i] == rest[i - 1] && r[j] == rest[j - 1];
          }
        }
      }
    }
  }
}
