/** The default `ordering = ['-creation']` of topics and messages: a query's rows
    listed newest first. */
module Ordering {

  /** `s` lists keys in non-increasing order of their creation time. */
  ghost predicate NewestFirst<K(!new)>(s: seq<K>, creation: map<K, int>)
  {
    forall i, j | 0 <= i < j < |s| ::
      s[i] in creation && s[j] in creation && creation[s[i]] >= creation[s[j]]
  }

  /** Some key of a non-empty set is at least as new as every other. */
  lemma {:induction false} NewestExists<K(!new)>(ids: set<K>, creation: map<K, int>)
    requires ids != {} && ids <= creation.Keys
    ensures exists x :: x in ids && forall y | y in ids :: creation[y] <= creation[x]
  {
    var z :| z in ids;
    var rest := ids - {z};
    if rest != {} {
      NewestExists(rest, creation);
      var m :| m in rest && forall y | y in rest :: creation[y] <= creation[m];
      if creation[z] <= creation[m] {
        assert forall y | y in ids :: creation[y] <= creation[m];
      } else {
        assert forall y | y in ids :: creation[y] <= creation[z];
      }
    } else {
      assert ids == {z};
    }
  }

  /** The keys `ids`, newest first, each exactly once (ties are listed in an
      unspecified order, as the database leaves them). */
  ghost function SortNewest<K(!new)>(ids: set<K>, creation: map<K, int>): (r: seq<K>)
    requires ids <= creation.Keys
    ensures |r| == |ids|
    ensures forall x :: x in r <==> x in ids
    ensures forall i, j | 0 <= i < j < |r| :: r[i] != r[j]
    ensures NewestFirst(r, creation)
    decreases ids
  {
    if ids == {} then []
    else
      NewestExists(ids, creation);
      var x :| x in ids && forall y | y in ids :: creation[y] <= creation[x];
      var rest := SortNewest(ids - {x}, creation);
      NewestCons(x, rest, ids, creation);
      [x] + rest
  }

  /** Putting the newest key in front of a newest-first listing of the others
      lists all the keys newest first, each once. */
  lemma NewestCons<K(!new)>(x: K, rest: seq<K>, ids: set<K>, creation: map<K, int>)
    requires x in ids && ids <= creation.Keys
    requires forall y | y in ids :: creation[y] <= creation[x]
    requires |rest| == |ids - {x}|
    requires forall y :: y in rest <==> y in ids - {x}
    requires forall i, j | 0 <= i < j < |rest| :: rest[i] != rest[j]
    requires NewestFirst(rest, creation)
    ensures |[x] + rest| == |ids|
    ensures forall y :: y in [x] + rest <==> y in ids
    ensures forall i, j | 0 <= i < j < |[x] + rest| :: ([x] + rest)[i] != ([x] + rest)[j]
    ensures NewestFirst([x] + rest, creation)
  {
    var r := [x] + rest;
    forall i, j | 0 <= i < j < |r|
      ensures r[i] != r[j] && r[i] in creation && r[j] in creation && creation[r[i]] >= creation[r[j]]
    {
      assert r[j] == rest[j - 1] && r[j] in ids - {x};
      if i > 0 {
        assert r[i] == rest[i - 1];
      }
    }
  }

  /** The first `n` keys of a newest-first listing of `ids` are the newest ones:
      no key left out is newer than a key kept. */
  lemma NewestPrefix<K(!new)>(ids: set<K>, creation: map<K, int>, n: nat, kept: K, dropped: K)
    requires ids <= creation.Keys
    requires kept in Take(SortNewest(ids, creation), n)
    requires dropped in ids && dropped !in Take(SortNewest(ids, creation), n)
    ensures creation[dropped] <= creation[kept]
  {
    var s := SortNewest(ids, creation);
    var t := Take(s, n);
    var i :| 0 <= i < |t| && t[i] == kept;
    var j :| 0 <= j < |s| && s[j] == dropped;
    assert s[i] == kept;
    assert t == s[..|t|];
  }

  /** At most the first `n` elements of `s` (a queryset slice `[:n]`). */
  function Take<K>(s: seq<K>, n: nat): (r: seq<K>)
    ensures |r| == if |s| < n then |s| else n
    ensures r == s[..|r|]
  {
    if |s| < n then s else s[..n]
  }
}
