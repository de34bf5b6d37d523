/**
 A Python `dict` as the script uses it: key/value pairs kept in insertion
 order, each key at most once. Assigning to a present key replaces its value
 where it stands; assigning to a new key appends the pair at the end.
 */
module OrderedDicts {

  datatype Option<T> = None | Some(value: T)

  type Dict<K, V> = seq<(K, V)>

  /** The keys, in insertion order (what iterating over the dict yields). */
  function Keys<K(==), V>(d: Dict<K, V>): (ks: seq<K>)
    ensures |ks| == |d|
    ensures forall i :: 0 <= i < |d| ==> ks[i] == d[i].0
  {
    seq(|d|, i requires 0 <= i < |d| => d[i].0)
  }

  /** The invariant every Python dict keeps: no key is stored twice. */
  predicate UniqueKeys<K(==), V>(d: Dict<K, V>)
  {
    forall i, j :: 0 <= i < j < |d| ==> d[i].0 != d[j].0
  }

  /** Position of the first pair whose key is `k`. */
  function IndexOf<K(==), V>(d: Dict<K, V>, k: K): (i: nat)
    requires k in Keys(d)
    ensures i < |d| && d[i].0 == k
    ensures forall j :: 0 <= j < i ==> d[j].0 != k
  {
    if d[0].0 == k then 0
    else
      assert k in Keys(d[1..]) by {
        var m :| 0 <= m < |d| && Keys(d)[m] == k;
        assert Keys(d[1..])[m - 1] == k;
      }
      1 + IndexOf(d[1..], k)
  }

  /** In a dict with unique keys, the position of a key is the one index holding it. */
  lemma IndexOfIsOnly<K, V>(d: Dict<K, V>, k: K, j: nat)
    requires UniqueKeys(d)
    requires j < |d| && d[j].0 == k
    ensures k in Keys(d) && IndexOf(d, k) == j
  {
    assert Keys(d)[j] == k;
  }

  /** `d.get(k)`: the value stored under `k`, or None. */
  function Get<K(==), V>(d: Dict<K, V>, k: K): (r: Option<V>)
    ensures r.Some? <==> k in Keys(d)
    ensures r.Some? ==> (k, r.value) in d
  {
    if k in Keys(d) then Some(d[IndexOf(d, k)].1) else None
  }

  /** `d.get(k, default)`, and a read of a `defaultdict` whose factory gives `default`. */
  function GetOr<K(==), V>(d: Dict<K, V>, k: K, default: V): (r: V)
    ensures k in Keys(d) ==> (k, r) in d
    ensures k !in Keys(d) ==> r == default
  {
    match Get(d, k)
    case Some(v) => v
    case None => default
  }

  /** `d[k] = v`. */
  function Put<K(==), V>(d: Dict<K, V>, k: K, v: V): (r: Dict<K, V>)
    requires UniqueKeys(d)
    ensures UniqueKeys(r)
    ensures Keys(r) == if k in Keys(d) then Keys(d) else Keys(d) + [k]
    ensures forall i :: 0 <= i < |d| && d[i].0 != k ==> r[i] == d[i]
    ensures forall i :: 0 <= i < |r| && r[i].0 == k ==> r[i] == (k, v)
    ensures (k, v) in r
    ensures forall x :: x in r ==> x in d || x == (k, v)
  {
    if k in Keys(d) then
      var i := IndexOf(d, k);
      var r := d[i := (k, v)];
      assert Keys(r) == Keys(d);
      r
    else
      var r := d + [(k, v)];
      assert Keys(r) == Keys(d) + [k];
      r
  }

  /** Assigning to a new key appends the pair. */
  lemma PutNew<K, V>(d: Dict<K, V>, k: K, v: V)
    requires UniqueKeys(d) && k !in Keys(d)
    ensures Put(d, k, v) == d + [(k, v)]
  {
  }

  /** The keys of two dicts put end to end. */
  lemma KeyInAppend<K, V>(a: Dict<K, V>, b: Dict<K, V>, k: K)
    ensures k in Keys(a + b) <==> k in Keys(a) || k in Keys(b)
  {
    if k in Keys(a + b) {
      var i :| 0 <= i < |a + b| && (a + b)[i].0 == k;
      if i < |a| {
        assert Keys(a)[i] == k;
      } else {
        assert Keys(b)[i - |a|] == k;
      }
    }
    if k in Keys(a) {
      var j :| 0 <= j < |a| && a[j].0 == k;
      assert Keys(a + b)[j] == k;
    }
    if k in Keys(b) {
      var j :| 0 <= j < |b| && b[j].0 == k;
      assert Keys(a + b)[|a| + j] == k;
    }
  }

  /** Reading a key back after `d[k] = v`. */
  lemma GetPut<K, V>(d: Dict<K, V>, k: K, v: V, k': K)
    requires UniqueKeys(d)
    ensures Get(Put(d, k, v), k') == if k' == k then Some(v) else Get(d, k')
  {
    var r := Put(d, k, v);
    if k' == k {
      IndexOfIsOnly(r, k, IndexOf(r, k));
    } else if k' in Keys(d) {
      var i := IndexOf(d, k');
      assert r[i] == d[i];
      IndexOfIsOnly(r, k', i);
    } else {
      assert k' !in Keys(r);
    }
  }

  /** The dict that `for x in s: d[f(x).0] = f(x).1` builds from an empty one. */
  function PutEach<A, K(==), V>(s: seq<A>, f: A -> (K, V)): (r: Dict<K, V>)
    ensures UniqueKeys(r)
  {
    if s == [] then []
    else
      var e := f(s[|s| - 1]);
      Put(PutEach(s[..|s| - 1], f), e.0, e.1)
  }

  /** When `f` gives every element its own key, nothing is overwritten: the dict is `f` applied element-wise. */
  lemma {:induction false} PutEachDistinct<A, K, V>(s: seq<A>, f: A -> (K, V))
    requires forall i, j :: 0 <= i < j < |s| ==> f(s[i]).0 != f(s[j]).0
    ensures |PutEach(s, f)| == |s|
    ensures forall i :: 0 <= i < |s| ==> PutEach(s, f)[i] == f(s[i])
  {
    if s != [] {
      var n := |s| - 1;
      var prefix := s[..n];
      assert forall i :: 0 <= i < n ==> prefix[i] == s[i];
      PutEachDistinct(prefix, f);
      var prev := PutEach(prefix, f);
      var e := f(s[n]);
      FreshKey(s, f, prev);
      PutNew(prev, e.0, e.1);
      var r := PutEach(s, f);
      assert r == prev + [e];
      forall i | 0 <= i < |s| ensures r[i] == f(s[i]) {
        if i < n {
          assert r[i] == prev[i];
        }
      }
    }
  }

  /** The last element's key is not among those of the pairs built from the others. */
  lemma FreshKey<A, K, V>(s: seq<A>, f: A -> (K, V), prev: Dict<K, V>)
    requires s != []
    requires forall i, j :: 0 <= i < j < |s| ==> f(s[i]).0 != f(s[j]).0
    requires |prev| == |s| - 1
    requires forall i :: 0 <= i < |prev| ==> prev[i] == f(s[i])
    ensures f(s[|s| - 1]).0 !in Keys(prev)
  {
    forall m | 0 <= m < |prev| ensures prev[m].0 != f(s[|s| - 1]).0 {
      assert prev[m] == f(s[m]);
    }
  }

  /** No element of `s` occurs twice. */
  predicate Distinct<T(==)>(s: seq<T>)
  {
    forall i, j :: 0 <= i < j < |s| ==> s[i] != s[j]
  }

  /** A dict with unique keys holds no pair twice. */
  lemma UniqueKeysDistinct<K, V>(d: Dict<K, V>)
    requires UniqueKeys(d)
    ensures Distinct(d)
  {
  }

  /** A sequence without repetitions holds each of its elements exactly once. */
  lemma {:induction false} DistinctMultiplicity<T>(s: seq<T>, x: T)
    requires Distinct(s)
    ensures multiset(s)[x] == if x in s then 1 else 0
  {
    if s != [] {
      var n := |s| - 1;
      assert s == s[..n] + [s[n]];
      DistinctMultiplicity(s[..n], x);
      assert x in s <==> x in s[..n] || x == s[n];
    }
  }

  /** Two pairs of a dict with unique keys that share a key are the same pair. */
  lemma SameKeySamePair<K, V>(d: Dict<K, V>, x: (K, V), y: (K, V))
    requires UniqueKeys(d) && x in d && y in d && x.0 == y.0
    ensures x == y
  {
  }
}
