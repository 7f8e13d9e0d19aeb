/**
 * Python's insertion-ordered `dict`, as the rows and recipient contexts of
 * the outreach script use it: a list of entries whose keys are pairwise
 * distinct. Keys and values are text. Assigning an existing key updates
 * its entry in place; a new key goes to the end.
 */
module Dicts {
  import opened Wrappers

  type Dict = seq<(string, string)>

  function Keys(d: Dict): (ks: seq<string>)
    ensures |ks| == |d|
    ensures forall i :: 0 <= i < |d| ==> ks[i] == d[i].0
  {
    seq(|d|, i requires 0 <= i < |d| => d[i].0)
  }

  predicate DistinctKeys(d: Dict) {
    forall i, j :: 0 <= i < j < |d| ==> d[i].0 != d[j].0
  }

  /** `d.get(k)`: the value of the first entry with key `k`. */
  function Get(d: Dict, k: string): (r: Option<string>)
    ensures r.Some? <==> k in Keys(d)
    ensures r.Some? ==> exists i :: 0 <= i < |d| && d[i] == (k, r.value)
  {
    if d == [] then None
    else if d[0].0 == k then Some(d[0].1)
    else
      var r := Get(d[1..], k);
      assert Keys(d) == [d[0].0] + Keys(d[1..]);
      r
  }

  lemma GetAt(d: Dict, i: int)
    requires DistinctKeys(d) && 0 <= i < |d|
    ensures Get(d, d[i].0) == Some(d[i].1)
  {
    if i > 0 {
      GetAt(d[1..], i - 1);
    }
  }

  /** `d[k] = v`. */
  function Put(d: Dict, k: string, v: string): (r: Dict)
    ensures Keys(r) == if k in Keys(d) then Keys(d) else Keys(d) + [k]
  {
    if d == [] then [(k, v)]
    else if d[0].0 == k then
      var r := [(k, v)] + d[1..];
      KeysCons(d);
      KeysCons(r);
      r
    else
      var rest := Put(d[1..], k, v);
      var r := [d[0]] + rest;
      KeysCons(d);
      KeysCons(r);
      r
  }

  /** The keys of a non-empty dict: its first key, then the others. */
  lemma KeysCons(d: Dict)
    requires d != []
    ensures Keys(d) == [d[0].0] + Keys(d[1..])
  {
  }

  /** After `d[k] = v`, `d.get(k)` is `v`. */
  lemma {:induction false} PutSelf(d: Dict, k: string, v: string)
    ensures Get(Put(d, k, v), k) == Some(v)
    decreases |d|
  {
    if d != [] && d[0].0 != k {
      PutSelf(d[1..], k, v);
      assert Put(d, k, v)[1..] == Put(d[1..], k, v);
    }
  }

  /** Assigning one key leaves every other key's value alone. */
  lemma {:induction false} PutOthers(d: Dict, k: string, v: string, other: string)
    requires other != k
    ensures Get(Put(d, k, v), other) == Get(d, other)
    decreases |d|
  {
    if d != [] && d[0].0 != k {
      PutOthers(d[1..], k, v, other);
      assert Put(d, k, v)[1..] == Put(d[1..], k, v);
    }
  }

  lemma PutKeepsDistinct(d: Dict, k: string, v: string)
    requires DistinctKeys(d)
    ensures DistinctKeys(Put(d, k, v))
  {
    var r := Put(d, k, v);
    assert forall i, j :: 0 <= i < j < |r| ==> Keys(r)[i] != Keys(r)[j] by {
      if k !in Keys(d) {
        assert forall i :: 0 <= i < |d| ==> Keys(r)[i] == Keys(d)[i];
      }
    }
  }

  /** The keys of `ks` in order of first appearance, each once. */
  function Unique(ks: seq<string>): (u: seq<string>)
    ensures forall k :: k in u <==> k in ks
  {
    if ks == [] then []
    else
      var u := Unique(ks[..|ks| - 1]);
      assert ks == ks[..|ks| - 1] + [ks[|ks| - 1]];
      if ks[|ks| - 1] in u then u else u + [ks[|ks| - 1]]
  }

  lemma UniqueSnoc(ks: seq<string>, k: string)
    ensures Unique(ks + [k]) == if k in Unique(ks) then Unique(ks) else Unique(ks) + [k]
  {
    assert (ks + [k])[..|ks|] == ks;
  }

  /** Assigning to a dict keyed by the unique keys of `ks` keys it by the
      unique keys of `ks + [k]`. */
  lemma PutUnique(d: Dict, ks: seq<string>, k: string, v: string)
    requires DistinctKeys(d) && Keys(d) == Unique(ks)
    ensures DistinctKeys(Put(d, k, v)) && Keys(Put(d, k, v)) == Unique(ks + [k])
  {
    UniqueSnoc(ks, k);
    PutKeepsDistinct(d, k, v);
  }

  /** `{k: v for (k, v) in pairs}`: later pairs overwrite earlier values, a
      key keeps the position of its first pair. */
  function FromPairs(pairs: Dict): (d: Dict)
    ensures DistinctKeys(d)
    ensures Keys(d) == Unique(Keys(pairs))
  {
    if pairs == [] then []
    else
      var prefix := pairs[..|pairs| - 1];
      var last := pairs[|pairs| - 1];
      var d := FromPairs(prefix);
      assert Keys(pairs) == Keys(prefix) + [last.0];
      PutUnique(d, Keys(prefix), last.0, last.1);
      Put(d, last.0, last.1)
  }

  /** The value a key ends up with is that of its last pair. */
  lemma {:induction false} FromPairsLastWins(pairs: Dict, i: int)
    requires 0 <= i < |pairs|
    requires forall j :: i < j < |pairs| ==> pairs[j].0 != pairs[i].0
    ensures Get(FromPairs(pairs), pairs[i].0) == Some(pairs[i].1)
    decreases |pairs|
  {
    var prefix := pairs[..|pairs| - 1];
    var last := pairs[|pairs| - 1];
    if i < |pairs| - 1 {
      FromPairsLastWins(prefix, i);
      PutOthers(FromPairs(prefix), last.0, last.1, pairs[i].0);
    } else {
      PutSelf(FromPairs(prefix), last.0, last.1);
    }
  }

  /** A key is present exactly when some pair carries it. */
  lemma FromPairsKeys(pairs: Dict, k: string)
    ensures k in Keys(FromPairs(pairs)) <==> exists i :: 0 <= i < |pairs| && pairs[i].0 == k
  {
    assert k in Keys(pairs) <==> exists i :: 0 <= i < |pairs| && pairs[i].0 == k;
  }

  /** Assigning a new key appends an entry. */
  lemma {:induction false} PutNew(d: Dict, k: string, v: string)
    requires k !in Keys(d)
    ensures Put(d, k, v) == d + [(k, v)]
    decreases |d|
  {
    if d != [] {
      KeysCons(d);
      PutNew(d[1..], k, v);
      assert d + [(k, v)] == [d[0]] + (d[1..] + [(k, v)]);
    }
  }

  /** Lookups find the earlier part of a dict first. */
  lemma {:induction false} GetAppend(d: Dict, e: Dict, k: string)
    ensures Get(d + e, k) == if k in Keys(d) then Get(d, k) else Get(e, k)
    decreases |d|
  {
    if d != [] {
      assert (d + e)[1..] == d[1..] + e;
      assert Keys(d) == [d[0].0] + Keys(d[1..]);
      GetAppend(d[1..], e, k);
    } else {
      assert d + e == e;
    }
  }

  /** The dict with keys `ks` and values `vs`, entry by entry. */
  function Zip(ks: seq<string>, vs: seq<string>): (d: Dict)
    requires |ks| == |vs|
    ensures Keys(d) == ks
    ensures |d| == |ks| && forall i :: 0 <= i < |d| ==> d[i] == (ks[i], vs[i])
  {
    seq(|ks|, i requires 0 <= i < |ks| => (ks[i], vs[i]))
  }
}
