/**
 * Keeping the first usable item per key, the pattern of the `seen` set in
 * `load_recipients`. Item `i` is described by a flag `ok[i]` (does it pass the
 * filter) and its key `keys[i]`.
 */
module Dedup {

  /** Item `i` passes the filter and no earlier passing item has its key. */
  predicate IsFirst(ok: seq<bool>, keys: seq<string>, i: int)
    requires |ok| == |keys| && 0 <= i < |ok|
  {
    ok[i] && forall j :: 0 <= j < i && ok[j] ==> keys[j] != keys[i]
  }

  /** The kept items among the first `n`, by index, ascending. */
  function Kept(ok: seq<bool>, keys: seq<string>, n: int): (idx: seq<nat>)
    requires |ok| == |keys| && 0 <= n <= |ok|
    ensures |idx| <= n
    ensures forall a :: 0 <= a < |idx| ==> idx[a] < n
  {
    if n == 0 then []
    else
      var before := Kept(ok, keys, n - 1);
      if IsFirst(ok, keys, n - 1) then before + [n - 1] else before
  }

  /** The kept indices are ascending and are exactly the items among the
      first `n` that pass the filter with a key no earlier passing item had. */
  lemma {:induction false} KeptSpec(ok: seq<bool>, keys: seq<string>, n: int)
    requires |ok| == |keys| && 0 <= n <= |ok|
    ensures forall a :: 0 <= a < |Kept(ok, keys, n)| ==> IsFirst(ok, keys, Kept(ok, keys, n)[a])
    ensures forall a, b :: 0 <= a < b < |Kept(ok, keys, n)| ==> Kept(ok, keys, n)[a] < Kept(ok, keys, n)[b]
    ensures forall i :: 0 <= i < n && IsFirst(ok, keys, i) ==> i in Kept(ok, keys, n)
    decreases n
  {
    if n > 0 {
      KeptSpec(ok, keys, n - 1);
    }
  }

  /** `seen` holds exactly the keys of the passing items before `i`. */
  ghost predicate SeenBefore(ok: seq<bool>, keys: seq<string>, i: int, seen: set<string>)
    requires |ok| == |keys| && 0 <= i <= |ok|
  {
    forall k :: k in seen <==> exists j :: 0 <= j < i && ok[j] && keys[j] == k
  }

  /** With the keys seen so far, the loop recognises a kept item, and adding
      the key of a passing item keeps `seen` up to date. */
  lemma SeenStep(ok: seq<bool>, keys: seq<string>, i: int, seen: set<string>)
    requires |ok| == |keys| && 0 <= i < |ok| && SeenBefore(ok, keys, i, seen)
    ensures IsFirst(ok, keys, i) <==> ok[i] && keys[i] !in seen
    ensures IsFirst(ok, keys, i) ==> Kept(ok, keys, i + 1) == Kept(ok, keys, i) + [i]
    ensures !IsFirst(ok, keys, i) ==> Kept(ok, keys, i + 1) == Kept(ok, keys, i)
    ensures SeenBefore(ok, keys, i + 1, if ok[i] then seen + {keys[i]} else seen)
  {
    if ok[i] && keys[i] in seen {
      var j :| 0 <= j < i && ok[j] && keys[j] == keys[i];
    }
    var next := if ok[i] then seen + {keys[i]} else seen;
    forall k
      ensures k in next <==> exists j :: 0 <= j < i + 1 && ok[j] && keys[j] == k
    {
      if exists j :: 0 <= j < i + 1 && ok[j] && keys[j] == k {
        var j :| 0 <= j < i + 1 && ok[j] && keys[j] == k;
        if j < i {
          assert k in seen;
        }
      }
    }
  }

  /** No two kept items share a key. */
  lemma KeptDistinct(ok: seq<bool>, keys: seq<string>, n: int, a: int, b: int)
    requires |ok| == |keys| && 0 <= n <= |ok|
    requires 0 <= a < b < |Kept(ok, keys, n)|
    ensures keys[Kept(ok, keys, n)[a]] != keys[Kept(ok, keys, n)[b]]
  {
    var idx := Kept(ok, keys, n);
    KeptSpec(ok, keys, n);
    assert idx[a] < idx[b] && IsFirst(ok, keys, idx[b]);
  }

  /** Every passing item's key is the key of some kept item, the earliest
      passing item with that key. */
  lemma {:induction false} KeptCovers(ok: seq<bool>, keys: seq<string>, n: int, i: int)
    requires |ok| == |keys| && 0 <= i < n <= |ok| && ok[i]
    ensures exists a :: 0 <= a < |Kept(ok, keys, n)| && keys[Kept(ok, keys, n)[a]] == keys[i]
    decreases i
  {
    var idx := Kept(ok, keys, n);
    KeptSpec(ok, keys, n);
    if IsFirst(ok, keys, i) {
      assert i in idx;
      var a :| 0 <= a < |idx| && idx[a] == i;
    } else {
      var j :| 0 <= j < i && ok[j] && keys[j] == keys[i];
      KeptCovers(ok, keys, n, j);
    }
  }

  /** The items at positions `idx`, each passed through `build`. */
  function Gather<T, U>(items: seq<T>, idx: seq<nat>, build: T -> U): (r: seq<U>)
    requires forall a :: 0 <= a < |idx| ==> idx[a] < |items|
    ensures |r| == |idx|
    ensures forall a :: 0 <= a < |idx| ==> r[a] == build(items[idx[a]])
  {
    seq(|idx|, a requires 0 <= a < |idx| => build(items[idx[a]]))
  }

  /** Gathering one more position appends its item. */
  lemma GatherSnoc<T, U>(items: seq<T>, idx: seq<nat>, build: T -> U, i: nat)
    requires forall a :: 0 <= a < |idx| ==> idx[a] < |items|
    requires i < |items|
    ensures Gather(items, idx + [i], build) == Gather(items, idx, build) + [build(items[i])]
  {
  }

  /** The `seen`-set loop: walk the items, skip those that fail the filter
      or whose key was seen, otherwise mark the key seen and keep the built
      item. `ok` and `keys` are the filter and key of every item. */
  method KeepFirst<T, U>(items: seq<T>, usable: T -> bool, key: T -> string, build: T -> U,
                         ghost ok: seq<bool>, ghost keys: seq<string>) returns (out: seq<U>)
    requires |ok| == |items| && |keys| == |items|
    requires forall i :: 0 <= i < |items| ==> ok[i] == usable(items[i]) && keys[i] == key(items[i])
    ensures out == Gather(items, Kept(ok, keys, |items|), build)
  {
    out := [];
    var seen: set<string> := {};
    var i := 0;
    while i < |items|
      invariant 0 <= i <= |items|
      invariant out == Gather(items, Kept(ok, keys, i), build)
      invariant SeenBefore(ok, keys, i, seen)
    {
      var item := items[i];
      SeenStep(ok, keys, i, seen);
      if usable(item) {
        var k := key(item);
        if k !in seen {
          GatherSnoc(items, Kept(ok, keys, i), build, i);
          seen := seen + {k};
          out := out + [build(item)];
        } else {
          assert seen + {k} == seen;
        }
      }
      i := i + 1;
    }
  }
}
