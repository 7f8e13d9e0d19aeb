/**
 * `--skip` and `--limit`: which of the loaded recipients a run goes on to,
 * with Python's slice rules for out-of-range and negative bounds.
 */
module Selection {
  import opened Wrappers

  /** Where a slice bound `k` lands in a sequence of length `len`: negative
      bounds count from the end, and both kinds are clamped to the ends. */
  function SliceBound(k: int, len: nat): (b: nat)
    ensures b <= len
    ensures 0 <= k <= len ==> b == k
    ensures k > len ==> b == len
    ensures k < 0 ==> b == if len + k < 0 then 0 else len + k
  {
    if k < 0 then (if len + k < 0 then 0 else len + k)
    else if k > len then len
    else k
  }

  /** `s[k:]` */
  function Drop<T>(s: seq<T>, k: int): seq<T> {
    s[SliceBound(k, |s|)..]
  }

  /** `s[:n]` */
  function Take<T>(s: seq<T>, n: int): seq<T> {
    s[..SliceBound(n, |s|)]
  }

  /** The recipients the run works on: a non-zero `--skip` first cuts that
      many off the front (counting from the end when negative), then a given
      `--limit` keeps that many of the rest (all but that many from the end
      when negative). */
  function Select<T>(s: seq<T>, skip: int, limit: Option<int>): seq<T> {
    var t := if skip != 0 then Drop(s, skip) else s;
    if limit.Some? then Take(t, limit.value) else t
  }

  /** The guard on `--skip` changes nothing: skipping zero keeps all. */
  lemma SkipZero<T>(s: seq<T>)
    ensures Drop(s, 0) == s
  {
  }

  /** The selection is always one contiguous run of the recipients, in
      their order. */
  lemma SelectIsSlice<T>(s: seq<T>, skip: int, limit: Option<int>)
    ensures exists lo, hi :: 0 <= lo <= hi <= |s| && Select(s, skip, limit) == s[lo..hi]
  {
    var lo := if skip != 0 then SliceBound(skip, |s|) else 0;
    var t := s[lo..];
    var hi := if limit.Some? then lo + SliceBound(limit.value, |t|) else |s|;
    assert Select(s, skip, limit) == s[lo..hi];
  }

  /** With a non-negative skip and limit, the run starts at recipient
      `skip` and holds at most `limit` of them. */
  lemma SelectNonNegative<T>(s: seq<T>, skip: nat, limit: nat)
    ensures var lo := if skip < |s| then skip else |s|;
      var hi := if lo + limit < |s| then lo + limit else |s|;
      Select(s, skip, Some(limit)) == s[lo..hi]
    ensures |Select(s, skip, Some(limit))| <= limit
  {
  }

  /** A negative skip keeps only the last `-skip` recipients. */
  lemma SelectNegativeSkip<T>(s: seq<T>, skip: int)
    requires skip < 0
    ensures Select(s, skip, None) == if |s| + skip < 0 then s else s[|s| + skip..]
  {
  }

  /** A negative limit drops the last `-limit` of what the skip left. */
  lemma SelectNegativeLimit<T>(s: seq<T>, limit: int)
    requires limit < 0
    ensures Select(s, 0, Some(limit)) == if |s| + limit < 0 then [] else s[..|s| + limit]
  {
  }

  /** Consecutive batches tile the list: the first `n` after `k`, then all
      after `k + n`, is everything after `k`. */
  lemma SelectTiles<T>(s: seq<T>, k: nat, n: nat)
    ensures Select(s, k, Some(n)) + Select(s, k + n, None) == Select(s, k, None)
  {
  }
}
