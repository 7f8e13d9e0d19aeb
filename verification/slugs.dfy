/**
 * `slugify`: header text to a context key. The text is lower-cased, every
 * maximal run of characters outside `[a-z0-9]` becomes one underscore, and
 * underscores are stripped from both ends.
 */
module Slugs {
  import opened Text

  predicate IsSlugChar(c: char) {
    IsLower(c) || IsDigit(c)
  }

  /** A well-formed slug: `[a-z0-9_]` only, no `_` at either end, no `__`. */
  predicate IsSlug(s: string) {
    && (forall i :: 0 <= i < |s| ==> IsSlugChar(s[i]) || s[i] == '_')
    && (s == [] || (s[0] != '_' && s[|s| - 1] != '_'))
    && NoDoubleUnderscore(s)
  }

  predicate NoDoubleUnderscore(s: string) {
    forall i :: 0 <= i < |s| - 1 ==> !DoubleUnderscore(s, i)
  }

  /** The characters of `s` that survive into a slug, in order. */
  function SlugChars(s: string): string {
    if s == [] then []
    else (if IsSlugChar(s[0]) then [s[0]] else []) + SlugChars(s[1..])
  }

  /** The rest of `s` after its leading run of non-slug characters. */
  function DropRun(s: string): (r: string)
    ensures |r| <= |s|
    ensures r == [] || IsSlugChar(r[0])
  {
    if s != [] && !IsSlugChar(s[0]) then DropRun(s[1..]) else s
  }

  /** What is dropped is a prefix of non-slug characters only, so no letter
      or digit is lost. */
  lemma {:induction false} DropRunSpec(s: string)
    ensures DropRun(s) == s[|s| - |DropRun(s)|..]
    ensures forall k :: 0 <= k < |s| - |DropRun(s)| ==> !IsSlugChar(s[k])
    ensures SlugChars(DropRun(s)) == SlugChars(s)
    decreases |s|
  {
    if s != [] && !IsSlugChar(s[0]) {
      var r := DropRun(s[1..]);
      DropRunSpec(s[1..]);
      assert s[1..][|s| - 1 - |r|..] == s[|s| - |r|..];
      assert forall k :: 1 <= k < |s| - |r| ==> s[k] == s[1..][k - 1];
    }
  }

  /** `re.sub(r"[^a-z0-9]+", "_", s)`. */
  function CollapseRuns(s: string): (r: string)
    ensures forall i :: 0 <= i < |r| ==> IsSlugChar(r[i]) || r[i] == '_'
    ensures NoDoubleUnderscore(r)
    ensures s != [] ==> r != [] && (r[0] == '_' <==> !IsSlugChar(s[0]))
    ensures s != [] && IsSlugChar(s[0]) ==> r[0] == s[0]
    decreases |s|
  {
    if s == [] then []
    else if IsSlugChar(s[0]) then
      var rest := CollapseRuns(s[1..]);
      NoDoubleCons(s[0], rest);
      [s[0]] + rest
    else
      var tail := DropRun(s[1..]);
      var rest := CollapseRuns(tail);
      assert rest != [] ==> rest[0] != '_';
      NoDoubleCons('_', rest);
      "_" + rest
  }

  /** Putting a character in front creates no `__` unless it is an
      underscore before an underscore. */
  lemma NoDoubleCons(c: char, s: string)
    requires NoDoubleUnderscore(s)
    requires c != '_' || s == [] || s[0] != '_'
    ensures NoDoubleUnderscore([c] + s)
  {
    var r := [c] + s;
    forall i | 0 <= i < |r| - 1
      ensures !DoubleUnderscore(r, i)
    {
      if i > 0 {
        assert !DoubleUnderscore(s, i - 1);
      }
    }
  }

  lemma NoDoubleTail(s: string)
    requires s != [] && NoDoubleUnderscore(s)
    ensures NoDoubleUnderscore(s[1..])
    ensures |s| > 1 && s[0] == '_' ==> s[1] != '_'
  {
    if |s| > 1 {
      assert !DoubleUnderscore(s, 0);
    }
    forall i | 0 <= i < |s| - 2
      ensures !DoubleUnderscore(s[1..], i)
    {
      assert !DoubleUnderscore(s, i + 1);
    }
  }

  /** Collapsing runs keeps every letter and digit, in order. */
  lemma {:induction false} CollapseKeepsSlugChars(s: string)
    ensures SlugChars(CollapseRuns(s)) == SlugChars(s)
    decreases |s|
  {
    if s != [] {
      if IsSlugChar(s[0]) {
        CollapseKeepsSlugChars(s[1..]);
        SlugCharsAppend([s[0]], CollapseRuns(s[1..]));
      } else {
        DropRunSpec(s[1..]);
        CollapseKeepsSlugChars(DropRun(s[1..]));
        SlugCharsAppend("_", CollapseRuns(DropRun(s[1..])));
      }
    }
  }

  predicate IsUnderscore(c: char) {
    c == '_'
  }

  /** `s.strip("_")`. */
  function TrimUnderscores(s: string): (r: string)
    ensures r == [] || (r[0] != '_' && r[|r| - 1] != '_')
  {
    Trim(s, IsUnderscore)
  }

  /** `slugify(text)`. */
  function Slugify(text: string): (r: string)
    ensures IsSlug(r)
    ensures SlugChars(r) == SlugChars(Lower(text))
  {
    var collapsed := CollapseRuns(Lower(text));
    TrimKeepsSlug(collapsed);
    TrimKeepsChars(collapsed);
    CollapseKeepsSlugChars(Lower(text));
    TrimUnderscores(collapsed)
  }

  lemma TrimKeepsSlug(s: string)
    requires forall i :: 0 <= i < |s| ==> IsSlugChar(s[i]) || s[i] == '_'
    requires NoDoubleUnderscore(s)
    ensures IsSlug(TrimUnderscores(s))
  {
    TrimTrims(s, IsUnderscore);
    InfixKeepsSlugShape(s, SkipFront(s, 0, IsUnderscore), TrimUnderscores(s));
  }

  lemma InfixKeepsSlugShape(s: string, lo: int, r: string)
    requires 0 <= lo <= lo + |r| <= |s| && r == s[lo..lo + |r|]
    requires forall i :: 0 <= i < |s| ==> IsSlugChar(s[i]) || s[i] == '_'
    requires NoDoubleUnderscore(s)
    ensures forall i :: 0 <= i < |r| ==> IsSlugChar(r[i]) || r[i] == '_'
    ensures NoDoubleUnderscore(r)
  {
    forall i | 0 <= i < |r| - 1
      ensures !DoubleUnderscore(r, i)
    {
      assert r[i] == s[lo + i] && r[i + 1] == s[lo + i + 1];
      assert !DoubleUnderscore(s, lo + i);
    }
  }

  /** Trimming underscores loses no letter or digit. */
  lemma TrimKeepsChars(s: string)
    ensures SlugChars(TrimUnderscores(s)) == SlugChars(s)
  {
    var lo := SkipFront(s, 0, IsUnderscore);
    var hi := SkipBack(s, lo, |s|, IsUnderscore);
    assert s == s[..lo] + s[lo..hi] + s[hi..];
    SlugCharsUnderscores(s[..lo]);
    SlugCharsUnderscores(s[hi..]);
    SlugCharsAppend(s[..lo], s[lo..hi]);
    SlugCharsAppend(s[..lo] + s[lo..hi], s[hi..]);
  }

  lemma {:induction false} SlugCharsAppend(a: string, b: string)
    ensures SlugChars(a + b) == SlugChars(a) + SlugChars(b)
    decreases |a|
  {
    if a != [] {
      assert (a + b)[1..] == a[1..] + b;
      SlugCharsAppend(a[1..], b);
    } else {
      assert a + b == b;
    }
  }

  lemma {:induction false} SlugCharsUnderscores(u: string)
    requires forall k :: 0 <= k < |u| ==> u[k] == '_'
    ensures SlugChars(u) == []
    decreases |u|
  {
    if u != [] {
      SlugCharsUnderscores(u[1..]);
    }
  }

  lemma {:induction false} CollapseKeepsSlug(s: string)
    requires forall i :: 0 <= i < |s| ==> IsSlugChar(s[i]) || s[i] == '_'
    requires NoDoubleUnderscore(s)
    ensures CollapseRuns(s) == s
    decreases |s|
  {
    if s != [] {
      NoDoubleTail(s);
      CollapseKeepsSlug(s[1..]);
      if !IsSlugChar(s[0]) {
        CollapseUnderscoreHead(s);
      }
    }
  }

  /** A single underscore in front of text that collapsing leaves alone,
      and that does not start with an underscore, stays as it is. */
  lemma CollapseUnderscoreHead(s: string)
    requires s != [] && s[0] == '_'
    requires s[1..] == [] || s[1] != '_'
    requires CollapseRuns(s[1..]) == s[1..]
    ensures CollapseRuns(s) == s
  {
    assert DropRun(s[1..]) == s[1..];
  }

  /** A slug is its own slug, so `slugify` is idempotent. */
  lemma SlugifyFixesSlugs(s: string)
    requires IsSlug(s)
    ensures Slugify(s) == s
  {
    assert Lower(s) == s;
    CollapseKeepsSlug(s);
  }

  lemma SlugifyIdempotent(text: string)
    ensures Slugify(Slugify(text)) == Slugify(text)
  {
    SlugifyFixesSlugs(Slugify(text));
  }


  /** Dropping the leading run of a concatenation: when the run ends
      inside `x`, `b` is kept whole; when all of `x` is run, the dropping
      goes on into `b`. */
  lemma {:induction false} DropRunAppend(x: string, b: string)
    ensures DropRun(x) != [] ==> DropRun(x + b) == DropRun(x) + b
    ensures DropRun(x) == [] ==> DropRun(x + b) == DropRun(b)
    decreases |x|
  {
    if x == [] {
      assert x + b == b;
    } else if !IsSlugChar(x[0]) {
      assert (x + b)[1..] == x[1..] + b;
      DropRunAppend(x[1..], b);
    }
  }

  /** The substitution works piece by piece: text cut between two places
      where a letter or digit stands on at least one side collapses to the
      two collapsed pieces. */
  lemma {:induction false} CollapseAppend(a: string, b: string)
    requires a == [] || b == [] || IsSlugChar(a[|a| - 1]) || IsSlugChar(b[0])
    ensures CollapseRuns(a + b) == CollapseRuns(a) + CollapseRuns(b)
    decreases |a|, 1
  {
    if a == [] {
      assert a + b == b;
    } else if IsSlugChar(a[0]) {
      CollapseAppendSlug(a, b);
    } else {
      CollapseAppendRun(a, b);
    }
  }

  /** `CollapseAppend` when `a` starts with a letter or digit. */
  lemma {:induction false} CollapseAppendSlug(a: string, b: string)
    requires a != [] && IsSlugChar(a[0])
    requires b == [] || IsSlugChar(a[|a| - 1]) || IsSlugChar(b[0])
    ensures CollapseRuns(a + b) == CollapseRuns(a) + CollapseRuns(b)
    decreases |a|, 0
  {
    CollapseHeadSlug(a, b);
    CollapseAppend(a[1..], b);
    assert [a[0]] + (CollapseRuns(a[1..]) + CollapseRuns(b)) == ([a[0]] + CollapseRuns(a[1..])) + CollapseRuns(b);
  }

  /** `CollapseAppend` when `a` starts with a run of other characters. */
  lemma {:induction false} CollapseAppendRun(a: string, b: string)
    requires a != [] && !IsSlugChar(a[0])
    requires b == [] || IsSlugChar(a[|a| - 1]) || IsSlugChar(b[0])
    ensures CollapseRuns(a + b) == CollapseRuns(a) + CollapseRuns(b)
    decreases |a|, 0
  {
    var d := DropRun(a[1..]);
    CollapseHeadRun(a, b);
    DropRunEnds(a[1..]);
    DropRunAppend(a[1..], b);
    if d != [] {
      CollapseAppend(d, b);
      assert "_" + (CollapseRuns(d) + CollapseRuns(b)) == ("_" + CollapseRuns(d)) + CollapseRuns(b);
    } else {
      DropRunOfSlugStart(b);
    }
  }

  lemma CollapseHeadSlug(a: string, b: string)
    requires a != [] && IsSlugChar(a[0])
    ensures CollapseRuns(a) == [a[0]] + CollapseRuns(a[1..])
    ensures CollapseRuns(a + b) == [a[0]] + CollapseRuns(a[1..] + b)
  {
    assert (a + b)[0] == a[0] && (a + b)[1..] == a[1..] + b;
  }

  lemma CollapseHeadRun(a: string, b: string)
    requires a != [] && !IsSlugChar(a[0])
    ensures CollapseRuns(a) == "_" + CollapseRuns(DropRun(a[1..]))
    ensures CollapseRuns(a + b) == "_" + CollapseRuns(DropRun(a[1..] + b))
  {
    assert (a + b)[0] == a[0] && (a + b)[1..] == a[1..] + b;
  }

  /** Text that starts with a letter or digit has no run to drop. */
  lemma DropRunOfSlugStart(b: string)
    requires b == [] || IsSlugChar(b[0])
    ensures DropRun(b) == b
  {
  }

  /** What is left after a run ends as the text did; when nothing is left,
      the text had no letter or digit at its end. */
  lemma DropRunEnds(x: string)
    ensures DropRun(x) != [] ==> DropRun(x)[|DropRun(x)| - 1] == x[|x| - 1]
    ensures DropRun(x) == [] && x != [] ==> !IsSlugChar(x[|x| - 1])
  {
    DropRunSpec(x);
  }

  /** A run of characters outside `[a-z0-9]` becomes a single underscore. */
  lemma CollapseRunOnly(run: string)
    requires run != []
    requires forall k :: 0 <= k < |run| ==> !IsSlugChar(run[k])
    ensures CollapseRuns(run) == "_"
  {
    DropRunSpec(run[1..]);
  }

  lemma LowerAppend(a: string, b: string)
    ensures Lower(a + b) == Lower(a) + Lower(b)
  {
    assert forall k :: 0 <= k < |a + b| ==> Lower(a + b)[k] == (Lower(a) + Lower(b))[k];
  }

  /** Two words joined by a run of other characters slugify to the two
      lower-cased words joined by one underscore, in place:
      `slugify("Kab/Kota")` is `"kab_kota"`. */
  lemma SlugifyJoin(u: string, run: string, v: string)
    requires u != [] && v != [] && IsSlug(Lower(u)) && IsSlug(Lower(v))
    requires run != [] && forall k :: 0 <= k < |run| ==> !IsSlugChar(LowerChar(run[k]))
    ensures Slugify(u + run + v) == Lower(u) + "_" + Lower(v)
  {
    LowerAppend(u, run);
    LowerAppend(u + run, v);
    CollapseJoin(Lower(u), Lower(run), Lower(v));
    var c := Lower(u) + "_" + Lower(v);
    assert TrimmedAt(c, c, 0, IsUnderscore);
    TrimOfTrimmed(c, c, 0, IsUnderscore);
  }

  /** `CollapseRuns` of slug, run, slug: the run becomes one underscore. */
  lemma CollapseJoin(u: string, run: string, v: string)
    requires u != [] && v != [] && IsSlug(u) && IsSlug(v)
    requires run != [] && forall k :: 0 <= k < |run| ==> !IsSlugChar(run[k])
    ensures CollapseRuns(u + run + v) == u + "_" + v
  {
    assert IsSlugChar(u[|u| - 1]) && IsSlugChar(v[0]);
    assert u + run + v == u + (run + v);
    CollapseAppend(run, v);
    CollapseAppend(u, run + v);
    CollapseRunOnly(run);
    CollapseKeepsSlug(u);
    CollapseKeepsSlug(v);
  }

}
