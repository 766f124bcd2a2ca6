/** Optional values and list searches: the model's stand-ins for
    TypeScript's `undefined`/`null` and for `Array.prototype.find`,
    `findIndex` and `filter`. */
module Optional {

  /** A value that may be absent (an optional property, a `null` selection). */
  datatype Option<+T> = None | Some(value: T) {

    /** The value, or `default` when absent (TypeScript's `x || default`
        for a field that is never falsy when present). */
    function GetOr(default: T): T {
      match this
      case Some(v) => v
      case None => default
    }
  }

  /** `findIndex`: the index of the first element satisfying `p`, or None
      where JavaScript returns -1. */
  function FirstIndex<T>(xs: seq<T>, p: T -> bool): (r: Option<nat>)
    ensures r.Some? ==> r.value < |xs| && p(xs[r.value])
    ensures r.Some? ==> forall j :: 0 <= j < r.value ==> !p(xs[j])
    ensures r.None? <==> forall j :: 0 <= j < |xs| ==> !p(xs[j])
    decreases |xs|
  {
    if |xs| == 0 then None
    else if p(xs[0]) then Some(0)
    else
      match FirstIndex(xs[1..], p)
      case None => None
      case Some(i) => Some(i + 1)
  }

  /** `find`: the first element satisfying `p`, if any. */
  function Find<T>(xs: seq<T>, p: T -> bool): (r: Option<T>)
    ensures r.Some? <==> exists j :: 0 <= j < |xs| && p(xs[j])
    ensures r.Some? ==> r.value in xs && p(r.value)
    ensures r.Some? ==> exists j :: 0 <= j < |xs| && xs[j] == r.value
                                   && forall k :: 0 <= k < j ==> !p(xs[k])
  {
    match FirstIndex(xs, p)
    case None => None
    case Some(i) => Some(xs[i])
  }

  /** The search stops at the first element satisfying `p`. */
  lemma FirstIndexIs<T>(xs: seq<T>, p: T -> bool, i: nat)
    requires i < |xs| && p(xs[i])
    requires forall j :: 0 <= j < i ==> !p(xs[j])
    ensures FirstIndex(xs, p) == Some(i)
    ensures Find(xs, p) == Some(xs[i])
  {
    var r := FirstIndex(xs, p);
    assert r.Some?;
  }

  /** `map` with a callback that rewrites the elements satisfying `p` by `f`
      and returns every other element as it is. */
  function MapWhere<T>(xs: seq<T>, p: T -> bool, f: T -> T): (r: seq<T>)
    ensures |r| == |xs|
    ensures forall k :: 0 <= k < |xs| ==> r[k] == (if p(xs[k]) then f(xs[k]) else xs[k])
  {
    seq(|xs|, k requires 0 <= k < |xs| => if p(xs[k]) then f(xs[k]) else xs[k])
  }

  /** `filter`: the elements satisfying `keep`, in their order. */
  function Filter<T>(xs: seq<T>, keep: T -> bool): (r: seq<T>)
    ensures |r| <= |xs|
    ensures forall k :: 0 <= k < |r| ==> r[k] in xs && keep(r[k])
    ensures forall k :: 0 <= k < |xs| && keep(xs[k]) ==> xs[k] in r
    decreases |xs|
  {
    if |xs| == 0 then []
    else if keep(xs[0]) then [xs[0]] + Filter(xs[1..], keep)
    else Filter(xs[1..], keep)
  }

  lemma {:induction false} FilterAppend<T>(a: seq<T>, b: seq<T>, keep: T -> bool)
    ensures Filter(a + b, keep) == Filter(a, keep) + Filter(b, keep)
    decreases |a|
  {
    if |a| == 0 {
      assert a + b == b;
    } else {
      assert (a + b)[1..] == a[1..] + b;
      FilterAppend(a[1..], b, keep);
    }
  }

  /** A filter that keeps everything changes nothing. */
  lemma {:induction false} FilterKeepsAll<T>(xs: seq<T>, keep: T -> bool)
    requires forall k :: 0 <= k < |xs| ==> keep(xs[k])
    ensures Filter(xs, keep) == xs
    decreases |xs|
  {
    if |xs| > 0 {
      FilterKeepsAll(xs[1..], keep);
      assert xs == [xs[0]] + xs[1..];
    }
  }

  /** A filter that keeps nothing gives the empty sequence. */
  lemma {:induction false} FilterDropsAll<T>(xs: seq<T>, keep: T -> bool)
    requires forall k :: 0 <= k < |xs| ==> !keep(xs[k])
    ensures Filter(xs, keep) == []
    decreases |xs|
  {
    if |xs| > 0 {
      FilterDropsAll(xs[1..], keep);
    }
  }

  /** Extending a prefix by a stretch that is all kept, or all dropped. */
  lemma FilterExtend<T>(xs: seq<T>, i: nat, j: nat, keep: T -> bool, kept: bool)
    requires i <= j <= |xs|
    requires forall k :: i <= k < j ==> keep(xs[k]) == kept
    ensures Filter(xs[..j], keep) == Filter(xs[..i], keep) + (if kept then xs[i..j] else [])
  {
    assert xs[..j] == xs[..i] + xs[i..j];
    FilterAppend(xs[..i], xs[i..j], keep);
    if kept {
      FilterKeepsAll(xs[i..j], keep);
    } else {
      FilterDropsAll(xs[i..j], keep);
    }
  }

  /** A filter that keeps exactly the two stretches `a..b` and `c..d`
      returns them, one after the other. */
  lemma FilterTwoRuns<T>(xs: seq<T>, keep: T -> bool, a: nat, b: nat, c: nat, d: nat)
    requires a <= b <= c <= d <= |xs|
    requires forall k :: 0 <= k < |xs| ==> (keep(xs[k]) <==> a <= k < b || c <= k < d)
    ensures Filter(xs, keep) == xs[a..b] + xs[c..d]
  {
    assert xs[..0] == [];
    FilterExtend(xs, 0, a, keep, false);
    assert Filter(xs[..a], keep) == [];
    FilterExtend(xs, a, b, keep, true);
    assert Filter(xs[..b], keep) == xs[a..b];
    FilterExtend(xs, b, c, keep, false);
    assert Filter(xs[..c], keep) == xs[a..b];
    FilterExtend(xs, c, d, keep, true);
    assert Filter(xs[..d], keep) == xs[a..b] + xs[c..d];
    FilterExtend(xs, d, |xs|, keep, false);
    assert Filter(xs[..|xs|], keep) == xs[a..b] + xs[c..d];
    assert xs[..|xs|] == xs;
  }

  /** A filter that keeps what it kept before changes nothing more. */
  lemma FilterTwice<T>(xs: seq<T>, keep: T -> bool)
    ensures Filter(Filter(xs, keep), keep) == Filter(xs, keep)
  {
    var r := Filter(xs, keep);
    forall k | 0 <= k < |r| ensures keep(r[k]) {
      assert r[k] in r;
    }
    FilterKeepsAll(r, keep);
  }

  /** No two elements of `xs` have the same key. */
  predicate KeysDistinct<T, K(==)>(xs: seq<T>, key: T -> K) {
    forall i, j :: 0 <= i < j < |xs| ==> key(xs[i]) != key(xs[j])
  }

  /** Keys that are pairwise distinct in a list stay so in any filter of it. */
  lemma {:induction false} FilterKeepsDistinct<T, K>(xs: seq<T>, keep: T -> bool, key: T -> K)
    requires KeysDistinct(xs, key)
    ensures KeysDistinct(Filter(xs, keep), key)
    decreases |xs|
  {
    if |xs| > 0 {
      var tail := xs[1..];
      assert KeysDistinct(tail, key) by {
        forall i, j | 0 <= i < j < |tail| ensures key(tail[i]) != key(tail[j]) {
          assert tail[i] == xs[i + 1] && tail[j] == xs[j + 1];
        }
      }
      FilterKeepsDistinct(tail, keep, key);
      var rest := Filter(tail, keep);
      if keep(xs[0]) {
        var r := [xs[0]] + rest;
        assert Filter(xs, keep) == r;
        forall i, j | 0 <= i < j < |r| ensures key(r[i]) != key(r[j]) {
          assert r[j] == rest[j - 1];
          if i == 0 {
            assert r[j] in tail;
            var m :| 0 <= m < |tail| && tail[m] == r[j];
            assert tail[m] == xs[m + 1];
          } else {
            assert r[i] == rest[i - 1];
          }
        }
      } else {
        assert Filter(xs, keep) == rest;
      }
    }
  }
}
