/** Searches, filters and joins over sequences: the model of JavaScript's
    `Array.prototype.find`/`findIndex`, `filter` and `join`. */
module Seqs {
  import opened Wrappers

  /** The index of the first element satisfying `p` (`findIndex`), if any. */
  function FirstIndex<T>(s: seq<T>, p: T -> bool): (r: Option<nat>)
    ensures r.Some? ==> r.value < |s| && p(s[r.value])
    ensures r.Some? ==> forall j :: 0 <= j < r.value ==> !p(s[j])
    ensures r.None? <==> forall j :: 0 <= j < |s| ==> !p(s[j])
  {
    if |s| == 0 then None
    else if p(s[0]) then Some(0)
    else
      match FirstIndex(s[1..], p)
      case None => None
      case Some(k) => Some(k + 1)
  }

  /** The index of the last element satisfying `p`, if any. */
  function LastIndex<T>(s: seq<T>, p: T -> bool): (r: Option<nat>)
    ensures r.Some? ==> r.value < |s| && p(s[r.value])
    ensures r.Some? ==> forall j :: r.value < j < |s| ==> !p(s[j])
    ensures r.None? <==> forall j :: 0 <= j < |s| ==> !p(s[j])
  {
    if |s| == 0 then None
    else if p(s[|s| - 1]) then Some(|s| - 1)
    else LastIndex(s[..|s| - 1], p)
  }

  /** The first index is the one before which nothing satisfies `p`. */
  lemma FirstIndexIs<T>(s: seq<T>, p: T -> bool, i: nat)
    requires i < |s| && p(s[i])
    requires forall j :: 0 <= j < i ==> !p(s[j])
    ensures FirstIndex(s, p) == Some(i)
  {
    var r := FirstIndex(s, p);
    assert r.Some?;
    assert !(r.value < i) && !(i < r.value);
  }

  /** Extending a prefix by one element: the last index is that element's,
      or the prefix's. */
  lemma LastIndexSnoc<T>(s: seq<T>, p: T -> bool, i: nat)
    requires i < |s|
    ensures LastIndex(s[..i + 1], p) == if p(s[i]) then Some(i) else LastIndex(s[..i], p)
  {
    assert s[..i + 1][..i] == s[..i];
  }

  /** The least index in `[from, n)` satisfying `p`: where a leftmost regex
      match starts, for a pattern that `p` tests at one position. */
  function LeftmostFrom(n: nat, p: nat -> bool, from: nat): (r: Option<nat>)
    ensures r.Some? ==> from <= r.value < n && p(r.value)
    ensures r.Some? ==> forall k :: from <= k < r.value ==> !p(k)
    ensures r.None? <==> forall k :: from <= k < n ==> !p(k)
    decreases n - from
  {
    if from >= n then None
    else if p(from) then Some(from)
    else LeftmostFrom(n, p, from + 1)
  }

  /** The leftmost index is the one before which nothing satisfies `p`. */
  lemma LeftmostIs(n: nat, p: nat -> bool, from: nat, i: nat)
    requires from <= i < n && p(i)
    requires forall k :: from <= k < i ==> !p(k)
    ensures LeftmostFrom(n, p, from) == Some(i)
  {
    var r := LeftmostFrom(n, p, from);
    assert r.Some?;
    assert !(r.value < i) && !(i < r.value);
  }

  /** An index found in a suffix that starts at `m`, as an index of the
      whole sequence. */
  function Moved(o: Option<nat>, m: nat): Option<nat> {
    match o
    case None => None
    case Some(k) => Some(m + k)
  }

  /** The greatest index in `[lo, hi]` satisfying `p`: where a greedy
      repetition, backtracking one step at a time, lets the rest match. */
  function RightmostIn(lo: nat, hi: nat, p: nat -> bool): (r: Option<nat>)
    ensures r.Some? ==> lo <= r.value <= hi && p(r.value)
    ensures r.Some? ==> forall k :: r.value < k <= hi ==> !p(k)
    ensures r.None? <==> forall k :: lo <= k <= hi ==> !p(k)
    decreases hi
  {
    if p(hi) && lo <= hi then Some(hi)
    else if hi <= lo then None
    else RightmostIn(lo, hi - 1, p)
  }

  /** `RightmostIn` finds `c` when `p(c)` holds and nothing after it up to `hi` does. */
  lemma RightmostIs(lo: nat, hi: nat, p: nat -> bool, c: nat)
    requires lo <= c <= hi && p(c)
    requires forall k :: c < k <= hi ==> !p(k)
    ensures RightmostIn(lo, hi, p) == Some(c)
  {
    var r := RightmostIn(lo, hi, p);
    assert r.Some?;
    assert !(r.value < c) && !(c < r.value);
  }

  /** The elements of `s` that satisfy `p`, in their original order (`filter`). */
  function Filter<T>(s: seq<T>, p: T -> bool): (r: seq<T>)
    ensures |r| <= |s|
    ensures forall i :: 0 <= i < |r| ==> r[i] in s && p(r[i])
    ensures forall i :: 0 <= i < |s| && p(s[i]) ==> s[i] in r
  {
    if |s| == 0 then []
    else (if p(s[0]) then [s[0]] else []) + Filter(s[1..], p)
  }

  /** Filtering distributes over concatenation: survivors keep their relative order. */
  lemma {:induction false} FilterConcat<T>(a: seq<T>, b: seq<T>, p: T -> bool)
    ensures Filter(a + b, p) == Filter(a, p) + Filter(b, p)
  {
    if |a| == 0 {
      assert a + b == b;
    } else {
      assert (a + b)[0] == a[0];
      assert (a + b)[1..] == a[1..] + b;
      FilterConcat(a[1..], b, p);
    }
  }

  /** Filtering a list with a new head. */
  lemma FilterCons<T>(x: T, t: seq<T>, p: T -> bool)
    ensures Filter([x] + t, p) == (if p(x) then [x] else []) + Filter(t, p)
  {
    assert ([x] + t)[1..] == t;
  }

  /** Filtering by `p` and then by a stronger `q` is filtering by `q`. */
  lemma {:induction false} FilterStronger<T>(s: seq<T>, p: T -> bool, q: T -> bool)
    requires forall x :: q(x) ==> p(x)
    ensures Filter(Filter(s, p), q) == Filter(s, q)
  {
    if |s| > 0 {
      FilterStronger(s[1..], p, q);
      if p(s[0]) {
        FilterCons(s[0], Filter(s[1..], p), q);
      } else {
        assert Filter(s, p) == Filter(s[1..], p);
      }
    }
  }

  /** A filter that every element passes changes nothing. */
  lemma {:induction false} FilterKeepsAll<T>(s: seq<T>, p: T -> bool)
    requires forall i :: 0 <= i < |s| ==> p(s[i])
    ensures Filter(s, p) == s
  {
    if |s| > 0 {
      FilterKeepsAll(s[1..], p);
    }
  }

  /** Filtering twice with the same predicate is filtering once. */
  lemma FilterIdempotent<T>(s: seq<T>, p: T -> bool)
    ensures Filter(Filter(s, p), p) == Filter(s, p)
  {
    FilterKeepsAll(Filter(s, p), p);
  }

  /** `xs.join(sep)`: the elements with `sep` between consecutive ones. */
  function Join(xs: seq<string>, sep: string): string
  {
    if |xs| == 0 then ""
    else if |xs| == 1 then xs[0]
    else xs[0] + sep + Join(xs[1..], sep)
  }

  /** Where element `k` starts inside `Join(xs, sep)`: the lengths of the
      earlier elements, each followed by one separator. */
  function Offset(xs: seq<string>, sep: string, k: nat): nat
    requires k <= |xs|
  {
    if k == 0 then 0 else |xs[0]| + |sep| + Offset(xs[1..], sep, k - 1)
  }

  /** A slice of the right operand of a concatenation, seen through the concatenation. */
  lemma SliceRight<T>(a: seq<T>, b: seq<T>, x: nat, y: nat)
    requires x <= y <= |b|
    ensures (a + b)[|a| + x..|a| + y] == b[x..y]
  {
    assert forall i :: 0 <= i < y - x ==> (a + b)[|a| + x..|a| + y][i] == b[x..y][i];
  }

  /** Element `k` sits in the joined string at `Offset(xs, sep, k)`. */
  lemma {:induction false} JoinAt(xs: seq<string>, sep: string, k: nat)
    requires k < |xs|
    ensures Offset(xs, sep, k) + |xs[k]| <= |Join(xs, sep)|
    ensures Join(xs, sep)[Offset(xs, sep, k)..Offset(xs, sep, k) + |xs[k]|] == xs[k]
  {
    if k == 0 {
      JoinAtHead(xs, sep);
    } else {
      JoinAt(xs[1..], sep, k - 1);
      JoinAtStep(xs, sep, k);
    }
  }

  /** The first element starts the joined string. */
  lemma JoinAtHead(xs: seq<string>, sep: string)
    requires 0 < |xs|
    ensures |xs[0]| <= |Join(xs, sep)| && Join(xs, sep)[0..|xs[0]|] == xs[0]
  {
    if |xs| > 1 {
      var j := Join(xs, sep);
      assert j == xs[0] + (sep + Join(xs[1..], sep));
      assert j[0..|xs[0]|] == xs[0];
    }
  }

  /** The step of `JoinAt`: element `k` of `xs` is element `k - 1` of the
      tail, shifted by the head and one separator. */
  lemma JoinAtStep(xs: seq<string>, sep: string, k: nat)
    requires 0 < k < |xs|
    requires Offset(xs[1..], sep, k - 1) + |xs[k]| <= |Join(xs[1..], sep)|
    requires Join(xs[1..], sep)[Offset(xs[1..], sep, k - 1)..Offset(xs[1..], sep, k - 1) + |xs[k]|] == xs[k]
    ensures Offset(xs, sep, k) + |xs[k]| <= |Join(xs, sep)|
    ensures Join(xs, sep)[Offset(xs, sep, k)..Offset(xs, sep, k) + |xs[k]|] == xs[k]
  {
    var rest := Join(xs[1..], sep);
    var head := xs[0] + sep;
    var o := Offset(xs[1..], sep, k - 1);
    assert Join(xs, sep) == head + rest;
    assert Offset(xs, sep, k) == |head| + o;
    SliceRight(head, rest, o, o + |xs[k]|);
  }

  /** Every element but the last is followed by the separator. */
  lemma {:induction false} JoinSeparatorAfter(xs: seq<string>, sep: string, k: nat)
    requires k + 1 < |xs|
    ensures Offset(xs, sep, k) + |xs[k]| + |sep| <= |Join(xs, sep)|
    ensures Join(xs, sep)[Offset(xs, sep, k) + |xs[k]|..Offset(xs, sep, k) + |xs[k]| + |sep|] == sep
  {
    var rest := Join(xs[1..], sep);
    var head := xs[0] + sep;
    assert Join(xs, sep) == head + rest;
    if k == 0 {
      assert (head + rest)[|xs[0]|..|xs[0]| + |sep|] == sep;
    } else {
      JoinSeparatorAfter(xs[1..], sep, k - 1);
      var o := Offset(xs[1..], sep, k - 1);
      assert xs[1..][k - 1] == xs[k];
      assert Offset(xs, sep, k) == |head| + o;
      SliceRight(head, rest, o + |xs[k]|, o + |xs[k]| + |sep|);
    }
  }
}
