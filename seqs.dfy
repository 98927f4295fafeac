/** Order-preserving selections over sequences, and the minimum and maximum of
    a non-empty sequence: the pandas operations the helpers are built from
    (boolean-mask selection, `min`/`max`, concatenation). */
module Seqs {
  import opened Frames

  /** idx lists distinct positions of a sequence of length n, in increasing order. */
  ghost predicate IncreasingBelow(idx: seq<nat>, n: nat) {
    && (forall k :: 0 <= k < |idx| ==> idx[k] < n)
    && (forall j, k :: 0 <= j < k < |idx| ==> idx[j] < idx[k])
  }

  function Shift(idx: seq<nat>): (r: seq<nat>)
    ensures |r| == |idx|
    ensures forall k :: 0 <= k < |r| ==> r[k] == idx[k] + 1
  {
    seq(|idx|, k requires 0 <= k < |idx| => idx[k] + 1)
  }

  lemma ShiftMembership(idx: seq<nat>, i: nat)
    ensures i in Shift(idx) <==> i > 0 && i - 1 in idx
  {
    if i in Shift(idx) {
      var k :| 0 <= k < |idx| && Shift(idx)[k] == i;
      assert idx[k] == i - 1;
    }
    if i > 0 && i - 1 in idx {
      var k :| 0 <= k < |idx| && idx[k] == i - 1;
      assert Shift(idx)[k] == i;
    }
  }

  /** Shifting the positions of a tail by one, with possibly position 0 in
      front, gives increasing positions of the whole sequence. */
  lemma ConsShift(hIdx: seq<nat>, rest: seq<nat>, n: nat)
    requires n > 0
    requires hIdx == [] || hIdx == [0]
    requires IncreasingBelow(rest, n - 1)
    ensures IncreasingBelow(hIdx + Shift(rest), n)
    ensures forall i :: i in hIdx + Shift(rest) <==> i in hIdx || i in Shift(rest)
  {
    var r := hIdx + Shift(rest);
    forall j, k | 0 <= j < k < |r| ensures r[j] < r[k] {
      if j >= |hIdx| {
        assert r[j] == rest[j - |hIdx|] + 1 && r[k] == rest[k - |hIdx|] + 1;
      } else {
        assert r[k] == rest[k - |hIdx|] + 1;
      }
    }
  }

  /** `df[mask]`: the elements that p keeps, in their original order. */
  function Filter<T>(xs: seq<T>, p: T -> bool): (r: seq<T>)
    ensures |r| <= |xs|
    ensures forall k :: 0 <= k < |r| ==> r[k] in xs && p(r[k])
    ensures forall k :: 0 <= k < |xs| && p(xs[k]) ==> xs[k] in r
  {
    if xs == [] then []
    else
      assert xs == [xs[0]] + xs[1..];
      (if p(xs[0]) then [xs[0]] else []) + Filter(xs[1..], p)
  }

  /** The positions of xs whose element p keeps, in increasing order. */
  function KeptPositions<T>(xs: seq<T>, p: T -> bool): (idx: seq<nat>)
    ensures IncreasingBelow(idx, |xs|)
    ensures forall i :: 0 <= i < |xs| ==> (i in idx <==> p(xs[i]))
  {
    if xs == [] then []
    else
      var rest := KeptPositions(xs[1..], p);
      forall i | 0 <= i < |xs| ensures i in Shift(rest) <==> i > 0 && p(xs[i]) {
        ShiftMembership(rest, i);
      }
      var hIdx: seq<nat> := if p(xs[0]) then [0] else [];
      ConsShift(hIdx, rest, |xs|);
      hIdx + Shift(rest)
  }

  /** Filter is exactly the selection of the kept positions: it keeps every
      element p accepts, drops every other one, leaves the kept elements
      unchanged and preserves their relative order. */
  lemma {:induction false} FilterIsSelection<T>(xs: seq<T>, p: T -> bool)
    ensures |Filter(xs, p)| == |KeptPositions(xs, p)|
    ensures forall k :: 0 <= k < |Filter(xs, p)| ==>
      Filter(xs, p)[k] == xs[KeptPositions(xs, p)[k]]
  {
    if xs != [] {
      var tail, rest := Filter(xs[1..], p), KeptPositions(xs[1..], p);
      FilterIsSelection(xs[1..], p);
      var h: seq<T> := if p(xs[0]) then [xs[0]] else [];
      var hIdx: seq<nat> := if p(xs[0]) then [0] else [];
      assert Filter(xs, p) == h + tail;
      assert KeptPositions(xs, p) == hIdx + Shift(rest);
      SelectionCons(xs, h, hIdx, tail, rest);
    }
  }

  /** One inductive step of FilterIsSelection: a selection of xs[1..] at the
      positions rest, with the head possibly in front, is a selection of xs at
      the shifted positions. */
  lemma SelectionCons<T>(xs: seq<T>, h: seq<T>, hIdx: seq<nat>, tail: seq<T>, rest: seq<nat>)
    requires |xs| > 0
    requires (h == [] && hIdx == []) || (h == [xs[0]] && hIdx == [0])
    requires |tail| == |rest|
    requires forall j :: 0 <= j < |rest| ==> rest[j] < |xs| - 1 && tail[j] == xs[1..][rest[j]]
    ensures |h + tail| == |hIdx + Shift(rest)|
    ensures forall k :: 0 <= k < |h + tail| ==> (h + tail)[k] == xs[(hIdx + Shift(rest))[k]]
  {
    forall k | 0 <= k < |h + tail|
      ensures (h + tail)[k] == xs[(hIdx + Shift(rest))[k]]
    {
      if k >= |h| {
        var j := k - |h|;
        assert (h + tail)[k] == tail[j] == xs[1..][rest[j]];
        assert (hIdx + Shift(rest))[k] == Shift(rest)[j] == rest[j] + 1;
      }
    }
  }

  /** Selecting again with a predicate that holds of every element changes nothing. */
  lemma {:induction false} FilterKeepsAll<T>(xs: seq<T>, p: T -> bool)
    requires forall k :: 0 <= k < |xs| ==> p(xs[k])
    ensures Filter(xs, p) == xs
  {
    if xs != [] {
      FilterKeepsAll(xs[1..], p);
    }
  }

  /** Map-then-drop-the-Nones, in order: what a loop that appends one value per
      accepted element builds. */
  function FilterMap<A, B>(xs: seq<A>, f: A -> Option<B>): (r: seq<B>)
    ensures |r| <= |xs|
  {
    if xs == [] then []
    else (if f(xs[0]).Some? then [f(xs[0]).value] else []) + FilterMap(xs[1..], f)
  }

  /** The positions of xs for which f produces a value, in increasing order. */
  function ProducingPositions<A, B>(xs: seq<A>, f: A -> Option<B>): (idx: seq<nat>)
    ensures IncreasingBelow(idx, |xs|)
    ensures forall i :: 0 <= i < |xs| ==> (i in idx <==> f(xs[i]).Some?)
  {
    if xs == [] then []
    else
      var rest := ProducingPositions(xs[1..], f);
      forall i | 0 <= i < |xs| ensures i in Shift(rest) <==> i > 0 && f(xs[i]).Some? {
        ShiftMembership(rest, i);
      }
      var hIdx: seq<nat> := if f(xs[0]).Some? then [0] else [];
      ConsShift(hIdx, rest, |xs|);
      hIdx + Shift(rest)
  }

  /** FilterMap yields, in input order, one value for each element f accepts
      and nothing for the others. */
  lemma {:induction false} FilterMapIsSelection<A, B>(xs: seq<A>, f: A -> Option<B>)
    ensures |FilterMap(xs, f)| == |ProducingPositions(xs, f)|
    ensures forall k :: 0 <= k < |FilterMap(xs, f)| ==>
      f(xs[ProducingPositions(xs, f)[k]]) == Some(FilterMap(xs, f)[k])
  {
    if xs != [] {
      var tail, rest := FilterMap(xs[1..], f), ProducingPositions(xs[1..], f);
      FilterMapIsSelection(xs[1..], f);
      var h: seq<B> := if f(xs[0]).Some? then [f(xs[0]).value] else [];
      var hIdx: seq<nat> := if f(xs[0]).Some? then [0] else [];
      assert FilterMap(xs, f) == h + tail;
      assert ProducingPositions(xs, f) == hIdx + Shift(rest);
      ProductionCons(xs, f, h, hIdx, tail, rest);
    }
  }

  /** One inductive step of FilterMapIsSelection. */
  lemma ProductionCons<A, B>(xs: seq<A>, f: A -> Option<B>, h: seq<B>, hIdx: seq<nat>, tail: seq<B>, rest: seq<nat>)
    requires |xs| > 0
    requires (h == [] && hIdx == []) || (f(xs[0]).Some? && h == [f(xs[0]).value] && hIdx == [0])
    requires |tail| == |rest|
    requires forall j :: 0 <= j < |rest| ==> rest[j] < |xs| - 1 && f(xs[1..][rest[j]]) == Some(tail[j])
    ensures |h + tail| == |hIdx + Shift(rest)|
    ensures forall k :: 0 <= k < |h + tail| ==> f(xs[(hIdx + Shift(rest))[k]]) == Some((h + tail)[k])
  {
    forall k | 0 <= k < |h + tail|
      ensures f(xs[(hIdx + Shift(rest))[k]]) == Some((h + tail)[k])
    {
      if k >= |h| {
        var j := k - |h|;
        assert (h + tail)[k] == tail[j];
        assert (hIdx + Shift(rest))[k] == Shift(rest)[j] == rest[j] + 1;
        assert xs[rest[j] + 1] == xs[1..][rest[j]];
      }
    }
  }

  /** Appending one more element appends at most one value at the end. */
  lemma {:induction false} FilterMapSnoc<A, B>(xs: seq<A>, x: A, f: A -> Option<B>)
    ensures FilterMap(xs + [x], f) ==
      FilterMap(xs, f) + (if f(x).Some? then [f(x).value] else [])
  {
    if xs == [] {
      assert [x][1..] == [];
    } else {
      assert (xs + [x])[1..] == xs[1..] + [x];
      FilterMapSnoc(xs[1..], x, f);
    }
  }

  /** `pd.concat(tables, ignore_index=True)` on a non-empty list: the rows of
      every table, table after table. */
  function Concat<T>(tables: seq<seq<T>>): (r: seq<T>)
    ensures forall i :: 0 <= i < |r| ==> exists k :: 0 <= k < |tables| && r[i] in tables[k]
    ensures forall k, j :: 0 <= k < |tables| && 0 <= j < |tables[k]| ==> tables[k][j] in r
  {
    if tables == [] then []
    else tables[0] + Concat(tables[1..])
  }

  lemma FilterCons<T>(x: T, xs: seq<T>, p: T -> bool)
    ensures Filter([x] + xs, p) == (if p(x) then [x] else []) + Filter(xs, p)
  {
    assert ([x] + xs)[1..] == xs;
  }

  /** Keeping the tables that pass a test and concatenating them, one table
      at a time from the front. */
  lemma ConcatFilterCons<T>(t: seq<T>, rest: seq<seq<T>>, p: seq<T> -> bool)
    ensures Concat(Filter([t] + rest, p)) == (if p(t) then t else []) + Concat(Filter(rest, p))
  {
    FilterCons(t, rest, p);
    var head: seq<seq<T>> := if p(t) then [t] else [];
    ConcatAppend(head, Filter(rest, p));
    if p(t) {
      assert head[1..] == [];
    }
  }

  /** Concatenation distributes over appending lists of tables. */
  lemma {:induction false} ConcatAppend<T>(a: seq<seq<T>>, b: seq<seq<T>>)
    ensures Concat(a + b) == Concat(a) + Concat(b)
  {
    if a != [] {
      assert (a + b)[1..] == a[1..] + b;
      ConcatAppend(a[1..], b);
    } else {
      assert a + b == b;
    }
  }

  /** The smallest element, which is one of the elements. */
  function Min(s: seq<real>): (m: real)
    requires |s| > 0
    ensures m in s
    ensures forall k :: 0 <= k < |s| ==> m <= s[k]
  {
    if |s| == 1 then s[0]
    else
      var t := Min(s[1..]);
      if s[0] <= t then s[0] else t
  }

  /** The largest element, which is one of the elements. */
  function Max(s: seq<real>): (m: real)
    requires |s| > 0
    ensures m in s
    ensures forall k :: 0 <= k < |s| ==> s[k] <= m
  {
    if |s| == 1 then s[0]
    else
      var t := Max(s[1..]);
      if s[0] >= t then s[0] else t
  }

  /** An element no larger than any other is the minimum. */
  lemma MinIsLowest(s: seq<real>, lo: nat)
    requires lo < |s|
    requires forall k :: 0 <= k < |s| ==> s[lo] <= s[k]
    ensures Min(s) == s[lo]
  {
    var m := Min(s);
    var i :| 0 <= i < |s| && s[i] == m;
    assert m <= s[lo] <= s[i];
  }

  /** An element no smaller than any other is the maximum. */
  lemma MaxIsHighest(s: seq<real>, hi: nat)
    requires hi < |s|
    requires forall k :: 0 <= k < |s| ==> s[k] <= s[hi]
    ensures Max(s) == s[hi]
  {
    var m := Max(s);
    var i :| 0 <= i < |s| && s[i] == m;
    assert s[i] <= s[hi] <= m;
  }
}
