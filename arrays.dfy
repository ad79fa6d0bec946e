/** `Array.prototype.map` and `Array.prototype.filter` as the page script
    chains them, over immutable sequences, with the facts about order and
    selection that the script's pipelines rely on. */
module JsArrays {
  import opened JsStrings

  /** `xs.map(f)`. */
  function Map<T, U>(xs: seq<T>, f: T -> U): (r: seq<U>)
    ensures |r| == |xs|
    ensures forall k :: 0 <= k < |xs| ==> r[k] == f(xs[k])
  {
    if xs == [] then [] else [f(xs[0])] + Map(xs[1..], f)
  }

  /** `xs.filter(p)`: the elements that pass, in order. */
  function Filter<T>(xs: seq<T>, p: T -> bool): seq<T> {
    if xs == [] then []
    else if p(xs[0]) then [xs[0]] + Filter(xs[1..], p)
    else Filter(xs[1..], p)
  }

  /** `xs.map(f).filter(truthy)`, where `f` answers a value or a falsy one (None). */
  function FilterMap<T, U>(xs: seq<T>, f: T -> Option<U>): seq<U> {
    if xs == [] then []
    else match f(xs[0])
      case Some(u) => [u] + FilterMap(xs[1..], f)
      case None => FilterMap(xs[1..], f)
  }

  /** `xs.map(f)` where `f` may throw (None): the results in order, or None
      as soon as one call throws. */
  function AllSome<T, U>(xs: seq<T>, f: T -> Option<U>): (r: Option<seq<U>>)
    ensures r.Some? ==> |r.value| == |xs|
  {
    if xs == [] then Some([])
    else match (f(xs[0]), AllSome(xs[1..], f))
      case (Some(u), Some(rest)) => Some([u] + rest)
      case _ => None
  }

  /** The mapping fails exactly when some element throws, and otherwise
      holds each element's result at its position. */
  lemma {:induction false} AllSomeSpec<T, U>(xs: seq<T>, f: T -> Option<U>)
    ensures AllSome(xs, f).None? <==> exists k :: 0 <= k < |xs| && f(xs[k]).None?
    ensures AllSome(xs, f).Some? ==>
      forall k :: 0 <= k < |xs| ==> f(xs[k]) == Some(AllSome(xs, f).value[k])
  {
    if xs != [] {
      var tail := xs[1..];
      AllSomeSpec(tail, f);
      if exists k :: 0 <= k < |tail| && f(tail[k]).None? {
        var k :| 0 <= k < |tail| && f(tail[k]).None?;
        assert xs[k + 1] == tail[k];
      }
      if exists k :: 0 < k < |xs| && f(xs[k]).None? {
        var k :| 0 < k < |xs| && f(xs[k]).None?;
        assert tail[k - 1] == xs[k];
      }
      if AllSome(xs, f).Some? {
        var out := AllSome(xs, f).value;
        assert out[1..] == AllSome(tail, f).value;
        forall k | 0 < k < |xs| ensures f(xs[k]) == Some(out[k]) {
          assert xs[k] == tail[k - 1];
        }
      }
    }
  }

  /** `idx` selects positions of `xs` strictly increasingly. */
  ghost predicate IsSelection<T>(idx: seq<nat>, xs: seq<T>) {
    (forall k :: 0 <= k < |idx| ==> idx[k] < |xs|) &&
    (forall k, m :: 0 <= k < m < |idx| ==> idx[k] < idx[m])
  }

  /** `idx` is a strictly increasing selection of the positions of `xs`,
      `out` is `f` applied at those positions, and every position where `f`
      answers a value is selected. */
  ghost predicate SelectsValues<T, U>(idx: seq<nat>, xs: seq<T>, f: T -> Option<U>, out: seq<U>) {
    |idx| == |out| && IsSelection(idx, xs) &&
    (forall k :: 0 <= k < |idx| ==> f(xs[idx[k]]) == Some(out[k])) &&
    (forall i :: 0 <= i < |xs| && f(xs[i]).Some? ==> i in idx)
  }

  /** A filter-map keeps the order of its input: its output is `f` applied to
      a strictly increasing selection of the positions, and the selected
      positions are exactly those where `f` answers a value. */
  lemma {:induction false} FilterMapSelection<T, U>(xs: seq<T>, f: T -> Option<U>)
    returns (idx: seq<nat>)
    ensures |FilterMap(xs, f)| <= |xs|
    ensures SelectsValues(idx, xs, f, FilterMap(xs, f))
  {
    if xs == [] {
      idx := [];
    } else {
      var rest := FilterMapSelection(xs[1..], f);
      var shifted := Shift(rest);
      ShiftedValues(xs, f, rest);
      if f(xs[0]).Some? {
        idx := [0] + shifted;
        ConsOutput(xs, f, shifted, FilterMap(xs[1..], f));
      } else {
        idx := shifted;
        assert FilterMap(xs, f) == FilterMap(xs[1..], f);
        assert f(xs[0]).None?;
      }
    }
  }

  /** Every position moved one further on. */
  function Shift(s: seq<nat>): (r: seq<nat>)
    ensures |r| == |s| && forall k :: 0 <= k < |s| ==> r[k] == s[k] + 1
  {
    seq(|s|, k requires 0 <= k < |s| => s[k] + 1)
  }

  /** A selection of the tail's values, moved one on, selects the same values
      in the whole sequence, apart from position 0. */
  lemma ShiftedValues<T, U>(xs: seq<T>, f: T -> Option<U>, rest: seq<nat>)
    requires xs != [] && SelectsValues(rest, xs[1..], f, FilterMap(xs[1..], f))
    ensures var shifted := Shift(rest); var tail := FilterMap(xs[1..], f);
      |shifted| == |tail| && IsSelection(shifted, xs) &&
      (forall k :: 0 <= k < |shifted| ==> shifted[k] > 0 && f(xs[shifted[k]]) == Some(tail[k])) &&
      (forall i :: 0 < i < |xs| && f(xs[i]).Some? ==> i in shifted)
  {
    var shifted := Shift(rest);
    var tail := FilterMap(xs[1..], f);
    ShiftedSelection(rest, xs);
    forall k | 0 <= k < |shifted| ensures f(xs[shifted[k]]) == Some(tail[k]) {
      assert xs[shifted[k]] == xs[1..][rest[k]];
    }
    forall i | 0 < i < |xs| && f(xs[i]).Some? ensures i in shifted {
      assert xs[1..][i - 1] == xs[i];
      var k :| 0 <= k < |rest| && rest[k] == i - 1;
      assert shifted[k] == i;
    }
  }

  lemma ShiftedSelection<T>(sel: seq<nat>, xs: seq<T>)
    requires xs != [] && IsSelection(sel, xs[1..])
    ensures IsSelection(Shift(sel), xs)
    ensures forall k :: 0 <= k < |sel| ==> Shift(sel)[k] > 0
  {
  }

  lemma ConsOutput<T, U>(xs: seq<T>, f: T -> Option<U>, sel: seq<nat>, tail: seq<U>)
    requires xs != [] && f(xs[0]).Some? && tail == FilterMap(xs[1..], f)
    requires |sel| == |tail| && IsSelection(sel, xs)
    requires forall k :: 0 <= k < |sel| ==> sel[k] > 0 && f(xs[sel[k]]) == Some(tail[k])
    requires forall i :: 0 < i < |xs| && f(xs[i]).Some? ==> i in sel
    ensures SelectsValues([0] + sel, xs, f, FilterMap(xs, f))
  {
    assert FilterMap(xs, f) == [f(xs[0]).value] + tail;
    PrependZero(sel, xs);
    ConsValues(xs, f, sel, tail);
    ConsComplete(xs, f, sel);
  }

  lemma ConsValues<T, U>(xs: seq<T>, f: T -> Option<U>, sel: seq<nat>, tail: seq<U>)
    requires xs != [] && f(xs[0]).Some? && |sel| == |tail|
    requires forall k :: 0 <= k < |sel| ==> sel[k] < |xs| && f(xs[sel[k]]) == Some(tail[k])
    ensures var idx := [0] + sel; var out := [f(xs[0]).value] + tail;
      forall k :: 0 <= k < |idx| ==> idx[k] < |xs| && f(xs[idx[k]]) == Some(out[k])
  {
    var idx := [0] + sel;
    var out := [f(xs[0]).value] + tail;
    forall k | 0 <= k < |idx| ensures idx[k] < |xs| && f(xs[idx[k]]) == Some(out[k]) {
      if k > 0 {
        assert idx[k] == sel[k - 1] && out[k] == tail[k - 1];
      }
    }
  }

  lemma ConsComplete<T, U>(xs: seq<T>, f: T -> Option<U>, sel: seq<nat>)
    requires forall i :: 0 < i < |xs| && f(xs[i]).Some? ==> i in sel
    ensures forall i :: 0 <= i < |xs| && f(xs[i]).Some? ==> i in [0] + sel
  {
    forall i | 0 <= i < |xs| && f(xs[i]).Some? ensures i in [0] + sel {
      if i > 0 {
        var k :| 0 <= k < |sel| && sel[k] == i;
        assert ([0] + sel)[k + 1] == i;
      }
    }
  }

  lemma PrependZero<T>(sel: seq<nat>, xs: seq<T>)
    requires xs != [] && IsSelection(sel, xs)
    requires forall k :: 0 <= k < |sel| ==> sel[k] > 0
    ensures IsSelection([0] + sel, xs)
  {
    var idx := [0] + sel;
    forall k, m | 0 <= k < m < |idx| ensures idx[k] < idx[m] {
      if k > 0 {
        assert idx[k] == sel[k - 1];
      }
      assert idx[m] == sel[m - 1];
    }
  }

  /** A test as a mapping that keeps the element or drops it. */
  function Keep<T>(p: T -> bool): T -> Option<T> {
    x => if p(x) then Some(x) else None
  }

  /** Filtering is filter-mapping with `Keep`. */
  lemma {:induction false} FilterIsFilterMap<T>(xs: seq<T>, p: T -> bool)
    ensures Filter(xs, p) == FilterMap(xs, Keep(p))
  {
    if xs != [] {
      FilterIsFilterMap(xs[1..], p);
    }
  }

  /** A filter keeps its input's order: its output is the input at a strictly
      increasing selection of positions, and the selected positions are
      exactly those whose element passes the test. */
  lemma FilterSelection<T>(xs: seq<T>, p: T -> bool) returns (idx: seq<nat>)
    ensures |idx| == |Filter(xs, p)| <= |xs| && IsSelection(idx, xs)
    ensures forall k :: 0 <= k < |idx| ==> p(xs[idx[k]]) && Filter(xs, p)[k] == xs[idx[k]]
    ensures forall i :: 0 <= i < |xs| && p(xs[i]) ==> i in idx
  {
    FilterIsFilterMap(xs, p);
    idx := FilterMapSelection(xs, Keep(p));
    forall k | 0 <= k < |idx| ensures p(xs[idx[k]]) && Filter(xs, p)[k] == xs[idx[k]] {
      assert Keep(p)(xs[idx[k]]) == Some(Filter(xs, p)[k]);
    }
    forall i | 0 <= i < |xs| && p(xs[i]) ensures i in idx {
      assert Keep(p)(xs[i]).Some?;
    }
  }

  /** A filter-map loses an element exactly when `f` answers None somewhere. */
  lemma {:induction false} FilterMapDrops<T, U>(xs: seq<T>, f: T -> Option<U>)
    ensures |FilterMap(xs, f)| <= |xs|
    ensures |FilterMap(xs, f)| == 0 <==> forall i :: 0 <= i < |xs| ==> f(xs[i]).None?
    ensures |FilterMap(xs, f)| < |xs| <==> exists i :: 0 <= i < |xs| && f(xs[i]).None?
  {
    if xs != [] {
      FilterMapDrops(xs[1..], f);
      assert forall i :: 0 < i < |xs| ==> xs[1..][i - 1] == xs[i];
      if f(xs[0]).None? {
        assert exists i :: 0 <= i < |xs| && f(xs[i]).None?;
      }
      if exists i :: 0 < i < |xs| && f(xs[i]).None? {
        var i :| 0 < i < |xs| && f(xs[i]).None?;
        assert f(xs[1..][i - 1]).None?;
      }
    }
  }

  /** Every element of a filter passes the test and comes from the input. */
  lemma {:induction false} FilterKeeps<T>(xs: seq<T>, p: T -> bool)
    ensures |Filter(xs, p)| <= |xs|
    ensures forall k :: 0 <= k < |Filter(xs, p)| ==> p(Filter(xs, p)[k]) && Filter(xs, p)[k] in xs
  {
    if xs != [] {
      FilterKeeps(xs[1..], p);
    }
  }

  /** Filtering elements that all pass changes nothing. */
  lemma {:induction false} FilterAllPass<T>(xs: seq<T>, p: T -> bool)
    requires forall k :: 0 <= k < |xs| ==> p(xs[k])
    ensures Filter(xs, p) == xs
  {
    if xs != [] {
      FilterAllPass(xs[1..], p);
    }
  }

  /** The positions `0, 1, ..., n - 1`. */
  function Indices(n: nat): (r: seq<nat>)
    ensures |r| == n && forall i :: 0 <= i < n ==> r[i] == i
  {
    seq(n, i requires 0 <= i < n => i)
  }

  /** `order` lists every position below `n` exactly once. */
  predicate IsPermutationOf(order: seq<nat>, n: nat) {
    |order| == n && (forall k :: 0 <= k < n ==> order[k] < n) &&
    multiset(order) == multiset(Indices(n))
  }

  /** The elements of `xs` at the positions `order` lists, in that order. */
  function Pick<T>(xs: seq<T>, order: seq<nat>): (r: seq<T>)
    requires forall k :: 0 <= k < |order| ==> order[k] < |xs|
    ensures |r| == |order| && forall k :: 0 <= k < |order| ==> r[k] == xs[order[k]]
  {
    seq(|order|, k requires 0 <= k < |order| => xs[order[k]])
  }

  /** Picking one more position appends its element. */
  lemma PickExtend<T>(xs: seq<T>, order: seq<nat>, k: nat)
    requires forall j :: 0 <= j < |order| ==> order[j] < |xs|
    requires k < |order|
    ensures Pick(xs, order[..k + 1]) == Pick(xs, order[..k]) + [xs[order[k]]]
  {
  }

  /** Picking by two position lists holding the same positions gives the
      same elements, possibly in another order. */
  lemma {:induction false} PickSameMultiset<T>(xs: seq<T>, a: seq<nat>, b: seq<nat>)
    requires forall k :: 0 <= k < |a| ==> a[k] < |xs|
    requires forall k :: 0 <= k < |b| ==> b[k] < |xs|
    requires multiset(a) == multiset(b)
    ensures multiset(Pick(xs, a)) == multiset(Pick(xs, b))
    decreases |a|
  {
    if a == [] {
      assert |b| == |multiset(b)| == 0;
    } else {
      var j := MatchFirst(a, b, |xs|);
      var b' := b[..j] + b[j + 1..];
      PickSameMultiset(xs, a[1..], b');
      PickStep(xs, a, b, j);
    }
  }

  /** Where the first position of `a` stands in `b`, and what is left of both
      once it is taken out. */
  lemma MatchFirst(a: seq<nat>, b: seq<nat>, n: nat) returns (j: nat)
    requires a != [] && multiset(a) == multiset(b)
    requires forall k :: 0 <= k < |b| ==> b[k] < n
    ensures j < |b| && b[j] == a[0]
    ensures var b' := b[..j] + b[j + 1..];
      multiset(a[1..]) == multiset(b') && forall k :: 0 <= k < |b'| ==> b'[k] < n
  {
    assert a[0] in multiset(b);
    j :| 0 <= j < |b| && b[j] == a[0];
    var b' := b[..j] + b[j + 1..];
    assert multiset(a[1..]) == multiset(a) - multiset{a[0]} by {
      RemoveOne(a, 0);
      assert a[..0] + a[1..] == a[1..];
    }
    RemoveOne(b, j);
    RemoveKeepsBound(b, j, n);
  }

  lemma RemoveKeepsBound(b: seq<nat>, j: nat, n: nat)
    requires j < |b| && forall k :: 0 <= k < |b| ==> b[k] < n
    ensures var b' := b[..j] + b[j + 1..]; forall k :: 0 <= k < |b'| ==> b'[k] < n
  {
    var b' := b[..j] + b[j + 1..];
    forall k | 0 <= k < |b'| ensures b'[k] < n {
      if k < j {
        assert b'[k] == b[k];
      } else {
        assert b'[k] == b[k + 1];
      }
    }
  }

  /** Putting the same element back in front of equal multisets of picks. */
  lemma PickStep<T>(xs: seq<T>, a: seq<nat>, b: seq<nat>, j: nat)
    requires forall k :: 0 <= k < |a| ==> a[k] < |xs|
    requires forall k :: 0 <= k < |b| ==> b[k] < |xs|
    requires a != [] && j < |b| && b[j] == a[0]
    requires multiset(Pick(xs, a[1..])) == multiset(Pick(xs, b[..j] + b[j + 1..]))
    ensures multiset(Pick(xs, a)) == multiset(Pick(xs, b))
  {
    var x := xs[a[0]];
    PickRemoveFirst(xs, a);
    PickRemove(xs, b, j);
    AddBack(multiset(Pick(xs, a)), multiset(Pick(xs, b)), x);
  }

  lemma RemoveOne<T>(s: seq<T>, j: nat)
    requires j < |s|
    ensures multiset(s[..j] + s[j + 1..]) == multiset(s) - multiset{s[j]}
  {
    assert s == s[..j] + [s[j]] + s[j + 1..];
  }

  lemma PickRemoveFirst<T>(xs: seq<T>, a: seq<nat>)
    requires forall k :: 0 <= k < |a| ==> a[k] < |xs|
    requires a != []
    ensures xs[a[0]] in multiset(Pick(xs, a))
    ensures multiset(Pick(xs, a[1..])) == multiset(Pick(xs, a)) - multiset{xs[a[0]]}
  {
    assert Pick(xs, a) == [xs[a[0]]] + Pick(xs, a[1..]);
  }

  lemma PickRemove<T>(xs: seq<T>, a: seq<nat>, j: nat)
    requires forall k :: 0 <= k < |a| ==> a[k] < |xs|
    requires j < |a|
    ensures xs[a[j]] in multiset(Pick(xs, a))
    ensures multiset(Pick(xs, a[..j] + a[j + 1..])) == multiset(Pick(xs, a)) - multiset{xs[a[j]]}
  {
    var p := Pick(xs, a);
    assert p[j] == xs[a[j]];
    assert Pick(xs, a[..j] + a[j + 1..]) == p[..j] + p[j + 1..];
    RemoveOne(p, j);
  }

  lemma AddBack<T>(ma: multiset<T>, mb: multiset<T>, x: T)
    requires x in ma && x in mb && ma - multiset{x} == mb - multiset{x}
    ensures ma == mb
  {
    assert ma == (ma - multiset{x}) + multiset{x};
    assert mb == (mb - multiset{x}) + multiset{x};
  }

  /** Listing the elements of `xs` in any permuted order keeps their multiset. */
  lemma PermutedMultiset<T>(xs: seq<T>, order: seq<nat>)
    requires IsPermutationOf(order, |xs|)
    ensures multiset(Pick(xs, order)) == multiset(xs)
  {
    PickSameMultiset(xs, order, Indices(|xs|));
    assert Pick(xs, Indices(|xs|)) == xs;
  }
}
