/** Sequence helpers shared by the catalog store and the visited-places page:
    an Option type for "not found" results and a model of `Array.prototype.filter`. */
module Seqs {

  /** `T | null` and `T | undefined` results of the source. */
  datatype Option<T> = None | Some(value: T)

  /** The elements of `s` for which `keep` holds, in their original order.
      Defined by peeling off the last element, so a loop that pushes one element
      at a time can be related to it. */
  function Filter<T(!new)>(s: seq<T>, keep: T -> bool): (r: seq<T>)
    ensures |r| <= |s|
  {
    if |s| == 0 then []
    else Filter(s[..|s| - 1], keep) + (if keep(s[|s| - 1]) then [s[|s| - 1]] else [])
  }

  /** An element is kept exactly when it occurs in `s` and passes the test. */
  lemma {:induction false} FilterMembers<T(!new)>(s: seq<T>, keep: T -> bool)
    ensures forall x :: x in Filter(s, keep) <==> x in s && keep(x)
  {
    if |s| > 0 {
      var init, last := s[..|s| - 1], s[|s| - 1];
      assert s == init + [last];
      FilterMembers(init, keep);
    }
  }

  /** The positions of `s` that `Filter(s, keep)` keeps, in increasing order. */
  function FilterIndices<T>(s: seq<T>, keep: T -> bool): seq<nat>
  {
    if |s| == 0 then []
    else FilterIndices(s[..|s| - 1], keep) + (if keep(s[|s| - 1]) then [|s| - 1] else [])
  }

  /** `r` is the subsequence of `s` taken at the strictly increasing positions `idx`,
      and `idx` holds exactly the positions whose element satisfies `keep`. */
  ghost predicate SelectedBy<T>(r: seq<T>, s: seq<T>, idx: seq<nat>, keep: T -> bool)
  {
    && |idx| == |r|
    && (forall k :: 0 <= k < |idx| ==> idx[k] < |s| && r[k] == s[idx[k]])
    && (forall k, l :: 0 <= k < l < |idx| ==> idx[k] < idx[l])
    && (forall i :: 0 <= i < |s| ==> (i in idx <==> keep(s[i])))
  }

  /** Filter is the order-preserving selection of exactly the elements that pass. */
  lemma {:induction false} FilterSelects<T(!new)>(s: seq<T>, keep: T -> bool)
    ensures SelectedBy(Filter(s, keep), s, FilterIndices(s, keep), keep)
  {
    if |s| > 0 {
      var init, last := s[..|s| - 1], s[|s| - 1];
      assert s == init + [last];
      FilterSelects(init, keep);
      SelectedBySnoc(Filter(init, keep), init, FilterIndices(init, keep), keep, last);
    }
  }

  /** One more element at the end of `s` extends a selection by that element's
      position exactly when the element passes. */
  lemma SelectedBySnoc<T>(r: seq<T>, s: seq<T>, idx: seq<nat>, keep: T -> bool, x: T)
    requires SelectedBy(r, s, idx, keep)
    ensures keep(x) ==> SelectedBy(r + [x], s + [x], idx + [|s|], keep)
    ensures !keep(x) ==> SelectedBy(r, s + [x], idx, keep)
  {
    var n := |s|;
    var s' := s + [x];
    assert n !in idx by {
      forall k | 0 <= k < |idx| ensures idx[k] != n { assert idx[k] < n; }
    }
    if keep(x) {
      var r', idx' := r + [x], idx + [n];
      forall k | 0 <= k < |idx'| ensures idx'[k] < |s'| && r'[k] == s'[idx'[k]] {
        if k < |idx| { assert idx'[k] == idx[k] && r'[k] == r[k]; }
      }
      forall i | 0 <= i < |s'| ensures i in idx' <==> keep(s'[i]) {
        if i < n { assert s'[i] == s[i]; }
      }
    } else {
      forall k | 0 <= k < |idx| ensures idx[k] < |s'| && r[k] == s'[idx[k]] {
        assert s'[idx[k]] == s[idx[k]];
      }
      forall i | 0 <= i < |s'| ensures i in idx <==> keep(s'[i]) {
        if i < n { assert s'[i] == s[i]; }
      }
    }
  }

  function Not<T(!new)>(keep: T -> bool): (r: T -> bool)
    ensures forall x :: r(x) == !keep(x)
  {
    x => !keep(x)
  }

  function And<T(!new)>(first: T -> bool, second: T -> bool): (r: T -> bool)
    ensures forall x :: r(x) == (first(x) && second(x))
  {
    x => first(x) && second(x)
  }

  /** Filtering by a predicate and by its negation splits `s` into two parts
      whose elements together are those of `s`. */
  lemma FilterPartition<T(!new)>(s: seq<T>, keep: T -> bool, drop: T -> bool)
    requires forall x :: drop(x) == !keep(x)
    ensures multiset(Filter(s, keep)) + multiset(Filter(s, drop)) == multiset(s)
    ensures |Filter(s, keep)| + |Filter(s, drop)| == |s|
  {
    FilterMultisets(s, keep, drop);
    var a, b := Filter(s, keep), Filter(s, drop);
    assert |multiset(a) + multiset(b)| == |multiset(s)|;
  }

  lemma {:induction false} FilterMultisets<T(!new)>(s: seq<T>, keep: T -> bool, drop: T -> bool)
    requires forall x :: drop(x) == !keep(x)
    ensures multiset(Filter(s, keep)) + multiset(Filter(s, drop)) == multiset(s)
  {
    if |s| > 0 {
      var init, last := s[..|s| - 1], s[|s| - 1];
      assert s == init + [last];
      FilterMultisets(init, keep, drop);
      FilterSnoc(init, last, keep);
      FilterSnoc(init, last, drop);
      var a, b := Filter(init, keep), Filter(init, drop);
      if keep(last) {
        assert Filter(s, keep) == a + [last];
        assert Filter(s, drop) == b;
      } else {
        assert Filter(s, keep) == a;
        assert Filter(s, drop) == b + [last];
      }
    }
  }

  /** Filtering by a conjunction is filtering by each conjunct in turn. */
  lemma {:induction false} FilterAnd<T(!new)>(s: seq<T>, first: T -> bool, second: T -> bool)
    ensures Filter(s, And(first, second)) == Filter(Filter(s, first), second)
  {
    if |s| > 0 {
      var init, last := s[..|s| - 1], s[|s| - 1];
      FilterAnd(init, first, second);
      if first(last) {
        var mid := Filter(init, first);
        assert Filter(s, first) == mid + [last];
        FilterSnoc(mid, last, second);
        assert Filter(s, And(first, second)) == Filter(init, And(first, second)) + (if second(last) then [last] else []);
      } else {
        assert Filter(s, first) == Filter(init, first);
        assert Filter(s, And(first, second)) == Filter(init, And(first, second));
      }
    }
  }

  /** When every element passes, Filter returns the whole sequence. */
  lemma {:induction false} FilterKeepsAll<T(!new)>(s: seq<T>, keep: T -> bool)
    requires forall i :: 0 <= i < |s| ==> keep(s[i])
    ensures Filter(s, keep) == s
  {
    if |s| > 0 {
      var init, last := s[..|s| - 1], s[|s| - 1];
      forall i | 0 <= i < |init| ensures keep(init[i]) {
        assert init[i] == s[i];
      }
      FilterKeepsAll(init, keep);
      assert keep(last);
      assert Filter(s, keep) == init + [last];
      assert s == init + [last];
    }
  }

  /** When no element passes, Filter returns the empty sequence. */
  lemma {:induction false} FilterKeepsNone<T(!new)>(s: seq<T>, keep: T -> bool)
    requires forall i :: 0 <= i < |s| ==> !keep(s[i])
    ensures Filter(s, keep) == []
  {
    if |s| > 0 {
      var init := s[..|s| - 1];
      assert forall i :: 0 <= i < |init| ==> init[i] == s[i];
      FilterKeepsNone(init, keep);
    }
  }

  /** Filter of a sequence extended by one element. */
  lemma FilterSnoc<T(!new)>(s: seq<T>, x: T, keep: T -> bool)
    ensures Filter(s + [x], keep) == Filter(s, keep) + (if keep(x) then [x] else [])
  {
    assert (s + [x])[..|s|] == s;
  }
}
