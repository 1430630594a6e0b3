/**
 * The two `Array.prototype` operations the widget builds its state changes and
 * views from: `filter` and `find` (which the model answers with the index of
 * the element found, so that the caller can update that element in place).
 */
module ArrayOps {
  import opened Wrappers

  /** `s.filter(p)`: the elements of `s` that satisfy `p`, in the order of `s`. */
  function Filter<T>(s: seq<T>, p: T -> bool): (r: seq<T>)
    ensures |r| <= |s|
    ensures forall i :: 0 <= i < |r| ==> p(r[i]) && r[i] in s
    ensures forall j :: 0 <= j < |s| && p(s[j]) ==> s[j] in r
  {
    if s == [] then []
    else if p(s[0]) then [s[0]] + Filter(s[1..], p)
    else Filter(s[1..], p)
  }

  /** `r` holds the elements of `s` at the positions `idx`. */
  ghost predicate PicksAt<T>(s: seq<T>, r: seq<T>, idx: seq<nat>)
  {
    |idx| == |r| && forall k :: 0 <= k < |idx| ==> idx[k] < |s| && r[k] == s[idx[k]]
  }

  ghost predicate Increasing(idx: seq<nat>)
  {
    forall k, l :: 0 <= k < l < |idx| ==> idx[k] < idx[l]
  }

  /** `idx` holds exactly the positions of `s` whose element satisfies `p`. */
  ghost predicate PositionsOf<T>(s: seq<T>, p: T -> bool, idx: seq<nat>)
  {
    forall j :: 0 <= j < |s| ==> (p(s[j]) <==> j in idx)
  }

  /**
   * `idx` lists, in increasing order, exactly the positions of `s` whose
   * element satisfies `p`, and `r` holds the elements at those positions.
   * This is "the subsequence of `s` of the elements satisfying `p`", stated
   * without recursion.
   */
  ghost predicate SelectsExactly<T>(s: seq<T>, p: T -> bool, r: seq<T>, idx: seq<nat>)
  {
    PicksAt(s, r, idx) && Increasing(idx) && PositionsOf(s, p, idx)
  }

  /** Every position moved one place to the right. */
  function Shift(idx: seq<nat>): seq<nat>
  {
    seq(|idx|, k requires 0 <= k < |idx| => idx[k] + 1)
  }

  /** The positions of `s` that `Filter` keeps. */
  ghost function FilterPositions<T>(s: seq<T>, p: T -> bool): (idx: seq<nat>)
  {
    if s == [] then []
    else if p(s[0]) then [0] + Shift(FilterPositions(s[1..], p))
    else Shift(FilterPositions(s[1..], p))
  }

  lemma {:induction false} PicksAtCons<T>(s: seq<T>, keep: bool, rt: seq<T>, rest: seq<nat>)
    requires s != [] && PicksAt(s[1..], rt, rest)
    ensures PicksAt(s, (if keep then [s[0]] else []) + rt, (if keep then [0] else []) + Shift(rest))
  {
  }

  lemma {:induction false} IncreasingCons(keep: bool, rest: seq<nat>)
    requires Increasing(rest)
    ensures Increasing((if keep then [0] else []) + Shift(rest))
  {
  }

  lemma {:induction false} PositionsOfCons<T>(s: seq<T>, p: T -> bool, rest: seq<nat>)
    requires s != [] && PositionsOf(s[1..], p, rest)
    ensures PositionsOf(s, p, (if p(s[0]) then [0] else []) + Shift(rest))
  {
    var sh := Shift(rest);
    var idx := (if p(s[0]) then [0] else []) + sh;
    var d := if p(s[0]) then 1 else 0;
    assert 0 !in sh;
    forall j | 1 <= j < |s|
      ensures p(s[j]) <==> j in idx
    {
      assert s[j] == s[1..][j - 1];
      if j in idx {
        var k :| 0 <= k < |idx| && idx[k] == j;
        assert rest[k - d] == j - 1;
      }
      if j - 1 in rest {
        var k :| 0 <= k < |rest| && rest[k] == j - 1;
        assert idx[k + d] == j;
      }
    }
  }

  /** `Filter` keeps exactly the elements satisfying `p`, in their original order. */
  lemma {:induction false} FilterSelectsExactly<T>(s: seq<T>, p: T -> bool)
    ensures SelectsExactly(s, p, Filter(s, p), FilterPositions(s, p))
  {
    if s != [] {
      FilterSelectsExactly(s[1..], p);
      PicksAtCons(s, p(s[0]), Filter(s[1..], p), FilterPositions(s[1..], p));
      IncreasingCons(p(s[0]), FilterPositions(s[1..], p));
      PositionsOfCons(s, p, FilterPositions(s[1..], p));
    }
  }

  /** Filtering a concatenation filters each part: the relative order is kept. */
  lemma {:induction false} FilterAppend<T>(a: seq<T>, b: seq<T>, p: T -> bool)
    ensures Filter(a + b, p) == Filter(a, p) + Filter(b, p)
  {
    if a != [] {
      assert (a + b)[1..] == a[1..] + b;
      FilterAppend(a[1..], b, p);
    } else {
      assert a + b == b;
    }
  }

  /** Filtering with a predicate every element satisfies returns the sequence itself. */
  lemma {:induction false} FilterKeepsAll<T>(s: seq<T>, p: T -> bool)
    requires forall i :: 0 <= i < |s| ==> p(s[i])
    ensures Filter(s, p) == s
  {
    if s != [] {
      FilterKeepsAll(s[1..], p);
    }
  }

  /** Predicates that agree on the elements of `s` filter it alike. */
  lemma {:induction false} FilterCongruent<T>(s: seq<T>, p: T -> bool, q: T -> bool)
    requires forall i :: 0 <= i < |s| ==> p(s[i]) == q(s[i])
    ensures Filter(s, p) == Filter(s, q)
  {
    if s != [] {
      FilterCongruent(s[1..], p, q);
    }
  }

  /** Each element occurs in the result as often as in `s` if it satisfies `p`, else never. */
  lemma {:induction false} FilterMultiplicity<T>(s: seq<T>, p: T -> bool, x: T)
    ensures multiset(Filter(s, p))[x] == if p(x) then multiset(s)[x] else 0
  {
    if s != [] {
      FilterMultiplicity(s[1..], p, x);
      assert s == [s[0]] + s[1..];
    }
  }

  /**
   * `s.findIndex(p)`, the position of the element `s.find(p)` returns:
   * the first position whose element satisfies `p`, or `None` when there is none.
   */
  function FindIndex<T>(s: seq<T>, p: T -> bool): (r: Option<nat>)
    ensures r.None? <==> forall i :: 0 <= i < |s| ==> !p(s[i])
    ensures r.Some? ==> r.value < |s| && p(s[r.value])
    ensures r.Some? ==> forall j :: 0 <= j < r.value ==> !p(s[j])
  {
    if s == [] then None
    else if p(s[0]) then Some(0)
    else match FindIndex(s[1..], p)
      case None => None
      case Some(i) => Some(i + 1)
  }

  /** `FindIndex` looks only at whether each position satisfies its predicate. */
  lemma {:induction false} FindIndexCongruent<T>(s: seq<T>, t: seq<T>, p: T -> bool, q: T -> bool)
    requires |s| == |t|
    requires forall i :: 0 <= i < |s| ==> p(s[i]) == q(t[i])
    ensures FindIndex(s, p) == FindIndex(t, q)
  {
    if s != [] {
      FindIndexCongruent(s[1..], t[1..], p, q);
    }
  }
}
