/** Order-preserving selection from a sequence: a Python list comprehension
    `[x for x in xs if p(x)]`. */
module Sequences {

  function Filter<T(==,!new)>(xs: seq<T>, p: T -> bool): (r: seq<T>)
    ensures |r| <= |xs|
    ensures forall x :: x in r <==> x in xs && p(x)
  {
    if |xs| == 0 then []
    else (if p(xs[0]) then [xs[0]] else []) + Filter(xs[1..], p)
  }

  /** Filtering a concatenation filters each part and keeps them in order:
      the selected elements appear in the order of `xs`. */
  lemma {:induction false} FilterConcat<T(!new)>(xs: seq<T>, ys: seq<T>, p: T -> bool)
    ensures Filter(xs + ys, p) == Filter(xs, p) + Filter(ys, p)
  {
    if |xs| == 0 {
      assert xs + ys == ys;
    } else {
      assert (xs + ys)[1..] == xs[1..] + ys;
      FilterConcat(xs[1..], ys, p);
    }
  }

  /** Nothing is selected exactly when no element satisfies `p`. */
  lemma {:induction false} FilterNone<T(!new)>(xs: seq<T>, p: T -> bool)
    ensures Filter(xs, p) == [] <==> forall i | 0 <= i < |xs| :: !p(xs[i])
  {
    if |xs| > 0 {
      FilterNone(xs[1..], p);
      if p(xs[0]) {
        assert xs[0] in Filter(xs, p);
      }
    }
  }

  /** Removing the last element of `xs + [x]` by position gives `xs` back. */
  lemma RemoveAppended<T>(xs: seq<T>, x: T)
    ensures (xs + [x])[..|xs|] + (xs + [x])[|xs| + 1..] == xs
  {
    assert (xs + [x])[..|xs|] == xs;
  }
}
