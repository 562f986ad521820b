/**
 Models of the two JavaScript array methods the components rely on:
 `Array.prototype.find` (first element satisfying a predicate, or `undefined`)
 and `Array.prototype.filter` (order-preserving selection).
 */
module Seqs {
  import opened Wrappers

  /** No element occurs twice. */
  predicate Distinct<T(==)>(xs: seq<T>) {
    forall i, j :: 0 <= i < j < |xs| ==> xs[i] != xs[j]
  }

  /** `xs.map(f)`. */
  function Map<T, U>(xs: seq<T>, f: T -> U): (r: seq<U>)
    ensures |r| == |xs|
    ensures forall i :: 0 <= i < |xs| ==> r[i] == f(xs[i])
  {
    seq(|xs|, i requires 0 <= i < |xs| => f(xs[i]))
  }

  /** `xs.find(p)`: the first element of `xs` satisfying `p`, or `None`. */
  function Find<T>(xs: seq<T>, p: T -> bool): (r: Option<T>)
    ensures r.None? <==> forall i :: 0 <= i < |xs| ==> !p(xs[i])
    ensures r.Some? ==> exists i :: 0 <= i < |xs| && xs[i] == r.value && p(xs[i])
                                    && forall j :: 0 <= j < i ==> !p(xs[j])
  {
    FindFrom(xs, p, 0)
  }

  /** The scan behind `Find`, starting at position `k`. */
  function FindFrom<T>(xs: seq<T>, p: T -> bool, k: nat): (r: Option<T>)
    requires k <= |xs|
    ensures r.None? <==> forall i :: k <= i < |xs| ==> !p(xs[i])
    ensures r.Some? ==> exists i :: k <= i < |xs| && xs[i] == r.value && p(xs[i])
                                    && forall j :: k <= j < i ==> !p(xs[j])
    decreases |xs| - k
  {
    if k == |xs| then None
    else if p(xs[k]) then Some(xs[k])
    else FindFrom(xs, p, k + 1)
  }

  /** `xs.filter(p)`: the elements of `xs` satisfying `p`, in their original order. */
  function Filter<T>(xs: seq<T>, p: T -> bool): (r: seq<T>)
    ensures |r| <= |xs|
  {
    if |xs| == 0 then []
    else
      var rest := Filter(xs[1..], p);
      if p(xs[0]) then [xs[0]] + rest else rest
  }

  /** One step of `filter`: the head is kept when it satisfies the predicate. */
  lemma FilterCons<T>(xs: seq<T>, p: T -> bool)
    requires |xs| > 0
    ensures Filter(xs, p) == (if p(xs[0]) then [xs[0]] else []) + Filter(xs[1..], p)
  {
  }

  /** The filtered sequence holds exactly the elements that satisfy the predicate. */
  lemma {:induction false} FilterMembers<T>(xs: seq<T>, p: T -> bool)
    ensures forall x :: x in Filter(xs, p) <==> x in xs && p(x)
  {
    if |xs| > 0 {
      FilterMembers(xs[1..], p);
      assert xs == [xs[0]] + xs[1..];
    }
  }

  /** Filtering distributes over concatenation: the relative order of kept elements is preserved. */
  lemma {:induction false} FilterAppend<T>(a: seq<T>, b: seq<T>, p: T -> bool)
    ensures Filter(a + b, p) == Filter(a, p) + Filter(b, p)
  {
    if |a| == 0 {
      assert a + b == b;
    } else {
      assert (a + b)[1..] == a[1..] + b;
      FilterAppend(a[1..], b, p);
    }
  }

  /** Filtering keeps exactly the multiplicity of every kept element and drops the others. */
  lemma {:induction false} FilterMultiset<T>(xs: seq<T>, p: T -> bool, x: T)
    ensures multiset(Filter(xs, p))[x] == if p(x) then multiset(xs)[x] else 0
  {
    if |xs| > 0 {
      assert xs == [xs[0]] + xs[1..];
      FilterMultiset(xs[1..], p, x);
    }
  }

  /** A filter that keeps every element is the identity. */
  lemma {:induction false} FilterAll<T>(xs: seq<T>, p: T -> bool)
    requires forall i :: 0 <= i < |xs| ==> p(xs[i])
    ensures Filter(xs, p) == xs
  {
    if |xs| > 0 {
      FilterAll(xs[1..], p);
    }
  }

  /** Filtering out the one rejected element between two kept runs joins the runs. */
  lemma {:induction false} FilterDropsOne<T>(pre: seq<T>, x: T, post: seq<T>, p: T -> bool)
    requires forall i :: 0 <= i < |pre| ==> p(pre[i])
    requires forall i :: 0 <= i < |post| ==> p(post[i])
    requires !p(x)
    ensures Filter(pre + [x] + post, p) == pre + post
  {
    var front := pre + [x];
    FilterAppend(front, post, p);
    FilterAppend(pre, [x], p);
    FilterAll(pre, p);
    FilterAll(post, p);
    assert [x][1..] == [];
    assert Filter([x], p) == [];
    assert Filter(front, p) == pre;
  }
}
