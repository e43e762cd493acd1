/**
 * Linear search and sums over a list, shared by the two word-count lists: the
 * `find_word` walks return the first entry a predicate accepts, and the counts a
 * list records are sums over its entries.
 */
module Tally {
  import opened Wrappers

  /** The first index from `i` on whose element `p` accepts; None when there is
      none (the NULL a list walk returns at the end). */
  function FindFrom<T>(l: seq<T>, p: T -> bool, i: nat): (r: Option<nat>)
    requires i <= |l|
    ensures r.Some? ==> i <= r.value < |l| && p(l[r.value])
    ensures r.Some? ==> forall j :: i <= j < r.value ==> !p(l[j])
    ensures r.None? ==> forall j :: i <= j < |l| ==> !p(l[j])
    decreases |l| - i
  {
    if i == |l| then None
    else if p(l[i]) then Some(i)
    else FindFrom(l, p, i + 1)
  }

  /** The sum of `f` over the elements. */
  function Sum<T>(l: seq<T>, f: T -> int): int {
    if l == [] then 0 else f(l[0]) + Sum(l[1..], f)
  }

  lemma {:induction false} SumAppend<T>(a: seq<T>, b: seq<T>, f: T -> int)
    ensures Sum(a + b, f) == Sum(a, f) + Sum(b, f)
    decreases |a|
  {
    if a == [] {
      assert a + b == b;
    } else {
      assert (a + b)[1..] == a[1..] + b;
      SumAppend(a[1..], b, f);
    }
  }

  lemma SumOne<T>(x: T, f: T -> int)
    ensures Sum([x], f) == f(x)
  {
    assert [x][1..] == [];
  }

  /** Replacing one element changes the sum by the difference of the two. */
  lemma SumUpdate<T>(l: seq<T>, i: nat, x: T, f: T -> int)
    requires i < |l|
    ensures Sum(l[i := x], f) == Sum(l, f) - f(l[i]) + f(x)
  {
    assert l == l[..i] + [l[i]] + l[i + 1..];
    assert l[i := x] == l[..i] + [x] + l[i + 1..];
    SumAppend(l[..i] + [l[i]], l[i + 1..], f);
    SumAppend(l[..i], [l[i]], f);
    SumAppend(l[..i] + [x], l[i + 1..], f);
    SumAppend(l[..i], [x], f);
    SumOne(l[i], f);
    SumOne(x, f);
  }

  /** Inserting an element before index `i` adds its value to the sum. */
  lemma SumInsert<T>(l: seq<T>, i: nat, x: T, f: T -> int)
    requires i <= |l|
    ensures Sum(l[..i] + [x] + l[i..], f) == Sum(l, f) + f(x)
  {
    assert l == l[..i] + l[i..];
    SumAppend(l[..i], l[i..], f);
    SumAppend(l[..i] + [x], l[i..], f);
    SumAppend(l[..i], [x], f);
    SumOne(x, f);
  }
}
