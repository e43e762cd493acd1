/**
 * Maximal runs of a sequence: the non-empty stretches whose elements all satisfy
 * `inRun`, in order. Both the word tokenizer (runs of letters) and the `strtok`
 * splitting of PATH (runs of non-':' characters) are instances of this one concept.
 */
module MaximalRuns {

  /** Length of the longest prefix of `s` whose elements satisfy `inRun`. */
  function LeadingRun<T>(s: seq<T>, inRun: T -> bool): (k: nat)
    ensures k <= |s|
    ensures forall i :: 0 <= i < k ==> inRun(s[i])
    ensures k == |s| || !inRun(s[k])
  {
    if s == [] || !inRun(s[0]) then 0 else 1 + LeadingRun(s[1..], inRun)
  }

  /** The maximal runs of `s`, left to right. */
  function Runs<T>(s: seq<T>, inRun: T -> bool): seq<seq<T>>
    decreases |s|
  {
    if s == [] then []
    else if !inRun(s[0]) then Runs(s[1..], inRun)
    else
      var k := LeadingRun(s, inRun);
      [s[..k]] + Runs(s[k..], inRun)
  }

  predicate AllIn<T>(s: seq<T>, inRun: T -> bool) {
    forall i :: 0 <= i < |s| ==> inRun(s[i])
  }

  /** `s` is empty or ends with an element that closes any run. */
  predicate EndsOutside<T>(s: seq<T>, inRun: T -> bool) {
    s == [] || !inRun(s[|s| - 1])
  }

  /** Every run is non-empty and lies entirely inside the run class. */
  lemma {:induction false} RunsAreRuns<T>(s: seq<T>, inRun: T -> bool)
    ensures forall j :: 0 <= j < |Runs(s, inRun)| ==>
      |Runs(s, inRun)[j]| > 0 && AllIn(Runs(s, inRun)[j], inRun)
    decreases |s|
  {
    if s == [] {
    } else if !inRun(s[0]) {
      RunsAreRuns(s[1..], inRun);
    } else {
      var k := LeadingRun(s, inRun);
      RunsAreRuns(s[k..], inRun);
    }
  }

  /** The leading run of `p + q` stays inside `p` when `p` contains a closing element. */
  lemma {:induction false} LeadingRunAppend<T>(p: seq<T>, q: seq<T>, inRun: T -> bool)
    requires p != [] && !inRun(p[|p| - 1])
    ensures LeadingRun(p + q, inRun) == LeadingRun(p, inRun) < |p|
    decreases |p|
  {
    if !inRun(p[0]) {
    } else {
      assert (p + q)[1..] == p[1..] + q;
      LeadingRunAppend(p[1..], q, inRun);
    }
  }

  /** Runs distribute over concatenation at a point that is outside every run. */
  lemma {:induction false} RunsAppend<T>(p: seq<T>, q: seq<T>, inRun: T -> bool)
    requires EndsOutside(p, inRun)
    ensures Runs(p + q, inRun) == Runs(p, inRun) + Runs(q, inRun)
    decreases |p|
  {
    if p == [] {
      assert p + q == q;
    } else if !inRun(p[0]) {
      assert (p + q)[1..] == p[1..] + q;
      RunsAppend(p[1..], q, inRun);
    } else {
      var k := LeadingRun(p, inRun);
      LeadingRunAppend(p, q, inRun);
      assert (p + q)[..k] == p[..k];
      assert (p + q)[k..] == p[k..] + q;
      RunsAppend(p[k..], q, inRun);
    }
  }

  /** The leading run of an in-class stretch followed by a closing element (or nothing). */
  lemma {:induction false} LeadingRunThen<T>(r: seq<T>, rest: seq<T>, inRun: T -> bool)
    requires AllIn(r, inRun)
    requires rest == [] || !inRun(rest[0])
    ensures LeadingRun(r + rest, inRun) == |r|
    decreases |r|
  {
    if r == [] {
      assert r + rest == rest;
    } else {
      assert (r + rest)[1..] == r[1..] + rest;
      LeadingRunThen(r[1..], rest, inRun);
    }
  }

  /** A non-empty stretch inside the run class, followed by a closing element or by
      nothing, yields exactly that stretch as its one run. */
  lemma RunsOfRunThen<T>(r: seq<T>, rest: seq<T>, inRun: T -> bool)
    requires AllIn(r, inRun)
    requires rest == [] || (|rest| == 1 && !inRun(rest[0]))
    ensures Runs(r + rest, inRun) == if r == [] then [] else [r]
  {
    if r == [] {
      assert r + rest == rest;
      if rest != [] {
        assert rest[1..] == [];
      }
    } else {
      LeadingRunThen(r, rest, inRun);
      assert (r + rest)[..|r|] == r;
      assert (r + rest)[|r|..] == rest;
      if rest != [] {
        assert rest[1..] == [];
      }
    }
  }

  /** The pieces joined with a separator that is outside the run class. */
  function JoinWith<T>(xs: seq<seq<T>>, sep: T): seq<T> {
    if xs == [] then []
    else if |xs| == 1 then xs[0]
    else xs[0] + [sep] + JoinWith(xs[1..], sep)
  }

  /** Splitting into runs undoes joining non-empty in-class pieces with a separator. */
  lemma {:induction false} RunsOfJoin<T>(xs: seq<seq<T>>, sep: T, inRun: T -> bool)
    requires !inRun(sep)
    requires forall j :: 0 <= j < |xs| ==> xs[j] != [] && AllIn(xs[j], inRun)
    ensures Runs(JoinWith(xs, sep), inRun) == xs
    decreases |xs|
  {
    if xs == [] {
    } else if |xs| == 1 {
      RunsOfRunThen(xs[0], [], inRun);
      assert xs[0] + [] == xs[0];
    } else {
      var head := xs[0] + [sep];
      RunsOfRunThen(xs[0], [sep], inRun);
      RunsAppend(head, JoinWith(xs[1..], sep), inRun);
      RunsOfJoin(xs[1..], sep, inRun);
      assert JoinWith(xs, sep) == head + JoinWith(xs[1..], sep);
      assert xs == [xs[0]] + xs[1..];
    }
  }
}
