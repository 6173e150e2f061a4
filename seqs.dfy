/** The order-preserving filter that every "checked" slice in the validator builds
    with an append loop, and the facts about it that the model relies on. */
module Seqs {

  /** The elements of `s` that satisfy `p`, in their order in `s`. Defined from the
      back, the way an append loop extends its result one element at a time. */
  function Filter<T(!new)>(s: seq<T>, p: T -> bool): (r: seq<T>)
    ensures |r| <= |s|
    decreases |s|
  {
    if s == [] then []
    else
      var init, last := s[..|s| - 1], s[|s| - 1];
      assert s == init + [last];
      Filter(init, p) + (if p(last) then [last] else [])
  }

  /** One more element at the end of the input adds at most that element at the end. */
  lemma FilterSnoc<T(!new)>(s: seq<T>, x: T, p: T -> bool)
    ensures Filter(s + [x], p) == Filter(s, p) + (if p(x) then [x] else [])
  {
    assert (s + [x])[..|s|] == s;
  }

  /** Filtering distributes over concatenation, so the result keeps the input order. */
  lemma {:induction false} FilterConcat<T(!new)>(a: seq<T>, b: seq<T>, p: T -> bool)
    ensures Filter(a + b, p) == Filter(a, p) + Filter(b, p)
    decreases |b|
  {
    if b == [] {
      assert a + b == a;
    } else {
      var init, last := b[..|b| - 1], b[|b| - 1];
      assert b == init + [last];
      var tail := if p(last) then [last] else [];
      assert a + b == (a + init) + [last];
      calc {
        Filter(a + b, p);
        { FilterSnoc(a + init, last, p); }
        Filter(a + init, p) + tail;
        { FilterConcat(a, init, p); }
        (Filter(a, p) + Filter(init, p)) + tail;
        Filter(a, p) + (Filter(init, p) + tail);
        { FilterSnoc(init, last, p); }
        Filter(a, p) + Filter(b, p);
      }
    }
  }

  /** A list whose every element passes is left as it is. */
  lemma {:induction false} FilterAllPass<T(!new)>(s: seq<T>, p: T -> bool)
    requires forall i :: 0 <= i < |s| ==> p(s[i])
    ensures Filter(s, p) == s
    decreases |s|
  {
    if s != [] {
      var init := s[..|s| - 1];
      assert s == init + [s[|s| - 1]];
      FilterAllPass(init, p);
    }
  }

  /** Filtering twice with the same predicate is filtering once. */
  lemma FilterIdempotent<T(!new)>(s: seq<T>, p: T -> bool)
    ensures Filter(Filter(s, p), p) == Filter(s, p)
  {
    var r := Filter(s, p);
    FilterMembers(s, p);
    assert forall i :: 0 <= i < |r| ==> r[i] in r;
    FilterAllPass(r, p);
  }

  /** An element is kept exactly when it occurs in the input and passes. */
  lemma {:induction false} FilterMembers<T(!new)>(s: seq<T>, p: T -> bool)
    ensures forall x :: x in Filter(s, p) <==> x in s && p(x)
    decreases |s|
  {
    if s != [] {
      var init, last := s[..|s| - 1], s[|s| - 1];
      assert s == init + [last];
      FilterMembers(init, p);
    }
  }

  /** Elements are kept one for one: a passing element occurs as often in the output as
      in the input, so duplicates are neither merged nor multiplied. */
  lemma {:induction false} FilterCounts<T(!new)>(s: seq<T>, p: T -> bool)
    ensures forall x :: multiset(Filter(s, p))[x] == if p(x) then multiset(s)[x] else 0
    decreases |s|
  {
    if s != [] {
      var init, last := s[..|s| - 1], s[|s| - 1];
      assert s == init + [last];
      FilterCounts(init, p);
    }
  }
}
