/** The order Go's sort.Strings puts strings in: lexicographic on the UTF-8 bytes. For
    strings of Unicode scalar values that is lexicographic on the characters' code
    points, which is what Less states; a proper prefix comes first. */
module StringOrder {

  predicate Less(a: string, b: string)
    decreases |a|
  {
    if |a| == 0 then |b| > 0
    else if |b| == 0 then false
    else if a[0] != b[0] then a[0] < b[0]
    else Less(a[1..], b[1..])
  }

  lemma {:induction false} LessIrreflexive(a: string)
    ensures !Less(a, a)
    decreases |a|
  {
    if |a| > 0 {
      LessIrreflexive(a[1..]);
    }
  }

  lemma {:induction false} LessTransitive(a: string, b: string, c: string)
    requires Less(a, b) && Less(b, c)
    ensures Less(a, c)
    decreases |a|
  {
    if |a| > 0 && a[0] == b[0] && b[0] == c[0] {
      LessTransitive(a[1..], b[1..], c[1..]);
    }
  }

  /** Two different strings are always ordered one way or the other. */
  lemma {:induction false} LessTotal(a: string, b: string)
    requires a != b
    ensures Less(a, b) || Less(b, a)
    decreases |a|
  {
    if |a| > 0 && |b| > 0 && a[0] == b[0] {
      assert a == [a[0]] + a[1..] && b == [b[0]] + b[1..];
      LessTotal(a[1..], b[1..]);
    }
  }

  lemma LessAsymmetric(a: string, b: string)
    ensures Less(a, b) ==> !Less(b, a)
  {
    if Less(a, b) && Less(b, a) {
      LessTransitive(a, b, a);
      LessIrreflexive(a);
    }
  }

  /** The first element of a strictly ascending sequence is below every other one. */
  lemma HeadIsLeast(s: seq<string>)
    requires StrictlySorted(s) && |s| > 0
    ensures forall x :: x in s && x != s[0] ==> Less(s[0], x)
  {
  }

  /** Ascending, equal neighbours allowed. */
  predicate Sorted(s: seq<string>)
  {
    forall i, j :: 0 <= i < j < |s| ==> !Less(s[j], s[i])
  }

  /** Ascending without repetitions. */
  predicate StrictlySorted(s: seq<string>)
  {
    forall i, j :: 0 <= i < j < |s| ==> Less(s[i], s[j])
  }

  /** A sorted sequence without repeated elements is strictly sorted. */
  lemma SortedDistinctIsStrict(s: seq<string>)
    requires Sorted(s)
    requires forall i, j :: 0 <= i < j < |s| ==> s[i] != s[j]
    ensures StrictlySorted(s)
  {
    forall i, j | 0 <= i < j < |s|
      ensures Less(s[i], s[j])
    {
      LessTotal(s[i], s[j]);
    }
  }

  lemma NonEmptyHasElement(t: seq<string>)
    ensures |t| > 0 ==> exists x :: x in t
  {
    if |t| > 0 {
      assert t[0] in t;
    }
  }

  /** A set of strings has exactly one strictly ascending listing. */
  lemma {:induction false} StrictlySortedUnique(s: seq<string>, t: seq<string>)
    requires StrictlySorted(s) && StrictlySorted(t)
    requires forall x :: x in s <==> x in t
    ensures s == t
    decreases |s|
  {
    if |s| == 0 {
      NonEmptyHasElement(t);
    } else {
      assert s[0] in t;
      assert t[0] in s;
      HeadIsLeast(s);
      HeadIsLeast(t);
      LessAsymmetric(s[0], t[0]);
      assert s[0] == t[0];
      LessIrreflexive(s[0]);
      forall x
        ensures x in s[1..] <==> x in t[1..]
      {
        if x in s[1..] {
          var k :| 1 <= k < |s| && s[k] == x;
          assert Less(s[0], x);
          assert s[k] in s;
          var m :| 0 <= m < |t| && t[m] == x;
          assert m != 0;
          assert t[1..][m - 1] == x;
        }
        if x in t[1..] {
          var k :| 1 <= k < |t| && t[k] == x;
          assert Less(t[0], x);
          assert t[k] in t;
          var m :| 0 <= m < |s| && s[m] == x;
          assert m != 0;
          assert s[1..][m - 1] == x;
        }
      }
      StrictlySortedUnique(s[1..], t[1..]);
      assert s == [s[0]] + s[1..] && t == [t[0]] + t[1..];
    }
  }

  /** Insertion of one string into a sorted sequence, before the first element that
      is not smaller. */
  method InsertSorted(sorted: seq<string>, x: string) returns (r: seq<string>)
    requires Sorted(sorted)
    ensures Sorted(r)
    ensures multiset(r) == multiset(sorted) + multiset{x}
  {
    var i := 0;
    while i < |sorted| && Less(sorted[i], x)
      invariant 0 <= i <= |sorted|
      invariant forall j :: 0 <= j < i ==> Less(sorted[j], x)
    {
      i := i + 1;
    }
    r := sorted[..i] + [x] + sorted[i..];
    assert sorted == sorted[..i] + sorted[i..];
    forall j, k | 0 <= j < k < |r|
      ensures !Less(r[k], r[j])
    {
      if k == i {
        LessAsymmetric(r[j], x);
      } else if j == i {
        // r[k] == sorted[k - 1] and sorted[i] is not smaller than x
        if Less(r[k], x) {
          if k - 1 == i {
          } else {
            assert !Less(sorted[k - 1], sorted[i]);
            LessTotal(sorted[i], x);
            if Less(x, sorted[i]) {
              LessTransitive(r[k], x, sorted[i]);
            }
          }
        }
      }
    }
  }

  /** sort.Strings: the same strings, ascending. */
  method SortStrings(xs: seq<string>) returns (sorted: seq<string>)
    ensures Sorted(sorted)
    ensures multiset(sorted) == multiset(xs)
  {
    sorted := [];
    for i := 0 to |xs|
      invariant Sorted(sorted)
      invariant multiset(sorted) == multiset(xs[..i])
    {
      sorted := InsertSorted(sorted, xs[i]);
      assert xs[..i + 1] == xs[..i] + [xs[i]];
    }
    assert xs[..|xs|] == xs;
  }
}
