/** The order strings are sorted in, and why sorting forgets where a list came from. */
module Sorting {
  /** Lexicographic order by code point, which is byte order of the encodings. */
  predicate Le(a: string, b: string) {
    a == [] || (b != [] && (a[0] < b[0] || (a[0] == b[0] && Le(a[1..], b[1..]))))
  }

  /** A prefix comes first; otherwise the first character that differs decides. */
  ghost predicate Precedes(a: string, b: string) {
    a <= b || exists k: nat :: FirstSmaller(a, b, k)
  }

  predicate FirstSmaller(a: string, b: string, k: nat) {
    k < |a| && k < |b| && (forall i | 0 <= i < k :: a[i] == b[i]) && a[k] < b[k]
  }

  lemma {:induction false} LeIsCodePointOrder(a: string, b: string)
    ensures Le(a, b) <==> Precedes(a, b)
  {
    if a != [] && b != [] {
      if a[0] == b[0] {
        LeIsCodePointOrder(a[1..], b[1..]);
        PrefixOfTails(a, b);
        if k: nat :| FirstSmaller(a, b, k) {
          assert FirstSmaller(a[1..], b[1..], k - 1);
        }
        if k: nat :| FirstSmaller(a[1..], b[1..], k) {
          SmallerInTails(a, b, k);
        }
      } else if a[0] < b[0] {
        assert FirstSmaller(a, b, 0);
      }
    }
  }

  lemma PrefixOfTails(a: string, b: string)
    requires a != [] && b != [] && a[0] == b[0]
    ensures a <= b <==> a[1..] <= b[1..]
  {
    assert a == [a[0]] + a[1..] && b == [b[0]] + b[1..];
  }

  lemma SmallerInTails(a: string, b: string, k: nat)
    requires a != [] && b != [] && a[0] == b[0] && FirstSmaller(a[1..], b[1..], k)
    ensures FirstSmaller(a, b, k + 1)
  {
    forall i | 0 <= i < k + 1
      ensures a[i] == b[i]
    {
      if i > 0 {
        assert a[1..][i - 1] == b[1..][i - 1];
      }
    }
  }

  lemma {:induction false} LeIsTotal(a: string, b: string)
    ensures Le(a, b) || Le(b, a)
  {
    if a != [] && b != [] && a[0] == b[0] {
      LeIsTotal(a[1..], b[1..]);
    }
  }

  lemma {:induction false} LeIsAntisymmetric(a: string, b: string)
    requires Le(a, b) && Le(b, a)
    ensures a == b
  {
    if a != [] {
      LeIsAntisymmetric(a[1..], b[1..]);
      assert a == [a[0]] + a[1..] && b == [b[0]] + b[1..];
    }
  }

  lemma {:induction false} LeIsTransitive(a: string, b: string, c: string)
    requires Le(a, b) && Le(b, c)
    ensures Le(a, c)
  {
    if a != [] && a[0] == b[0] == c[0] {
      LeIsTransitive(a[1..], b[1..], c[1..]);
    }
  }

  ghost predicate Sorted(xs: seq<string>) {
    forall i, j | 0 <= i < j < |xs| :: Le(xs[i], xs[j])
  }

  function Insert(x: string, xs: seq<string>): (r: seq<string>)
    ensures multiset(r) == multiset([x]) + multiset(xs)
    ensures Sorted(xs) ==> Sorted(r)
  {
    if xs == [] then [x]
    else if Le(x, xs[0]) then
      assert Sorted(xs) ==> forall j | 0 <= j < |xs| :: Le(x, xs[j]) by {
        BelowSorted(x, xs);
      }
      [x] + xs
    else
      assert xs == [xs[0]] + xs[1..];
      var tail := Insert(x, xs[1..]);
      assert Sorted(xs) ==> forall j | 0 <= j < |tail| :: Le(xs[0], tail[j]) by {
        LeIsTotal(x, xs[0]);
        InsertedStaysAbove(x, xs, tail);
      }
      [xs[0]] + tail
  }

  lemma BelowSorted(x: string, xs: seq<string>)
    requires xs != [] && Le(x, xs[0])
    ensures Sorted(xs) ==> forall j | 0 <= j < |xs| :: Le(x, xs[j])
  {
    if Sorted(xs) {
      forall j | 0 <= j < |xs|
        ensures Le(x, xs[j])
      {
        if j > 0 {
          LeIsTransitive(x, xs[0], xs[j]);
        }
      }
    }
  }

  lemma InsertedStaysAbove(x: string, xs: seq<string>, tail: seq<string>)
    requires xs != [] && Le(xs[0], x) && multiset(tail) == multiset([x]) + multiset(xs[1..])
    ensures Sorted(xs) ==> forall j | 0 <= j < |tail| :: Le(xs[0], tail[j])
  {
    forall j | 0 <= j < |tail|
      ensures Sorted(xs) ==> Le(xs[0], tail[j])
    {
      assert tail[j] in multiset(tail);
      if tail[j] != x {
        assert tail[j] in xs[1..];
      }
    }
  }

  /** What a library sort returns: the only sorted arrangement of its input. */
  function Sort(xs: seq<string>): (r: seq<string>)
    ensures multiset(r) == multiset(xs) && Sorted(r)
  {
    if xs == [] then []
    else
      assert xs == [xs[0]] + xs[1..];
      Insert(xs[0], Sort(xs[1..]))
  }

  /** A sorted list holds the elements it was made from, each before those it precedes. */
  lemma SortPutsInOrder(xs: seq<string>)
    ensures |Sort(xs)| == |xs| && forall x :: x in Sort(xs) <==> x in xs
    ensures forall i, j | 0 <= i < j < |xs| :: Precedes(Sort(xs)[i], Sort(xs)[j])
  {
    var r := Sort(xs);
    assert |multiset(r)| == |r| && |multiset(xs)| == |xs|;
    forall x
      ensures x in r <==> x in xs
    {
      assert x in multiset(r) <==> x in multiset(xs);
    }
    forall i, j | 0 <= i < j < |xs|
      ensures Precedes(r[i], r[j])
    {
      LeIsCodePointOrder(r[i], r[j]);
    }
  }

  lemma HeadIsLeast(a: seq<string>, x: string)
    requires Sorted(a) && x in a
    ensures Le(a[0], x)
  {
    LeIsTotal(x, x);
  }

  lemma SameMembers(a: seq<string>, b: seq<string>, x: string)
    requires multiset(a) == multiset(b) && x in a
    ensures x in b
  {
    assert x in multiset(a);
  }

  lemma TailMultiset(a: seq<string>)
    requires a != []
    ensures multiset(a[1..]) == multiset(a) - multiset([a[0]])
  {
    assert a == [a[0]] + a[1..];
  }

  lemma {:induction false} SortedIsUnique(a: seq<string>, b: seq<string>)
    requires Sorted(a) && Sorted(b) && multiset(a) == multiset(b)
    ensures a == b
  {
    assert |multiset(a)| == |multiset(b)| && |a| == |b|;
    if a != [] {
      assert a[0] == b[0] by {
        SameMembers(a, b, a[0]);
        SameMembers(b, a, b[0]);
        HeadIsLeast(a, b[0]);
        HeadIsLeast(b, a[0]);
        LeIsAntisymmetric(a[0], b[0]);
      }
      TailMultiset(a);
      TailMultiset(b);
      SortedIsUnique(a[1..], b[1..]);
      assert a == [a[0]] + a[1..] && b == [b[0]] + b[1..];
    }
  }

  /** Sorting depends on the elements only, not on the order they came in. */
  lemma SortIgnoresOrder(a: seq<string>, b: seq<string>)
    requires multiset(a) == multiset(b)
    ensures Sort(a) == Sort(b)
  {
    SortedIsUnique(Sort(a), Sort(b));
  }
}
