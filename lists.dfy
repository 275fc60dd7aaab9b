/** Sequence operations the dispatcher uses on its queue and its active list. */
module Lists {

  predicate NoDuplicates<T(==)>(xs: seq<T>) {
    forall i, j :: 0 <= i < j < |xs| ==> xs[i] != xs[j]
  }

  predicate Disjoint<T(==)>(a: seq<T>, b: seq<T>) {
    forall x :: x in a ==> x !in b
  }

  /**
   * Python's `list.remove(x)`: drops the first occurrence of `x`. Python raises
   * `ValueError` when `x` is absent; the dispatcher only removes snapshot items
   * that are still in `active`, so that case is never reached, and here it
   * leaves the list as it is.
   */
  function RemoveFirst<T(==)>(xs: seq<T>, x: T): (r: seq<T>)
    ensures x in xs ==> |r| == |xs| - 1
    ensures x !in xs ==> r == xs
    ensures forall y :: y in r ==> y in xs
    ensures forall y :: y in xs && y != x ==> y in r
  {
    if xs == [] then []
    else if xs[0] == x then xs[1..]
    else [xs[0]] + RemoveFirst(xs[1..], x)
  }

  /** First index of `x` in `xs`. */
  function IndexOf<T(==)>(xs: seq<T>, x: T): (i: nat)
    requires x in xs
    ensures i < |xs| && xs[i] == x && x !in xs[..i]
  {
    if xs[0] == x then 0 else 1 + IndexOf(xs[1..], x)
  }

  lemma {:induction false} IndexOfPrefix<T>(a: seq<T>, b: seq<T>, x: T)
    requires x in a
    ensures IndexOf(a + b, x) == IndexOf(a, x)
  {
    if a[0] != x {
      assert (a + b)[1..] == a[1..] + b;
      IndexOfPrefix(a[1..], b, x);
    }
  }

  /** `RemoveFirst` cuts out exactly the first occurrence: the prefix before it and the suffix after it are kept. */
  lemma {:induction false} RemoveFirstAt<T>(xs: seq<T>, x: T)
    ensures x in xs ==> RemoveFirst(xs, x) == xs[..IndexOf(xs, x)] + xs[IndexOf(xs, x) + 1..]
  {
    if xs != [] && x in xs && xs[0] != x {
      assert x in xs[1..];
      RemoveFirstAt(xs[1..], x);
      var j := IndexOf(xs[1..], x);
      var tail := xs[1..];
      assert IndexOf(xs, x) == j + 1;
      assert RemoveFirst(xs, x) == [xs[0]] + (tail[..j] + tail[j + 1..]);
      assert xs[..j + 1] == [xs[0]] + tail[..j];
      assert xs[j + 2..] == tail[j + 1..];
    }
  }

  /** The elements of `xs` outside `out`, in their order. */
  function Without<T(==)>(xs: seq<T>, out: set<T>): (r: seq<T>)
    ensures forall y :: y in r ==> y in xs && y !in out
    ensures forall y :: y in xs && y !in out ==> y in r
  {
    if xs == [] then []
    else (if xs[0] in out then [] else [xs[0]]) + Without(xs[1..], out)
  }

  lemma {:induction false} NoDuplicatesTail<T>(xs: seq<T>)
    requires xs != [] && NoDuplicates(xs)
    ensures NoDuplicates(xs[1..]) && xs[0] !in xs[1..]
  {
  }

  lemma NoDuplicatesAppend<T>(xs: seq<T>, x: T)
    requires NoDuplicates(xs) && x !in xs
    ensures NoDuplicates(xs + [x])
  {
  }

  /** Removing a value that occurs once is removing it everywhere. */
  lemma {:induction false} RemoveFirstIsWithout<T>(xs: seq<T>, x: T)
    requires NoDuplicates(xs)
    ensures RemoveFirst(xs, x) == Without(xs, {x})
  {
    if xs != [] {
      NoDuplicatesTail(xs);
      RemoveFirstIsWithout(xs[1..], x);
      if xs[0] == x {
        assert Without(xs[1..], {x}) == xs[1..] by { WithoutNothing(xs[1..], {x}); }
      }
    }
  }

  lemma {:induction false} WithoutNothing<T>(xs: seq<T>, out: set<T>)
    requires forall y :: y in xs ==> y !in out
    ensures Without(xs, out) == xs
  {
    if xs != [] {
      WithoutNothing(xs[1..], out);
    }
  }

  lemma {:induction false} WithoutConcat<T>(a: seq<T>, b: seq<T>, out: set<T>)
    ensures Without(a + b, out) == Without(a, out) + Without(b, out)
  {
    if a == [] {
      assert a + b == b;
    } else {
      assert (a + b)[1..] == a[1..] + b;
      WithoutConcat(a[1..], b, out);
    }
  }

  lemma {:induction false} WithoutTwice<T>(xs: seq<T>, a: set<T>, b: set<T>)
    ensures Without(Without(xs, a), b) == Without(xs, a + b)
  {
    if xs != [] {
      WithoutTwice(xs[1..], a, b);
      var head := if xs[0] in a then [] else [xs[0]];
      WithoutConcat(head, Without(xs[1..], a), b);
      if xs[0] !in a {
        assert Without(head, b) == (if xs[0] in b then [] else [xs[0]]) by {
          assert head[1..] == [];
        }
      }
    }
  }

  /** `a` is `b` with some elements left out, in the order of `b`. */
  predicate IsSubsequence<T(==)>(a: seq<T>, b: seq<T>)
    decreases |b|
  {
    a == [] || (b != [] && if a[0] == b[0] then IsSubsequence(a[1..], b[1..]) else IsSubsequence(a, b[1..]))
  }

  lemma {:induction false} SubsequenceCons<T>(a: seq<T>, b: seq<T>, x: T)
    requires IsSubsequence(a, b)
    ensures IsSubsequence(a, [x] + b)
    decreases |b|, 1
  {
    assert ([x] + b)[1..] == b;
    if a != [] && a[0] == x {
      SubsequenceDropHead(a, b);
    }
  }

  lemma {:induction false} SubsequenceDropHead<T>(a: seq<T>, b: seq<T>)
    requires a != [] && IsSubsequence(a, b)
    ensures IsSubsequence(a[1..], b)
    decreases |b|, 0
  {
    if a[0] == b[0] {
      SubsequenceCons(a[1..], b[1..], b[0]);
    } else {
      SubsequenceDropHead(a, b[1..]);
      SubsequenceCons(a[1..], b[1..], b[0]);
    }
    assert [b[0]] + b[1..] == b;
  }

  /** `Without` keeps the order of `xs`. */
  lemma {:induction false} WithoutOrdered<T>(xs: seq<T>, out: set<T>)
    ensures IsSubsequence(Without(xs, out), xs)
  {
    if xs != [] {
      var t := Without(xs[1..], out);
      WithoutOrdered(xs[1..], out);
      if xs[0] in out {
        assert Without(xs, out) == t;
        SubsequenceCons(t, xs[1..], xs[0]);
        assert [xs[0]] + xs[1..] == xs;
      } else {
        assert Without(xs, out) == [xs[0]] + t;
      }
    }
  }

  lemma {:induction false} WithoutKeepsNoDuplicates<T>(xs: seq<T>, out: set<T>)
    requires NoDuplicates(xs)
    ensures NoDuplicates(Without(xs, out))
  {
    if xs != [] {
      NoDuplicatesTail(xs);
      WithoutKeepsNoDuplicates(xs[1..], out);
    }
  }

  lemma {:induction false} RemoveFirstKeepsNoDuplicates<T>(xs: seq<T>, x: T)
    requires NoDuplicates(xs)
    ensures NoDuplicates(RemoveFirst(xs, x))
  {
    RemoveFirstIsWithout(xs, x);
    WithoutKeepsNoDuplicates(xs, {x});
  }

  /** Removing one occurrence of a unique value, then a set, is removing both at once. */
  lemma WithoutAfterRemove<T>(xs: seq<T>, x: T, out: set<T>)
    requires NoDuplicates(xs)
    ensures Without(RemoveFirst(xs, x), out) == Without(xs, {x} + out)
  {
    RemoveFirstIsWithout(xs, x);
    WithoutTwice(xs, {x}, out);
  }

  /** An appended value outside the removed set survives at the end. */
  lemma WithoutAppendKept<T>(xs: seq<T>, h: T, out: set<T>)
    requires h !in out
    ensures Without(xs + [h], out) == Without(xs, out) + [h]
  {
    WithoutConcat(xs, [h], out);
    assert Without([h], out) == [h] by {
      assert [h][1..] == [];
    }
  }

  /** Taking the head, then `k` more, is taking `k + 1`. */
  lemma PrefixStep<T>(xs: seq<T>, k: nat)
    requires k < |xs|
    ensures [xs[0]] + xs[1..][..k] == xs[..k + 1] && xs[1..][k..] == xs[k + 1..]
  {
  }
}
