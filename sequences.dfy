/** Sequence operations used by the file selection pipeline: the first-occurrence
    deduplication of a collection (`unique()`), the "not in the excluded list"
    filter, and the notions needed to state what they promise. */
module Sequences {

  /** No element occurs twice. */
  predicate NoDuplicates<T(==,!new)>(s: seq<T>) {
    forall i, j :: 0 <= i < j < |s| ==> s[i] != s[j]
  }

  /** `a` can be obtained from `b` by deleting elements: the elements of `a`
      appear in `b` in the same relative order. */
  predicate IsSubsequence<T(==,!new)>(a: seq<T>, b: seq<T>)
    decreases |b|
  {
    a == [] ||
    (b != [] && ((a[0] == b[0] && IsSubsequence(a[1..], b[1..])) || IsSubsequence(a, b[1..])))
  }

  /** The position at which `x` first occurs in `s`. */
  function FirstIndex<T(==,!new)>(s: seq<T>, x: T): (i: nat)
    requires x in s
    ensures i < |s| && s[i] == x && x !in s[..i]
  {
    if s[0] == x then 0 else 1 + FirstIndex(s[1..], x)
  }

  /** Keeps the first occurrence of every element and drops later repetitions,
      walking the sequence from left to right. */
  function Unique<T(==,!new)>(s: seq<T>): (r: seq<T>)
    ensures NoDuplicates(r)
    ensures forall x :: x in r <==> x in s
    ensures |r| <= |s|
    decreases |s|
  {
    if s == [] then []
    else
      var prefix := Unique(s[..|s| - 1]);
      if s[|s| - 1] in prefix then prefix else prefix + [s[|s| - 1]]
  }

  /** The elements of `s` that do not occur in `excluded`, in their order in `s`. */
  function Without<T(==,!new)>(s: seq<T>, excluded: seq<T>): (r: seq<T>)
    ensures forall x :: x in r <==> x in s && x !in excluded
    ensures |r| <= |s|
  {
    if s == [] then []
    else
      var last := s[|s| - 1];
      Without(s[..|s| - 1], excluded) + (if last in excluded then [] else [last])
  }

  lemma {:induction false} SubsequenceExtend<T(!new)>(a: seq<T>, b: seq<T>, x: T)
    requires IsSubsequence(a, b)
    ensures IsSubsequence(a, b + [x])
    decreases |b|
  {
    if a != [] {
      assert (b + [x])[1..] == b[1..] + [x];
      if a[0] == b[0] && IsSubsequence(a[1..], b[1..]) {
        SubsequenceExtend(a[1..], b[1..], x);
      } else {
        SubsequenceExtend(a, b[1..], x);
      }
    }
  }

  lemma {:induction false} SubsequenceAppendBoth<T(!new)>(a: seq<T>, b: seq<T>, x: T)
    requires IsSubsequence(a, b)
    ensures IsSubsequence(a + [x], b + [x])
    decreases |b|
  {
    if b == [] {
      assert a == [];
      assert IsSubsequence(([] + [x])[1..], ([] + [x])[1..]);
    } else {
      assert (b + [x])[1..] == b[1..] + [x];
      if a == [] {
        SubsequenceAppendBoth(a, b[1..], x);
        assert a + [x] == [x];
      } else if a[0] == b[0] && IsSubsequence(a[1..], b[1..]) {
        SubsequenceAppendBoth(a[1..], b[1..], x);
        assert (a + [x])[1..] == a[1..] + [x];
      } else {
        SubsequenceAppendBoth(a, b[1..], x);
      }
    }
  }

  /** The deduplicated sequence keeps the input's order. */
  lemma {:induction false} UniqueIsSubsequence<T(!new)>(s: seq<T>)
    ensures IsSubsequence(Unique(s), s)
    decreases |s|
  {
    if s != [] {
      var init, last := s[..|s| - 1], s[|s| - 1];
      assert s == init + [last];
      UniqueIsSubsequence(init);
      if last in Unique(init) {
        SubsequenceExtend(Unique(init), init, last);
      } else {
        SubsequenceAppendBoth(Unique(init), init, last);
      }
    }
  }

  lemma FirstIndexOfPrefix<T(!new)>(s: seq<T>, x: T, n: nat)
    requires n <= |s| && x in s[..n]
    ensures FirstIndex(s, x) == FirstIndex(s[..n], x)
  {
    var i, k := FirstIndex(s, x), FirstIndex(s[..n], x);
    assert s[..n][..k] == s[..k] && s[k] == x;
    assert forall j :: 0 <= j < i ==> s[..i][j] == s[j];
  }

  /** The deduplicated sequence lists each element at the place of its first
      occurrence in the input: earlier in the result means first met earlier. */
  lemma {:induction false} UniqueKeepsFirstOccurrenceOrder<T(!new)>(s: seq<T>)
    ensures forall i, j :: 0 <= i < j < |Unique(s)| ==>
              FirstIndex(s, Unique(s)[i]) < FirstIndex(s, Unique(s)[j])
    decreases |s|
  {
    if s != [] {
      var init, last := s[..|s| - 1], s[|s| - 1];
      var p := Unique(init);
      UniqueKeepsFirstOccurrenceOrder(init);
      assert s == init + [last];
      forall k | 0 <= k < |p|
        ensures p[k] in init && p[k] in s && FirstIndex(s, p[k]) == FirstIndex(init, p[k])
      {
        FirstIndexOfPrefix(s, p[k], |s| - 1);
      }
      if last !in p {
        assert last !in init;
        assert FirstIndex(s, last) == |s| - 1;
      }
    }
  }

  /** Deduplicating a sequence that has no duplicates changes nothing. */
  lemma {:induction false} UniqueOfDistinct<T(!new)>(s: seq<T>)
    requires NoDuplicates(s)
    ensures Unique(s) == s
    decreases |s|
  {
    if s != [] {
      var init := s[..|s| - 1];
      UniqueOfDistinct(init);
      assert s[|s| - 1] !in init;
      assert init + [s[|s| - 1]] == s;
    }
  }

  lemma {:induction false} WithoutAppend<T(!new)>(a: seq<T>, b: seq<T>, excluded: seq<T>)
    ensures Without(a + b, excluded) == Without(a, excluded) + Without(b, excluded)
    decreases |b|
  {
    if b == [] {
      assert a + b == a;
    } else {
      var init, last := b[..|b| - 1], b[|b| - 1];
      var tail := if last in excluded then [] else [last];
      assert (a + b)[..|a + b| - 1] == a + init && (a + b)[|a + b| - 1] == last;
      WithoutAppend(a, init, excluded);
      assert Without(a + b, excluded) == Without(a + init, excluded) + tail;
      assert Without(b, excluded) == Without(init, excluded) + tail;
    }
  }

  /** The filtered sequence keeps the input's order. */
  lemma {:induction false} WithoutIsSubsequence<T(!new)>(s: seq<T>, excluded: seq<T>)
    ensures IsSubsequence(Without(s, excluded), s)
    decreases |s|
  {
    if s != [] {
      var init, last := s[..|s| - 1], s[|s| - 1];
      assert s == init + [last];
      WithoutIsSubsequence(init, excluded);
      var w := Without(init, excluded);
      if last in excluded {
        assert Without(s, excluded) == w + [] == w;
        SubsequenceExtend(w, init, last);
      } else {
        assert Without(s, excluded) == w + [last];
        SubsequenceAppendBoth(w, init, last);
      }
    }
  }

  /** Filtering a duplicate-free sequence leaves it duplicate-free. */
  lemma {:induction false} WithoutKeepsDistinct<T(!new)>(s: seq<T>, excluded: seq<T>)
    requires NoDuplicates(s)
    ensures NoDuplicates(Without(s, excluded))
    decreases |s|
  {
    if s != [] {
      var init, last := s[..|s| - 1], s[|s| - 1];
      WithoutKeepsDistinct(init, excluded);
      assert last !in init;
    }
  }

  /** Filtering depends only on which elements are excluded, not on how often
      or in which order they are listed. */
  lemma {:induction false} WithoutSameMembers<T(!new)>(s: seq<T>, e1: seq<T>, e2: seq<T>)
    requires forall x :: x in e1 <==> x in e2
    ensures Without(s, e1) == Without(s, e2)
    decreases |s|
  {
    if s != [] {
      WithoutSameMembers(s[..|s| - 1], e1, e2);
    }
  }

  /** Excluding nothing that occurs in `s` changes nothing. */
  lemma {:induction false} WithoutNothing<T(!new)>(s: seq<T>, excluded: seq<T>)
    requires forall x :: x in s ==> x !in excluded
    ensures Without(s, excluded) == s
    decreases |s|
  {
    if s != [] {
      var init, last := s[..|s| - 1], s[|s| - 1];
      assert s == init + [last];
      WithoutNothing(init, excluded);
      assert Without(s, excluded) == Without(init, excluded) + [last];
    }
  }

  /** Deduplicating and then filtering gives the same sequence as filtering and
      then deduplicating. */
  lemma {:induction false} UniqueWithoutCommute<T(!new)>(s: seq<T>, excluded: seq<T>)
    ensures Without(Unique(s), excluded) == Unique(Without(s, excluded))
    decreases |s|
  {
    if s != [] {
      var init, last := s[..|s| - 1], s[|s| - 1];
      UniqueWithoutCommute(init, excluded);
      var p, w := Unique(init), Without(init, excluded);
      assert (p + [last])[..|p|] == p;
      assert (w + [last])[..|w|] == w;
      if last in excluded {
        assert Without(s, excluded) == w + [] == w;
        if last !in p {
          assert Unique(s) == p + [last];
          assert Without(p + [last], excluded) == Without(p, excluded) + [];
        }
      } else {
        assert Without(s, excluded) == w + [last];
        assert last in p <==> last in Unique(w);
        if last in p {
          assert Unique(s) == p;
          assert Unique(w + [last]) == Unique(w);
        } else {
          assert Unique(s) == p + [last];
          assert Without(p + [last], excluded) == Without(p, excluded) + [last];
          assert Unique(w + [last]) == Unique(w) + [last];
        }
      }
    }
  }
}
