/**
 * The list edits the cache performs on its Java arrays (always through a
 * LinkedList copy): remove the first equal element, remove every element with
 * a given ID, and move an element to the end.
 */
module Seqs {

  /** Every value occurs at most once. */
  ghost predicate NoDup(s: seq<int>) {
    forall y :: multiset(s)[y] <= 1
  }

  lemma AppendAssoc<T>(a: seq<T>, b: seq<T>, c: seq<T>)
    ensures a + b + c == a + (b + c)
  {
  }

  /** LinkedList.remove(Object): drop the first element equal to `x`. */
  function RemoveFirst(s: seq<int>, x: int): (r: seq<int>)
    ensures x in s ==> |r| == |s| - 1
    ensures x !in s ==> r == s
    ensures multiset(r) == multiset(s) - multiset{x}
  {
    if s == [] then []
    else
      assert s == [s[0]] + s[1..];
      if s[0] == x then s[1..] else [s[0]] + RemoveFirst(s[1..], x)
  }

  lemma RemoveFirstNoDup(s: seq<int>, x: int)
    requires NoDup(s)
    ensures NoDup(RemoveFirst(s, x))
    ensures x !in RemoveFirst(s, x)
    ensures forall y :: y in RemoveFirst(s, x) <==> y in s && y != x
  {
    var r := RemoveFirst(s, x);
    forall y ensures y in r <==> y in s && y != x {
      assert y in r <==> multiset(r)[y] > 0;
      assert y in s <==> multiset(s)[y] > 0;
    }
  }

  /** Every element except those equal to `x`, in order (the for-each removal
      by collection or community ID). */
  function RemoveAll(s: seq<int>, x: int): (r: seq<int>)
  {
    if s == [] then []
    else RemoveAll(s[..|s| - 1], x) + (if s[|s| - 1] == x then [] else [s[|s| - 1]])
  }

  lemma {:induction false} RemoveAllSpec(s: seq<int>, x: int)
    ensures forall y :: y in RemoveAll(s, x) <==> y in s && y != x
    ensures |RemoveAll(s, x)| <= |s|
    ensures x in s ==> |RemoveAll(s, x)| < |s|
    ensures x !in s ==> RemoveAll(s, x) == s
  {
    if s != [] {
      RemoveAllSpec(s[..|s| - 1], x);
      assert s == s[..|s| - 1] + [s[|s| - 1]];
    }
  }

  /** updateCollectionMetadata / updateCommunityMetadata: take `x` out of its
      place and append it. */
  function MoveToEnd(s: seq<int>, x: int): (r: seq<int>)
    requires x in s
  {
    RemoveFirst(s, x) + [x]
  }

  /** Moving to the end keeps the length and the elements, and puts `x` last. */
  lemma MoveToEndSpec(s: seq<int>, x: int)
    requires x in s
    ensures |MoveToEnd(s, x)| == |s|
    ensures multiset(MoveToEnd(s, x)) == multiset(s)
    ensures MoveToEnd(s, x)[|s| - 1] == x
  {
    assert x in multiset(s);
    calc {
      multiset(MoveToEnd(s, x));
      multiset(RemoveFirst(s, x)) + multiset{x};
      multiset(s) - multiset{x} + multiset{x};
      multiset(s);
    }
  }

  /** Removing an element that was appended to a list without it gives back
      the list. */
  lemma {:induction false} RemoveFirstAppend(s: seq<int>, x: int)
    requires x !in s
    ensures RemoveFirst(s + [x], x) == s
  {
    if s != [] {
      assert (s + [x])[1..] == s[1..] + [x];
      RemoveFirstAppend(s[1..], x);
    }
  }
}
