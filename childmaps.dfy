/**
 * Edits of one entry of a parent-ID -> child-array map (colMapAdmin,
 * colMapAnon, commMapAdmin, commMapAnon) or of a user-ID -> node-array map
 * (colAuthorizedUsers, commAuthorizedUsers), as the cache performs them.
 */
module ChildMaps {
  import opened Seqs

  type ChildMap = map<int, seq<int>>

  /** All arrays of the map are free of duplicates. */
  ghost predicate AllNoDup(m: ChildMap) {
    forall k :: k in m ==> NoDup(m[k])
  }

  ghost predicate IsPrefix(a: seq<int>, b: seq<int>) {
    |a| <= |b| && b[..|a|] == a
  }

  /** Append `x` to m[k] unless it is already there; a missing key gets [x]. */
  function Insert(m: ChildMap, k: int, x: int): (r: ChildMap)
    ensures r.Keys == m.Keys + {k}
    ensures x in r[k]
    ensures forall y :: y in r[k] <==> y == x || (k in m && y in m[k])
    ensures k in m ==> IsPrefix(m[k], r[k]) && |r[k]| <= |m[k]| + 1
    ensures forall j :: j in m && j != k ==> r[j] == m[j]
  {
    if k in m then
      if x in m[k] then m else m[k := m[k] + [x]]
    else m[k := [x]]
  }

  /** Put `x` in front of m[k] unless it is already there; a missing key gets [x]. */
  function Prepend(m: ChildMap, k: int, x: int): (r: ChildMap)
    ensures r.Keys == m.Keys + {k}
    ensures x in r[k]
    ensures forall y :: y in r[k] <==> y == x || (k in m && y in m[k])
    ensures k in m && x !in m[k] ==> r[k] == [x] + m[k]
    ensures k in m && x in m[k] ==> r[k] == m[k]
    ensures forall j :: j in m && j != k ==> r[j] == m[j]
  {
    if k in m then
      if x in m[k] then m else m[k := [x] + m[k]]
    else m[k := [x]]
  }

  /** Remove the first `x` from m[k]; when the array becomes empty the key goes. */
  function Detach(m: ChildMap, k: int, x: int): (r: ChildMap)
    ensures k in m && x in m[k] && |m[k]| == 1 ==> r == m - {k}
    ensures k in m && x in m[k] && |m[k]| > 1 ==>
              k in r && multiset(r[k]) == multiset(m[k]) - multiset{x} && r.Keys == m.Keys
    ensures !(k in m && x in m[k]) ==> r == m
    ensures forall j :: j in m && j != k ==> j in r && r[j] == m[j]
  {
    if k in m && x in m[k] then
      var t := RemoveFirst(m[k], x);
      if |t| > 0 then m[k := t] else m - {k}
    else m
  }

  /** Remove every `x` from m[k]; when the array becomes empty the key goes. */
  function DetachAll(m: ChildMap, k: int, x: int): (r: ChildMap)
  {
    if k in m && x in m[k] then
      var t := RemoveAll(m[k], x);
      if |t| > 0 then m[k := t] else m - {k}
    else m
  }

  lemma DetachAllSpec(m: ChildMap, k: int, x: int)
    ensures var r := DetachAll(m, k, x);
      && (k in r ==> k in m && forall y :: y in r[k] <==> y in m[k] && y != x)
      && (k in m && k !in r ==> forall y :: y in m[k] ==> y == x)
      && (forall j :: j != k ==> (j in r <==> j in m) && (j in r ==> r[j] == m[j]))
  {
    if k in m {
      RemoveAllSpec(m[k], x);
    }
  }

  /** Move a present `x` to the end of m[k]; otherwise nothing changes. */
  function MoveLast(m: ChildMap, k: int, x: int): (r: ChildMap)
    ensures r.Keys == m.Keys
    ensures forall j :: j in m && j != k ==> r[j] == m[j]
    ensures k in m && x !in m[k] ==> r == m
  {
    if k in m && x in m[k] then m[k := MoveToEnd(m[k], x)] else m
  }

  /** The move keeps length and membership and puts `x` last. */
  lemma MoveLastSpec(m: ChildMap, k: int, x: int)
    requires k in m && x in m[k]
    ensures var r := MoveLast(m, k, x);
      |r[k]| == |m[k]| && multiset(r[k]) == multiset(m[k]) && r[k][|r[k]| - 1] == x
  {
    MoveToEndSpec(m[k], x);
  }

  /** Remove the first `x` from m[k], leaving an empty array in place. */
  function RemoveKeep(m: ChildMap, k: int, x: int): (r: ChildMap)
    ensures r.Keys == m.Keys
    ensures k in m ==> multiset(r[k]) == multiset(m[k]) - multiset{x}
    ensures forall j :: j in m && j != k ==> r[j] == m[j]
  {
    if k in m && x in m[k] then m[k := RemoveFirst(m[k], x)] else m
  }

  // ---------------------------------------------------------------------
  // The same edit for every user of a list, in list order

  function InsertAll(m: ChildMap, ks: seq<int>, x: int): ChildMap
  {
    if ks == [] then m else Insert(InsertAll(m, ks[..|ks| - 1], x), ks[|ks| - 1], x)
  }

  function PrependAll(m: ChildMap, ks: seq<int>, x: int): ChildMap
  {
    if ks == [] then m else Prepend(PrependAll(m, ks[..|ks| - 1], x), ks[|ks| - 1], x)
  }

  function RemoveKeepAll(m: ChildMap, ks: seq<int>, x: int): ChildMap
  {
    if ks == [] then m else RemoveKeep(RemoveKeepAll(m, ks[..|ks| - 1], x), ks[|ks| - 1], x)
  }

  lemma InsertAllSnoc(m: ChildMap, ks: seq<int>, x: int, i: int)
    requires 0 <= i < |ks|
    ensures InsertAll(m, ks[..i + 1], x) == Insert(InsertAll(m, ks[..i], x), ks[i], x)
  {
    assert ks[..i + 1][..i] == ks[..i];
  }

  lemma PrependAllSnoc(m: ChildMap, ks: seq<int>, x: int, i: int)
    requires 0 <= i < |ks|
    ensures PrependAll(m, ks[..i + 1], x) == Prepend(PrependAll(m, ks[..i], x), ks[i], x)
  {
    assert ks[..i + 1][..i] == ks[..i];
  }

  lemma RemoveKeepAllSnoc(m: ChildMap, ks: seq<int>, x: int, i: int)
    requires 0 <= i < |ks|
    ensures RemoveKeepAll(m, ks[..i + 1], x) == RemoveKeep(RemoveKeepAll(m, ks[..i], x), ks[i], x)
  {
    assert ks[..i + 1][..i] == ks[..i];
  }

  /** `m2` has every key of `m1` and every element of its arrays. */
  ghost predicate Grows(m1: ChildMap, m2: ChildMap) {
    forall k :: k in m1 ==> k in m2 && forall y :: y in m1[k] ==> y in m2[k]
  }

  /** `x` is in the array of every user of `ks`. */
  ghost predicate Granted(m: ChildMap, ks: seq<int>, x: int) {
    forall i :: 0 <= i < |ks| ==> ks[i] in m && x in m[ks[i]]
  }

  lemma GrowsTrans(m1: ChildMap, m2: ChildMap, m3: ChildMap)
    requires Grows(m1, m2) && Grows(m2, m3)
    ensures Grows(m1, m3)
  {
  }

  /** The users before the last keep `x` as the map grows, and the last one
      has it. */
  lemma GrantedSnoc(p: ChildMap, r: ChildMap, ks: seq<int>, x: int)
    requires ks != [] && Granted(p, ks[..|ks| - 1], x) && Grows(p, r)
    requires ks[|ks| - 1] in r && x in r[ks[|ks| - 1]]
    ensures Granted(r, ks, x)
  {
    forall i | 0 <= i < |ks| ensures ks[i] in r && x in r[ks[i]] {
      if i < |ks| - 1 {
        assert ks[..|ks| - 1][i] == ks[i];
      }
    }
  }

  lemma GrantedGrows(m1: ChildMap, m2: ChildMap, ks: seq<int>, x: int)
    requires Granted(m1, ks, x) && Grows(m1, m2)
    ensures Granted(m2, ks, x)
  {
    forall i | 0 <= i < |ks| ensures ks[i] in m2 && x in m2[ks[i]] {
      var k := ks[i];
      assert k in m1 && x in m1[k];
      assert k in m2 && forall y :: y in m1[k] ==> y in m2[k];
    }
  }

  /** Inserting grants `x` to every listed user, adds only their keys, keeps
      every other array and never removes anything. */
  lemma {:induction false} InsertAllSpec(m: ChildMap, ks: seq<int>, x: int)
    ensures var r := InsertAll(m, ks, x);
      && Granted(r, ks, x)
      && Grows(m, r)
      && (forall j :: j in r <==> j in m || j in ks)
      && (forall j, y :: j in r && y in r[j] ==> y == x || (j in m && y in m[j]))
  {
    if ks != [] {
      var init := ks[..|ks| - 1];
      InsertAllSpec(m, init, x);
      assert ks == init + [ks[|ks| - 1]];
      forall i | 0 <= i < |ks| ensures ks[i] in InsertAll(m, ks, x) && x in InsertAll(m, ks, x)[ks[i]] {
        if i < |init| {
          assert init[i] == ks[i];
        }
      }
    }
  }

  lemma {:induction false} InsertAllNoOp(m: ChildMap, ks: seq<int>, x: int)
    requires Granted(m, ks, x)
    ensures InsertAll(m, ks, x) == m
  {
    if ks != [] {
      var init := ks[..|ks| - 1];
      assert Granted(m, init, x) by {
        forall i | 0 <= i < |init| ensures init[i] in m && x in m[init[i]] {
          assert init[i] == ks[i];
        }
      }
      InsertAllNoOp(m, init, x);
    }
  }

  /** addUsersToAuthorizedColList / addUsersToAuthorizedComList are idempotent. */
  lemma InsertAllIdempotent(m: ChildMap, ks: seq<int>, x: int)
    ensures InsertAll(InsertAll(m, ks, x), ks, x) == InsertAll(m, ks, x)
  {
    InsertAllSpec(m, ks, x);
    InsertAllNoOp(InsertAll(m, ks, x), ks, x);
  }

  /** Inserting never introduces a duplicate. */
  lemma {:induction false} InsertAllNoDup(m: ChildMap, ks: seq<int>, x: int)
    requires AllNoDup(m)
    ensures AllNoDup(InsertAll(m, ks, x))
  {
    if ks != [] {
      InsertAllNoDup(m, ks[..|ks| - 1], x);
      var p := InsertAll(m, ks[..|ks| - 1], x);
      var k := ks[|ks| - 1];
      if k in p && x !in p[k] {
        assert multiset(p[k] + [x]) == multiset(p[k]) + multiset{x};
      }
    }
  }

  /** A single insert never introduces a duplicate. */
  lemma InsertNoDup(m: ChildMap, k: int, x: int)
    requires AllNoDup(m)
    ensures AllNoDup(Insert(m, k, x))
  {
    if k in m && x !in m[k] {
      assert multiset(m[k] + [x]) == multiset(m[k]) + multiset{x};
    }
  }

  lemma PrefixTrans(a: seq<int>, b: seq<int>, c: seq<int>)
    requires IsPrefix(a, b) && IsPrefix(b, c)
    ensures IsPrefix(a, c)
  {
    assert c[..|a|] == c[..|b|][..|a|];
  }

  /** Prepending grants `x` to every listed user and never removes anything. */
  lemma {:induction false} PrependAllSpec(m: ChildMap, ks: seq<int>, x: int)
    ensures var r := PrependAll(m, ks, x);
      && Granted(r, ks, x)
      && Grows(m, r)
      && (forall j, y :: j in r && y in r[j] ==> y == x || (j in m && y in m[j]))
      && (forall j :: j in m ==> multiset(r[j])[x] <= multiset(m[j])[x] + 1)
  {
    if ks != [] {
      var init := ks[..|ks| - 1];
      PrependAllSpec(m, init, x);
      var p := PrependAll(m, init, x);
      var k := ks[|ks| - 1];
      var r := Prepend(p, k, x);
      assert PrependAll(m, ks, x) == r;
      assert Grows(p, r);
      GrowsTrans(m, p, r);
      GrantedSnoc(p, r, ks, x);
      forall j | j in m ensures multiset(r[j])[x] <= multiset(m[j])[x] + 1 {
        PrependCount(p, k, x, j);
      }
    }
  }

  /** Prepend adds one copy of `x`, and only to an array without one. */
  lemma PrependCount(p: ChildMap, k: int, x: int, j: int)
    requires j in p
    ensures multiset(Prepend(p, k, x)[j])[x] == if j == k && x !in p[k] then 1 else multiset(p[j])[x]
  {
    if j == k && x !in p[k] {
      assert multiset([x] + p[k]) == multiset{x} + multiset(p[k]);
    }
  }

  lemma RemoveKeepStep(p: ChildMap, k: int, x: int)
    requires AllNoDup(p)
    ensures var r := RemoveKeep(p, k, x);
      && AllNoDup(r)
      && (forall j, y :: j in p ==> (y in r[j] <==> y in p[j] && (y != x || j != k)))
  {
    if k in p {
      RemoveFirstNoDup(p[k], x);
    }
  }

  /** Removing leaves every key in place (arrays may become empty), and takes
      `x` from every listed user whose array had no duplicates. */
  lemma {:induction false} RemoveKeepAllSpec(m: ChildMap, ks: seq<int>, x: int)
    requires AllNoDup(m)
    ensures var r := RemoveKeepAll(m, ks, x);
      && r.Keys == m.Keys
      && AllNoDup(r)
      && (forall j, y :: j in m ==> (y in r[j] <==> y in m[j] && (y != x || j !in ks)))
  {
    if ks != [] {
      var init := ks[..|ks| - 1];
      var k := ks[|ks| - 1];
      RemoveKeepAllSpec(m, init, x);
      var p := RemoveKeepAll(m, init, x);
      RemoveKeepStep(p, k, x);
      assert ks == init + [k];
      assert forall j :: j in ks <==> j in init || j == k;
    }
  }

  /** The exact effect of inserting for every listed user: a user without a
      key gets the singleton [x], a user whose array lacks `x` gets it
      appended, every other array is unchanged. */
  lemma {:induction false} InsertAllExact(m: ChildMap, ks: seq<int>, x: int)
    ensures var r := InsertAll(m, ks, x);
      && (forall j :: j in r <==> j in m || j in ks)
      && (forall j :: j in ks && j !in m ==> r[j] == [x])
      && (forall j :: j in ks && j in m && x !in m[j] ==> r[j] == m[j] + [x])
      && (forall j :: j in m && (j !in ks || x in m[j]) ==> r[j] == m[j])
  {
    if ks != [] {
      var init := ks[..|ks| - 1];
      var k := ks[|ks| - 1];
      InsertAllExact(m, init, x);
      assert ks == init + [k];
      assert forall j :: j in ks <==> j in init || j == k;
    }
  }

  /** The exact effect of prepending for every listed user: a user without a
      key gets the singleton [x], a user whose array lacks `x` gets it in
      front, every other array is unchanged. */
  lemma {:induction false} PrependAllExact(m: ChildMap, ks: seq<int>, x: int)
    ensures var r := PrependAll(m, ks, x);
      && (forall j :: j in r <==> j in m || j in ks)
      && (forall j :: j in ks && j !in m ==> r[j] == [x])
      && (forall j :: j in ks && j in m && x !in m[j] ==> r[j] == [x] + m[j])
      && (forall j :: j in m && (j !in ks || x in m[j]) ==> r[j] == m[j])
  {
    if ks != [] {
      var init := ks[..|ks| - 1];
      var k := ks[|ks| - 1];
      PrependAllExact(m, init, x);
      assert ks == init + [k];
      assert forall j :: j in ks <==> j in init || j == k;
    }
  }

  /** Prepending never introduces a duplicate. */
  lemma {:induction false} PrependAllNoDup(m: ChildMap, ks: seq<int>, x: int)
    requires AllNoDup(m)
    ensures AllNoDup(PrependAll(m, ks, x))
  {
    if ks != [] {
      PrependAllNoDup(m, ks[..|ks| - 1], x);
      var p := PrependAll(m, ks[..|ks| - 1], x);
      var k := ks[|ks| - 1];
      if k in p && x !in p[k] {
        assert multiset([x] + p[k]) == multiset{x} + multiset(p[k]);
      }
    }
  }

  /** Adding a node a user does not have and then removing it again gives
      back the original map (addAuthorizedUser then removeAuthorizedUser),
      unless the user's array was empty: then the key goes. */
  lemma InsertDetach(m: ChildMap, k: int, x: int)
    requires !(k in m && x in m[k])
    ensures k in m && m[k] == [] ==> Detach(Insert(m, k, x), k, x) == m - {k}
    ensures (k in m ==> m[k] != []) ==> Detach(Insert(m, k, x), k, x) == m
  {
    if k in m {
      RemoveFirstAppend(m[k], x);
      var t := m[k := m[k] + [x]];
      assert Insert(m, k, x) == t;
      assert RemoveFirst(t[k], x) == m[k];
      if m[k] != [] {
        assert Detach(t, k, x) == t[k := m[k]];
        assert t[k := m[k]] == m;
      }
    } else {
      assert Insert(m, k, x) == m[k := [x]];
      assert m[k := [x]] - {k} == m;
    }
  }

  /** Membership after inserting for every listed user. */
  lemma InsertAllIn(m: ChildMap, ks: seq<int>, x: int, j: int, y: int)
    ensures var r := InsertAll(m, ks, x);
      (j in r && y in r[j]) <==> (j in m && y in m[j]) || (y == x && j in ks)
  {
    InsertAllExact(m, ks, x);
  }

  /** Membership after prepending for every listed user. */
  lemma PrependAllIn(m: ChildMap, ks: seq<int>, x: int, j: int, y: int)
    ensures var r := PrependAll(m, ks, x);
      (j in r && y in r[j]) <==> (j in m && y in m[j]) || (y == x && j in ks)
  {
    PrependAllExact(m, ks, x);
  }

  /** Detaching only removes: every remaining element was there before, and
      every element other than the detached one stays (with its key). */
  lemma DetachSpec(m: ChildMap, k: int, x: int)
    ensures var r := Detach(m, k, x);
      && (forall j, y :: j in r && y in r[j] ==> j in m && y in m[j])
      && (forall j, y :: j in m && y in m[j] && (j != k || y != x) ==> j in r && y in r[j])
      && (AllNoDup(m) ==> AllNoDup(r) && (k in r ==> x !in r[k]))
  {
    if k in m && x in m[k] {
      var t := RemoveFirst(m[k], x);
      forall y ensures y in t <==> y in m[k] && (y != x || multiset(m[k])[x] > 1) {
        assert y in t <==> multiset(t)[y] > 0;
        assert y in m[k] <==> multiset(m[k])[y] > 0;
      }
      if AllNoDup(m) {
        RemoveFirstNoDup(m[k], x);
      }
    }
  }
}
