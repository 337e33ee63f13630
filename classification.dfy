/**
 * The per-collection rules both cache builds apply while walking a
 * community's collection array: a first-match scope test (public, then NYU
 * only, then Gallatin) combined with the item count, and the derived lists
 * each collection is appended to, in the order the builds append them.
 */
module Classification {
  import opened Hierarchy
  import opened Seqs

  datatype Scope = Public | NYUOnly | Gallatin | Unlisted

  /** First match wins: public, then NYU only, then Gallatin. */
  function ScopeOf(x: Collection): Scope {
    if x.isPublic then Public
    else if x.isNYUOnly then NYUOnly
    else if x.isGallatin then Gallatin
    else Unlisted
  }

  /** Listed for anonymous users: a recognised scope and at least one item. */
  predicate Available(x: Collection) {
    ScopeOf(x) != Unlisted && x.itemCount > 0
  }

  /** What one collection adds to each list. */
  datatype Derived = Derived(
    available: seq<int>,
    empty: seq<int>,
    nyu: seq<int>,
    gallatin: seq<int>,
    privates: seq<int>)

  const NoneDerived := Derived([], [], [], [], [])

  /** The lists after classifying collection `id` on top of `d`. A scoped
      empty collection is appended to the empty list in its scope branch and
      again in the not-available branch. */
  function Step(d: Derived, x: Collection, id: int): Derived {
    var avail := Available(x);
    Derived(
      d.available + (if avail then [id] else []),
      d.empty
        + (if ScopeOf(x) != Unlisted && x.itemCount == 0 then [id] else [])
        + (if !avail && x.itemCount == 0 then [id] else []),
      d.nyu + (if ScopeOf(x) == NYUOnly then [id] else []),
      d.gallatin + (if ScopeOf(x) == Gallatin then [id] else []),
      d.privates + (if !avail && x.isPrivate then [id] else []))
  }

  /** `b` appended to `a`, list by list. */
  function Plus(a: Derived, b: Derived): Derived {
    Derived(a.available + b.available, a.empty + b.empty, a.nyu + b.nyu,
            a.gallatin + b.gallatin, a.privates + b.privates)
  }

  lemma PlusStep(a: Derived, d: Derived, x: Collection, id: int)
    ensures Plus(a, Step(d, x, id)) == Step(Plus(a, d), x, id)
  {
    var avail := Available(x);
    AppendAssoc(a.available, d.available, if avail then [id] else []);
    var e1 := if ScopeOf(x) != Unlisted && x.itemCount == 0 then [id] else [];
    AppendAssoc(a.empty, d.empty, e1);
    AppendAssoc(a.empty, d.empty + e1, if !avail && x.itemCount == 0 then [id] else []);
    AppendAssoc(a.nyu, d.nyu, if ScopeOf(x) == NYUOnly then [id] else []);
    AppendAssoc(a.gallatin, d.gallatin, if ScopeOf(x) == Gallatin then [id] else []);
    AppendAssoc(a.privates, d.privates, if !avail && x.isPrivate then [id] else []);
  }

  ghost predicate AllCollections(s: Snapshot, ids: seq<int>) {
    forall i :: 0 <= i < |ids| ==> ids[i] in s.collections
  }

  /** The lists produced by classifying `ids` in order. */
  function ClassifyAll(s: Snapshot, ids: seq<int>): Derived
    requires AllCollections(s, ids)
  {
    if ids == [] then NoneDerived
    else Step(ClassifyAll(s, ids[..|ids| - 1]), s.collections[ids[|ids| - 1]], ids[|ids| - 1])
  }

  lemma ClassifySnoc(s: Snapshot, ids: seq<int>, i: int)
    requires AllCollections(s, ids) && 0 <= i < |ids|
    ensures ClassifyAll(s, ids[..i + 1]) == Step(ClassifyAll(s, ids[..i]), s.collections[ids[i]], ids[i])
  {
    assert ids[..i + 1][..i] == ids[..i];
  }

  /** Membership in every derived list, both directions. */
  lemma {:induction false} ClassifyAllIn(s: Snapshot, ids: seq<int>, y: int)
    requires AllCollections(s, ids)
    ensures var d := ClassifyAll(s, ids);
      && (y in d.available <==> y in ids && Available(s.collections[y]))
      && (y in d.nyu <==> y in ids && !s.collections[y].isPublic && s.collections[y].isNYUOnly)
      && (y in d.gallatin <==> y in ids && !s.collections[y].isPublic
                                  && !s.collections[y].isNYUOnly && s.collections[y].isGallatin)
      && (y in d.privates <==> y in ids && !Available(s.collections[y]) && s.collections[y].isPrivate)
      && (y in d.empty <==> y in ids && s.collections[y].itemCount == 0)
  {
    if ids != [] {
      var init := ids[..|ids| - 1];
      var last := ids[|ids| - 1];
      ClassifyAllIn(s, init, y);
      assert ids == init + [last];
      StepIn(ClassifyAll(s, init), s.collections[last], last, y);
    }
  }

  /** Membership in each list after one more collection. */
  lemma StepIn(d: Derived, x: Collection, id: int, y: int)
    ensures var r := Step(d, x, id);
      && (y in r.available <==> y in d.available || (y == id && Available(x)))
      && (y in r.nyu <==> y in d.nyu || (y == id && !x.isPublic && x.isNYUOnly))
      && (y in r.gallatin <==> y in d.gallatin || (y == id && !x.isPublic && !x.isNYUOnly && x.isGallatin))
      && (y in r.privates <==> y in d.privates || (y == id && !Available(x) && x.isPrivate))
      && (y in r.empty <==> y in d.empty || (y == id && x.itemCount == 0))
  {
  }

  /** Occurrences one collection adds to the empty list. */
  function EmptyWeight(x: Collection): nat {
    if x.itemCount > 0 then 0 else if ScopeOf(x) != Unlisted then 2 else 1
  }

  lemma StepEmpty(d: Derived, x: Collection, id: int, y: int)
    ensures multiset(Step(d, x, id).empty)[y]
         == multiset(d.empty)[y] + (if y == id then EmptyWeight(x) else 0)
  {
    var a := if ScopeOf(x) != Unlisted && x.itemCount == 0 then [id] else [];
    var b := if !Available(x) && x.itemCount == 0 then [id] else [];
    assert Step(d, x, id).empty == d.empty + a + b;
    assert multiset(d.empty + a + b) == multiset(d.empty) + multiset(a) + multiset(b);
  }

  lemma CountSnoc(init: seq<int>, z: int, y: int)
    ensures multiset(init + [z])[y] == multiset(init)[y] + (if y == z then 1 else 0)
  {
    assert multiset(init + [z]) == multiset(init) + multiset{z};
  }

  /** How often the empty list holds a collection: twice per occurrence when
      it is empty and has a scope flag, once when it is empty without one. */
  lemma {:induction false} EmptyMultiplicity(s: Snapshot, ids: seq<int>, y: int)
    requires AllCollections(s, ids) && y in s.collections
    ensures EmptyWeight(s.collections[y]) == 0 ==> multiset(ClassifyAll(s, ids).empty)[y] == 0
    ensures EmptyWeight(s.collections[y]) == 1 ==> multiset(ClassifyAll(s, ids).empty)[y] == multiset(ids)[y]
    ensures EmptyWeight(s.collections[y]) == 2 ==> multiset(ClassifyAll(s, ids).empty)[y] == 2 * multiset(ids)[y]
  {
    if ids != [] {
      var init := ids[..|ids| - 1];
      var z := ids[|ids| - 1];
      assert ids == init + [z];
      assert AllCollections(s, init) by {
        forall i | 0 <= i < |init| ensures init[i] in s.collections {
          assert init[i] == ids[i];
        }
      }
      EmptyMultiplicity(s, init, y);
      var d0 := ClassifyAll(s, init);
      assert ClassifyAll(s, ids) == Step(d0, s.collections[z], z);
      StepEmpty(d0, s.collections[z], z, y);
      CountSnoc(init, z, y);
    }
  }
}
