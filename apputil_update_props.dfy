/**
 * Properties of the incremental updates of the second generation: the
 * derived lists and checkCollection, the authorisation maps, and the
 * parent/child maps under adding and removing collections and communities.
 * The faults kept as written are exhibited here as lemmas.
 */
module AppUtilUpdateProps {
  import opened Hierarchy
  import opened ChildMaps
  import opened Seqs
  import opened AppUtilSpec

  // ---------------------------------------------------------------------
  // The derived lists

  lemma AppendNoDup(s: seq<int>, x: int)
    requires NoDup(s) && x !in s
    ensures NoDup(s + [x])
  {
    assert multiset(s + [x]) == multiset(s) + multiset{x};
  }

  /** Adding a collection that is not on an allocated list and removing it
      again gives back the list. */
  lemma RemoveFromAddTo(l: NList, x: int)
    requires l.List? && x !in l.items
    ensures RemoveFrom(AddTo(l, x), x) == l
  {
    RemoveFirstAppend(l.items, x);
  }

  /** The list edits: add appends, remove takes away one occurrence (the
      only one when the list has no duplicates), removal by ID takes every
      element with that ID; none of them touches other elements, and a null
      list is left null by both removals. */
  lemma ListEdits(l: NList, x: int)
    ensures Items(AddTo(l, x)) == Items(l) + [x]
    ensures l.NullList? ==> RemoveFrom(l, x) == l && RemoveIdFrom(l, x) == l
    ensures NoDup(Items(l)) ==> NoDup(Items(RemoveFrom(l, x)))
    ensures NoDup(Items(l)) ==> forall y :: y in Items(RemoveFrom(l, x)) <==> y in Items(l) && y != x
    ensures forall y :: y in Items(RemoveIdFrom(l, x)) <==> y in Items(l) && y != x
  {
    if l.List? {
      if NoDup(l.items) {
        RemoveFirstNoDup(l.items, x);
      }
      RemoveAllSpec(l.items, x);
    }
  }

  /** `r` is the allocated list `l` brought in line with `flag` for `x`:
      `x` is on it iff the flag is set, every other element stays or stays
      away, and no duplicate appears. */
  ghost predicate Synced(l: NList, r: NList, x: int, flag: bool) {
    && r.List?
    && (x in r.items <==> flag)
    && NoDup(r.items)
    && (forall y :: y != x ==> (y in r.items <==> y in Items(l)))
  }

  lemma AddSynced(l: NList, x: int)
    requires l.List? && NoDup(l.items)
    ensures Synced(l, if x in l.items then l else AddTo(l, x), x, true)
  {
    if x !in l.items {
      AppendNoDup(l.items, x);
    }
  }

  lemma RemoveSynced(l: NList, x: int)
    requires l.List? && NoDup(l.items)
    ensures Synced(l, RemoveFrom(l, x), x, false)
  {
    RemoveFirstNoDup(l.items, x);
  }

  /** The private part of checkCollection on an allocated list: the list
      follows the flag, and leaving it revokes the collection. */
  lemma CheckPrivateSync(t: Cache, s: Snapshot, x: int)
    requires Wf(s) && x in s.collections
    requires t.privateCollections.List? && NoDup(t.privateCollections.items)
    ensures var r := CheckPrivate(t, s, x);
            var k := s.collections[x];
      && !r.1
      && Synced(t.privateCollections, r.0.privateCollections, x, k.isPrivate)
      && r.0.colAuthorizedUsers
           == (if !k.isPrivate && x in t.privateCollections.items then RevokeCollection(t.colAuthorizedUsers, s, x)
               else t.colAuthorizedUsers)
      && r.0 == t.(privateCollections := r.0.privateCollections, colAuthorizedUsers := r.0.colAuthorizedUsers)
  {
    AddSynced(t.privateCollections, x);
    RemoveSynced(t.privateCollections, x);
  }

  /** The NYU part on an allocated list: the list follows the flag. */
  lemma CheckNYUSync(t: Cache, s: Snapshot, x: int)
    requires x in s.collections
    requires t.nyuOnly.List? && NoDup(t.nyuOnly.items)
    ensures var r := CheckNYU(t, s, x);
      !r.1 && Synced(t.nyuOnly, r.0.nyuOnly, x, s.collections[x].isNYUOnly) && r.0 == t.(nyuOnly := r.0.nyuOnly)
  {
    AddSynced(t.nyuOnly, x);
    RemoveSynced(t.nyuOnly, x);
  }

  /** The Gallatin part on an allocated list: the list follows the flag. */
  lemma CheckGallatinSync(t: Cache, s: Snapshot, x: int)
    requires x in s.collections
    requires t.gallatinOnly.List? && NoDup(t.gallatinOnly.items)
    ensures var r := CheckGallatin(t, s, x);
      && !r.1
      && Synced(t.gallatinOnly, r.0.gallatinOnly, x, s.collections[x].isGallatin)
      && r.0 == t.(gallatinOnly := r.0.gallatinOnly)
  {
    AddSynced(t.gallatinOnly, x);
    RemoveSynced(t.gallatinOnly, x);
  }

  /** checkCollection on allocated lists without duplicates never fails and
      leaves the three flag lists in sync with the collection's flags: the
      collection is on a list iff it has the flag, nothing else on the lists
      changes, no duplicate appears, and leaving the private list revokes
      the collection from its users; no other field changes. */
  lemma CheckSync(t: Cache, s: Snapshot, x: int)
    requires Wf(s) && x in s.collections
    requires t.privateCollections.List? && t.nyuOnly.List? && t.gallatinOnly.List?
    requires NoDup(t.privateCollections.items) && NoDup(t.nyuOnly.items) && NoDup(t.gallatinOnly.items)
    ensures var r := CheckSpec(t, s, x);
            var k := s.collections[x];
      && !r.1
      && Synced(t.privateCollections, r.0.privateCollections, x, k.isPrivate)
      && Synced(t.nyuOnly, r.0.nyuOnly, x, k.isNYUOnly)
      && Synced(t.gallatinOnly, r.0.gallatinOnly, x, k.isGallatin)
      && r.0.colAuthorizedUsers
           == (if !k.isPrivate && x in t.privateCollections.items then RevokeCollection(t.colAuthorizedUsers, s, x)
               else t.colAuthorizedUsers)
      && r.0 == t.(privateCollections := r.0.privateCollections, nyuOnly := r.0.nyuOnly,
                   gallatinOnly := r.0.gallatinOnly, colAuthorizedUsers := r.0.colAuthorizedUsers)
  {
    CheckPrivateSync(t, s, x);
    var p := CheckPrivate(t, s, x);
    CheckNYUSync(p.0, s, x);
    var n := CheckNYU(p.0, s, x);
    CheckGallatinSync(n.0, s, x);
    assert CheckSpec(t, s, x) == CheckGallatin(n.0, s, x);
  }

  /** checkCollection on a collection that is not private fails at once,
      changing nothing, when the private list is null. */
  lemma CheckNullPrivate(t: Cache, s: Snapshot, x: int)
    requires Wf(s) && x in s.collections
    requires !s.collections[x].isPrivate && t.privateCollections.NullList?
    ensures CheckSpec(t, s, x) == (t, true)
  {
  }

  /** Once the private part has passed, checkCollection fails on a null NYU
      list; for an NYU-only collection it first replaces the empty-collection
      list by a new empty list (addCollectionToNYUOnlyList as written). */
  lemma CheckNullNYU(t: Cache, s: Snapshot, x: int)
    requires Wf(s) && x in s.collections
    requires t.nyuOnly.NullList? && (s.collections[x].isPrivate || t.privateCollections.List?)
    ensures var r := CheckSpec(t, s, x);
      && r.1
      && r.0.nyuOnly.NullList?
      && r.0.emptyCollections == (if s.collections[x].isNYUOnly then List([]) else t.emptyCollections)
      && r.0.gallatinOnly == t.gallatinOnly
  {
    var p := CheckPrivate(t, s, x);
    assert !p.1 && p.0.nyuOnly == t.nyuOnly && p.0.emptyCollections == t.emptyCollections
        && p.0.gallatinOnly == t.gallatinOnly;
    assert CheckSpec(t, s, x) == CheckNYU(p.0, s, x);
  }

  // ---------------------------------------------------------------------
  // The authorisation maps

  /** removeUsersFromAuthorizedComList as written: a user loses `c` only when
      it also has a key in the collection authorisation map `colA`; a user
      entitled to `c` without such a key keeps it. Keys are never removed. */
  lemma {:induction false} RevokeCommunitySpec(colA: ChildMap, m: ChildMap, ks: seq<int>, c: int)
    requires AllNoDup(m)
    ensures var r := RevokeCommunity(colA, m, ks, c);
      && r.Keys == m.Keys
      && AllNoDup(r)
      && (forall j, y :: j in m ==> (y in r[j] <==> y in m[j] && (y != c || j !in ks || j !in colA)))
  {
    if ks != [] {
      var init := ks[..|ks| - 1];
      var k := ks[|ks| - 1];
      RevokeCommunitySpec(colA, m, init, c);
      var p := RevokeCommunity(colA, m, init, c);
      RemoveKeepStep(p, k, c);
      assert ks == init + [k];
      assert forall j :: j in ks <==> j in init || j == k;
    }
  }

  /** The fault, concretely: an entitled user with no collection entry keeps
      the community. */
  lemma RevokeCommunityKeeps(colA: ChildMap, m: ChildMap, ks: seq<int>, c: int, e: int)
    requires AllNoDup(m) && e in ks && e !in colA && e in m && c in m[e]
    ensures e in RevokeCommunity(colA, m, ks, c) && c in RevokeCommunity(colA, m, ks, c)[e]
  {
    RevokeCommunitySpec(colA, m, ks, c);
  }

  // ---------------------------------------------------------------------
  // Adding collections: the upward links

  /** The (parent, child) links from `c` up to the root. */
  ghost function Links(s: Snapshot, c: int): set<(int, int)>
    requires Wf(s) && c in s.communities
    decreases Depth(s, c)
  {
    assert CommunityWf(s, c);
    match ParentOf(s, c)
    case None => {}
    case Some(p) => {(p, c)} + Links(s, p)
  }

  /** Every link of the ancestor chain is recorded: with the chain
      c, A[0], A[1], ... each ancestor A[i] holds the element before it. */
  lemma {:induction false} AncestorLinks(s: Snapshot, c: int, i: int)
    requires Wf(s) && c in s.communities && 0 <= i < |Ancestors(s, c)|
    ensures var A := Ancestors(s, c);
      (A[i], ([c] + A)[i]) in Links(s, c)
    decreases Depth(s, c)
  {
    assert CommunityWf(s, c);
    var p := ParentOf(s, c).value;
    var A := Ancestors(s, c);
    var B := Ancestors(s, p);
    assert A == [p] + B;
    assert Links(s, c) == {(p, c)} + Links(s, p);
    if i > 0 {
      AncestorLinks(s, p, i - 1);
      assert (B[i - 1], ([p] + B)[i - 1]) == (A[i], ([c] + A)[i]);
    }
  }

  /** Every recorded link is one of the ancestor chain. */
  lemma {:induction false} LinksAreAncestors(s: Snapshot, c: int, k: int, y: int)
    requires Wf(s) && c in s.communities && (k, y) in Links(s, c)
    ensures exists i :: 0 <= i < |Ancestors(s, c)| && k == Ancestors(s, c)[i] && y == ([c] + Ancestors(s, c))[i]
    decreases Depth(s, c)
  {
    assert ParentOf(s, c).Some?;
    ParentFacts(s, c);
    var p := ParentOf(s, c).value;
    var A := Ancestors(s, c);
    var B := Ancestors(s, p);
    assert A == [p] + B;
    assert Links(s, c) == {(p, c)} + Links(s, p);
    if (k, y) == (p, c) {
      assert k == A[0] && y == ([c] + A)[0];
    } else {
      LinksAreAncestors(s, p, k, y);
      var i :| 0 <= i < |B| && k == B[i] && y == ([p] + B)[i];
      assert A[i + 1] == B[i];
      assert ([c] + A)[i + 1] == A[i] == ([p] + B)[i];
    }
  }

  /** addParentComm(c) adds exactly the links of the ancestor chain, only
      appends, creates no empty array and never adds a duplicate. */
  lemma {:induction false} AddParentsSpec(m: ChildMap, s: Snapshot, c: int)
    requires Wf(s) && c in s.communities
    ensures var r := AddParents(m, s, c);
      && (forall k, y :: (k in r && y in r[k]) <==> (k in m && y in m[k]) || (k, y) in Links(s, c))
      && (forall k :: k in r ==> k in m || r[k] != [])
      && (forall k :: k in m ==> k in r && IsPrefix(m[k], r[k]))
      && (AllNoDup(m) ==> AllNoDup(r))
    decreases Depth(s, c)
  {
    assert CommunityWf(s, c);
    match ParentOf(s, c)
    case None =>
    case Some(p) =>
      assert CommunityWf(s, p);
      var m1 := Insert(m, p, c);
      if AllNoDup(m) {
        InsertNoDup(m, p, c);
      }
      assert Links(s, c) == {(p, c)} + Links(s, p);
      match ParentOf(s, p)
      case None =>
        assert Links(s, p) == {};
        assert AddParents(m, s, c) == m1;
      case Some(g) =>
        AddParentsSpec(m1, s, p);
        var r := AddParents(m1, s, p);
        assert AddParents(m, s, c) == r;
        forall k | k in m ensures k in r && IsPrefix(m[k], r[k]) {
          PrefixTrans(m[k], m1[k], r[k]);
        }
        forall k | k in r ensures k in m || r[k] != [] {
          if k !in m && k == p {
            assert c in r[k];
          }
        }
  }

  /** addCollection(x) over the communities `ps`, collection side: `x`
      joins the array of exactly those communities of `ps` whose own
      collections list it; nothing else is added. */
  lemma {:induction false} AddCollectionColIn(m: MapPair, s: Snapshot, x: int, ps: seq<int>, k: int, y: int)
    requires Wf(s) && forall i :: 0 <= i < |ps| ==> ps[i] in s.communities
    ensures (k in AddCollectionTo(m, s, x, ps).0 && y in AddCollectionTo(m, s, x, ps).0[k]) <==>
              (k in m.0 && y in m.0[k]) || (y == x && k in ps && k in s.communities && x in Cols(s, k))
  {
    if ps != [] {
      var init := ps[..|ps| - 1];
      var p := ps[|ps| - 1];
      assert ps == init + [p];
      assert k in ps <==> k in init || k == p;
      AddCollectionColIn(m, s, x, init, k, y);
    }
  }

  /** ... only by appending (a missing key gets [x]), and never twice. */
  lemma {:induction false} AddCollectionColGrows(m: MapPair, s: Snapshot, x: int, ps: seq<int>)
    requires Wf(s) && forall i :: 0 <= i < |ps| ==> ps[i] in s.communities
    ensures forall k :: k in m.0 ==> k in AddCollectionTo(m, s, x, ps).0 && IsPrefix(m.0[k], AddCollectionTo(m, s, x, ps).0[k])
    ensures AllNoDup(m.0) ==> AllNoDup(AddCollectionTo(m, s, x, ps).0)
  {
    if ps != [] {
      var init := ps[..|ps| - 1];
      var p := ps[|ps| - 1];
      AddCollectionColGrows(m, s, x, init);
      var q := AddCollectionTo(m, s, x, init);
      if x in Cols(s, p) {
        if AllNoDup(q.0) {
          InsertNoDup(q.0, p, x);
        }
        var r := Insert(q.0, p, x);
        assert AddCollectionTo(m, s, x, ps).0 == r;
        forall k | k in m.0 ensures k in r && IsPrefix(m.0[k], r[k]) {
          PrefixTrans(m.0[k], q.0[k], r[k]);
        }
      }
    }
  }

  /** addCollection(x) over the communities `ps`, community side: a link
      is present afterwards iff it was before or it is on the upward chain
      of a community of `ps` whose own collections list `x`. */
  lemma {:induction false} AddCollectionCommIn(m: MapPair, s: Snapshot, x: int, ps: seq<int>, k: int, y: int)
    requires Wf(s) && forall i :: 0 <= i < |ps| ==> ps[i] in s.communities
    ensures (k in AddCollectionTo(m, s, x, ps).1 && y in AddCollectionTo(m, s, x, ps).1[k]) <==>
              (k in m.1 && y in m.1[k])
              || exists i :: 0 <= i < |ps| && x in Cols(s, ps[i]) && (k, y) in Links(s, ps[i])
  {
    if ps != [] {
      var init := ps[..|ps| - 1];
      var p := ps[|ps| - 1];
      AddCollectionCommIn(m, s, x, init, k, y);
      var q := AddCollectionTo(m, s, x, init);
      var r := AddCollectionTo(m, s, x, ps);
      if x in Cols(s, p) {
        assert CommunityWf(s, p);
        AddParentsSpec(q.1, s, p);
        if ParentOf(s, p).None? {
          assert Links(s, p) == {};
        }
        assert r.1 == if ParentOf(s, p).Some? then AddParents(q.1, s, p) else q.1;
      } else {
        assert r == q;
      }
      assert ps == init + [p];
      ChainsSnoc(s, x, ps, init, p, k, y);
    }
  }

  lemma ChainsSnoc(s: Snapshot, x: int, ps: seq<int>, init: seq<int>, p: int, k: int, y: int)
    requires Wf(s) && (forall i :: 0 <= i < |ps| ==> ps[i] in s.communities) && ps == init + [p]
    requires (forall i :: 0 <= i < |init| ==> init[i] in s.communities) && p in s.communities
    ensures (exists i :: 0 <= i < |ps| && x in Cols(s, ps[i]) && (k, y) in Links(s, ps[i])) <==>
              (exists i :: 0 <= i < |init| && x in Cols(s, init[i]) && (k, y) in Links(s, init[i]))
              || (x in Cols(s, p) && (k, y) in Links(s, p))
  {
    if exists i :: 0 <= i < |ps| && x in Cols(s, ps[i]) && (k, y) in Links(s, ps[i]) {
      var i :| 0 <= i < |ps| && x in Cols(s, ps[i]) && (k, y) in Links(s, ps[i]);
      if i < |init| {
        assert init[i] == ps[i];
      }
    }
    if exists i :: 0 <= i < |init| && x in Cols(s, init[i]) && (k, y) in Links(s, init[i]) {
      var i :| 0 <= i < |init| && x in Cols(s, init[i]) && (k, y) in Links(s, init[i]);
      assert ps[i] == init[i];
    }
    assert ps[|init|] == p;
  }

  /** addCollection(x) never puts a duplicate into a community array. */
  lemma {:induction false} AddCollectionCommNoDup(m: MapPair, s: Snapshot, x: int, ps: seq<int>)
    requires Wf(s) && (forall i :: 0 <= i < |ps| ==> ps[i] in s.communities) && AllNoDup(m.1)
    ensures AllNoDup(AddCollectionTo(m, s, x, ps).1)
  {
    if ps != [] {
      var p := ps[|ps| - 1];
      AddCollectionCommNoDup(m, s, x, ps[..|ps| - 1]);
      var q := AddCollectionTo(m, s, x, ps[..|ps| - 1]);
      if x in Cols(s, p) {
        AddParentsSpec(q.1, s, p);
      }
    }
  }

  // ---------------------------------------------------------------------
  // Removing collections

  /** removeParentComm only ever removes elements. */
  lemma {:induction false} RemoveParentsShrinks(m: ChildMap, s: Snapshot, c: int)
    requires Wf(s) && c in s.communities
    ensures var r := RemoveParents(m, s, c);
      forall k, y :: k in r && y in r[k] ==> k in m && y in m[k]
    decreases Depth(s, c)
  {
    assert CommunityWf(s, c);
    match ParentOf(s, c)
    case None =>
    case Some(p) =>
      assert CommunityWf(s, p);
      var m1 := Detach(m, p, c);
      DetachSpec(m, p, c);
      assert forall k, y :: k in m1 && y in m1[k] ==> k in m && y in m[k];
      match ParentOf(s, p)
      case None =>
        assert RemoveParents(m, s, c) == m1;
      case Some(g) =>
        assert RemoveParents(m, s, c) == RemoveParents(m1, s, g);
        RemoveParentsShrinks(m1, s, g);
  }

  /** removeParentComm(c) as written detaches only communities whose depth
      differs from that of `c` by an even number (c, its grandparent, ...):
      a community at an odd distance, such as the parent of `c`, keeps every
      link to it. */
  lemma {:induction false} RemoveParentsKeepsOddLevels(m: ChildMap, s: Snapshot, c: int, k: int, y: int)
    requires Wf(s) && c in s.communities && y in s.communities
    requires (Depth(s, c) - Depth(s, y)) % 2 == 1
    requires k in m && y in m[k]
    ensures k in RemoveParents(m, s, c) && y in RemoveParents(m, s, c)[k]
    decreases Depth(s, c)
  {
    assert CommunityWf(s, c);
    match ParentOf(s, c)
    case None =>
    case Some(p) =>
      assert CommunityWf(s, p);
      DetachSpec(m, p, c);
      match ParentOf(s, p)
      case None =>
      case Some(g) =>
        assert Depth(s, g) == Depth(s, c) - 2;
        RemoveParentsKeepsOddLevels(Detach(m, p, c), s, g, k, y);
  }

  /** The fault of removeParentComm, both halves: it detaches `c` from its
      parent `p` (when the arrays hold no duplicates), it keeps the link
      from the grandparent `g` to `p`, and it detaches `g` from its own
      parent `q` although `g` still has the sub-community `p`. */
  lemma RemoveParentsFault(m: ChildMap, s: Snapshot, c: int, p: int, g: int, q: int)
    requires Wf(s) && c in s.communities && AllNoDup(m)
    requires ParentOf(s, c) == Some(p)
    requires p in s.communities && ParentOf(s, p) == Some(g)
    requires g in s.communities && ParentOf(s, g) == Some(q)
    requires q in s.communities && ParentOf(s, q).None?
    requires g in m && p in m[g] && q in m && m[q] == [g]
    ensures var r := RemoveParents(m, s, c);
      && (p in r ==> c !in r[p])
      && g in r && p in r[g]
      && q !in r
  {
    ParentFacts(s, c);
    ParentFacts(s, p);
    ParentFacts(s, g);
    var m1 := Detach(m, p, c);
    DetachSpec(m, p, c);
    assert m1[q] == [g];
    assert RemoveParents(m, s, c) == RemoveParents(m1, s, g);
    assert RemoveParents(m1, s, g) == Detach(m1, q, g);
    assert Depth(s, c) - Depth(s, p) == 1;
    RemoveParentsKeepsOddLevels(m, s, c, g, p);
  }

  /** One pass of removeCollection on community `p`: `x` leaves p's
      collection array, the key goes exactly when `x` was its only element,
      no other entry changes, and the community map changes only in that
      case, and only when `p` has no community entry and has a parent. */
  lemma DropCollectionSpec(m: MapPair, s: Snapshot, p: int, x: int)
    requires Wf(s) && p in s.communities && AllNoDup(m.0)
    ensures var r := DropCollection(m, s, p, x);
      && r.0 == Detach(m.0, p, x)
      && AllNoDup(r.0)
      && (forall k, y :: (k in r.0 && y in r.0[k]) <==> (k in m.0 && y in m.0[k]) && (k != p || y != x))
      && (p in m.0 && p !in r.0 <==> p in m.0 && m.0[p] == [x])
      && (r.1 == if p in m.0 && m.0[p] == [x] && p !in m.1 && ParentOf(s, p).Some? then RemoveParents(m.1, s, p)
                 else m.1)
  {
    DetachSpec(m.0, p, x);
    if p in m.0 && x in m.0[p] {
      RemoveFirstNoDup(m.0[p], x);
      var t := RemoveFirst(m.0[p], x);
      if |t| == 0 {
        assert m.0[p] == [x] by {
          assert |m.0[p]| == 1;
          assert m.0[p][0] in m.0[p];
        }
      } else {
        assert m.0[p] != [x];
      }
    }
  }

  /** removeCollectionID(c, id): every collection with that ID leaves `c`'s
      array and nothing else leaves; the key goes iff the array held that ID
      and nothing else; the community map changes only in that case, and only
      when `c` has no community entry and has a parent. */
  lemma DropCollectionIDSpec(m: MapPair, s: Snapshot, c: int, id: int)
    requires Wf(s) && c in s.communities
    ensures var r := DropCollectionID(m, s, c, id);
      && r.0 == DetachAll(m.0, c, id)
      && (forall k, y :: (k in r.0 && y in r.0[k]) <==> (k in m.0 && y in m.0[k]) && (k != c || y != id))
      && (c in m.0 && c !in r.0 <==> c in m.0 && id in m.0[c] && forall y :: y in m.0[c] ==> y == id)
      && (r.1 == if c in m.0 && id in m.0[c] && (forall y :: y in m.0[c] ==> y == id)
                    && c !in m.1 && ParentOf(s, c).Some? then RemoveParents(m.1, s, c)
                 else m.1)
  {
    if c in m.0 {
      RemoveAllSpec(m.0[c], id);
      var t := RemoveAll(m.0[c], id);
      if id in m.0[c] && |t| > 0 {
        assert t[0] in t;
      }
    }
  }

  /** removeCollection(x) over the communities `ps`: `x` leaves the array of
      every one of them that lists it, and nothing else leaves. */
  lemma {:induction false} RemoveCollectionFromSpec(m: MapPair, s: Snapshot, x: int, ps: seq<int>)
    requires Wf(s) && (forall i :: 0 <= i < |ps| ==> ps[i] in s.communities) && AllNoDup(m.0)
    ensures var r := RemoveCollectionFrom(m, s, x, ps);
      && AllNoDup(r.0)
      && (forall k, y :: (k in r.0 && y in r.0[k]) <==>
            (k in m.0 && y in m.0[k]) && !(y == x && k in ps && k in s.communities && x in Cols(s, k)))
  {
    if ps != [] {
      var init := ps[..|ps| - 1];
      var p := ps[|ps| - 1];
      assert ps == init + [p];
      RemoveCollectionFromSpec(m, s, x, init);
      var q := RemoveCollectionFrom(m, s, x, init);
      if x in Cols(s, p) {
        DropCollectionSpec(q, s, p, x);
      }
    }
  }

  /** addCollectionID(c, x) then removeCollection on `c` restores the
      collection map when `x` was not listed under `c` and c's array was not
      empty. */
  lemma InsertThenDrop(m: MapPair, s: Snapshot, c: int, x: int)
    requires Wf(s) && c in s.communities
    requires !(c in m.0 && x in m.0[c]) && (c in m.0 ==> m.0[c] != [])
    ensures DropCollection(InsertCollection(m, s, c, x), s, c, x).0 == m.0
  {
    InsertDetach(m.0, c, x);
    var i := InsertCollection(m, s, c, x);
    assert DropCollection(i, s, c, x).0 == Detach(i.0, c, x);
  }

  // ---------------------------------------------------------------------
  // Adding and removing community subtrees

  /** `r` is `m` without the collection entries of the communities of `D`
      that have collections and without the community entries of those that
      have sub-communities. */
  ghost predicate Pruned(m: MapPair, r: MapPair, s: Snapshot, D: set<int>) {
    && (forall k :: k in r.0 <==> k in m.0 && !(k in D && k in s.communities && |Cols(s, k)| > 0))
    && (forall k :: k in r.0 ==> r.0[k] == m.0[k])
    && (forall k :: k in r.1 <==> k in m.1 && !(k in D && k in s.communities && |Subs(s, k)| > 0))
    && (forall k :: k in r.1 ==> r.1[k] == m.1[k])
  }

  lemma PrunedTrans(m: MapPair, m1: MapPair, m2: MapPair, s: Snapshot, D1: set<int>, D2: set<int>)
    requires Pruned(m, m1, s, D1) && Pruned(m1, m2, s, D2)
    ensures Pruned(m, m2, s, D1 + D2)
  {
  }

  /** removeChildrenComm(c) removes exactly the entries of the subtree of
      `c`: collection entries of communities with collections, community
      entries of communities with sub-communities. */
  lemma {:induction false} RemoveChildrenSpec(m: MapPair, s: Snapshot, c: int)
    requires Wf(s) && c in s.communities
    ensures Pruned(m, RemoveChildren(m, s, c), s, Subtree(s, c))
    decreases s.depthBound - Depth(s, c), |Subs(s, c)| + 1
  {
    assert CommunityWf(s, c);
    SubsBelow(s, c);
    var colMap := if |Cols(s, c)| > 0 then m.0 - {c} else m.0;
    var commMap := if |Subs(s, c)| > 0 then m.1 - {c} else m.1;
    assert Pruned(m, (colMap, commMap), s, {c});
    RemoveChildrenAllSpec((colMap, commMap), s, Subs(s, c), Depth(s, c));
    PrunedTrans(m, (colMap, commMap), RemoveChildren(m, s, c), s, {c}, Forest(s, Subs(s, c), Depth(s, c)));
  }

  lemma {:induction false} RemoveChildrenAllSpec(m: MapPair, s: Snapshot, ids: seq<int>, k: int)
    requires Wf(s) && k < s.depthBound && Below(s, ids, k)
    ensures Pruned(m, RemoveChildrenAll(m, s, ids, k), s, Forest(s, ids, k))
    decreases s.depthBound - k, |ids|
  {
    if ids == [] {
      assert Pruned(m, m, s, {});
    } else {
      var init := ids[..|ids| - 1];
      var d := ids[|ids| - 1];
      assert CommunityWf(s, d);
      RemoveChildrenAllSpec(m, s, init, k);
      var p := RemoveChildrenAll(m, s, init, k);
      RemoveChildrenSpec(p, s, d);
      PrunedTrans(m, p, RemoveChildrenAll(m, s, ids, k), s, Forest(s, init, k), Subtree(s, d));
    }
  }

  /** `r` is `m` with the full collection array of every community of `D`
      that has collections, and with the full sub-community array of every
      community of `D` that has no entry yet (on the anonymous side only
      when it has sub-communities). */
  ghost predicate Grafted(m: MapPair, r: MapPair, s: Snapshot, D: set<int>, admin: bool) {
    && (forall k :: k in r.0 <==> k in m.0 || (k in D && k in s.communities && |Cols(s, k)| > 0))
    && (forall k :: k in D && k in s.communities && |Cols(s, k)| > 0 ==> k in r.0 && r.0[k] == Cols(s, k))
    && (forall k :: k in m.0 && !(k in D && k in s.communities && |Cols(s, k)| > 0) ==> k in r.0 && r.0[k] == m.0[k])
    && (forall k :: k in r.1 <==> k in m.1 || (k in D && k in s.communities && (admin || |Subs(s, k)| > 0)))
    && (forall k :: k in m.1 ==> k in r.1 && r.1[k] == m.1[k])
    && (forall k :: k in r.1 && k !in m.1 ==> k in s.communities && r.1[k] == Subs(s, k))
  }

  lemma GraftedTrans(m: MapPair, m1: MapPair, m2: MapPair, s: Snapshot, D1: set<int>, D2: set<int>, admin: bool)
    requires Grafted(m, m1, s, D1, admin) && Grafted(m1, m2, s, D2, admin)
    ensures Grafted(m, m2, s, D1 + D2, admin)
  {
  }

  /** addChildrenComm(c) records the whole subtree of `c`: every community
      with collections gets its full collection array, and every community
      without a community entry gets its full sub-community array (on the
      anonymous side only when it has sub-communities, and without any
      visibility test). */
  lemma {:induction false} AddChildrenSpec(m: MapPair, s: Snapshot, c: int, admin: bool)
    requires Wf(s) && c in s.communities
    ensures Grafted(m, AddChildren(m, s, c, admin), s, Subtree(s, c), admin)
    decreases s.depthBound - Depth(s, c), |Subs(s, c)| + 1
  {
    assert CommunityWf(s, c);
    SubsBelow(s, c);
    var cols := Cols(s, c);
    var comms := Subs(s, c);
    var colMap := if |cols| > 0 then m.0[c := cols] else m.0;
    var commMap := if c !in m.1 && (admin || |comms| > 0) then m.1[c := comms] else m.1;
    assert Grafted(m, (colMap, commMap), s, {c}, admin);
    AddChildrenAllSpec((colMap, commMap), s, comms, Depth(s, c), admin);
    GraftedTrans(m, (colMap, commMap), AddChildren(m, s, c, admin), s, {c}, Forest(s, comms, Depth(s, c)), admin);
  }

  lemma {:induction false} AddChildrenAllSpec(m: MapPair, s: Snapshot, ids: seq<int>, k: int, admin: bool)
    requires Wf(s) && k < s.depthBound && Below(s, ids, k)
    ensures Grafted(m, AddChildrenAll(m, s, ids, k, admin), s, Forest(s, ids, k), admin)
    decreases s.depthBound - k, |ids|
  {
    if ids == [] {
      assert Grafted(m, m, s, {}, admin);
    } else {
      var init := ids[..|ids| - 1];
      var d := ids[|ids| - 1];
      assert CommunityWf(s, d);
      AddChildrenAllSpec(m, s, init, k, admin);
      var p := AddChildrenAll(m, s, init, k, admin);
      AddChildrenSpec(p, s, d, admin);
      GraftedTrans(m, p, AddChildrenAll(m, s, ids, k, admin), s, Forest(s, init, k), Subtree(s, d), admin);
    }
  }
}
