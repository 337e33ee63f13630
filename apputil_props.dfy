/**
 * What the one-time build of the second generation leaves behind. On the
 * collection and community maps and on the derived lists it takes the same
 * steps as the first generation, so the results proved about that build
 * carry over; the authorisation maps are a structure of their own and are
 * treated here.
 */
module AppUtilProps {
  import opened Hierarchy
  import opened Classification
  import opened ChildMaps
  import opened Seqs
  import opened AppUtilSpec
  import FL = FrontList
  import FP = FrontListProps

  // ---------------------------------------------------------------------
  // The two builds agree on the maps and the lists

  /** The parts both generations compute alike are equal. */
  ghost predicate Sim(t: Cache, f: FL.Tables) {
    && Items(t.nyuOnly) == f.nyuOnly && Items(t.gallatinOnly) == f.gallatinOnly
    && Items(t.emptyCollections) == f.emptyCollections && Items(t.privateCollections) == f.privateCollections
    && t.colMapAnon == f.colMapAnon && t.commMapAnon == f.commMapAnon
    && t.colMapAdmin == f.colMapAdmin && t.commMapAdmin == f.commMapAdmin
  }

  /** Every nullable structure is allocated. */
  predicate Allocated(t: Cache) {
    && t.nyuOnly.List? && t.gallatinOnly.List? && t.emptyCollections.List? && t.privateCollections.List?
    && t.anonMaps && t.adminMaps && t.colAuthorizedUsers.Map? && t.commAuthorizedUsers.Map?
  }

  /** The parts buildCommunity leaves untouched. */
  function Kept(t: Cache): (NList, NList, NList, NList, bool, ChildMap, bool, ChildMap, NMap) {
    (t.nyuOnly, t.gallatinOnly, t.emptyCollections, t.privateCollections,
     t.anonMaps, t.colMapAnon, t.adminMaps, t.colMapAdmin, t.colAuthorizedUsers)
  }

  /** The first-generation tables with the same maps and lists. */
  function Mirror(t: Cache): FL.Tables {
    FL.Tables(Items(t.nyuOnly), Items(t.gallatinOnly), Items(t.emptyCollections), Items(t.privateCollections),
              t.colMapAnon, t.commMapAnon, t.colMapAdmin, t.commMapAdmin, [], [], [], [])
  }

  lemma CollectStepSim(t: Cache, f: FL.Tables, s: Snapshot, c: int)
    requires Wf(s) && c in s.communities && Sim(t, f)
    ensures Sim(CollectStep(t, s, c), FL.CollectStep(f, s, c))
    ensures Allocated(t) ==> Allocated(CollectStep(t, s, c))
    ensures CollectStep(t, s, c).commAuthorizedUsers == t.commAuthorizedUsers
  {
    CollectStepFields(t, s, c);
    FL.CollectStepFields(f, s, c);
  }

  lemma {:induction false} CollectAllSim(t: Cache, f: FL.Tables, s: Snapshot, cs: seq<int>)
    requires Wf(s) && (forall i :: 0 <= i < |cs| ==> cs[i] in s.communities) && Sim(t, f)
    ensures Sim(CollectAll(t, s, cs), FL.CollectAll(f, s, cs))
    ensures Allocated(t) ==> Allocated(CollectAll(t, s, cs))
    ensures CollectAll(t, s, cs).commAuthorizedUsers == t.commAuthorizedUsers
  {
    if cs != [] {
      var init := cs[..|cs| - 1];
      CollectAllSim(t, f, s, init);
      CollectStepSim(CollectAll(t, s, init), FL.CollectAll(f, s, init), s, cs[|cs| - 1]);
    }
  }

  /** buildCommunity takes the same steps in both generations, keeps the
      lists and the collection maps, and never duplicates an entry of the
      community authorisation map. */
  lemma {:induction false} WalkCommSim(t: Cache, f: FL.Tables, s: Snapshot, c: int)
    requires Wf(s) && c in s.communities && Sim(t, f)
    ensures var r := WalkComm(t, s, c);
      && Sim(r, FL.WalkComm(f, s, c)) && Kept(r) == Kept(t)
      && (Allocated(t) ==> Allocated(r))
      && (AllNoDup(Entries(t.commAuthorizedUsers)) ==> AllNoDup(Entries(r.commAuthorizedUsers)))
    decreases s.depthBound - Depth(s, c), |Subs(s, c)| + 1
  {
    assert CommunityWf(s, c);
    SubsBelow(s, c);
    var t1 := t.(commMapAdmin := t.commMapAdmin[c := Subs(s, c)]);
    var f1 := f.(commMapAdmin := f.commMapAdmin[c := Subs(s, c)]);
    WalkSubsSim(t1, f1, s, Subs(s, c), Depth(s, c));
    var w := WalkSubs(t1, s, Subs(s, c), Depth(s, c));
    var v := FL.WalkSubs(f1, s, Subs(s, c), Depth(s, c));
    assert WalkComm(t, s, c) == if |w.1| > 0 then w.0.(commMapAnon := w.0.commMapAnon[c := w.1]) else w.0;
    assert FL.WalkComm(f, s, c) == if |v.1| > 0 then v.0.(commMapAnon := v.0.commMapAnon[c := v.1]) else v.0;
  }

  lemma {:induction false} WalkSubsSim(t: Cache, f: FL.Tables, s: Snapshot, ids: seq<int>, k: int)
    requires Wf(s) && k < s.depthBound && Below(s, ids, k) && Sim(t, f)
    ensures var w := WalkSubs(t, s, ids, k);
            var v := FL.WalkSubs(f, s, ids, k);
      && Sim(w.0, v.0) && w.1 == v.1 && Kept(w.0) == Kept(t)
      && (Allocated(t) ==> Allocated(w.0))
      && (AllNoDup(Entries(t.commAuthorizedUsers)) ==> AllNoDup(Entries(w.0.commAuthorizedUsers)))
    decreases s.depthBound - k, |ids|
  {
    if ids != [] {
      var init := ids[..|ids| - 1];
      var d := ids[|ids| - 1];
      assert CommunityWf(s, d);
      WalkSubsSim(t, f, s, init, k);
      var w := WalkSubs(t, s, init, k);
      var v := FL.WalkSubs(f, s, init, k);
      WalkCommSim(w.0, v.0, s, d);
      var t2 := WalkComm(w.0, s, d);
      var v2 := FL.WalkComm(v.0, s, d);
      FP.CommGrantStepFrame(v2, s, d);
      var visible := d in t2.colMapAnon || d in t2.commMapAnon;
      assert visible == (d in v2.colMapAnon || d in v2.commMapAnon);
      assert WalkSubs(t, s, ids, k) == if visible then (t2, w.1 + [d]) else (HideStep(t2, s, d), w.1);
      assert FL.WalkSubs(f, s, ids, k) == if visible then (v2, v.1 + [d]) else (FL.CommGrantStep(v2, s, d), v.1);
      if AllNoDup(Entries(t.commAuthorizedUsers)) {
        PrependAllNoDup(Entries(t2.commAuthorizedUsers), CommunityUsers(s, d), d);
      }
    }
  }

  lemma {:induction false} WalkTopsSim(t: Cache, f: FL.Tables, s: Snapshot, tops: seq<int>)
    requires Wf(s) && (forall i :: 0 <= i < |tops| ==> tops[i] in s.communities) && Sim(t, f)
    ensures var r := WalkTops(t, s, tops);
      && Sim(r, FL.WalkTops(f, s, tops)) && Kept(r) == Kept(t)
      && (Allocated(t) ==> Allocated(r))
      && (AllNoDup(Entries(t.commAuthorizedUsers)) ==> AllNoDup(Entries(r.commAuthorizedUsers)))
  {
    if tops != [] {
      var init := tops[..|tops| - 1];
      WalkTopsSim(t, f, s, init);
      WalkCommSim(WalkTops(t, s, init), FL.WalkTops(f, s, init), s, tops[|tops| - 1]);
    }
  }

  /** The build of the second generation leaves the same maps and lists as
      the first generation's, with everything allocated and no duplicate in
      the community authorisation map. */
  lemma BuildSim(s: Snapshot)
    requires Wf(s)
    ensures Sim(BuildSpec(s), FL.BuildSpec(s)) && Allocated(BuildSpec(s))
    ensures AllNoDup(Entries(BuildSpec(s).commAuthorizedUsers))
    ensures Kept(BuildSpec(s)) == Kept(CollectAll(Fresh, s, s.allCommunities))
  {
    CollectAllSim(Fresh, FL.Fresh, s, s.allCommunities);
    var t1 := CollectAll(Fresh, s, s.allCommunities);
    TopsBelow(s);
    WalkTopsSim(t1, FL.CollectAll(FL.Fresh, s, s.allCommunities), s, s.topCommunities);
  }

  /** The collection maps after the build: colMapAdmin holds every
      community's full collection array, empty ones included; colMapAnon
      holds a community iff it has an available collection, with exactly
      its available collections. */
  lemma BuildColMaps(s: Snapshot, c: int)
    requires Wf(s)
    ensures var r := BuildSpec(s);
      && (c in r.colMapAdmin <==> c in s.allCommunities)
      && (c in r.colMapAdmin ==> r.colMapAdmin[c] == Cols(s, c))
      && (c in r.colMapAnon <==> c in s.allCommunities && |FP.AvailableOf(s, c)| > 0)
      && (c in r.colMapAnon ==> r.colMapAnon[c] == FP.AvailableOf(s, c))
  {
    BuildSim(s);
    FP.BuildColMaps(s, c);
  }

  /** The derived lists after the build, both directions: the same
      first-match classification as the first generation. */
  lemma BuildLists(s: Snapshot, y: int)
    requires Wf(s)
    ensures var r := BuildSpec(s);
      && (y in Items(r.nyuOnly) <==>
            FP.ListedBy(s, s.allCommunities, y) && !s.collections[y].isPublic && s.collections[y].isNYUOnly)
      && (y in Items(r.gallatinOnly) <==>
            FP.ListedBy(s, s.allCommunities, y) && !s.collections[y].isPublic && !s.collections[y].isNYUOnly
            && s.collections[y].isGallatin)
      && (y in Items(r.privateCollections) <==>
            FP.ListedBy(s, s.allCommunities, y) && !Available(s.collections[y]) && s.collections[y].isPrivate)
      && (y in Items(r.emptyCollections) <==>
            FP.ListedBy(s, s.allCommunities, y) && s.collections[y].itemCount == 0)
  {
    BuildSim(s);
    FP.BuildLists(s, y);
  }

  /** The community maps after the build: commMapAdmin holds the full
      sub-community array of every community reached from the top-level
      ones; commMapAnon holds the anonymously listed sub-communities of every
      reached community that has any, and nothing else. */
  lemma BuildCommMaps(s: Snapshot)
    requires Wf(s)
    ensures var r := BuildSpec(s);
      && r.commMapAdmin.Keys == FP.Reached(s)
      && FP.AdminConsistent(s, r.commMapAdmin)
      && FP.AnonConsistent(s, r.colMapAnon.Keys, r.commMapAnon)
      && FP.AnonRecorded(s, r.colMapAnon.Keys, FP.Reached(s), r.commMapAnon)
  {
    BuildSim(s);
    FP.BuildCommMaps(s);
  }

  // ---------------------------------------------------------------------
  // The collection authorisation map

  lemma {:induction false} HiddenUsersIn(m: ChildMap, s: Snapshot, ids: seq<int>, e: int, y: int)
    requires Wf(s) && AllCollections(s, ids)
    ensures var r := HiddenUsers(m, s, ids);
      (e in r && y in r[e]) <==>
        (e in m && y in m[e])
        || (y in s.collections && y in ids && !Available(s.collections[y]) && e in CollectionUsers(s, y))
  {
    if ids != [] {
      var init := ids[..|ids| - 1];
      var x := ids[|ids| - 1];
      assert ids == init + [x];
      assert AllCollections(s, init) by {
        forall i | 0 <= i < |init| ensures init[i] in s.collections {
          assert init[i] == ids[i];
        }
      }
      HiddenUsersIn(m, s, init, e, y);
      if !Available(s.collections[x]) {
        InsertAllIn(HiddenUsers(m, s, init), CollectionUsers(s, x), x, e, y);
      }
    }
  }

  lemma {:induction false} HiddenUsersNoDup(m: ChildMap, s: Snapshot, ids: seq<int>)
    requires Wf(s) && AllCollections(s, ids) && AllNoDup(m)
    ensures AllNoDup(HiddenUsers(m, s, ids))
  {
    if ids != [] {
      var init := ids[..|ids| - 1];
      assert AllCollections(s, init) by {
        forall i | 0 <= i < |init| ensures init[i] in s.collections {
          assert init[i] == ids[i];
        }
      }
      HiddenUsersNoDup(m, s, init);
      var x := ids[|ids| - 1];
      if !Available(s.collections[x]) {
        InsertAllNoDup(HiddenUsers(m, s, init), CollectionUsers(s, x), x);
      }
    }
  }

  lemma {:induction false} CollectAllColAuth(t: Cache, s: Snapshot, cs: seq<int>, e: int, y: int)
    requires Wf(s) && forall i :: 0 <= i < |cs| ==> cs[i] in s.communities
    ensures var m := Entries(t.colAuthorizedUsers);
            var r := Entries(CollectAll(t, s, cs).colAuthorizedUsers);
      && ((e in r && y in r[e]) <==>
            (e in m && y in m[e])
            || (y in s.collections && FP.ListedBy(s, cs, y) && !Available(s.collections[y])
                && e in CollectionUsers(s, y)))
      && (AllNoDup(m) ==> AllNoDup(r))
  {
    if cs != [] {
      var init := cs[..|cs| - 1];
      var c := cs[|cs| - 1];
      CollectAllColAuth(t, s, init, e, y);
      var p := CollectAll(t, s, init);
      CollectStepFields(p, s, c);
      HiddenUsersIn(Entries(p.colAuthorizedUsers), s, Cols(s, c), e, y);
      if AllNoDup(Entries(t.colAuthorizedUsers)) {
        HiddenUsersNoDup(Entries(p.colAuthorizedUsers), s, Cols(s, c));
      }
      FP.ListedBySnoc(s, cs, y);
    }
  }

  /** After the build, a user's collection array holds exactly the
      collections that some community lists, that are not available, and
      that the user is entitled to (its submitters or administrators, or the
      administrators of a parent community), each once. */
  lemma BuildColAuth(s: Snapshot, e: int, y: int)
    requires Wf(s)
    ensures var r := BuildSpec(s).colAuthorizedUsers;
      && r.Map? && AllNoDup(r.entries)
      && ((e in r.entries && y in r.entries[e]) <==>
            y in s.collections && FP.ListedBy(s, s.allCommunities, y) && !Available(s.collections[y])
            && e in CollectionUsers(s, y))
  {
    BuildSim(s);
    CollectAllColAuth(Fresh, s, s.allCommunities, e, y);
  }

  // ---------------------------------------------------------------------
  // The community authorisation map

  /** The hidden branch of buildCommunity: `d` goes in front of the array
      of each entitled user who lacks it, a user without a key gets the
      singleton [d], nothing else changes, and no duplicate appears. */
  lemma HideStepSpec(t: Cache, s: Snapshot, d: int)
    requires Wf(s) && d in s.communities
    ensures var m := Entries(t.commAuthorizedUsers);
            var ks := CommunityUsers(s, d);
            var r := HideStep(t, s, d);
      && r == t.(commAuthorizedUsers := r.commAuthorizedUsers) && r.commAuthorizedUsers.Map?
      && (forall e :: e in r.commAuthorizedUsers.entries <==> e in m || e in ks)
      && (forall e :: e in ks && e !in m ==> r.commAuthorizedUsers.entries[e] == [d])
      && (forall e :: e in ks && e in m && d !in m[e] ==> r.commAuthorizedUsers.entries[e] == [d] + m[e])
      && (forall e :: e in m && (e !in ks || d in m[e]) ==> r.commAuthorizedUsers.entries[e] == m[e])
      && (AllNoDup(m) ==> AllNoDup(r.commAuthorizedUsers.entries))
  {
    PrependAllExact(Entries(t.commAuthorizedUsers), CommunityUsers(s, d), d);
    if AllNoDup(Entries(t.commAuthorizedUsers)) {
      PrependAllNoDup(Entries(t.commAuthorizedUsers), CommunityUsers(s, d), d);
    }
  }

  /** The communities of `ids` that are not listed anonymously are in the
      array of every user entitled to them. */
  ghost predicate IdsRecorded(s: Snapshot, A: set<int>, ids: seq<int>, m: ChildMap)
    requires Wf(s)
  {
    forall i, e :: (0 <= i < |ids| && ids[i] in s.communities && !FP.Listed(s, A, ids[i])
                    && e in CommunityUsers(s, ids[i])) ==> e in m && ids[i] in m[e]
  }

  /** The same for the sub-communities of every community of `D`. */
  ghost predicate HiddenRecorded(s: Snapshot, A: set<int>, D: set<int>, m: ChildMap)
    requires Wf(s)
  {
    forall c :: c in D && c in s.communities ==> IdsRecorded(s, A, Subs(s, c), m)
  }

  /** Only sub-communities of communities of `D` that are not listed
      anonymously are recorded, and only for users entitled to them. */
  ghost predicate OnlyHidden(s: Snapshot, A: set<int>, D: set<int>, m: ChildMap)
    requires Wf(s)
  {
    forall e, d :: e in m && d in m[e] ==>
      && d in s.communities && !FP.Listed(s, A, d) && e in CommunityUsers(s, d)
      && HasParentIn(s, d, D)
  }

  /** `d` is a sub-community of a community of `D`. */
  ghost predicate HasParentIn(s: Snapshot, d: int, D: set<int>)
    requires d in s.communities
  {
    ParentOf(s, d).Some? && ParentOf(s, d).value in D && ParentOf(s, d).value in s.communities
    && d in Subs(s, ParentOf(s, d).value)
  }

  lemma IdsRecordedGrows(s: Snapshot, A: set<int>, ids: seq<int>, m1: ChildMap, m2: ChildMap)
    requires Wf(s) && IdsRecorded(s, A, ids, m1) && Grows(m1, m2)
    ensures IdsRecorded(s, A, ids, m2)
  {
  }

  lemma HiddenRecordedGrows(s: Snapshot, A: set<int>, D: set<int>, m1: ChildMap, m2: ChildMap)
    requires Wf(s) && HiddenRecorded(s, A, D, m1) && Grows(m1, m2)
    ensures HiddenRecorded(s, A, D, m2)
  {
    forall c | c in D && c in s.communities ensures IdsRecorded(s, A, Subs(s, c), m2) {
      IdsRecordedGrows(s, A, Subs(s, c), m1, m2);
    }
  }

  /** The hidden branch grants `d` to every entitled user and removes nothing. */
  lemma HideStepGrants(t: Cache, s: Snapshot, d: int)
    requires Wf(s) && d in s.communities
    ensures var m := Entries(t.commAuthorizedUsers);
            var r := Entries(HideStep(t, s, d).commAuthorizedUsers);
      && Grows(m, r)
      && (forall e :: e in CommunityUsers(s, d) ==> e in r && d in r[e])
  {
    var ks := CommunityUsers(s, d);
    PrependAllSpec(Entries(t.commAuthorizedUsers), ks, d);
    var r := Entries(HideStep(t, s, d).commAuthorizedUsers);
    forall e | e in ks ensures e in r && d in r[e] {
      var j :| 0 <= j < |ks| && ks[j] == e;
    }
  }

  /** The visibility facts of the first generation, for this one's walk:
      buildCommunity keeps colMapAnon and the consistency of commMapAnon,
      and its test on a community is exactly "listed anonymously". */
  lemma WalkCommVisible(t: Cache, s: Snapshot, c: int)
    requires Wf(s) && c in s.communities && FP.AnonConsistent(s, t.colMapAnon.Keys, t.commMapAnon)
    ensures var r := WalkComm(t, s, c);
      && r.colMapAnon == t.colMapAnon
      && FP.AnonConsistent(s, t.colMapAnon.Keys, r.commMapAnon)
      && ((c in r.colMapAnon || c in r.commMapAnon) <==> FP.Listed(s, t.colMapAnon.Keys, c))
  {
    var f := Mirror(t);
    WalkCommSim(t, f, s, c);
    FP.WalkCommAnon(f, s, c);
    SubtreeInCommunities(s, c);
    FP.ListedTest(FL.WalkComm(f, s, c), s, t.colMapAnon.Keys, c);
  }

  lemma WalkSubsVisible(t: Cache, s: Snapshot, ids: seq<int>, k: int)
    requires Wf(s) && k < s.depthBound && Below(s, ids, k)
    requires FP.AnonConsistent(s, t.colMapAnon.Keys, t.commMapAnon)
    ensures var r := WalkSubs(t, s, ids, k).0;
      r.colMapAnon == t.colMapAnon && FP.AnonConsistent(s, t.colMapAnon.Keys, r.commMapAnon)
  {
    var f := Mirror(t);
    WalkSubsSim(t, f, s, ids, k);
    FP.WalkSubsAnon(f, s, ids, k);
  }

  lemma WalkTopsVisible(t: Cache, s: Snapshot, tops: seq<int>)
    requires Wf(s) && Below(s, tops, -1) && FP.AnonConsistent(s, t.colMapAnon.Keys, t.commMapAnon)
    ensures var r := WalkTops(t, s, tops);
      r.colMapAnon == t.colMapAnon && FP.AnonConsistent(s, t.colMapAnon.Keys, r.commMapAnon)
  {
    var f := Mirror(t);
    WalkTopsSim(t, f, s, tops);
    FP.WalkTopsAnon(f, s, tops);
  }

  /** buildCommunity(c) only adds to the community authorisation map, and
      every sub-community in the subtree of `c` that is not listed
      anonymously ends up in the array of every user entitled to it. */
  lemma {:induction false} WalkCommHidden(t: Cache, s: Snapshot, c: int)
    requires Wf(s) && c in s.communities && FP.AnonConsistent(s, t.colMapAnon.Keys, t.commMapAnon)
    ensures var r := Entries(WalkComm(t, s, c).commAuthorizedUsers);
      && Grows(Entries(t.commAuthorizedUsers), r)
      && HiddenRecorded(s, t.colMapAnon.Keys, Subtree(s, c), r)
    decreases s.depthBound - Depth(s, c), |Subs(s, c)| + 1
  {
    assert CommunityWf(s, c);
    SubsBelow(s, c);
    var t1 := t.(commMapAdmin := t.commMapAdmin[c := Subs(s, c)]);
    WalkSubsHidden(t1, s, Subs(s, c), Depth(s, c));
    var w := WalkSubs(t1, s, Subs(s, c), Depth(s, c));
    assert WalkComm(t, s, c).commAuthorizedUsers == w.0.commAuthorizedUsers;
  }

  lemma {:induction false} WalkSubsHidden(t: Cache, s: Snapshot, ids: seq<int>, k: int)
    requires Wf(s) && k < s.depthBound && Below(s, ids, k)
    requires FP.AnonConsistent(s, t.colMapAnon.Keys, t.commMapAnon)
    ensures var r := Entries(WalkSubs(t, s, ids, k).0.commAuthorizedUsers);
      && Grows(Entries(t.commAuthorizedUsers), r)
      && HiddenRecorded(s, t.colMapAnon.Keys, Forest(s, ids, k), r)
      && IdsRecorded(s, t.colMapAnon.Keys, ids, r)
    decreases s.depthBound - k, |ids|
  {
    if ids != [] {
      var A := t.colMapAnon.Keys;
      var init := ids[..|ids| - 1];
      var d := ids[|ids| - 1];
      assert CommunityWf(s, d);
      WalkSubsHidden(t, s, init, k);
      WalkSubsVisible(t, s, init, k);
      var w := WalkSubs(t, s, init, k);
      WalkCommHidden(w.0, s, d);
      WalkCommVisible(w.0, s, d);
      var t2 := WalkComm(w.0, s, d);
      var visible := d in t2.colMapAnon || d in t2.commMapAnon;
      var r := if visible then t2 else HideStep(t2, s, d);
      assert WalkSubs(t, s, ids, k).0 == r;
      HideStepGrants(t2, s, d);
      var m1 := Entries(w.0.commAuthorizedUsers);
      var m2 := Entries(t2.commAuthorizedUsers);
      var m3 := Entries(r.commAuthorizedUsers);
      assert Grows(m2, m3);
      SubsHiddenStep(s, A, ids, k, m1, m2, m3);
      GrowsTrans(m1, m2, m3);
      GrowsTrans(Entries(t.commAuthorizedUsers), m1, m3);
    }
  }

  /** One step of the loop of buildCommunity, on the recorded facts alone. */
  lemma SubsHiddenStep(s: Snapshot, A: set<int>, ids: seq<int>, k: int, m1: ChildMap, m2: ChildMap, m3: ChildMap)
    requires Wf(s) && k < s.depthBound && Below(s, ids, k) && ids != []
    requires Grows(m1, m2) && Grows(m2, m3)
    requires HiddenRecorded(s, A, Forest(s, ids[..|ids| - 1], k), m1)
    requires IdsRecorded(s, A, ids[..|ids| - 1], m1)
    requires HiddenRecorded(s, A, Subtree(s, ids[|ids| - 1]), m2)
    requires !FP.Listed(s, A, ids[|ids| - 1]) ==>
               forall e :: e in CommunityUsers(s, ids[|ids| - 1]) ==> e in m3 && ids[|ids| - 1] in m3[e]
    ensures HiddenRecorded(s, A, Forest(s, ids, k), m3) && IdsRecorded(s, A, ids, m3)
  {
    var init := ids[..|ids| - 1];
    var d := ids[|ids| - 1];
    GrowsTrans(m1, m2, m3);
    HiddenRecordedGrows(s, A, Forest(s, init, k), m1, m3);
    HiddenRecordedGrows(s, A, Subtree(s, d), m2, m3);
    IdsRecordedGrows(s, A, init, m1, m3);
    assert Forest(s, ids, k) == Forest(s, init, k) + Subtree(s, d);
    HiddenRecordedUnion(s, A, Forest(s, init, k), Subtree(s, d), m3);
    IdsRecordedSnoc(s, A, ids, m3);
  }

  lemma HiddenRecordedUnion(s: Snapshot, A: set<int>, D1: set<int>, D2: set<int>, m: ChildMap)
    requires Wf(s) && HiddenRecorded(s, A, D1, m) && HiddenRecorded(s, A, D2, m)
    ensures HiddenRecorded(s, A, D1 + D2, m)
  {
  }

  lemma IdsRecordedSnoc(s: Snapshot, A: set<int>, ids: seq<int>, m: ChildMap)
    requires Wf(s) && ids != [] && IdsRecorded(s, A, ids[..|ids| - 1], m)
    requires ids[|ids| - 1] in s.communities && !FP.Listed(s, A, ids[|ids| - 1]) ==>
               forall e :: e in CommunityUsers(s, ids[|ids| - 1]) ==> e in m && ids[|ids| - 1] in m[e]
    ensures IdsRecorded(s, A, ids, m)
  {
    var init := ids[..|ids| - 1];
    forall i, e | 0 <= i < |ids| && ids[i] in s.communities && !FP.Listed(s, A, ids[i])
                  && e in CommunityUsers(s, ids[i])
      ensures e in m && ids[i] in m[e]
    {
      if i < |init| {
        assert init[i] == ids[i];
      }
    }
  }

  lemma {:induction false} WalkTopsHidden(t: Cache, s: Snapshot, tops: seq<int>)
    requires Wf(s) && Below(s, tops, -1) && FP.AnonConsistent(s, t.colMapAnon.Keys, t.commMapAnon)
    ensures var r := Entries(WalkTops(t, s, tops).commAuthorizedUsers);
      && Grows(Entries(t.commAuthorizedUsers), r)
      && HiddenRecorded(s, t.colMapAnon.Keys, Forest(s, tops, -1), r)
  {
    if tops != [] {
      var init := tops[..|tops| - 1];
      var c := tops[|tops| - 1];
      assert CommunityWf(s, c);
      WalkTopsHidden(t, s, init);
      WalkTopsVisible(t, s, init);
      var p := WalkTops(t, s, init);
      WalkCommHidden(p, s, c);
      var m1 := Entries(p.commAuthorizedUsers);
      var m2 := Entries(WalkTops(t, s, tops).commAuthorizedUsers);
      GrowsTrans(Entries(t.commAuthorizedUsers), m1, m2);
      HiddenRecordedGrows(s, t.colMapAnon.Keys, Forest(s, init, -1), m1, m2);
    }
  }

  /** buildCommunity(c) records only communities that are not listed
      anonymously, and only for users entitled to them. */
  lemma {:induction false} WalkCommOnly(t: Cache, s: Snapshot, c: int, D: set<int>)
    requires Wf(s) && c in s.communities && FP.AnonConsistent(s, t.colMapAnon.Keys, t.commMapAnon)
    requires Subtree(s, c) <= D
    requires OnlyHidden(s, t.colMapAnon.Keys, D, Entries(t.commAuthorizedUsers))
    ensures OnlyHidden(s, t.colMapAnon.Keys, D, Entries(WalkComm(t, s, c).commAuthorizedUsers))
    decreases s.depthBound - Depth(s, c), |Subs(s, c)| + 1
  {
    assert CommunityWf(s, c);
    SubsBelow(s, c);
    SubtreeInCommunities(s, c);
    forall i | 0 <= i < |Subs(s, c)| ensures HasParentIn(s, Subs(s, c)[i], D) {
      SubFacts(s, c, i);
    }
    var t1 := t.(commMapAdmin := t.commMapAdmin[c := Subs(s, c)]);
    WalkSubsOnly(t1, s, Subs(s, c), Depth(s, c), D);
    var w := WalkSubs(t1, s, Subs(s, c), Depth(s, c));
    assert WalkComm(t, s, c).commAuthorizedUsers == w.0.commAuthorizedUsers;
  }

  lemma {:induction false} WalkSubsOnly(t: Cache, s: Snapshot, ids: seq<int>, k: int, D: set<int>)
    requires Wf(s) && k < s.depthBound && Below(s, ids, k)
    requires Forest(s, ids, k) <= D && forall i :: 0 <= i < |ids| ==> HasParentIn(s, ids[i], D)
    requires FP.AnonConsistent(s, t.colMapAnon.Keys, t.commMapAnon)
    requires OnlyHidden(s, t.colMapAnon.Keys, D, Entries(t.commAuthorizedUsers))
    ensures OnlyHidden(s, t.colMapAnon.Keys, D, Entries(WalkSubs(t, s, ids, k).0.commAuthorizedUsers))
    decreases s.depthBound - k, |ids|
  {
    if ids != [] {
      var A := t.colMapAnon.Keys;
      var init := ids[..|ids| - 1];
      var d := ids[|ids| - 1];
      assert CommunityWf(s, d);
      assert forall i :: 0 <= i < |init| ==> init[i] == ids[i];
      WalkSubsOnly(t, s, init, k, D);
      WalkSubsVisible(t, s, init, k);
      var w := WalkSubs(t, s, init, k);
      WalkCommOnly(w.0, s, d, D);
      WalkCommVisible(w.0, s, d);
      var t2 := WalkComm(w.0, s, d);
      var visible := d in t2.colMapAnon || d in t2.commMapAnon;
      assert WalkSubs(t, s, ids, k).0 == if visible then t2 else HideStep(t2, s, d);
      if !visible {
        HideStepOnly(t2, s, A, D, d);
      }
    }
  }

  /** The hidden branch adds only `d`, a sub-community of a community of
      `D` that is not listed, and only for users entitled to it. */
  lemma HideStepOnly(t: Cache, s: Snapshot, A: set<int>, D: set<int>, d: int)
    requires Wf(s) && d in s.communities && !FP.Listed(s, A, d) && HasParentIn(s, d, D)
    requires OnlyHidden(s, A, D, Entries(t.commAuthorizedUsers))
    ensures OnlyHidden(s, A, D, Entries(HideStep(t, s, d).commAuthorizedUsers))
  {
    var m := Entries(t.commAuthorizedUsers);
    var r := Entries(HideStep(t, s, d).commAuthorizedUsers);
    forall e, y | e in r && y in r[e]
      ensures y in s.communities && !FP.Listed(s, A, y) && e in CommunityUsers(s, y) && HasParentIn(s, y, D)
    {
      PrependAllIn(m, CommunityUsers(s, d), d, e, y);
    }
  }

  lemma {:induction false} WalkTopsOnly(t: Cache, s: Snapshot, tops: seq<int>, D: set<int>)
    requires Wf(s) && Below(s, tops, -1) && FP.AnonConsistent(s, t.colMapAnon.Keys, t.commMapAnon)
    requires Forest(s, tops, -1) <= D
    requires OnlyHidden(s, t.colMapAnon.Keys, D, Entries(t.commAuthorizedUsers))
    ensures OnlyHidden(s, t.colMapAnon.Keys, D, Entries(WalkTops(t, s, tops).commAuthorizedUsers))
  {
    if tops != [] {
      var init := tops[..|tops| - 1];
      WalkTopsOnly(t, s, init, D);
      WalkTopsVisible(t, s, init);
      WalkCommOnly(WalkTops(t, s, init), s, tops[|tops| - 1], D);
    }
  }

  /** After the build, the community authorisation map records every
      sub-community of a reached community that is not listed anonymously
      (the sub-communities BuildCommMaps leaves out of commMapAnon) for every
      user entitled to it, and records nothing else; no array holds a
      community twice. */
  lemma BuildCommAuth(s: Snapshot)
    requires Wf(s)
    ensures var r := BuildSpec(s);
      && r.commAuthorizedUsers.Map? && AllNoDup(r.commAuthorizedUsers.entries)
      && HiddenRecorded(s, r.colMapAnon.Keys, FP.Reached(s), r.commAuthorizedUsers.entries)
      && OnlyHidden(s, r.colMapAnon.Keys, FP.Reached(s), r.commAuthorizedUsers.entries)
  {
    BuildSim(s);
    var t1 := CollectAll(Fresh, s, s.allCommunities);
    CollectAllSim(Fresh, FL.Fresh, s, s.allCommunities);
    FP.CollectAllGrows(FL.Fresh, s, s.allCommunities);
    assert t1.commMapAnon == map[];
    TopsBelow(s);
    WalkTopsHidden(t1, s, s.topCommunities);
    WalkTopsOnly(t1, s, s.topCommunities, FP.Reached(s));
  }
}
