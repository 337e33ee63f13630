/**
 * What the first-generation build leaves behind, stated about the functions
 * the class `FrontList.ListUserCommunities` is proved against: the maps and
 * lists after the build, bottom-up visibility of communities, the triples of
 * hidden collections, and the lookups.
 */
module FrontListProps {
  import opened Hierarchy
  import opened Classification
  import opened ChildMaps
  import opened Seqs
  import opened FrontList

  // ---------------------------------------------------------------------
  // Triples and lookups

  lemma {:induction false} TagIndex(es: seq<int>, g: int, node: int)
    ensures |Tag(es, g, node)| == |es|
    ensures forall i :: 0 <= i < |es| ==> Tag(es, g, node)[i] == Grant(es[i], g, node)
  {
    if es != [] {
      TagIndex(es[..|es| - 1], g, node);
    }
  }

  lemma {:induction false} EpsIndex(ts: seq<Grant>)
    ensures |Eps(ts)| == |ts|
    ensures forall i :: 0 <= i < |ts| ==> Eps(ts)[i] == ts[i].eperson
  {
    if ts != [] {
      EpsIndex(ts[..|ts| - 1]);
    }
  }

  lemma EpsAppend(a: seq<Grant>, b: seq<Grant>)
    ensures Eps(a + b) == Eps(a) + Eps(b)
  {
    EpsIndex(a + b);
    EpsIndex(a);
    EpsIndex(b);
  }

  lemma EpsTag(es: seq<int>, g: int, node: int)
    ensures Eps(Tag(es, g, node)) == es
  {
    TagIndex(es, g, node);
    EpsIndex(Tag(es, g, node));
  }

  /** A triple for group `g` and node `node` exists exactly for the direct
      members of `g` and the members of its member groups, and it always
      carries the outer group's ID. */
  lemma GroupGrantsIff(s: Snapshot, g: int, node: int, t: Grant)
    requires Wf(s) && g in s.groups
    ensures t in GroupGrants(s, g, node) <==>
      t.group == g && t.node == node &&
      (t.eperson in MembersOf(s, g) ||
       exists i :: 0 <= i < |s.groups[g].memberGroups| && t.eperson in MembersOf(s, s.groups[g].memberGroups[i]))
  {
    TagIndex(GroupUsers(s, g), g, node);
    GroupUsersOneLevel(s, g, t.eperson);
    if t.group == g && t.node == node && t.eperson in GroupUsers(s, g) {
      var i :| 0 <= i < |GroupUsers(s, g)| && GroupUsers(s, g)[i] == t.eperson;
      assert GroupGrants(s, g, node)[i] == t;
    }
  }

  lemma OptGroupGrantsUsers(s: Snapshot, g: Option<int>, node: int)
    requires Wf(s) && GroupRef(s, g)
    ensures Eps(OptGroupGrants(s, g, node)) == OptGroupUsers(s, g)
    ensures forall i :: 0 <= i < |OptGroupGrants(s, g, node)| ==> OptGroupGrants(s, g, node)[i].node == node
  {
    if g.Some? {
      EpsTag(GroupUsers(s, g.value), g.value, node);
      TagIndex(GroupUsers(s, g.value), g.value, node);
    }
  }

  lemma {:induction false} ParentGrantsUsers(s: Snapshot, cs: seq<int>, x: int)
    requires Wf(s) && forall i :: 0 <= i < |cs| ==> cs[i] in s.communities
    ensures Eps(ParentGrants(s, cs, x)) == AdminsOfAll(s, cs)
    ensures forall i :: 0 <= i < |ParentGrants(s, cs, x)| ==> ParentGrants(s, cs, x)[i].node == x
  {
    if cs != [] {
      var init := cs[..|cs| - 1];
      var p := cs[|cs| - 1];
      assert CommunityWf(s, p);
      ParentGrantsUsers(s, init, x);
      OptGroupGrantsUsers(s, s.communities[p].administrators, x);
      EpsAppend(ParentGrants(s, init, x), OptGroupGrants(s, s.communities[p].administrators, x));
    }
  }

  /** buildAuthorizedColList records exactly the users getAuthirizedCollectionUsers
      finds (collection administrators, submitters, and the administrators of
      every community listing it), in the same order, each with the collection. */
  lemma ColGrantsUsers(s: Snapshot, x: int)
    requires Wf(s) && x in s.collections
    ensures Eps(ColGrants(s, x)) == CollectionUsers(s, x)
    ensures forall i :: 0 <= i < |ColGrants(s, x)| ==> ColGrants(s, x)[i].node == x
  {
    ColGrantsParts(s, x);
    var k := s.collections[x];
    OptGroupGrantsUsers(s, k.administrators, x);
    OptGroupGrantsUsers(s, k.submitters, x);
    ParentGrantsUsers(s, k.communities, x);
    EpsAppend(OptGroupGrants(s, k.administrators, x), OptGroupGrants(s, k.submitters, x));
    EpsAppend(OptGroupGrants(s, k.administrators, x) + OptGroupGrants(s, k.submitters, x),
              ParentGrants(s, k.communities, x));
  }

  /** getAuthorizedCollections / getAuthorizedCommunities: a node is returned
      iff some triple of the e-person carries it. */
  lemma {:induction false} SelectIn(ts: seq<Grant>, e: int, y: int)
    ensures y in Select(ts, e) <==> exists i :: 0 <= i < |ts| && ts[i].eperson == e && ts[i].node == y
  {
    if ts != [] {
      var init := ts[..|ts| - 1];
      SelectIn(init, e, y);
      if exists i :: 0 <= i < |init| && init[i].eperson == e && init[i].node == y {
        var i :| 0 <= i < |init| && init[i].eperson == e && init[i].node == y;
        assert ts[i] == init[i];
      }
      if exists i :: 0 <= i < |ts| && ts[i].eperson == e && ts[i].node == y {
        var i :| 0 <= i < |ts| && ts[i].eperson == e && ts[i].node == y;
        if i < |init| {
          assert init[i] == ts[i];
        }
      }
    }
  }

  /** The lookup keeps list order and duplicates: it distributes over
      concatenation and yields one node per matching triple. */
  lemma {:induction false} SelectAppend(a: seq<Grant>, b: seq<Grant>, e: int)
    ensures Select(a + b, e) == Select(a, e) + Select(b, e)
    decreases |b|
  {
    if b == [] {
      assert a + b == a;
    } else {
      var b' := b[..|b| - 1];
      assert (a + b)[..|a + b| - 1] == a + b';
      SelectAppend(a, b', e);
    }
  }

  /** checkAuthorizedCollections / checkAuthorizedCommunities agree with the
      lookups: true iff the lookup is non-empty. */
  lemma {:induction false} SelectEmpty(ts: seq<Grant>, e: int)
    ensures Select(ts, e) == [] <==> forall i :: 0 <= i < |ts| ==> ts[i].eperson != e
  {
    if ts != [] {
      var init := ts[..|ts| - 1];
      SelectEmpty(init, e);
      if forall i :: 0 <= i < |init| ==> init[i].eperson != e {
        forall i | 0 <= i < |ts| - 1 ensures ts[i].eperson != e {
          assert init[i] == ts[i];
        }
      }
      if forall i :: 0 <= i < |ts| ==> ts[i].eperson != e {
        forall i | 0 <= i < |init| ensures init[i].eperson != e {
          assert init[i] == ts[i];
        }
      }
    }
  }

  // ---------------------------------------------------------------------
  // The collection phase

  /** The collections some community of `cs` lists. */
  ghost predicate ListedBy(s: Snapshot, cs: seq<int>, y: int) {
    exists i :: 0 <= i < |cs| && cs[i] in s.communities && y in Cols(s, cs[i])
  }

  /** The available collections of community `k`, in array order. */
  function AvailableOf(s: Snapshot, k: int): seq<int>
    requires Wf(s) && k in s.communities
  {
    assert CommunityWf(s, k);
    ClassifyAll(s, Cols(s, k)).available
  }

  /** Every entry of the collection maps is what buildCollections computes for
      its key, whichever visit wrote it last. */
  ghost predicate ColMapsConsistent(s: Snapshot, t: Tables)
    requires Wf(s)
  {
    && (forall k :: k in t.colMapAdmin ==> k in s.communities && t.colMapAdmin[k] == Cols(s, k))
    && (forall k :: k in t.colMapAnon ==> k in s.communities && t.colMapAnon[k] == AvailableOf(s, k)
                                            && |t.colMapAnon[k]| > 0)
  }

  /** What buildCollections leaves untouched. */
  ghost predicate CollectFrame(t: Tables, r: Tables) {
    && r.commMapAnon == t.commMapAnon && r.commMapAdmin == t.commMapAdmin
    && r.colAuthorizedUsers == t.colAuthorizedUsers && r.commAuthorizedUsers == t.commAuthorizedUsers
    && r.commAuthorizedUsersRaw == t.commAuthorizedUsersRaw
    && t.colAuthorizedUsersRaw <= r.colAuthorizedUsersRaw
  }

  lemma CollectStepMaps(t: Tables, s: Snapshot, c: int)
    requires Wf(s) && c in s.communities && ColMapsConsistent(s, t)
    ensures var r := CollectStep(t, s, c);
      && CollectFrame(t, r) && ColMapsConsistent(s, r)
      && (forall k :: k in r.colMapAdmin <==> k in t.colMapAdmin || k == c)
      && (forall k :: k in r.colMapAnon <==> k in t.colMapAnon || (k == c && |AvailableOf(s, c)| > 0))
  {
    assert CommunityWf(s, c);
  }

  lemma CollectStepLists(t: Tables, s: Snapshot, c: int, y: int)
    requires Wf(s) && c in s.communities
    ensures var r := CollectStep(t, s, c);
      && (y in r.nyuOnly <==> y in t.nyuOnly || (y in Cols(s, c) && ScopeOf(s.collections[y]) == NYUOnly))
      && (y in r.gallatinOnly <==> y in t.gallatinOnly || (y in Cols(s, c) && ScopeOf(s.collections[y]) == Gallatin))
      && (y in r.privateCollections <==>
            (y in t.privateCollections || (y in Cols(s, c) && !Available(s.collections[y]) && s.collections[y].isPrivate)))
      && (y in r.emptyCollections <==>
            (y in t.emptyCollections || (y in Cols(s, c) && s.collections[y].itemCount == 0)))
  {
    assert CommunityWf(s, c);
    ClassifyAllIn(s, Cols(s, c), y);
  }

  lemma ListedBySnoc(s: Snapshot, cs: seq<int>, y: int)
    requires cs != [] && cs[|cs| - 1] in s.communities
    ensures ListedBy(s, cs, y) <==> ListedBy(s, cs[..|cs| - 1], y) || y in Cols(s, cs[|cs| - 1])
  {
    var init := cs[..|cs| - 1];
    if ListedBy(s, init, y) {
      var i :| 0 <= i < |init| && init[i] in s.communities && y in Cols(s, init[i]);
      assert cs[i] == init[i];
    }
    if ListedBy(s, cs, y) && !(y in Cols(s, cs[|cs| - 1])) {
      var i :| 0 <= i < |cs| && cs[i] in s.communities && y in Cols(s, cs[i]);
      assert init[i] == cs[i];
    }
  }

  /** The collection phase on the maps: each entry is what buildCollections
      computes for its key, colMapAdmin gains every visited community and
      colMapAnon the visited ones with an available collection. */
  lemma {:induction false} CollectAllMaps(t: Tables, s: Snapshot, cs: seq<int>)
    requires Wf(s) && (forall i :: 0 <= i < |cs| ==> cs[i] in s.communities) && ColMapsConsistent(s, t)
    ensures var r := CollectAll(t, s, cs);
      && CollectFrame(t, r) && ColMapsConsistent(s, r)
      && (forall k :: k in r.colMapAdmin <==> k in t.colMapAdmin || k in cs)
      && (forall k :: k in r.colMapAnon <==> k in t.colMapAnon || (k in cs && |AvailableOf(s, k)| > 0))
  {
    if cs != [] {
      var init := cs[..|cs| - 1];
      CollectAllMaps(t, s, init);
      CollectStepMaps(CollectAll(t, s, init), s, cs[|cs| - 1]);
      assert cs == init + [cs[|cs| - 1]];
    }
  }

  /** The collection phase on the derived lists: each holds exactly the
      collections of the visited communities with its flags. */
  lemma {:induction false} CollectAllLists(t: Tables, s: Snapshot, cs: seq<int>, y: int)
    requires Wf(s) && (forall i :: 0 <= i < |cs| ==> cs[i] in s.communities)
    ensures var r := CollectAll(t, s, cs);
      && (y in r.nyuOnly <==> y in t.nyuOnly || (ListedBy(s, cs, y) && ScopeOf(s.collections[y]) == NYUOnly))
      && (y in r.gallatinOnly <==> y in t.gallatinOnly || (ListedBy(s, cs, y) && ScopeOf(s.collections[y]) == Gallatin))
      && (y in r.privateCollections <==>
            (y in t.privateCollections || (ListedBy(s, cs, y) && !Available(s.collections[y]) && s.collections[y].isPrivate)))
      && (y in r.emptyCollections <==>
            (y in t.emptyCollections || (ListedBy(s, cs, y) && s.collections[y].itemCount == 0)))
  {
    if cs != [] {
      var init := cs[..|cs| - 1];
      CollectAllLists(t, s, init, y);
      CollectStepLists(CollectAll(t, s, init), s, cs[|cs| - 1], y);
      ListedBySnoc(s, cs, y);
    }
  }

  lemma {:induction false} HiddenGrantsIn(s: Snapshot, ids: seq<int>, x: int, g: Grant)
    requires Wf(s) && AllCollections(s, ids)
    requires x in ids && !Available(s.collections[x]) && g in ColGrants(s, x)
    ensures g in HiddenGrants(s, ids)
  {
    var init := ids[..|ids| - 1];
    if ids[|ids| - 1] != x {
      assert ids == init + [ids[|ids| - 1]];
      HiddenGrantsIn(s, init, x, g);
    }
  }

  /** buildCollections(c) records the triples of every collection of `c`
      that is not available. */
  lemma {:induction false} CollectAllGrants(t: Tables, s: Snapshot, cs: seq<int>, c: int, x: int, g: Grant)
    requires Wf(s) && (forall i :: 0 <= i < |cs| ==> cs[i] in s.communities)
    requires c in cs && x in Cols(s, c) && x in s.collections && !Available(s.collections[x]) && g in ColGrants(s, x)
    ensures g in CollectAll(t, s, cs).colAuthorizedUsersRaw
  {
    var init := cs[..|cs| - 1];
    var last := cs[|cs| - 1];
    assert CommunityWf(s, last);
    assert cs == init + [last];
    if last == c {
      HiddenGrantsIn(s, Cols(s, c), x, g);
    } else {
      CollectAllGrants(t, s, init, c, x, g);
    }
  }

  lemma {:induction false} CollectAllGrows(t: Tables, s: Snapshot, cs: seq<int>)
    requires Wf(s) && forall i :: 0 <= i < |cs| ==> cs[i] in s.communities
    ensures t.colAuthorizedUsersRaw <= CollectAll(t, s, cs).colAuthorizedUsersRaw
    ensures CollectAll(t, s, cs).commAuthorizedUsersRaw == t.commAuthorizedUsersRaw
    ensures CollectAll(t, s, cs).commMapAnon == t.commMapAnon
    ensures CollectAll(t, s, cs).commMapAdmin == t.commMapAdmin
  {
    if cs != [] {
      CollectAllGrows(t, s, cs[..|cs| - 1]);
    }
  }

  // ---------------------------------------------------------------------
  // Bottom-up visibility of communities

  /** A community is listed for anonymous users iff it has an available
      collection (it is a key of colMapAnon, the set `A`) or a listed
      sub-community. */
  ghost predicate Listed(s: Snapshot, A: set<int>, d: int)
    requires Wf(s) && d in s.communities
    decreases s.depthBound - Depth(s, d), |Subs(s, d)| + 2
  {
    d in A || |AnonSubs(s, A, d)| > 0
  }

  /** The listed sub-communities of `d`, in array order. */
  ghost function AnonSubs(s: Snapshot, A: set<int>, d: int): seq<int>
    requires Wf(s) && d in s.communities
    decreases s.depthBound - Depth(s, d), |Subs(s, d)| + 1
  {
    assert CommunityWf(s, d);
    SubsBelow(s, d);
    AnonOf(s, A, Subs(s, d), Depth(s, d))
  }

  /** The listed communities of `ids`, in order. */
  ghost function AnonOf(s: Snapshot, A: set<int>, ids: seq<int>, k: int): seq<int>
    requires Wf(s) && k < s.depthBound && Below(s, ids, k)
    decreases s.depthBound - k, |ids|
  {
    if ids == [] then []
    else
      var d := ids[|ids| - 1];
      assert CommunityWf(s, d);
      AnonOf(s, A, ids[..|ids| - 1], k) + (if Listed(s, A, d) then [d] else [])
  }

  lemma {:induction false} AnonOfIn(s: Snapshot, A: set<int>, ids: seq<int>, k: int, y: int)
    requires Wf(s) && k < s.depthBound && Below(s, ids, k)
    ensures y in AnonOf(s, A, ids, k) <==> y in ids && y in s.communities && Listed(s, A, y)
  {
    if ids != [] {
      var init := ids[..|ids| - 1];
      AnonOfIn(s, A, init, k, y);
      assert ids == init + [ids[|ids| - 1]];
    }
  }

  /** Visibility propagates bottom-up: a community is listed iff it has an
      available collection or one of its sub-communities is listed. */
  lemma ListedIff(s: Snapshot, A: set<int>, d: int)
    requires Wf(s) && d in s.communities
    ensures Listed(s, A, d) <==>
      d in A || exists i :: 0 <= i < |Subs(s, d)| && Subs(s, d)[i] in s.communities && Listed(s, A, Subs(s, d)[i])
  {
    SubsBelow(s, d);
    assert CommunityWf(s, d);
    if |AnonSubs(s, A, d)| > 0 {
      var y := AnonSubs(s, A, d)[0];
      AnonOfIn(s, A, Subs(s, d), Depth(s, d), y);
    }
    if exists i :: 0 <= i < |Subs(s, d)| && Subs(s, d)[i] in s.communities && Listed(s, A, Subs(s, d)[i]) {
      var i :| 0 <= i < |Subs(s, d)| && Subs(s, d)[i] in s.communities && Listed(s, A, Subs(s, d)[i]);
      AnonOfIn(s, A, Subs(s, d), Depth(s, d), Subs(s, d)[i]);
    }
  }

  /** Every entry of commMapAnon is the listed sub-communities of its key,
      and is never empty. */
  ghost predicate AnonConsistent(s: Snapshot, A: set<int>, m: ChildMap)
    requires Wf(s)
  {
    forall k :: k in m ==> k in s.communities && m[k] == AnonSubs(s, A, k) && |m[k]| > 0
  }

  /** Every community of `ds` that has a listed sub-community has an entry. */
  ghost predicate AnonRecorded(s: Snapshot, A: set<int>, ds: set<int>, m: ChildMap)
    requires Wf(s)
  {
    forall d :: d in ds && d in s.communities && |AnonSubs(s, A, d)| > 0 ==> d in m
  }

  /** Every entry of commMapAdmin is the full sub-community array of its key. */
  ghost predicate AdminConsistent(s: Snapshot, m: ChildMap)
    requires Wf(s)
  {
    forall k :: k in m ==> k in s.communities && m[k] == Subs(s, k)
  }

  /** The parts of the state buildCommunity leaves untouched. */
  function Kept(t: Tables): (seq<int>, seq<int>, seq<int>, seq<int>, ChildMap, ChildMap, seq<Grant>, seq<Grant>) {
    (t.nyuOnly, t.gallatinOnly, t.emptyCollections, t.privateCollections,
     t.colMapAnon, t.colMapAdmin, t.colAuthorizedUsers, t.commAuthorizedUsersRaw)
  }

  /** buildCommunity keeps the untouched parts and only appends to the
      collection triple list. */
  ghost predicate WalkFrame(t: Tables, r: Tables) {
    Kept(r) == Kept(t) && t.colAuthorizedUsersRaw <= r.colAuthorizedUsersRaw
  }

  lemma WalkFrameTrans(t: Tables, m: Tables, r: Tables)
    requires WalkFrame(t, m) && WalkFrame(m, r)
    ensures WalkFrame(t, r)
  {
  }

  /** buildAuthorizedCommList(d) tags the members of d's administrator group. */
  lemma CommGrantStepRaw(t: Tables, s: Snapshot, d: int, g: int)
    requires Wf(s) && d in s.communities && s.communities[d].administrators == Some(g)
    ensures g in s.groups
    ensures CommGrantStep(t, s, d).colAuthorizedUsersRaw == t.colAuthorizedUsersRaw + Tag(MembersOf(s, g), g, d)
  {
    assert CommunityWf(s, d);
  }

  lemma CommGrantStepFrame(t: Tables, s: Snapshot, d: int)
    requires Wf(s) && d in s.communities
    ensures WalkFrame(t, CommGrantStep(t, s, d))
    ensures CommGrantStep(t, s, d).commMapAnon == t.commMapAnon
    ensures CommGrantStep(t, s, d).commMapAdmin == t.commMapAdmin
  {
  }

  /** The visibility test of buildCommunity, once the walk below `d` is done,
      is Listed. */
  lemma ListedTest(t: Tables, s: Snapshot, A: set<int>, d: int)
    requires Wf(s) && d in s.communities && t.colMapAnon.Keys == A
    requires AnonConsistent(s, A, t.commMapAnon)
    requires |AnonSubs(s, A, d)| > 0 ==> d in t.commMapAnon
    ensures d in t.colMapAnon || d in t.commMapAnon <==> Listed(s, A, d)
  {
  }

  /** buildCommunity(c) changes only the community maps and the triple lists,
      only appends to the collection triple list, and never drops a key of
      commMapAnon. */
  lemma {:induction false} WalkCommFrame(t: Tables, s: Snapshot, c: int)
    requires Wf(s) && c in s.communities
    ensures var r := WalkComm(t, s, c);
      WalkFrame(t, r) && t.commMapAnon.Keys <= r.commMapAnon.Keys
    decreases s.depthBound - Depth(s, c), |Subs(s, c)| + 1
  {
    assert CommunityWf(s, c);
    SubsBelow(s, c);
    var t1 := t.(commMapAdmin := t.commMapAdmin[c := Subs(s, c)]);
    WalkSubsFrame(t1, s, Subs(s, c), Depth(s, c));
  }

  lemma {:induction false} WalkSubsFrame(t: Tables, s: Snapshot, ids: seq<int>, k: int)
    requires Wf(s) && k < s.depthBound && Below(s, ids, k)
    ensures var r := WalkSubs(t, s, ids, k).0;
      WalkFrame(t, r) && t.commMapAnon.Keys <= r.commMapAnon.Keys
    decreases s.depthBound - k, |ids|
  {
    if ids != [] {
      var init := ids[..|ids| - 1];
      var d := ids[|ids| - 1];
      assert CommunityWf(s, d);
      WalkSubsFrame(t, s, init, k);
      var w := WalkSubs(t, s, init, k);
      WalkCommFrame(w.0, s, d);
      var t2 := WalkComm(w.0, s, d);
      CommGrantStepFrame(t2, s, d);
      WalkFrameTrans(t, w.0, t2);
      WalkFrameTrans(t, t2, CommGrantStep(t2, s, d));
    }
  }

  /** buildCommunity(c) records the full sub-community array of every
      community in the subtree of `c`. */
  lemma {:induction false} WalkCommAdmin(t: Tables, s: Snapshot, c: int)
    requires Wf(s) && c in s.communities && AdminConsistent(s, t.commMapAdmin)
    ensures var r := WalkComm(t, s, c);
      AdminConsistent(s, r.commMapAdmin) && r.commMapAdmin.Keys == t.commMapAdmin.Keys + Subtree(s, c)
    decreases s.depthBound - Depth(s, c), |Subs(s, c)| + 1
  {
    assert CommunityWf(s, c);
    SubsBelow(s, c);
    var t1 := t.(commMapAdmin := t.commMapAdmin[c := Subs(s, c)]);
    WalkSubsAdmin(t1, s, Subs(s, c), Depth(s, c));
  }

  lemma {:induction false} WalkSubsAdmin(t: Tables, s: Snapshot, ids: seq<int>, k: int)
    requires Wf(s) && k < s.depthBound && Below(s, ids, k) && AdminConsistent(s, t.commMapAdmin)
    ensures var r := WalkSubs(t, s, ids, k).0;
      AdminConsistent(s, r.commMapAdmin) && r.commMapAdmin.Keys == t.commMapAdmin.Keys + Forest(s, ids, k)
    decreases s.depthBound - k, |ids|
  {
    if ids != [] {
      var init := ids[..|ids| - 1];
      var d := ids[|ids| - 1];
      assert CommunityWf(s, d);
      WalkSubsAdmin(t, s, init, k);
      var w := WalkSubs(t, s, init, k);
      WalkCommAdmin(w.0, s, d);
      CommGrantStepFrame(WalkComm(w.0, s, d), s, d);
    }
  }

  /** buildCommunity(c) records in commMapAnon the listed sub-communities of
      every community of the subtree of `c` that has any, and nothing else. */
  lemma {:induction false} WalkCommAnon(t: Tables, s: Snapshot, c: int)
    requires Wf(s) && c in s.communities
    requires AnonConsistent(s, t.colMapAnon.Keys, t.commMapAnon)
    ensures var r := WalkComm(t, s, c);
      && AnonConsistent(s, t.colMapAnon.Keys, r.commMapAnon)
      && AnonRecorded(s, t.colMapAnon.Keys, Subtree(s, c), r.commMapAnon)
    decreases s.depthBound - Depth(s, c), |Subs(s, c)| + 1
  {
    assert CommunityWf(s, c);
    SubsBelow(s, c);
    var t1 := t.(commMapAdmin := t.commMapAdmin[c := Subs(s, c)]);
    WalkSubsAnon(t1, s, Subs(s, c), Depth(s, c));
    WalkSubsFrame(t1, s, Subs(s, c), Depth(s, c));
  }

  /** The loop of buildCommunity collects exactly the listed sub-communities,
      in order. */
  lemma {:induction false} WalkSubsAnon(t: Tables, s: Snapshot, ids: seq<int>, k: int)
    requires Wf(s) && k < s.depthBound && Below(s, ids, k)
    requires AnonConsistent(s, t.colMapAnon.Keys, t.commMapAnon)
    ensures var w := WalkSubs(t, s, ids, k);
      && AnonConsistent(s, t.colMapAnon.Keys, w.0.commMapAnon)
      && AnonRecorded(s, t.colMapAnon.Keys, Forest(s, ids, k), w.0.commMapAnon)
      && w.1 == AnonOf(s, t.colMapAnon.Keys, ids, k)
    decreases s.depthBound - k, |ids|
  {
    if ids != [] {
      var A := t.colMapAnon.Keys;
      var init := ids[..|ids| - 1];
      var d := ids[|ids| - 1];
      assert CommunityWf(s, d);
      WalkSubsAnon(t, s, init, k);
      WalkSubsFrame(t, s, init, k);
      var w := WalkSubs(t, s, init, k);
      WalkCommAnon(w.0, s, d);
      WalkCommFrame(w.0, s, d);
      var t2 := WalkComm(w.0, s, d);
      SubtreeInCommunities(s, d);
      ListedTest(t2, s, A, d);
      CommGrantStepFrame(t2, s, d);
    }
  }

  lemma {:induction false} WalkTopsFrame(t: Tables, s: Snapshot, tops: seq<int>)
    requires Wf(s) && Below(s, tops, -1)
    ensures var r := WalkTops(t, s, tops);
      WalkFrame(t, r) && t.commMapAnon.Keys <= r.commMapAnon.Keys
  {
    if tops != [] {
      var init := tops[..|tops| - 1];
      WalkTopsFrame(t, s, init);
      WalkCommFrame(WalkTops(t, s, init), s, tops[|tops| - 1]);
      WalkFrameTrans(t, WalkTops(t, s, init), WalkTops(t, s, tops));
    }
  }

  lemma {:induction false} WalkTopsAdmin(t: Tables, s: Snapshot, tops: seq<int>)
    requires Wf(s) && Below(s, tops, -1) && AdminConsistent(s, t.commMapAdmin)
    ensures var r := WalkTops(t, s, tops);
      AdminConsistent(s, r.commMapAdmin) && r.commMapAdmin.Keys == t.commMapAdmin.Keys + Forest(s, tops, -1)
  {
    if tops != [] {
      var init := tops[..|tops| - 1];
      WalkTopsAdmin(t, s, init);
      WalkCommAdmin(WalkTops(t, s, init), s, tops[|tops| - 1]);
    }
  }

  lemma {:induction false} WalkTopsAnon(t: Tables, s: Snapshot, tops: seq<int>)
    requires Wf(s) && Below(s, tops, -1)
    requires AnonConsistent(s, t.colMapAnon.Keys, t.commMapAnon)
    ensures var r := WalkTops(t, s, tops);
      && AnonConsistent(s, t.colMapAnon.Keys, r.commMapAnon)
      && AnonRecorded(s, t.colMapAnon.Keys, Forest(s, tops, -1), r.commMapAnon)
  {
    if tops != [] {
      var init := tops[..|tops| - 1];
      WalkTopsAnon(t, s, init);
      WalkTopsFrame(t, s, init);
      WalkCommAnon(WalkTops(t, s, init), s, tops[|tops| - 1]);
      WalkCommFrame(WalkTops(t, s, init), s, tops[|tops| - 1]);
    }
  }

  // ---------------------------------------------------------------------
  // The build

  /** The communities a walk from the top-level communities reaches. */
  ghost function Reached(s: Snapshot): set<int>
    requires Wf(s)
  {
    TopsBelow(s);
    Forest(s, s.topCommunities, -1)
  }

  /** The collection maps after the build: colMapAdmin holds every
      community's full array (empty ones too); colMapAnon holds a community
      iff it has an available collection, with exactly those collections. */
  lemma BuildColMaps(s: Snapshot, c: int)
    requires Wf(s)
    ensures var r := BuildSpec(s);
      && (c in r.colMapAdmin <==> c in s.allCommunities)
      && (c in r.colMapAdmin ==> r.colMapAdmin[c] == Cols(s, c))
      && (c in r.colMapAnon <==> c in s.allCommunities && |AvailableOf(s, c)| > 0)
      && (c in r.colMapAnon ==> r.colMapAnon[c] == AvailableOf(s, c))
  {
    var t1 := CollectAll(Fresh, s, s.allCommunities);
    CollectAllMaps(Fresh, s, s.allCommunities);
    CollectAllGrows(Fresh, s, s.allCommunities);
    TopsBelow(s);
    WalkTopsFrame(t1, s, s.topCommunities);
  }

  /** Available collections are those the community's colMapAnon entry lists. */
  lemma AvailableOfIn(s: Snapshot, c: int, y: int)
    requires Wf(s) && c in s.communities
    ensures y in AvailableOf(s, c) <==> y in Cols(s, c) && Available(s.collections[y])
  {
    assert CommunityWf(s, c);
    ClassifyAllIn(s, Cols(s, c), y);
  }

  /** The derived lists after the build, both directions: nyuOnly holds the
      collections that are NYU-only but not public, gallatinOnly those that
      are Gallatin but neither public nor NYU-only, privateCollections the
      private ones that are not available, emptyCollections the empty ones. */
  lemma BuildLists(s: Snapshot, y: int)
    requires Wf(s)
    ensures var r := BuildSpec(s);
      && (y in r.nyuOnly <==>
            ListedBy(s, s.allCommunities, y) && !s.collections[y].isPublic && s.collections[y].isNYUOnly)
      && (y in r.gallatinOnly <==>
            ListedBy(s, s.allCommunities, y) && !s.collections[y].isPublic && !s.collections[y].isNYUOnly
            && s.collections[y].isGallatin)
      && (y in r.privateCollections <==>
            ListedBy(s, s.allCommunities, y) && !Available(s.collections[y]) && s.collections[y].isPrivate)
      && (y in r.emptyCollections <==> ListedBy(s, s.allCommunities, y) && s.collections[y].itemCount == 0)
  {
    var t1 := CollectAll(Fresh, s, s.allCommunities);
    CollectAllLists(Fresh, s, s.allCommunities, y);
    CollectAllGrows(Fresh, s, s.allCommunities);
    TopsBelow(s);
    WalkTopsFrame(t1, s, s.topCommunities);
  }

  /** Available collections are never recorded as private. */
  lemma BuildAvailableNotPrivate(s: Snapshot, y: int)
    requires Wf(s) && y in s.collections && Available(s.collections[y])
    ensures y !in BuildSpec(s).privateCollections
  {
    BuildLists(s, y);
  }

  /** The community maps after the build: commMapAdmin holds the full
      sub-community array of every reached community; commMapAnon holds the
      listed sub-communities of every reached community that has any, and
      nothing else. */
  lemma BuildCommMaps(s: Snapshot)
    requires Wf(s)
    ensures var r := BuildSpec(s);
      && r.commMapAdmin.Keys == Reached(s)
      && AdminConsistent(s, r.commMapAdmin)
      && AnonConsistent(s, r.colMapAnon.Keys, r.commMapAnon)
      && AnonRecorded(s, r.colMapAnon.Keys, Reached(s), r.commMapAnon)
  {
    var t1 := CollectAll(Fresh, s, s.allCommunities);
    CollectAllGrows(Fresh, s, s.allCommunities);
    TopsBelow(s);
    WalkTopsAdmin(t1, s, s.topCommunities);
    WalkTopsFrame(t1, s, s.topCommunities);
    WalkTopsAnon(t1, s, s.topCommunities);
  }

  /** End to end: every user entitled to a collection that is not available
      (getAuthirizedCollectionUsers) gets it from getAuthorizedCollections. */
  lemma BuildHiddenCollectionGranted(s: Snapshot, c: int, x: int, e: int)
    requires Wf(s) && c in s.allCommunities && c in s.communities && x in Cols(s, c) && x in s.collections
    requires !Available(s.collections[x]) && e in CollectionUsers(s, x)
    ensures x in Select(BuildSpec(s).colAuthorizedUsers, e)
  {
    ColGrantsUsers(s, x);
    EpsIndex(ColGrants(s, x));
    var i :| 0 <= i < |CollectionUsers(s, x)| && CollectionUsers(s, x)[i] == e;
    var g := ColGrants(s, x)[i];
    CollectAllGrants(Fresh, s, s.allCommunities, c, x, g);
    BuildKeepsCollectGrant(s, g);
    var raw := BuildSpec(s).colAuthorizedUsers;
    var j :| 0 <= j < |raw| && raw[j] == g;
    SelectIn(raw, e, x);
  }

  /** The walk only appends to the collection triples the first loop built. */
  lemma BuildKeepsCollectGrant(s: Snapshot, g: Grant)
    requires Wf(s) && g in CollectAll(Fresh, s, s.allCommunities).colAuthorizedUsersRaw
    ensures g in BuildSpec(s).colAuthorizedUsers
  {
    var t1 := CollectAll(Fresh, s, s.allCommunities);
    TopsBelow(s);
    WalkTopsFrame(t1, s, s.topCommunities);
    var raw := BuildSpec(s).colAuthorizedUsers;
    assert t1.colAuthorizedUsersRaw <= raw;
    var j :| 0 <= j < |t1.colAuthorizedUsersRaw| && t1.colAuthorizedUsersRaw[j] == g;
    assert raw[j] == g;
  }

  /** The community triple list is always empty after the build: the nested
      members buildAuthorizedGroupUsers puts into commAuthorizedUsers are
      overwritten by the copy of commAuthorizedUsersRaw, which nothing fills. */
  lemma BuildCommAuthorizedEmpty(s: Snapshot)
    requires Wf(s)
    ensures BuildSpec(s).commAuthorizedUsers == []
  {
    var t1 := CollectAll(Fresh, s, s.allCommunities);
    CollectAllGrows(Fresh, s, s.allCommunities);
    TopsBelow(s);
    WalkTopsFrame(t1, s, s.topCommunities);
  }

  /** The community branch of buildAuthorizedGroupUsers puts the direct
      administrators of a hidden sub-community into the collection triple
      list, so getAuthorizedCollections returns that community's ID. */
  lemma WalkHiddenCommunityInColList(t: Tables, s: Snapshot, c: int, i: int, e: int)
    requires Wf(s) && c in s.communities && 0 <= i < |Subs(s, c)|
    requires AnonConsistent(s, t.colMapAnon.Keys, t.commMapAnon)
    requires Subs(s, c)[i] in s.communities && !Listed(s, t.colMapAnon.Keys, Subs(s, c)[i])
    requires s.communities[Subs(s, c)[i]].administrators.Some?
    requires e in MembersOf(s, s.communities[Subs(s, c)[i]].administrators.value)
    ensures Grant(e, s.communities[Subs(s, c)[i]].administrators.value, Subs(s, c)[i])
              in WalkComm(t, s, c).colAuthorizedUsersRaw
  {
    assert CommunityWf(s, c);
    SubsBelow(s, c);
    var t1 := t.(commMapAdmin := t.commMapAdmin[c := Subs(s, c)]);
    WalkSubsGrantsPrefix(t1, s, Subs(s, c), Depth(s, c), i, e);
    WalkSubsFrame(t1, s, Subs(s, c), Depth(s, c));
  }

  /** A sub-community that is not listed gets buildAuthorizedCommList. */
  lemma WalkSubsHiddenLast(t: Tables, s: Snapshot, ids: seq<int>, k: int)
    requires Wf(s) && k < s.depthBound && Below(s, ids, k) && ids != []
    requires AnonConsistent(s, t.colMapAnon.Keys, t.commMapAnon)
    requires !Listed(s, t.colMapAnon.Keys, ids[|ids| - 1])
    ensures var init := ids[..|ids| - 1];
      WalkSubs(t, s, ids, k).0
        == CommGrantStep(WalkComm(WalkSubs(t, s, init, k).0, s, ids[|ids| - 1]), s, ids[|ids| - 1])
  {
    var init := ids[..|ids| - 1];
    var d := ids[|ids| - 1];
    assert CommunityWf(s, d);
    WalkSubsAnon(t, s, init, k);
    WalkSubsFrame(t, s, init, k);
    var w := WalkSubs(t, s, init, k);
    WalkCommAnon(w.0, s, d);
    WalkCommFrame(w.0, s, d);
    SubtreeInCommunities(s, d);
    ListedTest(WalkComm(w.0, s, d), s, t.colMapAnon.Keys, d);
  }

  /** One pass of the loop of buildCommunity only appends to the collection
      triple list. */
  lemma WalkSubsGrowsStep(t: Tables, s: Snapshot, ids: seq<int>, k: int)
    requires Wf(s) && k < s.depthBound && Below(s, ids, k) && ids != []
    ensures WalkSubs(t, s, ids[..|ids| - 1], k).0.colAuthorizedUsersRaw <= WalkSubs(t, s, ids, k).0.colAuthorizedUsersRaw
  {
    var init := ids[..|ids| - 1];
    var d := ids[|ids| - 1];
    assert CommunityWf(s, d);
    WalkSubsFrame(t, s, init, k);
    var w := WalkSubs(t, s, init, k);
    WalkCommFrame(w.0, s, d);
    var t2 := WalkComm(w.0, s, d);
    CommGrantStepFrame(t2, s, d);
    var r := WalkSubs(t, s, ids, k).0;
    assert r == t2 || r == CommGrantStep(t2, s, d);
    assert WalkFrame(t2, r);
    WalkFrameTrans(w.0, t2, r);
  }

  lemma {:induction false} WalkSubsGrantsPrefix(t: Tables, s: Snapshot, ids: seq<int>, k: int, i: int, e: int)
    requires Wf(s) && k < s.depthBound && Below(s, ids, k) && 0 <= i < |ids|
    requires AnonConsistent(s, t.colMapAnon.Keys, t.commMapAnon)
    requires !Listed(s, t.colMapAnon.Keys, ids[i]) && s.communities[ids[i]].administrators.Some?
    requires e in MembersOf(s, s.communities[ids[i]].administrators.value)
    ensures Grant(e, s.communities[ids[i]].administrators.value, ids[i]) in WalkSubs(t, s, ids, k).0.colAuthorizedUsersRaw
    decreases |ids|
  {
    if i == |ids| - 1 {
      WalkSubsGrantsLast(t, s, ids, k, e);
    } else {
      var init := ids[..|ids| - 1];
      var want := Grant(e, s.communities[ids[i]].administrators.value, ids[i]);
      assert init[i] == ids[i];
      WalkSubsGrantsPrefix(t, s, init, k, i, e);
      WalkSubsGrowsStep(t, s, ids, k);
      var before := WalkSubs(t, s, init, k).0.colAuthorizedUsersRaw;
      var j :| 0 <= j < |before| && before[j] == want;
      assert WalkSubs(t, s, ids, k).0.colAuthorizedUsersRaw[j] == want;
    }
  }

  /** The case of the last sub-community: its hidden branch tags the members
      of its administrator group. */
  lemma WalkSubsGrantsLast(t: Tables, s: Snapshot, ids: seq<int>, k: int, e: int)
    requires Wf(s) && k < s.depthBound && Below(s, ids, k) && ids != []
    requires AnonConsistent(s, t.colMapAnon.Keys, t.commMapAnon)
    requires !Listed(s, t.colMapAnon.Keys, ids[|ids| - 1]) && s.communities[ids[|ids| - 1]].administrators.Some?
    requires e in MembersOf(s, s.communities[ids[|ids| - 1]].administrators.value)
    ensures Grant(e, s.communities[ids[|ids| - 1]].administrators.value, ids[|ids| - 1])
              in WalkSubs(t, s, ids, k).0.colAuthorizedUsersRaw
  {
    var init := ids[..|ids| - 1];
    var d := ids[|ids| - 1];
    var g := s.communities[d].administrators.value;
    var want := Grant(e, g, d);
    var r := WalkSubs(t, s, ids, k).0;
    WalkSubsHiddenLast(t, s, ids, k);
    var t2 := WalkComm(WalkSubs(t, s, init, k).0, s, d);
    CommGrantStepRaw(t2, s, d, g);
    var tags := Tag(MembersOf(s, g), g, d);
    TagIndex(MembersOf(s, g), g, d);
    var j :| 0 <= j < |MembersOf(s, g)| && MembersOf(s, g)[j] == e;
    assert tags[j] == want;
    assert r.colAuthorizedUsersRaw == t2.colAuthorizedUsersRaw + tags;
  }
}
