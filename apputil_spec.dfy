/**
 * The second generation of the cache (package org.dspace.app.util), as
 * values: the state it holds, what the guarded one-time build leaves behind,
 * and the effect of every incremental update. The class in module AppUtil
 * performs the same steps on its fields and is proved against these
 * functions.
 */
module AppUtilSpec {
  import opened Hierarchy
  import opened Classification
  import opened ChildMaps
  import opened Seqs

  /** An ArrayList field; null until something allocates it. */
  datatype NList = NullList | List(items: seq<int>)

  /** A user ID -> node array HashMap field; null until something allocates it. */
  datatype NMap = NullMap | Map(entries: ChildMap)

  function Items(l: NList): seq<int> {
    if l.List? then l.items else []
  }

  function Entries(m: NMap): ChildMap {
    if m.Map? then m.entries else map[]
  }

  /** Everything the cache holds. colMapAnon and commMapAnon are always
      allocated together, and so are colMapAdmin and commMapAdmin: one flag
      per pair says whether the pair exists. */
  datatype Cache = Cache(
    nyuOnly: NList,
    gallatinOnly: NList,
    emptyCollections: NList,
    privateCollections: NList,
    anonMaps: bool,
    colMapAnon: ChildMap,
    commMapAnon: ChildMap,
    adminMaps: bool,
    colMapAdmin: ChildMap,
    commMapAdmin: ChildMap,
    colAuthorizedUsers: NMap,
    commAuthorizedUsers: NMap)

  /** The freshly allocated structures at the start of the build. */
  const Fresh := Cache(List([]), List([]), List([]), List([]), true, map[], map[], true, map[], map[],
                       Map(map[]), Map(map[]))

  /** The collection map and the community map of one side (anonymous or admin). */
  type MapPair = (ChildMap, ChildMap)

  // ---------------------------------------------------------------------
  // The build

  /** addUsersToAuthorizedColList for every collection of `ids` that is not
      available, in order. */
  function HiddenUsers(m: ChildMap, s: Snapshot, ids: seq<int>): ChildMap
    requires Wf(s) && AllCollections(s, ids)
  {
    if ids == [] then m
    else
      var x := ids[|ids| - 1];
      var p := HiddenUsers(m, s, ids[..|ids| - 1]);
      if Available(s.collections[x]) then p else InsertAll(p, CollectionUsers(s, x), x)
  }

  lemma HiddenUsersSnoc(m: ChildMap, s: Snapshot, ids: seq<int>, i: int)
    requires Wf(s) && AllCollections(s, ids) && 0 <= i < |ids|
    ensures HiddenUsers(m, s, ids[..i + 1])
         == var p := HiddenUsers(m, s, ids[..i]);
            if Available(s.collections[ids[i]]) then p else InsertAll(p, CollectionUsers(s, ids[i]), ids[i])
  {
    assert ids[..i + 1][..i] == ids[..i];
  }

  /** buildCollection(c). */
  function CollectStep(t: Cache, s: Snapshot, c: int): Cache
    requires Wf(s) && c in s.communities
  {
    assert CommunityWf(s, c);
    var cols := Cols(s, c);
    var d := ClassifyAll(s, cols);
    t.(colMapAdmin := t.colMapAdmin[c := cols],
       colMapAnon := if |d.available| > 0 then t.colMapAnon[c := d.available] else t.colMapAnon,
       nyuOnly := List(Items(t.nyuOnly) + d.nyu),
       gallatinOnly := List(Items(t.gallatinOnly) + d.gallatin),
       emptyCollections := List(Items(t.emptyCollections) + d.empty),
       privateCollections := List(Items(t.privateCollections) + d.privates),
       colAuthorizedUsers := Map(HiddenUsers(Entries(t.colAuthorizedUsers), s, cols)))
  }

  /** CollectStep field by field. */
  lemma CollectStepFields(t: Cache, s: Snapshot, c: int)
    requires Wf(s) && c in s.communities
    ensures CommunityWf(s, c)
    ensures var d := ClassifyAll(s, Cols(s, c));
      CollectStep(t, s, c) == Cache(
        List(Items(t.nyuOnly) + d.nyu), List(Items(t.gallatinOnly) + d.gallatin),
        List(Items(t.emptyCollections) + d.empty), List(Items(t.privateCollections) + d.privates),
        t.anonMaps, if |d.available| > 0 then t.colMapAnon[c := d.available] else t.colMapAnon, t.commMapAnon,
        t.adminMaps, t.colMapAdmin[c := Cols(s, c)], t.commMapAdmin,
        Map(HiddenUsers(Entries(t.colAuthorizedUsers), s, Cols(s, c))), t.commAuthorizedUsers)
  {
  }

  /** buildCollection for each community of `cs`, in order. */
  function CollectAll(t: Cache, s: Snapshot, cs: seq<int>): Cache
    requires Wf(s) && forall i :: 0 <= i < |cs| ==> cs[i] in s.communities
  {
    if cs == [] then t else CollectStep(CollectAll(t, s, cs[..|cs| - 1]), s, cs[|cs| - 1])
  }

  lemma CollectAllSnoc(t: Cache, s: Snapshot, cs: seq<int>, i: int)
    requires Wf(s) && (forall j :: 0 <= j < |cs| ==> cs[j] in s.communities) && 0 <= i < |cs|
    ensures CollectAll(t, s, cs[..i + 1]) == CollectStep(CollectAll(t, s, cs[..i]), s, cs[i])
  {
    assert cs[..i + 1][..i] == cs[..i];
  }

  /** The branch of buildCommunity for a sub-community `d` nobody can see
      anonymously: `d` goes in front of the array of every user entitled to it. */
  function HideStep(t: Cache, s: Snapshot, d: int): Cache
    requires Wf(s) && d in s.communities
  {
    t.(commAuthorizedUsers := Map(PrependAll(Entries(t.commAuthorizedUsers), CommunityUsers(s, d), d)))
  }

  /** buildCommunity(c): record all sub-communities, walk them in order, and
      record the ones that turned out visible. */
  function WalkComm(t: Cache, s: Snapshot, c: int): Cache
    requires Wf(s) && c in s.communities
    decreases s.depthBound - Depth(s, c), |Subs(s, c)| + 1
  {
    assert CommunityWf(s, c);
    SubsBelow(s, c);
    var t1 := t.(commMapAdmin := t.commMapAdmin[c := Subs(s, c)]);
    var w := WalkSubs(t1, s, Subs(s, c), Depth(s, c));
    if |w.1| > 0 then w.0.(commMapAnon := w.0.commMapAnon[c := w.1]) else w.0
  }

  /** The loop of buildCommunity over the sub-communities `ids`: the state it
      leaves and the visible sub-communities it collected. */
  function WalkSubs(t: Cache, s: Snapshot, ids: seq<int>, k: int): (Cache, seq<int>)
    requires Wf(s) && k < s.depthBound && Below(s, ids, k)
    decreases s.depthBound - k, |ids|
  {
    if ids == [] then (t, [])
    else
      var d := ids[|ids| - 1];
      assert CommunityWf(s, d);
      var w := WalkSubs(t, s, ids[..|ids| - 1], k);
      var t2 := WalkComm(w.0, s, d);
      if d in t2.colMapAnon || d in t2.commMapAnon then (t2, w.1 + [d]) else (HideStep(t2, s, d), w.1)
  }

  lemma WalkSubsSnoc(t: Cache, s: Snapshot, ids: seq<int>, k: int, i: int)
    requires Wf(s) && k < s.depthBound && Below(s, ids, k) && 0 <= i < |ids|
    ensures Below(s, ids[..i], k) && Below(s, ids[..i + 1], k)
    ensures var w := WalkSubs(t, s, ids[..i], k);
            var t2 := WalkComm(w.0, s, ids[i]);
      WalkSubs(t, s, ids[..i + 1], k)
        == if ids[i] in t2.colMapAnon || ids[i] in t2.commMapAnon then (t2, w.1 + [ids[i]])
           else (HideStep(t2, s, ids[i]), w.1)
  {
    assert ids[..i + 1][..i] == ids[..i];
  }

  /** buildCommunity for each top-level community, in order. */
  function WalkTops(t: Cache, s: Snapshot, tops: seq<int>): Cache
    requires Wf(s) && forall i :: 0 <= i < |tops| ==> tops[i] in s.communities
  {
    if tops == [] then t else WalkComm(WalkTops(t, s, tops[..|tops| - 1]), s, tops[|tops| - 1])
  }

  lemma WalkTopsSnoc(t: Cache, s: Snapshot, tops: seq<int>, i: int)
    requires Wf(s) && (forall j :: 0 <= j < |tops| ==> tops[j] in s.communities) && 0 <= i < |tops|
    ensures WalkTops(t, s, tops[..i + 1]) == WalkComm(WalkTops(t, s, tops[..i]), s, tops[i])
  {
    assert tops[..i + 1][..i] == tops[..i];
  }

  /** ListAnonUserCommunities when the anonymous maps are still null. */
  function BuildSpec(s: Snapshot): Cache
    requires Wf(s)
  {
    WalkTops(CollectAll(Fresh, s, s.allCommunities), s, s.topCommunities)
  }

  // ---------------------------------------------------------------------
  // The derived lists

  /** add, after allocating a null list. */
  function AddTo(l: NList, x: int): NList {
    List(Items(l) + [x])
  }

  /** remove(col) on an allocated list that contains it; otherwise nothing. */
  function RemoveFrom(l: NList, x: int): NList {
    if l.List? && x in l.items then List(RemoveFirst(l.items, x)) else l
  }

  /** The removal by ID on an allocated list: every element with that ID goes. */
  function RemoveIdFrom(l: NList, id: int): NList {
    if l.List? then List(RemoveAll(l.items, id)) else l
  }

  /** removeCollectionFromPrivateList / removeCollectionFromEmptyList take the
      collection away from every user entitled to it, leaving empty arrays. */
  function RevokeCollection(m: NMap, s: Snapshot, x: int): NMap
    requires Wf(s) && x in s.collections
  {
    Map(RemoveKeepAll(Entries(m), CollectionUsers(s, x), x))
  }

  /** The private-list part of checkCollection: the new state, and whether
      it stopped at a null list. */
  function CheckPrivate(t: Cache, s: Snapshot, x: int): (Cache, bool)
    requires Wf(s) && x in s.collections
  {
    var l := t.privateCollections;
    if s.collections[x].isPrivate then
      if l.NullList? || x !in l.items then (t.(privateCollections := AddTo(l, x)), false) else (t, false)
    else if l.NullList? then (t, true)
    else if x in l.items then
      (t.(privateCollections := RemoveFrom(l, x),
          colAuthorizedUsers := RevokeCollection(t.colAuthorizedUsers, s, x)), false)
    else (t, false)
  }

  /** The NYU part: adding to a null list resets the empty list and then
      fails on the null NYU list. */
  function CheckNYU(t: Cache, s: Snapshot, x: int): (Cache, bool)
    requires x in s.collections
  {
    var l := t.nyuOnly;
    if s.collections[x].isNYUOnly then
      if l.NullList? then (t.(emptyCollections := List([])), true)
      else if x !in l.items then (t.(nyuOnly := AddTo(l, x)), false)
      else (t, false)
    else if l.NullList? then (t, true)
    else (t.(nyuOnly := RemoveFrom(l, x)), false)
  }

  /** The Gallatin part. */
  function CheckGallatin(t: Cache, s: Snapshot, x: int): (Cache, bool)
    requires x in s.collections
  {
    var l := t.gallatinOnly;
    if s.collections[x].isGallatin then
      if l.NullList? || x !in l.items then (t.(gallatinOnly := AddTo(l, x)), false) else (t, false)
    else if l.NullList? then (t, true)
    else (t.(gallatinOnly := RemoveFrom(l, x)), false)
  }

  /** checkCollection: the three parts in order; a failure stops the rest. */
  function CheckSpec(t: Cache, s: Snapshot, x: int): (Cache, bool)
    requires Wf(s) && x in s.collections
  {
    var p := CheckPrivate(t, s, x);
    if p.1 then p
    else
      var n := CheckNYU(p.0, s, x);
      if n.1 then n else CheckGallatin(n.0, s, x)
  }

  // ---------------------------------------------------------------------
  // Incremental updates of one side's maps

  /** addParentComm(c): the link from `c` to its parent, then (when the
      parent is not a top-level community) the same for the parent. */
  function AddParents(m: ChildMap, s: Snapshot, c: int): ChildMap
    requires Wf(s) && c in s.communities
    decreases Depth(s, c)
  {
    assert CommunityWf(s, c);
    match ParentOf(s, c)
    case None => m
    case Some(p) =>
      assert CommunityWf(s, p);
      var m1 := Insert(m, p, c);
      if ParentOf(s, p).Some? then AddParents(m1, s, p) else m1
  }

  /** addCollection(x): for each community `ps` says holds `x` whose own
      collection array lists it, add `x` to it and link it upward. */
  function AddCollectionTo(m: MapPair, s: Snapshot, x: int, ps: seq<int>): MapPair
    requires Wf(s) && forall i :: 0 <= i < |ps| ==> ps[i] in s.communities
  {
    if ps == [] then m
    else
      var p := ps[|ps| - 1];
      var r := AddCollectionTo(m, s, x, ps[..|ps| - 1]);
      if x in Cols(s, p) then
        (Insert(r.0, p, x), if ParentOf(s, p).Some? then AddParents(r.1, s, p) else r.1)
      else r
  }

  lemma AddCollectionToSnoc(m: MapPair, s: Snapshot, x: int, ps: seq<int>, i: int)
    requires Wf(s) && (forall j :: 0 <= j < |ps| ==> ps[j] in s.communities) && 0 <= i < |ps|
    ensures AddCollectionTo(m, s, x, ps[..i + 1])
         == var r := AddCollectionTo(m, s, x, ps[..i]);
            if x in Cols(s, ps[i]) then
              (Insert(r.0, ps[i], x), if ParentOf(s, ps[i]).Some? then AddParents(r.1, s, ps[i]) else r.1)
            else r
  {
    assert ps[..i + 1][..i] == ps[..i];
  }

  /** addCollectionID(c, x): add `x` under `c` and link `c` upward. */
  function InsertCollection(m: MapPair, s: Snapshot, c: int, x: int): MapPair
    requires Wf(s) && c in s.communities
  {
    (Insert(m.0, c, x), if ParentOf(s, c).Some? then AddParents(m.1, s, c) else m.1)
  }

  /** removeParentComm(c) as written: detach `c` from its parent, then
      continue with the parent's parent (not with the parent). */
  function RemoveParents(m: ChildMap, s: Snapshot, c: int): ChildMap
    requires Wf(s) && c in s.communities
    decreases Depth(s, c)
  {
    assert CommunityWf(s, c);
    match ParentOf(s, c)
    case None => m
    case Some(p) =>
      assert CommunityWf(s, p);
      var m1 := Detach(m, p, c);
      match ParentOf(s, p)
      case None => m1
      case Some(g) => RemoveParents(m1, s, g)
  }

  /** One pass of removeCollection for a community `p` that holds `x`: take
      `x` out of its array; when the array becomes empty the key goes and, if
      `p` has no sub-community entry and a parent, removeParentComm(p). */
  function DropCollection(m: MapPair, s: Snapshot, p: int, x: int): MapPair
    requires Wf(s) && p in s.communities
  {
    if p in m.0 && x in m.0[p] then
      var t := RemoveFirst(m.0[p], x);
      if |t| > 0 then (m.0[p := t], m.1)
      else (m.0 - {p}, if p !in m.1 && ParentOf(s, p).Some? then RemoveParents(m.1, s, p) else m.1)
    else m
  }

  /** removeCollection(x) over the communities `ps` says hold `x`. */
  function RemoveCollectionFrom(m: MapPair, s: Snapshot, x: int, ps: seq<int>): MapPair
    requires Wf(s) && forall i :: 0 <= i < |ps| ==> ps[i] in s.communities
  {
    if ps == [] then m
    else
      var p := ps[|ps| - 1];
      var r := RemoveCollectionFrom(m, s, x, ps[..|ps| - 1]);
      if x in Cols(s, p) then DropCollection(r, s, p, x) else r
  }

  lemma RemoveCollectionFromSnoc(m: MapPair, s: Snapshot, x: int, ps: seq<int>, i: int)
    requires Wf(s) && (forall j :: 0 <= j < |ps| ==> ps[j] in s.communities) && 0 <= i < |ps|
    ensures RemoveCollectionFrom(m, s, x, ps[..i + 1])
         == var r := RemoveCollectionFrom(m, s, x, ps[..i]);
            if x in Cols(s, ps[i]) then DropCollection(r, s, ps[i], x) else r
  {
    assert ps[..i + 1][..i] == ps[..i];
  }

  /** removeCollectionID(c, id): every collection with that ID leaves `c`'s
      array; an emptied array is handled as in DropCollection. */
  function DropCollectionID(m: MapPair, s: Snapshot, c: int, id: int): MapPair
    requires Wf(s) && c in s.communities
  {
    if c in m.0 && id in m.0[c] then
      var t := RemoveAll(m.0[c], id);
      if |t| > 0 then (m.0[c := t], m.1)
      else (m.0 - {c}, if c !in m.1 && ParentOf(s, c).Some? then RemoveParents(m.1, s, c) else m.1)
    else m
  }

  /** addChildrenComm(c): record `c`'s whole collection array (when it has
      collections) and, unless `c` already has an entry, its whole
      sub-community array (on the anonymous side only when it has
      sub-communities); then the same for every sub-community. */
  function AddChildren(m: MapPair, s: Snapshot, c: int, admin: bool): MapPair
    requires Wf(s) && c in s.communities
    decreases s.depthBound - Depth(s, c), |Subs(s, c)| + 1
  {
    assert CommunityWf(s, c);
    SubsBelow(s, c);
    var cols := Cols(s, c);
    var comms := Subs(s, c);
    var colMap := if |cols| > 0 then m.0[c := cols] else m.0;
    var commMap := if c !in m.1 && (admin || |comms| > 0) then m.1[c := comms] else m.1;
    AddChildrenAll((colMap, commMap), s, comms, Depth(s, c), admin)
  }

  function AddChildrenAll(m: MapPair, s: Snapshot, ids: seq<int>, k: int, admin: bool): MapPair
    requires Wf(s) && k < s.depthBound && Below(s, ids, k)
    decreases s.depthBound - k, |ids|
  {
    if ids == [] then m
    else
      assert CommunityWf(s, ids[|ids| - 1]);
      AddChildren(AddChildrenAll(m, s, ids[..|ids| - 1], k, admin), s, ids[|ids| - 1], admin)
  }

  /** AddChildren unfolded once: `c`'s own entries, then its sub-communities. */
  lemma AddChildrenUnfold(m: MapPair, s: Snapshot, c: int, admin: bool)
    requires Wf(s) && c in s.communities
    ensures Depth(s, c) < s.depthBound && Below(s, Subs(s, c), Depth(s, c))
    ensures AddChildren(m, s, c, admin) == AddChildrenAll(
      (if |Cols(s, c)| > 0 then m.0[c := Cols(s, c)] else m.0,
       if c !in m.1 && (admin || |Subs(s, c)| > 0) then m.1[c := Subs(s, c)] else m.1),
      s, Subs(s, c), Depth(s, c), admin)
  {
    assert CommunityWf(s, c);
    SubsBelow(s, c);
  }

  lemma AddChildrenAllSnoc(m: MapPair, s: Snapshot, ids: seq<int>, k: int, admin: bool, i: int)
    requires Wf(s) && k < s.depthBound && Below(s, ids, k) && 0 <= i < |ids|
    ensures Below(s, ids[..i], k) && Below(s, ids[..i + 1], k)
    ensures AddChildrenAll(m, s, ids[..i + 1], k, admin)
         == AddChildren(AddChildrenAll(m, s, ids[..i], k, admin), s, ids[i], admin)
  {
    assert ids[..i + 1][..i] == ids[..i];
  }

  /** removeChildrenComm(c): drop `c`'s collection entry when it has
      collections and its sub-community entry when it has sub-communities;
      then the same for every sub-community. */
  function RemoveChildren(m: MapPair, s: Snapshot, c: int): MapPair
    requires Wf(s) && c in s.communities
    decreases s.depthBound - Depth(s, c), |Subs(s, c)| + 1
  {
    assert CommunityWf(s, c);
    SubsBelow(s, c);
    var colMap := if |Cols(s, c)| > 0 then m.0 - {c} else m.0;
    var commMap := if |Subs(s, c)| > 0 then m.1 - {c} else m.1;
    RemoveChildrenAll((colMap, commMap), s, Subs(s, c), Depth(s, c))
  }

  function RemoveChildrenAll(m: MapPair, s: Snapshot, ids: seq<int>, k: int): MapPair
    requires Wf(s) && k < s.depthBound && Below(s, ids, k)
    decreases s.depthBound - k, |ids|
  {
    if ids == [] then m
    else
      assert CommunityWf(s, ids[|ids| - 1]);
      RemoveChildren(RemoveChildrenAll(m, s, ids[..|ids| - 1], k), s, ids[|ids| - 1])
  }

  lemma RemoveChildrenAllSnoc(m: MapPair, s: Snapshot, ids: seq<int>, k: int, i: int)
    requires Wf(s) && k < s.depthBound && Below(s, ids, k) && 0 <= i < |ids|
    ensures Below(s, ids[..i], k) && Below(s, ids[..i + 1], k)
    ensures RemoveChildrenAll(m, s, ids[..i + 1], k)
         == RemoveChildren(RemoveChildrenAll(m, s, ids[..i], k), s, ids[i])
  {
    assert ids[..i + 1][..i] == ids[..i];
  }

  // ---------------------------------------------------------------------
  // The authorisation maps

  /** removeUsersFromAuthorizedComList over the users `ks` as written: a
      user's community array loses `c` only when the user also has an entry
      in the collection map `colA`. */
  function RevokeCommunity(colA: ChildMap, m: ChildMap, ks: seq<int>, c: int): ChildMap
  {
    if ks == [] then m
    else
      var k := ks[|ks| - 1];
      var p := RevokeCommunity(colA, m, ks[..|ks| - 1], c);
      if k in colA then RemoveKeep(p, k, c) else p
  }

  lemma RevokeCommunitySnoc(colA: ChildMap, m: ChildMap, ks: seq<int>, c: int, i: int)
    requires 0 <= i < |ks|
    ensures RevokeCommunity(colA, m, ks[..i + 1], c)
         == var p := RevokeCommunity(colA, m, ks[..i], c); if ks[i] in colA then RemoveKeep(p, ks[i], c) else p
  {
    assert ks[..i + 1][..i] == ks[..i];
  }
}
