/**
 * The second generation of the cache (org.dspace.app.util.ListUserCommunities)
 * as a class. Its static fields are the fields of one object; every method
 * changes only the fields its `modifies` clause names, and its `ensures`
 * clause ties the new fields to the functions of module AppUtilSpec applied
 * to the old ones.
 */
module AppUtil {
  import opened Hierarchy
  import opened Classification
  import opened ChildMaps
  import opened Seqs
  import opened AppUtilSpec

  /** The kind of object an authorisation event is about (getType()). */
  datatype ObjectType = CommunityObject | CollectionObject | OtherObject

  // ---------------------------------------------------------------------
  // Queries that change nothing

  /** getAllGroupUsers(g): the direct members, then the direct members of
      every member group (one level of nesting). */
  method GetAllGroupUsers(s: Snapshot, g: int) returns (epersons: seq<int>)
    requires Wf(s) && g in s.groups
    ensures epersons == GroupUsers(s, g)
  {
    var members := MembersOf(s, g);
    epersons := [];
    var i := 0;
    while i < |members|
      invariant 0 <= i <= |members|
      invariant epersons == members[..i]
    {
      assert members[..i + 1] == members[..i] + [members[i]];
      epersons := epersons + [members[i]];
      i := i + 1;
    }
    assert members[..i] == members;
    var memberGroups := s.groups[g].memberGroups;
    var j := 0;
    while j < |memberGroups|
      invariant 0 <= j <= |memberGroups|
      invariant forall k :: 0 <= k < |memberGroups| ==> memberGroups[k] in s.groups
      invariant epersons == members + NestedMembers(s, memberGroups[..j])
    {
      assert memberGroups[..j + 1][..j] == memberGroups[..j];
      var ag := MembersOf(s, memberGroups[j]);
      ghost var before := epersons;
      var k := 0;
      while k < |ag|
        invariant 0 <= k <= |ag|
        invariant epersons == before + ag[..k]
      {
        assert ag[..k + 1] == ag[..k] + [ag[k]];
        epersons := epersons + [ag[k]];
        k := k + 1;
      }
      assert ag[..k] == ag;
      AppendAssoc(members, NestedMembers(s, memberGroups[..j]), ag);
      j := j + 1;
    }
    assert memberGroups[..j] == memberGroups;
  }

  /** getAuthirizedGroup(c): the expanded administrators of a community. */
  method GetAuthirizedGroup(s: Snapshot, c: int) returns (epersons: seq<int>)
    requires Wf(s) && c in s.communities
    ensures epersons == CommunityAdmins(s, c)
  {
    assert CommunityWf(s, c);
    epersons := [];
    var admins := s.communities[c].administrators;
    if admins.Some? {
      var allusers := GetAllGroupUsers(s, admins.value);
      epersons := epersons + allusers;
    }
  }

  /** getAuthirizedCollectionUsers(x): collection administrators, then
      submitters, then the administrators of every community that lists it. */
  method GetAuthirizedCollectionUsers(s: Snapshot, x: int) returns (epersons: seq<int>)
    requires Wf(s) && x in s.collections
    ensures epersons == CollectionUsers(s, x)
  {
    assert CollectionWf(s, x);
    var col := s.collections[x];
    epersons := [];
    if col.administrators.Some? {
      var allusers := GetAllGroupUsers(s, col.administrators.value);
      epersons := epersons + allusers;
    }
    if col.submitters.Some? {
      var allusers := GetAllGroupUsers(s, col.submitters.value);
      epersons := epersons + allusers;
    }
    assert epersons == OptGroupUsers(s, col.administrators) + OptGroupUsers(s, col.submitters);
    epersons := AddAdminsOf(s, epersons, col.communities);
  }

  /** The loop both lookups share: append the expanded administrators of
      each community of `parentComms`, in order. */
  method AddAdminsOf(s: Snapshot, base: seq<int>, parentComms: seq<int>) returns (epersons: seq<int>)
    requires Wf(s) && forall j :: 0 <= j < |parentComms| ==> parentComms[j] in s.communities
    ensures epersons == base + AdminsOfAll(s, parentComms)
  {
    epersons := base;
    var i := 0;
    while i < |parentComms|
      invariant 0 <= i <= |parentComms|
      invariant epersons == base + AdminsOfAll(s, parentComms[..i])
    {
      AdminsOfAllSnoc(s, base, parentComms, i);
      var allusers := GetAuthirizedGroup(s, parentComms[i]);
      epersons := epersons + allusers;
      i := i + 1;
    }
    assert parentComms[..i] == parentComms;
  }

  /** getAuthirizedCommunityUsers(c): the community's own administrators,
      then those of every ancestor, the parent first. */
  method GetAuthirizedCommunityUsers(s: Snapshot, c: int) returns (epersons: seq<int>)
    requires Wf(s) && c in s.communities
    ensures epersons == CommunityUsers(s, c)
  {
    epersons := GetAuthirizedGroup(s, c);
    epersons := AddAdminsOf(s, epersons, Ancestors(s, c));
  }

  /** The for-each removal by ID: every element whose ID matches leaves. */
  method WithoutID(items: seq<int>, id: int) returns (kept: seq<int>)
    ensures kept == RemoveAll(items, id)
  {
    kept := [];
    var i := 0;
    while i < |items|
      invariant 0 <= i <= |items|
      invariant kept == RemoveAll(items[..i], id)
    {
      assert items[..i + 1][..i] == items[..i];
      if items[i] != id {
        kept := kept + [items[i]];
      }
      i := i + 1;
    }
    assert items[..i] == items;
  }

  class ListUserCommunities {
    var nyuOnly: NList
    var gallatinOnly: NList
    var emptyCollections: NList
    var privateCollections: NList
    /** colMapAnon and commMapAnon are allocated. */
    var anonMaps: bool
    var colMapAnon: ChildMap
    var commMapAnon: ChildMap
    /** colMapAdmin and commMapAdmin are allocated. */
    var adminMaps: bool
    var colMapAdmin: ChildMap
    var commMapAdmin: ChildMap
    var colAuthorizedUsers: NMap
    var commAuthorizedUsers: NMap

    /** The fields as one value. */
    function State(): Cache
      reads this
    {
      Cache(nyuOnly, gallatinOnly, emptyCollections, privateCollections,
            anonMaps, colMapAnon, commMapAnon, adminMaps, colMapAdmin, commMapAdmin,
            colAuthorizedUsers, commAuthorizedUsers)
    }

    /** The collection map of one side. */
    function ColMap(admin: bool): ChildMap
      reads this
    {
      if admin then colMapAdmin else colMapAnon
    }

    /** The community map of one side. */
    function CommMap(admin: bool): ChildMap
      reads this
    {
      if admin then commMapAdmin else commMapAnon
    }

    function Side(admin: bool): MapPair
      reads this
    {
      (ColMap(admin), CommMap(admin))
    }

    /** Every static field starts out null. */
    constructor()
      ensures State() == Cache(NullList, NullList, NullList, NullList, false, map[], map[], false, map[], map[],
                               NullMap, NullMap)
    {
      nyuOnly, gallatinOnly, emptyCollections, privateCollections := NullList, NullList, NullList, NullList;
      anonMaps, colMapAnon, commMapAnon := false, map[], map[];
      adminMaps, colMapAdmin, commMapAdmin := false, map[], map[];
      colAuthorizedUsers, commAuthorizedUsers := NullMap, NullMap;
    }

    // -------------------------------------------------------------------
    // The one-time build

    /** ListAnonUserCommunities: build everything when the anonymous maps
        are null; otherwise nothing changes. */
    method ListAnonUserCommunities(s: Snapshot)
      requires Wf(s)
      modifies this
      ensures old(anonMaps) ==> State() == old(State())
      ensures !old(anonMaps) ==> State() == BuildSpec(s)
    {
      if !anonMaps {
        Build(s);
      }
    }

    method Build(s: Snapshot)
      requires Wf(s)
      modifies this`nyuOnly, this`gallatinOnly, this`emptyCollections, this`privateCollections,
               this`anonMaps, this`colMapAnon, this`commMapAnon,
               this`adminMaps, this`colMapAdmin, this`commMapAdmin,
               this`colAuthorizedUsers, this`commAuthorizedUsers
      ensures State() == BuildSpec(s)
    {
      NewLists();
      AllocateAnonMaps();
      AllocateAdminMaps();
      NewAuthorizedMaps();
      assert State() == Fresh;
      CollectPhase(s);
      WalkPhase(s);
    }

    method NewLists()
      modifies this`nyuOnly, this`gallatinOnly, this`emptyCollections, this`privateCollections
      ensures nyuOnly == List([]) && gallatinOnly == List([])
      ensures emptyCollections == List([]) && privateCollections == List([])
    {
      nyuOnly, gallatinOnly, emptyCollections, privateCollections := List([]), List([]), List([]), List([]);
    }

    /** new HashMap for colMapAnon and commMapAnon. */
    method AllocateAnonMaps()
      modifies this`anonMaps, this`colMapAnon, this`commMapAnon
      ensures anonMaps && colMapAnon == map[] && commMapAnon == map[]
    {
      anonMaps, colMapAnon, commMapAnon := true, map[], map[];
    }

    /** new HashMap for colMapAdmin and commMapAdmin. */
    method AllocateAdminMaps()
      modifies this`adminMaps, this`colMapAdmin, this`commMapAdmin
      ensures adminMaps && colMapAdmin == map[] && commMapAdmin == map[]
    {
      adminMaps, colMapAdmin, commMapAdmin := true, map[], map[];
    }

    method NewAuthorizedMaps()
      modifies this`colAuthorizedUsers, this`commAuthorizedUsers
      ensures colAuthorizedUsers == Map(map[]) && commAuthorizedUsers == Map(map[])
    {
      colAuthorizedUsers, commAuthorizedUsers := Map(map[]), Map(map[]);
    }

    /** The four lists and the collection user map are allocated. */
    ghost predicate CollectReady()
      reads this
    {
      && nyuOnly.List? && gallatinOnly.List? && emptyCollections.List? && privateCollections.List?
      && colAuthorizedUsers.Map?
    }

    /** The first loop of the build: buildCollection for every community. */
    method CollectPhase(s: Snapshot)
      requires Wf(s) && CollectReady()
      modifies this`colMapAdmin, this`colMapAnon, this`nyuOnly, this`gallatinOnly,
               this`emptyCollections, this`privateCollections, this`colAuthorizedUsers
      ensures State() == CollectAll(old(State()), s, s.allCommunities)
    {
      ghost var t0 := State();
      var communities := s.allCommunities;
      var com := 0;
      while com < |communities|
        invariant 0 <= com <= |communities|
        invariant CollectReady()
        invariant State() == CollectAll(t0, s, communities[..com])
      {
        CollectAllSnoc(t0, s, communities, com);
        BuildCollection(s, communities[com]);
        com := com + 1;
      }
      assert communities[..com] == communities;
    }

    /** The second loop of the build: buildCommunity for every top-level
        community. */
    method WalkPhase(s: Snapshot)
      requires Wf(s) && commAuthorizedUsers.Map?
      modifies this`commMapAdmin, this`commMapAnon, this`commAuthorizedUsers
      ensures State() == WalkTops(old(State()), s, s.topCommunities)
    {
      ghost var t0 := State();
      var communitiesAval := s.topCommunities;
      var com := 0;
      while com < |communitiesAval|
        invariant 0 <= com <= |communitiesAval|
        invariant commAuthorizedUsers.Map?
        invariant State() == WalkTops(t0, s, communitiesAval[..com])
      {
        WalkTopsSnoc(t0, s, communitiesAval, com);
        BuildCommunity(s, communitiesAval[com]);
        com := com + 1;
      }
      assert communitiesAval[..com] == communitiesAval;
    }

    /** buildCollection(c). */
    method BuildCollection(s: Snapshot, c: int)
      requires Wf(s) && c in s.communities && CollectReady()
      modifies this`colMapAdmin, this`colMapAnon, this`nyuOnly, this`gallatinOnly,
               this`emptyCollections, this`privateCollections, this`colAuthorizedUsers
      ensures CollectReady()
      ensures State() == CollectStep(old(State()), s, c)
    {
      ghost var t := State();
      CollectStepFields(t, s, c);
      var colls := Cols(s, c);
      colMapAdmin := colMapAdmin[c := colls];
      if |colls| > 0 {
        ListCollections(s, c);
      } else {
        assert ClassifyAll(s, colls) == NoneDerived;
        assert State() == CollectStep(t, s, c);
      }
    }

    /** The body of buildCollection for a community with collections: the
        classification loop, then the anonymous entry when any collection
        is available. */
    method ListCollections(s: Snapshot, c: int)
      requires Wf(s) && c in s.communities && CollectReady()
      modifies this`colMapAnon, this`nyuOnly, this`gallatinOnly,
               this`emptyCollections, this`privateCollections, this`colAuthorizedUsers
      ensures CollectReady()
      ensures State() == CollectStep(old(State()), s, c).(colMapAdmin := old(colMapAdmin))
    {
      ghost var t := State();
      CollectStepFields(t, s, c);
      var colls := Cols(s, c);
      ghost var d := ClassifyAll(s, colls);
      var availableCol := ClassifyCollections(s, colls);
      if |availableCol| > 0 {
        colMapAnon := colMapAnon[c := availableCol];
      }
    }

    /** The derived lists as one value, with `avail` as the available list. */
    ghost function Lists(avail: seq<int>): Derived
      reads this
    {
      Derived(avail, Items(emptyCollections), Items(nyuOnly), Items(gallatinOnly), Items(privateCollections))
    }

    /** The loop of buildCollection over the collection array `colls`; it
        returns the available collections. */
    method ClassifyCollections(s: Snapshot, colls: seq<int>) returns (availableCol: seq<int>)
      requires Wf(s) && AllCollections(s, colls) && CollectReady()
      modifies this`nyuOnly, this`gallatinOnly, this`emptyCollections, this`privateCollections,
               this`colAuthorizedUsers
      ensures CollectReady()
      ensures Lists(availableCol) == Plus(old(Lists([])), ClassifyAll(s, colls))
      ensures var d := ClassifyAll(s, colls);
        && availableCol == d.available
        && nyuOnly == List(Items(old(nyuOnly)) + d.nyu)
        && gallatinOnly == List(Items(old(gallatinOnly)) + d.gallatin)
        && emptyCollections == List(Items(old(emptyCollections)) + d.empty)
        && privateCollections == List(Items(old(privateCollections)) + d.privates)
      ensures colAuthorizedUsers == Map(HiddenUsers(old(colAuthorizedUsers).entries, s, colls))
    {
      ghost var base := Lists([]);
      availableCol := [];
      var i := 0;
      while i < |colls|
        invariant 0 <= i <= |colls|
        invariant CollectReady()
        invariant Lists(availableCol) == Plus(base, ClassifyAll(s, colls[..i]))
        invariant colAuthorizedUsers == Map(HiddenUsers(old(colAuthorizedUsers).entries, s, colls[..i]))
      {
        var colID := colls[i];
        ghost var x := s.collections[colID];
        ghost var d := ClassifyAll(s, colls[..i]);
        ClassifySnoc(s, colls, i);
        HiddenUsersSnoc(old(colAuthorizedUsers).entries, s, colls, i);
        ClassifyAllIn(s, colls[..i], colID);
        assert availableCol == d.available;
        availableCol := ClassifyCollection(s, colID, availableCol);
        PlusStep(base, d, x, colID);
        i := i + 1;
      }
      assert colls[..i] == colls;
    }

    /** One pass of the loop of buildCollection: classify collection `colID`
        given the available collections found so far. */
    method ClassifyCollection(s: Snapshot, colID: int, availableCol: seq<int>) returns (found: seq<int>)
      requires Wf(s) && colID in s.collections && CollectReady()
      requires colID in availableCol ==> Available(s.collections[colID])
      modifies this`nyuOnly, this`gallatinOnly, this`emptyCollections, this`privateCollections,
               this`colAuthorizedUsers
      ensures CollectReady()
      ensures Lists(found) == Step(old(Lists(availableCol)), s.collections[colID], colID)
      ensures colAuthorizedUsers
           == Map(if Available(s.collections[colID]) then old(colAuthorizedUsers).entries
                  else InsertAll(old(colAuthorizedUsers).entries, CollectionUsers(s, colID), colID))
    {
      var x := s.collections[colID];
      found := ScopeTests(x, colID, availableCol);
      if colID !in found {
        HiddenCollection(s, colID);
      }
    }

    /** The scope tests of one pass: first match wins (public, NYU only,
        Gallatin); with items the collection is available, without it is
        recorded as empty. */
    method ScopeTests(x: Collection, colID: int, availableCol: seq<int>) returns (found: seq<int>)
      requires nyuOnly.List? && gallatinOnly.List? && emptyCollections.List?
      modifies this`nyuOnly, this`gallatinOnly, this`emptyCollections
      ensures nyuOnly.List? && gallatinOnly.List? && emptyCollections.List?
      ensures found == availableCol + (if Available(x) then [colID] else [])
      ensures nyuOnly.items == old(nyuOnly).items + (if ScopeOf(x) == NYUOnly then [colID] else [])
      ensures gallatinOnly.items == old(gallatinOnly).items + (if ScopeOf(x) == Gallatin then [colID] else [])
      ensures emptyCollections.items == old(emptyCollections).items
                + (if ScopeOf(x) != Unlisted && x.itemCount == 0 then [colID] else [])
    {
      found := availableCol;
      if x.isPublic {
        if x.itemCount > 0 {
          found := found + [colID];
        } else {
          emptyCollections := List(emptyCollections.items + [colID]);
        }
      } else {
        if x.isNYUOnly {
          if x.itemCount > 0 {
            found := found + [colID];
          } else {
            emptyCollections := List(emptyCollections.items + [colID]);
          }
          nyuOnly := List(nyuOnly.items + [colID]);
        } else {
          if x.isGallatin {
            if x.itemCount > 0 {
              found := found + [colID];
            } else {
              emptyCollections := List(emptyCollections.items + [colID]);
            }
            gallatinOnly := List(gallatinOnly.items + [colID]);
          }
        }
      }
    }

    /** The branch of one pass for a collection that is not available: record
        who may see it, and whether it is private or empty. */
    method HiddenCollection(s: Snapshot, colID: int)
      requires Wf(s) && colID in s.collections
      requires privateCollections.List? && emptyCollections.List? && colAuthorizedUsers.Map?
      modifies this`privateCollections, this`emptyCollections, this`colAuthorizedUsers
      ensures privateCollections.List? && emptyCollections.List?
      ensures colAuthorizedUsers
           == Map(InsertAll(old(colAuthorizedUsers).entries, CollectionUsers(s, colID), colID))
      ensures privateCollections.items == old(privateCollections).items
                + (if s.collections[colID].isPrivate then [colID] else [])
      ensures emptyCollections.items == old(emptyCollections).items
                + (if s.collections[colID].itemCount == 0 then [colID] else [])
    {
      var x := s.collections[colID];
      AddUsersToAuthorizedColList(s, colID);
      if x.isPrivate {
        privateCollections := List(privateCollections.items + [colID]);
      }
      if x.itemCount == 0 {
        emptyCollections := List(emptyCollections.items + [colID]);
      }
    }

    /** buildCommunity(c), recursively. */
    method BuildCommunity(s: Snapshot, c: int)
      requires Wf(s) && c in s.communities && commAuthorizedUsers.Map?
      modifies this`commMapAdmin, this`commMapAnon, this`commAuthorizedUsers
      ensures commAuthorizedUsers.Map?
      ensures State() == WalkComm(old(State()), s, c)
      decreases s.depthBound - Depth(s, c), 1
    {
      assert CommunityWf(s, c);
      SubsBelow(s, c);
      var comms := Subs(s, c);
      commMapAdmin := commMapAdmin[c := comms];
      ghost var t1 := State();
      assert t1 == old(State()).(commMapAdmin := old(commMapAdmin)[c := comms]);
      if |comms| > 0 {
        var availableComm := BuildSubcommunities(s, comms, Depth(s, c));
        ghost var w := State();
        if |availableComm| > 0 {
          commMapAnon := commMapAnon[c := availableComm];
        }
        assert State() == if |availableComm| > 0 then w.(commMapAnon := w.commMapAnon[c := availableComm]) else w;
      } else {
        assert WalkSubs(t1, s, comms, Depth(s, c)) == (t1, []);
      }
    }

    /** The loop of buildCommunity over the sub-communities `comms`, all
        deeper than `k`; it returns the visible ones. */
    method BuildSubcommunities(s: Snapshot, comms: seq<int>, k: int) returns (availableComm: seq<int>)
      requires Wf(s) && k < s.depthBound && Below(s, comms, k) && commAuthorizedUsers.Map?
      modifies this`commMapAdmin, this`commMapAnon, this`commAuthorizedUsers
      ensures commAuthorizedUsers.Map?
      ensures (State(), availableComm) == WalkSubs(old(State()), s, comms, k)
      decreases s.depthBound - k, 0
    {
      ghost var t1 := State();
      availableComm := [];
      var i := 0;
      while i < |comms|
        invariant 0 <= i <= |comms|
        invariant Below(s, comms[..i], k)
        invariant commAuthorizedUsers.Map?
        invariant (State(), availableComm) == WalkSubs(t1, s, comms[..i], k)
      {
        var d := comms[i];
        WalkSubsSnoc(t1, s, comms, k, i);
        ghost var next := WalkSubs(t1, s, comms[..i + 1], k);
        var visible := VisitSubcommunity(s, d);
        if visible {
          availableComm := availableComm + [d];
        }
        assert (State(), availableComm) == next;
        i := i + 1;
      }
      assert comms[..i] == comms;
    }

    /** One pass of the loop of buildCommunity: build sub-community `d`; it
        is visible when either anonymous map has an entry for it, and
        otherwise every user entitled to it gets it. */
    method VisitSubcommunity(s: Snapshot, d: int) returns (visible: bool)
      requires Wf(s) && d in s.communities && commAuthorizedUsers.Map?
      modifies this`commMapAdmin, this`commMapAnon, this`commAuthorizedUsers
      ensures commAuthorizedUsers.Map?
      ensures var t2 := WalkComm(old(State()), s, d);
        && visible == (d in t2.colMapAnon || d in t2.commMapAnon)
        && State() == if visible then t2 else HideStep(t2, s, d)
      decreases s.depthBound - Depth(s, d), 2
    {
      BuildCommunity(s, d);
      visible := d in colMapAnon || d in commMapAnon;
      if !visible {
        HiddenCommunity(s, d);
      }
    }

    /** The branch of buildCommunity for a sub-community `d` nobody can see
        anonymously: every user entitled to it gets it in front of their
        community array. */
    method HiddenCommunity(s: Snapshot, d: int)
      requires Wf(s) && d in s.communities && commAuthorizedUsers.Map?
      modifies this`commAuthorizedUsers
      ensures commAuthorizedUsers == Map(PrependAll(old(commAuthorizedUsers).entries, CommunityUsers(s, d), d))
    {
      var epersons := GetAuthirizedCommunityUsers(s, d);
      ghost var m0 := commAuthorizedUsers.entries;
      var i := 0;
      while i < |epersons|
        invariant 0 <= i <= |epersons|
        invariant commAuthorizedUsers.Map? && commAuthorizedUsers.entries == PrependAll(m0, epersons[..i], d)
      {
        PrependAllSnoc(m0, epersons, d, i);
        commAuthorizedUsers := Map(Prepend(commAuthorizedUsers.entries, epersons[i], d));
        i := i + 1;
      }
      assert epersons[..i] == epersons;
    }

    // -------------------------------------------------------------------
    // The authorised-user maps

    /** addUsersToAuthorizedColList(x): append `x` to the collection array of
        every user entitled to it. */
    method AddUsersToAuthorizedColList(s: Snapshot, x: int)
      requires Wf(s) && x in s.collections && colAuthorizedUsers.Map?
      modifies this`colAuthorizedUsers
      ensures colAuthorizedUsers == Map(InsertAll(old(colAuthorizedUsers).entries, CollectionUsers(s, x), x))
    {
      var epersons := GetAuthirizedCollectionUsers(s, x);
      ghost var m0 := colAuthorizedUsers.entries;
      var i := 0;
      while i < |epersons|
        invariant 0 <= i <= |epersons|
        invariant colAuthorizedUsers.Map? && colAuthorizedUsers.entries == InsertAll(m0, epersons[..i], x)
      {
        InsertAllSnoc(m0, epersons, x, i);
        colAuthorizedUsers := Map(Insert(colAuthorizedUsers.entries, epersons[i], x));
        i := i + 1;
      }
      assert epersons[..i] == epersons;
    }

    /** removeUsersFromAuthorizedColList(x): take `x` out of the collection
        array of every user entitled to it, leaving emptied arrays in place. */
    method RemoveUsersFromAuthorizedColList(s: Snapshot, x: int)
      requires Wf(s) && x in s.collections && colAuthorizedUsers.Map?
      modifies this`colAuthorizedUsers
      ensures colAuthorizedUsers == RevokeCollection(old(colAuthorizedUsers), s, x)
    {
      var epersons := GetAuthirizedCollectionUsers(s, x);
      ghost var m0 := colAuthorizedUsers.entries;
      var i := 0;
      while i < |epersons|
        invariant 0 <= i <= |epersons|
        invariant colAuthorizedUsers.Map? && colAuthorizedUsers.entries == RemoveKeepAll(m0, epersons[..i], x)
      {
        RemoveKeepAllSnoc(m0, epersons, x, i);
        colAuthorizedUsers := Map(RemoveKeep(colAuthorizedUsers.entries, epersons[i], x));
        i := i + 1;
      }
      assert epersons[..i] == epersons;
    }

    /** addUsersToAuthorizedComList(c): append `c` to the community array of
        every user entitled to it. */
    method AddUsersToAuthorizedComList(s: Snapshot, c: int)
      requires Wf(s) && c in s.communities && commAuthorizedUsers.Map?
      modifies this`commAuthorizedUsers
      ensures commAuthorizedUsers == Map(InsertAll(old(commAuthorizedUsers).entries, CommunityUsers(s, c), c))
    {
      var epersons := GetAuthirizedCommunityUsers(s, c);
      ghost var m0 := commAuthorizedUsers.entries;
      var i := 0;
      while i < |epersons|
        invariant 0 <= i <= |epersons|
        invariant commAuthorizedUsers.Map? && commAuthorizedUsers.entries == InsertAll(m0, epersons[..i], c)
      {
        InsertAllSnoc(m0, epersons, c, i);
        commAuthorizedUsers := Map(Insert(commAuthorizedUsers.entries, epersons[i], c));
        i := i + 1;
      }
      assert epersons[..i] == epersons;
    }

    /** removeUsersFromAuthorizedComList(c) as written: the test for an entry
        is made on the collection user map, so a user with no collection
        entry keeps `c`. */
    method RemoveUsersFromAuthorizedComList(s: Snapshot, c: int)
      requires Wf(s) && c in s.communities && colAuthorizedUsers.Map? && commAuthorizedUsers.Map?
      modifies this`commAuthorizedUsers
      ensures commAuthorizedUsers
           == Map(RevokeCommunity(colAuthorizedUsers.entries, old(commAuthorizedUsers).entries,
                                  CommunityUsers(s, c), c))
    {
      var epersons := GetAuthirizedCommunityUsers(s, c);
      ghost var m0 := commAuthorizedUsers.entries;
      var i := 0;
      while i < |epersons|
        invariant 0 <= i <= |epersons|
        invariant commAuthorizedUsers.Map?
        invariant commAuthorizedUsers.entries == RevokeCommunity(colAuthorizedUsers.entries, m0, epersons[..i], c)
      {
        RevokeCommunitySnoc(colAuthorizedUsers.entries, m0, epersons, c, i);
        if epersons[i] in colAuthorizedUsers.entries {
          commAuthorizedUsers := Map(RemoveKeep(commAuthorizedUsers.entries, epersons[i], c));
        }
        i := i + 1;
      }
      assert epersons[..i] == epersons;
    }

    /** addAuthorizedUser(dso, e): give user `e` the community or collection
        `node`, allocating the map when it is null. */
    method AddAuthorizedUser(kind: ObjectType, node: int, e: int)
      modifies this`colAuthorizedUsers, this`commAuthorizedUsers
      ensures kind == CommunityObject ==>
        commAuthorizedUsers == Map(Insert(Entries(old(commAuthorizedUsers)), e, node))
        && colAuthorizedUsers == old(colAuthorizedUsers)
      ensures kind == CollectionObject ==>
        colAuthorizedUsers == Map(Insert(Entries(old(colAuthorizedUsers)), e, node))
        && commAuthorizedUsers == old(commAuthorizedUsers)
      ensures kind == OtherObject ==>
        colAuthorizedUsers == old(colAuthorizedUsers) && commAuthorizedUsers == old(commAuthorizedUsers)
    {
      if kind == CommunityObject {
        if commAuthorizedUsers.NullMap? {
          commAuthorizedUsers := Map(map[]);
        }
        commAuthorizedUsers := Map(Insert(commAuthorizedUsers.entries, e, node));
      }
      if kind == CollectionObject {
        if colAuthorizedUsers.NullMap? {
          colAuthorizedUsers := Map(map[]);
        }
        colAuthorizedUsers := Map(Insert(colAuthorizedUsers.entries, e, node));
      }
    }

    /** removeAuthorizedUser(dso, e): take `node` away from user `e`; an
        emptied array takes its key with it. A null map stays null. */
    method RemoveAuthorizedUser(kind: ObjectType, node: int, e: int)
      modifies this`colAuthorizedUsers, this`commAuthorizedUsers
      ensures kind == CommunityObject ==>
        commAuthorizedUsers == (if old(commAuthorizedUsers).Map?
                                then Map(Detach(old(commAuthorizedUsers).entries, e, node))
                                else NullMap)
        && colAuthorizedUsers == old(colAuthorizedUsers)
      ensures kind == CollectionObject ==>
        colAuthorizedUsers == (if old(colAuthorizedUsers).Map?
                               then Map(Detach(old(colAuthorizedUsers).entries, e, node))
                               else NullMap)
        && commAuthorizedUsers == old(commAuthorizedUsers)
      ensures kind == OtherObject ==>
        colAuthorizedUsers == old(colAuthorizedUsers) && commAuthorizedUsers == old(commAuthorizedUsers)
    {
      if kind == CommunityObject && commAuthorizedUsers.Map? {
        commAuthorizedUsers := Map(Detach(commAuthorizedUsers.entries, e, node));
      }
      if kind == CollectionObject && colAuthorizedUsers.Map? {
        colAuthorizedUsers := Map(Detach(colAuthorizedUsers.entries, e, node));
      }
    }

    // -------------------------------------------------------------------
    // The derived lists

    method AddCollectionToPrivateList(x: int)
      modifies this`privateCollections
      ensures privateCollections == AddTo(old(privateCollections), x)
    {
      if privateCollections.NullList? {
        privateCollections := List([]);
      }
      privateCollections := List(privateCollections.items + [x]);
    }

    method RemoveCollectionFromPrivateListID(id: int)
      modifies this`privateCollections
      ensures privateCollections == RemoveIdFrom(old(privateCollections), id)
    {
      if privateCollections.List? {
        var kept := WithoutID(privateCollections.items, id);
        privateCollections := List(kept);
      }
    }

    /** removeCollectionFromPrivateList(x): when listed, unlist it and take
        it away from every user entitled to it. */
    method RemoveCollectionFromPrivateList(s: Snapshot, x: int)
      requires Wf(s) && x in s.collections
      requires privateCollections.List? && x in privateCollections.items ==> colAuthorizedUsers.Map?
      modifies this`privateCollections, this`colAuthorizedUsers
      ensures privateCollections == RemoveFrom(old(privateCollections), x)
      ensures colAuthorizedUsers == (if old(privateCollections).List? && x in old(privateCollections).items
                                     then RevokeCollection(old(colAuthorizedUsers), s, x)
                                     else old(colAuthorizedUsers))
    {
      if privateCollections.List? && x in privateCollections.items {
        privateCollections := List(RemoveFirst(privateCollections.items, x));
        RemoveUsersFromAuthorizedColList(s, x);
      }
    }

    /** addCollectionToNYUOnlyList(x) as written: a null NYU list makes it
        allocate the empty-collections list instead and then fail. */
    method AddCollectionToNYUOnlyList(x: int) returns (thrown: bool)
      modifies this`nyuOnly, this`emptyCollections
      ensures thrown <==> old(nyuOnly).NullList?
      ensures thrown ==> nyuOnly == old(nyuOnly) && emptyCollections == List([])
      ensures !thrown ==> nyuOnly == AddTo(old(nyuOnly), x) && emptyCollections == old(emptyCollections)
    {
      if nyuOnly.NullList? {
        emptyCollections := List([]);
        thrown := true;
      } else {
        nyuOnly := List(nyuOnly.items + [x]);
        thrown := false;
      }
    }

    method RemoveCollectionFromNYUOnlyListID(id: int)
      modifies this`nyuOnly
      ensures nyuOnly == RemoveIdFrom(old(nyuOnly), id)
    {
      if nyuOnly.List? {
        var kept := WithoutID(nyuOnly.items, id);
        nyuOnly := List(kept);
      }
    }

    method RemoveCollectionFromNYUOnlyList(x: int)
      modifies this`nyuOnly
      ensures nyuOnly == RemoveFrom(old(nyuOnly), x)
    {
      if nyuOnly.List? && x in nyuOnly.items {
        nyuOnly := List(RemoveFirst(nyuOnly.items, x));
      }
    }

    method AddCollectionToGallatinOnlyList(x: int)
      modifies this`gallatinOnly
      ensures gallatinOnly == AddTo(old(gallatinOnly), x)
    {
      if gallatinOnly.NullList? {
        gallatinOnly := List([]);
      }
      gallatinOnly := List(gallatinOnly.items + [x]);
    }

    method RemoveCollectionFromGallatinOnlyListID(id: int)
      modifies this`gallatinOnly
      ensures gallatinOnly == RemoveIdFrom(old(gallatinOnly), id)
    {
      if gallatinOnly.List? {
        var kept := WithoutID(gallatinOnly.items, id);
        gallatinOnly := List(kept);
      }
    }

    method RemoveCollectionFromGallatinOnlyList(x: int)
      modifies this`gallatinOnly
      ensures gallatinOnly == RemoveFrom(old(gallatinOnly), x)
    {
      if gallatinOnly.List? && x in gallatinOnly.items {
        gallatinOnly := List(RemoveFirst(gallatinOnly.items, x));
      }
    }

    method AddCollectionToEmptyList(x: int)
      modifies this`emptyCollections
      ensures emptyCollections == AddTo(old(emptyCollections), x)
    {
      if emptyCollections.NullList? {
        emptyCollections := List([]);
      }
      emptyCollections := List(emptyCollections.items + [x]);
    }

    method RemoveCollectionFromEmptyListID(id: int)
      modifies this`emptyCollections
      ensures emptyCollections == RemoveIdFrom(old(emptyCollections), id)
    {
      if emptyCollections.List? {
        var kept := WithoutID(emptyCollections.items, id);
        emptyCollections := List(kept);
      }
    }

    /** removeCollectionFromEmptyList(x): when listed, unlist it and take it
        away from every user entitled to it. */
    method RemoveCollectionFromEmptyList(s: Snapshot, x: int)
      requires Wf(s) && x in s.collections
      requires emptyCollections.List? && x in emptyCollections.items ==> colAuthorizedUsers.Map?
      modifies this`emptyCollections, this`colAuthorizedUsers
      ensures emptyCollections == RemoveFrom(old(emptyCollections), x)
      ensures colAuthorizedUsers == (if old(emptyCollections).List? && x in old(emptyCollections).items
                                     then RevokeCollection(old(colAuthorizedUsers), s, x)
                                     else old(colAuthorizedUsers))
    {
      if emptyCollections.List? && x in emptyCollections.items {
        emptyCollections := List(RemoveFirst(emptyCollections.items, x));
        RemoveUsersFromAuthorizedColList(s, x);
      }
    }

    // -------------------------------------------------------------------
    // checkCollection

    /** checkCollection(x): bring the private, NYU and Gallatin lists in line
        with the collection's flags; `thrown` reports the NullPointerException
        of a null list, after which nothing else is done. */
    method CheckCollection(s: Snapshot, x: int) returns (thrown: bool)
      requires Wf(s) && x in s.collections
      requires !s.collections[x].isPrivate && privateCollections.List? && x in privateCollections.items
               ==> colAuthorizedUsers.Map?
      modifies this`privateCollections, this`colAuthorizedUsers, this`nyuOnly, this`emptyCollections,
               this`gallatinOnly
      ensures (State(), thrown) == CheckSpec(old(State()), s, x)
    {
      thrown := CheckPrivateList(s, x);
      if !thrown {
        thrown := CheckNYUList(s, x);
        if !thrown {
          thrown := CheckGallatinList(s, x);
        }
      }
    }

    /** The private-list part of checkCollection. */
    method CheckPrivateList(s: Snapshot, x: int) returns (thrown: bool)
      requires Wf(s) && x in s.collections
      requires !s.collections[x].isPrivate && privateCollections.List? && x in privateCollections.items
               ==> colAuthorizedUsers.Map?
      modifies this`privateCollections, this`colAuthorizedUsers
      ensures (State(), thrown) == CheckPrivate(old(State()), s, x)
    {
      thrown := false;
      if s.collections[x].isPrivate {
        if privateCollections.NullList? || x !in privateCollections.items {
          AddCollectionToPrivateList(x);
        }
      } else if privateCollections.NullList? {
        thrown := true;
      } else if x in privateCollections.items {
        RemoveCollectionFromPrivateList(s, x);
      }
    }

    /** The NYU part of checkCollection. */
    method CheckNYUList(s: Snapshot, x: int) returns (thrown: bool)
      requires x in s.collections
      modifies this`nyuOnly, this`emptyCollections
      ensures (State(), thrown) == CheckNYU(old(State()), s, x)
    {
      thrown := false;
      if s.collections[x].isNYUOnly {
        if nyuOnly.NullList? || x !in nyuOnly.items {
          thrown := AddCollectionToNYUOnlyList(x);
        }
      } else if nyuOnly.NullList? {
        thrown := true;
      } else if x in nyuOnly.items {
        RemoveCollectionFromNYUOnlyList(x);
      }
    }

    /** The Gallatin part of checkCollection. */
    method CheckGallatinList(s: Snapshot, x: int) returns (thrown: bool)
      requires x in s.collections
      modifies this`gallatinOnly
      ensures (State(), thrown) == CheckGallatin(old(State()), s, x)
    {
      thrown := false;
      if s.collections[x].isGallatin {
        if gallatinOnly.NullList? || x !in gallatinOnly.items {
          AddCollectionToGallatinOnlyList(x);
        }
      } else if gallatinOnly.NullList? {
        thrown := true;
      } else if x in gallatinOnly.items {
        RemoveCollectionFromGallatinOnlyList(x);
      }
    }

    // -------------------------------------------------------------------
    // Incremental updates of one side's maps

    method SetColMap(admin: bool, m: ChildMap)
      modifies this`colMapAdmin, this`colMapAnon
      ensures ColMap(admin) == m && ColMap(!admin) == old(ColMap(!admin))
    {
      if admin {
        colMapAdmin := m;
      } else {
        colMapAnon := m;
      }
    }

    method SetCommMap(admin: bool, m: ChildMap)
      modifies this`commMapAdmin, this`commMapAnon
      ensures CommMap(admin) == m && CommMap(!admin) == old(CommMap(!admin))
    {
      if admin {
        commMapAdmin := m;
      } else {
        commMapAnon := m;
      }
    }

    /** addParentComm(c), recursively up to the child of a top-level community. */
    method AddParentComm(s: Snapshot, c: int, admin: bool)
      requires Wf(s) && c in s.communities
      modifies this`commMapAdmin, this`commMapAnon
      ensures CommMap(admin) == AddParents(old(CommMap(admin)), s, c)
      ensures CommMap(!admin) == old(CommMap(!admin))
      decreases Depth(s, c)
    {
      assert CommunityWf(s, c);
      var parentComm := ParentOf(s, c);
      if parentComm.Some? {
        var p := parentComm.value;
        assert CommunityWf(s, p);
        SetCommMap(admin, Insert(CommMap(admin), p, c));
        var nextParentComm := ParentOf(s, p);
        if nextParentComm.Some? {
          AddParentComm(s, p, admin);
        }
      }
    }

    /** addCollection(x). */
    method AddCollection(s: Snapshot, x: int, admin: bool)
      requires Wf(s) && x in s.collections
      modifies this`colMapAdmin, this`colMapAnon, this`commMapAdmin, this`commMapAnon
      ensures Side(admin) == AddCollectionTo(old(Side(admin)), s, x, s.collections[x].communities)
      ensures Side(!admin) == old(Side(!admin))
    {
      assert CollectionWf(s, x);
      var parentComms := s.collections[x].communities;
      var i := 0;
      while i < |parentComms|
        invariant 0 <= i <= |parentComms|
        invariant Side(admin) == AddCollectionTo(old(Side(admin)), s, x, parentComms[..i])
        invariant Side(!admin) == old(Side(!admin))
      {
        var parentComm := parentComms[i];
        AddCollectionToSnoc(old(Side(admin)), s, x, parentComms, i);
        if x in Cols(s, parentComm) {
          SetColMap(admin, Insert(ColMap(admin), parentComm, x));
          if ParentOf(s, parentComm).Some? {
            AddParentComm(s, parentComm, admin);
          }
        }
        i := i + 1;
      }
      assert parentComms[..i] == parentComms;
    }

    /** addCollectionID(c, x). */
    method AddCollectionID(s: Snapshot, c: int, x: int, admin: bool)
      requires Wf(s) && c in s.communities
      modifies this`colMapAdmin, this`colMapAnon, this`commMapAdmin, this`commMapAnon
      ensures Side(admin) == InsertCollection(old(Side(admin)), s, c, x)
      ensures Side(!admin) == old(Side(!admin))
    {
      SetColMap(admin, Insert(ColMap(admin), c, x));
      if ParentOf(s, c).Some? {
        AddParentComm(s, c, admin);
      }
    }

    /** addChildrenComm(c), recursively over the whole subtree. */
    method AddChildrenComm(s: Snapshot, c: int, admin: bool)
      requires Wf(s) && c in s.communities
      modifies this`colMapAdmin, this`colMapAnon, this`commMapAdmin, this`commMapAnon
      ensures Side(admin) == AddChildren(old(Side(admin)), s, c, admin)
      ensures Side(!admin) == old(Side(!admin))
      decreases s.depthBound - Depth(s, c), 1
    {
      AddChildrenUnfold(Side(admin), s, c, admin);
      var colls := Cols(s, c);
      if |colls| > 0 {
        SetColMap(admin, ColMap(admin)[c := colls]);
      }
      var comms := Subs(s, c);
      if c !in CommMap(admin) && (admin || |comms| > 0) {
        SetCommMap(admin, CommMap(admin)[c := comms]);
      }
      AddChildrenEach(s, comms, Depth(s, c), admin);
    }

    /** The loop of addChildrenComm: addChildrenComm for every sub-community
        of `comms`, in order; all of them lie deeper than `k`. */
    method AddChildrenEach(s: Snapshot, comms: seq<int>, k: int, admin: bool)
      requires Wf(s) && k < s.depthBound && Below(s, comms, k)
      modifies this`colMapAdmin, this`colMapAnon, this`commMapAdmin, this`commMapAnon
      ensures Side(admin) == AddChildrenAll(old(Side(admin)), s, comms, k, admin)
      ensures Side(!admin) == old(Side(!admin))
      decreases s.depthBound - k, 0
    {
      ghost var m1 := Side(admin);
      var i := 0;
      while i < |comms|
        invariant 0 <= i <= |comms|
        invariant Below(s, comms[..i], k)
        invariant Side(admin) == AddChildrenAll(m1, s, comms[..i], k, admin)
        invariant Side(!admin) == old(Side(!admin))
      {
        AddChildrenAllSnoc(m1, s, comms, k, admin, i);
        ghost var before := Side(admin);
        AddChildrenComm(s, comms[i], admin);
        assert Side(admin) == AddChildren(before, s, comms[i], admin);
        i := i + 1;
      }
      assert comms[..i] == comms;
    }

    /** updateCollectionMetadata(x): move `x` to the end of its owning
        community's array. */
    method UpdateCollectionMetadata(s: Snapshot, x: int, admin: bool)
      requires Wf(s) && x in s.collections
      requires s.collections[x].owner.Some? ==> if admin then adminMaps else anonMaps
      modifies this`colMapAdmin, this`colMapAnon
      ensures s.collections[x].owner.Some? ==>
                ColMap(admin) == MoveLast(old(ColMap(admin)), s.collections[x].owner.value, x)
      ensures s.collections[x].owner.None? ==> ColMap(admin) == old(ColMap(admin))
      ensures ColMap(!admin) == old(ColMap(!admin))
    {
      var owner := s.collections[x].owner;
      if owner.Some? {
        SetColMap(admin, MoveLast(ColMap(admin), owner.value, x));
      }
    }

    /** updateCommunityMetadata(c): move `c` to the end of its parent's
        array; on the admin side a parent without an entry gets [c]. */
    method UpdateCommunityMetadata(s: Snapshot, c: int, admin: bool)
      requires Wf(s) && c in s.communities
      requires ParentOf(s, c).Some? ==> if admin then adminMaps else anonMaps
      modifies this`commMapAdmin, this`commMapAnon
      ensures ParentOf(s, c).None? ==> CommMap(admin) == old(CommMap(admin))
      ensures ParentOf(s, c).Some? ==>
        var p := ParentOf(s, c).value;
        CommMap(admin) == if admin && p !in old(CommMap(admin)) then old(CommMap(admin))[p := [c]]
                          else MoveLast(old(CommMap(admin)), p, c)
      ensures CommMap(!admin) == old(CommMap(!admin))
    {
      var parentComm := ParentOf(s, c);
      if parentComm.Some? {
        var p := parentComm.value;
        if admin {
          if p in commMapAdmin {
            commMapAdmin := MoveLast(commMapAdmin, p, c);
          } else {
            commMapAdmin := commMapAdmin[p := [c]];
          }
        } else {
          commMapAnon := MoveLast(commMapAnon, p, c);
        }
      }
    }

    /** removeParentComm(c) as written: detach `c` from its parent, then
        recurse on the grandparent. */
    method RemoveParentComm(s: Snapshot, c: int, admin: bool)
      requires Wf(s) && c in s.communities
      modifies this`commMapAdmin, this`commMapAnon
      ensures CommMap(admin) == RemoveParents(old(CommMap(admin)), s, c)
      ensures CommMap(!admin) == old(CommMap(!admin))
      decreases Depth(s, c)
    {
      assert CommunityWf(s, c);
      var parentComm := ParentOf(s, c);
      if parentComm.Some? {
        var p := parentComm.value;
        assert CommunityWf(s, p);
        SetCommMap(admin, Detach(CommMap(admin), p, c));
        var nextParentComm := ParentOf(s, p);
        if nextParentComm.Some? {
          RemoveParentComm(s, nextParentComm.value, admin);
        }
      }
    }

    /** removeCollection(x) for one community `p` that holds it. */
    method DropFromParent(s: Snapshot, p: int, x: int, admin: bool)
      requires Wf(s) && p in s.communities
      modifies this`colMapAdmin, this`colMapAnon, this`commMapAdmin, this`commMapAnon
      ensures Side(admin) == DropCollection(old(Side(admin)), s, p, x)
      ensures Side(!admin) == old(Side(!admin))
    {
      var colMap := ColMap(admin);
      if p in colMap && x in colMap[p] {
        var colsOldRaw := RemoveFirst(colMap[p], x);
        if |colsOldRaw| > 0 {
          SetColMap(admin, colMap[p := colsOldRaw]);
        } else {
          SetColMap(admin, colMap - {p});
          if p !in CommMap(admin) && ParentOf(s, p).Some? {
            RemoveParentComm(s, p, admin);
          }
        }
      }
    }

    /** removeCollection(x). */
    method RemoveCollection(s: Snapshot, x: int, admin: bool)
      requires Wf(s) && x in s.collections
      modifies this`colMapAdmin, this`colMapAnon, this`commMapAdmin, this`commMapAnon
      ensures Side(admin) == RemoveCollectionFrom(old(Side(admin)), s, x, s.collections[x].communities)
      ensures Side(!admin) == old(Side(!admin))
    {
      assert CollectionWf(s, x);
      var parentComms := s.collections[x].communities;
      var i := 0;
      while i < |parentComms|
        invariant 0 <= i <= |parentComms|
        invariant Side(admin) == RemoveCollectionFrom(old(Side(admin)), s, x, parentComms[..i])
        invariant Side(!admin) == old(Side(!admin))
      {
        RemoveCollectionFromSnoc(old(Side(admin)), s, x, parentComms, i);
        if x in Cols(s, parentComms[i]) {
          DropFromParent(s, parentComms[i], x, admin);
        }
        i := i + 1;
      }
      assert parentComms[..i] == parentComms;
    }

    /** removeCollectionID(c, id). */
    method RemoveCollectionID(s: Snapshot, c: int, id: int, admin: bool)
      requires Wf(s) && c in s.communities
      modifies this`colMapAdmin, this`colMapAnon, this`commMapAdmin, this`commMapAnon
      ensures Side(admin) == DropCollectionID(old(Side(admin)), s, c, id)
      ensures Side(!admin) == old(Side(!admin))
    {
      var colMap := ColMap(admin);
      if c in colMap {
        var colsOld := colMap[c];
        var kept := WithoutID(colsOld, id);
        RemoveAllSpec(colsOld, id);
        if |kept| < |colsOld| {
          if |kept| > 0 {
            SetColMap(admin, colMap[c := kept]);
          } else {
            SetColMap(admin, colMap - {c});
            if c !in CommMap(admin) && ParentOf(s, c).Some? {
              RemoveParentComm(s, c, admin);
            }
          }
        }
      }
    }

    /** removeChildrenComm(c), recursively over the whole subtree. */
    method RemoveChildrenComm(s: Snapshot, c: int, admin: bool)
      requires Wf(s) && c in s.communities
      modifies this`colMapAdmin, this`colMapAnon, this`commMapAdmin, this`commMapAnon
      ensures Side(admin) == RemoveChildren(old(Side(admin)), s, c)
      ensures Side(!admin) == old(Side(!admin))
      decreases s.depthBound - Depth(s, c)
    {
      assert CommunityWf(s, c);
      SubsBelow(s, c);
      if |Cols(s, c)| > 0 {
        SetColMap(admin, ColMap(admin) - {c});
      }
      var comms := Subs(s, c);
      if |comms| > 0 {
        SetCommMap(admin, CommMap(admin) - {c});
        ghost var m1 := Side(admin);
        ghost var k := Depth(s, c);
        var i := 0;
        while i < |comms|
          invariant 0 <= i <= |comms|
          invariant Below(s, comms[..i], k)
          invariant Side(admin) == RemoveChildrenAll(m1, s, comms[..i], k)
          invariant Side(!admin) == old(Side(!admin))
        {
          SubFacts(s, c, i);
          RemoveChildrenAllSnoc(m1, s, comms, k, i);
          ghost var before := Side(admin);
          RemoveChildrenComm(s, comms[i], admin);
          assert Side(admin) == RemoveChildren(before, s, comms[i]);
          i := i + 1;
        }
        assert comms[..i] == comms;
      }
    }

    /** removeParentCommID(c, id): every sub-community with that ID leaves
        `c`'s array; an emptied array takes its key with it. */
    method RemoveParentCommID(c: int, id: int, admin: bool)
      modifies this`commMapAdmin, this`commMapAnon
      ensures CommMap(admin) == DetachAll(old(CommMap(admin)), c, id)
      ensures CommMap(!admin) == old(CommMap(!admin))
    {
      var commMap := CommMap(admin);
      if c in commMap {
        var commsOld := commMap[c];
        var kept := WithoutID(commsOld, id);
        RemoveAllSpec(commsOld, id);
        if |kept| < |commsOld| {
          if |kept| > 0 {
            SetCommMap(admin, commMap[c := kept]);
          } else {
            SetCommMap(admin, commMap - {c});
          }
        }
      }
    }

    /** removeChildrenCommID(id) as written: on the anonymous side the
        collection entry is removed from colMapAdmin, not colMapAnon. */
    method RemoveChildrenCommID(id: int, admin: bool)
      requires !admin && anonMaps ==> adminMaps
      modifies this`colMapAdmin, this`commMapAdmin, this`commMapAnon
      ensures admin ==> commMapAdmin == (if adminMaps then old(commMapAdmin) - {id} else old(commMapAdmin))
                        && colMapAdmin == (if adminMaps then old(colMapAdmin) - {id} else old(colMapAdmin))
                        && commMapAnon == old(commMapAnon)
      ensures !admin ==> commMapAnon == (if anonMaps then old(commMapAnon) - {id} else old(commMapAnon))
                         && colMapAdmin == (if anonMaps then old(colMapAdmin) - {id} else old(colMapAdmin))
                         && commMapAdmin == old(commMapAdmin)
    {
      if admin {
        if adminMaps && id in commMapAdmin {
          commMapAdmin := commMapAdmin - {id};
        }
        if adminMaps && id in colMapAdmin {
          colMapAdmin := colMapAdmin - {id};
        }
      } else {
        if anonMaps && id in commMapAnon {
          commMapAnon := commMapAnon - {id};
        }
        if anonMaps && id in colMapAdmin {
          colMapAdmin := colMapAdmin - {id};
        }
      }
    }

    // -------------------------------------------------------------------
    // The public entry points for the maps

    method AddCollectionToAnnonList(s: Snapshot, x: int)
      requires Wf(s) && x in s.collections
      modifies this`anonMaps, this`colMapAdmin, this`colMapAnon, this`commMapAdmin, this`commMapAnon
      ensures anonMaps
      ensures Side(false) == AddCollectionTo(if old(anonMaps) then old(Side(false)) else (map[], map[]),
                                             s, x, s.collections[x].communities)
      ensures Side(true) == old(Side(true))
    {
      if !anonMaps {
        AllocateAnonMaps();
      }
      AddCollection(s, x, false);
    }

    method AddCollectionToAnnonListID(s: Snapshot, c: int, x: int)
      requires Wf(s) && c in s.communities
      modifies this`anonMaps, this`colMapAdmin, this`colMapAnon, this`commMapAdmin, this`commMapAnon
      ensures anonMaps
      ensures Side(false) == InsertCollection(if old(anonMaps) then old(Side(false)) else (map[], map[]), s, c, x)
      ensures Side(true) == old(Side(true))
    {
      if !anonMaps {
        AllocateAnonMaps();
      }
      AddCollectionID(s, c, x, false);
    }

    method RemoveCollectionFromAnnonList(s: Snapshot, x: int)
      requires Wf(s) && x in s.collections
      modifies this`colMapAdmin, this`colMapAnon, this`commMapAdmin, this`commMapAnon
      ensures Side(false) == (if anonMaps then RemoveCollectionFrom(old(Side(false)), s, x, s.collections[x].communities)
                              else old(Side(false)))
      ensures Side(true) == old(Side(true))
    {
      if anonMaps {
        RemoveCollection(s, x, false);
      }
    }

    method RemoveCollectionFromAnnonListID(s: Snapshot, c: int, id: int)
      requires Wf(s) && c in s.communities
      modifies this`colMapAdmin, this`colMapAnon, this`commMapAdmin, this`commMapAnon
      ensures Side(false) == (if anonMaps then DropCollectionID(old(Side(false)), s, c, id) else old(Side(false)))
      ensures Side(true) == old(Side(true))
    {
      if anonMaps {
        RemoveCollectionID(s, c, id, false);
      }
    }

    method AddCollectionToAdminList(s: Snapshot, x: int)
      requires Wf(s) && x in s.collections
      modifies this`adminMaps, this`colMapAdmin, this`colMapAnon, this`commMapAdmin, this`commMapAnon
      ensures adminMaps
      ensures Side(true) == AddCollectionTo(if old(adminMaps) then old(Side(true)) else (map[], map[]),
                                            s, x, s.collections[x].communities)
      ensures Side(false) == old(Side(false))
    {
      if !adminMaps {
        AllocateAdminMaps();
      }
      AddCollection(s, x, true);
    }

    method AddCollectionToAdminListID(s: Snapshot, c: int, x: int)
      requires Wf(s) && c in s.communities
      modifies this`adminMaps, this`colMapAdmin, this`colMapAnon, this`commMapAdmin, this`commMapAnon
      ensures adminMaps
      ensures Side(true) == InsertCollection(if old(adminMaps) then old(Side(true)) else (map[], map[]), s, c, x)
      ensures Side(false) == old(Side(false))
    {
      if !adminMaps {
        AllocateAdminMaps();
      }
      AddCollectionID(s, c, x, true);
    }

    method RemoveCollectionFromAdminList(s: Snapshot, x: int)
      requires Wf(s) && x in s.collections
      modifies this`colMapAdmin, this`colMapAnon, this`commMapAdmin, this`commMapAnon
      ensures Side(true) == (if adminMaps then RemoveCollectionFrom(old(Side(true)), s, x, s.collections[x].communities)
                             else old(Side(true)))
      ensures Side(false) == old(Side(false))
    {
      if adminMaps {
        RemoveCollection(s, x, true);
      }
    }

    method RemoveCollectionFromAdminListID(s: Snapshot, c: int, id: int)
      requires Wf(s) && c in s.communities
      modifies this`colMapAdmin, this`colMapAnon, this`commMapAdmin, this`commMapAnon
      ensures Side(true) == (if adminMaps then DropCollectionID(old(Side(true)), s, c, id) else old(Side(true)))
      ensures Side(false) == old(Side(false))
    {
      if adminMaps {
        RemoveCollectionID(s, c, id, true);
      }
    }

    /** addCommunityToAnnonList(c): guarded by the admin maps, but edits the
        anonymous ones. */
    method AddCommunityToAnnonList(s: Snapshot, c: int)
      requires Wf(s) && c in s.communities
      requires adminMaps ==> anonMaps
      modifies this`colMapAdmin, this`colMapAnon, this`commMapAdmin, this`commMapAnon
      ensures Side(false) == (if adminMaps then AddChildren((old(colMapAnon), AddParents(old(commMapAnon), s, c)), s, c, false)
                              else old(Side(false)))
      ensures Side(true) == old(Side(true))
    {
      if adminMaps {
        AddParentComm(s, c, false);
        AddChildrenComm(s, c, false);
      }
    }

    method RemoveCommunityFromAnnonListID(parent: int, id: int)
      requires adminMaps ==> anonMaps
      modifies this`commMapAdmin, this`commMapAnon
      ensures commMapAnon == (if adminMaps then DetachAll(old(commMapAnon), parent, id) else old(commMapAnon))
      ensures commMapAdmin == old(commMapAdmin)
    {
      if adminMaps {
        RemoveParentCommID(parent, id, false);
      }
    }

    method RemoveCommunityFromAnnonList(s: Snapshot, c: int)
      requires Wf(s) && c in s.communities
      requires adminMaps ==> anonMaps
      modifies this`colMapAdmin, this`colMapAnon, this`commMapAdmin, this`commMapAnon
      ensures Side(false) == (if adminMaps then RemoveChildren((old(colMapAnon), RemoveParents(old(commMapAnon), s, c)), s, c)
                              else old(Side(false)))
      ensures Side(true) == old(Side(true))
    {
      if adminMaps {
        RemoveParentComm(s, c, false);
        RemoveChildrenComm(s, c, false);
      }
    }

    /** addCommunityToAdminList(c): not guarded. */
    method AddCommunityToAdminList(s: Snapshot, c: int)
      requires Wf(s) && c in s.communities
      requires adminMaps
      modifies this`colMapAdmin, this`colMapAnon, this`commMapAdmin, this`commMapAnon
      ensures Side(true) == AddChildren((old(colMapAdmin), AddParents(old(commMapAdmin), s, c)), s, c, true)
      ensures Side(false) == old(Side(false))
    {
      AddParentComm(s, c, true);
      AddChildrenComm(s, c, true);
    }

    method RemoveCommunityFromAdminListID(parent: int, id: int)
      modifies this`commMapAdmin, this`commMapAnon
      ensures commMapAdmin == (if adminMaps then DetachAll(old(commMapAdmin), parent, id) else old(commMapAdmin))
      ensures commMapAnon == old(commMapAnon)
    {
      if adminMaps {
        RemoveParentCommID(parent, id, true);
      }
    }

    method RemoveCommunityFromAdminList(s: Snapshot, c: int)
      requires Wf(s) && c in s.communities
      modifies this`colMapAdmin, this`colMapAnon, this`commMapAdmin, this`commMapAnon
      ensures Side(true) == (if adminMaps then RemoveChildren((old(colMapAdmin), RemoveParents(old(commMapAdmin), s, c)), s, c)
                             else old(Side(true)))
      ensures Side(false) == old(Side(false))
    {
      if adminMaps {
        RemoveParentComm(s, c, true);
        RemoveChildrenComm(s, c, true);
      }
    }

    method RemoveChildrenCommunityFromAnnonListID(id: int)
      requires anonMaps ==> adminMaps
      modifies this`colMapAdmin, this`commMapAdmin, this`commMapAnon
      ensures commMapAnon == (if anonMaps then old(commMapAnon) - {id} else old(commMapAnon))
      ensures colMapAdmin == (if anonMaps then old(colMapAdmin) - {id} else old(colMapAdmin))
      ensures commMapAdmin == old(commMapAdmin)
    {
      if anonMaps {
        RemoveChildrenCommID(id, false);
      }
    }

    method RemoveChildrenCommunityFromAdminListID(id: int)
      modifies this`colMapAdmin, this`commMapAdmin, this`commMapAnon
      ensures commMapAdmin == (if adminMaps then old(commMapAdmin) - {id} else old(commMapAdmin))
      ensures colMapAdmin == (if adminMaps then old(colMapAdmin) - {id} else old(colMapAdmin))
      ensures commMapAnon == old(commMapAnon)
    {
      if adminMaps {
        RemoveChildrenCommID(id, true);
      }
    }
  }
}
