/**
 * The first generation of the cache (package org.dspace.frontlist): a one-time
 * build of the four parent -> child maps, the derived collection lists and
 * two lists of <e-person, group, node> triples for users who may see hidden
 * nodes, plus read-only lookups on the triple lists.
 *
 * The functions in this module say, step by step, what each build step leaves
 * behind; the class `ListUserCommunities` performs the same steps on its
 * fields, and each of its methods is proved against the matching function.
 */
module FrontList {
  import opened Hierarchy
  import opened Classification
  import opened ChildMaps
  import opened Seqs

  /** AuthorizedCollectionUsers / AuthorizedCommunityUsers: one triple. */
  datatype Grant = Grant(eperson: int, group: int, node: int)

  /** The DSpace object type passed to buildAuthorizedGroupUsers. */
  datatype NodeKind = CollectionNode | CommunityNode

  /** Everything the cache holds, as a value. */
  datatype Tables = Tables(
    nyuOnly: seq<int>,
    gallatinOnly: seq<int>,
    emptyCollections: seq<int>,
    privateCollections: seq<int>,
    colMapAnon: ChildMap,
    commMapAnon: ChildMap,
    colMapAdmin: ChildMap,
    commMapAdmin: ChildMap,
    colAuthorizedUsers: seq<Grant>,
    commAuthorizedUsers: seq<Grant>,
    colAuthorizedUsersRaw: seq<Grant>,
    commAuthorizedUsersRaw: seq<Grant>)

  /** The freshly allocated structures at the start of the build. */
  const Fresh := Tables([], [], [], [], map[], map[], map[], map[], [], [], [], [])

  // ---------------------------------------------------------------------
  // Triples

  /** One triple per user, all with group `g` and node `node`. */
  function Tag(es: seq<int>, g: int, node: int): seq<Grant>
  {
    if es == [] then [] else Tag(es[..|es| - 1], g, node) + [Grant(es[|es| - 1], g, node)]
  }

  /** The e-person of each triple, in order. */
  function Eps(ts: seq<Grant>): seq<int>
  {
    if ts == [] then [] else Eps(ts[..|ts| - 1]) + [ts[|ts| - 1].eperson]
  }

  lemma {:induction false} TagAppend(a: seq<int>, b: seq<int>, g: int, node: int)
    ensures Tag(a + b, g, node) == Tag(a, g, node) + Tag(b, g, node)
    decreases |b|
  {
    if b != [] {
      var b' := b[..|b| - 1];
      assert (a + b)[..|a + b| - 1] == a + b';
      assert (a + b)[|a + b| - 1] == b[|b| - 1];
      TagAppend(a, b', g, node);
      calc {
        Tag(a + b, g, node);
        Tag(a + b', g, node) + [Grant(b[|b| - 1], g, node)];
        Tag(a, g, node) + Tag(b', g, node) + [Grant(b[|b| - 1], g, node)];
        Tag(a, g, node) + (Tag(b', g, node) + [Grant(b[|b| - 1], g, node)]);
        Tag(a, g, node) + Tag(b, g, node);
      }
    } else {
      assert a + b == a;
    }
  }

  lemma ParentGrantsSnoc(s: Snapshot, cs: seq<int>, i: int, x: int)
    requires Wf(s) && forall j :: 0 <= j < |cs| ==> cs[j] in s.communities
    requires 0 <= i < |cs|
    ensures CommunityWf(s, cs[i])
    ensures ParentGrants(s, cs[..i + 1], x)
         == ParentGrants(s, cs[..i], x) + OptGroupGrants(s, s.communities[cs[i]].administrators, x)
  {
    assert cs[..i + 1][..i] == cs[..i];
  }

  lemma HiddenGrantsSnoc(s: Snapshot, cs: seq<int>, i: int)
    requires Wf(s) && AllCollections(s, cs) && 0 <= i < |cs|
    ensures HiddenGrants(s, cs[..i + 1])
         == HiddenGrants(s, cs[..i]) + (if Available(s.collections[cs[i]]) then [] else ColGrants(s, cs[i]))
  {
    assert cs[..i + 1][..i] == cs[..i];
  }

  /** ColGrants in terms of the three parts buildAuthorizedColList adds. */
  lemma ColGrantsParts(s: Snapshot, x: int)
    requires Wf(s) && x in s.collections
    ensures CollectionWf(s, x)
    ensures ColGrants(s, x) == OptGroupGrants(s, s.collections[x].administrators, x)
      + OptGroupGrants(s, s.collections[x].submitters, x) + ParentGrants(s, s.collections[x].communities, x)
  {
  }

  /** The collection branch of buildAuthorizedGroupUsers: a triple for every
      direct member of `g` and every member of one of its member groups, all
      carrying the outer group's ID. */
  function GroupGrants(s: Snapshot, g: int, node: int): seq<Grant>
    requires Wf(s) && g in s.groups
  {
    Tag(GroupUsers(s, g), g, node)
  }

  function OptGroupGrants(s: Snapshot, g: Option<int>, node: int): seq<Grant>
    requires Wf(s) && GroupRef(s, g)
  {
    if g.Some? then GroupGrants(s, g.value, node) else []
  }

  /** buildCommGroupUsers for each community listing collection `x`. */
  function ParentGrants(s: Snapshot, cs: seq<int>, x: int): seq<Grant>
    requires Wf(s) && forall i :: 0 <= i < |cs| ==> cs[i] in s.communities
  {
    if cs == [] then []
    else
      var p := cs[|cs| - 1];
      assert CommunityWf(s, p);
      ParentGrants(s, cs[..|cs| - 1], x) + OptGroupGrants(s, s.communities[p].administrators, x)
  }

  /** buildAuthorizedColList: administrators, submitters, then the
      administrators of every community that lists the collection. */
  function ColGrants(s: Snapshot, x: int): seq<Grant>
    requires Wf(s) && x in s.collections
  {
    assert CollectionWf(s, x);
    var k := s.collections[x];
    OptGroupGrants(s, k.administrators, x) + OptGroupGrants(s, k.submitters, x)
      + ParentGrants(s, k.communities, x)
  }

  /** The triples of the collections of `ids` that are not available, in order. */
  function HiddenGrants(s: Snapshot, ids: seq<int>): seq<Grant>
    requires Wf(s) && AllCollections(s, ids)
  {
    if ids == [] then []
    else
      var x := ids[|ids| - 1];
      HiddenGrants(s, ids[..|ids| - 1]) + (if Available(s.collections[x]) then [] else ColGrants(s, x))
  }

  /** buildAuthorizedGroupUsers(g, node). The community branch puts the direct
      members into the collection triple list and the nested members into
      commAuthorizedUsers. */
  function GroupStep(t: Tables, s: Snapshot, g: int, node: int, kind: NodeKind): Tables
    requires Wf(s) && g in s.groups
  {
    match kind
    case CollectionNode =>
      t.(colAuthorizedUsersRaw := t.colAuthorizedUsersRaw + GroupGrants(s, g, node))
    case CommunityNode =>
      t.(colAuthorizedUsersRaw := t.colAuthorizedUsersRaw + Tag(MembersOf(s, g), g, node),
         commAuthorizedUsers := t.commAuthorizedUsers + Tag(NestedMembers(s, s.groups[g].memberGroups), g, node))
  }

  /** buildAuthorizedCommList(d). */
  function CommGrantStep(t: Tables, s: Snapshot, d: int): Tables
    requires Wf(s) && d in s.communities
  {
    assert CommunityWf(s, d);
    match s.communities[d].administrators
    case None => t
    case Some(g) => GroupStep(t, s, g, d, CommunityNode)
  }

  // ---------------------------------------------------------------------
  // The two build phases

  /** buildCollections(c). */
  function CollectStep(t: Tables, s: Snapshot, c: int): Tables
    requires Wf(s) && c in s.communities
  {
    assert CommunityWf(s, c);
    var cols := Cols(s, c);
    var d := ClassifyAll(s, cols);
    t.(colMapAdmin := t.colMapAdmin[c := cols],
       colMapAnon := if |d.available| > 0 then t.colMapAnon[c := d.available] else t.colMapAnon,
       nyuOnly := t.nyuOnly + d.nyu,
       gallatinOnly := t.gallatinOnly + d.gallatin,
       emptyCollections := t.emptyCollections + d.empty,
       privateCollections := t.privateCollections + d.privates,
       colAuthorizedUsersRaw := t.colAuthorizedUsersRaw + HiddenGrants(s, cols))
  }

  /** CollectStep field by field. */
  lemma CollectStepFields(t: Tables, s: Snapshot, c: int)
    requires Wf(s) && c in s.communities
    ensures CommunityWf(s, c)
    ensures var d := ClassifyAll(s, Cols(s, c));
      CollectStep(t, s, c) == Tables(
        t.nyuOnly + d.nyu, t.gallatinOnly + d.gallatin, t.emptyCollections + d.empty,
        t.privateCollections + d.privates,
        if |d.available| > 0 then t.colMapAnon[c := d.available] else t.colMapAnon,
        t.commMapAnon, t.colMapAdmin[c := Cols(s, c)], t.commMapAdmin,
        t.colAuthorizedUsers, t.commAuthorizedUsers,
        t.colAuthorizedUsersRaw + HiddenGrants(s, Cols(s, c)), t.commAuthorizedUsersRaw)
  {
  }

  /** buildCollections for each community of `cs`, in order. */
  function CollectAll(t: Tables, s: Snapshot, cs: seq<int>): Tables
    requires Wf(s) && forall i :: 0 <= i < |cs| ==> cs[i] in s.communities
  {
    if cs == [] then t else CollectStep(CollectAll(t, s, cs[..|cs| - 1]), s, cs[|cs| - 1])
  }

  lemma CollectAllSnoc(t: Tables, s: Snapshot, cs: seq<int>, i: int)
    requires Wf(s) && (forall j :: 0 <= j < |cs| ==> cs[j] in s.communities) && 0 <= i < |cs|
    ensures CollectAll(t, s, cs[..i + 1]) == CollectStep(CollectAll(t, s, cs[..i]), s, cs[i])
  {
    assert cs[..i + 1][..i] == cs[..i];
  }

  /** buildCommunity(c): record all sub-communities, walk them in order, and
      record the ones that turned out visible. */
  function WalkComm(t: Tables, s: Snapshot, c: int): Tables
    requires Wf(s) && c in s.communities
    decreases s.depthBound - Depth(s, c), |Subs(s, c)| + 1
  {
    assert CommunityWf(s, c);
    SubsBelow(s, c);
    var t1 := t.(commMapAdmin := t.commMapAdmin[c := Subs(s, c)]);
    var w := WalkSubs(t1, s, Subs(s, c), Depth(s, c));
    if |w.1| > 0 then w.0.(commMapAnon := w.0.commMapAnon[c := w.1]) else w.0
  }

  /** The loop of buildCommunity over the sub-communities `ids`: the state it
      leaves and the visible sub-communities it collected. */
  function WalkSubs(t: Tables, s: Snapshot, ids: seq<int>, k: int): (Tables, seq<int>)
    requires Wf(s) && k < s.depthBound && Below(s, ids, k)
    decreases s.depthBound - k, |ids|
  {
    if ids == [] then (t, [])
    else
      var d := ids[|ids| - 1];
      assert CommunityWf(s, d);
      var w := WalkSubs(t, s, ids[..|ids| - 1], k);
      var t2 := WalkComm(w.0, s, d);
      if d in t2.colMapAnon || d in t2.commMapAnon then (t2, w.1 + [d])
      else (CommGrantStep(t2, s, d), w.1)
  }

  lemma WalkSubsSnoc(t: Tables, s: Snapshot, ids: seq<int>, k: int, i: int)
    requires Wf(s) && k < s.depthBound && Below(s, ids, k) && 0 <= i < |ids|
    ensures Below(s, ids[..i], k) && Below(s, ids[..i + 1], k)
    ensures var w := WalkSubs(t, s, ids[..i], k);
            var t2 := WalkComm(w.0, s, ids[i]);
      WalkSubs(t, s, ids[..i + 1], k)
        == if ids[i] in t2.colMapAnon || ids[i] in t2.commMapAnon then (t2, w.1 + [ids[i]])
           else (CommGrantStep(t2, s, ids[i]), w.1)
  {
    assert ids[..i + 1][..i] == ids[..i];
  }

  /** buildCommunity for each top-level community, in order. */
  function WalkTops(t: Tables, s: Snapshot, tops: seq<int>): Tables
    requires Wf(s) && forall i :: 0 <= i < |tops| ==> tops[i] in s.communities
  {
    if tops == [] then t else WalkComm(WalkTops(t, s, tops[..|tops| - 1]), s, tops[|tops| - 1])
  }

  lemma WalkTopsSnoc(t: Tables, s: Snapshot, tops: seq<int>, i: int)
    requires Wf(s) && (forall j :: 0 <= j < |tops| ==> tops[j] in s.communities) && 0 <= i < |tops|
    ensures WalkTops(t, s, tops[..i + 1]) == WalkComm(WalkTops(t, s, tops[..i]), s, tops[i])
  {
    assert tops[..i + 1][..i] == tops[..i];
  }

  /** PrebuildFrontListsCommunities on unbuilt structures. */
  function BuildSpec(s: Snapshot): Tables
    requires Wf(s)
  {
    var t := WalkTops(CollectAll(Fresh, s, s.allCommunities), s, s.topCommunities);
    t.(colAuthorizedUsers := t.colAuthorizedUsersRaw, commAuthorizedUsers := t.commAuthorizedUsersRaw)
  }

  // ---------------------------------------------------------------------
  // Lookups

  /** The nodes of the triples of e-person `e`, in list order. */
  function Select(ts: seq<Grant>, e: int): seq<int>
  {
    if ts == [] then []
    else Select(ts[..|ts| - 1], e) + (if ts[|ts| - 1].eperson == e then [ts[|ts| - 1].node] else [])
  }

  // ---------------------------------------------------------------------
  // The cache

  class ListUserCommunities {
    /** False until the first build: the maps are still null. */
    var built: bool
    var nyuOnly: seq<int>
    var gallatinOnly: seq<int>
    var emptyCollections: seq<int>
    var privateCollections: seq<int>
    var colMapAnon: ChildMap
    var commMapAnon: ChildMap
    var colMapAdmin: ChildMap
    var commMapAdmin: ChildMap
    var colAuthorizedUsers: seq<Grant>
    var commAuthorizedUsers: seq<Grant>
    var colAuthorizedUsersRaw: seq<Grant>
    var commAuthorizedUsersRaw: seq<Grant>

    /** The fields as one value. */
    function State(): Tables
      reads this
    {
      Tables(nyuOnly, gallatinOnly, emptyCollections, privateCollections,
             colMapAnon, commMapAnon, colMapAdmin, commMapAdmin,
             colAuthorizedUsers, commAuthorizedUsers, colAuthorizedUsersRaw, commAuthorizedUsersRaw)
    }

    /** The statics before any build: null in the code, shown here as empty structures with `built` false. */
    constructor()
      ensures !built && State() == Fresh
    {
      built := false;
      nyuOnly, gallatinOnly, emptyCollections, privateCollections := [], [], [], [];
      colMapAnon, commMapAnon, colMapAdmin, commMapAdmin := map[], map[], map[], map[];
      colAuthorizedUsers, commAuthorizedUsers := [], [];
      colAuthorizedUsersRaw, commAuthorizedUsersRaw := [], [];
    }

    /** Build everything once; a later call changes nothing. */
    method PrebuildFrontListsCommunities(s: Snapshot)
      requires Wf(s)
      modifies this
      ensures built
      ensures old(built) ==> State() == old(State())
      ensures !old(built) ==> State() == BuildSpec(s)
    {
      if !built {
        built := true;
        Build(s);
      }
    }

    /** The body of the build on fresh structures. */
    method Build(s: Snapshot)
      requires Wf(s)
      modifies this`nyuOnly, this`gallatinOnly, this`emptyCollections, this`privateCollections,
               this`colMapAnon, this`commMapAnon, this`colMapAdmin, this`commMapAdmin,
               this`colAuthorizedUsers, this`commAuthorizedUsers,
               this`colAuthorizedUsersRaw, this`commAuthorizedUsersRaw
      ensures State() == BuildSpec(s)
    {
      NewLists();
      NewMaps();
      NewGrantLists();
      assert State() == Fresh;
      CollectPhase(s);
      ghost var t1 := State();
      WalkPhase(s);
      ghost var t2 := State();
      assert t2 == WalkTops(t1, s, s.topCommunities);
      colAuthorizedUsers := colAuthorizedUsersRaw;
      commAuthorizedUsers := commAuthorizedUsersRaw;
      assert State() == t2.(colAuthorizedUsers := t2.colAuthorizedUsersRaw,
                            commAuthorizedUsers := t2.commAuthorizedUsersRaw);
    }

    /** The collection lists the build allocates. */
    method NewLists()
      modifies this`nyuOnly, this`gallatinOnly, this`emptyCollections, this`privateCollections
      ensures nyuOnly == [] && gallatinOnly == [] && emptyCollections == [] && privateCollections == []
    {
      nyuOnly, gallatinOnly, emptyCollections, privateCollections := [], [], [], [];
    }

    /** The four maps the build allocates. */
    method NewMaps()
      modifies this`colMapAnon, this`commMapAnon, this`colMapAdmin, this`commMapAdmin
      ensures colMapAnon == map[] && commMapAnon == map[] && colMapAdmin == map[] && commMapAdmin == map[]
    {
      colMapAnon, commMapAnon, colMapAdmin, commMapAdmin := map[], map[], map[], map[];
    }

    /** The four triple lists the build allocates. */
    method NewGrantLists()
      modifies this`colAuthorizedUsers, this`commAuthorizedUsers,
               this`colAuthorizedUsersRaw, this`commAuthorizedUsersRaw
      ensures colAuthorizedUsers == [] && commAuthorizedUsers == []
      ensures colAuthorizedUsersRaw == [] && commAuthorizedUsersRaw == []
    {
      colAuthorizedUsers, commAuthorizedUsers := [], [];
      colAuthorizedUsersRaw, commAuthorizedUsersRaw := [], [];
    }

    /** The first loop of the build: buildCollections for every community. */
    method CollectPhase(s: Snapshot)
      requires Wf(s)
      modifies this`colMapAdmin, this`colMapAnon, this`nyuOnly, this`gallatinOnly,
               this`emptyCollections, this`privateCollections,
               this`colAuthorizedUsersRaw, this`commAuthorizedUsers
      ensures State() == CollectAll(old(State()), s, s.allCommunities)
    {
      ghost var t0 := State();
      var communities := s.allCommunities;
      var com := 0;
      while com < |communities|
        invariant 0 <= com <= |communities|
        invariant State() == CollectAll(t0, s, communities[..com])
      {
        CollectAllSnoc(t0, s, communities, com);
        BuildCollections(s, communities[com]);
        com := com + 1;
      }
      assert communities[..com] == communities;
    }

    /** The second loop of the build: buildCommunity for every top-level
        community. */
    method WalkPhase(s: Snapshot)
      requires Wf(s)
      modifies this`commMapAdmin, this`commMapAnon, this`colAuthorizedUsersRaw, this`commAuthorizedUsers
      ensures State() == WalkTops(old(State()), s, s.topCommunities)
    {
      ghost var t0 := State();
      var communitiesAval := s.topCommunities;
      var com := 0;
      while com < |communitiesAval|
        invariant 0 <= com <= |communitiesAval|
        invariant State() == WalkTops(t0, s, communitiesAval[..com])
      {
        WalkTopsSnoc(t0, s, communitiesAval, com);
        BuildCommunity(s, communitiesAval[com]);
        com := com + 1;
      }
      assert communitiesAval[..com] == communitiesAval;
    }

    /** buildCollections(c). */
    method BuildCollections(s: Snapshot, c: int)
      requires Wf(s) && c in s.communities
      modifies this`colMapAdmin, this`colMapAnon, this`nyuOnly, this`gallatinOnly,
               this`emptyCollections, this`privateCollections,
               this`colAuthorizedUsersRaw, this`commAuthorizedUsers
      ensures State() == CollectStep(old(State()), s, c)
    {
      CollectStepFields(old(State()), s, c);
      var colls := Cols(s, c);
      ghost var d := ClassifyAll(s, colls);
      colMapAdmin := colMapAdmin[c := colls];
      if |colls| > 0 {
        var availableCol := ClassifyCollections(s, colls);
        if |availableCol| > 0 {
          colMapAnon := colMapAnon[c := availableCol];
        }
      } else {
        assert d == NoneDerived && HiddenGrants(s, colls) == [];
      }
    }

    /** The derived lists as one value, with `avail` as the available list. */
    ghost function Lists(avail: seq<int>): Derived
      reads this
    {
      Derived(avail, emptyCollections, nyuOnly, gallatinOnly, privateCollections)
    }

    /** The loop of buildCollections over the collection array `colls`; it
        returns the available collections. */
    method ClassifyCollections(s: Snapshot, colls: seq<int>) returns (availableCol: seq<int>)
      requires Wf(s) && AllCollections(s, colls)
      modifies this`nyuOnly, this`gallatinOnly, this`emptyCollections, this`privateCollections,
               this`colAuthorizedUsersRaw, this`commAuthorizedUsers
      ensures Lists(availableCol) == Plus(old(Lists([])), ClassifyAll(s, colls))
      ensures var d := ClassifyAll(s, colls);
        && availableCol == d.available
        && nyuOnly == old(nyuOnly) + d.nyu && gallatinOnly == old(gallatinOnly) + d.gallatin
        && emptyCollections == old(emptyCollections) + d.empty
        && privateCollections == old(privateCollections) + d.privates
      ensures colAuthorizedUsersRaw == old(colAuthorizedUsersRaw) + HiddenGrants(s, colls)
      ensures commAuthorizedUsers == old(commAuthorizedUsers)
    {
      ghost var base := Lists([]);
      availableCol := [];
      var i := 0;
      while i < |colls|
        invariant 0 <= i <= |colls|
        invariant Lists(availableCol) == Plus(base, ClassifyAll(s, colls[..i]))
        invariant colAuthorizedUsersRaw == old(colAuthorizedUsersRaw) + HiddenGrants(s, colls[..i])
        invariant commAuthorizedUsers == old(commAuthorizedUsers)
      {
        var colID := colls[i];
        ghost var x := s.collections[colID];
        ghost var d := ClassifyAll(s, colls[..i]);
        ClassifySnoc(s, colls, i);
        HiddenGrantsSnoc(s, colls, i);
        ClassifyAllIn(s, colls[..i], colID);
        assert availableCol == d.available;
        availableCol := ClassifyCollection(s, colID, availableCol);
        PlusStep(base, d, x, colID);
        AppendAssoc(old(colAuthorizedUsersRaw), HiddenGrants(s, colls[..i]),
                    if Available(x) then [] else ColGrants(s, colID));
        i := i + 1;
      }
      assert colls[..i] == colls;
    }

    /** One pass of the loop of buildCollections: classify collection `colID`
        given the available collections found so far. */
    method ClassifyCollection(s: Snapshot, colID: int, availableCol: seq<int>) returns (found: seq<int>)
      requires Wf(s) && colID in s.collections
      requires colID in availableCol ==> Available(s.collections[colID])
      modifies this`nyuOnly, this`gallatinOnly, this`emptyCollections, this`privateCollections,
               this`colAuthorizedUsersRaw, this`commAuthorizedUsers
      ensures Lists(found) == Step(old(Lists(availableCol)), s.collections[colID], colID)
      ensures colAuthorizedUsersRaw == old(colAuthorizedUsersRaw)
                + (if Available(s.collections[colID]) then [] else ColGrants(s, colID))
      ensures commAuthorizedUsers == old(commAuthorizedUsers)
    {
      var x := s.collections[colID];
      found := ScopeTests(x, colID, availableCol);
      if colID !in found {
        HiddenCollection(s, colID);
      } else {
        assert colAuthorizedUsersRaw + [] == colAuthorizedUsersRaw;
      }
    }

    /** The scope tests of one pass: first match wins (public, NYU only,
        Gallatin); with items the collection is available, without it is
        recorded as empty. */
    method ScopeTests(x: Collection, colID: int, availableCol: seq<int>) returns (found: seq<int>)
      modifies this`nyuOnly, this`gallatinOnly, this`emptyCollections
      ensures found == availableCol + (if Available(x) then [colID] else [])
      ensures nyuOnly == old(nyuOnly) + (if ScopeOf(x) == NYUOnly then [colID] else [])
      ensures gallatinOnly == old(gallatinOnly) + (if ScopeOf(x) == Gallatin then [colID] else [])
      ensures emptyCollections == old(emptyCollections)
                + (if ScopeOf(x) != Unlisted && x.itemCount == 0 then [colID] else [])
    {
      found := availableCol;
      if x.isPublic {
        if x.itemCount > 0 {
          found := found + [colID];
        } else {
          emptyCollections := emptyCollections + [colID];
        }
      } else {
        if x.isNYUOnly {
          if x.itemCount > 0 {
            found := found + [colID];
          } else {
            emptyCollections := emptyCollections + [colID];
          }
          nyuOnly := nyuOnly + [colID];
        } else {
          if x.isGallatin {
            if x.itemCount > 0 {
              found := found + [colID];
            } else {
              emptyCollections := emptyCollections + [colID];
            }
            gallatinOnly := gallatinOnly + [colID];
          }
        }
      }
    }

    /** The branch of one pass for a collection that is not available: record
        who may see it, and whether it is private or empty. */
    method HiddenCollection(s: Snapshot, colID: int)
      requires Wf(s) && colID in s.collections
      modifies this`privateCollections, this`emptyCollections, this`colAuthorizedUsersRaw, this`commAuthorizedUsers
      ensures colAuthorizedUsersRaw == old(colAuthorizedUsersRaw) + ColGrants(s, colID)
      ensures commAuthorizedUsers == old(commAuthorizedUsers)
      ensures privateCollections == old(privateCollections)
                + (if s.collections[colID].isPrivate then [colID] else [])
      ensures emptyCollections == old(emptyCollections)
                + (if s.collections[colID].itemCount == 0 then [colID] else [])
    {
      var x := s.collections[colID];
      BuildAuthorizedColList(s, colID);
      if x.isPrivate {
        privateCollections := privateCollections + [colID];
      }
      if x.itemCount == 0 {
        emptyCollections := emptyCollections + [colID];
      }
    }

    /** buildCommunity(c), recursively. */
    method BuildCommunity(s: Snapshot, c: int)
      requires Wf(s) && c in s.communities
      modifies this`commMapAdmin, this`commMapAnon, this`colAuthorizedUsersRaw, this`commAuthorizedUsers
      ensures State() == WalkComm(old(State()), s, c)
      decreases s.depthBound - Depth(s, c)
    {
      assert CommunityWf(s, c);
      SubsBelow(s, c);
      var comms := Subs(s, c);
      commMapAdmin := commMapAdmin[c := comms];
      ghost var t1 := State();
      if |comms| > 0 {
        var availableComm: seq<int> := [];
        var i := 0;
        while i < |comms|
          invariant 0 <= i <= |comms|
          invariant Below(s, comms[..i], Depth(s, c))
          invariant State() == WalkSubs(t1, s, comms[..i], Depth(s, c)).0
          invariant availableComm == WalkSubs(t1, s, comms[..i], Depth(s, c)).1
        {
          var d := comms[i];
          SubFacts(s, c, i);
          WalkSubsSnoc(t1, s, comms, Depth(s, c), i);
          BuildCommunity(s, d);
          ghost var t2 := State();
          if d in colMapAnon || d in commMapAnon {
            availableComm := availableComm + [d];
          } else {
            BuildAuthorizedCommList(s, d);
            assert State() == CommGrantStep(t2, s, d);
          }
          i := i + 1;
        }
        assert comms[..i] == comms;
        if |availableComm| > 0 {
          commMapAnon := commMapAnon[c := availableComm];
        }
      }
    }

    /** buildAuthorizedColList(x). */
    method BuildAuthorizedColList(s: Snapshot, x: int)
      requires Wf(s) && x in s.collections
      modifies this`colAuthorizedUsersRaw, this`commAuthorizedUsers
      ensures colAuthorizedUsersRaw == old(colAuthorizedUsersRaw) + ColGrants(s, x)
      ensures commAuthorizedUsers == old(commAuthorizedUsers)
    {
      ColGrantsParts(s, x);
      var col := s.collections[x];
      ghost var adminGrants := OptGroupGrants(s, col.administrators, x);
      ghost var submitterGrants := OptGroupGrants(s, col.submitters, x);
      if col.administrators.Some? {
        BuildAuthorizedGroupUsers(s, col.administrators.value, x, CollectionNode);
      } else {
        assert old(colAuthorizedUsersRaw) + adminGrants == old(colAuthorizedUsersRaw);
      }
      ghost var afterAdmins := colAuthorizedUsersRaw;
      if col.submitters.Some? {
        BuildAuthorizedGroupUsers(s, col.submitters.value, x, CollectionNode);
      } else {
        assert afterAdmins + submitterGrants == afterAdmins;
      }
      AddParentGrants(s, col.communities, x);
      AppendAssoc(old(colAuthorizedUsersRaw), adminGrants, submitterGrants);
      AppendAssoc(old(colAuthorizedUsersRaw), adminGrants + submitterGrants, ParentGrants(s, col.communities, x));
    }

    /** The loop of buildAuthorizedColList over the communities that list
        collection `x`. */
    method AddParentGrants(s: Snapshot, parentComms: seq<int>, x: int)
      requires Wf(s) && forall j :: 0 <= j < |parentComms| ==> parentComms[j] in s.communities
      modifies this`colAuthorizedUsersRaw, this`commAuthorizedUsers
      ensures colAuthorizedUsersRaw == old(colAuthorizedUsersRaw) + ParentGrants(s, parentComms, x)
      ensures commAuthorizedUsers == old(commAuthorizedUsers)
    {
      var i := 0;
      while i < |parentComms|
        invariant 0 <= i <= |parentComms|
        invariant colAuthorizedUsersRaw == old(colAuthorizedUsersRaw) + ParentGrants(s, parentComms[..i], x)
        invariant commAuthorizedUsers == old(commAuthorizedUsers)
      {
        ParentGrantsSnoc(s, parentComms, i, x);
        ghost var p := ParentGrants(s, parentComms[..i], x);
        BuildCommGroupUsers(s, parentComms[i], x);
        AppendAssoc(old(colAuthorizedUsersRaw), p, OptGroupGrants(s, s.communities[parentComms[i]].administrators, x));
        i := i + 1;
      }
      assert parentComms[..i] == parentComms;
    }

    /** buildAuthorizedCommList(d). */
    method BuildAuthorizedCommList(s: Snapshot, d: int)
      requires Wf(s) && d in s.communities
      modifies this`colAuthorizedUsersRaw, this`commAuthorizedUsers
      ensures State() == CommGrantStep(old(State()), s, d)
    {
      assert CommunityWf(s, d);
      var admins := s.communities[d].administrators;
      if admins.Some? {
        BuildAuthorizedGroupUsers(s, admins.value, d, CommunityNode);
      }
    }

    /** buildCommGroupUsers(p, x): the administrators of community `p` may see
        collection `x`. */
    method BuildCommGroupUsers(s: Snapshot, p: int, x: int)
      requires Wf(s) && p in s.communities
      modifies this`colAuthorizedUsersRaw, this`commAuthorizedUsers
      ensures colAuthorizedUsersRaw == old(colAuthorizedUsersRaw) + OptGroupGrants(s, s.communities[p].administrators, x)
      ensures commAuthorizedUsers == old(commAuthorizedUsers)
    {
      assert CommunityWf(s, p);
      var admins := s.communities[p].administrators;
      if admins.Some? {
        BuildAuthorizedGroupUsers(s, admins.value, x, CollectionNode);
      }
    }

    /** buildAuthorizedGroupUsers(g, node). */
    method BuildAuthorizedGroupUsers(s: Snapshot, g: int, node: int, kind: NodeKind)
      requires Wf(s) && g in s.groups
      modifies this`colAuthorizedUsersRaw, this`commAuthorizedUsers
      ensures kind == CollectionNode ==>
        colAuthorizedUsersRaw == old(colAuthorizedUsersRaw) + GroupGrants(s, g, node)
        && commAuthorizedUsers == old(commAuthorizedUsers)
      ensures kind == CommunityNode ==>
        colAuthorizedUsersRaw == old(colAuthorizedUsersRaw) + Tag(MembersOf(s, g), g, node)
        && commAuthorizedUsers == old(commAuthorizedUsers) + Tag(NestedMembers(s, s.groups[g].memberGroups), g, node)
    {
      var members := MembersOf(s, g);
      var memberGroups := s.groups[g].memberGroups;
      if kind == CollectionNode {
        AddMemberTriples(members, g, node);
        AddNestedTriples(s, memberGroups, g, node);
        TagAppend(members, NestedMembers(s, memberGroups), g, node);
      }
      if kind == CommunityNode {
        AddMemberTriples(members, g, node);
        AddNestedCommTriples(s, memberGroups, g, node);
      }
    }

    /** The loop over the direct members of `g`: one triple each on the
        collection triple list. */
    method AddMemberTriples(members: seq<int>, g: int, node: int)
      modifies this`colAuthorizedUsersRaw
      ensures colAuthorizedUsersRaw == old(colAuthorizedUsersRaw) + Tag(members, g, node)
    {
      var i := 0;
      while i < |members|
        invariant 0 <= i <= |members|
        invariant colAuthorizedUsersRaw == old(colAuthorizedUsersRaw) + Tag(members[..i], g, node)
      {
        assert members[..i + 1] == members[..i] + [members[i]];
        TagAppend(members[..i], [members[i]], g, node);
        colAuthorizedUsersRaw := colAuthorizedUsersRaw + [Grant(members[i], g, node)];
        i := i + 1;
      }
      assert members[..i] == members;
    }

    /** The same loop appending to commAuthorizedUsers. */
    method AddCommMemberTriples(members: seq<int>, g: int, node: int)
      modifies this`commAuthorizedUsers
      ensures commAuthorizedUsers == old(commAuthorizedUsers) + Tag(members, g, node)
    {
      var i := 0;
      while i < |members|
        invariant 0 <= i <= |members|
        invariant commAuthorizedUsers == old(commAuthorizedUsers) + Tag(members[..i], g, node)
      {
        assert members[..i + 1] == members[..i] + [members[i]];
        TagAppend(members[..i], [members[i]], g, node);
        commAuthorizedUsers := commAuthorizedUsers + [Grant(members[i], g, node)];
        i := i + 1;
      }
      assert members[..i] == members;
    }

    /** The loop over the member groups of `g`: one triple, carrying `g`'s ID,
        per member of each, on the collection triple list. */
    method AddNestedTriples(s: Snapshot, memberGroups: seq<int>, g: int, node: int)
      requires forall i :: 0 <= i < |memberGroups| ==> memberGroups[i] in s.groups
      modifies this`colAuthorizedUsersRaw
      ensures colAuthorizedUsersRaw == old(colAuthorizedUsersRaw) + Tag(NestedMembers(s, memberGroups), g, node)
    {
      var j := 0;
      while j < |memberGroups|
        invariant 0 <= j <= |memberGroups|
        invariant colAuthorizedUsersRaw == old(colAuthorizedUsersRaw) + Tag(NestedMembers(s, memberGroups[..j]), g, node)
      {
        var agMembers := MembersOf(s, memberGroups[j]);
        assert memberGroups[..j + 1][..j] == memberGroups[..j];
        TagAppend(NestedMembers(s, memberGroups[..j]), agMembers, g, node);
        AddMemberTriples(agMembers, g, node);
        j := j + 1;
      }
      assert memberGroups[..j] == memberGroups;
    }

    /** The same loop appending to commAuthorizedUsers. */
    method AddNestedCommTriples(s: Snapshot, memberGroups: seq<int>, g: int, node: int)
      requires forall i :: 0 <= i < |memberGroups| ==> memberGroups[i] in s.groups
      modifies this`commAuthorizedUsers
      ensures commAuthorizedUsers == old(commAuthorizedUsers) + Tag(NestedMembers(s, memberGroups), g, node)
    {
      var j := 0;
      while j < |memberGroups|
        invariant 0 <= j <= |memberGroups|
        invariant commAuthorizedUsers == old(commAuthorizedUsers) + Tag(NestedMembers(s, memberGroups[..j]), g, node)
      {
        var agMembers := MembersOf(s, memberGroups[j]);
        assert memberGroups[..j + 1][..j] == memberGroups[..j];
        TagAppend(NestedMembers(s, memberGroups[..j]), agMembers, g, node);
        AddCommMemberTriples(agMembers, g, node);
        j := j + 1;
      }
      assert memberGroups[..j] == memberGroups;
    }

    /** getAuthorizedCollections(e); before the build the code throws on the null list, so the build must have run. */
    method GetAuthorizedCollections(e: int) returns (colIDs: seq<int>)
      requires built
      ensures colIDs == Select(colAuthorizedUsers, e)
    {
      colIDs := [];
      var i := 0;
      while i < |colAuthorizedUsers|
        invariant 0 <= i <= |colAuthorizedUsers|
        invariant colIDs == Select(colAuthorizedUsers[..i], e)
      {
        assert colAuthorizedUsers[..i + 1][..i] == colAuthorizedUsers[..i];
        if colAuthorizedUsers[i].eperson == e {
          colIDs := colIDs + [colAuthorizedUsers[i].node];
        }
        i := i + 1;
      }
      assert colAuthorizedUsers[..i] == colAuthorizedUsers;
    }

    /** checkAuthorizedCollections(e); the build must have run. */
    method CheckAuthorizedCollections(e: int) returns (found: bool)
      requires built
      ensures found <==> exists i :: 0 <= i < |colAuthorizedUsers| && colAuthorizedUsers[i].eperson == e
    {
      var i := 0;
      while i < |colAuthorizedUsers|
        invariant 0 <= i <= |colAuthorizedUsers|
        invariant forall j :: 0 <= j < i ==> colAuthorizedUsers[j].eperson != e
      {
        if colAuthorizedUsers[i].eperson == e {
          return true;
        }
        i := i + 1;
      }
      return false;
    }

    /** getAuthorizedCommunities(e); the build must have run. */
    method GetAuthorizedCommunities(e: int) returns (comIDs: seq<int>)
      requires built
      ensures comIDs == Select(commAuthorizedUsers, e)
    {
      comIDs := [];
      var i := 0;
      while i < |commAuthorizedUsers|
        invariant 0 <= i <= |commAuthorizedUsers|
        invariant comIDs == Select(commAuthorizedUsers[..i], e)
      {
        assert commAuthorizedUsers[..i + 1][..i] == commAuthorizedUsers[..i];
        if commAuthorizedUsers[i].eperson == e {
          comIDs := comIDs + [commAuthorizedUsers[i].node];
        }
        i := i + 1;
      }
      assert commAuthorizedUsers[..i] == commAuthorizedUsers;
    }

    /** checkAuthorizedCommunities(e); the build must have run. */
    method CheckAuthorizedCommunities(e: int) returns (found: bool)
      requires built
      ensures found <==> exists i :: 0 <= i < |commAuthorizedUsers| && commAuthorizedUsers[i].eperson == e
    {
      var i := 0;
      while i < |commAuthorizedUsers|
        invariant 0 <= i <= |commAuthorizedUsers|
        invariant forall j :: 0 <= j < i ==> commAuthorizedUsers[j].eperson != e
      {
        if commAuthorizedUsers[i].eperson == e {
          return true;
        }
        i := i + 1;
      }
      return false;
    }
  }
}
