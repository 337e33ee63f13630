/**
 * The community/collection tree as an immutable snapshot. Everything the cache
 * asks the content store for (findAll, findAllTop, getCollections,
 * getSubcommunities, getParentCommunity, getAllParents, countItems,
 * getAdministrators, getSubmitters, getMembers, getMemberGroups) is read from
 * this value. Every object is identified by its integer ID.
 */
module Hierarchy {

  datatype Option<T> = None | Some(value: T)

  /** A collection's flags, item count, groups and containing communities. */
  datatype Collection = Collection(
    isPublic: bool,
    isNYUOnly: bool,
    isGallatin: bool,
    isPrivate: bool,
    itemCount: nat,
    administrators: Option<int>,
    submitters: Option<int>,
    communities: seq<int>,    // getCommunities(): every community that lists it
    owner: Option<int>)       // getParentObject(): the owning community

  /** A community: its parent link, its depth below the root and its children. */
  datatype Community = Community(
    parent: Option<int>,
    depth: nat,
    collections: seq<int>,
    subcommunities: seq<int>,
    administrators: Option<int>)

  /** An e-person group: direct e-person members and direct member groups. */
  datatype Group = Group(members: seq<int>, memberGroups: seq<int>)

  datatype Snapshot = Snapshot(
    collections: map<int, Collection>,
    communities: map<int, Community>,
    groups: map<int, Group>,
    allCommunities: seq<int>,   // findAll
    topCommunities: seq<int>,   // findAllTop
    depthBound: nat)            // every community lies less than this deep

  ghost predicate GroupRef(s: Snapshot, g: Option<int>) {
    g.Some? ==> g.value in s.groups
  }

  ghost predicate CommunityWf(s: Snapshot, c: int)
    requires c in s.communities
  {
    var k := s.communities[c];
    && k.depth < s.depthBound
    && (k.parent.None? <==> k.depth == 0)
    && (k.parent.Some? ==>
          k.parent.value in s.communities && s.communities[k.parent.value].depth + 1 == k.depth)
    && (forall i :: 0 <= i < |k.subcommunities| ==>
          k.subcommunities[i] in s.communities && s.communities[k.subcommunities[i]].parent == Some(c))
    && (forall i :: 0 <= i < |k.collections| ==> k.collections[i] in s.collections)
    && GroupRef(s, k.administrators)
  }

  ghost predicate CollectionWf(s: Snapshot, x: int)
    requires x in s.collections
  {
    var k := s.collections[x];
    && GroupRef(s, k.administrators)
    && GroupRef(s, k.submitters)
    && (forall i :: 0 <= i < |k.communities| ==> k.communities[i] in s.communities)
    && (k.owner.Some? ==> k.owner.value in s.communities)
  }

  /** The snapshot is a forest of communities whose references all resolve. */
  ghost predicate Wf(s: Snapshot) {
    && (forall c :: c in s.communities ==> CommunityWf(s, c))
    && (forall x :: x in s.collections ==> CollectionWf(s, x))
    && (forall g, i :: g in s.groups && 0 <= i < |s.groups[g].memberGroups| ==>
          s.groups[g].memberGroups[i] in s.groups)
    && (forall i :: 0 <= i < |s.allCommunities| ==> s.allCommunities[i] in s.communities)
    && (forall i :: 0 <= i < |s.topCommunities| ==> s.topCommunities[i] in s.communities)
  }

  function Depth(s: Snapshot, c: int): nat
    requires c in s.communities
  {
    s.communities[c].depth
  }

  function Subs(s: Snapshot, c: int): seq<int>
    requires c in s.communities
  {
    s.communities[c].subcommunities
  }

  function Cols(s: Snapshot, c: int): seq<int>
    requires c in s.communities
  {
    s.communities[c].collections
  }

  function ParentOf(s: Snapshot, c: int): Option<int>
    requires c in s.communities
  {
    s.communities[c].parent
  }

  lemma SubFacts(s: Snapshot, c: int, i: int)
    requires Wf(s) && c in s.communities && 0 <= i < |Subs(s, c)|
    ensures Subs(s, c)[i] in s.communities
    ensures ParentOf(s, Subs(s, c)[i]) == Some(c)
    ensures Depth(s, Subs(s, c)[i]) == Depth(s, c) + 1
  {
    assert CommunityWf(s, c);
    assert CommunityWf(s, Subs(s, c)[i]);
  }

  lemma ParentFacts(s: Snapshot, c: int)
    requires Wf(s) && c in s.communities && ParentOf(s, c).Some?
    ensures ParentOf(s, c).value in s.communities
    ensures Depth(s, ParentOf(s, c).value) + 1 == Depth(s, c)
  {
    assert CommunityWf(s, c);
  }

  /** All members of a sequence of IDs are communities deeper than `k`. */
  ghost predicate Below(s: Snapshot, ids: seq<int>, k: int) {
    forall i :: 0 <= i < |ids| ==> ids[i] in s.communities && Depth(s, ids[i]) > k
  }

  lemma SubsBelow(s: Snapshot, c: int)
    requires Wf(s) && c in s.communities
    ensures Below(s, Subs(s, c), Depth(s, c))
  {
    forall i | 0 <= i < |Subs(s, c)| ensures Subs(s, c)[i] in s.communities && Depth(s, Subs(s, c)[i]) > Depth(s, c) {
      SubFacts(s, c, i);
    }
  }

  lemma TopsBelow(s: Snapshot)
    requires Wf(s)
    ensures Below(s, s.topCommunities, -1)
  {
  }

  // ---------------------------------------------------------------------
  // Subtrees (the communities a downward walk from `c` visits)

  /** `c` and every community below it. */
  ghost function Subtree(s: Snapshot, c: int): set<int>
    requires Wf(s) && c in s.communities
    decreases s.depthBound - Depth(s, c), |Subs(s, c)| + 1
  {
    assert CommunityWf(s, c);
    SubsBelow(s, c);
    {c} + Forest(s, Subs(s, c), Depth(s, c))
  }

  /** The union of the subtrees of `ids`. */
  ghost function Forest(s: Snapshot, ids: seq<int>, k: int): set<int>
    requires Wf(s) && k < s.depthBound && Below(s, ids, k)
    decreases s.depthBound - k, |ids|
  {
    if ids == [] then {}
    else
      assert CommunityWf(s, ids[|ids| - 1]);
      Forest(s, ids[..|ids| - 1], k) + Subtree(s, ids[|ids| - 1])
  }

  lemma {:induction false} SubtreeInCommunities(s: Snapshot, c: int)
    requires Wf(s) && c in s.communities
    ensures c in Subtree(s, c)
    ensures forall d :: d in Subtree(s, c) ==> d in s.communities
    decreases s.depthBound - Depth(s, c), |Subs(s, c)| + 1
  {
    SubsBelow(s, c);
    assert CommunityWf(s, c);
    ForestInCommunities(s, Subs(s, c), Depth(s, c));
  }

  lemma {:induction false} ForestInCommunities(s: Snapshot, ids: seq<int>, k: int)
    requires Wf(s) && k < s.depthBound && Below(s, ids, k)
    ensures forall d :: d in Forest(s, ids, k) ==> d in s.communities
    ensures forall i :: 0 <= i < |ids| ==> ids[i] in Forest(s, ids, k)
    decreases s.depthBound - k, |ids|
  {
    if ids != [] {
      var last := ids[|ids| - 1];
      assert CommunityWf(s, last);
      ForestInCommunities(s, ids[..|ids| - 1], k);
      SubtreeInCommunities(s, last);
      forall i | 0 <= i < |ids| ensures ids[i] in Forest(s, ids, k) {
        if i < |ids| - 1 {
          assert ids[..|ids| - 1][i] == ids[i];
        }
      }
    }
  }

  /** A subtree is closed under taking sub-communities. */
  lemma {:induction false} SubtreeClosed(s: Snapshot, c: int, d: int, i: int)
    requires Wf(s) && c in s.communities && d in Subtree(s, c)
    requires d in s.communities && 0 <= i < |Subs(s, d)|
    ensures Subs(s, d)[i] in Subtree(s, c)
    decreases s.depthBound - Depth(s, c), |Subs(s, c)| + 1
  {
    SubsBelow(s, c);
    if d == c {
      ForestInCommunities(s, Subs(s, c), Depth(s, c));
    } else {
      ForestClosed(s, Subs(s, c), Depth(s, c), d, i);
    }
  }

  lemma {:induction false} ForestClosed(s: Snapshot, ids: seq<int>, k: int, d: int, i: int)
    requires Wf(s) && k < s.depthBound && Below(s, ids, k) && d in Forest(s, ids, k)
    requires d in s.communities && 0 <= i < |Subs(s, d)|
    ensures Subs(s, d)[i] in Forest(s, ids, k)
    decreases s.depthBound - k, |ids|
  {
    var last := ids[|ids| - 1];
    assert CommunityWf(s, last);
    if d in Forest(s, ids[..|ids| - 1], k) {
      ForestClosed(s, ids[..|ids| - 1], k, d, i);
    } else {
      SubtreeClosed(s, last, d, i);
    }
  }

  // ---------------------------------------------------------------------
  // Ancestors (getAllParents: the parent first, the root last)

  function Ancestors(s: Snapshot, c: int): (r: seq<int>)
    requires Wf(s) && c in s.communities
    ensures |r| == Depth(s, c)
    ensures forall i :: 0 <= i < |r| ==> r[i] in s.communities && Depth(s, r[i]) == Depth(s, c) - 1 - i
    decreases Depth(s, c)
  {
    assert CommunityWf(s, c);
    match ParentOf(s, c)
    case None => []
    case Some(p) => [p] + Ancestors(s, p)
  }

  // ---------------------------------------------------------------------
  // Group expansion (getAllGroupUsers: one level of nesting)

  function MembersOf(s: Snapshot, g: int): seq<int>
    requires g in s.groups
  {
    s.groups[g].members
  }

  /** The members of the groups `hs`, group by group. */
  function NestedMembers(s: Snapshot, hs: seq<int>): seq<int>
    requires forall i :: 0 <= i < |hs| ==> hs[i] in s.groups
  {
    if hs == [] then [] else NestedMembers(s, hs[..|hs| - 1]) + MembersOf(s, hs[|hs| - 1])
  }

  /** Direct members of `g`, then the members of each of its member groups. */
  function GroupUsers(s: Snapshot, g: int): seq<int>
    requires Wf(s) && g in s.groups
  {
    MembersOf(s, g) + NestedMembers(s, s.groups[g].memberGroups)
  }

  lemma {:induction false} NestedMembersIn(s: Snapshot, hs: seq<int>, e: int)
    requires forall i :: 0 <= i < |hs| ==> hs[i] in s.groups
    ensures e in NestedMembers(s, hs) <==> exists i :: 0 <= i < |hs| && e in MembersOf(s, hs[i])
  {
    if hs != [] {
      var init := hs[..|hs| - 1];
      NestedMembersIn(s, init, e);
      if e in NestedMembers(s, hs) && e !in MembersOf(s, hs[|hs| - 1]) {
        var i :| 0 <= i < |init| && e in MembersOf(s, init[i]);
        assert hs[i] == init[i];
      }
      if exists i :: 0 <= i < |hs| && e in MembersOf(s, hs[i]) {
        var i :| 0 <= i < |hs| && e in MembersOf(s, hs[i]);
        if i < |hs| - 1 {
          assert init[i] == hs[i];
        }
      }
    }
  }

  /** Expansion goes exactly one level deep: a user is found iff it is a direct
      member of `g` or a direct member of one of `g`'s member groups. */
  lemma GroupUsersOneLevel(s: Snapshot, g: int, e: int)
    requires Wf(s) && g in s.groups
    ensures e in GroupUsers(s, g) <==>
      e in MembersOf(s, g) ||
      exists i :: 0 <= i < |s.groups[g].memberGroups| && e in MembersOf(s, s.groups[g].memberGroups[i])
  {
    NestedMembersIn(s, s.groups[g].memberGroups, e);
  }

  /** The users of an optional group (a missing group has none). */
  function OptGroupUsers(s: Snapshot, g: Option<int>): seq<int>
    requires Wf(s) && GroupRef(s, g)
  {
    if g.Some? then GroupUsers(s, g.value) else []
  }

  /** getAuthirizedGroup: the expanded administrators of a community. */
  function CommunityAdmins(s: Snapshot, c: int): seq<int>
    requires Wf(s) && c in s.communities
  {
    assert CommunityWf(s, c);
    OptGroupUsers(s, s.communities[c].administrators)
  }

  /** The expanded administrators of each community in `cs`, in order. */
  function AdminsOfAll(s: Snapshot, cs: seq<int>): seq<int>
    requires Wf(s) && forall i :: 0 <= i < |cs| ==> cs[i] in s.communities
  {
    if cs == [] then [] else AdminsOfAll(s, cs[..|cs| - 1]) + CommunityAdmins(s, cs[|cs| - 1])
  }

  /** One more community of `cs` appends its administrators. */
  lemma AdminsOfAllSnoc(s: Snapshot, pre: seq<int>, cs: seq<int>, i: int)
    requires Wf(s) && forall j :: 0 <= j < |cs| ==> cs[j] in s.communities
    requires 0 <= i < |cs|
    ensures pre + AdminsOfAll(s, cs[..i + 1]) == pre + AdminsOfAll(s, cs[..i]) + CommunityAdmins(s, cs[i])
  {
    assert cs[..i + 1][..i] == cs[..i];
  }

  /** getAuthirizedCollectionUsers: collection administrators, then submitters,
      then the administrators of every community that lists the collection. */
  function CollectionUsers(s: Snapshot, x: int): seq<int>
    requires Wf(s) && x in s.collections
  {
    assert CollectionWf(s, x);
    var k := s.collections[x];
    OptGroupUsers(s, k.administrators) + OptGroupUsers(s, k.submitters) + AdminsOfAll(s, k.communities)
  }

  /** getAuthirizedCommunityUsers: the community's own administrators, then
      those of every ancestor. */
  function CommunityUsers(s: Snapshot, c: int): seq<int>
    requires Wf(s) && c in s.communities
  {
    CommunityAdmins(s, c) + AdminsOfAll(s, Ancestors(s, c))
  }

  lemma {:induction false} AdminsOfAllIn(s: Snapshot, cs: seq<int>, e: int)
    requires Wf(s) && forall i :: 0 <= i < |cs| ==> cs[i] in s.communities
    ensures e in AdminsOfAll(s, cs) <==> exists i :: 0 <= i < |cs| && e in CommunityAdmins(s, cs[i])
  {
    if cs != [] {
      var init := cs[..|cs| - 1];
      AdminsOfAllIn(s, init, e);
      if e in AdminsOfAll(s, cs) && e !in CommunityAdmins(s, cs[|cs| - 1]) {
        var i :| 0 <= i < |init| && e in CommunityAdmins(s, init[i]);
        assert cs[i] == init[i];
      }
      if exists i :: 0 <= i < |cs| && e in CommunityAdmins(s, cs[i]) {
        var i :| 0 <= i < |cs| && e in CommunityAdmins(s, cs[i]);
        if i < |cs| - 1 {
          assert init[i] == cs[i];
        }
      }
    }
  }

  /** A user may see a hidden community iff it administers it or one of its
      ancestors. */
  lemma CommunityUsersIff(s: Snapshot, c: int, e: int)
    requires Wf(s) && c in s.communities
    ensures e in CommunityUsers(s, c) <==>
      e in CommunityAdmins(s, c) ||
      exists i :: 0 <= i < |Ancestors(s, c)| && e in CommunityAdmins(s, Ancestors(s, c)[i])
  {
    AdminsOfAllIn(s, Ancestors(s, c), e);
  }
}
