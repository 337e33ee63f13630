# ListUserCommunities: the DSpace navigation-visibility cache

DSpace organises its content as a tree. Communities contain sub-communities
and collections. The navigation pages must show each visitor only part of
that tree:

- anonymous visitors, and members of the NYU and Gallatin scopes, see the
  collections that are available to them;
- site administrators see everything;
- administrators and submitters of hidden nodes see those nodes as well.

`ListUserCommunities` caches these views. It exists in two generations:

- `org.dspace.frontlist` builds the views once;
- `org.dspace.app.util` builds them once and then updates them incrementally.

**What the cache holds.** Every generation holds:

- four parent-ID → child-array maps:
  - `colMapAdmin` and `commMapAdmin` hold every child;
  - `colMapAnon` and `commMapAnon` hold only the children visible to anonymous users;
- four derived lists: NYU-only, Gallatin-only, empty and private collections;
- an authorisation index of hidden nodes, which takes a different form in each generation:
  - in the first generation, lists of `<e-person, group, node>` triples;
  - in the second, maps from a user ID to an array of nodes.

**The Dafny model, by module.**

- `Hierarchy` is an immutable `Snapshot` of the tree and of the e-person
  groups. Every database query the cache makes reads this value:
  `findAll`, `findAllTop`, `getCollections`, `getSubcommunities`,
  `getParentCommunity`, `getAllParents`, `countItems`, `getAdministrators`,
  `getSubmitters`, `getMembers` and `getMemberGroups`. Java objects are
  identified by their integer IDs.
- `Classification` is the first-match scope test, tried in the order public,
  NYU-only, Gallatin. It also gives the order in which the lists are appended.
- `Seqs` and `ChildMaps` are the array edits the cache performs through its
  `LinkedList` copies, on single entries and for every user of a list.
- `FrontList` is the first generation. The class `FrontList.ListUserCommunities`
  holds the static fields as object fields, and every method is proved against a
  function that says what that step leaves behind (`CollectStep`, `WalkComm`,
  `ColGrants`, …). `FrontListProps` proves what the build produces.
- `AppUtilSpec` holds the second generation's state and operations as values.
  `AppUtil` is the class: its methods change only the fields their `modifies`
  clauses name, and each is proved against an `AppUtilSpec` function.
  - `AppUtilProps` proves what the build produces. It relates the build to the
    first generation's.
  - `AppUtilUpdateProps` proves what the incremental updates do.
- A null list in the second generation is a `NullList`. A null
  authorisation map is a `NullMap`. A `NullPointerException` raised on a null list
  is a `thrown` result.

## Model

Paths are relative to the repository root. `app/util` below means
`dspace-api/src/main/java/org/dspace/app/util/ListUserCommunities.java`, and
`frontlist` means `dspace-api/src/main/java/org/dspace/frontlist/ListUserCommunities.java`.

| member | source | states |
|---|---|---|
| Hierarchy.Ancestors | dspace-api/src/main/java/org/dspace/app/util/ListUserCommunities.java:796-797 | getAllParents: exactly Depth(c) communities, parent first, the i-th one lying Depth(c)-1-i deep |
| Hierarchy.NestedMembersIn | dspace-api/src/main/java/org/dspace/app/util/ListUserCommunities.java:827-832 | a user is among the members of the groups `hs` iff it is a direct member of one of them |
| Hierarchy.GroupUsersOneLevel | dspace-api/src/main/java/org/dspace/app/util/ListUserCommunities.java:820-834 | getAllGroupUsers finds a user iff the user is a direct member of the group or of one of its direct member groups; nesting is expanded one level only |
| Hierarchy.AdminsOfAllIn | dspace-api/src/main/java/org/dspace/app/util/ListUserCommunities.java:780-786 | a user is among the administrators of the communities `cs` iff it is in the expanded administrator group of one of them |
| Hierarchy.CommunityUsersIff | dspace-api/src/main/java/org/dspace/app/util/ListUserCommunities.java:791-804 | a user is entitled to a community iff it is in the expanded administrator group of that community or of one of its ancestors |
| Seqs.RemoveFirst | dspace-api/src/main/java/org/dspace/app/util/ListUserCommunities.java:471-475 | LinkedList.remove: removes exactly one occurrence of `x`, so the length drops by one when `x` is present; an absent `x` leaves the array unchanged |
| Seqs.RemoveFirstNoDup | dspace-api/src/main/java/org/dspace/app/util/ListUserCommunities.java:1211-1213 | on an array without duplicates, removal leaves `x` out entirely, keeps every other element and creates no duplicate |
| Seqs.RemoveAllSpec | dspace-api/src/main/java/org/dspace/app/util/ListUserCommunities.java:141-152 | removal by ID: an element remains iff it was there and does not have that ID; the array shrinks iff the ID was present and is unchanged otherwise |
| Seqs.MoveToEndSpec | dspace-api/src/main/java/org/dspace/app/util/ListUserCommunities.java:972-1009 | moving an element to the end keeps the length and the multiset of elements and puts the element last |
| Seqs.RemoveFirstAppend | dspace-api/src/main/java/org/dspace/app/util/ListUserCommunities.java:129-162 | appending a collection that is not on a list and then removing it gives back that list |
| Classification.ClassifyAllIn | dspace-api/src/main/java/org/dspace/frontlist/ListUserCommunities.java:182-226 | both directions, over a collection array: available iff it has a scope flag and items; NYU iff NYU-only and not public; Gallatin iff Gallatin and neither public nor NYU-only; private iff private and not available; empty iff it has no items |
| Classification.EmptyMultiplicity | dspace-api/src/main/java/org/dspace/frontlist/ListUserCommunities.java:186-223 | occurrences in the empty list: twice per occurrence in the array for an empty collection with a scope flag, once for one without, never for one with items |
| ChildMaps.Insert | dspace-api/src/main/java/org/dspace/app/util/ListUserCommunities.java:515-530 | adding `x` to entry `k`: `x` is in the array afterwards, the old array is a prefix of the new one and is at most one longer, a missing key gets a new entry, and other keys are unchanged |
| ChildMaps.InsertNoDup | dspace-api/src/main/java/org/dspace/app/util/ListUserCommunities.java:515-524 | a single insert never creates a duplicate |
| ChildMaps.Prepend | dspace-api/src/main/java/org/dspace/app/util/ListUserCommunities.java:728-746 | buildCommunity's edit: `x` goes in front of an array that lacks it; an array that holds it is unchanged; a missing key gets its own entry; other keys are unchanged |
| ChildMaps.Detach | dspace-api/src/main/java/org/dspace/app/util/ListUserCommunities.java:542-553 | one `x` leaves the array; the key goes when `x` was its only element; an absent `x` leaves the map unchanged; other keys are unchanged |
| ChildMaps.DetachSpec | dspace-api/src/main/java/org/dspace/app/util/ListUserCommunities.java:536-586 | detaching only removes: every element except the detached one stays under its key, and without duplicates `x` is gone from the entry |
| ChildMaps.DetachAllSpec | dspace-api/src/main/java/org/dspace/app/util/ListUserCommunities.java:1268-1303 | removal by ID from one entry: a remaining entry keeps exactly its elements without that ID; the key goes only if every element had that ID; other keys are unchanged |
| ChildMaps.MoveLast | dspace-api/src/main/java/org/dspace/app/util/ListUserCommunities.java:972-1009 | the metadata update keeps every key and every other entry; when `x` is absent from the entry nothing changes |
| ChildMaps.MoveLastSpec | dspace-api/src/main/java/org/dspace/app/util/ListUserCommunities.java:1055-1085 | when `x` is present, its entry keeps its length and its elements and ends with `x` |
| ChildMaps.RemoveKeep | dspace-api/src/main/java/org/dspace/app/util/ListUserCommunities.java:466-477 | removal that keeps the key: the keys stay, the entry loses one `x`, and other entries are unchanged |
| ChildMaps.InsertAllSpec | dspace-api/src/main/java/org/dspace/app/util/ListUserCommunities.java:437-460 | addUsersToAuthorizedColList: every listed user ends up with `x`; nothing is removed; the keys are the old keys plus the users; `x` is the only new element |
| ChildMaps.InsertAllExact | dspace-api/src/main/java/org/dspace/app/util/ListUserCommunities.java:441-458 | the exact effect: a user without a key gets the singleton [x]; a user whose array lacks `x` gets it appended; every other array is unchanged |
| ChildMaps.InsertAllIn | dspace-api/src/main/java/org/dspace/app/util/ListUserCommunities.java:437-460 | membership afterwards, both directions: present before, or `x` for a listed user |
| ChildMaps.InsertAllNoOp | dspace-api/src/main/java/org/dspace/app/util/ListUserCommunities.java:441-458 | when every listed user already has `x`, the map is unchanged |
| ChildMaps.InsertAllIdempotent | dspace-api/src/main/java/org/dspace/app/util/ListUserCommunities.java:437-460 | adding the same node for the same users twice leaves the map as adding it once |
| ChildMaps.InsertAllNoDup | dspace-api/src/main/java/org/dspace/app/util/ListUserCommunities.java:447-450 | adding for many users never creates a duplicate |
| ChildMaps.PrependAllSpec | dspace-api/src/main/java/org/dspace/app/util/ListUserCommunities.java:724-747 | the hidden branch of buildCommunity: every entitled user ends up with `x`; nothing is removed; `x` is the only new element and is added at most once per array |
| ChildMaps.PrependAllExact | dspace-api/src/main/java/org/dspace/app/util/ListUserCommunities.java:724-747 | the exact effect: a user without a key gets [x]; an array lacking `x` gets it in front; every other array is unchanged |
| ChildMaps.PrependAllIn | dspace-api/src/main/java/org/dspace/app/util/ListUserCommunities.java:724-747 | membership afterwards, both directions: present before, or `x` for an entitled user |
| ChildMaps.PrependAllNoDup | dspace-api/src/main/java/org/dspace/app/util/ListUserCommunities.java:728-741 | prepending never creates a duplicate |
| ChildMaps.RemoveKeepAllSpec | dspace-api/src/main/java/org/dspace/app/util/ListUserCommunities.java:462-482 | removeUsersFromAuthorizedColList: the keys stay, even for emptied arrays; `x` leaves exactly the arrays of the listed users; no duplicate appears |
| ChildMaps.InsertDetach | dspace-api/src/main/java/org/dspace/app/util/ListUserCommunities.java:484-586 | addAuthorizedUser followed by removeAuthorizedUser of a node the user lacked gives back the original map, except that a key whose array was empty goes |
| AppUtil.GetAllGroupUsers | dspace-api/src/main/java/org/dspace/app/util/ListUserCommunities.java:820-834 | the loop returns GroupUsers: the direct members, then the members of each member group, in order (one level, by GroupUsersOneLevel) |
| AppUtil.GetAuthirizedGroup | dspace-api/src/main/java/org/dspace/app/util/ListUserCommunities.java:806-818 | the expanded administrator group of the community; empty when it has none |
| AppUtil.GetAuthirizedCollectionUsers | dspace-api/src/main/java/org/dspace/app/util/ListUserCommunities.java:759-789 | collection administrators, then submitters, then the administrators of every community that lists the collection, in order |
| AppUtil.GetAuthirizedCommunityUsers | dspace-api/src/main/java/org/dspace/app/util/ListUserCommunities.java:791-804 | the community's administrators, then those of every ancestor, parent first; CommunityUsersIff gives membership |
| AppUtil.AddAdminsOf | dspace-api/src/main/java/org/dspace/app/util/ListUserCommunities.java:780-786 | the loop both user lookups share (also 796-802): the result is the users found so far followed by the expanded administrators of each listed community, in list order |
| AppUtil.WithoutID | dspace-api/src/main/java/org/dspace/app/util/ListUserCommunities.java:141-152 | the for-each removal by ID keeps, in order, every element without that ID (see Seqs.RemoveAllSpec) |
| AppUtil.ListUserCommunities.constructor | dspace-api/src/main/java/org/dspace/app/util/ListUserCommunities.java:39-66 | the statics start out null: every list is a NullList, both child-map pairs are unallocated and both authorisation maps are a NullMap |
| AppUtil.ListUserCommunities.ListAnonUserCommunities | dspace-api/src/main/java/org/dspace/app/util/ListUserCommunities.java:90-127 | with the anonymous maps allocated, nothing changes; otherwise the state becomes BuildSpec, the build whose results are the AppUtilProps.Build* lemmas |
| AppUtil.ListUserCommunities.Build | dspace-api/src/main/java/org/dspace/app/util/ListUserCommunities.java:94-125 | allocation, buildCollection for every community, then buildCommunity for every top-level community, giving BuildSpec |
| AppUtil.ListUserCommunities.NewLists | dspace-api/src/main/java/org/dspace/app/util/ListUserCommunities.java:102-105 | the four derived lists are allocated empty |
| AppUtil.ListUserCommunities.AllocateAnonMaps | dspace-api/src/main/java/org/dspace/app/util/ListUserCommunities.java:96-97 | the anonymous maps are allocated empty |
| AppUtil.ListUserCommunities.AllocateAdminMaps | dspace-api/src/main/java/org/dspace/app/util/ListUserCommunities.java:98-99 | the admin maps are allocated empty |
| AppUtil.ListUserCommunities.NewAuthorizedMaps | dspace-api/src/main/java/org/dspace/app/util/ListUserCommunities.java:100-101 | both authorisation maps are allocated empty |
| AppUtil.ListUserCommunities.CollectPhase | dspace-api/src/main/java/org/dspace/app/util/ListUserCommunities.java:108-115 | the first loop leaves CollectAll over findAll, in order |
| AppUtil.ListUserCommunities.WalkPhase | dspace-api/src/main/java/org/dspace/app/util/ListUserCommunities.java:117-124 | the second loop leaves WalkTops over findAllTop, in order |
| AppUtil.ListUserCommunities.BuildCollection | dspace-api/src/main/java/org/dspace/app/util/ListUserCommunities.java:640-704 | buildCollection(c) leaves CollectStep: colMapAdmin[c] becomes the full array, and the lists, colMapAnon and the collection authorisation map get c's classification |
| AppUtil.ListUserCommunities.ListCollections | dspace-api/src/main/java/org/dspace/app/util/ListUserCommunities.java:648-702 | the non-empty branch: everything of CollectStep except the colMapAdmin entry |
| AppUtil.ListUserCommunities.ClassifyCollections | dspace-api/src/main/java/org/dspace/app/util/ListUserCommunities.java:653-697 | the loop appends ClassifyAll of the array to the lists, returns the available collections, and grants every hidden collection to its users (HiddenUsers) |
| AppUtil.ListUserCommunities.ClassifyCollection | dspace-api/src/main/java/org/dspace/app/util/ListUserCommunities.java:655-696 | one pass is one Step of the classification; a hidden collection is granted to every user entitled to it |
| AppUtil.ListUserCommunities.ScopeTests | dspace-api/src/main/java/org/dspace/app/util/ListUserCommunities.java:655-682 | first match wins; an available collection joins the available list; an NYU or Gallatin collection joins its list; an empty scoped collection joins the empty list |
| AppUtil.ListUserCommunities.HiddenCollection | dspace-api/src/main/java/org/dspace/app/util/ListUserCommunities.java:684-696 | a collection that is not available goes to every entitled user, to the private list iff private, and to the empty list iff it has no items |
| AppUtil.ListUserCommunities.BuildCommunity | dspace-api/src/main/java/org/dspace/app/util/ListUserCommunities.java:707-755 | the recursion leaves WalkComm, whose visibility and authorisation results are the AppUtilProps.WalkComm* lemmas |
| AppUtil.ListUserCommunities.VisitSubcommunity | dspace-api/src/main/java/org/dspace/app/util/ListUserCommunities.java:717-748 | a sub-community is visible iff, after its own walk, either anonymous map has its key; otherwise it is granted to every user entitled to it |
| AppUtil.ListUserCommunities.BuildSubcommunities | dspace-api/src/main/java/org/dspace/app/util/ListUserCommunities.java:717-749 | after the loop over the sub-communities, the state and the list of visible sub-communities are exactly those of WalkSubs |
| AppUtil.ListUserCommunities.HiddenCommunity | dspace-api/src/main/java/org/dspace/app/util/ListUserCommunities.java:724-747 | every user entitled to the sub-community gets it in front of their array (PrependAll) |
| AppUtil.ListUserCommunities.AddUsersToAuthorizedColList | dspace-api/src/main/java/org/dspace/app/util/ListUserCommunities.java:437-460 | the collection goes to every user getAuthirizedCollectionUsers finds (InsertAll; exact effect in ChildMaps.InsertAllExact) |
| AppUtil.ListUserCommunities.RemoveUsersFromAuthorizedColList | dspace-api/src/main/java/org/dspace/app/util/ListUserCommunities.java:462-482 | the collection leaves every entitled user's array, and emptied arrays stay (RevokeCollection, ChildMaps.RemoveKeepAllSpec) |
| AppUtil.ListUserCommunities.AddUsersToAuthorizedComList | dspace-api/src/main/java/org/dspace/app/util/ListUserCommunities.java:588-611 | the community goes to every entitled user (InsertAll) |
| AppUtil.ListUserCommunities.RemoveUsersFromAuthorizedComList | dspace-api/src/main/java/org/dspace/app/util/ListUserCommunities.java:613-633 | as written: only users with a key in the collection map lose the community (RevokeCommunity) |
| AppUtil.ListUserCommunities.AddAuthorizedUser | dspace-api/src/main/java/org/dspace/app/util/ListUserCommunities.java:484-534 | the node goes into the map of its kind, allocating a null map first; the other map is unchanged; any other object type changes nothing |
| AppUtil.ListUserCommunities.RemoveAuthorizedUser | dspace-api/src/main/java/org/dspace/app/util/ListUserCommunities.java:536-586 | the node leaves the user's array in the map of its kind, and an emptied array takes its key with it; a null map stays null |
| AppUtil.ListUserCommunities.AddCollectionToPrivateList | dspace-api/src/main/java/org/dspace/app/util/ListUserCommunities.java:129-139 | the collection is appended, after allocating a null list |
| AppUtil.ListUserCommunities.RemoveCollectionFromPrivateListID | dspace-api/src/main/java/org/dspace/app/util/ListUserCommunities.java:141-152 | every entry with that ID leaves; a null list stays null |
| AppUtil.ListUserCommunities.RemoveCollectionFromPrivateList | dspace-api/src/main/java/org/dspace/app/util/ListUserCommunities.java:154-162 | a listed collection is unlisted and revoked from every entitled user; otherwise nothing changes |
| AppUtil.ListUserCommunities.AddCollectionToNYUOnlyList | dspace-api/src/main/java/org/dspace/app/util/ListUserCommunities.java:164-172 | as written: a null NYU list throws after replacing the empty list by a new one; otherwise the collection is appended |
| AppUtil.ListUserCommunities.RemoveCollectionFromNYUOnlyListID | dspace-api/src/main/java/org/dspace/app/util/ListUserCommunities.java:174-187 | every entry with that ID leaves; a null list stays null |
| AppUtil.ListUserCommunities.RemoveCollectionFromNYUOnlyList | dspace-api/src/main/java/org/dspace/app/util/ListUserCommunities.java:189-197 | one occurrence leaves, if present |
| AppUtil.ListUserCommunities.AddCollectionToGallatinOnlyList | dspace-api/src/main/java/org/dspace/app/util/ListUserCommunities.java:199-207 | the collection is appended, after allocating a null list |
| AppUtil.ListUserCommunities.RemoveCollectionFromGallatinOnlyListID | dspace-api/src/main/java/org/dspace/app/util/ListUserCommunities.java:209-220 | every entry with that ID leaves; a null list stays null |
| AppUtil.ListUserCommunities.RemoveCollectionFromGallatinOnlyList | dspace-api/src/main/java/org/dspace/app/util/ListUserCommunities.java:222-230 | one occurrence leaves, if present |
| AppUtil.ListUserCommunities.AddCollectionToEmptyList | dspace-api/src/main/java/org/dspace/app/util/ListUserCommunities.java:232-242 | the collection is appended, after allocating a null list |
| AppUtil.ListUserCommunities.RemoveCollectionFromEmptyListID | dspace-api/src/main/java/org/dspace/app/util/ListUserCommunities.java:244-255 | every entry with that ID leaves; a null list stays null |
| AppUtil.ListUserCommunities.RemoveCollectionFromEmptyList | dspace-api/src/main/java/org/dspace/app/util/ListUserCommunities.java:257-266 | a listed collection is unlisted and revoked from every entitled user; otherwise nothing changes |
| AppUtil.ListUserCommunities.CheckCollection | dspace-api/src/main/java/org/dspace/app/util/ListUserCommunities.java:1325-1353 | the new state and the NullPointerException flag are CheckSpec: the exception stops the remaining parts; properties in AppUtilUpdateProps.Check* |
| AppUtil.ListUserCommunities.CheckPrivateList | dspace-api/src/main/java/org/dspace/app/util/ListUserCommunities.java:1326-1334 | the private part: add if private and unlisted, remove if not private and listed, throw on a null list when not private |
| AppUtil.ListUserCommunities.CheckNYUList | dspace-api/src/main/java/org/dspace/app/util/ListUserCommunities.java:1335-1343 | the NYU part, including the null-list fault of addCollectionToNYUOnlyList |
| AppUtil.ListUserCommunities.CheckGallatinList | dspace-api/src/main/java/org/dspace/app/util/ListUserCommunities.java:1344-1352 | the Gallatin part |
| AppUtil.ListUserCommunities.AddParentComm | dspace-api/src/main/java/org/dspace/app/util/ListUserCommunities.java:1013-1053 | the chosen community map gets AddParents; the other side is unchanged; AddParentsSpec gives the links |
| AppUtil.ListUserCommunities.AddCollection | dspace-api/src/main/java/org/dspace/app/util/ListUserCommunities.java:873-924 | the chosen side gets AddCollectionTo over getCommunities; the other side is unchanged |
| AppUtil.ListUserCommunities.AddCollectionID | dspace-api/src/main/java/org/dspace/app/util/ListUserCommunities.java:926-970 | the collection is added under one community, which is linked upward; the other side is unchanged |
| AppUtil.ListUserCommunities.AddChildrenComm | dspace-api/src/main/java/org/dspace/app/util/ListUserCommunities.java:836-871 | the chosen side gets AddChildren, which records the whole subtree (AppUtilUpdateProps.AddChildrenSpec) |
| AppUtil.ListUserCommunities.AddChildrenEach | dspace-api/src/main/java/org/dspace/app/util/ListUserCommunities.java:868-870 | the loop over the sub-communities applies AddChildren to each in order, on the chosen side only; the other side is unchanged |
| AppUtil.ListUserCommunities.UpdateCollectionMetadata | dspace-api/src/main/java/org/dspace/app/util/ListUserCommunities.java:972-1009 | the collection moves to the end of its owning community's entry; without an owner nothing changes; the other side is unchanged |
| AppUtil.ListUserCommunities.UpdateCommunityMetadata | dspace-api/src/main/java/org/dspace/app/util/ListUserCommunities.java:1055-1085 | the community moves to the end of its parent's entry; on the admin side, a parent without an entry gets [c]; a top-level community changes nothing |
| AppUtil.ListUserCommunities.RemoveParentComm | dspace-api/src/main/java/org/dspace/app/util/ListUserCommunities.java:1205-1243 | as written: the chosen map gets RemoveParents, which recurses on the grandparent; the other side is unchanged |
| AppUtil.ListUserCommunities.DropFromParent | dspace-api/src/main/java/org/dspace/app/util/ListUserCommunities.java:1094-1141 | one community of removeCollection: DropCollection on the chosen side (AppUtilUpdateProps.DropCollectionSpec) |
| AppUtil.ListUserCommunities.RemoveCollection | dspace-api/src/main/java/org/dspace/app/util/ListUserCommunities.java:1087-1146 | the chosen side gets RemoveCollectionFrom over getCommunities; the other side is unchanged |
| AppUtil.ListUserCommunities.RemoveCollectionID | dspace-api/src/main/java/org/dspace/app/util/ListUserCommunities.java:1148-1203 | the chosen side becomes DropCollectionID of the old side; the other side is unchanged (effect in AppUtilUpdateProps.DropCollectionIDSpec) |
| AppUtil.ListUserCommunities.RemoveChildrenComm | dspace-api/src/main/java/org/dspace/app/util/ListUserCommunities.java:1245-1266 | the chosen side gets RemoveChildren, which prunes the whole subtree (AppUtilUpdateProps.RemoveChildrenSpec) |
| AppUtil.ListUserCommunities.RemoveParentCommID | dspace-api/src/main/java/org/dspace/app/util/ListUserCommunities.java:1268-1303 | every sub-community with that ID leaves the entry, and an emptied entry goes (ChildMaps.DetachAllSpec) |
| AppUtil.ListUserCommunities.RemoveChildrenCommID | dspace-api/src/main/java/org/dspace/app/util/ListUserCommunities.java:1305-1323 | the admin side drops both keys of an allocated map; as written, the anonymous side drops the commMapAnon key and the colMapAdmin key |
| AppUtil.ListUserCommunities.AddCollectionToAnnonList | dspace-api/src/main/java/org/dspace/app/util/ListUserCommunities.java:268-281 | the anonymous maps are allocated if null, then receive addCollection |
| AppUtil.ListUserCommunities.AddCollectionToAnnonListID | dspace-api/src/main/java/org/dspace/app/util/ListUserCommunities.java:283-296 | the anonymous maps are allocated if null, then receive addCollectionID |
| AppUtil.ListUserCommunities.RemoveCollectionFromAnnonList | dspace-api/src/main/java/org/dspace/app/util/ListUserCommunities.java:298-303 | removeCollection on the anonymous maps when they are allocated, otherwise nothing |
| AppUtil.ListUserCommunities.RemoveCollectionFromAnnonListID | dspace-api/src/main/java/org/dspace/app/util/ListUserCommunities.java:305-310 | removeCollectionID on the anonymous maps when they are allocated, otherwise nothing |
| AppUtil.ListUserCommunities.AddCollectionToAdminList | dspace-api/src/main/java/org/dspace/app/util/ListUserCommunities.java:312-324 | the admin maps are allocated if null, then receive addCollection |
| AppUtil.ListUserCommunities.AddCollectionToAdminListID | dspace-api/src/main/java/org/dspace/app/util/ListUserCommunities.java:326-338 | the admin maps are allocated if null, then receive addCollectionID |
| AppUtil.ListUserCommunities.RemoveCollectionFromAdminList | dspace-api/src/main/java/org/dspace/app/util/ListUserCommunities.java:341-347 | removeCollection on the admin maps when they are allocated, otherwise nothing |
| AppUtil.ListUserCommunities.RemoveCollectionFromAdminListID | dspace-api/src/main/java/org/dspace/app/util/ListUserCommunities.java:349-355 | removeCollectionID on the admin maps when they are allocated, otherwise nothing |
| AppUtil.ListUserCommunities.AddCommunityToAnnonList | dspace-api/src/main/java/org/dspace/app/util/ListUserCommunities.java:360-366 | as written, guarded by the admin maps: addParentComm, then addChildrenComm, on the anonymous maps |
| AppUtil.ListUserCommunities.RemoveCommunityFromAnnonListID | dspace-api/src/main/java/org/dspace/app/util/ListUserCommunities.java:368-375 | removeParentCommID on the anonymous community map, guarded by the admin maps |
| AppUtil.ListUserCommunities.RemoveCommunityFromAnnonList | dspace-api/src/main/java/org/dspace/app/util/ListUserCommunities.java:376-384 | removeParentComm, then removeChildrenComm, on the anonymous maps, guarded by the admin maps |
| AppUtil.ListUserCommunities.AddCommunityToAdminList | dspace-api/src/main/java/org/dspace/app/util/ListUserCommunities.java:386-392 | addParentComm, then addChildrenComm, on the admin maps |
| AppUtil.ListUserCommunities.RemoveCommunityFromAdminListID | dspace-api/src/main/java/org/dspace/app/util/ListUserCommunities.java:403-409 | removeParentCommID on the admin community map when allocated |
| AppUtil.ListUserCommunities.RemoveCommunityFromAdminList | dspace-api/src/main/java/org/dspace/app/util/ListUserCommunities.java:411-418 | removeParentComm, then removeChildrenComm, on the admin maps when they are allocated |
| AppUtil.ListUserCommunities.RemoveChildrenCommunityFromAnnonListID | dspace-api/src/main/java/org/dspace/app/util/ListUserCommunities.java:420-427 | removeChildrenCommID on the anonymous side, including its colMapAdmin fault |
| AppUtil.ListUserCommunities.RemoveChildrenCommunityFromAdminListID | dspace-api/src/main/java/org/dspace/app/util/ListUserCommunities.java:429-435 | removeChildrenCommID on the admin side |
| AppUtilProps.CollectStepSim | dspace-api/src/main/java/org/dspace/app/util/ListUserCommunities.java:640-704 | buildCollection in both generations leaves the same maps and lists |
| AppUtilProps.WalkCommSim | dspace-api/src/main/java/org/dspace/app/util/ListUserCommunities.java:707-755 | buildCommunity in both generations leaves the same community maps; it keeps the lists and the collection maps, and never duplicates a community authorisation entry |
| AppUtilProps.BuildSim | dspace-api/src/main/java/org/dspace/app/util/ListUserCommunities.java:94-125 | the second generation's build leaves the same maps and lists as the first generation's; everything is allocated; the community authorisation map has no duplicates |
| AppUtilProps.BuildColMaps | dspace-api/src/main/java/org/dspace/app/util/ListUserCommunities.java:645-701 | after the build, colMapAdmin holds every community's full collection array, even an empty one; colMapAnon holds a community iff it has an available collection, with exactly those collections |
| AppUtilProps.BuildLists | dspace-api/src/main/java/org/dspace/app/util/ListUserCommunities.java:653-697 | after the build, both directions: NYU iff NYU-only and not public; Gallatin iff Gallatin and neither public nor NYU-only; private iff private and not available; empty iff it has no items |
| AppUtilProps.BuildCommMaps | dspace-api/src/main/java/org/dspace/app/util/ListUserCommunities.java:707-755 | after the build, commMapAdmin holds the full sub-community array of every reached community, and commMapAnon holds exactly the listed sub-communities of those that have any |
| AppUtilProps.HiddenUsersIn | dspace-api/src/main/java/org/dspace/app/util/ListUserCommunities.java:684-686 | granting the hidden collections of an array: a user holds a collection afterwards iff it held it before, or the collection is in the array, not available, and the user is entitled to it |
| AppUtilProps.HiddenUsersNoDup | dspace-api/src/main/java/org/dspace/app/util/ListUserCommunities.java:684-686 | granting the hidden collections never creates a duplicate |
| AppUtilProps.CollectAllColAuth | dspace-api/src/main/java/org/dspace/app/util/ListUserCommunities.java:108-115 | the first loop grants exactly the listed, non-available collections to their entitled users, without duplicates |
| AppUtilProps.BuildColAuth | dspace-api/src/main/java/org/dspace/app/util/ListUserCommunities.java:684-696 | after the build, a user holds a collection iff some community lists it, it is not available and the user is entitled to it; each is held once |
| AppUtilProps.HideStepSpec | dspace-api/src/main/java/org/dspace/app/util/ListUserCommunities.java:724-747 | the hidden branch of buildCommunity: a user without a key gets [d]; an array lacking `d` gets it in front; nothing else changes; no duplicate appears |
| AppUtilProps.HideStepGrants | dspace-api/src/main/java/org/dspace/app/util/ListUserCommunities.java:725-746 | the hidden branch grants `d` to every entitled user and removes nothing |
| AppUtilProps.HideStepOnly | dspace-api/src/main/java/org/dspace/app/util/ListUserCommunities.java:725-746 | the hidden branch adds only `d`, a sub-community of a community of the walked region, and only for users entitled to it |
| AppUtilProps.WalkCommVisible | dspace-api/src/main/java/org/dspace/app/util/ListUserCommunities.java:717-753 | buildCommunity keeps colMapAnon; its test on a community is exactly "listed anonymously" (bottom-up visibility) |
| AppUtilProps.WalkCommHidden | dspace-api/src/main/java/org/dspace/app/util/ListUserCommunities.java:717-748 | buildCommunity only adds authorisation entries, and every community in the subtree that is not listed anonymously is granted to every user entitled to it |
| AppUtilProps.WalkCommOnly | dspace-api/src/main/java/org/dspace/app/util/ListUserCommunities.java:717-748 | buildCommunity grants only sub-communities of communities in the walked subtree, only ones not listed anonymously, and only to entitled users; a top-level community is never granted |
| AppUtilProps.BuildCommAuth | dspace-api/src/main/java/org/dspace/app/util/ListUserCommunities.java:707-755 | after the build, a user holds a community iff the community is a sub-community of a reached community, is not listed anonymously and the user is entitled to it: every such pair is recorded and nothing else is; no array holds a community twice |
| AppUtilUpdateProps.RemoveFromAddTo | dspace-api/src/main/java/org/dspace/app/util/ListUserCommunities.java:129-162 | adding a collection to an allocated list that lacks it and then removing it gives back the list |
| AppUtilUpdateProps.ListEdits | dspace-api/src/main/java/org/dspace/app/util/ListUserCommunities.java:129-266 | add appends; on a null list both removals change nothing; removal keeps a list free of duplicates and removes exactly `x`; removal by ID removes exactly that ID |
| AppUtilUpdateProps.CheckPrivateSync | dspace-api/src/main/java/org/dspace/app/util/ListUserCommunities.java:1326-1334 | on an allocated list without duplicates: no exception; the collection is listed iff private; nothing else on the list changes; leaving the list revokes it from its users |
| AppUtilUpdateProps.CheckNYUSync | dspace-api/src/main/java/org/dspace/app/util/ListUserCommunities.java:1335-1343 | on an allocated list without duplicates: no exception, and the collection is listed iff it is NYU-only |
| AppUtilUpdateProps.CheckGallatinSync | dspace-api/src/main/java/org/dspace/app/util/ListUserCommunities.java:1344-1352 | on an allocated list without duplicates: no exception, and the collection is listed iff it is Gallatin |
| AppUtilUpdateProps.CheckSync | dspace-api/src/main/java/org/dspace/app/util/ListUserCommunities.java:1325-1353 | with allocated lists and no duplicates, checkCollection never throws and leaves each of the three lists in sync with its flag; the only other change is the revocation |
| AppUtilUpdateProps.CheckNullPrivate | dspace-api/src/main/java/org/dspace/app/util/ListUserCommunities.java:1330-1331 | for a collection that is not private, a null private list throws at once and changes nothing |
| AppUtilUpdateProps.CheckNullNYU | dspace-api/src/main/java/org/dspace/app/util/ListUserCommunities.java:1335-1340 | once past the private part, a null NYU list always throws; for an NYU-only collection the empty list is first replaced by a new empty one |
| AppUtilUpdateProps.RevokeCommunitySpec | dspace-api/src/main/java/org/dspace/app/util/ListUserCommunities.java:613-633 | as written, the keys stay and a user array loses `c` exactly when the user is entitled and also has a collection entry |
| AppUtilUpdateProps.RevokeCommunityKeeps | dspace-api/src/main/java/org/dspace/app/util/ListUserCommunities.java:619 | the fault: an entitled user without a collection entry keeps the community |
| AppUtilUpdateProps.AncestorLinks | dspace-api/src/main/java/org/dspace/app/util/ListUserCommunities.java:1013-1053 | every link of the ancestor chain of `c`, each ancestor holding the community below it, is among the upward links |
| AppUtilUpdateProps.LinksAreAncestors | dspace-api/src/main/java/org/dspace/app/util/ListUserCommunities.java:1013-1053 | every upward link is a link of the ancestor chain |
| AppUtilUpdateProps.AddParentsSpec | dspace-api/src/main/java/org/dspace/app/util/ListUserCommunities.java:1013-1053 | addParentComm adds exactly the upward links of the chain; it only appends, creates no empty entry and never duplicates |
| AppUtilUpdateProps.AddCollectionColIn | dspace-api/src/main/java/org/dspace/app/util/ListUserCommunities.java:879-915 | addCollection, collection side: `x` joins the entries of exactly the listed communities whose own array holds it; nothing else is added |
| AppUtilUpdateProps.AddCollectionColGrows | dspace-api/src/main/java/org/dspace/app/util/ListUserCommunities.java:886-914 | addCollection only appends to existing entries and never adds `x` twice |
| AppUtilUpdateProps.AddCollectionCommIn | dspace-api/src/main/java/org/dspace/app/util/ListUserCommunities.java:916-919 | addCollection, community side: a link is present afterwards iff it was before or it lies on the upward chain of a community that holds `x` |
| AppUtilUpdateProps.AddCollectionCommNoDup | dspace-api/src/main/java/org/dspace/app/util/ListUserCommunities.java:916-919 | addCollection never duplicates a community entry |
| AppUtilUpdateProps.RemoveParentsShrinks | dspace-api/src/main/java/org/dspace/app/util/ListUserCommunities.java:1205-1243 | removeParentComm only removes elements |
| AppUtilUpdateProps.RemoveParentsKeepsOddLevels | dspace-api/src/main/java/org/dspace/app/util/ListUserCommunities.java:1238-1241 | as written, a community whose depth differs from that of `c` by an odd number keeps every link to it |
| AppUtilUpdateProps.RemoveParentsFault | dspace-api/src/main/java/org/dspace/app/util/ListUserCommunities.java:1205-1243 | with c → p → g → q: `c` leaves p's entry, p stays in g's entry, and q's entry goes although `g` still has a sub-community |
| AppUtilUpdateProps.DropCollectionSpec | dspace-api/src/main/java/org/dspace/app/util/ListUserCommunities.java:1094-1141 | `x` leaves p's entry and nothing else does; the key goes iff `x` was its only element; the community map changes only then, and only when `p` has no entry there and has a parent |
| AppUtilUpdateProps.DropCollectionIDSpec | dspace-api/src/main/java/org/dspace/app/util/ListUserCommunities.java:1148-1203 | removeCollectionID: every collection with that ID leaves c's entry and nothing else leaves; the key goes iff the entry held only that ID; the community map changes only then, and only when `c` has no entry there and has a parent |
| AppUtilUpdateProps.RemoveCollectionFromSpec | dspace-api/src/main/java/org/dspace/app/util/ListUserCommunities.java:1087-1146 | removeCollection: `x` leaves the entry of every listed community whose array holds it, and nothing else leaves |
| AppUtilUpdateProps.InsertThenDrop | dspace-api/src/main/java/org/dspace/app/util/ListUserCommunities.java:926-1146 | addCollectionID followed by removeCollection under the same community gives back the collection map, when `x` was absent and the entry was not empty |
| AppUtilUpdateProps.RemoveChildrenSpec | dspace-api/src/main/java/org/dspace/app/util/ListUserCommunities.java:1245-1266 | removeChildrenComm removes exactly these subtree entries: the collection entries of communities with collections, and the community entries of communities with sub-communities; other entries are unchanged |
| AppUtilUpdateProps.AddChildrenSpec | dspace-api/src/main/java/org/dspace/app/util/ListUserCommunities.java:836-871 | addChildrenComm records the subtree: full collection arrays of communities with collections, and full sub-community arrays of those without an entry (anonymous side: only with sub-communities); old community entries stay |
| FrontList.ListUserCommunities.constructor | dspace-api/src/main/java/org/dspace/frontlist/ListUserCommunities.java:46-86 | the statics start null; the model shows them as empty structures with `built` false, and every use the code makes of them before the build is guarded by `built` |
| FrontList.ListUserCommunities.PrebuildFrontListsCommunities | dspace-api/src/main/java/org/dspace/frontlist/ListUserCommunities.java:109-159 | the build runs once: a second call changes nothing; the first leaves BuildSpec, whose results are the FrontListProps.Build* lemmas |
| FrontList.ListUserCommunities.Build | dspace-api/src/main/java/org/dspace/frontlist/ListUserCommunities.java:113-157 | allocation, buildCollections for every community, buildCommunity for every top-level community, then the copy of the raw triple lists |
| FrontList.ListUserCommunities.NewLists | dspace-api/src/main/java/org/dspace/frontlist/ListUserCommunities.java:123-126 | the four lists are allocated empty |
| FrontList.ListUserCommunities.NewMaps | dspace-api/src/main/java/org/dspace/frontlist/ListUserCommunities.java:115-118 | the four maps are allocated empty |
| FrontList.ListUserCommunities.NewGrantLists | dspace-api/src/main/java/org/dspace/frontlist/ListUserCommunities.java:119-122 | the four triple lists are allocated empty |
| FrontList.ListUserCommunities.CollectPhase | dspace-api/src/main/java/org/dspace/frontlist/ListUserCommunities.java:133-140 | the first loop leaves CollectAll over findAll, in order |
| FrontList.ListUserCommunities.WalkPhase | dspace-api/src/main/java/org/dspace/frontlist/ListUserCommunities.java:146-152 | the second loop leaves WalkTops over findAllTop, in order |
| FrontList.ListUserCommunities.BuildCollections | dspace-api/src/main/java/org/dspace/frontlist/ListUserCommunities.java:168-234 | buildCollections(c) leaves CollectStep (properties in FrontListProps.CollectStepMaps and CollectStepLists) |
| FrontList.ListUserCommunities.ClassifyCollections | dspace-api/src/main/java/org/dspace/frontlist/ListUserCommunities.java:182-226 | the loop appends ClassifyAll of the array to the lists, returns the available collections, and appends the triples of every hidden collection |
| FrontList.ListUserCommunities.ClassifyCollection | dspace-api/src/main/java/org/dspace/frontlist/ListUserCommunities.java:184-225 | one pass is one Step of the classification, plus ColGrants when the collection is hidden |
| FrontList.ListUserCommunities.ScopeTests | dspace-api/src/main/java/org/dspace/frontlist/ListUserCommunities.java:184-212 | first match wins; an available collection joins the available list; NYU and Gallatin collections join their lists; an empty scoped collection joins the empty list |
| FrontList.ListUserCommunities.HiddenCollection | dspace-api/src/main/java/org/dspace/frontlist/ListUserCommunities.java:214-225 | a collection that is not available gets its triples, goes to the private list iff private and to the empty list iff it has no items |
| FrontList.ListUserCommunities.BuildCommunity | dspace-api/src/main/java/org/dspace/frontlist/ListUserCommunities.java:236-266 | the recursion leaves WalkComm; visibility and admin results are in FrontListProps.WalkComm* |
| FrontList.ListUserCommunities.BuildAuthorizedColList | dspace-api/src/main/java/org/dspace/frontlist/ListUserCommunities.java:271-288 | appends ColGrants: administrators, submitters, then the administrators of each listing community, each with the collection |
| FrontList.ListUserCommunities.AddParentGrants | dspace-api/src/main/java/org/dspace/frontlist/ListUserCommunities.java:283-286 | appends the administrator triples of every listing community, in order |
| FrontList.ListUserCommunities.BuildAuthorizedCommList | dspace-api/src/main/java/org/dspace/frontlist/ListUserCommunities.java:293-299 | the community's administrator group goes through buildAuthorizedGroupUsers; no group means no change |
| FrontList.ListUserCommunities.BuildCommGroupUsers | dspace-api/src/main/java/org/dspace/frontlist/ListUserCommunities.java:302-308 | appends the triples of the community's administrators for the collection |
| FrontList.ListUserCommunities.BuildAuthorizedGroupUsers | dspace-api/src/main/java/org/dspace/frontlist/ListUserCommunities.java:312-337 | for a collection, every triple goes to the collection list; as written, for a community, direct members go to the collection list and nested members to commAuthorizedUsers |
| FrontList.ListUserCommunities.AddMemberTriples | dspace-api/src/main/java/org/dspace/frontlist/ListUserCommunities.java:315-317 | one triple per direct member on the collection list, in order |
| FrontList.ListUserCommunities.AddNestedTriples | dspace-api/src/main/java/org/dspace/frontlist/ListUserCommunities.java:318-323 | one triple per member of each member group on the collection list, carrying the outer group's ID |
| FrontList.ListUserCommunities.AddCommMemberTriples | dspace-api/src/main/java/org/dspace/frontlist/ListUserCommunities.java:331-333 | one triple per member on commAuthorizedUsers |
| FrontList.ListUserCommunities.AddNestedCommTriples | dspace-api/src/main/java/org/dspace/frontlist/ListUserCommunities.java:330-335 | one triple per member of each member group on commAuthorizedUsers, carrying the outer group's ID |
| FrontList.ListUserCommunities.GetAuthorizedCollections | dspace-api/src/main/java/org/dspace/frontlist/ListUserCommunities.java:341-352 | the nodes of the user's collection triples, in list order, with duplicates (Select; FrontListProps.SelectIn) |
| FrontList.ListUserCommunities.CheckAuthorizedCollections | dspace-api/src/main/java/org/dspace/frontlist/ListUserCommunities.java:356-367 | true iff some collection triple carries the user |
| FrontList.ListUserCommunities.GetAuthorizedCommunities | dspace-api/src/main/java/org/dspace/frontlist/ListUserCommunities.java:371-382 | the nodes of the user's community triples, in list order, with duplicates |
| FrontList.ListUserCommunities.CheckAuthorizedCommunities | dspace-api/src/main/java/org/dspace/frontlist/ListUserCommunities.java:386-397 | true iff some community triple carries the user |
| FrontListProps.GroupGrantsIff | dspace-api/src/main/java/org/dspace/frontlist/ListUserCommunities.java:314-323 | a triple exists for a group and node iff its user is a direct member of the group or a member of one of its member groups; it always carries the outer group's ID |
| FrontListProps.ParentGrantsUsers | dspace-api/src/main/java/org/dspace/frontlist/ListUserCommunities.java:283-286 | the users of the parent triples are the administrators of the listing communities in order, each with the collection |
| FrontListProps.ColGrantsUsers | dspace-api/src/main/java/org/dspace/frontlist/ListUserCommunities.java:271-288 | the users of a collection's triples are exactly getAuthirizedCollectionUsers, in order, each with the collection |
| FrontListProps.SelectIn | dspace-api/src/main/java/org/dspace/frontlist/ListUserCommunities.java:341-352 | a node is returned for a user iff some triple carries both |
| FrontListProps.SelectAppend | dspace-api/src/main/java/org/dspace/frontlist/ListUserCommunities.java:341-352 | the lookup keeps list order and duplicates: it distributes over concatenation |
| FrontListProps.SelectEmpty | dspace-api/src/main/java/org/dspace/frontlist/ListUserCommunities.java:356-367 | checkAuthorizedCollections agrees with getAuthorizedCollections: the lookup is empty iff no triple carries the user |
| FrontListProps.CollectStepMaps | dspace-api/src/main/java/org/dspace/frontlist/ListUserCommunities.java:168-234 | buildCollections(c) adds the key `c` to colMapAdmin, and to colMapAnon iff `c` has an available collection; every entry stays what buildCollections computes for its key; the community maps and the community triples are untouched |
| FrontListProps.CollectStepLists | dspace-api/src/main/java/org/dspace/frontlist/ListUserCommunities.java:182-226 | after buildCollections(c), each derived list holds its old members plus exactly those collections of `c` that have its flags |
| FrontListProps.CollectAllMaps | dspace-api/src/main/java/org/dspace/frontlist/ListUserCommunities.java:133-140 | the first loop adds every listed community to colMapAdmin, and to colMapAnon those with an available collection |
| FrontListProps.CollectAllLists | dspace-api/src/main/java/org/dspace/frontlist/ListUserCommunities.java:133-140 | after the first loop, each derived list holds exactly the collections of the visited communities with its flags |
| FrontListProps.CollectAllGrants | dspace-api/src/main/java/org/dspace/frontlist/ListUserCommunities.java:214-216 | every triple of a hidden collection of a visited community is recorded |
| FrontListProps.AnonOfIn | dspace-api/src/main/java/org/dspace/frontlist/ListUserCommunities.java:247-259 | the visible sub-communities collected are exactly the sub-communities that are listed |
| FrontListProps.ListedIff | dspace-api/src/main/java/org/dspace/frontlist/ListUserCommunities.java:251-253 | bottom-up visibility: a community is listed iff it has an available collection or a listed sub-community |
| FrontListProps.ListedTest | dspace-api/src/main/java/org/dspace/frontlist/ListUserCommunities.java:251-253 | once the walk below a community is done, the test on the two anonymous maps is exactly "listed" |
| FrontListProps.WalkCommFrame | dspace-api/src/main/java/org/dspace/frontlist/ListUserCommunities.java:236-266 | buildCommunity changes only the community maps and the triple lists, appends to the collection triples only, and drops no commMapAnon key |
| FrontListProps.WalkCommAdmin | dspace-api/src/main/java/org/dspace/frontlist/ListUserCommunities.java:241 | buildCommunity records the full sub-community array of every community in the subtree, and adds no other key |
| FrontListProps.WalkCommAnon | dspace-api/src/main/java/org/dspace/frontlist/ListUserCommunities.java:244-264 | buildCommunity records in commMapAnon the listed sub-communities of each community in the subtree that has any, and nothing else |
| FrontListProps.WalkSubsAnon | dspace-api/src/main/java/org/dspace/frontlist/ListUserCommunities.java:247-259 | the loop collects exactly the listed sub-communities, in array order |
| FrontListProps.WalkTopsAdmin | dspace-api/src/main/java/org/dspace/frontlist/ListUserCommunities.java:146-152 | the top-level loop adds to commMapAdmin exactly the communities of the forest below the top-level communities, each with its full sub-community array |
| FrontListProps.WalkTopsAnon | dspace-api/src/main/java/org/dspace/frontlist/ListUserCommunities.java:146-152 | the top-level loop records in commMapAnon the listed sub-communities of every community of that forest that has any, and nothing else |
| FrontListProps.BuildColMaps | dspace-api/src/main/java/org/dspace/frontlist/ListUserCommunities.java:175-231 | after the build, colMapAdmin holds every community's full array, even an empty one; colMapAnon holds a community iff it has an available collection, with exactly those collections |
| FrontListProps.AvailableOfIn | dspace-api/src/main/java/org/dspace/frontlist/ListUserCommunities.java:186-212 | a collection is in the anonymous entry of its community iff it has a scope flag and items |
| FrontListProps.BuildLists | dspace-api/src/main/java/org/dspace/frontlist/ListUserCommunities.java:186-225 | after the build, both directions: NYU iff NYU-only and not public; Gallatin iff Gallatin and neither public nor NYU-only; private iff private and not available; empty iff it has no items |
| FrontListProps.BuildAvailableNotPrivate | dspace-api/src/main/java/org/dspace/frontlist/ListUserCommunities.java:214-220 | available collections are never recorded as private |
| FrontListProps.BuildCommMaps | dspace-api/src/main/java/org/dspace/frontlist/ListUserCommunities.java:236-266 | after the build, commMapAdmin holds the full sub-community array of every reached community, and commMapAnon holds exactly the listed sub-communities of those that have any |
| FrontListProps.BuildHiddenCollectionGranted | dspace-api/src/main/java/org/dspace/frontlist/ListUserCommunities.java:214-216 | end to end: getAuthorizedCollections returns a hidden collection to every user entitled to it |
| FrontListProps.BuildCommAuthorizedEmpty | dspace-api/src/main/java/org/dspace/frontlist/ListUserCommunities.java:155-156 | as written, the community triple list is empty after the build |
| FrontListProps.WalkHiddenCommunityInColList | dspace-api/src/main/java/org/dspace/frontlist/ListUserCommunities.java:326-329 | as written, a direct administrator of a hidden sub-community gets a triple for that community on the collection triple list |
| FrontListProps.WalkSubsGrantsPrefix | dspace-api/src/main/java/org/dspace/frontlist/ListUserCommunities.java:247-258 | the loop records that triple for every hidden sub-community of the array, wherever it stands in the array |

## Behaviour kept as written

These behaviours look unintended. The model keeps each one as the code has
it, and a lemma shows it.

- **removeParentComm skips levels** (app/util 1238-1241). After detaching `c` from its parent, it recurses on
  the grandparent, not the parent, and it never checks whether the parent still has children.
  - `AppUtilUpdateProps.RemoveParentsKeepsOddLevels` shows that communities at an odd distance from `c` keep every link.
  - `AppUtilUpdateProps.RemoveParentsFault` shows both halves on a chain of four:
    - the grandparent keeps the parent;
    - the great-grandparent loses the grandparent, although the grandparent still has a sub-community.
- **The anonymous branch of removeChildrenCommID edits the admin collection map** (app/util 1317-1318).
  The guard compares `colMapAnon` with null, but the key lookup and the edit use `colMapAdmin`.
  `AppUtil.ListUserCommunities.RemoveChildrenCommID` states the effect.
- **removeUsersFromAuthorizedComList tests the collection map** (app/util 619). A user entitled to the community
  who has no key in `colAuthorizedUsers` keeps the community. See `AppUtilUpdateProps.RevokeCommunitySpec` and
  `AppUtilUpdateProps.RevokeCommunityKeeps`.
- **addCollectionToNYUOnlyList allocates the wrong list** (app/util 166-169). On a null NYU list it replaces
  `emptyCollections` by a new empty list, then throws on the NYU list. See
  `AppUtil.ListUserCommunities.AddCollectionToNYUOnlyList` and `AppUtilUpdateProps.CheckNullNYU`.
  `checkCollection` also throws at once for a collection that is not private when the private list is null
  (`AppUtilUpdateProps.CheckNullPrivate`).
- **Empty scoped collections are listed as empty twice** (app/util 660 and 692; frontlist 190 and 222).
  `Classification.EmptyMultiplicity` counts the occurrences.
- **The frontlist community branch of buildAuthorizedGroupUsers** (frontlist 326-335) has two faults:
  - it puts the direct administrators of a hidden community on the collection triple list, so
    getAuthorizedCollections returns the community's ID (`FrontListProps.WalkHiddenCommunityInColList`);
  - it puts the nested administrators on `commAuthorizedUsers`, which line 156 then overwrites with the
    never-filled `commAuthorizedUsersRaw`, so the community lookups always return nothing
    (`FrontListProps.BuildCommAuthorizedEmpty`).
- **addCommunityToAnnonList is guarded by the wrong map** (app/util 362). It tests the admin maps, but edits the
  anonymous ones. The other anonymous community wrappers behave the same way.
- **addChildrenComm applies no visibility test** (app/util 836-871). It copies full arrays into the anonymous
  maps (`AppUtilUpdateProps.AddChildrenSpec`).

## Where the model follows the code over the documented intent

- **Duplicate triples.** The first generation's triple lists keep every resolution path, so
  getAuthorizedCollections returns duplicates (`FrontListProps.SelectAppend`). They are not deduplicated.
- **Group expansion.** Groups are expanded one level deep (`Hierarchy.GroupUsersOneLevel`), so cyclic group
  membership needs no special handling.
- **Community authorisation.** A community is granted to its own administrators as well as to those of all its
  ancestors (`Hierarchy.CommunityUsersIff`).
- **Removing a collection.** An emptied entry is removed from the admin map as well as from the anonymous one
  (`AppUtilUpdateProps.DropCollectionSpec`). No direction of the upward propagation re-checks an ancestor for
  other visible descendants.

## Left out

- **Database access.** The `Context` and every query are replaced by the `Snapshot` argument, and SQL errors are
  not modelled.
- **Concurrency.** `synchronized`, the process-wide statics, `ConcurrentHashMap` and the copy semantics of
  `CopyOnWriteArrayList` are out. The fields of one object stand for the statics, and the copy at frontlist
  154-156 is an assignment.
- **Logging.** All `log` calls are out. Most of them only read values, but four of them can throw, and the
  exception reaches the caller. The model does not raise any of these exceptions; it carries on as if the log
  line were absent:
  - app/util 499, the community branch of addAuthorizedUser: the log reads `colAuthorizedUsers.get(...).length`.
    That is the collection map, so after the put it throws a NullPointerException for every user without a
    collection entry. AppUtil.ListUserCommunities.AddAuthorizedUser returns normally instead.
  - app/util 601, addUsersToAuthorizedComList: the same read of the collection map. It throws for a user who has a
    community entry without the community and has no collection entry, and that stops the loop, so later users do
    not get the community. AppUtil.ListUserCommunities.AddUsersToAuthorizedComList grants it to every entitled user.
  - app/util 942, addCollectionID on the admin side: the log reads element 4 of the new array. It throws an
    ArrayIndexOutOfBoundsException whenever that array has fewer than five collections, which skips the
    addParentComm call at 966-969. AppUtil.ListUserCommunities.AddCollectionID and AddCollectionToAdminListID
    always link the community upward.
  - app/util 390, addCommunityToAdminList: the log reads the parent's entry through `getParentCommunity().getID()`.
    For a top-level community it throws a NullPointerException after both edits.
    AppUtil.ListUserCommunities.AddCommunityToAdminList returns normally.
- **Runtime exceptions of the fixed-size and for-each list edits** (app/util 518-520, 570-572, and the for-each
  removals by ID). The intended insert or removal is modelled instead.
- **Object identity.** Java `equals`/`contains` on `Collection`/`Community` is integer-ID equality, and the
  `!= null` tests on map values always hold, since the maps hold no null arrays.
- **addCommunityToAdminListID** (app/util 394-401) is not modelled: it stores a null array in `commMapAdmin`,
  and the maps here hold no nulls.
- **The discarded getAuthirizedCollectionUsers call** in addCollectionToPrivateList and addCollectionToEmptyList
  has no effect and is omitted.
- **The frontlist file beyond line 397** is one block comment and is not part of this model. Neither is
  dspace-jspui's ListCommunitiesSiteProcessor, which only copies the maps into request attributes.
- **Map dereferences without a null test.** Where the code dereferences an authorisation map or a child map
  without testing it for null, the model either requires the map to be allocated or treats the child maps as
  always allocated. The throwing branch itself is not modelled. This includes the branch of addChildrenComm
  that calls `put` on a null map (app/util 848-849, 857-858).

Preconditions stronger than the code:

- FrontList.ListUserCommunities.GetAuthorizedCollections, CheckAuthorizedCollections, GetAuthorizedCommunities
  and CheckAuthorizedCommunities require `built`. Before the build the code throws a NullPointerException on the
  null triple list (frontlist 343, 358, 373, 388); that throw is not modelled.
- AppUtil.ListUserCommunities.AddUsersToAuthorizedColList, RemoveUsersFromAuthorizedColList,
  AddUsersToAuthorizedComList and RemoveUsersFromAuthorizedComList require allocated authorisation maps; on a
  null map the code throws.
- AppUtil.ListUserCommunities.RemoveCollectionFromPrivateList and RemoveCollectionFromEmptyList require an
  allocated collection authorisation map when the collection is listed; the code throws otherwise.
- AppUtil.ListUserCommunities.CheckCollection and CheckPrivateList require the same map when a listed
  collection is no longer private.
- AppUtil.ListUserCommunities.UpdateCollectionMetadata and UpdateCommunityMetadata require the chosen side's
  maps to be allocated when the collection has an owner or the community has a parent; only then does the code
  dereference them, without a null test.
- AppUtil.ListUserCommunities.AddCommunityToAnnonList, RemoveCommunityFromAnnonListID and
  RemoveCommunityFromAnnonList require the anonymous maps to be allocated whenever the admin maps are. The code
  tests only the admin maps and then throws on a null anonymous map.
- AppUtil.ListUserCommunities.AddCommunityToAdminList requires allocated admin maps; the code does not test
  them.
- AppUtil.ListUserCommunities.RemoveChildrenCommunityFromAnnonListID and RemoveChildrenCommID (anonymous side)
  require the admin maps to be allocated when the anonymous maps are, since the code tests `colMapAnon` and
  then uses `colMapAdmin`.
