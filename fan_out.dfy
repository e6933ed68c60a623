/** Sharing a folder with a group gives each member one mount, except the
    folder's owner and members who already hold a mount of it. This module
    says which members those are and what the mount table and the tree look
    like once each of them has received a mount. */
module GroupFanOut {
  import opened Entities
  import opened Tables
  import opened Tree

  /** The members that receive a new mount, in the order they are visited:
      a member is skipped when it is `owner`, when it is in `holders` (it
      already holds a mount), or when it already received one earlier. */
  function Recipients(members: seq<string>, owner: string, holders: set<string>): (r: seq<string>)
    ensures |r| <= |members|
  {
    if members == [] then []
    else
      var earlier := Recipients(members[..|members| - 1], owner, holders);
      var u := members[|members| - 1];
      if u != owner && u !in holders && u !in earlier then earlier + [u] else earlier
  }

  /** Every recipient is a member, is not the owner and held no mount before. */
  lemma {:induction false} RecipientsEligible(members: seq<string>, owner: string, holders: set<string>)
    ensures forall u | u in Recipients(members, owner, holders) :: u in members && u != owner && u !in holders
  {
    if members != [] {
      var init := members[..|members| - 1];
      RecipientsEligible(init, owner, holders);
      assert forall u | u in init :: u in members;
    }
  }

  /** Every member that is not the owner and held no mount is a recipient. */
  lemma {:induction false} RecipientsComplete(members: seq<string>, owner: string, holders: set<string>)
    ensures forall u | u in members && u != owner && u !in holders :: u in Recipients(members, owner, holders)
  {
    if members != [] {
      var init := members[..|members| - 1];
      RecipientsComplete(init, owner, holders);
      assert members == init + [members[|members| - 1]];
    }
  }

  /** No member receives two mounts. */
  lemma {:induction false} RecipientsDistinct(members: seq<string>, owner: string, holders: set<string>)
    ensures Distinct(Recipients(members, owner, holders))
  {
    if members != [] {
      var earlier := Recipients(members[..|members| - 1], owner, holders);
      RecipientsDistinct(members[..|members| - 1], owner, holders);
      var u := members[|members| - 1];
      if u != owner && u !in holders && u !in earlier {
        var r := earlier + [u];
        assert Recipients(members, owner, holders) == r;
        forall i, j | 0 <= i < j < |r| ensures r[i] != r[j] {
          assert r[i] == earlier[i] && earlier[i] in earlier;
          if j < |earlier| { assert r[j] == earlier[j]; } else { assert r[j] == u; }
        }
      }
    }
  }

  ghost predicate Distinct(s: seq<string>)
  {
    forall i, j | 0 <= i < j < |s| :: s[i] != s[j]
  }

  /** The mounts made for `recipients`, with consecutive ids from `start`. */
  function NewMounts(start: nat, recipients: seq<string>, folderId: nat, title: string, shareId: nat): map<nat, SharedFolder>
  {
    if recipients == [] then map[]
    else
      var last := start + |recipients| - 1;
      NewMounts(start, recipients[..|recipients| - 1], folderId, title, shareId)[
        last := SharedFolder(last, folderId, recipients[|recipients| - 1], title, shareId)]
  }

  /** The tree entries of those mounts: each under its recipient's root folder. */
  function NewEdges(start: nat, recipients: seq<string>, roots: map<string, nat>): Edges
    requires forall u | u in recipients :: u in roots
  {
    if recipients == [] then map[]
    else
      NewEdges(start, recipients[..|recipients| - 1], roots)[
        Node(ShareNode, start + |recipients| - 1) := roots[recipients[|recipients| - 1]]]
  }

  /** Ids among the new mounts that belong to `userId`. */
  function NewMountsOf(start: nat, recipients: seq<string>, userId: string): set<nat>
  {
    if recipients == [] then {}
    else
      NewMountsOf(start, recipients[..|recipients| - 1], userId)
      + (if recipients[|recipients| - 1] == userId then {start + |recipients| - 1} else {})
  }

  /** Giving `u` the next mount extends both maps by one entry. */
  lemma NewMountsSnoc(start: nat, recipients: seq<string>, u: string, folderId: nat, title: string, shareId: nat)
    ensures NewMounts(start, recipients + [u], folderId, title, shareId)
         == NewMounts(start, recipients, folderId, title, shareId)[
              start + |recipients| := SharedFolder(start + |recipients|, folderId, u, title, shareId)]
  {
    assert (recipients + [u])[..|recipients|] == recipients;
  }

  lemma NewEdgesSnoc(start: nat, recipients: seq<string>, u: string, roots: map<string, nat>)
    requires forall v | v in recipients :: v in roots
    requires u in roots
    ensures forall v | v in recipients + [u] :: v in roots
    ensures NewEdges(start, recipients + [u], roots)
         == NewEdges(start, recipients, roots)[Node(ShareNode, start + |recipients|) := roots[u]]
  {
    assert (recipients + [u])[..|recipients|] == recipients;
  }

  /** The new mounts use exactly the ids from `start` on, one per recipient. */
  lemma {:induction false} NewMountsIds(start: nat, recipients: seq<string>, folderId: nat, title: string, shareId: nat)
    ensures forall id :: id in NewMounts(start, recipients, folderId, title, shareId) <==> start <= id < start + |recipients|
  {
    if recipients != [] {
      NewMountsIds(start, recipients[..|recipients| - 1], folderId, title, shareId);
    }
  }

  /** The mounts of a folder held by `userId` once the new mounts are added:
      the old ones and the new ones for `userId`. */
  lemma {:induction false} MountsOfAfterFanOut(old_: map<nat, SharedFolder>, start: nat, recipients: seq<string>,
                                               folderId: nat, title: string, shareId: nat, userId: string)
    requires forall id | id in old_ :: id < start
    ensures MountsOf(old_ + NewMounts(start, recipients, folderId, title, shareId), folderId, userId)
         == MountsOf(old_, folderId, userId) + NewMountsOf(start, recipients, userId)
  {
    if recipients != [] {
      var init := recipients[..|recipients| - 1];
      var last := start + |recipients| - 1;
      var before := old_ + NewMounts(start, init, folderId, title, shareId);
      MountsOfAfterFanOut(old_, start, init, folderId, title, shareId, userId);
      NewMountsIds(start, init, folderId, title, shareId);
      var m := SharedFolder(last, folderId, recipients[|recipients| - 1], title, shareId);
      assert old_ + NewMounts(start, recipients, folderId, title, shareId) == before[last := m];
      MountsOfInsert(before, last, m, folderId, userId);
    }
  }

  /** With distinct recipients, a user gets one new mount if a recipient and none otherwise. */
  lemma {:induction false} NewMountsOfDistinct(start: nat, recipients: seq<string>, userId: string)
    requires Distinct(recipients)
    ensures userId in recipients ==> |NewMountsOf(start, recipients, userId)| == 1
    ensures userId !in recipients ==> NewMountsOf(start, recipients, userId) == {}
  {
    if recipients != [] {
      var init := recipients[..|recipients| - 1];
      NewMountsOfDistinct(start, init, userId);
      if recipients[|recipients| - 1] != userId {
        assert recipients == init + [recipients[|recipients| - 1]];
      }
    }
  }

  /** One step of the loop over the members: the recipients among the
      first `i` + 1 members are those among the first `i`, plus member `i`
      when it is eligible and new. */
  lemma RecipientsStep(members: seq<string>, i: nat, owner: string, holders: set<string>)
    requires i < |members|
    ensures var earlier := Recipients(members[..i], owner, holders);
      var u := members[i];
      Recipients(members[..i + 1], owner, holders)
        == if u != owner && u !in holders && u !in earlier then earlier + [u] else earlier
  {
    assert members[..i + 1][..i] == members[..i];
  }

  /** While the loop runs, a member's mounts of the folder are its old ones,
      unless it has already received its new mount, in which case it had none
      before and has exactly one now. */
  lemma FanOutLookup(old_: map<nat, SharedFolder>, start: nat, visited: seq<string>, owner: string,
                     folderId: nat, title: string, shareId: nat, userId: string)
    requires forall id | id in old_ :: id < start
    ensures var rs := Recipients(visited, owner, HoldersOf(old_, folderId));
      var now := old_ + NewMounts(start, rs, folderId, title, shareId);
      && (userId in rs ==> MountsOf(old_, folderId, userId) == {} && |MountsOf(now, folderId, userId)| == 1)
      && (userId !in rs ==> MountsOf(now, folderId, userId) == MountsOf(old_, folderId, userId))
  {
    var holders := HoldersOf(old_, folderId);
    var rs := Recipients(visited, owner, holders);
    MountsOfAfterFanOut(old_, start, rs, folderId, title, shareId, userId);
    RecipientsDistinct(visited, owner, holders);
    NewMountsOfDistinct(start, rs, userId);
    RecipientsEligible(visited, owner, holders);
    HolderIffMount(old_, folderId, userId);
  }

  /** Fan-out gives each eligible member exactly one mount of the folder and
      leaves every other user's mounts of the folder as they were. */
  lemma FanOutMountsPerUser(old_: map<nat, SharedFolder>, start: nat, members: seq<string>, owner: string,
                            folderId: nat, title: string, shareId: nat, userId: string)
    requires forall id | id in old_ :: id < start
    ensures var after := old_ + NewMounts(start, Recipients(members, owner, HoldersOf(old_, folderId)), folderId, title, shareId);
      && (userId in members && userId != owner && MountsOf(old_, folderId, userId) == {} ==>
            |MountsOf(after, folderId, userId)| == 1)
      && (!(userId in members && userId != owner && MountsOf(old_, folderId, userId) == {}) ==>
            MountsOf(after, folderId, userId) == MountsOf(old_, folderId, userId))
  {
    var holders := HoldersOf(old_, folderId);
    FanOutLookup(old_, start, members, owner, folderId, title, shareId, userId);
    HolderIffMount(old_, folderId, userId);
    RecipientsEligible(members, owner, holders);
    RecipientsComplete(members, owner, holders);
  }

  /** Member `userId` does not stop the loop: it holds at most one mount of
      the folder, and if it holds none it has a root folder to mount under. */
  ghost predicate MemberAccepted(mounts: map<nat, SharedFolder>, folderId: nat, roots: map<string, nat>,
                                 folders: map<nat, Folder>, userId: string)
  {
    var held := MountsOf(mounts, folderId, userId);
    |held| <= 1 && (held == {} ==> userId in roots && roots[userId] in folders)
  }

  /** The mount table and the tree once each of `recipients` has received a
      mount of `folder` through share `shareId`, with ids from `start`. */
  ghost predicate FannedOut(mounts0: map<nat, SharedFolder>, tree0: Edges, mounts: map<nat, SharedFolder>, tree: Edges,
                            start: nat, recipients: seq<string>, folder: Folder, shareId: nat, roots: map<string, nat>)
  {
    && (forall u | u in recipients :: u in roots)
    && mounts == mounts0 + NewMounts(start, recipients, folder.id, folder.title, shareId)
    && tree == tree0 + NewEdges(start, recipients, roots)
  }

  /** Adding the next recipient's mount and tree entry keeps the tables fanned out. */
  lemma FanOutGrows(mounts0: map<nat, SharedFolder>, tree0: Edges, mounts: map<nat, SharedFolder>, tree: Edges,
                    start: nat, recipients: seq<string>, u: string, folder: Folder, shareId: nat, roots: map<string, nat>)
    requires FannedOut(mounts0, tree0, mounts, tree, start, recipients, folder, shareId, roots)
    requires u in roots
    ensures var id := start + |recipients|;
      FannedOut(mounts0, tree0,
                mounts[id := SharedFolder(id, folder.id, u, folder.title, shareId)],
                tree[Node(ShareNode, id) := roots[u]],
                start, recipients + [u], folder, shareId, roots)
  {
    var id := start + |recipients|;
    var m := SharedFolder(id, folder.id, u, folder.title, shareId);
    var before := NewMounts(start, recipients, folder.id, folder.title, shareId);
    NewMountsSnoc(start, recipients, u, folder.id, folder.title, shareId);
    MergeUpdate(mounts0, before, id, m);
    assert mounts[id := m] == mounts0 + NewMounts(start, recipients + [u], folder.id, folder.title, shareId);
    var edges := NewEdges(start, recipients, roots);
    NewEdgesSnoc(start, recipients, u, roots);
    MergeUpdate(tree0, edges, Node(ShareNode, id), roots[u]);
    assert tree[Node(ShareNode, id) := roots[u]] == tree0 + NewEdges(start, recipients + [u], roots);
  }

  /** Updating the right operand of a map union updates the union. */
  lemma MergeUpdate<K, V>(a: map<K, V>, b: map<K, V>, k: K, v: V)
    ensures a + b[k := v] == (a + b)[k := v]
  {
  }

  /** What looking up member `u`'s mount of the folder in the middle of the
      loop tells about `u`: a single mount means `u` is accepted and gets no
      new one, several mean it is refused, and none means it is a new
      recipient, accepted exactly when it has a root folder. */
  lemma MemberLookup(mounts0: map<nat, SharedFolder>, start: nat, visited: seq<string>, owner: string,
                     folder: Folder, shareId: nat, u: string, roots: map<string, nat>, folders: map<nat, Folder>)
    requires forall id | id in mounts0 :: id < start
    requires u != owner
    requires forall v | v in Recipients(visited, owner, HoldersOf(mounts0, folder.id)) :: v in roots && roots[v] in folders
    ensures var holders := HoldersOf(mounts0, folder.id);
      var rs := Recipients(visited, owner, holders);
      var found := FindByFolderAndUser(mounts0 + NewMounts(start, rs, folder.id, folder.title, shareId), folder.id, u);
      && (found.Ok? ==> MemberAccepted(mounts0, folder.id, roots, folders, u) && (u in rs || u in holders))
      && (found == Err(MultipleObjectsReturned) ==> !MemberAccepted(mounts0, folder.id, roots, folders, u))
      && (found == Err(DoesNotExist) ==>
            && u !in rs && u !in holders
            && (MemberAccepted(mounts0, folder.id, roots, folders, u) <==> u in roots && roots[u] in folders))
  {
    FanOutLookup(mounts0, start, visited, owner, folder.id, folder.title, shareId, u);
    HolderIffMount(mounts0, folder.id, u);
  }

  /** The state of the loop over the members of a group after the first `i`
      of them: `recipients` are the members given a mount so far, the tables
      hold exactly those mounts, and every member visited was accepted. */
  ghost predicate Visited(mounts0: map<nat, SharedFolder>, tree0: Edges, start: nat, members: seq<string>, i: nat,
                          folder: Folder, shareId: nat, roots: map<string, nat>, folders: map<nat, Folder>,
                          recipients: seq<string>, mounts: map<nat, SharedFolder>, tree: Edges)
  {
    && i <= |members|
    && recipients == Recipients(members[..i], folder.userId, HoldersOf(mounts0, folder.id))
    && FannedOut(mounts0, tree0, mounts, tree, start, recipients, folder, shareId, roots)
    && (forall u | u in recipients :: roots[u] in folders)
    && (forall j | 0 <= j < i && members[j] != folder.userId :: MemberAccepted(mounts0, folder.id, roots, folders, members[j]))
  }

  /** Member `i` is skipped (it is the owner, or holds one mount of the
      folder): the loop state moves on unchanged. */
  lemma SkipStep(mounts0: map<nat, SharedFolder>, tree0: Edges, start: nat, members: seq<string>, i: nat,
                 folder: Folder, shareId: nat, roots: map<string, nat>, folders: map<nat, Folder>,
                 recipients: seq<string>, mounts: map<nat, SharedFolder>, tree: Edges)
    requires forall id | id in mounts0 :: id < start
    requires i < |members|
    requires Visited(mounts0, tree0, start, members, i, folder, shareId, roots, folders, recipients, mounts, tree)
    requires members[i] == folder.userId || FindByFolderAndUser(mounts, folder.id, members[i]).Ok?
    ensures Visited(mounts0, tree0, start, members, i + 1, folder, shareId, roots, folders, recipients, mounts, tree)
  {
    var u := members[i];
    RecipientsStep(members, i, folder.userId, HoldersOf(mounts0, folder.id));
    if u != folder.userId {
      MemberLookup(mounts0, start, members[..i], folder.userId, folder, shareId, u, roots, folders);
    }
  }

  /** Member `i` holds no mount of the folder and has a root folder: it is
      given the next mount, under its root folder. */
  lemma GrowStep(mounts0: map<nat, SharedFolder>, tree0: Edges, start: nat, members: seq<string>, i: nat,
                 folder: Folder, shareId: nat, roots: map<string, nat>, folders: map<nat, Folder>,
                 recipients: seq<string>, mounts: map<nat, SharedFolder>, tree: Edges,
                 mounts': map<nat, SharedFolder>, tree': Edges)
    requires forall id | id in mounts0 :: id < start
    requires i < |members|
    requires Visited(mounts0, tree0, start, members, i, folder, shareId, roots, folders, recipients, mounts, tree)
    requires members[i] != folder.userId && FindByFolderAndUser(mounts, folder.id, members[i]) == Err(DoesNotExist)
    requires members[i] in roots && roots[members[i]] in folders
    requires var id := start + |recipients|;
      && mounts' == mounts[id := SharedFolder(id, folder.id, members[i], folder.title, shareId)]
      && tree' == tree[Node(ShareNode, id) := roots[members[i]]]
    ensures Visited(mounts0, tree0, start, members, i + 1, folder, shareId, roots, folders, recipients + [members[i]],
                    mounts', tree')
  {
    var u := members[i];
    RecipientsStep(members, i, folder.userId, HoldersOf(mounts0, folder.id));
    MemberLookup(mounts0, start, members[..i], folder.userId, folder, shareId, u, roots, folders);
    FanOutGrows(mounts0, tree0, mounts, tree, start, recipients, u, folder, shareId, roots);
  }

  /** The error a refused member stops the loop with: the lookup of its mount
      finds several (MultipleObjectsReturned), or it has none and the lookup
      of its root folder fails (DoesNotExist). */
  function RefusalError(mounts0: map<nat, SharedFolder>, folderId: nat, userId: string): Error
  {
    if |MountsOf(mounts0, folderId, userId)| > 1 then MultipleObjectsReturned else DoesNotExist
  }

  /** The outcome of the loop over the members of a group once it has
      visited the first `stoppedAt` of them: each visited member other than
      the owner was accepted, the tables hold exactly the mounts given to
      the recipients among them, with ids from `start` up to `nextId`, and
      either every member was visited (`refusal` is None) or member
      `stoppedAt` was refused with error `refusal`. */
  ghost predicate GroupShared(mounts0: map<nat, SharedFolder>, tree0: Edges, start: nat,
                              mounts: map<nat, SharedFolder>, tree: Edges, nextId: nat,
                              members: seq<string>, stoppedAt: nat, folder: Folder, shareId: nat,
                              roots: map<string, nat>, folders: map<nat, Folder>, refusal: Option<Error>)
  {
    && stoppedAt <= |members|
    && (forall j {:trigger MemberAccepted(mounts0, folder.id, roots, folders, members[j])}
          | 0 <= j < stoppedAt && members[j] != folder.userId ::
          MemberAccepted(mounts0, folder.id, roots, folders, members[j]))
    && var rs := Recipients(members[..stoppedAt], folder.userId, HoldersOf(mounts0, folder.id));
    && FannedOut(mounts0, tree0, mounts, tree, start, rs, folder, shareId, roots)
    && nextId == start + |rs|
    && (refusal.None? ==> stoppedAt == |members|)
    && (refusal.Some? ==>
          && stoppedAt < |members|
          && members[stoppedAt] != folder.userId
          && !MemberAccepted(mounts0, folder.id, roots, folders, members[stoppedAt])
          && refusal.value == RefusalError(mounts0, folder.id, members[stoppedAt]))
  }

  /** The loop runs to the end exactly when every member other than the
      owner is accepted, and then every recipient of the whole group has
      its mount. */
  lemma GroupSharedComplete(mounts0: map<nat, SharedFolder>, tree0: Edges, start: nat,
                            mounts: map<nat, SharedFolder>, tree: Edges, nextId: nat,
                            members: seq<string>, stoppedAt: nat, folder: Folder, shareId: nat,
                            roots: map<string, nat>, folders: map<nat, Folder>, refusal: Option<Error>)
    requires GroupShared(mounts0, tree0, start, mounts, tree, nextId, members, stoppedAt, folder, shareId, roots, folders, refusal)
    ensures refusal.None? <==> forall u | u in members && u != folder.userId :: MemberAccepted(mounts0, folder.id, roots, folders, u)
    ensures refusal.None? ==>
      FannedOut(mounts0, tree0, mounts, tree, start, Recipients(members, folder.userId, HoldersOf(mounts0, folder.id)),
                folder, shareId, roots)
  {
    if refusal.None? {
      assert members[..stoppedAt] == members;
    }
  }

  /** Member `i` holds several mounts of the folder, or none and no root
      folder: it is not accepted, the loop stops there, and the lookup of its
      mount sees only the mounts it held before. */
  lemma RefuseStep(mounts0: map<nat, SharedFolder>, tree0: Edges, start: nat, members: seq<string>, i: nat,
                   folder: Folder, shareId: nat, roots: map<string, nat>, folders: map<nat, Folder>,
                   recipients: seq<string>, mounts: map<nat, SharedFolder>, tree: Edges)
    requires forall id | id in mounts0 :: id < start
    requires i < |members|
    requires Visited(mounts0, tree0, start, members, i, folder, shareId, roots, folders, recipients, mounts, tree)
    requires members[i] != folder.userId
    requires var found := FindByFolderAndUser(mounts, folder.id, members[i]);
      !found.Ok? && !(found == Err(DoesNotExist) && members[i] in roots && roots[members[i]] in folders)
    ensures !MemberAccepted(mounts0, folder.id, roots, folders, members[i])
    ensures MountsOf(mounts, folder.id, members[i]) == MountsOf(mounts0, folder.id, members[i])
  {
    MemberLookup(mounts0, start, members[..i], folder.userId, folder, shareId, members[i], roots, folders);
    FanOutLookup(mounts0, start, members[..i], folder.userId, folder.id, folder.title, shareId, members[i]);
  }
}
