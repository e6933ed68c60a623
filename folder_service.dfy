/** The folder service: looks up, creates, updates and deletes folders as the
    caller sees them (its own folder, or its mount of a folder shared with it),
    manages public tokens, and creates shares, giving each recipient a mount
    under its root folder. */
module FolderService {
  import opened Entities
  import opened Tables
  import opened Tree
  import opened GroupFanOut
  import Store

  /** The caller is anonymous (no user id) or owns `folder`. */
  predicate OwnerOrAnonymous(userId: Option<string>, folder: Folder)
  {
    userId.None? || userId.value == folder.userId
  }

  class FolderService {
    /** The mappers and the group directory the service works through. */
    const db: Store.Store
    /** Events handed to the event dispatcher, oldest first. */
    ghost var events: seq<Event>

    ghost predicate Valid()
      reads this, db
    {
      db.Valid()
    }

    constructor (db: Store.Store)
      requires db.Valid()
      ensures this.db == db && events == [] && Valid()
    {
      this.db := db;
      events := [];
    }

    /** The root folder of `userId`. */
    function GetRootFolder(userId: string): (r: Result<Folder>)
      requires Valid()
      reads this, db
      ensures r.Ok? <==> userId in db.roots && db.roots[userId] in db.folders
      ensures r.Ok? ==> r.value.id == db.roots[userId] && r.value == db.folders[r.value.id]
      ensures r.Err? ==> r.error == DoesNotExist
    {
      if userId in db.roots then FindById(db.roots[userId]) else Err(DoesNotExist)
    }

    /** The folder with primary key `id`. */
    function FindById(id: nat): (r: Result<Folder>)
      requires Valid()
      reads this, db
      ensures r.Ok? <==> id in db.folders
      ensures r.Ok? ==> r.value.id == id && r.value == db.folders[id]
      ensures r.Err? ==> r.error == DoesNotExist
    {
      if id in db.folders then Ok(db.folders[id]) else Err(DoesNotExist)
    }

    /** A new folder titled `title` under `parentFolderId`, owned by the parent's owner. */
    method Create(title: string, parentFolderId: nat) returns (r: Result<Folder>)
      requires Valid()
      modifies db`folders, db`tree, db`nextId, this`events
      ensures Valid()
      ensures parentFolderId !in old(db.folders) ==>
        r == Err(DoesNotExist) && db.folders == old(db.folders) && db.tree == old(db.tree) && events == old(events)
      ensures parentFolderId in old(db.folders) ==>
        && r.Ok?
        && r.value.title == title
        && r.value.userId == old(db.folders)[parentFolderId].userId
        && r.value.id !in old(db.folders)
        && db.folders == old(db.folders)[r.value.id := r.value]
        && db.tree == old(db.tree)[Node(FolderNode, r.value.id) := parentFolderId]
        && events == old(events) + [CreateEvent(FolderNode, r.value.id)]
      ensures r.Ok? ==> FindById(r.value.id) == Ok(r.value)
    {
      var parent :- FindById(parentFolderId);
      var folder := db.InsertFolder(title, parent.userId);
      db.Move(Node(FolderNode, folder.id), parentFolderId);
      events := events + [CreateEvent(FolderNode, folder.id)];
      r := Ok(folder);
    }

    /** A share through which `userId` sees `folder`: one owned by the folder's
        owner, reaching `userId` through a mount, on the folder itself or on a
        folder above it. None when there is no such share. */
    method FindShareByDescendantAndUser(folder: Folder, userId: string) returns (r: Option<Share>)
      requires Valid()
      ensures r.Some? ==>
        && r.value.id in SharesByOwnerAndUser(db.shares, db.mounts, folder.userId, userId)
        && db.shares[r.value.id] == r.value
        && r.value.owner == folder.userId
        && SharedWith(db.mounts, r.value.id, userId)
        && InSubtree(db.tree, r.value.folderId, folder.id)
      ensures r.None? <==>
        forall id | id in SharesByOwnerAndUser(db.shares, db.mounts, folder.userId, userId) ::
          !InSubtree(db.tree, db.shares[id].folderId, folder.id)
    {
      var candidates := SharesByOwnerAndUser(db.shares, db.mounts, folder.userId, userId);
      ghost var all := candidates;
      while candidates != {}
        invariant candidates <= all
        invariant forall id | id in all && id !in candidates :: !InSubtree(db.tree, db.shares[id].folderId, folder.id)
        decreases candidates
      {
        var id :| id in candidates;
        var share := db.shares[id];
        if share.folderId == folder.id || HasDescendant(db.tree, share.folderId, Node(FolderNode, folder.id)) {
          return Some(share);
        }
        candidates := candidates - {id};
      }
      return None;
    }

    /** What `userId` sees of folder `folderId`: the folder itself when the
        caller is anonymous or the owner, else the caller's mount of it, else
        (a folder reached below a shared one) the folder itself. */
    function FindSharedFolderOrFolder(userId: Option<string>, folderId: nat): (r: Result<View>)
      requires Valid()
      reads this, db
      ensures folderId !in db.folders ==> r == Err(DoesNotExist)
      ensures folderId in db.folders && OwnerOrAnonymous(userId, db.folders[folderId]) ==>
        r == Ok(Owned(db.folders[folderId]))
      ensures folderId in db.folders && !OwnerOrAnonymous(userId, db.folders[folderId]) ==>
        var held := MountsOf(db.mounts, folderId, userId.value);
        && (held == {} ==> r == Ok(Owned(db.folders[folderId])))
        && (|held| > 1 ==> r == Err(MultipleObjectsReturned))
        && (|held| == 1 ==> r.Ok? && r.value.Mounted? && held == {r.value.mount.id}
                            && db.mounts[r.value.mount.id] == r.value.mount)
      ensures r.Ok? && r.value.Mounted? ==>
        r.value.mount.folderId == folderId && userId == Some(r.value.mount.userId)
    {
      var folder :- FindById(folderId);
      if OwnerOrAnonymous(userId, folder) then Ok(Owned(folder))
      else
        var found := FindByFolderAndUser(db.mounts, folder.id, userId.value);
        if found.Ok? then Ok(Mounted(db.mounts[found.value]))
        else if found.error == DoesNotExist then Ok(Owned(folder))
        else Err(found.error)
    }

    /** Deletes what `userId` sees as folder `folderId`: for the owner (or an
        anonymous caller) the folder's tree entry and row; for a recipient its
        own mount; otherwise again the folder's tree entry and row. */
    method DeleteSharedFolderOrFolder(userId: Option<string>, folderId: nat) returns (r: Result<()>)
      requires Valid()
      modifies db`folders, db`tree, db`mounts
      ensures Valid()
      ensures folderId !in old(db.folders) ==>
        r == Err(DoesNotExist) && db.folders == old(db.folders) && db.tree == old(db.tree) && db.mounts == old(db.mounts)
      ensures folderId in old(db.folders) && OwnerOrAnonymous(userId, old(db.folders)[folderId]) ==>
        && r == Ok(())
        && db.tree == old(db.tree) - {Node(FolderNode, folderId)}
        && db.folders == old(db.folders) - {folderId} && db.mounts == old(db.mounts)
      ensures folderId in old(db.folders) && !OwnerOrAnonymous(userId, old(db.folders)[folderId]) ==>
        var found := FindByFolderAndUser(old(db.mounts), folderId, userId.value);
        && (found.Ok? ==>
              && r == Ok(())
              && db.tree == old(db.tree) - {Node(ShareNode, found.value)}
              && db.mounts == old(db.mounts) - {found.value}
              && db.folders == old(db.folders))
        && (found == Err(MultipleObjectsReturned) ==>
              r == found.PropagateFailure()
              && db.folders == old(db.folders) && db.tree == old(db.tree) && db.mounts == old(db.mounts))
        && (found == Err(DoesNotExist) ==>
              && r == Ok(())
              && db.tree == old(db.tree) - {Node(FolderNode, folderId)}
              && db.folders == old(db.folders) - {folderId}
              && db.mounts == old(db.mounts))
    {
      var folder :- FindById(folderId);
      if OwnerOrAnonymous(userId, folder) {
        db.DeleteEntry(Node(FolderNode, folder.id));
        return Ok(());
      }
      var found := FindByFolderAndUser(db.mounts, folder.id, userId.value);
      if found.Ok? {
        db.DeleteEntry(Node(ShareNode, found.value));
        return Ok(());
      }
      if found.error != DoesNotExist {
        return Err(found.error);
      }
      db.DeleteEntry(Node(FolderNode, folder.id));
      db.DeleteFolder(folder.id);
      r := Ok(());
    }

    /** Deletes share `shareId` with every mount it made; no folder changes. */
    method DeleteShare(shareId: nat) returns (r: Result<()>)
      requires Valid()
      modifies db`tree, db`mounts, db`shares
      ensures Valid()
      ensures db.folders == old(db.folders)
      ensures shareId !in old(db.shares) ==>
        r == Err(DoesNotExist) && db.shares == old(db.shares) && db.mounts == old(db.mounts) && db.tree == old(db.tree)
      ensures shareId in old(db.shares) ==>
        && r == Ok(())
        && db.shares == old(db.shares) - {shareId}
        && (forall id :: id in db.mounts <==> id in old(db.mounts) && old(db.mounts)[id].shareId != shareId)
        && (forall id | id in db.mounts :: db.mounts[id] == old(db.mounts)[id])
        && (forall n :: n in db.tree <==>
              n in old(db.tree) && !(n.kind == ShareNode && n.id in old(db.mounts) && old(db.mounts)[n.id].shareId == shareId))
        && (forall n | n in db.tree :: db.tree[n] == old(db.tree)[n])
    {
      r := db.DeleteShare(shareId);
    }

    /** Renames or moves what `userId` sees as folder `folderId`. A caller
        holding a mount of the folder renames or moves the mount only;
        otherwise the folder is renamed, and moved, its owner first rewritten
        to the new parent's owner when that differs. Since the guard in front of
        the mount lookup always holds, even the owner's mount (if any) is
        looked up first. */
    method UpdateSharedFolderOrFolder(userId: Option<string>, folderId: nat, title: Option<string>, parentFolder: Option<nat>)
      returns (r: Result<View>)
      requires Valid()
      modifies db`folders, db`mounts, db`tree, this`events
      ensures Valid()
      ensures folderId !in old(db.folders) ==>
        && r == Err(DoesNotExist)
        && db.folders == old(db.folders) && db.mounts == old(db.mounts) && db.tree == old(db.tree)
        && events == old(events)
      ensures folderId in old(db.folders) ==>
        var found := if userId.Some? then FindByFolderAndUser(old(db.mounts), folderId, userId.value) else Err(DoesNotExist);
        && (found.Ok? ==>
              var mount := old(db.mounts)[found.value];
              var renamed := if title.Some? then mount.(title := title.value) else mount;
              && r == Ok(Mounted(renamed))
              && db.mounts == old(db.mounts)[found.value := renamed]
              && db.tree == (if parentFolder.Some? then old(db.tree)[Node(ShareNode, found.value) := parentFolder.value]
                             else old(db.tree))
              && db.folders == old(db.folders) && events == old(events))
        && (found == Err(MultipleObjectsReturned) ==>
              && r == Err(MultipleObjectsReturned)
              && db.folders == old(db.folders) && db.mounts == old(db.mounts) && db.tree == old(db.tree)
              && events == old(events))
        && (found == Err(DoesNotExist) ==>
              var folder := old(db.folders)[folderId];
              var renamed := if title.Some? then folder.(title := title.value) else folder;
              var titled := if title.Some? then old(db.folders)[folderId := renamed] else old(db.folders);
              && db.mounts == old(db.mounts)
              && events == old(events) + (if title.Some? then [UpdateEvent(FolderNode, folderId)] else [])
              && (parentFolder.None? ==> r == Ok(Owned(renamed)) && db.folders == titled && db.tree == old(db.tree))
              && (parentFolder.Some? && parentFolder.value !in old(db.folders) ==>
                    r == Err(DoesNotExist) && db.folders == titled && db.tree == old(db.tree))
              && (parentFolder.Some? && parentFolder.value in old(db.folders) ==>
                    var newOwner := old(db.folders)[parentFolder.value].userId;
                    && db.folders == (if newOwner != folder.userId then Reowned(titled, old(db.tree), folderId, newOwner)
                                      else titled)
                    && db.tree == old(db.tree)[Node(FolderNode, folderId) := parentFolder.value]
                    && db.folders[folderId].userId == newOwner
                    && r == Ok(Owned(db.folders[folderId]))))
    {
      var folder :- FindById(folderId);
      if userId != None || userId != Some(folder.userId) {
        // A lookup for no user matches no mount.
        var found := if userId.Some? then FindByFolderAndUser(db.mounts, folder.id, userId.value) else Err(DoesNotExist);
        if found.Ok? {
          var mount := UpdateMountView(found.value, title, parentFolder);
          return Ok(Mounted(mount));
        }
        if found.error != DoesNotExist {
          return Err(found.error);
        }
      }
      r := UpdateFolderView(folder, title, parentFolder);
    }

    /** The mount branch of an update: retitles mount `id` and moves it. */
    method UpdateMountView(id: nat, title: Option<string>, parentFolder: Option<nat>) returns (mount: SharedFolder)
      requires Valid() && id in db.mounts
      modifies db`mounts, db`tree
      ensures Valid()
      ensures mount == (if title.Some? then old(db.mounts)[id].(title := title.value) else old(db.mounts)[id])
      ensures db.mounts == old(db.mounts)[id := mount]
      ensures db.tree == (if parentFolder.Some? then old(db.tree)[Node(ShareNode, id) := parentFolder.value] else old(db.tree))
    {
      mount := db.mounts[id];
      if title.Some? {
        mount := mount.(title := title.value);
        db.UpdateMount(mount);
      }
      if parentFolder.Some? {
        db.Move(Node(ShareNode, mount.id), parentFolder.value);
      }
    }

    /** The folder branch of an update: retitles `folder` (with an update
        event), then, when a parent is given, hands the folder and everything
        below it to the parent's owner if that differs, and moves it. */
    method UpdateFolderView(folder: Folder, title: Option<string>, parentFolder: Option<nat>) returns (r: Result<View>)
      requires Valid() && folder.id in db.folders && db.folders[folder.id] == folder
      modifies db`folders, db`tree, this`events
      ensures Valid()
      ensures var renamed := if title.Some? then folder.(title := title.value) else folder;
        var titled := if title.Some? then old(db.folders)[folder.id := renamed] else old(db.folders);
        && events == old(events) + (if title.Some? then [UpdateEvent(FolderNode, folder.id)] else [])
        && (parentFolder.None? ==> r == Ok(Owned(renamed)) && db.folders == titled && db.tree == old(db.tree))
        && (parentFolder.Some? && parentFolder.value !in old(db.folders) ==>
              r == Err(DoesNotExist) && db.folders == titled && db.tree == old(db.tree))
        && (parentFolder.Some? && parentFolder.value in old(db.folders) ==>
              var newOwner := old(db.folders)[parentFolder.value].userId;
              && db.folders == (if newOwner != folder.userId then Reowned(titled, old(db.tree), folder.id, newOwner) else titled)
              && db.tree == old(db.tree)[Node(FolderNode, folder.id) := parentFolder.value]
              && db.folders[folder.id].userId == newOwner
              && r == Ok(Owned(db.folders[folder.id])))
    {
      var updated := folder;
      if title.Some? {
        updated := updated.(title := title.value);
        db.UpdateFolder(updated);
        events := events + [UpdateEvent(FolderNode, updated.id)];
      }
      if parentFolder.Some? {
        updated :- MoveFolder(updated, parentFolder.value);
      }
      r := Ok(Owned(updated));
    }

    /** Moves `folder` under `parentId`; when the parent has another owner,
        the folder and everything below it first pass to that owner. */
    method MoveFolder(folder: Folder, parentId: nat) returns (r: Result<Folder>)
      requires Valid() && folder.id in db.folders && db.folders[folder.id] == folder
      modifies db`folders, db`tree
      ensures Valid()
      ensures parentId !in old(db.folders) ==>
        r == Err(DoesNotExist) && db.folders == old(db.folders) && db.tree == old(db.tree)
      ensures parentId in old(db.folders) ==>
        var newOwner := old(db.folders)[parentId].userId;
        && db.folders == (if newOwner != folder.userId then Reowned(old(db.folders), old(db.tree), folder.id, newOwner)
                          else old(db.folders))
        && db.tree == old(db.tree)[Node(FolderNode, folder.id) := parentId]
        && r == Ok(folder.(userId := newOwner))
        && db.folders[folder.id] == r.value
    {
      var parent :- FindById(parentId);
      var moved := folder;
      if parent.userId != folder.userId {
        db.ChangeFolderOwner(folder.id, parent.userId);
        moved := folder.(userId := parent.userId);
      }
      db.Move(Node(FolderNode, folder.id), parentId);
      r := Ok(moved);
    }

    /** The public token of folder `folderId`, inserted if the folder has none:
        afterwards the folder has exactly that one token. */
    method CreateFolderPublicToken(folderId: nat) returns (r: Result<nat>)
      requires Valid()
      modifies db`publicFolders, db`nextId
      ensures Valid()
      ensures folderId !in old(db.folders) ==> r == Err(DoesNotExist) && db.publicFolders == old(db.publicFolders)
      ensures folderId in old(db.folders) ==>
        var found := FindByFolder(old(db.publicFolders), folderId);
        && (found.Ok? ==> r == found && db.publicFolders == old(db.publicFolders))
        && (found == Err(MultipleObjectsReturned) ==> r == found && db.publicFolders == old(db.publicFolders))
        && (found == Err(DoesNotExist) ==>
              && r == Ok(old(db.nextId)) && r.value !in old(db.publicFolders)
              && db.publicFolders == old(db.publicFolders)[r.value := PublicFolder(r.value, folderId)])
      ensures r.Ok? ==> TokensOf(db.publicFolders, folderId) == {r.value}
    {
      var _ :- FindById(folderId);
      var found := FindByFolder(db.publicFolders, folderId);
      if found.Ok? {
        return found;
      }
      if found.error != DoesNotExist {
        return found;
      }
      var token := db.InsertPublicFolder(folderId);
      assert TokensOf(db.publicFolders, folderId) == {token.id};
      r := Ok(token.id);
    }

    /** Deletes the public token of folder `folderId`; fails when there is none. */
    method DeleteFolderPublicToken(folderId: nat) returns (r: Result<()>)
      requires Valid()
      modifies db`publicFolders
      ensures Valid()
      ensures var found := FindByFolder(old(db.publicFolders), folderId);
        && (found.Err? ==> r == found.PropagateFailure() && db.publicFolders == old(db.publicFolders))
        && (found.Ok? ==> r == Ok(()) && db.publicFolders == old(db.publicFolders) - {found.value})
      ensures r.Ok? ==> TokensOf(db.publicFolders, folderId) == {}
    {
      var token :- FindByFolder(db.publicFolders, folderId);
      db.DeletePublicFolder(token);
      r := Ok(());
    }

    /** Publishing twice yields the same token; unpublishing and publishing
        again yields a different one. */
    method PublicTokenLifecycle(folderId: nat) returns (first: Result<nat>, again: Result<nat>, renewed: Result<nat>)
      requires Valid()
      requires folderId in db.folders && |TokensOf(db.publicFolders, folderId)| <= 1
      modifies db`publicFolders, db`nextId
      ensures Valid()
      ensures first.Ok? && again == first
      ensures renewed.Ok? && renewed.value != first.value
    {
      first := CreateFolderPublicToken(folderId);
      again := CreateFolderPublicToken(folderId);
      var deleted := DeleteFolderPublicToken(folderId);
      renewed := CreateFolderPublicToken(folderId);
    }

    /** Gives `userId` a mount of `folder` linked to `share`, titled like the
        folder, under the user's root folder. The root folder is looked up
        before the mount is inserted. */
    method AddSharedFolder(share: Share, folder: Folder, userId: string) returns (r: Result<()>)
      requires Valid()
      modifies db`mounts, db`tree, db`nextId
      ensures Valid()
      ensures r.Ok? <==> userId in db.roots && db.roots[userId] in db.folders
      ensures r.Err? ==>
        && r.error == DoesNotExist
        && db.mounts == old(db.mounts) && db.tree == old(db.tree) && db.nextId == old(db.nextId)
      ensures r.Ok? ==>
        var id := old(db.nextId);
        && id !in old(db.mounts)
        && db.mounts == old(db.mounts)[id := SharedFolder(id, folder.id, userId, folder.title, share.id)]
        && db.tree == old(db.tree)[Node(ShareNode, id) := db.roots[userId]]
        && db.nextId == id + 1
    {
      var root :- GetRootFolder(userId);
      var mount := db.InsertMount(folder.id, userId, folder.title, share.id);
      db.Move(Node(ShareNode, mount.id), root.id);
      r := Ok(());
    }

    /** One member of a group share: a member that already holds a mount
        of `folder` is left alone, one holding several is refused, and any
        other member is given a mount through `share`. */
    method MountForMember(share: Share, folder: Folder, userId: string) returns (r: Result<()>, ghost added: bool)
      requires Valid()
      modifies db`mounts, db`tree, db`nextId
      ensures Valid()
      ensures var found := FindByFolderAndUser(old(db.mounts), folder.id, userId);
        var hasRoot := userId in db.roots && db.roots[userId] in db.folders;
        && (added <==> found == Err(DoesNotExist) && hasRoot)
        && (r.Ok? <==> found.Ok? || added)
        && (r.Err? ==> r.error == (if found == Err(MultipleObjectsReturned) then MultipleObjectsReturned else DoesNotExist))
      ensures added ==>
        var id := old(db.nextId);
        && db.mounts == old(db.mounts)[id := SharedFolder(id, folder.id, userId, folder.title, share.id)]
        && db.tree == old(db.tree)[Node(ShareNode, id) := db.roots[userId]]
        && db.nextId == id + 1
      ensures !added ==> db.mounts == old(db.mounts) && db.tree == old(db.tree) && db.nextId == old(db.nextId)
    {
      var found := FindByFolderAndUser(db.mounts, folder.id, userId);
      if found.Ok? {
        return Ok(()), false;
      }
      if found.error != DoesNotExist {
        return found.PropagateFailure(), false;
      }
      r := AddSharedFolder(share, folder, userId);
      added := r.Ok?;
    }

    /** The body of the loop over the members of a group: the folder's
        owner is skipped, and any other member is handed to `MountForMember`.
        The loop state moves on to member `i` + 1, or the member is refused. */
    method VisitMember(share: Share, folder: Folder, members: seq<string>, i: nat,
                       ghost mounts0: map<nat, SharedFolder>, ghost tree0: Edges, ghost start: nat,
                       ghost recipients: seq<string>)
      returns (r: Result<()>, ghost recipients': seq<string>)
      requires Valid() && i < |members|
      requires forall id | id in mounts0 :: id < start
      requires db.nextId == start + |recipients|
      requires Visited(mounts0, tree0, start, members, i, folder, share.id, db.roots, db.folders, recipients, db.mounts, db.tree)
      modifies db`mounts, db`tree, db`nextId
      ensures Valid()
      ensures r.Ok? ==>
        && db.nextId == start + |recipients'|
        && Visited(mounts0, tree0, start, members, i + 1, folder, share.id, db.roots, db.folders, recipients', db.mounts, db.tree)
      ensures r.Err? ==>
        && members[i] != folder.userId
        && !MemberAccepted(mounts0, folder.id, db.roots, db.folders, members[i])
        && r.error == RefusalError(mounts0, folder.id, members[i])
        && db.mounts == old(db.mounts) && db.tree == old(db.tree) && db.nextId == old(db.nextId)
    {
      ghost var mounts, tree, roots, folders := db.mounts, db.tree, db.roots, db.folders;
      var u := members[i];
      recipients' := recipients;
      if u == folder.userId {
        SkipStep(mounts0, tree0, start, members, i, folder, share.id, roots, folders, recipients, mounts, tree);
        return Ok(()), recipients';
      }
      ghost var added;
      r, added := MountForMember(share, folder, u);
      if r.Err? {
        RefuseStep(mounts0, tree0, start, members, i, folder, share.id, roots, folders, recipients, mounts, tree);
      } else if added {
        GrowStep(mounts0, tree0, start, members, i, folder, share.id, roots, folders, recipients, mounts, tree,
                 db.mounts, db.tree);
        recipients' := recipients + [u];
      } else {
        SkipStep(mounts0, tree0, start, members, i, folder, share.id, roots, folders, recipients, mounts, tree);
      }
    }

    /** Gives each member of a group a mount of `folder` through `share`,
        skipping the folder's owner and members that already hold a mount of
        it. The loop stops at the first member holding several mounts of the
        folder or lacking a root folder, keeping the mounts already made. */
    method ShareWithGroupMembers(share: Share, folder: Folder, members: seq<string>) returns (r: Result<()>, ghost stoppedAt: nat)
      requires Valid()
      modifies db`mounts, db`tree, db`nextId
      ensures Valid()
      ensures GroupShared(old(db.mounts), old(db.tree), old(db.nextId), db.mounts, db.tree, db.nextId,
                          members, stoppedAt, folder, share.id, db.roots, db.folders,
                          if r.Ok? then None else Some(r.error))
    {
      ghost var mounts0, tree0, start := db.mounts, db.tree, db.nextId;
      ghost var roots, folders := db.roots, db.folders;
      ghost var rs := [];
      var i := 0;
      while i < |members|
        invariant db.Valid() && db.nextId == start + |rs|
        invariant Visited(mounts0, tree0, start, members, i, folder, share.id, roots, folders, rs, db.mounts, db.tree)
      {
        var visited;
        visited, rs := VisitMember(share, folder, members, i, mounts0, tree0, start, rs);
        if visited.Err? {
          return visited, i;
        }
        i := i + 1;
      }
      r, stoppedAt := Ok(()), i;
    }

    /** The user branch of a share: sharing with the folder's own owner is
        refused, any other user is given a mount. */
    method ShareWithUser(share: Share, folder: Folder, participant: string) returns (r: Result<Share>)
      requires Valid()
      modifies db`mounts, db`tree, db`nextId
      ensures Valid()
      ensures r.Ok? ==> r.value == share
      ensures participant == folder.userId ==>
        r == Err(UnsupportedOperation) && db.mounts == old(db.mounts) && db.tree == old(db.tree)
      ensures participant != folder.userId ==>
        if participant in db.roots && db.roots[participant] in db.folders then
          var id := old(db.nextId);
          && r.Ok?
          && db.mounts == old(db.mounts)[id := SharedFolder(id, folder.id, participant, folder.title, share.id)]
          && db.tree == old(db.tree)[Node(ShareNode, id) := db.roots[participant]]
        else
          r == Err(DoesNotExist) && db.mounts == old(db.mounts) && db.tree == old(db.tree)
    {
      if participant == folder.userId {
        return Err(UnsupportedOperation);
      }
      var added := AddSharedFolder(share, folder, participant);
      r := if added.Ok? then Ok(share) else Err(added.error);
    }

    /** The group branch of a share: an unknown group is refused, otherwise
        its members are visited in the order the group directory lists them.
        `mounts0`, `tree0` and `start` name the tables and the next free id
        on entry. */
    method ShareWithGroup(share: Share, folder: Folder, participant: string,
                          ghost mounts0: map<nat, SharedFolder>, ghost tree0: Edges, ghost start: nat)
      returns (r: Result<Share>, ghost stoppedAt: nat)
      requires Valid()
      requires mounts0 == db.mounts && tree0 == db.tree && start == db.nextId
      modifies db`mounts, db`tree, db`nextId
      ensures Valid()
      ensures r.Ok? ==> r.value == share
      ensures participant !in db.groups ==>
        r == Err(DoesNotExist) && db.mounts == mounts0 && db.tree == tree0
      ensures participant in db.groups ==>
        var members := db.groups[participant];
        && GroupShared(mounts0, tree0, start, db.mounts, db.tree, db.nextId,
                       members, stoppedAt, folder, share.id, db.roots, db.folders,
                       if r.Ok? then None else Some(r.error))
        && (r.Ok? <==> forall u | u in members && u != folder.userId ::
                          MemberAccepted(mounts0, folder.id, db.roots, db.folders, u))
        && (r.Ok? ==> FannedOut(mounts0, tree0, db.mounts, db.tree, start,
                                Recipients(members, folder.userId, HoldersOf(mounts0, folder.id)),
                                folder, share.id, db.roots))
    {
      if participant !in db.groups {
        return Err(DoesNotExist), 0;
      }
      var added;
      added, stoppedAt := ShareWithGroupMembers(share, folder, db.groups[participant]);
      r := if added.Ok? then Ok(share) else Err(added.error);
      GroupSharedComplete(mounts0, tree0, start, db.mounts, db.tree, db.nextId,
                          db.groups[participant], stoppedAt, folder, share.id, db.roots, db.folders,
                          if r.Ok? then None else Some(r.error));
    }

    /** Creates a share of folder `folderId` with a user or a group and mounts
        it for the recipients. The share's owner is the folder's owner. A
        participant type other than user or group is refused before anything
        is stored; a user share with the folder's owner is refused only after
        the share row has been inserted. For a group, `stoppedAt` is the
        number of members visited before the first refused one. */
    method CreateShare(folderId: nat, participant: string, shareType: int, canWrite: bool, canShare: bool)
      returns (r: Result<Share>, ghost stoppedAt: nat)
      requires Valid()
      modifies db`shares, db`mounts, db`tree, db`nextId
      ensures Valid()
      ensures folderId !in old(db.folders) ==>
        && r == Err(DoesNotExist)
        && db.shares == old(db.shares) && db.mounts == old(db.mounts) && db.tree == old(db.tree)
      ensures folderId in old(db.folders) && shareType != TypeUser && shareType != TypeGroup ==>
        && r == Err(UnsupportedOperation)
        && db.shares == old(db.shares) && db.mounts == old(db.mounts) && db.tree == old(db.tree)
      ensures folderId in old(db.folders) && (shareType == TypeUser || shareType == TypeGroup) ==>
        var folder := old(db.folders)[folderId];
        var share := Share(old(db.nextId), folderId, folder.userId, participant, shareType, canWrite, canShare);
        && share.id !in old(db.shares)
        && db.shares == old(db.shares)[share.id := share]
        && (r.Ok? ==> r.value == share)
        && (shareType == TypeUser && participant == folder.userId ==>
              r == Err(UnsupportedOperation) && db.mounts == old(db.mounts) && db.tree == old(db.tree))
        && (shareType == TypeUser && participant != folder.userId ==>
              if participant in db.roots && db.roots[participant] in db.folders then
                && r.Ok?
                && db.mounts == old(db.mounts)[share.id + 1 := SharedFolder(share.id + 1, folderId, participant, folder.title, share.id)]
                && db.tree == old(db.tree)[Node(ShareNode, share.id + 1) := db.roots[participant]]
              else
                r == Err(DoesNotExist) && db.mounts == old(db.mounts) && db.tree == old(db.tree))
        && (shareType == TypeGroup && participant !in db.groups ==>
              r == Err(DoesNotExist) && db.mounts == old(db.mounts) && db.tree == old(db.tree))
        && (shareType == TypeGroup && participant in db.groups ==>
              var members := db.groups[participant];
              && GroupShared(old(db.mounts), old(db.tree), share.id + 1, db.mounts, db.tree, db.nextId,
                             members, stoppedAt, folder, share.id, db.roots, db.folders,
                             if r.Ok? then None else Some(r.error))
              && (r.Ok? <==> forall u | u in members && u != folder.userId ::
                                MemberAccepted(old(db.mounts), folderId, db.roots, db.folders, u))
              && (r.Ok? ==> FannedOut(old(db.mounts), old(db.tree), db.mounts, db.tree, share.id + 1,
                                      Recipients(members, folder.userId, HoldersOf(old(db.mounts), folderId)),
                                      folder, share.id, db.roots)))
    {
      stoppedAt := 0;
      var folder :- FindById(folderId);
      if shareType != TypeUser && shareType != TypeGroup {
        return Err(UnsupportedOperation), stoppedAt;
      }
      var share := db.InsertShare(folderId, folder.userId, participant, shareType, canWrite, canShare);
      assert folder == old(db.folders)[folderId];
      assert share == Share(old(db.nextId), folderId, folder.userId, participant, shareType, canWrite, canShare);
      if shareType == TypeUser {
        r := ShareWithUser(share, folder, participant);
      } else {
        r, stoppedAt := ShareWithGroup(share, folder, participant, old(db.mounts), old(db.tree), share.id + 1);
      }
    }
  }
}
