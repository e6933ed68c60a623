# Bookmarks folder service — a verified model

This project models `FolderService` of the Nextcloud Bookmarks app
(`lib/Service/FolderService.php`). The service sits between the controllers
and the database mappers and does the following:

- It resolves what a user sees as a folder: the folder itself, or the user's
  *mount* of a folder shared with them.
- It creates, renames, moves and deletes folders and mounts.
- It publishes folders under a public token.
- It creates shares with a user or a group. A group share is fanned out into
  one mount per group member.

The database is an abstract store (`Store.Store`) with these parts:

- the folder, share, mount and public-token tables, each a map from row id
  to row;
- the tree table, a map from a node to its parent folder;
- the root folder of each user;
- the group directory, a map from group name to member list.

Each mapper and tree-mapper call the service makes is a method of the store.
It states exactly which table it changes and how. The mapper queries are
functions over the tables (`Tables`, `Tree`).

Mapper exceptions become the error variant of `Result`:
`DoesNotExist`, `MultipleObjectsReturned` and `UnsupportedOperation`. A
single-row query (`findByFolderAndUser`, `findByFolder`) raises
`DoesNotExist` when it finds no row and `MultipleObjectsReturned` when it
finds several, as `Tables.FindEntity` states.

Group fan-out is specified by a pure function, `GroupFanOut.Recipients`.
It lists the members that receive a mount, in visiting order. A member is
skipped when it is the folder's owner, when it already held a mount of the
folder, or when it already received one in this fan-out. The functions
`NewMounts` and `NewEdges` give the rows and tree entries those members
receive. The loop in `createShare` is proved to produce exactly these.

Two quirks of the code are reproduced as written:

- The guard in `updateSharedFolderOrFolder`
  (`$userId !== null || $userId !== $folder->getUserId()`) always holds. So
  the caller's mount is looked up first even when the caller is the owner or
  anonymous. A lookup for no user matches no mount.
- `createShare` inserts the share row before it checks for a share with the
  folder's own owner. A refused self-share therefore leaves its share row
  behind.

The model follows the code in two places where a reader might expect
otherwise:

- A user share does not check for an existing mount of the folder. A second
  share with the same user adds a second mount.
- In a group share, the first member that cannot be given a mount ends the
  loop with that error:
  - it holds several mounts of the folder, or
  - it holds none and has no root folder.

  Mounts already made for earlier members stay. Later members are not
  visited. The error is MultipleObjectsReturned from the mount lookup in
  the first case, and DoesNotExist from the root-folder lookup in the
  second (`GroupFanOut.RefusalError`).

## Model

| member | source | states |
|---|---|---|
| Tables.FindEntity | lib/Service/FolderService.php:170 | A single-row query succeeds iff exactly one row matches, and returns that row. It fails with DoesNotExist iff no row matches, and with MultipleObjectsReturned iff several do. |
| Tables.HolderIffMount | lib/Service/FolderService.php:353 | A user is among the holders of a folder iff the user holds at least one mount of it. |
| Tables.FindByFolderAndUser | lib/Service/FolderService.php:170 | findByFolderAndUser succeeds exactly when the user holds one mount of the folder, and then returns that mount. It gives DoesNotExist exactly when the user holds none, and MultipleObjectsReturned exactly when the user holds several. |
| Tables.FindByFolder | lib/Service/FolderService.php:287 | findByFolder succeeds exactly when the folder has one token, and then returns that token. It gives DoesNotExist exactly when the folder has none, and MultipleObjectsReturned exactly when it has several. |
| Tables.SharesByOwnerAndUser | lib/Service/FolderService.php:141 | findByOwnerAndUser returns exactly the owner's shares that some mount held by the user is linked to. Every returned share is the owner's and reaches the user through a mount, and every such share is returned. |
| Tables.MountsOfInsert | lib/Service/FolderService.php:378 | Inserting a mount under a fresh id adds that id to the mounts of its own folder and user, and to no other (folder, user) pair. |
| Tree.ReachesHasChain | lib/Service/FolderService.php:143 | When hasDescendant finds the ancestor, there is a chain of parent edges from the node up to that ancestor, no longer than the fuel allows. |
| Tree.ChainReaches | lib/Service/FolderService.php:143 | Conversely, every short enough chain of parent edges ending at a folder is found by the reachability walk. |
| Tree.HasDescendant | lib/Service/FolderService.php:143 | hasDescendant holds only for a node in the tree, and always for a direct child of the ancestor. |
| Tree.Pigeonhole | lib/Service/FolderService.php:143 | More nodes drawn from the tree's nodes than the tree has contain a repeated node. |
| Tree.ShortenChain | lib/Service/FolderService.php:143 | Every parent chain can be cut down to one with the same ends and at most one node more than the tree has edges. |
| Tree.HasDescendantFromChain | lib/Service/FolderService.php:143 | Every parent chain of any length from a node up to a folder is found by hasDescendant. With `ReachesHasChain`, hasDescendant holds exactly when such a chain exists. |
| Tree.Reowned | lib/Service/FolderService.php:269 | changeFolderOwner keeps every folder's id and title. It gives the new owner to the folder and to every folder below it, and only to those. |
| Store.Store.InsertFolder | lib/Service/FolderService.php:125 | Inserts the folder under a fresh id. No other folder row changes. |
| Store.Store.UpdateFolder | lib/Service/FolderService.php:262 | Writes the folder back to its row only. |
| Store.Store.DeleteFolder | lib/Service/FolderService.php:211 | Removes that folder row only. |
| Store.Store.InsertShare | lib/Service/FolderService.php:333 | Inserts the share under a fresh id. No other share row changes. |
| Store.Store.InsertMount | lib/Service/FolderService.php:378-379 | Inserts the mount, already linked to its share, under a fresh id. |
| Store.Store.UpdateMount | lib/Service/FolderService.php:250 | Writes the mount back to its row only. |
| Store.Store.InsertPublicFolder | lib/Service/FolderService.php:291 | Inserts a token row for the folder under a fresh id. |
| Store.Store.DeletePublicFolder | lib/Service/FolderService.php:303 | Removes that token row only. |
| Store.Store.Move | lib/Service/FolderService.php:126 | The node now hangs under the given parent. No other edge changes. |
| Store.Store.DeleteEntry | lib/Service/FolderService.php:193 | The node leaves the tree, and its own row goes too: the folder row for a folder node, the mount row for a mount node. |
| Store.Store.DeleteShare | lib/Service/FolderService.php:221 | Fails with DoesNotExist for an unknown share. Otherwise removes the share, every mount made through it, and the tree entries of those mounts. Every other mount and edge is untouched. |
| Store.Store.ChangeFolderOwner | lib/Service/FolderService.php:269 | The folder table becomes `Reowned` of the old one. |
| GroupFanOut.Recipients | lib/Service/FolderService.php:346-360 | The members that receive a mount, in visiting order, are no more than the members. Which members they are is stated by the three lemmas below. |
| GroupFanOut.RecipientsEligible | lib/Service/FolderService.php:346-360 | Every recipient of a group fan-out is a member, is not the folder's owner, and held no mount of the folder before. |
| GroupFanOut.RecipientsComplete | lib/Service/FolderService.php:346-360 | Every member that is not the owner and held no mount of the folder is a recipient. |
| GroupFanOut.RecipientsDistinct | lib/Service/FolderService.php:346-360 | No member is a recipient twice, even if it is listed twice. |
| GroupFanOut.NewMountsSnoc | lib/Service/FolderService.php:359 | Adding the next recipient adds exactly its mount, with the next id. |
| GroupFanOut.NewEdgesSnoc | lib/Service/FolderService.php:380 | Adding the next recipient adds exactly its mount's tree entry, under its root folder. |
| GroupFanOut.NewMountsIds | lib/Service/FolderService.php:378 | The new mounts use exactly the ids from the first free one up to the number of recipients, one each. |
| GroupFanOut.MountsOfAfterFanOut | lib/Service/FolderService.php:346-360 | After the fan-out, a user's mounts of the folder are its old mounts plus the new mounts made for it. |
| GroupFanOut.NewMountsOfDistinct | lib/Service/FolderService.php:346-360 | A recipient gets exactly one new mount, and a non-recipient gets none. |
| GroupFanOut.RecipientsStep | lib/Service/FolderService.php:346-360 | Visiting one more member appends it to the recipients exactly when it is eligible and new. |
| GroupFanOut.FanOutLookup | lib/Service/FolderService.php:353 | Midway through the loop, a visited recipient had no mount before and now holds exactly one. Every other user's mounts of the folder are as before. |
| GroupFanOut.FanOutMountsPerUser | lib/Service/FolderService.php:340-360 | After a complete fan-out, each group member other than the owner that had no mount of the folder holds exactly one. Every other user's mounts of the folder are unchanged. |
| GroupFanOut.FanOutGrows | lib/Service/FolderService.php:377-380 | Giving the next recipient its mount and tree entry keeps the tables equal to the old tables plus the fan-out so far. |
| GroupFanOut.MemberLookup | lib/Service/FolderService.php:351-356 | During the loop, finding one mount of a member means the member is accepted and gets nothing new. Finding several means it is refused. Finding none means it is a new recipient, accepted iff it has a root folder. |
| GroupFanOut.SkipStep | lib/Service/FolderService.php:349-354 | Skipping the owner, or a member that holds one mount, keeps the loop state. |
| GroupFanOut.GrowStep | lib/Service/FolderService.php:359 | Giving a member with no mount and with a root folder its mount moves the loop state on, with that member appended. |
| GroupFanOut.RefuseStep | lib/Service/FolderService.php:352-359 | A member with several mounts, or with none and no root folder, is not accepted. The mount lookup for it sees exactly its mounts from before the loop. |
| GroupFanOut.GroupSharedComplete | lib/Service/FolderService.php:346-360 | The loop runs to the end iff every member other than the owner is accepted. Then the tables are the old ones plus the fan-out to the recipients of the whole group. |
| FolderService.FolderService.constructor | lib/Service/FolderService.php:84-94 | The service starts over a valid store with an empty event log. |
| FolderService.FolderService.GetRootFolder | lib/Service/FolderService.php:96-98 | Returns the user's root folder iff the user has one and its row exists. Otherwise fails with DoesNotExist. |
| FolderService.FolderService.FindById | lib/Service/FolderService.php:104-106 | Returns the folder row with that id iff it exists. Otherwise fails with DoesNotExist. |
| FolderService.FolderService.Create | lib/Service/FolderService.php:116-130 | Fails with DoesNotExist and changes nothing if the parent is absent. Otherwise it inserts one new folder with the title and the parent's owner under a fresh id, places it under the parent, and records a create event. No other folder changes. |
| FolderService.FolderService.FindShareByDescendantAndUser | lib/Service/FolderService.php:137-148 | A returned share is owned by the folder's owner, reaches the user through a mount, and grants the folder itself or a folder above it. None is returned iff no such share exists. |
| FolderService.FolderService.FindSharedFolderOrFolder | lib/Service/FolderService.php:157-177 | An absent folder gives DoesNotExist. The owner or an anonymous caller gets the folder. Any other caller gets their single mount of it, the folder when they hold none, or MultipleObjectsReturned when they hold several. |
| FolderService.FolderService.DeleteSharedFolderOrFolder | lib/Service/FolderService.php:186-212 | The owner or an anonymous caller removes the folder's tree entry and its row. A caller holding a mount removes only that mount and its entry. Several mounts give MultipleObjectsReturned with nothing changed. Any other caller removes the folder's entry and row. Mounts are untouched except in the mount case. |
| FolderService.FolderService.DeleteShare | lib/Service/FolderService.php:220-222 | Fails with DoesNotExist for an unknown share. Otherwise the share, the mounts it made and their tree entries are gone. Every other mount and every other tree edge is unchanged, and no folder changes. |
| FolderService.FolderService.UpdateSharedFolderOrFolder | lib/Service/FolderService.php:235-275 | With a mount of the caller, only the mount is retitled and moved, and the folder is unchanged. Several mounts give MultipleObjectsReturned with nothing changed. Otherwise the folder is retitled (with an update event). Then it is moved; when the new parent has another owner, the folder and everything below it pass to that owner first. An absent new parent gives DoesNotExist after the title change. |
| FolderService.FolderService.UpdateMountView | lib/Service/FolderService.php:248-255 | The mount's title and its tree entry change as requested, and nothing else. |
| FolderService.FolderService.UpdateFolderView | lib/Service/FolderService.php:260-274 | Retitles the folder and then moves it as described for the update, including the owner change. |
| FolderService.FolderService.MoveFolder | lib/Service/FolderService.php:266-272 | An absent parent gives DoesNotExist with nothing changed. Otherwise the folder hangs under the parent. Its subtree passes to the parent's owner when that differs; a same-owner move leaves the folder table unchanged. |
| FolderService.FolderService.CreateFolderPublicToken | lib/Service/FolderService.php:283-294 | An absent folder gives DoesNotExist. An existing single token is returned unchanged, and several give MultipleObjectsReturned. Otherwise one token is inserted under a fresh id. On success the folder has exactly the returned token. |
| FolderService.FolderService.DeleteFolderPublicToken | lib/Service/FolderService.php:301-304 | Fails as the token lookup fails, with nothing changed. Otherwise it removes the token, and the folder has no token afterwards. |
| FolderService.FolderService.PublicTokenLifecycle | lib/Service/FolderService.php:283-304 | Creating a token twice returns the same token. Deleting it and creating again returns a different one. |
| FolderService.FolderService.AddSharedFolder | lib/Service/FolderService.php:372-381 | Succeeds iff the user has an existing root folder. Then it inserts one mount titled like the folder, linked to the share and placed under the user's root. A missing root gives DoesNotExist before anything is inserted. |
| FolderService.FolderService.MountForMember | lib/Service/FolderService.php:352-359 | A member holding one mount is left alone, and one holding several is refused with MultipleObjectsReturned. Any other member gets a mount iff it has a root folder, and otherwise fails with DoesNotExist. |
| FolderService.FolderService.VisitMember | lib/Service/FolderService.php:348-359 | One pass of the member loop: it skips the owner, and otherwise either moves the fan-out state on by that member, or refuses it with MultipleObjectsReturned (several mounts) or DoesNotExist (no mount and no root folder) and changes nothing. |
| FolderService.FolderService.ShareWithGroupMembers | lib/Service/FolderService.php:346-360 | Whether the loop ends or stops, the visited members were all accepted and the tables hold exactly the old rows plus the fan-out to the recipients among them, with the id counter advanced by their number. It stops only at a member that is not accepted, with that member's error. |
| FolderService.FolderService.ShareWithUser | lib/Service/FolderService.php:335-339 | A share with the folder's owner gives UnsupportedOperation with no mount. Any other user gets one mount under the next id iff it has a root folder, and otherwise DoesNotExist with no mount. |
| FolderService.FolderService.ShareWithGroup | lib/Service/FolderService.php:340-360 | An unknown group gives DoesNotExist with no mount. Otherwise the state after the loop is as for `ShareWithGroupMembers`, and it succeeds iff every member other than the owner is accepted, with the full fan-out. |
| FolderService.FolderService.CreateShare | lib/Service/FolderService.php:317-363 | Details follow below the table. |

`FolderService.FolderService.CreateShare` states these cases:

- An absent folder gives DoesNotExist with nothing changed.
- A participant type other than user or group gives UnsupportedOperation
  before anything is stored.
- In every other case, a share owned by the folder's owner is inserted
  first. Then:
  - a user share with the owner gives UnsupportedOperation with no mount;
  - any other user share adds one mount iff that user has a root folder;
  - an unknown group gives DoesNotExist;
  - a group share succeeds iff every member other than the owner is
    accepted, and then the tables are the old ones plus the fan-out to
    `Recipients`;
  - a group share that fails stops at member `stoppedAt`. The tables are
    the old ones plus the fan-out to the recipients among the members
    before it, so earlier mounts stay. The error is MultipleObjectsReturned
    if that member held several mounts of the folder, and DoesNotExist if
    it held none and has no root folder.

## Left out

- `importFile` (lib/Service/FolderService.php:395-398) is not modelled. It
  only forwards to the HTML importer, which is not part of this model.
- The translation tables under `l10n/` are not modelled. They are strings
  without logic.
- Events are not dispatched. Create and update events are appended to a
  ghost log, `events`.
- The internals of the mappers and the tree mapper are not modelled. Each
  is modelled only by the contract the service relies on. In particular:
  - `move` rejects no cycles, so `create` never raises UnsupportedOperation
    here;
  - `deleteEntry` and `deleteShare` do not cascade to the subtree or to
    bookmarks. `deleteEntry` removes only the node's own row;
  - bookmarks are not modelled at all.
- Transactions, concurrency and database integrity errors are left out.
  Folder ids are map keys, so `find` by primary key never raises
  MultipleObjectsReturned.
- All tables draw ids from one shared counter. Public tokens are row ids
  rather than random strings.
- A query result set has no order. `findByOwnerAndUser` is a set of share
  ids, and `findShareByDescendantAndUser` may return any matching share.
- The user directory is not modelled beyond the group map from name to
  member list, and the root-folder table.
- `insert` followed by `mount` in `addSharedFolder` is one store step. The
  mount row is inserted already linked to its share.
- `FolderService.FolderService.UpdateSharedFolderOrFolder`: because `move`
  rejects no cycles here, a folder can be moved under one of its own
  descendants, after its subtree has been re-owned, and the tree then has a
  cycle.
- `FolderService.FolderService.UpdateMountView`: `move` does not check
  that the parent exists, so a mount can be moved under any id. The
  failure `move` raises for a missing parent is not modelled.
- `findRootFolder` is taken to raise DoesNotExist for a user without a
  root folder. Its mapper is not part of this model, and the docblock of
  `addSharedFolder` (lib/Service/FolderService.php:369-370) does not list
  that exception. `MountForMember`, `AddSharedFolder`, `RefusalError` and the
  failure path of a group share rest on this.
- `changeFolderOwner` is taken to update the folder object passed to it.
  The folder returned by an update that changes owner therefore carries the
  new owner.
- Share permissions (`canWrite`, `canShare`) are stored but never checked.
  The service does not check them either.
