/** Queries of the mappers over the tables, each table a map from row id to row. */
module Tables {
  import opened Entities

  /** A single-row query: exactly one row is found, or DoesNotExist is raised for
      none and MultipleObjectsReturned for more than one. */
  function FindEntity(rows: set<nat>): (r: Result<nat>)
    ensures r.Ok? <==> |rows| == 1
    ensures r.Ok? ==> rows == {r.value}
    ensures r == Err(DoesNotExist) <==> rows == {}
    ensures r == Err(MultipleObjectsReturned) <==> |rows| > 1
  {
    if rows == {} then Err(DoesNotExist)
    else if |rows| > 1 then Err(MultipleObjectsReturned)
    else
      SingletonHasWitness(rows);
      var id :| id in rows && rows == {id};
      Ok(id)
  }

  lemma SingletonHasWitness(rows: set<nat>)
    requires |rows| == 1
    ensures exists id :: id in rows && rows == {id}
  {
    var id :| id in rows;
    assert |rows - {id}| == 0;
    assert rows == {id};
  }

  /** Ids of the mounts of `folderId` held by `userId`. */
  function MountsOf(mounts: map<nat, SharedFolder>, folderId: nat, userId: string): set<nat>
  {
    set id | id in mounts && mounts[id].folderId == folderId && mounts[id].userId == userId
  }

  /** A new mount row adds its id to the mounts of its folder and user, and to no others. */
  lemma MountsOfInsert(mounts: map<nat, SharedFolder>, id: nat, mount: SharedFolder, folderId: nat, userId: string)
    requires id !in mounts
    ensures MountsOf(mounts[id := mount], folderId, userId)
         == MountsOf(mounts, folderId, userId) + (if mount.folderId == folderId && mount.userId == userId then {id} else {})
  {
  }

  /** Users that hold at least one mount of `folderId`. */
  function HoldersOf(mounts: map<nat, SharedFolder>, folderId: nat): set<string>
  {
    set id | id in mounts && mounts[id].folderId == folderId :: mounts[id].userId
  }

  lemma {:induction false} HolderIffMount(mounts: map<nat, SharedFolder>, folderId: nat, userId: string)
    ensures userId in HoldersOf(mounts, folderId) <==> MountsOf(mounts, folderId, userId) != {}
  {
    if MountsOf(mounts, folderId, userId) != {} {
      var id :| id in MountsOf(mounts, folderId, userId);
      assert mounts[id].userId == userId;
    }
    if userId in HoldersOf(mounts, folderId) {
      var id :| id in mounts && mounts[id].folderId == folderId && mounts[id].userId == userId;
      assert id in MountsOf(mounts, folderId, userId);
    }
  }

  /** The mount of `folderId` held by `userId` (findByFolderAndUser): found
      only when it is that user's one mount of the folder; DoesNotExist
      exactly when the user holds none. */
  function FindByFolderAndUser(mounts: map<nat, SharedFolder>, folderId: nat, userId: string): (r: Result<nat>)
    ensures r.Ok? ==> r.value in mounts && mounts[r.value].folderId == folderId && mounts[r.value].userId == userId
    ensures r.Ok? ==> forall id | id in mounts && mounts[id].folderId == folderId && mounts[id].userId == userId :: id == r.value
    ensures r == Err(DoesNotExist) <==>
      forall id | id in mounts :: !(mounts[id].folderId == folderId && mounts[id].userId == userId)
    ensures r.Ok? <==> |MountsOf(mounts, folderId, userId)| == 1
    ensures r == Err(MultipleObjectsReturned) <==> |MountsOf(mounts, folderId, userId)| > 1
  {
    var rows := MountsOf(mounts, folderId, userId);
    assert forall id :: id in rows <==> id in mounts && mounts[id].folderId == folderId && mounts[id].userId == userId;
    FindEntity(rows)
  }

  /** Ids of the public tokens of `folderId`. */
  function TokensOf(publicFolders: map<nat, PublicFolder>, folderId: nat): set<nat>
  {
    set id | id in publicFolders && publicFolders[id].folderId == folderId
  }

  /** The public token of `folderId` (findByFolder): found only when it is
      the folder's one token; DoesNotExist exactly when the folder has none. */
  function FindByFolder(publicFolders: map<nat, PublicFolder>, folderId: nat): (r: Result<nat>)
    ensures r.Ok? ==> r.value in publicFolders && publicFolders[r.value].folderId == folderId
    ensures r.Ok? ==> forall id | id in publicFolders && publicFolders[id].folderId == folderId :: id == r.value
    ensures r == Err(DoesNotExist) <==> forall id | id in publicFolders :: publicFolders[id].folderId != folderId
    ensures r.Ok? <==> |TokensOf(publicFolders, folderId)| == 1
    ensures r == Err(MultipleObjectsReturned) <==> |TokensOf(publicFolders, folderId)| > 1
  {
    var rows := TokensOf(publicFolders, folderId);
    assert forall id :: id in rows <==> id in publicFolders && publicFolders[id].folderId == folderId;
    FindEntity(rows)
  }

  /** True when some mount linked to share `shareId` is held by `userId`. */
  predicate SharedWith(mounts: map<nat, SharedFolder>, shareId: nat, userId: string)
  {
    exists m | m in mounts :: mounts[m].shareId == shareId && mounts[m].userId == userId
  }

  /** Ids of the shares owned by `owner` that reach `userId` through a mount
      (findByOwnerAndUser joins shares to mounts through the share link). */
  function SharesByOwnerAndUser(shares: map<nat, Share>, mounts: map<nat, SharedFolder>, owner: string, userId: string): (r: set<nat>)
    ensures forall id | id in r :: id in shares && shares[id].owner == owner
    ensures forall id | id in r :: SharedWith(mounts, id, userId)
    ensures forall id, m | id in shares && shares[id].owner == owner && m in mounts
                           && mounts[m].shareId == id && mounts[m].userId == userId :: id in r
  {
    set id | id in shares && shares[id].owner == owner && SharedWith(mounts, id, userId)
  }
}
