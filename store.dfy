/** The persistent state behind the folder service: the folder, share, mount
    and public-token tables, the tree table, the table of root folders and the
    group directory, with the mapper operations the service calls. Each
    operation says exactly which table it changes. */
module Store {
  import opened Entities
  import opened Tables
  import opened Tree

  class Store {
    var folders: map<nat, Folder>
    var shares: map<nat, Share>
    var mounts: map<nat, SharedFolder>
    var publicFolders: map<nat, PublicFolder>
    /** Parent folder of each tree node. */
    var tree: Edges
    /** Root folder id of each user. */
    var roots: map<string, nat>
    /** Members of each group, as the group directory lists them. */
    var groups: map<string, seq<string>>
    /** Next unused row id. */
    var nextId: nat

    /** Every row is stored under its own id, and every id is below `nextId`. */
    ghost predicate Valid()
      reads this
    {
      && (forall id | id in folders :: folders[id].id == id && id < nextId)
      && (forall id | id in shares :: shares[id].id == id && id < nextId)
      && (forall id | id in mounts :: mounts[id].id == id && id < nextId)
      && (forall id | id in publicFolders :: publicFolders[id].id == id && id < nextId)
    }

    constructor (groups: map<string, seq<string>>)
      ensures Valid()
      ensures folders == map[] && shares == map[] && mounts == map[] && publicFolders == map[]
      ensures tree == map[] && roots == map[] && this.groups == groups
    {
      folders, shares, mounts, publicFolders := map[], map[], map[], map[];
      tree, roots := map[], map[];
      this.groups := groups;
      nextId := 0;
    }

    method InsertFolder(title: string, userId: string) returns (folder: Folder)
      requires Valid()
      modifies this`folders, this`nextId
      ensures Valid()
      ensures folder == Folder(old(nextId), title, userId) && folder.id !in old(folders)
      ensures folders == old(folders)[folder.id := folder] && nextId == old(nextId) + 1
    {
      folder := Folder(nextId, title, userId);
      folders := folders[nextId := folder];
      nextId := nextId + 1;
    }

    /** Writes `folder` back to its row; a row that is gone stays gone. */
    method UpdateFolder(folder: Folder)
      requires Valid()
      modifies this`folders
      ensures Valid()
      ensures folders == if folder.id in old(folders) then old(folders)[folder.id := folder] else old(folders)
    {
      if folder.id in folders {
        folders := folders[folder.id := folder];
      }
    }

    method DeleteFolder(id: nat)
      requires Valid()
      modifies this`folders
      ensures Valid()
      ensures folders == old(folders) - {id}
    {
      folders := folders - {id};
    }

    method InsertShare(folderId: nat, owner: string, participant: string, shareType: int, canWrite: bool, canShare: bool)
      returns (share: Share)
      requires Valid()
      modifies this`shares, this`nextId
      ensures Valid()
      ensures share == Share(old(nextId), folderId, owner, participant, shareType, canWrite, canShare)
      ensures share.id !in old(shares)
      ensures shares == old(shares)[share.id := share] && nextId == old(nextId) + 1
    {
      share := Share(nextId, folderId, owner, participant, shareType, canWrite, canShare);
      shares := shares[nextId := share];
      nextId := nextId + 1;
    }

    /** Inserts a mount row already linked to its share. */
    method InsertMount(folderId: nat, userId: string, title: string, shareId: nat) returns (mount: SharedFolder)
      requires Valid()
      modifies this`mounts, this`nextId
      ensures Valid()
      ensures mount == SharedFolder(old(nextId), folderId, userId, title, shareId) && mount.id !in old(mounts)
      ensures mounts == old(mounts)[mount.id := mount] && nextId == old(nextId) + 1
    {
      mount := SharedFolder(nextId, folderId, userId, title, shareId);
      mounts := mounts[nextId := mount];
      nextId := nextId + 1;
    }

    method UpdateMount(mount: SharedFolder)
      requires Valid()
      modifies this`mounts
      ensures Valid()
      ensures mounts == if mount.id in old(mounts) then old(mounts)[mount.id := mount] else old(mounts)
    {
      if mount.id in mounts {
        mounts := mounts[mount.id := mount];
      }
    }

    /** Inserts a public token for `folderId`; the token is a fresh id. */
    method InsertPublicFolder(folderId: nat) returns (token: PublicFolder)
      requires Valid()
      modifies this`publicFolders, this`nextId
      ensures Valid()
      ensures token == PublicFolder(old(nextId), folderId) && token.id !in old(publicFolders)
      ensures publicFolders == old(publicFolders)[token.id := token] && nextId == old(nextId) + 1
    {
      token := PublicFolder(nextId, folderId);
      publicFolders := publicFolders[nextId := token];
      nextId := nextId + 1;
    }

    method DeletePublicFolder(id: nat)
      requires Valid()
      modifies this`publicFolders
      ensures Valid()
      ensures publicFolders == old(publicFolders) - {id}
    {
      publicFolders := publicFolders - {id};
    }

    /** TreeMapper::move: `node` now hangs under folder `parentId`. */
    method Move(node: Node, parentId: nat)
      requires Valid()
      modifies this`tree
      ensures Valid()
      ensures tree == old(tree)[node := parentId]
    {
      tree := tree[node := parentId];
    }

    /** TreeMapper::deleteEntry: the node leaves the tree and its own row goes
        with it (the folder row for a folder, the mount row for a mount). */
    method DeleteEntry(node: Node)
      requires Valid()
      modifies this`tree, this`folders, this`mounts
      ensures Valid()
      ensures tree == old(tree) - {node}
      ensures folders == if node.kind == FolderNode then old(folders) - {node.id} else old(folders)
      ensures mounts == if node.kind == ShareNode then old(mounts) - {node.id} else old(mounts)
    {
      tree := tree - {node};
      if node.kind == FolderNode {
        folders := folders - {node.id};
      } else {
        mounts := mounts - {node.id};
      }
    }

    /** TreeMapper::deleteShare: every mount made by the share leaves the tree
        and the mount table, then the share row is deleted. */
    method DeleteShare(shareId: nat) returns (r: Result<()>)
      requires Valid()
      modifies this`tree, this`mounts, this`shares
      ensures Valid()
      ensures shareId !in old(shares) ==>
        r == Err(DoesNotExist) && tree == old(tree) && mounts == old(mounts) && shares == old(shares)
      ensures shareId in old(shares) ==> (r == Ok(())
        && shares == old(shares) - {shareId}
        && (forall id :: id in mounts <==> id in old(mounts) && old(mounts)[id].shareId != shareId)
        && (forall id | id in mounts :: mounts[id] == old(mounts)[id])
        && (forall n :: n in tree <==>
              n in old(tree) && !(n.kind == ShareNode && n.id in old(mounts) && old(mounts)[n.id].shareId == shareId))
        && (forall n | n in tree :: tree[n] == old(tree)[n]))
    {
      if shareId !in shares {
        return Err(DoesNotExist);
      }
      var made := set id | id in mounts && mounts[id].shareId == shareId;
      tree := map n | n in tree && !(n.kind == ShareNode && n.id in made) :: tree[n];
      mounts := map id | id in mounts && id !in made :: mounts[id];
      shares := shares - {shareId};
      r := Ok(());
    }

    /** TreeMapper::changeFolderOwner: `folderId` and every folder below it now belong to `newUserId`. */
    method ChangeFolderOwner(folderId: nat, newUserId: string)
      requires Valid()
      modifies this`folders
      ensures Valid()
      ensures folders == Reowned(old(folders), tree, folderId, newUserId)
    {
      folders := Reowned(folders, tree, folderId, newUserId);
    }
  }
}
