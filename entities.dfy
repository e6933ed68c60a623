/** The rows of the bookmarks database that the folder service reads and writes,
    the errors the mappers raise, and the values the service returns. */
module Entities {

  datatype Option<+T> = None | Some(value: T)

  /** The exceptions the folder service lets through: DoesNotExistException,
      MultipleObjectsReturnedException and UnsupportedOperation. */
  datatype Error = DoesNotExist | MultipleObjectsReturned | UnsupportedOperation

  datatype Result<+T> = Ok(value: T) | Err(error: Error) {
    predicate IsFailure() {
      Err?
    }

    function PropagateFailure<U>(): Result<U>
      requires Err?
    {
      Err(error)
    }

    function Extract(): T
      requires Ok?
    {
      value
    }
  }

  /** Kinds of node in the tree table: a folder, or a mounted shared folder. */
  datatype NodeType = FolderNode | ShareNode

  /** A tree entry is addressed by its kind and the id of its row. */
  datatype Node = Node(kind: NodeType, id: nat)

  /** Participant types of a share (user and group shares). */
  const TypeUser: int := 0
  const TypeGroup: int := 1

  /** A folder row; its parent is kept in the tree table, not here. */
  datatype Folder = Folder(id: nat, title: string, userId: string)

  /** A grant of `folderId` by `owner` to a user or a group. */
  datatype Share = Share(
    id: nat,
    folderId: nat,
    owner: string,
    participant: string,
    shareType: int,
    canWrite: bool,
    canShare: bool)

  /** A mount: the recipient's view of a shared folder, with its own title and
      a link to the share that created it. */
  datatype SharedFolder = SharedFolder(id: nat, folderId: nat, userId: string, title: string, shareId: nat)

  /** A public token of a folder; the token is the row id. */
  datatype PublicFolder = PublicFolder(id: nat, folderId: nat)

  /** What a caller sees of a folder: the folder itself, or the caller's mount of it. */
  datatype View = Owned(folder: Folder) | Mounted(mount: SharedFolder)

  /** Events handed to the event dispatcher. */
  datatype Event = CreateEvent(kind: NodeType, id: nat) | UpdateEvent(kind: NodeType, id: nat)
}
