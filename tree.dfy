/** The tree table: every non-root node has one parent folder. The two queries
    the folder service relies on are reachability (hasDescendant) and the
    rewrite of owners under a folder (changeFolderOwner). */
module Tree {
  import opened Entities

  /** Parent edges: a node maps to the id of its parent folder. */
  type Edges = map<Node, nat>

  /** Walking up from `node`, folder `ancestor` is met within `fuel` + 1 steps. */
  function Reaches(tree: Edges, ancestor: nat, node: Node, fuel: nat): bool
    decreases fuel
  {
    node in tree
    && (tree[node] == ancestor
        || (fuel > 0 && Reaches(tree, ancestor, Node(FolderNode, tree[node]), fuel - 1)))
  }

  /** `node` lies strictly below folder `ancestor`. A walk longer than the
      number of edges repeats a node, so `|tree|` steps are enough. */
  function HasDescendant(tree: Edges, ancestor: nat, node: Node): (r: bool)
    ensures r ==> node in tree
    ensures node in tree && tree[node] == ancestor ==> r
  {
    Reaches(tree, ancestor, node, |tree|)
  }

  /** `path` follows parent edges: each entry's parent folder is the next entry. */
  ghost predicate IsParentChain(tree: Edges, path: seq<Node>)
  {
    forall i | 0 <= i < |path| - 1 :: path[i] in tree && path[i + 1] == Node(FolderNode, tree[path[i]])
  }

  /** A walk that `Reaches` accepts is a parent chain from `node` up to the ancestor. */
  lemma {:induction false} ReachesHasChain(tree: Edges, ancestor: nat, node: Node, fuel: nat) returns (path: seq<Node>)
    requires Reaches(tree, ancestor, node, fuel)
    ensures 2 <= |path| <= fuel + 2
    ensures path[0] == node && path[|path| - 1] == Node(FolderNode, ancestor)
    ensures IsParentChain(tree, path)
    decreases fuel
  {
    var up := Node(FolderNode, tree[node]);
    if tree[node] == ancestor {
      path := [node, up];
    } else {
      var rest := ReachesHasChain(tree, ancestor, up, fuel - 1);
      path := [node] + rest;
      assert forall i | 1 <= i < |path| - 1 :: path[i] == rest[i - 1] && path[i + 1] == rest[i];
    }
  }

  /** Conversely, a parent chain short enough for the fuel is found by `Reaches`. */
  lemma {:induction false} ChainReaches(tree: Edges, path: seq<Node>, fuel: nat)
    requires 2 <= |path| <= fuel + 2
    requires IsParentChain(tree, path)
    requires path[|path| - 1].kind == FolderNode
    ensures Reaches(tree, path[|path| - 1].id, path[0], fuel)
    decreases fuel
  {
    assert path[0] in tree && path[1] == Node(FolderNode, tree[path[0]]);
    if |path| > 2 {
      var rest := path[1..];
      ChainReaches(tree, rest, fuel - 1);
    }
  }

  /** More nodes drawn from `keys` than `keys` has: two of them are equal. */
  lemma {:induction false} Pigeonhole(s: seq<Node>, keys: set<Node>) returns (i: nat, j: nat)
    requires forall k | 0 <= k < |s| :: s[k] in keys
    requires |s| > |keys|
    ensures i < j < |s| && s[i] == s[j]
  {
    var last := s[|s| - 1];
    var init := s[..|s| - 1];
    if k :| 0 <= k < |init| && init[k] == last {
      i, j := k, |s| - 1;
    } else {
      i, j := Pigeonhole(init, keys - {last});
    }
  }

  /** A parent chain that passes a node twice can skip the loop between: every
      chain can be cut down to one whose non-final nodes are distinct, so at
      most `|tree|` + 1 nodes long. */
  lemma {:induction false} ShortenChain(tree: Edges, path: seq<Node>) returns (short: seq<Node>)
    requires 2 <= |path| && IsParentChain(tree, path)
    ensures 2 <= |short| <= |tree| + 1
    ensures short[0] == path[0] && short[|short| - 1] == path[|path| - 1]
    ensures IsParentChain(tree, short)
    decreases |path|
  {
    if |path| <= |tree| + 1 {
      return path;
    }
    var i, j := Pigeonhole(path[..|path| - 1], tree.Keys);
    var cut := path[..i] + path[j..];
    forall k | 0 <= k < |cut| - 1
      ensures cut[k] in tree && cut[k + 1] == Node(FolderNode, tree[cut[k]])
    {
      if k + 1 < i {
        assert cut[k] == path[k] && cut[k + 1] == path[k + 1];
      } else if k + 1 == i {
        assert cut[k] == path[k] && cut[k + 1] == path[j] == path[i];
      } else {
        assert cut[k] == path[k + j - i] && cut[k + 1] == path[k + 1 + j - i];
      }
    }
    assert cut[0] == path[0] by {
      if i == 0 { assert cut[0] == path[j]; }
    }
    short := ShortenChain(tree, cut);
  }

  /** `hasDescendant` is reachability over parent edges: it holds exactly when
      some parent chain, of any length, leads from `node` up to `ancestor`. */
  lemma HasDescendantFromChain(tree: Edges, path: seq<Node>)
    requires 2 <= |path| && IsParentChain(tree, path)
    requires path[|path| - 1].kind == FolderNode
    ensures HasDescendant(tree, path[|path| - 1].id, path[0])
  {
    var short := ShortenChain(tree, path);
    ChainReaches(tree, short, |tree|);
  }

  /** Folder `id` is `folderId` itself or lies below it. */
  predicate InSubtree(tree: Edges, folderId: nat, id: nat)
  {
    id == folderId || HasDescendant(tree, folderId, Node(FolderNode, id))
  }

  /** The folder table after the owner of `folderId` and of every folder below
      it is rewritten to `newUserId`. */
  function Reowned(folders: map<nat, Folder>, tree: Edges, folderId: nat, newUserId: string): (r: map<nat, Folder>)
    ensures r.Keys == folders.Keys
    ensures forall id | id in folders ::
      r[id].id == folders[id].id && r[id].title == folders[id].title
      && r[id].userId == (if InSubtree(tree, folderId, id) then newUserId else folders[id].userId)
  {
    map id | id in folders :: if InSubtree(tree, folderId, id) then folders[id].(userId := newUserId) else folders[id]
  }
}
