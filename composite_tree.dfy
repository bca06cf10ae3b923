/** The composite document tree of app/lib/composite.ts as a value, and the
    read-only operations over it: `flattenTree`, `findNode`, `getNodePath`,
    `hasCircularReference` and `isDescendant`. */
module CompositeTree {
  import opened Records

  /** `FileNode` / `FolderNode`: a folder owns its children, in order. */
  datatype Node = FileNode(doc: Doc) | FolderNode(doc: Doc, children: seq<Node>)

  /** The synthetic root `new FolderNode('root', '', 'Root', null, '', '')`. */
  const RootDoc := Doc("root", "", "Root", Folder, None, None, 0, 0)

  /** `node` occurs somewhere in the tree rooted at `n` (`n` included). */
  ghost predicate IsSubtree(k: Node, n: Node)
  {
    k == n || (n.FolderNode? && exists i :: 0 <= i < |n.children| && IsSubtree(k, n.children[i]))
  }

  /** Some node with this id occurs in the tree rooted at `n` (`n` included). */
  ghost predicate Occurs(n: Node, id: string)
  {
    n.doc.id == id || (n.FolderNode? && exists i :: 0 <= i < |n.children| && Occurs(n.children[i], id))
  }

  /** Some node with this id lies strictly below `n`: a proper descendant. */
  ghost predicate Below(n: Node, id: string)
  {
    n.FolderNode? && exists i :: 0 <= i < |n.children| && Occurs(n.children[i], id)
  }

  // ---------------------------------------------------------------------------
  // flattenTree

  /** The flat record `flattenTree` pushes for one node: a file keeps its
      content, a folder record has none. */
  function Record(n: Node): (r: Doc)
    ensures r.id == n.doc.id && r.title == n.doc.title && r.parentId == n.doc.parentId
    ensures r.docType == (if n.FileNode? then File else Folder)
    ensures r.content == (if n.FileNode? then n.doc.content else None)
  {
    match n
    case FileNode(d) => d.(docType := File)
    case FolderNode(d, _) => d.(docType := Folder, content := None)
  }

  /** The pre-order listing: the node's own record, then its children's
      listings in order. */
  function Flatten(n: Node): seq<Doc>
    decreases n, 1
  {
    [Record(n)] + (if n.FolderNode? then FlattenAll(n.children) else [])
  }

  function FlattenAll(cs: seq<Node>): seq<Doc>
    decreases cs, 0
  {
    if cs == [] then [] else FlattenAll(cs[..|cs| - 1]) + Flatten(cs[|cs| - 1])
  }

  /** `DocumentTreeBuilder.flattenTree`: an accumulator that receives the
      node's record and then, child by child, the child's flattening. */
  method FlattenTree(node: Node) returns (result: seq<Doc>)
    ensures result == Flatten(node)
    decreases node
  {
    result := [Record(node)];
    if node.FolderNode? {
      var i := 0;
      while i < |node.children|
        invariant 0 <= i <= |node.children|
        invariant result == [Record(node)] + FlattenAll(node.children[..i])
      {
        var sub := FlattenTree(node.children[i]);
        assert node.children[..i + 1][..i] == node.children[..i];
        result := result + sub;
        i := i + 1;
      }
      assert node.children[..i] == node.children;
    }
  }

  /** Every record of a flattening starts the flattening of a node of the tree. */
  lemma {:induction false} FlattenRecordsComeFromNodes(n: Node, r: Doc)
    requires r in Flatten(n)
    ensures exists k :: IsSubtree(k, n) && r == Record(k)
    decreases n, 1
  {
    if r != Record(n) {
      assert n.FolderNode? && r in FlattenAll(n.children);
      var i := FlattenAllMember(n.children, r);
      FlattenRecordsComeFromNodes(n.children[i], r);
      var k :| IsSubtree(k, n.children[i]) && r == Record(k);
      assert IsSubtree(k, n);
    }
  }

  lemma {:induction false} FlattenAllMember(cs: seq<Node>, r: Doc) returns (i: nat)
    requires r in FlattenAll(cs)
    ensures i < |cs| && r in Flatten(cs[i])
    decreases cs
  {
    var last := |cs| - 1;
    if r in Flatten(cs[last]) {
      i := last;
    } else {
      i := FlattenAllMember(cs[..last], r);
      assert cs[..last][i] == cs[i];
    }
  }

  /** Folder records in a flattening never carry content; file records carry
      exactly the content of their node. */
  lemma FlattenedFoldersHaveNoContent(n: Node, r: Doc)
    requires r in Flatten(n)
    ensures r.docType == Folder ==> r.content == None
    ensures r.docType == File ==> exists k :: IsSubtree(k, n) && k.FileNode? && r.content == k.doc.content
  {
    FlattenRecordsComeFromNodes(n, r);
  }

  // ---------------------------------------------------------------------------
  // findNode

  /** `findNodeRecursive`: depth-first, the node itself before its children. */
  function FindIn(n: Node, id: string): (r: Option<Node>)
    ensures r.Some? <==> Occurs(n, id)
    ensures r.Some? ==> r.value.doc.id == id && IsSubtree(r.value, n)
    decreases n, 1
  {
    if n.doc.id == id then Some(n)
    else if n.FolderNode? then
      var r := FindAmong(n.children, id);
      assert r.Some? ==> exists i :: 0 <= i < |n.children| && IsSubtree(r.value, n.children[i]);
      r
    else None
  }

  /** The loop over `children` in `findNodeRecursive` and `findNode`: the
      first child whose subtree holds the id wins. */
  function FindAmong(cs: seq<Node>, id: string): (r: Option<Node>)
    ensures r.Some? <==> exists i :: 0 <= i < |cs| && Occurs(cs[i], id)
    ensures r.Some? ==> r.value.doc.id == id && exists i :: 0 <= i < |cs| && IsSubtree(r.value, cs[i])
    decreases cs, 0
  {
    if cs == [] then None
    else
      match FindIn(cs[0], id)
      case Some(k) => Some(k)
      case None =>
        var r := FindAmong(cs[1..], id);
        assert forall i :: 0 < i < |cs| ==> cs[i] == cs[1..][i - 1];
        r
  }

  /** `DocumentTreeUtils.findNode`: searches the root's children, never the
      root itself. */
  function FindNode(tree: Node, id: string): (r: Option<Node>)
    requires tree.FolderNode?
    ensures r.Some? <==> Below(tree, id)
    ensures r.Some? ==> r.value.doc.id == id && IsSubtree(r.value, tree)
  {
    FindAmong(tree.children, id)
  }

  // ---------------------------------------------------------------------------
  // isDescendant and hasCircularReference

  /** `isDescendant(node, target)`: a file has no descendants; a folder checks
      each child's id and then recurses into it. */
  function IsDescendant(n: Node, target: string): (r: bool)
    ensures r <==> Below(n, target)
    decreases n, 1
  {
    n.FolderNode? && AnyChildLeadsTo(n.children, target)
  }

  function AnyChildLeadsTo(cs: seq<Node>, target: string): (r: bool)
    ensures r <==> exists i :: 0 <= i < |cs| && Occurs(cs[i], target)
    decreases cs, 0
  {
    if cs == [] then false
    else if cs[0].doc.id == target || IsDescendant(cs[0], target) then true
    else
      var r := AnyChildLeadsTo(cs[1..], target);
      assert forall i :: 0 < i < |cs| ==> cs[i] == cs[1..][i - 1];
      r
  }

  /** `hasCircularReference(tree, nodeId, newParentId)`: false for a missing
      or empty new parent, for `newParentId == nodeId`, and when `nodeId` is not
      found below the root; otherwise whether the new parent lies strictly
      below the first node found with `nodeId`. */
  function HasCircularReference(tree: Node, nodeId: string, newParentId: Option<string>): (r: bool)
    requires tree.FolderNode?
    ensures !Truthy(newParentId) ==> !r
    ensures Truthy(newParentId) && newParentId.value == nodeId ==> !r
    ensures !Below(tree, nodeId) ==> !r
    ensures r <==> Truthy(newParentId) && newParentId.value != nodeId &&
                   exists k :: FindNode(tree, nodeId) == Some(k) && Below(k, newParentId.value)
  {
    if !Truthy(newParentId) || nodeId == newParentId.value then false
    else
      match FindNode(tree, nodeId)
      case None => false
      case Some(k) => IsDescendant(k, newParentId.value)
  }

  // ---------------------------------------------------------------------------
  // getNodePath

  /** The titles from `n` down to the first node (depth first) with the target
      id, or None when no such node exists. */
  function PathTo(n: Node, target: string): (r: Option<seq<string>>)
    ensures r.Some? <==> Occurs(n, target)
    ensures r.Some? ==> |r.value| >= 1 && r.value[0] == n.doc.title &&
                        r.value[|r.value| - 1] == FindIn(n, target).value.doc.title
    decreases n, 1
  {
    if n.doc.id == target then Some([n.doc.title])
    else if n.FolderNode? then
      match PathAmong(n.children, target)
      case None => None
      case Some(p) => Some([n.doc.title] + p)
    else None
  }

  function PathAmong(cs: seq<Node>, target: string): (r: Option<seq<string>>)
    ensures r.Some? <==> exists i :: 0 <= i < |cs| && Occurs(cs[i], target)
    ensures r.Some? ==> |r.value| >= 1 && r.value[|r.value| - 1] == FindAmong(cs, target).value.doc.title
    decreases cs, 0
  {
    if cs == [] then None
    else
      match PathTo(cs[0], target)
      case Some(p) => Some(p)
      case None =>
        var r := PathAmong(cs[1..], target);
        assert forall i :: 0 < i < |cs| ==> cs[i] == cs[1..][i - 1];
        r
  }

  function Reverse<T>(s: seq<T>): (r: seq<T>)
    ensures |r| == |s|
  {
    if s == [] then [] else Reverse(s[1..]) + [s[0]]
  }

  lemma {:induction false} ReverseAppend<T>(s: seq<T>, t: seq<T>)
    ensures Reverse(s + t) == Reverse(t) + Reverse(s)
  {
    if s == [] {
      assert s + t == t;
    } else {
      assert (s + t)[1..] == s[1..] + t;
      ReverseAppend(s[1..], t);
    }
  }

  lemma {:induction false} ReverseReverse<T>(s: seq<T>)
    ensures Reverse(Reverse(s)) == s
  {
    if s != [] {
      ReverseAppend(Reverse(s[1..]), [s[0]]);
      ReverseReverse(s[1..]);
      assert [s[0]] + s[1..] == s;
    }
  }

  /** `Array.prototype.join(sep)`. */
  function Join(parts: seq<string>, sep: string): string
  {
    if |parts| == 0 then ""
    else if |parts| == 1 then parts[0]
    else parts[0] + sep + Join(parts[1..], sep)
  }

  /** `buildPathRecursive`: on success the shared `path` array has received
      the titles from the target up to `node` (deepest first); on failure it
      is left as it was. */
  method BuildPathRecursive(node: Node, targetId: string, path: seq<string>)
    returns (found: bool, path': seq<string>)
    ensures found <==> Occurs(node, targetId)
    ensures path' == if found then path + Reverse(PathTo(node, targetId).value) else path
    decreases node
  {
    if node.doc.id == targetId {
      return true, path + [node.doc.title];
    }
    if node.FolderNode? {
      var i := 0;
      while i < |node.children|
        invariant 0 <= i <= |node.children|
        invariant PathAmong(node.children, targetId) == PathAmong(node.children[i..], targetId)
      {
        var sub;
        found, sub := BuildPathRecursive(node.children[i], targetId, path);
        if found {
          var p := PathTo(node.children[i], targetId).value;
          ReverseAppend([node.doc.title], p);
          return true, sub + [node.doc.title];
        }
        assert node.children[i..][1..] == node.children[i + 1..];
        i := i + 1;
      }
    }
    return false, path;
  }

  /** `getNodePath`: the titles from the root down to the target joined with
      `/`, or None when the target does not occur (the root itself included). */
  method GetNodePath(tree: Node, nodeId: string) returns (r: Option<string>)
    ensures r.Some? <==> Occurs(tree, nodeId)
    ensures r.Some? ==> r == Some(Join(PathTo(tree, nodeId).value, "/"))
  {
    var found, path := BuildPathRecursive(tree, nodeId, []);
    if found {
      ReverseReverse(PathTo(tree, nodeId).value);
      assert [] + Reverse(PathTo(tree, nodeId).value) == Reverse(PathTo(tree, nodeId).value);
      r := Some(Join(Reverse(path), "/"));
    } else {
      r := None;
    }
  }

  /** The path `getNodePath` joins starts at the tree's own title and ends at
      the title of the node `findNode` would return for the same id. */
  lemma PathEndsAtFoundNode(tree: Node, nodeId: string)
    requires tree.FolderNode? && tree.doc.id != nodeId && Below(tree, nodeId)
    ensures PathTo(tree, nodeId).Some?
    ensures var p := PathTo(tree, nodeId).value;
            |p| >= 2 && p[0] == tree.doc.title && p[|p| - 1] == FindNode(tree, nodeId).value.doc.title
  {
  }
}
