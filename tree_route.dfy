/** `serializeNode` of app/api/documents/tree/route.ts: the JSON shape the
    tree endpoint sends for the tree `buildUserTree` returns. */
module TreeRoute {
  import opened Records
  import opened CompositeTree
  import opened TreeBuilder

  /** A `DocumentTreeNode` object: the node's fields without `content`, and a
      `children` array only when there is something to put in it. */
  datatype TreeJson = TreeJson(
    id: string,
    userId: string,
    title: string,
    docType: DocType,
    parentId: Option<string>,
    createdAt: Stamp,
    updatedAt: Stamp,
    children: Children)

  /** The optional `children` key. */
  datatype Children = Absent | Present(nodes: seq<TreeJson>)

  function Serialize(n: Node): (r: TreeJson)
    ensures r.id == n.doc.id && r.userId == n.doc.userId && r.title == n.doc.title
    ensures r.docType == n.doc.docType && r.parentId == n.doc.parentId
    ensures r.createdAt == n.doc.createdAt && r.updatedAt == n.doc.updatedAt
    ensures r.children.Present? <==> n.FolderNode? && |n.children| > 0
    ensures r.children.Present? ==> |r.children.nodes| == |n.children|
    decreases n
  {
    var kids :=
      if n.FolderNode? && |n.children| > 0 then
        Present(seq(|n.children|, i requires 0 <= i < |n.children| => Serialize(n.children[i])))
      else Absent;
    TreeJson(n.doc.id, n.doc.userId, n.doc.title, n.doc.docType, n.doc.parentId,
             n.doc.createdAt, n.doc.updatedAt, kids)
  }

  /** The ids of a JSON tree in document order. */
  function JsonIds(j: TreeJson): seq<string>
    decreases j, 1
  {
    match j.children
    case Absent => [j.id]
    case Present(cs) => [j.id] + JsonIdsAll(cs)
  }

  function JsonIdsAll(js: seq<TreeJson>): seq<string>
    decreases js, 0
  {
    if js == [] then [] else JsonIdsAll(js[..|js| - 1]) + JsonIds(js[|js| - 1])
  }

  /** The ids of a list of records, in order. */
  function Ids(rs: seq<Doc>): (r: seq<string>)
    ensures |r| == |rs| && forall i :: 0 <= i < |rs| ==> r[i] == rs[i].id
  {
    seq(|rs|, i requires 0 <= i < |rs| => rs[i].id)
  }

  lemma IdsAppend(a: seq<Doc>, b: seq<Doc>)
    ensures Ids(a + b) == Ids(a) + Ids(b)
  {
  }

  /** The JSON keeps the tree's pre-order: its ids read in document order are
      the ids `flattenTree` lists. */
  lemma {:induction false} SerializeKeepsOrder(n: Node)
    ensures JsonIds(Serialize(n)) == Ids(Flatten(n))
    decreases n, 1
  {
    var j := Serialize(n);
    if n.FolderNode? && |n.children| > 0 {
      SerializeAllKeepsOrder(n.children, j.children.nodes);
      IdsAppend([Record(n)], FlattenAll(n.children));
    } else if n.FolderNode? {
      assert FlattenAll(n.children) == [];
    }
  }

  lemma {:induction false} SerializeAllKeepsOrder(cs: seq<Node>, js: seq<TreeJson>)
    requires |js| == |cs| && forall i :: 0 <= i < |cs| ==> js[i] == Serialize(cs[i])
    ensures JsonIdsAll(js) == Ids(FlattenAll(cs))
    decreases cs, 0
  {
    if cs != [] {
      var k := |cs| - 1;
      SerializeAllKeepsOrder(cs[..k], js[..k]);
      SerializeKeepsOrder(cs[k]);
      IdsAppend(FlattenAll(cs[..k]), Flatten(cs[k]));
    }
  }

  /** The node with every file's content dropped. */
  function StripContent(n: Node): (r: Node)
    ensures r.doc == n.doc.(content := None)
    ensures r.FolderNode? <==> n.FolderNode?
    ensures r.FolderNode? ==> |r.children| == |n.children|
    decreases n
  {
    match n
    case FileNode(d) => FileNode(d.(content := None))
    case FolderNode(d, cs) =>
      FolderNode(d.(content := None), seq(|cs|, i requires 0 <= i < |cs| => StripContent(cs[i])))
  }

  /** File content never reaches the JSON: a tree and its content-free copy
      serialise alike. */
  lemma {:induction false} SerializeIgnoresContent(n: Node)
    ensures Serialize(StripContent(n)) == Serialize(n)
    decreases n
  {
    if n.FolderNode? {
      var s := StripContent(n);
      forall i | 0 <= i < |n.children| ensures Serialize(s.children[i]) == Serialize(n.children[i]) {
        SerializeIgnoresContent(n.children[i]);
      }
      if |n.children| > 0 {
        assert Serialize(s).children.nodes == Serialize(n).children.nodes;
      }
    }
  }

  /** The endpoint's response: the owner's tree under the synthetic root. */
  lemma TopLevelIsRoot(nodes: seq<Doc>, userId: string, h: map<string, nat>)
    requires RankedFromRoot(SpecArena(OwnedBy(nodes, userId)), h)
    ensures var j := Serialize(TreeOf(SpecArena(OwnedBy(nodes, userId)), h));
            j.id == "root" && j.title == "Root" && j.docType == Folder && j.parentId == None
  {
  }
}
