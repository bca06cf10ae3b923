/** The document record shared by the tree engine and the document table:
    the `DocumentNode` shape of app/lib/composite.ts plus the `content` column. */
module Records {

  datatype Option<+T> = None | Some(value: T)

  /** `type: 'file' | 'folder'` */
  datatype DocType = File | Folder

  /** Timestamps are abstract clock readings: the model only needs to compare them. */
  type Stamp = nat

  datatype Doc = Doc(
    id: string,
    userId: string,
    title: string,
    docType: DocType,
    content: Option<string>,
    parentId: Option<string>,
    createdAt: Stamp,
    updatedAt: Stamp)

  /** JavaScript truthiness of a `string | null` (or missing) parent reference:
      `null`, `undefined` and `''` are all falsy. */
  predicate Truthy(p: Option<string>)
  {
    p.Some? && p.value != ""
  }

  /** All records carry pairwise different ids. */
  ghost predicate DistinctIds(ns: seq<Doc>)
  {
    forall i, j :: 0 <= i < |ns| && 0 <= j < |ns| && ns[i].id == ns[j].id ==> i == j
  }

  /** The records that belong to one owner, in their original order. */
  function OwnedBy(ns: seq<Doc>, userId: string): (r: seq<Doc>)
    ensures forall d :: d in r <==> d in ns && d.userId == userId
  {
    if ns == [] then []
    else (if ns[0].userId == userId then [ns[0]] else []) + OwnedBy(ns[1..], userId)
  }
}
