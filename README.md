# Document-tree engine

A model of the engine behind a Markdown notes application. Each user's documents are stored as flat rows in the `markdown_documents` table. Every row is a `file` or a `folder` and points to its parent through `parent_id`. The engine does four things:

- It turns those rows into a folder/file tree under a synthetic `root` folder and walks the tree to find nodes, build title paths and guard moves (app/lib/composite.ts).
- It validates create and update requests, and reads and writes the owner-scoped table, including the partial `UPDATE` whose `$n` placeholders are numbered by a counter and the recursive query that guards a move (app/lib/documents.ts).
- It projects the built tree to the JSON the tree endpoint returns (app/api/documents/tree/route.ts).
- It decides, for each request path and whether a session token is present, to let the request through, redirect it, or answer 401 (app/middleware.ts).

Modules, one per part of the program:

- `Records`: the `Document` row shared by all parts.
- `CompositeTree`: the `FileNode`/`FolderNode` tree, `flattenTree`, and `DocumentTreeUtils`.
- `TreeBuilder`: `buildTree`/`buildUserTree`, and the `FolderNode` child-list operations on the builder's state. That state is a `DocumentTree` class holding the builder's `nodeMap` and one child-id list per folder.
- `TreeRoundTrip`: flattening a built tree gives back the input.
- `DocumentValidation`: the two input validators, with JavaScript's `trim`.
- `Hierarchy`: child links, reachability, the recursive query of `checkCircularReference`, and the corrected guard.
- `DocumentStore`: the table as a `Table` class, the `UPDATE` builder and its meaning, and the move route.
- `TreeRoute`: `serializeNode`.
- `Middleware`: the request gate.
- `CycleFindings`: the two cycle checks compared on a three-row fixture.

Timestamps are a natural-number clock. Every write reads the clock for `NOW()` and then advances it. A `parent_id` counts as set only when it is present and non-empty (JavaScript truthiness), which is the `Truthy` predicate.

The code and the expected behaviour disagree on how moves are guarded. A move into a document's own subtree, and a move of a document under itself, should both be refused as circular. `checkCircularReference` as written does neither. The model keeps the code's check as written (`Hierarchy.CheckCircularReference`) and proves the discrepancy. The move route is modelled twice. `DocumentStore.Table.MoveRequestAsWritten` calls the check as written, and on a three-row example it moves a folder into its own child and leaves a cycle behind. `DocumentStore.Table.MoveRequest` is the same route with the corrected guard (`Hierarchy.WouldCreateCycle`), and every move it makes keeps the hierarchy acyclic. See "## Findings".

## Model

| member | source | states |
|---|---|---|
| Records.OwnedBy | app/lib/composite.ts:113 | keeps exactly the records whose `user_id` is the given user |
| CompositeTree.Record | app/lib/composite.ts:121-141 | the flat record of a node keeps its id, title and parent; its type follows the node kind; content is kept for a file and absent for a folder |
| CompositeTree.FlattenTree | app/lib/composite.ts:118-151 | the imperative flattening (push own record, then append each child's flattening) equals the pre-order `Flatten`: own record first, then the children's flattenings in order |
| CompositeTree.FlattenRecordsComeFromNodes | app/lib/composite.ts:118-151 | every record in a flattening is the record of some node of that subtree |
| CompositeTree.FlattenedFoldersHaveNoContent | app/lib/composite.ts:121-141 | in a flattening, folder records carry no content, and a file record carries the content of a file node of the tree |
| CompositeTree.FindIn | app/lib/composite.ts:166-177 | `findNodeRecursive` finds a node exactly when the id occurs in the subtree (the node itself included); the node found has that id and lies in the subtree |
| CompositeTree.FindAmong | app/lib/composite.ts:159-163 | the loop over siblings finds a node exactly when the id occurs in one of them; the node found has that id and lies under one of them |
| CompositeTree.FindNode | app/lib/composite.ts:157-164 | `findNode` searches only below the root: it succeeds exactly when the id occurs strictly below the root, and the node it returns has that id |
| CompositeTree.IsDescendant | app/lib/composite.ts:215-225 | `isDescendant(node, t)` holds exactly when `t` occurs strictly below `node`; a file has no descendants |
| CompositeTree.AnyChildLeadsTo | app/lib/composite.ts:219-222 | the child loop holds exactly when the target occurs in one of the children's subtrees |
| CompositeTree.HasCircularReference | app/lib/composite.ts:205-213 | false for an absent or empty parent, for a parent equal to the node, and for a node not found below the root; otherwise true exactly when the new parent lies strictly below the found node |
| CompositeTree.PathTo | app/lib/composite.ts:186-202 | a title path exists exactly when the target occurs in the subtree; it starts with the subtree's own title and ends with the found node's title |
| CompositeTree.PathAmong | app/lib/composite.ts:192-199 | the path through the children exists exactly when the target occurs under one of them, and it ends with the found node's title |
| CompositeTree.BuildPathRecursive | app/lib/composite.ts:186-202 | returns true exactly when the target occurs in the subtree; it then appends the root-to-target titles reversed (target first) to the path and otherwise leaves the path unchanged |
| CompositeTree.GetNodePath | app/lib/composite.ts:180-184 | returns a path exactly when the target occurs in the tree, and that path is the titles from the tree's own title (`Root`) down to the target, joined with `/` |
| CompositeTree.PathEndsAtFoundNode | app/lib/composite.ts:180-202 | for a target strictly below the root, the path has at least two titles, begins with the root's title and ends with the title of the node `findNode` returns |
| CompositeTree.ReverseReverse | app/lib/composite.ts:183 | reversing the path the recursion builds (target first) twice gives it back, so `path.reverse()` yields root-first order |
| TreeBuilder.IdMap | app/lib/composite.ts:67-92 | `nodeMap` has a key exactly for each id in the input |
| TreeBuilder.IdMapKeepsLast | app/lib/composite.ts:91 | `set` overwrites: the record kept under an id is the last input record with that id |
| TreeBuilder.KidsOf | app/lib/composite.ts:95-106 | every child attached to a slot comes from an input record whose parent resolves to that slot |
| TreeBuilder.Without | app/lib/composite.ts:47-49 | the filtered child list holds exactly the old children other than the removed id |
| TreeBuilder.WithoutConcat | app/lib/composite.ts:47-49 | removal distributes over concatenation, so the remaining children keep their order |
| TreeBuilder.WithoutCounts | app/lib/composite.ts:47-49 | removal deletes every occurrence of the id and keeps every other child with its multiplicity |
| TreeBuilder.DocumentTree.constructor | app/lib/composite.ts:63-64 | an empty `nodeMap` and a synthetic root with no children |
| TreeBuilder.DocumentTree.Register | app/lib/composite.ts:91 | `nodeMap.set` stores the record under its id; a folder gets a fresh empty child list and a file has none |
| TreeBuilder.DocumentTree.AddChild | app/lib/composite.ts:43-45 | appends the child id to the parent's list and changes nothing else |
| TreeBuilder.DocumentTree.RemoveChild | app/lib/composite.ts:47-49 | replaces the parent's list by the list without that id and changes nothing else |
| TreeBuilder.DocumentTree.GetChild | app/lib/composite.ts:51-53 | finds a child exactly when the id is in the parent's list, and returns that child's record |
| TreeBuilder.DocumentTree.HasChildren | app/lib/composite.ts:55-57 | holds exactly when the child list is non-empty |
| TreeBuilder.RegisterAll | app/lib/composite.ts:67-92 | the first pass leaves `nodeMap` holding the last record of each input id and an empty child list for each folder and the root |
| TreeBuilder.AttachAll | app/lib/composite.ts:95-106 | the second pass attaches every record, in input order, under the root when its parent is falsy or under its parent when that is a registered folder, giving `SpecArena(nodes)` |
| TreeBuilder.BuildTree | app/lib/composite.ts:62-109 | the two passes (register every record, then attach each record in input order) produce exactly the arena `SpecArena(nodes)`, which is well formed |
| TreeBuilder.BuildUserTree | app/lib/composite.ts:112-115 | builds the tree of the owner's records only, and every record in it belongs to that owner |
| TreeBuilder.SpecArenaValid | app/lib/composite.ts:62-109 | the built arena has a root list, child lists only for folders, and only registered children |
| TreeBuilder.KidsOfMembers | app/lib/composite.ts:95-106 | an id is a child of a slot exactly when some input record with that id attaches there |
| TreeBuilder.RootAdoptsParentless | app/lib/composite.ts:103-105 | every record with a falsy `parent_id` is a child of the synthetic root |
| TreeBuilder.FolderAdoptsChild | app/lib/composite.ts:98-102 | a record whose parent resolves to a folder in the input is among that folder's children |
| TreeBuilder.OrphanDropped | app/lib/composite.ts:98-102 | a record whose parent is missing or is a file appears in no child list at all |
| TreeBuilder.KidsKeepInputOrder | app/lib/composite.ts:95-106 | two records attached to the same folder appear in its children in their input order |
| TreeBuilder.UserTreeIsOwners | app/lib/composite.ts:112-115 | every record in the user tree has that user's `user_id` |
| TreeBuilder.Expand | app/lib/composite.ts:30-32 | the node of an id the root reaches carries its record, and is a file node exactly when the record is a file; only ids reached from the root need a height |
| TreeBuilder.TreeOf | app/lib/composite.ts:64 | the built tree is a folder carrying the synthetic root record (`root`, `Root`) with one child per root-list entry; it needs heights only for what the root reaches |
| TreeBuilder.SpecArenaParentLinked | app/lib/composite.ts:95-106 | with distinct ids every listed child sits in the list its own `parent_id` selects: the root's exactly when that parent is falsy, otherwise the named folder's |
| TreeBuilder.RankingExists | app/lib/composite.ts:62-109 | with distinct ids, whatever parent cycles the input holds, the ids the root reaches can be ranked, so `buildTree` returns a finite tree and every traversal of it ends |
| TreeBuilder.ParentCycleDropped | app/lib/composite.ts:95-106 | with distinct ids a record on a parent cycle, or hanging below one, is attached only under records of the cycle and appears nowhere below the synthetic root |
| TreeRoundTrip.ArenaFacts | app/lib/composite.ts:62-109 | for distinct ids and parents that resolve to folders, every record is registered as itself; root children are exactly the parentless records; a folder's children are exactly the records naming it as parent |
| TreeRoundTrip.KidsDistinct | app/lib/composite.ts:95-106 | with distinct input ids, no folder's child list repeats an id |
| TreeRoundTrip.SubtreeCount | app/lib/composite.ts:118-151 | flattening a subtree lists each input record occurring in it exactly once and nothing else |
| TreeRoundTrip.Coverage | app/lib/composite.ts:95-106 | every registered record is reached from one of the root's children |
| TreeRoundTrip.RoundTrip | app/lib/composite.ts:62-151 | for distinct ids, acyclic parents, parents that resolve to folders and folders stored without content (`flattenTree` drops a folder's content, composite.ts:133-141), `flattenTree(buildTree(nodes))` is the root record followed by a permutation of `nodes` |
| DocumentValidation.TrimStart | app/lib/documents.ts:144 | removes a leading run of JavaScript white space, and what remains does not start with white space |
| DocumentValidation.TrimEnd | app/lib/documents.ts:144 | removes a trailing run of JavaScript white space, and what remains does not end with white space |
| DocumentValidation.TrimIsInnerSlice | app/lib/documents.ts:144 | `trim()` is an inner slice with only white space cut on both sides, and it neither starts nor ends with white space |
| DocumentValidation.TrimEmptyIffAllSpace | app/lib/documents.ts:144 | `title.trim()` is empty exactly when the title is all white space |
| DocumentValidation.ValidateCreate | app/lib/documents.ts:143-153 | the title error exactly for an all-white-space title, whatever the type; otherwise the folder-content error exactly for a folder with truthy content; otherwise no error |
| DocumentValidation.EmptyFolderContentPasses | app/lib/documents.ts:148 | a folder whose content is the empty string passes |
| DocumentValidation.ValidateUpdate | app/lib/documents.ts:155-161 | the folder error exactly when content is supplied (even empty) and the current type is folder |
| DocumentValidation.UpdateIgnoresTitleAndParent | app/lib/documents.ts:155-161 | the update check never depends on the title or the parent |
| Hierarchy.ChildrenOf | app/lib/documents.ts:182-185 | one step of the recursive query: the owner's rows whose parent is in the set |
| Hierarchy.Closure | app/lib/documents.ts:174-186 | the fixpoint of the recursive query contains its seed, stays within the table and is closed under child links |
| Hierarchy.ClosureSound | app/lib/documents.ts:174-186 | everything the fixpoint adds is reachable by child links from the seed |
| Hierarchy.ClosedHoldsPaths | app/lib/documents.ts:182-185 | a child path that starts in a set closed under child links stays in it |
| Hierarchy.Descendants | app/lib/documents.ts:174-186 | the `descendants` relation of the query holds exactly the owner's rows reachable by child links from the seed (the seed itself included) |
| Hierarchy.DescendantsMeaning | app/lib/documents.ts:174-186 | seeded with an owner row, the fixpoint is exactly its subtree; an unknown or foreign seed has no subtree |
| Hierarchy.CheckCircularReference | app/lib/documents.ts:164-194 | as written: false for an absent or empty parent or a parent equal to the node; otherwise true exactly when the node lies in the subtree of the new parent; true only if the new parent is an owner row |
| Hierarchy.WouldCreateCycle | app/lib/documents.ts:164-194 | corrected guard: true exactly when a parent is given and it lies in the node's own subtree, the node itself included |
| Hierarchy.Reparent | app/lib/documents.ts:122-128 | the move changes only the moved row, whose parent becomes the new one and whose owner is kept |
| Hierarchy.CycleThroughMovedRow | app/lib/documents.ts:122-128 | any cycle after a move passes through the moved row, and then the new parent lay in the moved row's subtree before the move |
| Hierarchy.MoveKeepsAcyclic | app/lib/documents.ts:117-129 | a `moveDocument` that the corrected guard lets through keeps an acyclic hierarchy acyclic |
| DocumentStore.Supplied | app/lib/documents.ts:70-86 | the supplied columns are exactly the fields present in the request, in the order title, content, parent |
| DocumentStore.BuildUpdateStatement | app/lib/documents.ts:66-102 | no statement exactly when no field is supplied; otherwise the k supplied columns get `$1..$k` in order bound to the request's values, `updated_at = NOW()` comes last, and `id`/`user_id` get `$k+1`/`$k+2` |
| DocumentStore.PrefixApplies | app/lib/documents.ts:70-97 | the first j items of the numbered `SET` list set the first j supplied columns to their values |
| DocumentStore.PatchAllSupplied | app/lib/documents.ts:70-93 | setting every supplied column then stamping `updated_at` is the requested patch |
| DocumentStore.StatementMeaning | app/lib/documents.ts:93-104 | the statement the builder emits can be run, and it rewrites only the caller's own row with the requested patch (supplied fields take their values, `updated_at` is now, all else kept) and returns it; with no such row it returns nothing and changes nothing |
| DocumentStore.Table.GetDocumentById | app/lib/documents.ts:16-23 | finds a row exactly when one with that id belongs to the caller, and returns that row |
| DocumentStore.Table.SelectKind | app/lib/documents.ts:26-32 | lists, each once, exactly the caller's rows of one type under the given parent, and nothing else |
| DocumentStore.Table.GetDocumentsInFolder | app/lib/documents.ts:25-33 | lists exactly the caller's rows under that parent (top level for null), each once, files before folders |
| DocumentStore.Table.CreateDocument | app/lib/documents.ts:35-58 | inserts one row with a fresh id, the content only for a file, a falsy parent stored as null, and both timestamps now |
| DocumentStore.Table.UpdateDocument | app/lib/documents.ts:60-105 | with nothing supplied, no write and no clock tick, returning the current row if it is the caller's; otherwise the caller's row gets the requested patch and a strictly later `updated_at`, and a missing or foreign row leaves the table as it was |
| DocumentStore.Table.DeleteDocument | app/lib/documents.ts:107-115 | true exactly when the caller owned a row with that id, which is then removed and nothing else is |
| DocumentStore.Table.MoveDocument | app/lib/documents.ts:117-129 | sets the parent and `updated_at` of the caller's row even when the parent is unchanged; nothing happens for a missing or foreign row |
| DocumentStore.Table.MoveRequestAsWritten | app/lib/documents.ts:117-129 | the move route as written (`PUT` at lines 25-54 of the `[id]/move` route file, which calls `getDocumentById`, `checkCircularReference` and this `moveDocument`): not found exactly for a missing or foreign row; unchanged with no write exactly when the parent is already the requested one; refused exactly when `checkCircularReference` answers true; otherwise moved with the new parent and a new `updated_at` |
| DocumentStore.Table.MoveRequest | app/lib/documents.ts:117-129 | the same route (lines 25-54 of the `[id]/move` route file) with the corrected guard in place of the `checkCircularReference` call at line 36: the same four outcomes, refused exactly when the new parent lies in the moved row's own subtree, and an acyclic hierarchy stays acyclic |
| TreeRoute.Serialize | app/api/documents/tree/route.ts:21-37 | keeps id, owner, title, type, parent and both timestamps; `children` is present exactly for a folder with children, and then has one entry per child |
| TreeRoute.SerializeKeepsOrder | app/api/documents/tree/route.ts:32-34 | the ids of the JSON read in document order are the ids `flattenTree` lists for the same tree |
| TreeRoute.SerializeIgnoresContent | app/api/documents/tree/route.ts:22-30 | file content never reaches the JSON: a tree and its content-free copy serialise alike |
| TreeRoute.TopLevelIsRoot | app/api/documents/tree/route.ts:18-39 | the endpoint's top-level object is the synthetic folder `root` titled `Root` with no parent, for any ranking of what the root reaches, so also for rows that hold a parent cycle |
| Middleware.Decide | app/middleware.ts:5-33 | `/login` redirects to `/documents` with a token and passes without; `/api/documents` passes with a token and is 401 without; `/documents` passes with a token and redirects to `/login` without; any other path passes |
| Middleware.PrefixesExclusive | app/middleware.ts:9-30 | no path starts with two of the three prefixes, so the order of the tests does not matter |
| Middleware.TokenNeverUnauthorized | app/middleware.ts:17-22 | a request with a token is never answered 401 |
| Middleware.UnauthorizedOnlyForApi | app/middleware.ts:17-22 | 401 exactly for a document-API path without a token |
| Middleware.RedirectTargets | app/middleware.ts:9-30 | a redirect goes to `/documents` with a token and to `/login` without |
| CycleFindings.RankedRowsAcyclic | app/lib/documents.ts:174-186 | rows ranked so that each child sits strictly below its parent contain no cycle |
| CycleFindings.WrittenCheckMissesCycle | app/lib/documents.ts:174-192 | on f1 ⊃ f2 ⊃ d1, moving f1 under f2 passes the check as written and makes the hierarchy cyclic; the corrected guard refuses it |
| CycleFindings.WrittenRouteClosesCycle | app/lib/documents.ts:117-129 | on the table f1 ⊃ f2 ⊃ d1, the move route as written answers moving f1 under f2 with the moved row, and the table it leaves holds the cycle f1 → f2 → f1 |
| CycleFindings.CorrectedRouteRefusesCycle | app/lib/documents.ts:117-129 | the corrected route refuses the same request and leaves the table as it was |
| CycleFindings.TreeAfterWrittenMove | app/lib/composite.ts:95-106 | on the rows that move leaves, `buildTree` still returns a finite tree, and none of f1, f2 and d1 lies below the synthetic root: the tree endpoint shows the bare root |
| CycleFindings.WrittenCheckRefusesSafeMove | app/lib/documents.ts:174-192 | the check as written refuses moving d1 up into f1, which the corrected guard allows and which keeps the hierarchy acyclic |
| CycleFindings.SelfParentAccepted | app/lib/documents.ts:169 | both the table check and the tree check answer "no cycle" when f2 is moved under itself, and the move makes f2 its own parent |
| CycleFindings.CorrectedRefusesSelfParent | app/lib/documents.ts:169 | the corrected guard refuses every move of a row under itself |
| CycleFindings.NodesAreExpansions | app/lib/composite.ts:62-109 | every node of a built tree is the expansion of its own id, so the tree is determined by the arena |
| CycleFindings.ChecksDisagree | app/lib/composite.ts:205-213 | on the same three records the tree check refuses moving f1 under f2 while the table check lets it through |

## Left out

- TreeBuilder.TreeOf: the tree view needs a height map that ranks every id the root reaches below its parent. With distinct ids such a map always exists (`TreeBuilder.RankingExists`), parent cycles included: the source attaches a record on a parent cycle only under other records of that cycle, so the root never reaches it and the tree leaves it out. Only duplicate ids can hang a cycle below the root; there the source's traversals recurse without end, and the model has no tree.
- Duplicate ids in the input to `buildTree`: the arena keeps the last record per id, as `nodeMap` does. The round trip is proved only for distinct ids.
- CompositeTree.RootDoc: the synthetic root's `created_at` and `updated_at` are the empty string in the source; in the model they are clock reading 0.
- TreeBuilder.DocumentTree.GetChild: the arena keeps one record per id, so "the first child with that id" is the record of that id; two distinct node objects sharing an id are not modelled.
- The object identity of `FolderNode` children is not modelled. The tree is a value built from the arena, so aliasing between the builder's map and the returned tree is not captured.
- DocumentStore.Table.GetDocumentsInFolder: orders files before folders (`ORDER BY type`) but not by title within a type, because SQL text collation is not modelled.
- `getDocuments` and `getDocumentTree`: plain owner-scoped selects whose only content is an `ORDER BY` on timestamps, parent and title collation. They are not modelled.
- `NOW()` is a natural-number clock advanced by every write. Wall-clock time, time zones and the string form of timestamps are not modelled.
- The database-generated UUID of `createDocument` is a `newId` parameter that must be unused. The throw when `INSERT … RETURNING` yields no row cannot happen in this model.
- Cascade deletion of a folder's descendants is a foreign-key rule of the database schema. The schema is not part of this model: `DeleteDocument` removes one row.
- The schema-level title rule (1 to 255 characters) checked by the request parsers is not part of this model. Only the validators in app/lib/documents.ts are modelled.
- Hierarchy.CheckCircularReference: when a cycle lies in the subtree of the new parent (the seed `$1`), Postgres would evaluate the `UNION ALL` recursion without end. The model gives the query its set meaning (a fixpoint), which terminates. A cycle elsewhere in the table does not affect the query.
- DocumentStore.Table.MoveRequest: this is the move route with the corrected guard `Hierarchy.WouldCreateCycle`, not the route as written. The route as written is `DocumentStore.Table.MoveRequestAsWritten`, which calls `Hierarchy.CheckCircularReference` and can close a cycle (see "## Findings").
- Concurrency: the check-then-move sequence of the move route is not atomic in the source. The model runs each request alone.
- The move route's 500 answer when `moveDocument` returns no row cannot happen when requests run one at a time, because the row was just found. Request-body parsing, the 401 for a missing session and `getCurrentUserId` are not modelled either.
- `getToken` (session decoding) becomes the `hasToken` parameter of `Middleware.Decide`. The `matcher` list that decides which paths reach the middleware is not modelled.
- The React components and pages are not part of this model.

## Findings

| source | as written | input that shows it | evidently intended | confidence | as-written member | corrected member |
|---|---|---|---|---|---|---|
| app/lib/documents.ts:174-192 | the recursive query seeds at the new parent (`$1`) and looks for the moved node (`$3`) among its descendants, so it asks whether the node is under the new parent | rows f1 (top level) ⊃ f2 ⊃ d1 of one owner; move f1 under f2: the check answers false and the move creates the cycle f1 → f2 → f1; move d1 under f1: the check answers true and refuses a harmless move | refuse a move exactly when the new parent lies in the moved node's own subtree, as the comment at line 173 and `isDescendant` in app/lib/composite.ts say | high (proved on the model; not executed) | CycleFindings.WrittenCheckMissesCycle | Hierarchy.MoveKeepsAcyclic |
| app/lib/documents.ts:169 | `nodeId === newParentId` returns false ("no cycle"), and app/lib/composite.ts:206 does the same | move f2 under f2: both checks answer false and the update makes f2 its own parent | a move of a node under itself is a cycle and is refused | high (proved on the model; not executed) | CycleFindings.SelfParentAccepted | CycleFindings.CorrectedRefusesSelfParent |
