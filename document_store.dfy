/** The `markdown_documents` table behind app/lib/documents.ts, as an
    in-memory owner-scoped map from id to row. Each SQL statement becomes an
    operation on that map; `NOW()` becomes a clock that every write reads
    and then advances. */
module DocumentStore {
  import opened Records
  import opened DocumentValidation
  import opened Hierarchy

  // ---------------------------------------------------------------------------
  // The partial UPDATE statement of `updateDocument`

  /** The columns a request may set, in the order the builder tests them. */
  datatype Column = TitleColumn | ContentColumn | ParentColumn

  /** A bound parameter: a text value or SQL `NULL`. */
  datatype Value = Text(s: string) | Null

  /** One item of the `SET` list: `column = $n`, or `updated_at = NOW()`. */
  datatype SetItem = Assign(column: Column, placeholder: nat) | StampNow

  /** `UPDATE … SET <sets> WHERE id = $idAt AND user_id = $userAt` with the
      parameter array `params` (placeholder `$n` is `params[n - 1]`). */
  datatype UpdateStatement = UpdateStatement(sets: seq<SetItem>, idAt: nat, userAt: nat, params: seq<Value>)

  function ColumnRank(c: Column): nat
  {
    match c
    case TitleColumn => 0
    case ContentColumn => 1
    case ParentColumn => 2
  }

  predicate IsSupplied(input: UpdateInput, c: Column)
  {
    match c
    case TitleColumn => input.title.Some?
    case ContentColumn => input.content.Some?
    case ParentColumn => input.parentId.Some?
  }

  /** The supplied columns of a request, in builder order. */
  function Supplied(input: UpdateInput): (r: seq<Column>)
    ensures forall c :: c in r <==> IsSupplied(input, c)
    ensures forall i, j :: 0 <= i < j < |r| ==> ColumnRank(r[i]) < ColumnRank(r[j])
  {
    (if input.title.Some? then [TitleColumn] else [])
    + (if input.content.Some? then [ContentColumn] else [])
    + (if input.parentId.Some? then [ParentColumn] else [])
  }

  /** The parameter the request binds to a supplied column. */
  function Bound(input: UpdateInput, c: Column): Value
    requires IsSupplied(input, c)
  {
    match c
    case TitleColumn => Text(input.title.value)
    case ContentColumn => Text(input.content.value)
    case ParentColumn => if input.parentId.value.Some? then Text(input.parentId.value.value) else Null
  }

  /** What the builder promises about its statement: the supplied columns get
      `$1..$k` in order and are bound to the request's values, `updated_at`
      comes last, and `id`/`user_id` get `$k+1` and `$k+2`. */
  ghost predicate WellNumbered(st: UpdateStatement, input: UpdateInput, id: string, userId: string)
  {
    var cols := Supplied(input);
    var k := |cols|;
    && |st.sets| == k + 1 && st.sets[k] == StampNow
    && (forall i :: 0 <= i < k ==> st.sets[i] == Assign(cols[i], i + 1))
    && |st.params| == k + 2
    && (forall i :: 0 <= i < k ==> st.params[i] == Bound(input, cols[i]))
    && st.idAt == k + 1 && st.params[k] == Text(id)
    && st.userAt == k + 2 && st.params[k + 1] == Text(userId)
  }

  /** The builder's state after testing some of the fields: the columns
      `cols` pushed so far are supplied, numbered `$1..` in order, and bound
      to the request's values. */
  ghost predicate NumberedSoFar(updates: seq<SetItem>, params: seq<Value>, cols: seq<Column>, input: UpdateInput)
  {
    && |updates| == |cols| && |params| == |cols|
    && forall i :: 0 <= i < |cols| ==>
         && IsSupplied(input, cols[i])
         && updates[i] == Assign(cols[i], i + 1)
         && params[i] == Bound(input, cols[i])
  }

  /** Pushing one more supplied column with the next placeholder keeps the
      numbering. */
  lemma NumberedSnoc(updates: seq<SetItem>, params: seq<Value>, cols: seq<Column>, input: UpdateInput, c: Column)
    requires NumberedSoFar(updates, params, cols, input) && IsSupplied(input, c)
    ensures NumberedSoFar(updates + [Assign(c, |cols| + 1)], params + [Bound(input, c)], cols + [c], input)
  {
  }

  /** Closing the `SET` list with `updated_at = NOW()` and binding `id` and
      `user_id` after the supplied values completes a well-numbered
      statement. */
  lemma FinishNumbering(updates: seq<SetItem>, params: seq<Value>, input: UpdateInput, id: string, userId: string)
    requires NumberedSoFar(updates, params, Supplied(input), input)
    ensures var k := |Supplied(input)|;
            WellNumbered(UpdateStatement(updates + [StampNow], k + 1, k + 2, params + [Text(id), Text(userId)]), input, id, userId)
  {
    var k := |Supplied(input)|;
    var u, p := updates + [StampNow], params + [Text(id), Text(userId)];
    assert forall i :: 0 <= i < k ==> u[i] == updates[i] && p[i] == params[i];
  }

  /** `updateDocument`'s statement builder: `None` when nothing is supplied
      (the function then returns the current row instead). */
  method BuildUpdateStatement(id: string, userId: string, input: UpdateInput) returns (st: Option<UpdateStatement>)
    ensures st.None? <==> Supplied(input) == []
    ensures st.Some? ==> WellNumbered(st.value, input, id, userId)
  {
    var updates: seq<SetItem> := [];
    var params: seq<Value> := [];
    var paramIndex := 1;
    ghost var cols: seq<Column> := [];

    if input.title.Some? {
      NumberedSnoc(updates, params, cols, input, TitleColumn);
      updates := updates + [Assign(TitleColumn, paramIndex)];
      params := params + [Text(input.title.value)];
      paramIndex := paramIndex + 1;
      cols := cols + [TitleColumn];
    }
    assert NumberedSoFar(updates, params, cols, input) && paramIndex == |cols| + 1;

    if input.content.Some? {
      NumberedSnoc(updates, params, cols, input, ContentColumn);
      updates := updates + [Assign(ContentColumn, paramIndex)];
      params := params + [Text(input.content.value)];
      paramIndex := paramIndex + 1;
      cols := cols + [ContentColumn];
    }
    assert NumberedSoFar(updates, params, cols, input) && paramIndex == |cols| + 1;

    if input.parentId.Some? {
      NumberedSnoc(updates, params, cols, input, ParentColumn);
      updates := updates + [Assign(ParentColumn, paramIndex)];
      params := params + [if input.parentId.value.Some? then Text(input.parentId.value.value) else Null];
      paramIndex := paramIndex + 1;
      cols := cols + [ParentColumn];
    }
    assert NumberedSoFar(updates, params, cols, input) && paramIndex == |cols| + 1;
    assert cols == Supplied(input);

    if |updates| == 0 {
      return None;
    }
    FinishNumbering(updates, params, input, id, userId);
    updates := updates + [StampNow];
    params := params + [Text(id), Text(userId)];
    st := Some(UpdateStatement(updates, paramIndex, paramIndex + 1, params));
  }

  /** The statement can be run: every placeholder names a parameter, the
      `WHERE` parameters are text, and `title`/`content` get text. */
  ghost predicate Executable(st: UpdateStatement)
  {
    && 1 <= st.idAt <= |st.params| && st.params[st.idAt - 1].Text?
    && 1 <= st.userAt <= |st.params| && st.params[st.userAt - 1].Text?
    && forall i :: 0 <= i < |st.sets| && st.sets[i].Assign? ==>
         && 1 <= st.sets[i].placeholder <= |st.params|
         && (st.sets[i].column != ParentColumn ==> st.params[st.sets[i].placeholder - 1].Text?)
  }

  /** `column = v` on one row. */
  function SetColumn(d: Doc, c: Column, v: Value): Doc
    requires c != ParentColumn ==> v.Text?
  {
    match c
    case TitleColumn => d.(title := v.s)
    case ContentColumn => d.(content := Some(v.s))
    case ParentColumn => d.(parentId := if v.Text? then Some(v.s) else None)
  }

  /** Applies the `SET` list to one row, left to right. */
  function ApplySets(d: Doc, sets: seq<SetItem>, params: seq<Value>, now: Stamp): Doc
    requires forall i :: 0 <= i < |sets| && sets[i].Assign? ==>
               && 1 <= sets[i].placeholder <= |params|
               && (sets[i].column != ParentColumn ==> params[sets[i].placeholder - 1].Text?)
  {
    if sets == [] then d
    else
      var d' := ApplySets(d, sets[..|sets| - 1], params, now);
      match sets[|sets| - 1]
      case StampNow => d'.(updatedAt := now)
      case Assign(c, n) => SetColumn(d', c, params[n - 1])
  }

  /** Runs the statement against the table: the row whose id and owner match
      the `WHERE` parameters is rewritten and returned (`RETURNING`). */
  function Execute(st: UpdateStatement, rows: Rows, now: Stamp): (Option<Doc>, Rows)
    requires Executable(st)
  {
    var id := st.params[st.idAt - 1].s;
    var owner := st.params[st.userAt - 1].s;
    if OwnerRow(rows, owner, id) then
      var d := ApplySets(rows[id], st.sets, st.params, now);
      (Some(d), rows[id := d])
    else (None, rows)
  }

  /** The row a partial update should produce: supplied fields take their new
      values, `updated_at` becomes `now`, every other field is kept. */
  function Patched(d: Doc, input: UpdateInput, now: Stamp): Doc
  {
    d.(title := if input.title.Some? then input.title.value else d.title,
       content := if input.content.Some? then Some(input.content.value) else d.content,
       parentId := if input.parentId.Some? then input.parentId.value else d.parentId,
       updatedAt := now)
  }

  /** Sets the given supplied columns to the request's values, in order. */
  function PatchColumns(d: Doc, cols: seq<Column>, input: UpdateInput): Doc
    requires forall c :: c in cols ==> IsSupplied(input, c)
  {
    if cols == [] then d
    else SetColumn(PatchColumns(d, cols[..|cols| - 1], input), cols[|cols| - 1], Bound(input, cols[|cols| - 1]))
  }

  /** The first `j` items of a well-numbered statement set the first `j`
      supplied columns to the values the request binds to them. */
  lemma {:induction false} PrefixApplies(st: UpdateStatement, input: UpdateInput, id: string, userId: string, d: Doc, now: Stamp, j: nat)
    requires WellNumbered(st, input, id, userId) && Executable(st)
    requires j <= |Supplied(input)|
    ensures ApplySets(d, st.sets[..j], st.params, now) == PatchColumns(d, Supplied(input)[..j], input)
  {
    var cols := Supplied(input);
    if j > 0 {
      PrefixApplies(st, input, id, userId, d, now, j - 1);
      assert st.sets[..j][..j - 1] == st.sets[..j - 1];
      assert cols[..j][..j - 1] == cols[..j - 1];
      assert st.sets[..j][j - 1] == Assign(cols[j - 1], j);
      assert st.params[j - 1] == Bound(input, cols[j - 1]);
    }
  }

  lemma PatchSnoc(d: Doc, cols: seq<Column>, c: Column, input: UpdateInput)
    requires forall x :: x in cols + [c] ==> IsSupplied(input, x)
    ensures PatchColumns(d, cols + [c], input) == SetColumn(PatchColumns(d, cols, input), c, Bound(input, c))
  {
    assert (cols + [c])[..|cols|] == cols;
  }

  /** Setting every supplied column is the patch the request asks for. */
  lemma PatchAllSupplied(d: Doc, input: UpdateInput, now: Stamp)
    ensures PatchColumns(d, Supplied(input), input).(updatedAt := now) == Patched(d, input, now)
  {
    var t := if input.title.Some? then [TitleColumn] else [];
    var tc := t + (if input.content.Some? then [ContentColumn] else []);
    var all := Supplied(input);
    assert all == tc + (if input.parentId.Some? then [ParentColumn] else []);
    var d1 := PatchColumns(d, t, input);
    if input.title.Some? {
      PatchSnoc(d, [], TitleColumn, input);
    }
    assert d1 == d.(title := if input.title.Some? then input.title.value else d.title);
    var d2 := PatchColumns(d, tc, input);
    if input.content.Some? {
      PatchSnoc(d, t, ContentColumn, input);
    } else {
      assert tc == t;
    }
    assert d2 == d1.(content := if input.content.Some? then Some(input.content.value) else d.content);
    var d3 := PatchColumns(d, all, input);
    if input.parentId.Some? {
      PatchSnoc(d, tc, ParentColumn, input);
    } else {
      assert all == tc;
    }
    assert d3 == d2.(parentId := if input.parentId.Some? then input.parentId.value else d.parentId);
  }

  /** The statement the builder emits does what the request asks, and only
      to the caller's own row. */
  lemma StatementMeaning(st: UpdateStatement, input: UpdateInput, id: string, userId: string, rows: Rows, now: Stamp)
    requires WellNumbered(st, input, id, userId)
    ensures Executable(st)
    ensures Execute(st, rows, now) ==
              if OwnerRow(rows, userId, id) then
                (Some(Patched(rows[id], input, now)), rows[id := Patched(rows[id], input, now)])
              else (None, rows)
  {
    var cols := Supplied(input);
    var k := |cols|;
    forall i | 0 <= i < |st.sets| && st.sets[i].Assign?
      ensures 1 <= st.sets[i].placeholder <= |st.params|
      ensures st.sets[i].column != ParentColumn ==> st.params[st.sets[i].placeholder - 1].Text?
    {
      assert i < k;
      assert cols[i] in cols;
    }
    if OwnerRow(rows, userId, id) {
      var d := rows[id];
      PrefixApplies(st, input, id, userId, d, now, k);
      PatchAllSupplied(d, input, now);
      assert cols[..k] == cols;
      assert st.sets[..k] == st.sets[..|st.sets| - 1];
    }
  }

  // ---------------------------------------------------------------------------
  // The table

  /** How a move request ends (the move route's responses). */
  datatype MoveOutcome = NotFound | Unchanged(doc: Doc) | CircularReference | Moved(doc: Doc)

  /** `doc` is listed by `getDocumentsInFolder(userId, parentId)`. */
  predicate Listed(d: Doc, userId: string, parentId: Option<string>)
  {
    d.userId == userId && d.parentId == parentId
  }

  /** After visiting the keys `done`, `s` lists exactly the visited rows that
      `getDocumentsInFolder` selects and whose type is `t`, each once. */
  ghost predicate Gathered(rows: Rows, s: seq<Doc>, done: set<string>, userId: string, parentId: Option<string>, t: DocType)
  {
    && (forall i :: 0 <= i < |s| ==>
          s[i].id in done && s[i].id in rows && rows[s[i].id] == s[i] && Listed(s[i], userId, parentId) && s[i].docType == t)
    && (forall i, j :: 0 <= i < |s| && 0 <= j < |s| && s[i].id == s[j].id ==> i == j)
    && (forall id :: id in done && id in rows && Listed(rows[id], userId, parentId) && rows[id].docType == t ==> rows[id] in s)
  }

  /** Visiting a selected row of type `t` and pushing it keeps the listing
      exact. */
  lemma GatherPush(rows: Rows, s: seq<Doc>, done: set<string>, d: Doc, userId: string, parentId: Option<string>, t: DocType)
    requires Gathered(rows, s, done, userId, parentId, t)
    requires d.id in rows && rows[d.id] == d && d.id !in done && Listed(d, userId, parentId) && d.docType == t
    ensures Gathered(rows, s + [d], done + {d.id}, userId, parentId, t)
  {
  }

  /** Visiting any other row keeps the listing exact. */
  lemma GatherSkip(rows: Rows, s: seq<Doc>, done: set<string>, d: Doc, userId: string, parentId: Option<string>, t: DocType)
    requires Gathered(rows, s, done, userId, parentId, t)
    requires d.id in rows && rows[d.id] == d && !(Listed(d, userId, parentId) && d.docType == t)
    ensures Gathered(rows, s, done + {d.id}, userId, parentId, t)
  {
  }

  /** Moving one key from the pending set to the visited set keeps the two
      a partition of the keys. */
  lemma VisitOne(keys: set<string>, pending: set<string>, done: set<string>, id: string)
    requires pending !! done && pending + done == keys && id in pending
    ensures (pending - {id}) !! (done + {id}) && (pending - {id}) + (done + {id}) == keys
  {
  }

  /** Files listed ahead of folders make one listing without repeats. */
  lemma FilesThenFolders(rows: Rows, files: seq<Doc>, folders: seq<Doc>, userId: string, parentId: Option<string>)
    requires Gathered(rows, files, rows.Keys, userId, parentId, File)
    requires Gathered(rows, folders, rows.Keys, userId, parentId, Folder)
    ensures var docs := files + folders;
            && (forall i :: 0 <= i < |docs| ==> docs[i].id in rows && rows[docs[i].id] == docs[i] && Listed(docs[i], userId, parentId))
            && (forall i, j :: 0 <= i < |docs| && 0 <= j < |docs| && docs[i].id == docs[j].id ==> i == j)
            && (forall i, j :: 0 <= i < j < |docs| ==> !(docs[i].docType == Folder && docs[j].docType == File))
            && (forall id :: id in rows && Listed(rows[id], userId, parentId) ==> rows[id] in docs)
  {
    var docs := files + folders;
    assert forall k :: 0 <= k < |files| ==> docs[k] == files[k];
    assert forall k :: |files| <= k < |docs| ==> docs[k] == folders[k - |files|];
  }

  class Table {
    var rows: Rows
    var clock: nat

    /** Rows are keyed by their id; every stamp was read from the clock
        before its last tick, and a row is never updated before it exists. */
    ghost predicate Valid()
      reads this
    {
      forall id :: id in rows ==> rows[id].id == id && rows[id].createdAt <= rows[id].updatedAt < clock
    }

    constructor()
      ensures rows == map[] && clock == 0 && Valid()
    {
      rows := map[];
      clock := 0;
    }

    /** A table that already holds `rows`, with the clock at `now`. */
    constructor Load(rows0: Rows, now: nat)
      requires forall id :: id in rows0 ==> rows0[id].id == id && rows0[id].createdAt <= rows0[id].updatedAt < now
      ensures rows == rows0 && clock == now && Valid()
    {
      rows := rows0;
      clock := now;
    }

    /** `getDocumentById`: only a row whose id and owner both match is seen. */
    function GetDocumentById(id: string, userId: string): (r: Option<Doc>)
      reads this
      requires Valid()
      ensures r.Some? <==> OwnerRow(rows, userId, id)
      ensures r.Some? ==> r.value == rows[id] && r.value.id == id && r.value.userId == userId
    {
      if id in rows && rows[id].userId == userId then Some(rows[id]) else None
    }

    /** The rows of type `t` that `getDocumentsInFolder` selects, each once,
        in the order the table hands them out. */
    method SelectKind(userId: string, parentId: Option<string>, t: DocType) returns (s: seq<Doc>)
      requires Valid()
      ensures Gathered(rows, s, rows.Keys, userId, parentId, t)
    {
      var pending := rows.Keys;
      ghost var done: set<string> := {};
      s := [];
      while pending != {}
        invariant pending !! done && pending + done == rows.Keys
        invariant Gathered(rows, s, done, userId, parentId, t)
        decreases |pending|
      {
        var id :| id in pending;
        var d := rows[id];
        VisitOne(rows.Keys, pending, done, id);
        if Listed(d, userId, parentId) && d.docType == t {
          GatherPush(rows, s, done, d, userId, parentId, t);
          s := s + [d];
        } else {
          GatherSkip(rows, s, done, d, userId, parentId, t);
        }
        pending := pending - {id};
        done := done + {id};
      }
    }

    /** `getDocumentsInFolder`: the owner's rows under `parentId` (`IS NULL`
        for `null`), each once, files before folders (`ORDER BY type`). */
    method GetDocumentsInFolder(userId: string, parentId: Option<string>) returns (docs: seq<Doc>)
      requires Valid()
      ensures forall i :: 0 <= i < |docs| ==> docs[i].id in rows && rows[docs[i].id] == docs[i] && Listed(docs[i], userId, parentId)
      ensures forall id :: id in rows && Listed(rows[id], userId, parentId) ==> rows[id] in docs
      ensures forall i, j :: 0 <= i < |docs| && 0 <= j < |docs| && docs[i].id == docs[j].id ==> i == j
      ensures forall i, j :: 0 <= i < j < |docs| ==> !(docs[i].docType == Folder && docs[j].docType == File)
    {
      var files := SelectKind(userId, parentId, File);
      var folders := SelectKind(userId, parentId, Folder);
      docs := files + folders;
      FilesThenFolders(rows, files, folders, userId, parentId);
    }

    /** `createDocument`: content is stored only for files, a falsy parent
        is stored as `null`; `newId` is the id the database generates. */
    method CreateDocument(userId: string, input: CreateInput, newId: string) returns (d: Doc)
      requires Valid() && newId !in rows
      modifies this
      ensures d == Doc(newId, userId, input.title, input.docType,
                       if input.docType == File then input.content else None,
                       if Truthy(input.parentId) then input.parentId else None,
                       old(clock), old(clock))
      ensures rows == old(rows)[newId := d] && clock == old(clock) + 1
      ensures Valid()
    {
      var content := if input.docType == File then input.content else None;
      var parent := if Truthy(input.parentId) then input.parentId else None;
      d := Doc(newId, userId, input.title, input.docType, content, parent, clock, clock);
      rows := rows[newId := d];
      clock := clock + 1;
    }

    /** `updateDocument`: with nothing supplied the current row comes back
        and nothing is written; otherwise the built statement runs. */
    method UpdateDocument(id: string, userId: string, input: UpdateInput) returns (r: Option<Doc>)
      requires Valid()
      modifies this
      ensures Valid()
      ensures Supplied(input) == [] ==>
                rows == old(rows) && clock == old(clock) && r == old(GetDocumentById(id, userId))
      ensures Supplied(input) != [] ==> clock == old(clock) + 1
      ensures Supplied(input) != [] && OwnerRow(old(rows), userId, id) ==>
                r == Some(Patched(old(rows)[id], input, old(clock))) && rows == old(rows)[id := r.value]
      ensures Supplied(input) != [] && !OwnerRow(old(rows), userId, id) ==> r == None && rows == old(rows)
      ensures Supplied(input) != [] && r.Some? ==> r.value.updatedAt > old(rows)[id].updatedAt
    {
      var st := BuildUpdateStatement(id, userId, input);
      if st.None? {
        r := GetDocumentById(id, userId);
        return;
      }
      StatementMeaning(st.value, input, id, userId, rows, clock);
      var result := Execute(st.value, rows, clock);
      r := result.0;
      rows := result.1;
      clock := clock + 1;
    }

    /** `deleteDocument`: true exactly when the caller's row existed and is now gone. */
    method DeleteDocument(id: string, userId: string) returns (deleted: bool)
      requires Valid()
      modifies this
      ensures deleted <==> old(OwnerRow(rows, userId, id))
      ensures rows == if deleted then old(rows) - {id} else old(rows)
      ensures clock == old(clock) && Valid()
    {
      deleted := id in rows && rows[id].userId == userId;
      if deleted {
        rows := rows - {id};
      }
    }

    /** `moveDocument`: sets `parent_id` and `updated_at` without any check,
        even when the parent does not change. */
    method MoveDocument(id: string, userId: string, newParentId: Option<string>) returns (r: Option<Doc>)
      requires Valid()
      modifies this
      ensures OwnerRow(old(rows), userId, id) ==>
                rows == Reparent(old(rows), id, newParentId, old(clock)) && r == Some(rows[id])
      ensures !OwnerRow(old(rows), userId, id) ==> rows == old(rows) && r == None
      ensures clock == old(clock) + 1 && Valid()
    {
      if id in rows && rows[id].userId == userId {
        rows := Reparent(rows, id, newParentId, clock);
        r := Some(rows[id]);
      } else {
        r := None;
      }
      clock := clock + 1;
    }

    /** The move route (`PUT /api/documents/[id]/move`) as written: not found,
        unchanged parent, a cycle reported by `checkCircularReference`, or
        moved. Because that check seeds its query at the new parent, a move
        that closes a cycle can end as `Moved`. */
    method MoveRequestAsWritten(id: string, userId: string, newParentId: Option<string>) returns (outcome: MoveOutcome)
      requires Valid()
      modifies this
      ensures Valid()
      ensures outcome == NotFound <==> !OwnerRow(old(rows), userId, id)
      ensures outcome.Unchanged? <==> OwnerRow(old(rows), userId, id) && old(rows)[id].parentId == newParentId
      ensures outcome.Unchanged? ==> outcome.doc == old(rows)[id] && rows == old(rows)
      ensures outcome == CircularReference <==>
                OwnerRow(old(rows), userId, id) && old(rows)[id].parentId != newParentId &&
                CheckCircularReference(old(rows), userId, id, newParentId)
      ensures !outcome.Moved? ==> rows == old(rows) && clock == old(clock)
      ensures outcome.Moved? ==> clock == old(clock) + 1
      ensures outcome.Moved? ==> rows == Reparent(old(rows), id, newParentId, old(clock)) && outcome.doc == rows[id]
    {
      var document := GetDocumentById(id, userId);
      if document.None? {
        return NotFound;
      }
      if document.value.parentId == newParentId {
        return Unchanged(document.value);
      }
      if CheckCircularReference(rows, userId, id, newParentId) {
        return CircularReference;
      }
      var result := MoveDocument(id, userId, newParentId);
      outcome := Moved(result.value);
    }

    /** The move route with the corrected cycle guard `WouldCreateCycle` in
        place of `checkCircularReference`: not found, unchanged parent,
        refused cycle, or moved; a move it makes keeps the hierarchy acyclic. */
    method MoveRequest(id: string, userId: string, newParentId: Option<string>) returns (outcome: MoveOutcome)
      requires Valid()
      modifies this
      ensures Valid()
      ensures outcome == NotFound <==> !OwnerRow(old(rows), userId, id)
      ensures outcome.Unchanged? <==> OwnerRow(old(rows), userId, id) && old(rows)[id].parentId == newParentId
      ensures outcome.Unchanged? ==> outcome.doc == old(rows)[id] && rows == old(rows)
      ensures outcome == CircularReference <==>
                OwnerRow(old(rows), userId, id) && old(rows)[id].parentId != newParentId &&
                WouldCreateCycle(old(rows), userId, id, newParentId)
      ensures !outcome.Moved? ==> rows == old(rows) && clock == old(clock)
      ensures outcome.Moved? ==> clock == old(clock) + 1
      ensures outcome.Moved? ==> rows == Reparent(old(rows), id, newParentId, old(clock)) && outcome.doc == rows[id]
      ensures Acyclic(old(rows), userId) ==> Acyclic(rows, userId)
    {
      var document := GetDocumentById(id, userId);
      if document.None? {
        return NotFound;
      }
      if document.value.parentId == newParentId {
        return Unchanged(document.value);
      }
      if WouldCreateCycle(rows, userId, id, newParentId) {
        return CircularReference;
      }
      ghost var before := rows;
      if Acyclic(before, userId) {
        MoveKeepsAcyclic(before, userId, id, newParentId, clock);
      }
      var result := MoveDocument(id, userId, newParentId);
      outcome := Moved(result.value);
    }
  }
}
