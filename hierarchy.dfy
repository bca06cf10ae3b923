/** The parent-pointer hierarchy of the `markdown_documents` table as
    app/lib/documents.ts sees it: one owner's rows linked by `parent_id`,
    the recursive `descendants` query of `checkCircularReference`, and the
    guard a move must pass to keep the hierarchy free of cycles. */
module Hierarchy {
  import opened Records

  /** The table: rows keyed by their id. */
  type Rows = map<string, Doc>

  predicate OwnerRow(rows: Rows, owner: string, id: string)
  {
    id in rows && rows[id].userId == owner
  }

  /** `c` is an owner row whose `parent_id` is `p`: the join step
      `md.parent_id = d.id AND md.user_id = $2` of the recursive query. */
  ghost predicate ChildLink(rows: Rows, owner: string, p: string, c: string)
  {
    OwnerRow(rows, owner, c) && rows[c].parentId == Some(p)
  }

  /** A downward path of owner rows, each the child of the one before. */
  ghost predicate ChildPath(rows: Rows, owner: string, path: seq<string>)
  {
    && |path| >= 1
    && OwnerRow(rows, owner, path[0])
    && forall k :: 0 <= k < |path| - 1 ==> ChildLink(rows, owner, path[k], path[k + 1])
  }

  /** `x` is `top` or lies below it in the owner's hierarchy. */
  ghost predicate InSubtree(rows: Rows, owner: string, top: string, x: string)
  {
    exists path :: ChildPath(rows, owner, path) && path[0] == top && path[|path| - 1] == x
  }

  /** No downward path of length two or more comes back to where it started. */
  ghost predicate Acyclic(rows: Rows, owner: string)
  {
    forall path :: ChildPath(rows, owner, path) && |path| >= 2 ==> path[0] != path[|path| - 1]
  }

  // ---------------------------------------------------------------------------
  // The recursive query

  /** One round of the recursive member: the owner rows whose parent is in `s`. */
  function ChildrenOf(rows: Rows, owner: string, s: set<string>): (r: set<string>)
    ensures forall c :: c in r <==> OwnerRow(rows, owner, c) && rows[c].parentId.Some? && rows[c].parentId.value in s
  {
    set c | c in rows.Keys && rows[c].userId == owner && rows[c].parentId.Some? && rows[c].parentId.value in s
  }

  /** Repeats the recursive member until no new row is produced. */
  function Closure(rows: Rows, owner: string, s: set<string>): (r: set<string>)
    requires s <= rows.Keys
    ensures s <= r <= rows.Keys
    ensures ChildrenOf(rows, owner, r) <= r
    decreases |rows.Keys - s|
  {
    var next := s + ChildrenOf(rows, owner, s);
    if next == s then s
    else
      var c :| c in next && c !in s;
      FewerLeft(rows.Keys, s, next, c);
      Closure(rows, owner, next)
  }

  lemma {:induction false} SubsetCard(a: set<string>, b: set<string>)
    requires a <= b
    ensures |a| <= |b|
    decreases |a|
  {
    if a != {} {
      var x :| x in a;
      SubsetCard(a - {x}, b - {x});
    }
  }

  /** Each round that adds a row leaves fewer rows to add. */
  lemma FewerLeft(keys: set<string>, s: set<string>, next: set<string>, c: string)
    requires s <= next && c in keys && c in next && c !in s
    ensures |keys - next| < |keys - s|
  {
    var rest := (keys - s) - {c};
    assert keys - s == rest + {c};
    SubsetCard(keys - next, rest);
  }

  /** The `descendants` relation seeded with `top`: empty unless `top` is an
      owner row (`WHERE id = $1 AND user_id = $2`). */
  function Descendants(rows: Rows, owner: string, top: string): (r: set<string>)
    ensures forall x :: x in r <==> InSubtree(rows, owner, top, x)
  {
    DescendantsMeaning(rows, owner, top);
    if OwnerRow(rows, owner, top) then Closure(rows, owner, {top}) else {}
  }

  lemma {:induction false} ClosureSound(rows: Rows, owner: string, top: string, s: set<string>)
    requires s <= rows.Keys
    requires forall x :: x in s ==> InSubtree(rows, owner, top, x)
    ensures forall x :: x in Closure(rows, owner, s) ==> InSubtree(rows, owner, top, x)
    decreases |rows.Keys - s|
  {
    var next := s + ChildrenOf(rows, owner, s);
    if next != s {
      forall x | x in next ensures InSubtree(rows, owner, top, x) {
        if x !in s {
          var p := rows[x].parentId.value;
          var path :| ChildPath(rows, owner, path) && path[0] == top && path[|path| - 1] == p;
          var longer := path + [x];
          assert ChildPath(rows, owner, longer) && longer[0] == top && longer[|longer| - 1] == x;
        }
      }
      var c :| c in next && c !in s;
      FewerLeft(rows.Keys, s, next, c);
      ClosureSound(rows, owner, top, next);
    }
  }

  /** A set closed under taking children holds every path that starts in it. */
  lemma {:induction false} ClosedHoldsPaths(rows: Rows, owner: string, s: set<string>, path: seq<string>)
    requires ChildrenOf(rows, owner, s) <= s
    requires ChildPath(rows, owner, path) && path[0] in s
    ensures path[|path| - 1] in s
    decreases |path|
  {
    if |path| > 1 {
      var init := path[..|path| - 1];
      assert ChildPath(rows, owner, init);
      ClosedHoldsPaths(rows, owner, s, init);
      assert path[|path| - 1] in ChildrenOf(rows, owner, s) by {
        assert ChildLink(rows, owner, path[|path| - 2], path[|path| - 1]);
      }
    }
  }

  lemma DescendantsMeaning(rows: Rows, owner: string, top: string)
    ensures OwnerRow(rows, owner, top) ==>
              forall x :: x in Closure(rows, owner, {top}) <==> InSubtree(rows, owner, top, x)
    ensures !OwnerRow(rows, owner, top) ==> forall x :: !InSubtree(rows, owner, top, x)
  {
    if OwnerRow(rows, owner, top) {
      assert ChildPath(rows, owner, [top]);
      ClosureSound(rows, owner, top, {top});
      forall x | InSubtree(rows, owner, top, x) ensures x in Closure(rows, owner, {top}) {
        var path :| ChildPath(rows, owner, path) && path[0] == top && path[|path| - 1] == x;
        ClosedHoldsPaths(rows, owner, Closure(rows, owner, {top}), path);
      }
    }
  }

  // ---------------------------------------------------------------------------
  // Cycle guards

  /** `checkCircularReference` as written: the query is seeded with
      `newParentId` and tested for `nodeId`, so it asks whether the moved row
      already lies below its new parent. */
  function CheckCircularReference(rows: Rows, owner: string, nodeId: string, newParentId: Option<string>): (r: bool)
    ensures r <==> Truthy(newParentId) && newParentId.value != nodeId &&
                   InSubtree(rows, owner, newParentId.value, nodeId)
    ensures r ==> OwnerRow(rows, owner, newParentId.value)
  {
    if !Truthy(newParentId) || nodeId == newParentId.value then false
    else
      DescendantsMeaning(rows, owner, newParentId.value);
      nodeId in Descendants(rows, owner, newParentId.value)
  }

  /** The guard a move needs: the new parent is the row itself or lies in its
      subtree. A move to the top level (`null`) never closes a cycle. */
  function WouldCreateCycle(rows: Rows, owner: string, nodeId: string, newParentId: Option<string>): (r: bool)
    ensures r <==> newParentId.Some? && InSubtree(rows, owner, nodeId, newParentId.value)
  {
    newParentId.Some? && newParentId.value in Descendants(rows, owner, nodeId)
  }

  /** The row after `moveDocument`: a new `parent_id` and a new `updated_at`. */
  function Reparent(rows: Rows, id: string, newParentId: Option<string>, now: Stamp): (r: Rows)
    requires id in rows
    ensures r.Keys == rows.Keys
    ensures forall k :: k in rows && k != id ==> r[k] == rows[k]
    ensures r[id].parentId == newParentId && r[id].userId == rows[id].userId
  {
    rows[id := rows[id].(parentId := newParentId, updatedAt := now)]
  }

  // ---------------------------------------------------------------------------
  // A guarded move keeps the hierarchy acyclic

  /** A path that never enters the moved row after its start uses only links
      the move left alone. */
  lemma {:induction false} UntouchedPath(rows: Rows, owner: string, id: string, newParentId: Option<string>, now: Stamp, path: seq<string>)
    requires id in rows
    requires ChildPath(Reparent(rows, id, newParentId, now), owner, path)
    requires forall k :: 1 <= k < |path| ==> path[k] != id
    ensures ChildPath(rows, owner, path)
  {
    var moved := Reparent(rows, id, newParentId, now);
    forall k | 0 <= k < |path| - 1 ensures ChildLink(rows, owner, path[k], path[k + 1]) {
      assert ChildLink(moved, owner, path[k], path[k + 1]);
    }
  }

  /** A path that enters the moved row does so through its new parent. */
  lemma EntersThroughNewParent(rows: Rows, owner: string, id: string, newParentId: Option<string>, now: Stamp, path: seq<string>, k: nat)
    requires id in rows
    requires ChildPath(Reparent(rows, id, newParentId, now), owner, path)
    requires 1 <= k < |path| && path[k] == id
    ensures newParentId == Some(path[k - 1])
  {
    assert ChildLink(Reparent(rows, id, newParentId, now), owner, path[k - 1], path[k]);
  }

  lemma {:induction false} JoinPaths(rows: Rows, owner: string, p: seq<string>, q: seq<string>)
    requires ChildPath(rows, owner, p) && ChildPath(rows, owner, q) && p[|p| - 1] == q[0]
    ensures ChildPath(rows, owner, p + q[1..])
  {
    var j := p + q[1..];
    forall k | 0 <= k < |j| - 1 ensures ChildLink(rows, owner, j[k], j[k + 1]) {
      if k < |p| - 1 {
        assert j[k] == p[k] && j[k + 1] == p[k + 1];
      } else {
        assert j[k] == q[k - |p| + 1] && j[k + 1] == q[k - |p| + 2];
      }
    }
  }

  /** The first position after the start where `id` occurs. */
  lemma FirstVisit(path: seq<string>, id: string) returns (j: nat)
    requires exists k :: 1 <= k < |path| && path[k] == id
    ensures 1 <= j < |path| && path[j] == id
    ensures forall k :: 1 <= k < j ==> path[k] != id
  {
    j := 1;
    while path[j] != id
      invariant 1 <= j < |path|
      invariant forall k :: 1 <= k < j ==> path[k] != id
      invariant exists k :: j <= k < |path| && path[k] == id
      decreases |path| - j
    {
      j := j + 1;
    }
  }

  /** The last position where `id` occurs. */
  lemma LastVisit(path: seq<string>, id: string) returns (j: nat)
    requires exists k :: 0 <= k < |path| && path[k] == id
    ensures j < |path| && path[j] == id
    ensures forall k :: j < k < |path| ==> path[k] != id
  {
    j := |path| - 1;
    while path[j] != id
      invariant j < |path|
      invariant forall k :: j < k < |path| ==> path[k] != id
      invariant exists k :: 0 <= k <= j && path[k] == id
      decreases j
    {
      j := j - 1;
    }
  }

  lemma SubPath(rows: Rows, owner: string, path: seq<string>, i: nat, j: nat)
    requires ChildPath(rows, owner, path) && i < j <= |path|
    ensures ChildPath(rows, owner, path[i..j])
  {
    var sub := path[i..j];
    assert sub[0] == path[i];
    if i > 0 {
      assert ChildLink(rows, owner, path[i - 1], path[i]);
    }
    forall k | 0 <= k < |sub| - 1 ensures ChildLink(rows, owner, sub[k], sub[k + 1]) {
      assert sub[k] == path[i + k] && sub[k + 1] == path[i + k + 1];
    }
  }

  /** A cycle after the move that passes through the moved row yields an old
      path from the moved row down to its new parent. */
  lemma CycleThroughMovedRow(rows: Rows, owner: string, id: string, newParentId: Option<string>, now: Stamp, path: seq<string>)
    requires id in rows
    requires ChildPath(Reparent(rows, id, newParentId, now), owner, path)
    requires |path| >= 2 && path[0] == path[|path| - 1]
    requires exists k :: 1 <= k < |path| && path[k] == id
    ensures newParentId.Some? && InSubtree(rows, owner, id, newParentId.value)
  {
    var moved := Reparent(rows, id, newParentId, now);
    var first := FirstVisit(path, id);
    EntersThroughNewParent(rows, owner, id, newParentId, now, path, first);
    var last := LastVisit(path, id);
    var tail := path[last..];
    SubPath(moved, owner, path, last, |path|);
    assert path[last..|path|] == tail;
    forall k | 1 <= k < |tail| ensures tail[k] != id {
      assert tail[k] == path[last + k];
    }
    UntouchedPath(rows, owner, id, newParentId, now, tail);
    var head := path[..first];
    SubPath(moved, owner, path, 0, first);
    assert path[0..first] == head;
    UntouchedPath(rows, owner, id, newParentId, now, head);
    JoinPaths(rows, owner, tail, head);
    var loop := tail + head[1..];
    assert loop[0] == id;
    assert loop[|loop| - 1] == path[first - 1];
  }

  /** Moving a row under a parent the corrected guard accepts keeps an
      acyclic hierarchy acyclic. */
  lemma MoveKeepsAcyclic(rows: Rows, owner: string, id: string, newParentId: Option<string>, now: Stamp)
    requires OwnerRow(rows, owner, id) && Acyclic(rows, owner)
    requires !WouldCreateCycle(rows, owner, id, newParentId)
    ensures Acyclic(Reparent(rows, id, newParentId, now), owner)
  {
    var moved := Reparent(rows, id, newParentId, now);
    forall path | ChildPath(moved, owner, path) && |path| >= 2
      ensures path[0] != path[|path| - 1]
    {
      if path[0] == path[|path| - 1] {
        if exists k :: 1 <= k < |path| && path[k] == id {
          CycleThroughMovedRow(rows, owner, id, newParentId, now, path);
        } else {
          UntouchedPath(rows, owner, id, newParentId, now, path);
        }
      }
    }
  }
}
