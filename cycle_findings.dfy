/** The two cycle checks of the system side by side on one small hierarchy:
    folder f1 at the top level, folder f2 inside f1, file d1 inside f2, all
    owned by "u". The database check of app/lib/documents.ts lets a move
    close a cycle and refuses a harmless one; the in-memory check of
    app/lib/composite.ts gets the direction right; both let a row become its
    own parent. */
module CycleFindings {
  import opened Records
  import opened Hierarchy
  import opened CompositeTree
  import opened TreeBuilder
  import opened TreeRoundTrip
  import opened DocumentStore

  const F1: Doc := Doc("f1", "u", "Folder 1", Folder, None, None, 0, 0)
  const F2: Doc := Doc("f2", "u", "Folder 2", Folder, None, Some("f1"), 0, 0)
  const D1: Doc := Doc("d1", "u", "Note", File, Some("# note"), Some("f2"), 0, 0)

  const FixtureRows: Rows := map["f1" := F1, "f2" := F2, "d1" := D1]
  const FixtureDocs: seq<Doc> := [F1, F2, D1]
  const FixtureHeights: map<string, nat> := map["f1" := 2, "f2" := 1, "d1" := 0]

  /** The same hierarchy after f1 was moved into f2 at tick 1. */
  const MovedF1: Doc := F1.(parentId := Some("f2"), updatedAt := 1)
  const MovedRows: Rows := map["f1" := MovedF1, "f2" := F2, "d1" := D1]
  const MovedDocs: seq<Doc> := [MovedF1, F2, D1]

  /** Rows ranked so that every child sits strictly lower than its parent
      form no cycle. */
  lemma {:induction false} RankedPathDescends(rows: Rows, owner: string, h: map<string, nat>, path: seq<string>)
    requires forall p, c :: ChildLink(rows, owner, p, c) ==> p in h && c in h && h[c] < h[p]
    requires ChildPath(rows, owner, path) && |path| >= 2
    ensures path[0] in h && path[|path| - 1] in h && h[path[|path| - 1]] < h[path[0]]
    decreases |path|
  {
    assert ChildLink(rows, owner, path[0], path[1]);
    if |path| > 2 {
      var init := path[..|path| - 1];
      assert ChildPath(rows, owner, init);
      RankedPathDescends(rows, owner, h, init);
      assert ChildLink(rows, owner, path[|path| - 2], path[|path| - 1]);
    }
  }

  lemma RankedRowsAcyclic(rows: Rows, owner: string, h: map<string, nat>)
    requires forall p, c :: ChildLink(rows, owner, p, c) ==> p in h && c in h && h[c] < h[p]
    ensures Acyclic(rows, owner)
  {
    forall path | ChildPath(rows, owner, path) && |path| >= 2 ensures path[0] != path[|path| - 1] {
      RankedPathDescends(rows, owner, h, path);
    }
  }

  lemma FixtureAcyclic()
    ensures Acyclic(FixtureRows, "u")
  {
    forall p, c | ChildLink(FixtureRows, "u", p, c)
      ensures p in FixtureHeights && c in FixtureHeights && FixtureHeights[c] < FixtureHeights[p]
    {
      assert c == "f1" || c == "f2" || c == "d1";
    }
    RankedRowsAcyclic(FixtureRows, "u", FixtureHeights);
  }

  /** Nothing outside `s` hangs below `s`, so no path from inside `s` leaves it. */
  lemma NotBelow(rows: Rows, owner: string, s: set<string>, top: string, x: string)
    requires ChildrenOf(rows, owner, s) <= s && top in s && x !in s
    ensures !InSubtree(rows, owner, top, x)
  {
    forall path | ChildPath(rows, owner, path) && path[0] == top ensures path[|path| - 1] != x {
      ClosedHoldsPaths(rows, owner, s, path);
    }
  }

  /** The fixture rows are keyed by id and were all written before tick 1. */
  lemma FixtureStamped()
    ensures forall id :: id in FixtureRows ==>
              FixtureRows[id].id == id && FixtureRows[id].createdAt <= FixtureRows[id].updatedAt < 1
  {
  }

  /** Finding 1 through the move route: on the fixture table the route as
      written answers the move of f1 into f2 with the moved row and leaves
      the cycle f1 -> f2 -> f1 behind. */
  method WrittenRouteClosesCycle() returns (written: MoveOutcome, after: Rows)
    ensures written.Moved? && written.doc.parentId == Some("f2")
    ensures after == MovedRows
    ensures Acyclic(FixtureRows, "u") && !Acyclic(after, "u")
  {
    WrittenCheckMissesCycle();
    FixtureStamped();
    var t := new Table.Load(FixtureRows, 1);
    written := t.MoveRequestAsWritten("f1", "u", Some("f2"));
    after := t.rows;
    MovedRowsReparented();
  }

  lemma MovedRowsReparented()
    ensures Reparent(FixtureRows, "f1", Some("f2"), 1) == MovedRows
  {
    var r := Reparent(FixtureRows, "f1", Some("f2"), 1);
    assert r.Keys == MovedRows.Keys;
  }

  /** The moved rows, as `buildTree` registers them, and their parent cycle. */
  lemma MovedArena()
    ensures DistinctIds(MovedDocs) && IdMap(MovedDocs) == MovedRows
    ensures ParentClosed(MovedRows, MovedRows.Keys)
  {
    var ns := MovedDocs;
    assert ns[0] == MovedF1 && ns[1] == F2 && ns[2] == D1;
    assert ns[..2] == [MovedF1, F2] && [MovedF1, F2][..1] == [MovedF1] && [MovedF1][..0] == [];
    assert IdMap([MovedF1]) == map["f1" := MovedF1];
    assert IdMap([MovedF1, F2]) == map["f1" := MovedF1, "f2" := F2];
    forall x | x in MovedRows.Keys
      ensures x in MovedRows && Truthy(MovedRows[x].parentId) && ParentOf(MovedRows, x) in MovedRows.Keys
    {
      assert x == "f1" || x == "f2" || x == "d1";
    }
  }

  /** What the tree endpoint then shows: f1, f2 and d1 hang only from one
      another, so the tree is the bare synthetic root. `buildTree` still
      returns a finite tree, and no record of the three lies below the root. */
  lemma TreeAfterWrittenMove()
    ensures exists h :: RankedFromRoot(SpecArena(MovedDocs), h)
    ensures forall h, x :: RankedFromRoot(SpecArena(MovedDocs), h) && x in MovedRows ==>
              !Below(TreeOf(SpecArena(MovedDocs), h), x)
  {
    MovedArena();
    RankingExists(MovedDocs);
    forall h, x | RankedFromRoot(SpecArena(MovedDocs), h) && x in MovedRows
      ensures !Below(TreeOf(SpecArena(MovedDocs), h), x)
    {
      ParentCycleDropped(MovedDocs, h, MovedRows.Keys, x);
    }
  }

  /** The corrected route refuses the same request and leaves the table as it
      was. */
  method CorrectedRouteRefusesCycle() returns (corrected: MoveOutcome, after: Rows)
    ensures corrected == CircularReference && after == FixtureRows
  {
    WrittenCheckMissesCycle();
    FixtureStamped();
    var t := new Table.Load(FixtureRows, 1);
    corrected := t.MoveRequest("f1", "u", Some("f2"));
    after := t.rows;
  }

  /** Finding 1: moving f1 into its own child f2 passes the database check,
      and the move closes the cycle f1 -> f2 -> f1. The corrected guard
      refuses it. */
  lemma WrittenCheckMissesCycle()
    ensures !CheckCircularReference(FixtureRows, "u", "f1", Some("f2"))
    ensures Acyclic(FixtureRows, "u") && !Acyclic(Reparent(FixtureRows, "f1", Some("f2"), 1), "u")
    ensures WouldCreateCycle(FixtureRows, "u", "f1", Some("f2"))
  {
    var below := {"f2", "d1"};
    forall c | c in ChildrenOf(FixtureRows, "u", below) ensures c in below {
      assert c == "f1" || c == "f2" || c == "d1";
    }
    NotBelow(FixtureRows, "u", below, "f2", "f1");
    FixtureAcyclic();
    var moved := Reparent(FixtureRows, "f1", Some("f2"), 1);
    var loop := ["f1", "f2", "f1"];
    assert ChildLink(moved, "u", "f1", "f2") && ChildLink(moved, "u", "f2", "f1");
    assert ChildPath(moved, "u", loop);
    assert ChildPath(FixtureRows, "u", ["f1", "f2"]);
  }

  /** The same check refuses the harmless move of d1 up into its grandparent
      f1, which the corrected guard allows and which keeps the hierarchy
      acyclic. */
  lemma WrittenCheckRefusesSafeMove()
    ensures CheckCircularReference(FixtureRows, "u", "d1", Some("f1"))
    ensures !WouldCreateCycle(FixtureRows, "u", "d1", Some("f1"))
    ensures Acyclic(Reparent(FixtureRows, "d1", Some("f1"), 1), "u")
  {
    assert ChildPath(FixtureRows, "u", ["f1", "f2", "d1"]);
    assert forall c :: c in FixtureRows ==> c == "f1" || c == "f2" || c == "d1";
    NotBelow(FixtureRows, "u", {"d1"}, "d1", "f1");
    FixtureAcyclic();
    MoveKeepsAcyclic(FixtureRows, "u", "d1", Some("f1"), 1);
  }

  /** Finding 2: both checks answer "no cycle" when a row is moved under
      itself, and the move makes it its own parent. */
  lemma SelfParentAccepted()
    ensures !CheckCircularReference(FixtureRows, "u", "f2", Some("f2"))
    ensures !Acyclic(Reparent(FixtureRows, "f2", Some("f2"), 1), "u")
    ensures forall tree: Node :: tree.FolderNode? ==> !HasCircularReference(tree, "f2", Some("f2"))
  {
    var moved := Reparent(FixtureRows, "f2", Some("f2"), 1);
    assert ChildLink(moved, "u", "f2", "f2");
    assert ChildPath(moved, "u", ["f2", "f2"]);
  }

  /** The corrected guard refuses every move of a row under itself. */
  lemma CorrectedRefusesSelfParent(rows: Rows, owner: string, id: string)
    requires OwnerRow(rows, owner, id)
    ensures WouldCreateCycle(rows, owner, id, Some(id))
  {
    assert ChildPath(rows, owner, [id]);
  }

  // ---------------------------------------------------------------------------
  // The in-memory check on the tree built from the same records

  lemma FixtureWellFormed()
    ensures WellFormedInput(FixtureDocs, FixtureHeights)
  {
    var ns := FixtureDocs;
    assert ns[0] == F1 && ns[1] == F2 && ns[2] == D1;
    assert ns[..2] == [F1, F2] && [F1, F2][..1] == [F1] && [F1][..0] == [];
    assert IdMap([F1]) == map["f1" := F1];
    assert IdMap([F1, F2]) == map["f1" := F1, "f2" := F2];
    assert IdMap(ns) == map["f1" := F1, "f2" := F2, "d1" := D1];
  }

  /** Every node of the tree that carries id `y` is the expansion of `y`:
      the arena determines the tree. */
  lemma {:induction false} NodesAreExpansions(ns: seq<Doc>, h: map<string, nat>, x: string, k: Node)
    requires Ranked(SpecArena(ns), h) && x in SpecArena(ns).records
    requires IsSubtree(k, Expand(SpecArena(ns), x, h))
    ensures k.doc.id in SpecArena(ns).records && k == Expand(SpecArena(ns), k.doc.id, h)
    decreases h[x]
  {
    var a := SpecArena(ns);
    var e := Expand(a, x, h);
    IdMapValues(ns);
    if k != e {
      var i :| 0 <= i < |e.children| && IsSubtree(k, e.children[i]);
      var c := a.children[Under(x)][i];
      assert e.children[i] == Expand(a, c, h);
      NodesAreExpansions(ns, h, c, k);
    }
  }

  /** On the same hierarchy the in-memory check refuses the move of f1 into
      f2 that the database check lets through. */
  lemma ChecksDisagree()
    ensures Ranked(SpecArena(FixtureDocs), FixtureHeights)
    ensures HasCircularReference(TreeOf(SpecArena(FixtureDocs), FixtureHeights), "f1", Some("f2"))
    ensures !CheckCircularReference(FixtureRows, "u", "f1", Some("f2"))
  {
    var ns := FixtureDocs;
    var h := FixtureHeights;
    FixtureWellFormed();
    ArenaFacts(ns, h);
    WrittenCheckMissesCycle();
    var a := SpecArena(ns);
    var t := TreeOf(a, h);
    assert "f1" in a.children[Root] by {
      RootAdoptsParentless(ns, 0);
    }
    assert "f2" in a.children[Under("f1")] by {
      FolderAdoptsChild(ns, 1);
    }
    var ri :| 0 <= ri < |a.children[Root]| && a.children[Root][ri] == "f1";
    var e1 := Expand(a, "f1", h);
    assert t.children[ri] == e1;
    assert Occurs(t.children[ri], "f1");
    var fi :| 0 <= fi < |a.children[Under("f1")]| && a.children[Under("f1")][fi] == "f2";
    assert e1.children[fi] == Expand(a, "f2", h);
    assert Occurs(e1.children[fi], "f2");
    var k := FindNode(t, "f1").value;
    assert k.doc.id == "f1" && IsSubtree(k, t);
    var i :| 0 <= i < |t.children| && IsSubtree(k, t.children[i]);
    assert t.children[i] == Expand(a, a.children[Root][i], h);
    NodesAreExpansions(ns, h, a.children[Root][i], k);
    assert k == e1 && Below(e1, "f2");
  }
}
