/** `DocumentTreeBuilder.buildTree` and `buildUserTree` of app/lib/composite.ts,
    and the child-list operations of `FolderNode`, over an arena: one map from
    id to record (the builder's `nodeMap`) and one child-id list per folder,
    the synthetic root included. */
module TreeBuilder {
  import opened Records
  import opened CompositeTree

  /** Whose child list: the synthetic root's or that of the folder with an id. */
  datatype Slot = Root | Under(id: string)

  datatype Arena = Arena(records: map<string, Doc>, children: map<Slot, seq<string>>) {
    /** Exactly the root and the folders own a child list, and every child
        named in a list is a registered record. */
    ghost predicate Valid()
    {
      && Root in children
      && (forall s :: s in children && s.Under? ==> s.id in records && records[s.id].docType == Folder)
      && (forall p :: p in records && records[p].docType == Folder ==> Under(p) in children)
      && (forall s, c :: s in children && c in children[s] ==> c in records)
    }
  }

  /** The slots that own a child list once `m` is registered. */
  function FolderSlots(m: map<string, Doc>): (r: set<Slot>)
    ensures forall s :: s in r <==> s.Root? || (s.id in m && m[s.id].docType == Folder)
  {
    var r := {Root} + set p | p in m && m[p].docType == Folder :: Under(p);
    assert forall s: Slot :: s.Under? && s.id in m && m[s.id].docType == Folder ==> s == Under(s.id);
    r
  }

  /** `nodeMap` after the first `forEach`: `set` overwrites, so the last record
      with a given id wins. */
  function IdMap(ns: seq<Doc>): (m: map<string, Doc>)
    ensures forall id :: id in m <==> exists i :: 0 <= i < |ns| && ns[i].id == id
  {
    if ns == [] then map[]
    else
      var m := IdMap(ns[..|ns| - 1])[ns[|ns| - 1].id := ns[|ns| - 1]];
      assert forall i :: 0 <= i < |ns| - 1 ==> ns[..|ns| - 1][i] == ns[i];
      m
  }

  /** Where the second `forEach` attaches a record: under the root when its
      `parent_id` is falsy, under its parent when that parent is a registered
      folder, and nowhere otherwise. */
  function AttachSlot(m: map<string, Doc>, n: Doc): Option<Slot>
  {
    if !Truthy(n.parentId) then Some(Root)
    else if n.parentId.value in m && m[n.parentId.value].docType == Folder then Some(Under(n.parentId.value))
    else None
  }

  /** The ids appended to slot `s` while the second `forEach` walks `ns`. */
  function KidsOf(m: map<string, Doc>, ns: seq<Doc>, s: Slot): (r: seq<string>)
    ensures forall c :: c in r ==> exists i :: 0 <= i < |ns| && ns[i].id == c && AttachSlot(m, ns[i]) == Some(s)
  {
    if ns == [] then []
    else
      var n := ns[|ns| - 1];
      var r := KidsOf(m, ns[..|ns| - 1], s) + (if AttachSlot(m, n) == Some(s) then [n.id] else []);
      assert forall i :: 0 <= i < |ns| - 1 ==> ns[..|ns| - 1][i] == ns[i];
      r
  }

  /** The arena `buildTree(ns)` leaves behind. */
  function SpecArena(ns: seq<Doc>): Arena
  {
    var m := IdMap(ns);
    Arena(m, map s | s in FolderSlots(m) :: KidsOf(m, ns, s))
  }

  /** `nodes.filter(child => child.id !== childId)` on a child-id list. */
  function Without(s: seq<string>, x: string): (r: seq<string>)
    ensures x !in r
    ensures forall y :: y in r <==> y in s && y != x
  {
    if s == [] then [] else (if s[0] == x then [] else [s[0]]) + Without(s[1..], x)
  }

  /** `removeChild` keeps the other children in their order: the filter
      distributes over concatenation. */
  lemma {:induction false} WithoutConcat(s: seq<string>, t: seq<string>, x: string)
    ensures Without(s + t, x) == Without(s, x) + Without(t, x)
  {
    if s == [] {
      assert s + t == t;
    } else {
      assert (s + t)[1..] == s[1..] + t;
      WithoutConcat(s[1..], t, x);
    }
  }

  /** `removeChild` removes every occurrence and nothing else. */
  lemma {:induction false} WithoutCounts(s: seq<string>, x: string)
    ensures multiset(Without(s, x)) == multiset(s)[x := 0]
  {
    if s != [] {
      WithoutCounts(s[1..], x);
      assert s == [s[0]] + s[1..];
    }
  }

  /** The builder's state: `nodeMap` and the child list of every folder (the
      synthetic root's included). */
  class DocumentTree {
    var records: map<string, Doc>
    var children: map<Slot, seq<string>>

    function View(): Arena
      reads this
    {
      Arena(records, children)
    }

    /** An empty `nodeMap` and `new FolderNode('root', …)` with no children. */
    constructor ()
      ensures records == map[] && children == map[Root := []]
      ensures View().Valid()
    {
      records := map[];
      children := map[Root := []];
    }

    /** `nodeMap.set(node.id, compositeNode)`: a folder record gets a fresh,
        empty child list; a file record has none. */
    method Register(d: Doc)
      requires View().Valid()
      modifies this
      ensures records == old(records)[d.id := d]
      ensures children == if d.docType == Folder then old(children)[Under(d.id) := []]
                          else old(children) - {Under(d.id)}
      ensures View().Valid()
    {
      records := records[d.id := d];
      if d.docType == Folder {
        children := children[Under(d.id) := []];
      } else {
        children := children - {Under(d.id)};
      }
    }

    /** `addChild`: `children.push(child)`. */
    method AddChild(parent: Slot, childId: string)
      requires View().Valid() && parent in children && childId in records
      modifies this
      ensures records == old(records)
      ensures children == old(children)[parent := old(children)[parent] + [childId]]
      ensures View().Valid()
    {
      children := children[parent := children[parent] + [childId]];
    }

    /** `removeChild`: the child list is replaced by its filter. */
    method RemoveChild(parent: Slot, childId: string)
      requires View().Valid() && parent in children
      modifies this
      ensures records == old(records)
      ensures children == old(children)[parent := Without(old(children)[parent], childId)]
      ensures View().Valid()
    {
      children := children[parent := Without(children[parent], childId)];
    }

    /** `getChild`: the first child with the id, if any. */
    function GetChild(parent: Slot, childId: string): (r: Option<Doc>)
      requires View().Valid() && parent in children
      reads this
      ensures r.Some? <==> childId in children[parent]
      ensures r.Some? ==> childId in records && r.value == records[childId]
    {
      if childId in children[parent] then Some(records[childId]) else None
    }

    /** `hasChildren`. */
    function HasChildren(parent: Slot): (r: bool)
      requires parent in children
      reads this
      ensures r <==> children[parent] != []
    {
      |children[parent]| > 0
    }
  }

  /** The state after registering the records `ns`. */
  function Registered(ns: seq<Doc>): Arena
  {
    var m := IdMap(ns);
    Arena(m, map s | s in FolderSlots(m) :: [])
  }

  /** Registering one more record changes the state as `Register` does. */
  lemma RegisterStep(ns: seq<Doc>, d: Doc)
    ensures var before := Registered(ns);
            Registered(ns + [d]) == Arena(before.records[d.id := d],
              if d.docType == Folder then before.children[Under(d.id) := []]
              else before.children - {Under(d.id)})
  {
    assert (ns + [d])[..|ns + [d]| - 1] == ns;
  }

  /** The child lists after attaching the records `prefix`. */
  function Attached(m: map<string, Doc>, prefix: seq<Doc>): map<Slot, seq<string>>
  {
    map s | s in FolderSlots(m) :: KidsOf(m, prefix, s)
  }

  /** Attaching one more record appends its id to the list of the slot
      `AttachSlot` picks, and to no other. */
  lemma KidsStep(m: map<string, Doc>, prefix: seq<Doc>, n: Doc, s: Slot)
    ensures KidsOf(m, prefix + [n], s) == KidsOf(m, prefix, s) + (if AttachSlot(m, n) == Some(s) then [n.id] else [])
  {
    assert (prefix + [n])[..|prefix|] == prefix;
  }

  lemma AttachStep(m: map<string, Doc>, prefix: seq<Doc>, n: Doc)
    ensures AttachSlot(m, n).Some? ==> AttachSlot(m, n).value in FolderSlots(m)
    ensures Attached(m, prefix + [n]) ==
              match AttachSlot(m, n)
              case None => Attached(m, prefix)
              case Some(s) => Attached(m, prefix)[s := Attached(m, prefix)[s] + [n.id]]
  {
    var lhs, before := Attached(m, prefix + [n]), Attached(m, prefix);
    forall s | s in FolderSlots(m)
      ensures lhs[s] == before[s] + (if AttachSlot(m, n) == Some(s) then [n.id] else [])
    {
      KidsStep(m, prefix, n, s);
    }
    match AttachSlot(m, n) {
      case None =>
        assert lhs.Keys == before.Keys;
        forall s | s in lhs ensures lhs[s] == before[s] {
          assert before[s] + [] == before[s];
        }
      case Some(s0) =>
        if s0.Under? {
          assert s0.id in m && m[s0.id].docType == Folder;
        }
        var rhs := before[s0 := before[s0] + [n.id]];
        assert lhs.Keys == rhs.Keys;
        assert forall s :: s in lhs ==> lhs[s] == rhs[s];
    }
  }

  /** The first pass of `buildTree`: every record into `nodeMap`, in input
      order. */
  method RegisterAll(nodes: seq<Doc>) returns (t: DocumentTree)
    ensures fresh(t)
    ensures t.View() == Registered(nodes) && t.View().Valid()
  {
    t := new DocumentTree();
    assert t.View() == Registered(nodes[..0]);
    for i := 0 to |nodes|
      invariant t.View() == Registered(nodes[..i]) && t.View().Valid()
    {
      RegisterStep(nodes[..i], nodes[i]);
      assert nodes[..i + 1] == nodes[..i] + [nodes[i]];
      t.Register(nodes[i]);
    }
    assert nodes[..|nodes|] == nodes;
  }

  /** The second pass of `buildTree`: each record, in input order, under the
      slot `AttachSlot` chooses, or nowhere. */
  method AttachAll(t: DocumentTree, nodes: seq<Doc>)
    requires t.View() == Registered(nodes) && t.View().Valid()
    modifies t
    ensures t.View() == SpecArena(nodes) && t.View().Valid()
  {
    ghost var m := IdMap(nodes);
    assert t.children == Attached(m, nodes[..0]);
    for i := 0 to |nodes|
      invariant t.records == m && t.View().Valid()
      invariant t.children == Attached(m, nodes[..i])
    {
      var n := nodes[i];
      AttachStep(m, nodes[..i], n);
      assert nodes[..i + 1] == nodes[..i] + [n];
      assert n.id in t.records;
      if Truthy(n.parentId) {
        var p := n.parentId.value;
        if p in t.records && t.records[p].docType == Folder {
          t.AddChild(Under(p), n.id);
        }
      } else {
        t.AddChild(Root, n.id);
      }
    }
    assert nodes[..|nodes|] == nodes;
  }

  /** `DocumentTreeBuilder.buildTree`: register every record, then attach every
      record. */
  method BuildTree(nodes: seq<Doc>) returns (t: DocumentTree)
    ensures fresh(t)
    ensures t.View() == SpecArena(nodes) && t.View().Valid()
  {
    t := RegisterAll(nodes);
    AttachAll(t, nodes);
  }

  /** `buildUserTree`: the tree of one owner's records. */
  method BuildUserTree(nodes: seq<Doc>, userId: string) returns (t: DocumentTree)
    ensures fresh(t)
    ensures t.View() == SpecArena(OwnedBy(nodes, userId)) && t.View().Valid()
    ensures forall id :: id in t.records ==> t.records[id].userId == userId
  {
    t := BuildTree(OwnedBy(nodes, userId));
    IdMapValues(OwnedBy(nodes, userId));
  }

  // ---------------------------------------------------------------------------
  // Properties of the built arena

  /** Every registered record is one of the input records. */
  lemma {:induction false} IdMapValues(ns: seq<Doc>)
    ensures forall id :: id in IdMap(ns) ==> IdMap(ns)[id] in ns && IdMap(ns)[id].id == id
  {
    if ns != [] {
      IdMapValues(ns[..|ns| - 1]);
      assert forall d :: d in ns[..|ns| - 1] ==> d in ns;
    }
  }

  /** `set` overwrites: the record kept under an id is the last input record
      with that id. */
  lemma {:induction false} IdMapKeepsLast(ns: seq<Doc>, i: nat)
    requires i < |ns| && forall j :: i < j < |ns| ==> ns[j].id != ns[i].id
    ensures ns[i].id in IdMap(ns) && IdMap(ns)[ns[i].id] == ns[i]
  {
    if i < |ns| - 1 {
      var init := ns[..|ns| - 1];
      assert forall j :: i < j < |init| ==> init[j] == ns[j];
      IdMapKeepsLast(init, i);
    }
  }

  /** With distinct ids each input record is the one registered under its id. */
  lemma {:induction false} IdMapDistinct(ns: seq<Doc>)
    requires DistinctIds(ns)
    ensures forall i :: 0 <= i < |ns| ==> ns[i].id in IdMap(ns) && IdMap(ns)[ns[i].id] == ns[i]
  {
    if ns != [] {
      var init := ns[..|ns| - 1];
      assert forall i :: 0 <= i < |init| ==> init[i] == ns[i];
      IdMapDistinct(init);
    }
  }

  lemma SpecArenaValid(ns: seq<Doc>)
    ensures SpecArena(ns).Valid()
  {
    var a := SpecArena(ns);
    IdMapValues(ns);
    forall s, c | s in a.children && c in a.children[s] ensures c in a.records {
      var i :| 0 <= i < |ns| && ns[i].id == c && AttachSlot(a.records, ns[i]) == Some(s);
    }
  }

  /** Membership in a child list: a record is listed under slot `s` exactly
      when some input record with its id attaches there. */
  lemma {:induction false} KidsOfMembers(m: map<string, Doc>, ns: seq<Doc>, s: Slot, c: string)
    ensures c in KidsOf(m, ns, s) <==> exists i :: 0 <= i < |ns| && ns[i].id == c && AttachSlot(m, ns[i]) == Some(s)
  {
    if ns != [] {
      var init := ns[..|ns| - 1];
      KidsOfMembers(m, init, s, c);
      assert forall i :: 0 <= i < |init| ==> init[i] == ns[i];
      if exists i :: 0 <= i < |ns| && ns[i].id == c && AttachSlot(m, ns[i]) == Some(s) {
        var i :| 0 <= i < |ns| && ns[i].id == c && AttachSlot(m, ns[i]) == Some(s);
        if i < |init| {
          assert init[i] == ns[i];
        }
      }
    }
  }

  /** A record with a falsy `parent_id` becomes a child of the synthetic root. */
  lemma RootAdoptsParentless(ns: seq<Doc>, i: nat)
    requires i < |ns| && !Truthy(ns[i].parentId)
    ensures ns[i].id in SpecArena(ns).children[Root]
  {
    KidsOfMembers(IdMap(ns), ns, Root, ns[i].id);
  }

  /** A record whose `parent_id` names a registered folder is in that folder's
      child list. */
  lemma FolderAdoptsChild(ns: seq<Doc>, i: nat)
    requires i < |ns| && Truthy(ns[i].parentId)
    requires ns[i].parentId.value in IdMap(ns) && IdMap(ns)[ns[i].parentId.value].docType == Folder
    ensures Under(ns[i].parentId.value) in SpecArena(ns).children
    ensures ns[i].id in SpecArena(ns).children[Under(ns[i].parentId.value)]
  {
    KidsOfMembers(IdMap(ns), ns, Under(ns[i].parentId.value), ns[i].id);
  }

  /** With distinct ids, a record whose parent is missing or is a file is in
      no child list at all: it is silently left out of the tree. */
  lemma OrphanDropped(ns: seq<Doc>, i: nat)
    requires DistinctIds(ns)
    requires i < |ns| && Truthy(ns[i].parentId)
    requires !(ns[i].parentId.value in IdMap(ns) && IdMap(ns)[ns[i].parentId.value].docType == Folder)
    ensures forall s :: s in SpecArena(ns).children ==> ns[i].id !in SpecArena(ns).children[s]
  {
    var a := SpecArena(ns);
    forall s | s in a.children ensures ns[i].id !in a.children[s] {
      KidsOfMembers(a.records, ns, s, ns[i].id);
    }
  }

  /** Siblings keep the relative order of the input: `addChild` only appends. */
  lemma {:induction false} KidsKeepInputOrder(m: map<string, Doc>, ns: seq<Doc>, s: Slot, i: nat, j: nat)
    requires i < j < |ns|
    requires AttachSlot(m, ns[i]) == Some(s) && AttachSlot(m, ns[j]) == Some(s)
    ensures exists p, q :: 0 <= p < q < |KidsOf(m, ns, s)| &&
                           KidsOf(m, ns, s)[p] == ns[i].id && KidsOf(m, ns, s)[q] == ns[j].id
  {
    var init := ns[..|ns| - 1];
    assert forall k :: 0 <= k < |init| ==> init[k] == ns[k];
    if j == |ns| - 1 {
      KidsOfMembers(m, init, s, ns[i].id);
      var k := KidsOf(m, init, s);
      var p :| 0 <= p < |k| && k[p] == ns[i].id;
      assert KidsOf(m, ns, s) == k + [ns[j].id];
      assert KidsOf(m, ns, s)[p] == ns[i].id && KidsOf(m, ns, s)[|k|] == ns[j].id;
    } else {
      KidsKeepInputOrder(m, init, s, i, j);
      var k := KidsOf(m, init, s);
      var p, q :| 0 <= p < q < |k| && k[p] == ns[i].id && k[q] == ns[j].id;
      KidsStep(m, init, ns[|ns| - 1], s);
      assert ns == init + [ns[|ns| - 1]];
      var all := KidsOf(m, ns, s);
      assert |k| <= |all| && all[p] == k[p] && all[q] == k[q];
    }
  }

  /** The tree `buildUserTree` returns holds only the given owner's records. */
  lemma UserTreeIsOwners(nodes: seq<Doc>, userId: string)
    ensures forall id :: id in SpecArena(OwnedBy(nodes, userId)).records ==>
              SpecArena(OwnedBy(nodes, userId)).records[id].userId == userId
  {
    IdMapValues(OwnedBy(nodes, userId));
  }

  // ---------------------------------------------------------------------------
  // The tree view of the arena

  /** `h` ranks every id reachable from the synthetic root: those ids are in
      `h`, and a child always has a smaller height than its parent. Then the
      object graph the traversals walk from the root is a finite tree.
      Records that the root does not reach (a parent cycle, say) need no
      height: no traversal ever visits them. */
  ghost predicate RankedFromRoot(a: Arena, h: map<string, nat>)
  {
    && a.Valid()
    && (forall c :: c in a.children[Root] ==> c in h)
    && (forall p, c :: p in h && Under(p) in a.children && c in a.children[Under(p)] ==> c in h && h[c] < h[p])
  }

  /** `h` ranks the whole arena: no folder is its own descendant anywhere. */
  ghost predicate Ranked(a: Arena, h: map<string, nat>)
  {
    && RankedFromRoot(a, h)
    && (forall id :: id in a.records ==> id in h)
  }

  /** The node object `nodeMap` holds for `id`, with everything below it. */
  function Expand(a: Arena, id: string, ghost h: map<string, nat>): (n: Node)
    requires RankedFromRoot(a, h) && id in a.records && id in h
    ensures n.doc == a.records[id]
    ensures n.FileNode? <==> a.records[id].docType == File
    decreases h[id]
  {
    var d := a.records[id];
    if d.docType == File then FileNode(d)
    else
      var cs := a.children[Under(id)];
      FolderNode(d, seq(|cs|, i requires 0 <= i < |cs| => Expand(a, cs[i], h)))
  }

  /** The `FolderNode` `buildTree` returns: the synthetic root over its children. */
  function TreeOf(a: Arena, ghost h: map<string, nat>): (t: Node)
    requires RankedFromRoot(a, h)
    ensures t.FolderNode? && t.doc == RootDoc && |t.children| == |a.children[Root]|
  {
    var cs := a.children[Root];
    FolderNode(RootDoc, seq(|cs|, i requires 0 <= i < |cs| => Expand(a, cs[i], h)))
  }

  // ---------------------------------------------------------------------------
  // With distinct ids the root always reaches a finite tree

  /** Every listed child sits in the list its own `parent_id` selects: the
      root's list exactly when that parent is falsy. */
  ghost predicate ParentLinked(a: Arena)
  {
    forall s, c :: s in a.children && c in a.children[s] ==>
      && c in a.records
      && (s.Root? <==> !Truthy(a.records[c].parentId))
      && (s.Under? ==> a.records[c].parentId.value == s.id)
  }

  /** With distinct ids the built arena links every child by its own parent. */
  lemma SpecArenaParentLinked(ns: seq<Doc>)
    requires DistinctIds(ns)
    ensures ParentLinked(SpecArena(ns))
  {
    var a := SpecArena(ns);
    IdMapDistinct(ns);
    forall s, c | s in a.children && c in a.children[s]
      ensures c in a.records && (s.Root? <==> !Truthy(a.records[c].parentId))
      ensures s.Under? ==> a.records[c].parentId.value == s.id
    {
      var i :| 0 <= i < |ns| && ns[i].id == c && AttachSlot(a.records, ns[i]) == Some(s);
      assert a.records[c] == ns[i];
    }
  }

  /** `x` is reached from the root in exactly `k` steps down, each step from a
      folder to a child whose `parent_id` names that folder. */
  ghost predicate ReachIn(a: Arena, x: string, k: nat)
    decreases k
  {
    if k == 0 then Root in a.children && x in a.children[Root]
    else
      && x in a.records && Truthy(a.records[x].parentId)
      && Under(a.records[x].parentId.value) in a.children
      && x in a.children[Under(a.records[x].parentId.value)]
      && ReachIn(a, a.records[x].parentId.value, k - 1)
  }

  /** A record has at most one depth below the root. */
  lemma {:induction false} DepthUnique(a: Arena, x: string, k: nat, j: nat)
    requires a.Valid() && ParentLinked(a)
    requires ReachIn(a, x, k) && ReachIn(a, x, j)
    ensures k == j
    decreases k
  {
    if k > 0 && j > 0 {
      DepthUnique(a, a.records[x].parentId.value, k - 1, j - 1);
    }
  }

  /** The ids met on the way up from `x` to the root's list, `x` first. */
  ghost function Chain(a: Arena, x: string, k: nat): (r: seq<string>)
    requires ReachIn(a, x, k)
    ensures |r| == k + 1
    ensures forall i :: 0 <= i < |r| ==> ReachIn(a, r[i], k - i)
    decreases k
  {
    if k == 0 then [x] else [x] + Chain(a, a.records[x].parentId.value, k - 1)
  }

  /** A sequence without repeats drawn from a set is no longer than the set. */
  lemma {:induction false} DistinctWithin(r: seq<string>, s: set<string>)
    requires forall i, j :: 0 <= i < j < |r| ==> r[i] != r[j]
    requires forall i :: 0 <= i < |r| ==> r[i] in s
    ensures |r| <= |s|
  {
    if r != [] {
      DistinctWithin(r[1..], s - {r[0]});
    }
  }

  /** A reached record lies fewer steps below the root than there are records. */
  lemma DepthBound(a: Arena, x: string, k: nat)
    requires a.Valid() && ParentLinked(a) && ReachIn(a, x, k)
    ensures k < |a.records|
  {
    var r := Chain(a, x, k);
    forall i, j | 0 <= i < j < |r| ensures r[i] != r[j] {
      if r[i] == r[j] {
        DepthUnique(a, r[i], k - i, k - j);
      }
    }
    forall i | 0 <= i < |r| ensures r[i] in a.records.Keys {
      if k - i > 0 {
      } else {
        assert r[i] in a.children[Root];
      }
    }
    DistinctWithin(r, a.records.Keys);
  }

  /** The child of a reached folder is reached one step further down. */
  lemma ReachStep(a: Arena, p: string, c: string, k: nat)
    requires a.Valid() && ParentLinked(a) && ReachIn(a, p, k)
    requires Under(p) in a.children && c in a.children[Under(p)]
    ensures ReachIn(a, c, k + 1)
  {
  }

  ghost predicate Reachable(a: Arena, x: string)
  {
    exists k :: ReachIn(a, x, k)
  }

  /** How many steps below the root a reached record lies. */
  ghost function Depth(a: Arena, x: string): (k: nat)
    requires a.Valid() && ParentLinked(a) && Reachable(a, x)
    ensures ReachIn(a, x, k) && k < |a.records|
  {
    var k :| ReachIn(a, x, k);
    DepthBound(a, x, k);
    k
  }

  /** Heights for the reached records: fewer steps below the root, taller. */
  ghost function DepthHeights(a: Arena): (h: map<string, nat>)
    requires a.Valid() && ParentLinked(a)
  {
    map x | x in a.records && Reachable(a, x) :: |a.records| - Depth(a, x)
  }

  /** In an arena that links children by their parents the depth heights
      rank everything the root reaches. */
  lemma DepthHeightsRank(a: Arena)
    requires a.Valid() && ParentLinked(a)
    ensures RankedFromRoot(a, DepthHeights(a))
  {
    var h := DepthHeights(a);
    forall c | c in a.children[Root] ensures c in h {
      assert ReachIn(a, c, 0);
    }
    forall p, c | p in h && Under(p) in a.children && c in a.children[Under(p)]
      ensures c in h && h[c] < h[p]
    {
      var k := Depth(a, p);
      ReachStep(a, p, c, k);
      assert Reachable(a, c);
      DepthUnique(a, c, Depth(a, c), k + 1);
    }
  }

  /** With distinct ids `buildTree` always returns a finite tree: the ids the
      root reaches can be ranked, whatever parent cycles the input holds. */
  lemma RankingExists(ns: seq<Doc>)
    requires DistinctIds(ns)
    ensures exists h :: RankedFromRoot(SpecArena(ns), h)
  {
    SpecArenaValid(ns);
    SpecArenaParentLinked(ns);
    DepthHeightsRank(SpecArena(ns));
  }

  /** Records each of whose parents is again one of them: a parent cycle,
      with whatever hangs below it. */
  ghost predicate ParentClosed(m: map<string, Doc>, cyc: set<string>)
  {
    forall x {:trigger ParentOf(m, x)} :: x in cyc ==> x in m && Truthy(m[x].parentId) && ParentOf(m, x) in cyc
  }

  /** The id a record's `parent_id` names (the empty id when it names none). */
  function ParentOf(m: map<string, Doc>, x: string): string
  {
    if x in m && m[x].parentId.Some? then m[x].parentId.value else ""
  }

  /** A subtree that holds a record of a parent-closed set is itself rooted in
      that set. */
  lemma {:induction false} ClosedUpward(a: Arena, h: map<string, nat>, cyc: set<string>, id: string, x: string)
    requires RankedFromRoot(a, h) && ParentLinked(a) && ParentClosed(a.records, cyc)
    requires forall k :: k in a.records ==> a.records[k].id == k
    requires id in a.records && id in h && x in cyc && Occurs(Expand(a, id, h), x)
    ensures id in cyc
    decreases h[id]
  {
    var e := Expand(a, id, h);
    if e.doc.id != x {
      var i :| 0 <= i < |e.children| && Occurs(e.children[i], x);
      assert a.records[id].docType == Folder && Under(id) in a.children;
      var c := a.children[Under(id)][i];
      assert c in a.children[Under(id)];
      assert c in a.records && c in h;
      assert e.children[i] == Expand(a, c, h);
      ClosedUpward(a, h, cyc, c, x);
      ParentOfClosed(a, cyc, id, c);
    }
  }

  /** The folder a record of a parent-closed set is listed under is in the set. */
  lemma ParentOfClosed(a: Arena, cyc: set<string>, p: string, c: string)
    requires ParentLinked(a) && ParentClosed(a.records, cyc)
    requires Under(p) in a.children && c in a.children[Under(p)] && c in cyc
    ensures p in cyc
  {
    assert ParentOf(a.records, c) == p;
  }

  /** A child of the root has a falsy parent, so it is outside any
      parent-closed set. */
  lemma RootChildOutside(a: Arena, cyc: set<string>, c: string)
    requires a.Valid() && ParentLinked(a) && ParentClosed(a.records, cyc)
    requires c in a.children[Root]
    ensures c !in cyc
  {
    if c in cyc {
      ClosedMember(a.records, cyc, c);
      assert false;
    }
  }

  lemma ClosedMember(m: map<string, Doc>, cyc: set<string>, x: string)
    requires ParentClosed(m, cyc) && x in cyc
    ensures x in m && Truthy(m[x].parentId) && ParentOf(m, x) in cyc
  {
    var p := ParentOf(m, x);
  }

  /** No child of the root holds a record of a parent-closed set. */
  lemma ClosedNotBelowRoot(a: Arena, h: map<string, nat>, cyc: set<string>, x: string)
    requires RankedFromRoot(a, h) && ParentLinked(a) && ParentClosed(a.records, cyc)
    requires forall k :: k in a.records ==> a.records[k].id == k
    requires x in cyc
    ensures !Below(TreeOf(a, h), x)
  {
    var t := TreeOf(a, h);
    if Below(t, x) {
      var i :| 0 <= i < |t.children| && Occurs(t.children[i], x);
      var c := a.children[Root][i];
      assert t.children[i] == Expand(a, c, h);
      RootChildOutside(a, cyc, c);
      ClosedUpward(a, h, cyc, c, x);
      assert false;
    }
  }

  /** With distinct ids a record on a parent cycle, and everything below it,
      is attached only under other records of the cycle: it appears nowhere
      below the synthetic root, and the tree silently leaves it out. */
  lemma ParentCycleDropped(ns: seq<Doc>, h: map<string, nat>, cyc: set<string>, x: string)
    requires DistinctIds(ns) && RankedFromRoot(SpecArena(ns), h)
    requires ParentClosed(IdMap(ns), cyc) && x in cyc
    ensures !Below(TreeOf(SpecArena(ns), h), x)
  {
    SpecArenaParentLinked(ns);
    IdMapValues(ns);
    ClosedNotBelowRoot(SpecArena(ns), h, cyc, x);
  }
}
