/** The round trip of app/lib/composite.ts: flattening the tree `buildTree`
    makes ("flat array for DB storage") gives back the synthetic root record
    followed by every input record exactly once. */
module TreeRoundTrip {
  import opened Records
  import opened CompositeTree
  import opened TreeBuilder

  /** The inputs the round trip is promised for: distinct ids, folders stored
      without content (as `createDocument` stores them), and every truthy
      `parent_id` naming a folder of the input whose height `h` exceeds the
      child's (so the parent graph has no cycle). */
  ghost predicate WellFormedInput(ns: seq<Doc>, h: map<string, nat>)
  {
    && DistinctIds(ns)
    && (forall i :: 0 <= i < |ns| ==> ns[i].id in h)
    && (forall i :: 0 <= i < |ns| && ns[i].docType == Folder ==> ns[i].content == None)
    && (forall i :: 0 <= i < |ns| && Truthy(ns[i].parentId) ==>
          ns[i].parentId.value in IdMap(ns) && IdMap(ns)[ns[i].parentId.value].docType == Folder &&
          ns[i].parentId.value in h && h[ns[i].id] < h[ns[i].parentId.value])
  }

  /** What a well-formed input says about the arena `buildTree` makes. */
  lemma ArenaFacts(ns: seq<Doc>, h: map<string, nat>)
    requires WellFormedInput(ns, h)
    ensures Ranked(SpecArena(ns), h)
    ensures var m := SpecArena(ns).records;
            && (forall i :: 0 <= i < |ns| ==> ns[i].id in m && m[ns[i].id] == ns[i])
            && (forall y :: y in m ==> m[y] in ns && m[y].id == y && y in h)
            && (forall y :: y in m && m[y].docType == Folder ==> m[y].content == None)
            && (forall y :: y in m && Truthy(m[y].parentId) ==>
                  m[y].parentId.value in m && m[m[y].parentId.value].docType == Folder &&
                  h[y] < h[m[y].parentId.value])
    ensures var a := SpecArena(ns);
            && (forall c :: c in a.children[Root] <==> c in a.records && !Truthy(a.records[c].parentId))
            && (forall p, c :: Under(p) in a.children ==>
                  (c in a.children[Under(p)] <==>
                     c in a.records && Truthy(a.records[c].parentId) && a.records[c].parentId.value == p))
  {
    var a := SpecArena(ns);
    var m := a.records;
    IdMapValues(ns);
    IdMapDistinct(ns);
    SpecArenaValid(ns);
    forall y | y in m && Truthy(m[y].parentId)
      ensures m[y].parentId.value in m && m[m[y].parentId.value].docType == Folder && h[y] < h[m[y].parentId.value]
    {
      var i :| 0 <= i < |ns| && ns[i] == m[y];
    }
    forall s, c | s in a.children
      ensures c in a.children[s] <==> c in m && AttachSlot(m, m[c]) == Some(s)
    {
      KidsOfMembers(m, ns, s, c);
      if c in m {
        var i :| 0 <= i < |ns| && ns[i] == m[c];
      }
    }
    forall p, c | Under(p) in a.children && c in a.children[Under(p)] ensures h[c] < h[p] {
    }
  }

  /** The record stored under `x` is the input record with that id. */
  lemma StoredRecord(ns: seq<Doc>, h: map<string, nat>, x: string)
    requires WellFormedInput(ns, h) && x in SpecArena(ns).records
    ensures var m := SpecArena(ns).records;
            && m[x].id == x && m[x] in ns
            && (m[x].docType == Folder ==> m[x].content == None)
            && (forall r :: r in ns && r.id == x ==> r == m[x])
  {
    ArenaFacts(ns, h);
  }

  /** A child of the root has a falsy parent; a child of a folder names it. */
  lemma ChildParent(ns: seq<Doc>, h: map<string, nat>, s: Slot, c: string)
    requires WellFormedInput(ns, h) && s in SpecArena(ns).children && c in SpecArena(ns).children[s]
    ensures var m := SpecArena(ns).records;
            && c in m
            && (s.Root? ==> !Truthy(m[c].parentId))
            && (s.Under? ==> Truthy(m[c].parentId) && m[c].parentId.value == s.id)
  {
    ArenaFacts(ns, h);
  }

  /** A record with a falsy parent sits in the root's list; any other sits
      in the list of its parent folder, one height below it. */
  lemma ParentSlot(ns: seq<Doc>, h: map<string, nat>, y: string)
    requires WellFormedInput(ns, h) && y in SpecArena(ns).records
    ensures var a := SpecArena(ns);
            var d := a.records[y];
            && d.id == y && Root in a.children
            && (!Truthy(d.parentId) ==> y in a.children[Root])
            && (Truthy(d.parentId) ==>
                  && d.parentId.value in a.records && Under(d.parentId.value) in a.children
                  && y in a.children[Under(d.parentId.value)]
                  && y in h && d.parentId.value in h && h[y] < h[d.parentId.value])
  {
    ArenaFacts(ns, h);
  }

  /** Going up: a node strictly inside the subtree of `x` has a parent that is
      also inside it. */
  lemma {:induction false} OccursUp(ns: seq<Doc>, h: map<string, nat>, x: string, y: string)
    requires WellFormedInput(ns, h)
    requires Ranked(SpecArena(ns), h) && x in SpecArena(ns).records
    requires Occurs(Expand(SpecArena(ns), x, h), y) && y != x
    ensures var m := SpecArena(ns).records;
            y in m && Truthy(m[y].parentId) && Occurs(Expand(SpecArena(ns), x, h), m[y].parentId.value)
    decreases h[x]
  {
    ArenaFacts(ns, h);
    var a := SpecArena(ns);
    var e := Expand(a, x, h);
    var i :| 0 <= i < |e.children| && Occurs(e.children[i], y);
    var c := a.children[Under(x)][i];
    assert e.children[i] == Expand(a, c, h);
    if y == c {
      assert Occurs(e, x);
    } else {
      OccursUp(ns, h, c, y);
      assert Occurs(e, a.records[y].parentId.value);
    }
  }

  /** Going down: the subtree of `x` holds the whole subtree of each node in it. */
  lemma {:induction false} OccursDown(ns: seq<Doc>, h: map<string, nat>, x: string, p: string, y: string)
    requires Ranked(SpecArena(ns), h) && x in SpecArena(ns).records
    requires Under(p) in SpecArena(ns).children && y in SpecArena(ns).children[Under(p)]
    requires Occurs(Expand(SpecArena(ns), x, h), p)
    ensures Occurs(Expand(SpecArena(ns), x, h), y)
    decreases h[x]
  {
    IdMapValues(ns);
    var a := SpecArena(ns);
    var e := Expand(a, x, h);
    if p == x {
      var cs := a.children[Under(x)];
      var k :| 0 <= k < |cs| && cs[k] == y;
      assert e.children[k] == Expand(a, y, h);
    } else {
      var i :| 0 <= i < |e.children| && Occurs(e.children[i], p);
      var c := a.children[Under(x)][i];
      assert e.children[i] == Expand(a, c, h);
      OccursDown(ns, h, c, p, y);
    }
  }

  /** Heights only decrease going down. */
  lemma {:induction false} OccursHeight(ns: seq<Doc>, h: map<string, nat>, x: string, y: string)
    requires Ranked(SpecArena(ns), h) && x in SpecArena(ns).records
    requires Occurs(Expand(SpecArena(ns), x, h), y)
    ensures y in SpecArena(ns).records && y in h && h[y] <= h[x]
    decreases h[x]
  {
    var a := SpecArena(ns);
    var e := Expand(a, x, h);
    IdMapValues(ns);
    if y != x {
      var i :| 0 <= i < |e.children| && Occurs(e.children[i], y);
      var c := a.children[Under(x)][i];
      assert e.children[i] == Expand(a, c, h);
      OccursHeight(ns, h, c, y);
    }
  }

  /** Two subtrees that share a node are nested: parent pointers are unique. */
  lemma {:induction false} SharedNodeNests(ns: seq<Doc>, h: map<string, nat>, c1: string, c2: string, y: string)
    requires WellFormedInput(ns, h)
    requires Ranked(SpecArena(ns), h) && c1 in SpecArena(ns).records && c2 in SpecArena(ns).records
    requires Occurs(Expand(SpecArena(ns), c1, h), y) && Occurs(Expand(SpecArena(ns), c2, h), y)
    requires y in h
    ensures Occurs(Expand(SpecArena(ns), c1, h), c2) || Occurs(Expand(SpecArena(ns), c2, h), c1)
    decreases h[c1] as int - h[y]
  {
    OccursHeight(ns, h, c1, y);
    if y != c1 && y != c2 {
      ArenaFacts(ns, h);
      OccursUp(ns, h, c1, y);
      OccursUp(ns, h, c2, y);
      var p := SpecArena(ns).records[y].parentId.value;
      OccursHeight(ns, h, c1, p);
      SharedNodeNests(ns, h, c1, c2, p);
    }
  }

  /** A list of ids in which no id appears twice. */
  ghost predicate NoRepeats(ks: seq<string>)
  {
    forall i, k :: 0 <= i < |ks| && 0 <= k < |ks| && ks[i] == ks[k] ==> i == k
  }

  /** With distinct ids a child list never repeats an id. */
  lemma {:induction false} KidsDistinct(m: map<string, Doc>, ns: seq<Doc>, s: Slot)
    requires DistinctIds(ns)
    ensures NoRepeats(KidsOf(m, ns, s))
  {
    if ns != [] {
      var init := ns[..|ns| - 1];
      var last := ns[|ns| - 1];
      forall i | 0 <= i < |init| ensures init[i] == ns[i] && init[i].id != last.id {
        assert init[i] == ns[i];
      }
      KidsDistinct(m, init, s);
      var ki := KidsOf(m, init, s);
      var ks := KidsOf(m, ns, s);
      assert last.id !in ki;
      if AttachSlot(m, last) == Some(s) {
        assert ks == ki + [last.id];
        assert forall j :: 0 <= j < |ki| ==> ks[j] == ki[j] && ks[j] != last.id;
        forall i, k | 0 <= i < |ks| && 0 <= k < |ks| && ks[i] == ks[k] ensures i == k {
          if i < |ki| && k < |ki| {
            assert ki[i] == ki[k];
          }
        }
      } else {
        assert ks == ki;
      }
    }
  }

  /** No record lies in the subtrees of two different siblings. */
  lemma SiblingsDisjoint(ns: seq<Doc>, h: map<string, nat>, s: Slot, i: nat, k: nat, y: string)
    requires WellFormedInput(ns, h)
    requires Ranked(SpecArena(ns), h) && s in SpecArena(ns).children
    requires i < |SpecArena(ns).children[s]| && k < |SpecArena(ns).children[s]|
    requires Occurs(Expand(SpecArena(ns), SpecArena(ns).children[s][i], h), y)
    requires Occurs(Expand(SpecArena(ns), SpecArena(ns).children[s][k], h), y)
    ensures i == k
  {
    var a := SpecArena(ns);
    var cs := a.children[s];
    KidsDistinct(a.records, ns, s);
    assert cs == KidsOf(a.records, ns, s);
    OccursHeight(ns, h, cs[i], y);
    SharedNodeNests(ns, h, cs[i], cs[k], y);
    if cs[i] != cs[k] {
      var lo := if Occurs(Expand(a, cs[i], h), cs[k]) then cs[i] else cs[k];
      var hi := if lo == cs[i] then cs[k] else cs[i];
      OccursUp(ns, h, lo, hi);
      ChildParent(ns, h, s, hi);
      if s.Under? {
        OccursHeight(ns, h, lo, s.id);
      }
      assert false;
    }
  }

  /** Some tree among the first `j` holds `id`. */
  ghost predicate OccursAmong(es: seq<Node>, j: nat, id: string)
    requires j <= |es|
  {
    exists i :: 0 <= i < j && Occurs(es[i], id)
  }

  /** Counting one record over a list of sibling subtrees. */
  lemma {:induction false} SumCount(es: seq<Node>, r: Doc, j: nat, inInput: bool)
    requires j <= |es|
    requires forall i :: 0 <= i < |es| ==>
               multiset(Flatten(es[i]))[r] == if inInput && Occurs(es[i], r.id) then 1 else 0
    requires forall i, k :: 0 <= i < |es| && 0 <= k < |es| && Occurs(es[i], r.id) && Occurs(es[k], r.id) ==> i == k
    ensures multiset(FlattenAll(es[..j]))[r] == if inInput && OccursAmong(es, j, r.id) then 1 else 0
  {
    if j == 0 {
      assert es[..0] == [];
    } else {
      SumCount(es, r, j - 1, inInput);
      var pre := es[..j];
      assert pre[..|pre| - 1] == es[..j - 1] && pre[|pre| - 1] == es[j - 1];
      assert FlattenAll(pre) == FlattenAll(es[..j - 1]) + Flatten(es[j - 1]);
      assert multiset(FlattenAll(pre))[r] ==
             multiset(FlattenAll(es[..j - 1]))[r] + multiset(Flatten(es[j - 1]))[r];
      if Occurs(es[j - 1], r.id) {
        assert OccursAmong(es, j, r.id);
        assert !OccursAmong(es, j - 1, r.id);
      } else {
        assert OccursAmong(es, j, r.id) == OccursAmong(es, j - 1, r.id);
      }
    }
  }

  /** The records below slot `s`, counted child by child. */
  lemma {:induction false} SlotCount(ns: seq<Doc>, h: map<string, nat>, s: Slot, bound: nat, es: seq<Node>, r: Doc)
    requires WellFormedInput(ns, h)
    requires Ranked(SpecArena(ns), h) && s in SpecArena(ns).children
    requires forall c :: c in SpecArena(ns).children[s] ==> c in h && h[c] < bound
    requires |es| == |SpecArena(ns).children[s]|
    requires forall i :: 0 <= i < |es| ==> es[i] == Expand(SpecArena(ns), SpecArena(ns).children[s][i], h)
    ensures multiset(FlattenAll(es))[r] == if r in ns && OccursAmong(es, |es|, r.id) then 1 else 0
    decreases bound, 0
  {
    var cs := SpecArena(ns).children[s];
    forall i | 0 <= i < |es|
      ensures multiset(Flatten(es[i]))[r] == if r in ns && Occurs(es[i], r.id) then 1 else 0
    {
      assert cs[i] in cs;
      SubtreeCount(ns, h, cs[i], r);
    }
    forall i, k | 0 <= i < |es| && 0 <= k < |es| && Occurs(es[i], r.id) && Occurs(es[k], r.id)
      ensures i == k
    {
      SiblingsDisjoint(ns, h, s, i, k, r.id);
    }
    SumCount(es, r, |es|, r in ns);
    assert es[..|es|] == es;
  }

  /** Every record in the subtree of `x` shows up exactly once in its
      flattening, and nothing else does. */
  lemma {:induction false} SubtreeCount(ns: seq<Doc>, h: map<string, nat>, x: string, r: Doc)
    requires WellFormedInput(ns, h)
    requires Ranked(SpecArena(ns), h) && x in SpecArena(ns).records
    ensures multiset(Flatten(Expand(SpecArena(ns), x, h)))[r] ==
              if r in ns && Occurs(Expand(SpecArena(ns), x, h), r.id) then 1 else 0
    decreases h[x], 1
  {
    StoredRecord(ns, h, x);
    var a := SpecArena(ns);
    var m := a.records;
    var e := Expand(a, x, h);
    assert Record(e) == m[x];
    assert r in ns && r.id == x ==> r == m[x];
    if e.FolderNode? {
      var es := e.children;
      SlotCount(ns, h, Under(x), h[x], es, r);
      assert Flatten(e) == [m[x]] + FlattenAll(es);
      assert Occurs(e, r.id) <==> r.id == x || OccursAmong(es, |es|, r.id);
      if r == m[x] {
        forall i | 0 <= i < |es| ensures !Occurs(es[i], x) {
          if Occurs(es[i], x) {
            OccursHeight(ns, h, a.children[Under(x)][i], x);
          }
        }
      }
    }
  }

  /** Every record lies under some child of the synthetic root: the one
      at index `i` of the root's list. */
  lemma {:induction false} Coverage(ns: seq<Doc>, h: map<string, nat>, y: string, bound: nat) returns (i: nat)
    requires WellFormedInput(ns, h)
    requires Ranked(SpecArena(ns), h) && y in SpecArena(ns).records
    requires forall k :: k in h ==> h[k] < bound
    ensures i < |SpecArena(ns).children[Root]|
    ensures Occurs(Expand(SpecArena(ns), SpecArena(ns).children[Root][i], h), y)
    decreases bound - h[y]
  {
    ParentSlot(ns, h, y);
    var a := SpecArena(ns);
    var rk := a.children[Root];
    if !Truthy(a.records[y].parentId) {
      i :| 0 <= i < |rk| && rk[i] == y;
      assert Occurs(Expand(a, rk[i], h), y);
    } else {
      var p := a.records[y].parentId.value;
      i := Coverage(ns, h, p, bound);
      OccursDown(ns, h, rk[i], p, y);
    }
  }

  /** A height above every height `h` assigns. */
  lemma {:induction false} HeightBound(h: map<string, nat>) returns (bound: nat)
    ensures forall k :: k in h ==> h[k] < bound
    decreases |h|
  {
    if h == map[] {
      bound := 0;
    } else {
      var k0 :| k0 in h;
      var rest := h - {k0};
      assert |rest| < |h| by {
        assert rest.Keys == h.Keys - {k0};
      }
      var b := HeightBound(rest);
      bound := if b > h[k0] then b else h[k0] + 1;
      forall k | k in h ensures h[k] < bound {
        if k != k0 {
          assert k in rest && rest[k] == h[k];
        }
      }
    }
  }

  /** With distinct ids a record occurs at most once in the input. */
  lemma {:induction false} DistinctCount(ns: seq<Doc>, r: Doc)
    requires DistinctIds(ns)
    ensures multiset(ns)[r] == if r in ns then 1 else 0
  {
    if ns != [] {
      var rest := ns[1..];
      forall i | 0 <= i < |rest| ensures rest[i] == ns[i + 1] && rest[i].id != ns[0].id {
        assert rest[i] == ns[i + 1];
      }
      DistinctCount(rest, r);
      assert ns == [ns[0]] + rest;
      assert r == ns[0] ==> r !in rest;
    }
  }

  /** The records that come back for one `r`. */
  lemma RootCount(ns: seq<Doc>, h: map<string, nat>, bound: nat, r: Doc)
    requires WellFormedInput(ns, h)
    requires Ranked(SpecArena(ns), h)
    requires forall k :: k in h ==> h[k] < bound
    ensures multiset(FlattenAll(TreeOf(SpecArena(ns), h).children))[r] == multiset(ns)[r]
  {
    var a := SpecArena(ns);
    var es := TreeOf(a, h).children;
    ArenaFacts(ns, h);
    SlotCount(ns, h, Root, bound, es, r);
    if r in ns {
      var i := Coverage(ns, h, r.id, bound);
      assert Occurs(es[i], r.id);
    }
    DistinctCount(ns, r);
  }

  /** `flattenTree(buildTree(nodes))` is the root record followed by a
      permutation of `nodes`. */
  lemma RoundTrip(ns: seq<Doc>, h: map<string, nat>)
    requires WellFormedInput(ns, h)
    ensures Ranked(SpecArena(ns), h)
    ensures var flat := Flatten(TreeOf(SpecArena(ns), h));
            |flat| == |ns| + 1 && flat[0] == RootDoc && multiset(flat[1..]) == multiset(ns)
  {
    ArenaFacts(ns, h);
    var t := TreeOf(SpecArena(ns), h);
    var flat := Flatten(t);
    assert flat == [RootDoc] + FlattenAll(t.children);
    assert flat[1..] == FlattenAll(t.children);
    var bound := HeightBound(h);
    forall r ensures multiset(flat[1..])[r] == multiset(ns)[r] {
      RootCount(ns, h, bound, r);
    }
    assert multiset(flat[1..]) == multiset(ns);
    assert |multiset(flat[1..])| == |flat[1..]|;
  }
}
