/**
 The tree endpoint: choosing the nodes to show by queries, nesting them in one pass, and paging through the
 children of a node (`TreeQueryMixin`, `BaseContentNodeTreeViewset.retrieve`).
 */
module TreePages {
  import opened Wrappers
  import opened ContentTrees

  // ---- queries -------------------------------------------------------------------------------

  function IdList(rows: seq<Entry>): (ids: seq<int>)
    ensures |ids| == |rows| && forall i :: 0 <= i < |rows| ==> ids[i] == rows[i].id
  {
    seq(|rows|, i requires 0 <= i < |rows| => rows[i].id)
  }

  function RowsAfter(rows: seq<Entry>, next: Option<int>): seq<Entry> {
    if rows == [] then []
    else if next.None? || next.value < rows[0].lft then [rows[0]] + RowsAfter(rows[1..], next)
    else RowsAfter(rows[1..], next)
  }

  /** The ids of the first page of children after `next`. */
  function GetChildIds(db: seq<Entry>, parentId: int, next: Option<int>): seq<int> {
    IdList(First(RowsAfter(ChildrenOf(db, parentId), next), NUM_CHILDREN))
  }

  predicate NodesOf(ids: seq<int>, nodes: seq<Content>) {
    |ids| == |nodes| && forall i :: 0 <= i < |ids| ==> ids[i] == nodes[i].id
  }

  lemma {:induction false} RowsAfterHeads(f: seq<Content>, parent: Option<int>, next: Option<int>)
    ensures RowsAfter(Heads(f, parent), next) == Heads(After(f, next), parent)
  {
    if f != [] {
      RowsAfterHeads(f[1..], parent, next);
      assert Heads(f, parent)[1..] == Heads(f[1..], parent);
    }
  }

  lemma {:induction false} HeadsAt(f: seq<Content>, parent: Option<int>)
    ensures |Heads(f, parent)| == |f|
    ensures forall i :: 0 <= i < |f| ==> Heads(f, parent)[i] == Head(f[i], parent)
  {
    if f != [] {
      HeadsAt(f[1..], parent);
    }
  }

  /** The query returns the ids of the first children of the node whose left number is above `next`. */
  lemma {:induction false} ChildIdsAreChildren(db: seq<Entry>, x: Content, parent: Option<int>, c: Content, next: Option<int>)
    requires Stores(db, x, parent) && Within(c, [x])
    ensures NodesOf(GetChildIds(db, c.id, next), First(After(c.kids, next), NUM_CHILDREN))
  {
    ChildrenInTable(db, x, parent, c);
    RowsAfterHeads(c.kids, Some(c.id), next);
    HeadsAt(After(c.kids, next), Some(c.id));
  }

  lemma {:induction false} AfterNone(f: seq<Content>)
    ensures After(f, None) == f
  {
    if f != [] {
      AfterNone(f[1..]);
    }
  }

  lemma {:induction false} AfterSubset(f: seq<Content>, next: Option<int>)
    ensures forall c <- After(f, next) :: c in f
  {
    if f != [] {
      AfterSubset(f[1..], next);
    }
  }

  lemma {:induction false} WithinTrans(c: Content, d: Content, f: seq<Content>)
    requires Within(d, f) && Within(c, d.kids)
    ensures Within(c, f)
  {
    if d != f[0] {
      if Within(d, f[0].kids) {
        WithinTrans(c, d, f[0].kids);
      } else {
        WithinTrans(c, d, f[1..]);
      }
    }
  }

  lemma {:induction false} MemberWithin(c: Content, f: seq<Content>)
    requires c in f
    ensures Within(c, f)
  {
    if c != f[0] {
      MemberWithin(c, f[1..]);
    }
  }

  lemma {:induction false} KidWithin(c: Content, d: Content, f: seq<Content>)
    requires Within(d, f) && c in d.kids
    ensures Within(c, f)
  {
    MemberWithin(c, d.kids);
    WithinTrans(c, d, f);
  }

  /** The dictionary from the given parents that have children to the ids of these, and its keys in insertion order. */
  method GetGcByParent(db: seq<Entry>, childIds: seq<int>) returns (gcByParent: map<int, seq<int>>, order: seq<int>)
    ensures forall id :: id in gcByParent <==> id in childIds && ChildrenOf(db, id) != []
    ensures forall id <- gcByParent :: gcByParent[id] == IdList(ChildrenOf(db, id))
    ensures forall id :: id in order <==> id in gcByParent
  {
    gcByParent, order := map[], [];
    for i := 0 to |db|
      invariant forall id :: id in gcByParent <==> id in childIds && ChildrenOf(db[..i], id) != []
      invariant forall id <- gcByParent :: gcByParent[id] == IdList(ChildrenOf(db[..i], id))
      invariant forall id :: id in order <==> id in gcByParent
    {
      var gc := db[i];
      forall id ensures ChildrenOf(db[..i + 1], id) == ChildrenOf(db[..i], id) + (if gc.parent == Some(id) then [gc] else []) {
        assert db[..i + 1] == db[..i] + [gc];
        ChildrenConcat(db[..i], [gc], id);
        assert [gc][1..] == [];
      }
      if gc.parent.Some? && gc.parent.value in childIds {
        var parentId := gc.parent.value;
        if parentId !in gcByParent {
          gcByParent := gcByParent[parentId := []];
          order := order + [parentId];
        }
        gcByParent := gcByParent[parentId := gcByParent[parentId] + [gc.id]];
      }
    }
    assert db[..|db|] == db;
  }

  lemma {:induction false} SameIdSameNode(c: Content, d: Content, f: seq<Content>)
    requires Distinct(f) && Within(c, f) && Within(d, f) && c.id == d.id
    ensures c == d
  {
    WithinHasId(c, f);
    WithinHasId(d, f);
    if c != f[0] && Within(c, f[0].kids) {
      WithinHasId(c, f[0].kids);
      if d != f[0] && !Within(d, f[0].kids) {
        WithinHasId(d, f[1..]);
      } else if d != f[0] {
        SameIdSameNode(c, d, f[0].kids);
      }
    } else if c != f[0] {
      WithinHasId(c, f[1..]);
      if d != f[0] && Within(d, f[0].kids) {
        WithinHasId(d, f[0].kids);
      } else if d != f[0] {
        SameIdSameNode(c, d, f[1..]);
      }
    } else if d != f[0] {
      if Within(d, f[0].kids) {
        WithinHasId(d, f[0].kids);
      } else {
        WithinHasId(d, f[1..]);
      }
    }
  }

  lemma {:induction false} IdsOfBare(f: seq<Content>, id: int)
    ensures id in Ids(Bare(f)) <==> exists i :: 0 <= i < |f| && f[i].id == id
  {
    if f != [] {
      IdsOfBare(f[1..], id);
      if f[0].id != id && exists i :: 0 <= i < |f| && f[i].id == id {
        var i :| 0 <= i < |f| && f[i].id == id;
        assert f[1..][i - 1].id == id;
      }
    }
  }

  /** How long the chain of only children below a node is. */
  function ChainLength(c: Content): nat {
    if |c.kids| == 1 then 1 + ChainLength(c.kids[0]) else 0
  }

  ghost predicate BelowSome(id: int, nodes: seq<Content>) {
    exists c :: c in nodes && id in Ids(Below(c))
  }

  /** What is below a child, by the query for its children. */
  lemma {:induction false} BelowByQuery(db: seq<Entry>, x: Content, parent: Option<int>, c: Content, id: int)
    requires Stores(db, x, parent) && Within(c, [x])
    ensures var gc := IdList(ChildrenOf(db, c.id));
            && |gc| == |c.kids| && (|gc| == 1 ==> gc[0] == c.kids[0].id && Within(c.kids[0], [x]))
            && (id in Ids(Below(c)) <==> id in First(gc, NUM_GRANDCHILDREN_PER_CHILD) || (|gc| == 1 && id in Ids(Below(c.kids[0]))))
  {
    ChildrenInTable(db, x, parent, c);
    HeadsAt(c.kids, Some(c.id));
    var gc := IdList(ChildrenOf(db, c.id));
    if |c.kids| == 1 {
      KidWithin(c.kids[0], c, [x]);
      assert Below(c)[1..] == [];
      assert First(gc, NUM_GRANDCHILDREN_PER_CHILD) == [c.kids[0].id];
    } else {
      IdsOfBare(First(c.kids, NUM_GRANDCHILDREN_PER_CHILD), id);
    }
  }

  /** Some of the first `n` keys of the dictionary has this id on its first page. */
  ghost predicate OnSomePage(id: int, gcByParent: map<int, seq<int>>, keys: seq<int>) {
    exists key :: key in keys && key in gcByParent && id in First(gcByParent[key], NUM_GRANDCHILDREN_PER_CHILD)
  }

  /** `singles` are the only children of those of the nodes that have a key here and just one child. */
  ghost predicate OnlyChildren(singles: seq<Content>, nodes: seq<Content>, keys: seq<int>) {
    && (forall s <- singles :: exists c :: c in nodes && c.kids == [s])
    && (forall c <- nodes :: c.id in keys && |c.kids| == 1 ==> c.kids[0] in singles)
  }

  lemma {:induction false} AllBelow(db: seq<Entry>, x: Content, parent: Option<int>, nodes: seq<Content>,
                                    gcByParent: map<int, seq<int>>, keys: seq<int>, singles: seq<Content>, id: int)
    requires Stores(db, x, parent) && forall c <- nodes :: Within(c, [x])
    requires forall key :: key in gcByParent <==> (exists c :: c in nodes && c.id == key) && ChildrenOf(db, key) != []
    requires forall key <- gcByParent :: gcByParent[key] == IdList(ChildrenOf(db, key))
    requires forall key :: key in keys <==> key in gcByParent
    requires OnlyChildren(singles, nodes, keys)
    ensures BelowSome(id, nodes) <==> OnSomePage(id, gcByParent, keys) || BelowSome(id, singles)
  {
    if BelowSome(id, nodes) {
      var c :| c in nodes && id in Ids(Below(c));
      BelowByQuery(db, x, parent, c, id);
      assert c.id in gcByParent;
    }
    if OnSomePage(id, gcByParent, keys) {
      var key :| key in keys && key in gcByParent && id in First(gcByParent[key], NUM_GRANDCHILDREN_PER_CHILD);
      var c :| c in nodes && c.id == key;
      BelowByQuery(db, x, parent, c, id);
    }
    if BelowSome(id, singles) {
      var s :| s in singles && id in Ids(Below(s));
      var c :| c in nodes && c.kids == [s];
      BelowByQuery(db, x, parent, c, id);
    }
  }

  /** One entry of the dictionary more. */
  lemma {:induction false} OneMoreKey(db: seq<Entry>, x: Content, parent: Option<int>, nodes: seq<Content>, c: Content,
                                      keys: seq<int>, singles: seq<Content>) returns (singles': seq<Content>)
    requires Stores(db, x, parent) && (forall d <- nodes :: Within(d, [x])) && c in nodes
    requires OnlyChildren(singles, nodes, keys)
    ensures var gc := IdList(ChildrenOf(db, c.id));
            && singles' == (if |gc| == 1 then singles + c.kids else singles)
            && (|gc| == 1 ==> NodesOf(gc, c.kids))
    ensures OnlyChildren(singles', nodes, keys + [c.id])
  {
    BelowByQuery(db, x, parent, c, c.id);
    forall d <- nodes | d.id == c.id ensures d == c {
      SameIdSameNode(c, d, [x]);
    }
    singles' := if |c.kids| == 1 then singles + c.kids else singles;
    assert |c.kids| == 1 ==> c.kids == [c.kids[0]];
  }

  lemma {:induction false} OneMorePage(id: int, gcByParent: map<int, seq<int>>, keys: seq<int>, key: int)
    requires key in gcByParent
    ensures OnSomePage(id, gcByParent, keys + [key])
       <==> OnSomePage(id, gcByParent, keys) || id in First(gcByParent[key], NUM_GRANDCHILDREN_PER_CHILD)
  {
    if OnSomePage(id, gcByParent, keys) {
      var k :| k in keys && k in gcByParent && id in First(gcByParent[k], NUM_GRANDCHILDREN_PER_CHILD);
      assert k in keys + [key];
    }
    assert key in keys + [key];
  }

  /** The first page of each entry of the dictionary, and the children that have no siblings. */
  method FirstPages(db: seq<Entry>, childIds: seq<int>, gcByParent: map<int, seq<int>>, order: seq<int>,
                    ghost x: Content, ghost parent: Option<int>, ghost nodes: seq<Content>)
    returns (ids: seq<int>, singletons: seq<int>, ghost singles: seq<Content>)
    requires Stores(db, x, parent) && NodesOf(childIds, nodes) && forall c <- nodes :: Within(c, [x])
    requires forall id <- order :: id in childIds && id in gcByParent
    requires forall id <- gcByParent :: gcByParent[id] == IdList(ChildrenOf(db, id))
    ensures forall id :: id in ids <==> OnSomePage(id, gcByParent, order)
    ensures NodesOf(singletons, singles) && OnlyChildren(singles, nodes, order)
  {
    ids, singletons, singles := [], [], [];
    for i := 0 to |order|
      invariant forall id :: id in ids <==> OnSomePage(id, gcByParent, order[..i])
      invariant NodesOf(singletons, singles) && OnlyChildren(singles, nodes, order[..i])
    {
      var childId := order[i];
      assert childId in order;
      var gcIds := gcByParent[childId];
      ghost var j :| 0 <= j < |childIds| && childIds[j] == childId;
      singles := OneMoreKey(db, x, parent, nodes, nodes[j], order[..i], singles);
      ghost var seen := order[..i];
      assert order[..i + 1] == seen + [childId];
      forall id ensures OnSomePage(id, gcByParent, seen + [childId])
                   <==> OnSomePage(id, gcByParent, seen) || id in First(gcIds, NUM_GRANDCHILDREN_PER_CHILD) {
        OneMorePage(id, gcByParent, seen, childId);
      }
      if |gcIds| == 1 {
        singletons := singletons + [gcIds[0]];
      }
      ids := ids + First(gcIds, NUM_GRANDCHILDREN_PER_CHILD);
    }
    assert order[..|order|] == order;
  }

  /** The ids of everything that is to be shown below the given nodes. */
  method GetGrandchildIds(db: seq<Entry>, childIds: seq<int>, depth: int,
                          ghost x: Content, ghost parent: Option<int>, ghost nodes: seq<Content>, ghost bound: nat)
    returns (grandchildIds: seq<int>)
    requires Stores(db, x, parent) && NodesOf(childIds, nodes)
    requires forall c <- nodes :: Within(c, [x]) && ChainLength(c) <= bound
    ensures forall id :: id in grandchildIds <==> depth == 2 && BelowSome(id, nodes)
    decreases bound
  {
    grandchildIds := [];
    if depth == 2 {
      var gcByParent, order := GetGcByParent(db, childIds);
      var singletons;
      ghost var singles;
      grandchildIds, singletons, singles := FirstPages(db, childIds, gcByParent, order, x, parent, nodes);
      forall id ensures BelowSome(id, nodes) <==> OnSomePage(id, gcByParent, order) || BelowSome(id, singles) {
        AllBelow(db, x, parent, nodes, gcByParent, order, singles, id);
      }
      if |singletons| > 0 {
        forall s <- singles ensures Within(s, [x]) && ChainLength(s) < bound {
          var c :| c in nodes && c.kids == [s];
          KidWithin(s, c, [x]);
        }
        assert ChainLength(singles[0]) < bound;
        var more := GetGrandchildIds(db, singletons, depth, x, parent, singles, bound - 1);
        grandchildIds := grandchildIds + more;
      }
    }
  }

  lemma {:induction false} IdsWithGrandchildren(f: seq<Content>, depth: int, id: int)
    ensures id in Ids(WithGrandchildren(f, depth)) <==> (exists c :: c in f && c.id == id) || (depth == 2 && BelowSome(id, f))
  {
    if f != [] {
      IdsWithGrandchildren(f[1..], depth, id);
      assert f[0] in f;
      if exists c :: c in f && c.id == id {
        var c :| c in f && c.id == id;
        assert c == f[0] || c in f[1..];
      }
      if BelowSome(id, f) {
        var c :| c in f && id in Ids(Below(c));
        assert c == f[0] || c in f[1..];
      }
    }
  }

  function Elems(ids: seq<int>): set<int> {
    set id | id in ids
  }

  lemma {:induction false} ShownDownChain(c: Content, depth: int)
    requires |c.kids| == 1
    ensures Ids(Shown(c, None, depth).kids) == {c.kids[0].id} + Ids(Shown(c.kids[0], None, depth).kids)
  {
    assert [Shown(c.kids[0], None, depth)][1..] == [];
  }

  lemma {:induction false} ShownAtPage(c: Content, next: Option<int>, depth: int, childIds: seq<int>, gcIds: seq<int>)
    requires NodesOf(childIds, First(After(c.kids, next), NUM_CHILDREN))
    requires next.Some? || |childIds| != 1
    requires forall id :: id in gcIds <==> depth == 2 && BelowSome(id, First(After(c.kids, next), NUM_CHILDREN))
    ensures Ids(Shown(c, next, depth).kids) == Elems(childIds) + Elems(gcIds)
  {
    var page := First(After(c.kids, next), NUM_CHILDREN);
    AfterNone(c.kids);
    forall id ensures id in Ids(WithGrandchildren(page, depth)) <==> id in Elems(childIds) + Elems(gcIds) {
      IdsWithGrandchildren(page, depth, id);
      if id in childIds {
        var i :| 0 <= i < |childIds| && childIds[i] == id;
        assert page[i] in page;
      }
    }
  }

  lemma {:induction false} OneDown(db: seq<Entry>, x: Content, parent: Option<int>, c: Content, depth: int, childIds: seq<int>, ancestorIds: seq<int>)
    requires Stores(db, x, parent) && Within(c, [x])
    requires NodesOf(childIds, First(After(c.kids, None), NUM_CHILDREN)) && |childIds| == 1
    ensures |c.kids| == 1 && Within(c.kids[0], [x]) && childIds[0] == c.kids[0].id
    ensures Elems(ancestorIds) + Ids(Shown(c, None, depth).kids) == Elems(ancestorIds + childIds) + Ids(Shown(c.kids[0], None, depth).kids)
    ensures NodesOf(GetChildIds(db, childIds[0], None), First(After(c.kids[0].kids, None), NUM_CHILDREN))
  {
    AfterNone(c.kids);
    KidWithin(c.kids[0], c, [x]);
    ShownDownChain(c, depth);
    ElemsConcat(ancestorIds, childIds);
    assert Elems(childIds) == {c.kids[0].id};
    ChildIdsAreChildren(db, x, parent, c.kids[0], None);
  }

  /** Down a chain of only children, unless a cursor is given: the children at its end, and the nodes passed. */
  method DownChain(db: seq<Entry>, pk: int, next: Option<int>, ghost depth: int, ghost x: Content, ghost parent: Option<int>)
    returns (childIds: seq<int>, ancestorIds: seq<int>, ghost cur: Content)
    requires Stores(db, x, parent) && x.id == pk
    ensures Within(cur, [x]) && (next.Some? || |childIds| != 1)
    ensures NodesOf(childIds, First(After(cur.kids, next), NUM_CHILDREN))
    ensures Ids(Shown(x, next, depth).kids) == Elems(ancestorIds) + Ids(Shown(cur, next, depth).kids)
  {
    childIds, ancestorIds, cur := GetChildIds(db, pk, next), [], x;
    ChildIdsAreChildren(db, x, parent, x, next);
    while next.None? && |childIds| == 1
      invariant Within(cur, [x])
      invariant NodesOf(childIds, First(After(cur.kids, next), NUM_CHILDREN))
      invariant Ids(Shown(x, next, depth).kids) == Elems(ancestorIds) + Ids(Shown(cur, next, depth).kids)
      decreases cur
    {
      OneDown(db, x, parent, cur, depth, childIds, ancestorIds);
      ancestorIds := ancestorIds + childIds;
      childIds := GetChildIds(db, childIds[0], next);
      cur := cur.kids[0];
    }
  }

  /** The ids of the nodes to show are those of the shown tree. */
  method GetTreeQueryset(db: seq<Entry>, pk: int, depth: int, next: Option<int>, ghost x: Content, ghost parent: Option<int>)
    returns (ids: set<int>)
    requires Stores(db, x, parent) && x.id == pk
    ensures ids == Ids([Shown(x, next, depth)])
  {
    var childIds, ancestorIds;
    ghost var cur, bound;
    childIds, ancestorIds, cur := DownChain(db, pk, next, depth, x, parent);
    bound := PageWithin(x, cur, next);
    var gcIds := GetGrandchildIds(db, childIds, depth, x, parent, First(After(cur.kids, next), NUM_CHILDREN), bound);
    ids := {pk} + Elems(ancestorIds) + Elems(childIds) + Elems(gcIds);
    ShownAtPage(cur, next, depth, childIds, gcIds);
    IdsOfOne(Shown(x, next, depth));
  }

  lemma {:induction false} ElemsConcat(a: seq<int>, b: seq<int>)
    ensures Elems(a + b) == Elems(a) + Elems(b)
  {
  }

  lemma {:induction false} IdsOfOne(c: Content)
    ensures Ids([c]) == {c.id} + Ids(c.kids)
  {
    assert [c][1..] == [];
  }

  lemma {:induction false} PageWithin(x: Content, c: Content, next: Option<int>) returns (bound: nat)
    requires Within(c, [x])
    ensures forall d <- First(After(c.kids, next), NUM_CHILDREN) :: Within(d, [x]) && ChainLength(d) <= bound
  {
    AfterSubset(c.kids, next);
    bound := LongestChain(c.kids);
    forall d <- First(After(c.kids, next), NUM_CHILDREN) ensures Within(d, [x]) && ChainLength(d) <= bound {
      KidWithin(d, c, [x]);
    }
  }

  lemma {:induction false} LongestChain(f: seq<Content>) returns (bound: nat)
    ensures forall c <- f :: ChainLength(c) <= bound
  {
    bound := 0;
    if f != [] {
      bound := LongestChain(f[1..]);
      if bound < ChainLength(f[0]) {
        bound := ChainLength(f[0]);
      }
      assert forall c <- f :: c == f[0] || c in f[1..];
    }
  }
}
