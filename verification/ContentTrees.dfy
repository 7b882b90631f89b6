/**
 Content trees as rows of a table ordered by left number, and which nodes the tree endpoint shows of them
 (`TreeQueryMixin`).
 */
module ContentTrees {
  import opened Wrappers

  const NUM_CHILDREN := 12
  const NUM_GRANDCHILDREN_PER_CHILD := 12

  datatype Content = Content(id: int, lft: int, rght: int, kids: seq<Content>)

  /** One row of the table. */
  datatype Entry = Entry(id: int, parent: Option<int>, lft: int, rght: int)

  function Head(c: Content, parent: Option<int>): Entry {
    Entry(c.id, parent, c.lft, c.rght)
  }

  function Heads(f: seq<Content>, parent: Option<int>): seq<Entry> {
    if f == [] then [] else [Head(f[0], parent)] + Heads(f[1..], parent)
  }

  /** The rows of a list of siblings and of everything below them, in preorder. */
  function Entries(f: seq<Content>, parent: Option<int>): seq<Entry> {
    if f == [] then [] else [Head(f[0], parent)] + Entries(f[0].kids, Some(f[0].id)) + Entries(f[1..], parent)
  }

  function Ids(f: seq<Content>): set<int> {
    if f == [] then {} else {f[0].id} + Ids(f[0].kids) + Ids(f[1..])
  }

  predicate Distinct(f: seq<Content>) {
    f == [] ||
    (&& f[0].id !in Ids(f[0].kids) && f[0].id !in Ids(f[1..]) && Ids(f[0].kids) !! Ids(f[1..])
     && Distinct(f[0].kids) && Distinct(f[1..]))
  }

  /** `c` is one of the trees of `f` or a descendant of one. */
  predicate Within(c: Content, f: seq<Content>) {
    f != [] && (c == f[0] || Within(c, f[0].kids) || Within(c, f[1..]))
  }

  /** The rows with this parent, by left number. */
  function ChildrenOf(db: seq<Entry>, id: int): seq<Entry> {
    if db == [] then [] else (if db[0].parent == Some(id) then [db[0]] else []) + ChildrenOf(db[1..], id)
  }

  /** The rows with one of these ids, by left number. */
  function Chosen(db: seq<Entry>, ids: set<int>): seq<Entry> {
    if db == [] then [] else (if db[0].id in ids then [db[0]] else []) + Chosen(db[1..], ids)
  }

  /**
   The table holds the tree `x`: by left number its rows are in preorder, and no other row has its parent
   in the tree. Rows of other trees may stand anywhere between.
   */
  predicate Stores(db: seq<Entry>, x: Content, parent: Option<int>) {
    && Distinct([x]) && (parent.Some? ==> parent.value !in Ids([x]))
    && Chosen(db, Ids([x])) == Entries([x], parent)
    && (forall e <- db :: e.parent.Some? && e.parent.value in Ids([x]) ==> e.id in Ids([x]))
  }

  lemma {:induction false} ChildrenConcat(a: seq<Entry>, b: seq<Entry>, id: int)
    ensures ChildrenOf(a + b, id) == ChildrenOf(a, id) + ChildrenOf(b, id)
  {
    if a == [] {
      assert a + b == b;
    } else {
      ChildrenConcat(a[1..], b, id);
      assert (a + b)[0] == a[0] && (a + b)[1..] == a[1..] + b;
      var first := if a[0].parent == Some(id) then [a[0]] else [];
      assert first + (ChildrenOf(a[1..], id) + ChildrenOf(b, id)) == (first + ChildrenOf(a[1..], id)) + ChildrenOf(b, id);
    }
  }

  lemma {:induction false} ChosenConcat(a: seq<Entry>, b: seq<Entry>, ids: set<int>)
    ensures Chosen(a + b, ids) == Chosen(a, ids) + Chosen(b, ids)
  {
    if a == [] {
      assert a + b == b;
    } else {
      ChosenConcat(a[1..], b, ids);
      assert (a + b)[0] == a[0] && (a + b)[1..] == a[1..] + b;
      var first := if a[0].id in ids then [a[0]] else [];
      assert first + (Chosen(a[1..], ids) + Chosen(b, ids)) == (first + Chosen(a[1..], ids)) + Chosen(b, ids);
    }
  }

  lemma {:induction false} SplitForest(f: seq<Content>, parent: Option<int>, id: int)
    requires f != []
    ensures ChildrenOf(Entries(f, parent), id)
         == (if parent == Some(id) then [Head(f[0], parent)] else [])
            + ChildrenOf(Entries(f[0].kids, Some(f[0].id)), id) + ChildrenOf(Entries(f[1..], parent), id)
  {
    ChildrenConcat([Head(f[0], parent)] + Entries(f[0].kids, Some(f[0].id)), Entries(f[1..], parent), id);
    ChildrenConcat([Head(f[0], parent)], Entries(f[0].kids, Some(f[0].id)), id);
    assert [Head(f[0], parent)][1..] == [];
  }

  /** Below a list of trees, only its own trees have the list's parent, unless that is one of their ids. */
  lemma {:induction false} ChildrenOfOutside(f: seq<Content>, parent: Option<int>, id: int)
    requires id !in Ids(f)
    ensures ChildrenOf(Entries(f, parent), id) == if parent == Some(id) then Heads(f, parent) else []
  {
    if f != [] {
      SplitForest(f, parent, id);
      ChildrenOfOutside(f[0].kids, Some(f[0].id), id);
      ChildrenOfOutside(f[1..], parent, id);
    }
  }

  lemma {:induction false} WithinHasId(c: Content, f: seq<Content>)
    requires Within(c, f)
    ensures c.id in Ids(f) && Ids(c.kids) <= Ids(f)
  {
    if c == f[0] {
    } else if Within(c, f[0].kids) {
      WithinHasId(c, f[0].kids);
    } else {
      WithinHasId(c, f[1..]);
    }
  }

  /** Asking the rows of distinct trees for the children of one of their nodes gives its children, in order. */
  lemma {:induction false} ChildrenInForest(f: seq<Content>, parent: Option<int>, c: Content)
    requires Distinct(f) && Within(c, f) && (parent.Some? ==> parent.value !in Ids(f))
    ensures ChildrenOf(Entries(f, parent), c.id) == Heads(c.kids, Some(c.id))
  {
    SplitForest(f, parent, c.id);
    if c == f[0] {
      ChildrenOfOutside(f[0].kids, Some(f[0].id), c.id);
      ChildrenOfOutside(f[1..], parent, c.id);
    } else if Within(c, f[0].kids) {
      WithinHasId(c, f[0].kids);
      ChildrenInForest(f[0].kids, Some(f[0].id), c);
      ChildrenOfOutside(f[1..], parent, c.id);
    } else {
      WithinHasId(c, f[1..]);
      ChildrenOfOutside(f[0].kids, Some(f[0].id), c.id);
      ChildrenInForest(f[1..], parent, c);
    }
    WithinHasId(c, f);
  }

  lemma {:induction false} ChildrenOfChosen(db: seq<Entry>, ids: set<int>, id: int)
    requires forall e <- db :: e.parent == Some(id) ==> e.id in ids
    ensures ChildrenOf(Chosen(db, ids), id) == ChildrenOf(db, id)
  {
    if db != [] {
      ChildrenOfChosen(db[1..], ids, id);
      ChildrenConcat([db[0]], Chosen(db[1..], ids), id);
      assert [db[0]][1..] == [];
      assert [] + Chosen(db[1..], ids) == Chosen(db[1..], ids);
    }
  }

  /** The query for children, on a whole table: exactly the children, in order. */
  lemma {:induction false} ChildrenInTable(db: seq<Entry>, x: Content, parent: Option<int>, c: Content)
    requires Stores(db, x, parent) && Within(c, [x])
    ensures ChildrenOf(db, c.id) == Heads(c.kids, Some(c.id))
  {
    WithinHasId(c, [x]);
    ChildrenOfChosen(db, Ids([x]), c.id);
    ChildrenInForest([x], parent, c);
  }

  // ---- what the endpoint shows ------------------------------------------------------------------

  function First<T>(s: seq<T>, n: nat): seq<T> {
    if |s| <= n then s else s[..n]
  }

  /** The siblings whose left number is above `next`, if there is one. */
  function After(f: seq<Content>, next: Option<int>): seq<Content> {
    if f == [] then []
    else if next.None? || next.value < f[0].lft then [f[0]] + After(f[1..], next)
    else After(f[1..], next)
  }

  function Bare(f: seq<Content>): seq<Content> {
    if f == [] then [] else [f[0].(kids := [])] + Bare(f[1..])
  }

  /** Below a child: its first children, and as long as there is just one, that one's children too. */
  function Below(c: Content): seq<Content> {
    if |c.kids| == 1 then [c.kids[0].(kids := Below(c.kids[0]))]
    else Bare(First(c.kids, NUM_GRANDCHILDREN_PER_CHILD))
  }

  function WithGrandchildren(f: seq<Content>, depth: int): seq<Content> {
    if f == [] then [] else [f[0].(kids := if depth == 2 then Below(f[0]) else [])] + WithGrandchildren(f[1..], depth)
  }

  /**
   What is shown for a node: down a chain of only children to the first node with none or several, and
   there the first page of its children, each with what is below it.
   */
  function Shown(c: Content, next: Option<int>, depth: int): Content {
    if next.None? && |c.kids| == 1 then c.(kids := [Shown(c.kids[0], next, depth)])
    else c.(kids := WithGrandchildren(First(After(c.kids, next), NUM_CHILDREN), depth))
  }

  /** `g` is `f` with some trees left out, here and at every level below. */
  predicate Pruned(g: seq<Content>, f: seq<Content>) {
    if f == [] then g == []
    else if g != [] && g[0].id == f[0].id then
      g[0].lft == f[0].lft && g[0].rght == f[0].rght && Pruned(g[0].kids, f[0].kids) && Pruned(g[1..], f[1..])
    else Pruned(g, f[1..])
  }

  lemma {:induction false} PrunedIds(g: seq<Content>, f: seq<Content>)
    requires Pruned(g, f)
    ensures Ids(g) <= Ids(f)
  {
    if f != [] {
      if g != [] && g[0].id == f[0].id {
        PrunedIds(g[0].kids, f[0].kids);
        PrunedIds(g[1..], f[1..]);
      } else {
        PrunedIds(g, f[1..]);
      }
    }
  }

  lemma {:induction false} PrunedDistinct(g: seq<Content>, f: seq<Content>)
    requires Pruned(g, f) && Distinct(f)
    ensures Distinct(g)
  {
    if f != [] {
      if g != [] && g[0].id == f[0].id {
        PrunedIds(g[0].kids, f[0].kids);
        PrunedIds(g[1..], f[1..]);
        PrunedDistinct(g[0].kids, f[0].kids);
        PrunedDistinct(g[1..], f[1..]);
      } else {
        PrunedDistinct(g, f[1..]);
      }
    }
  }

  lemma {:induction false} ChosenSplit(f: seq<Content>, parent: Option<int>, ids: set<int>)
    requires f != []
    ensures Chosen(Entries(f, parent), ids)
         == (if f[0].id in ids then [Head(f[0], parent)] else [])
            + Chosen(Entries(f[0].kids, Some(f[0].id)), ids) + Chosen(Entries(f[1..], parent), ids)
  {
    ChosenConcat([Head(f[0], parent)] + Entries(f[0].kids, Some(f[0].id)), Entries(f[1..], parent), ids);
    ChosenConcat([Head(f[0], parent)], Entries(f[0].kids, Some(f[0].id)), ids);
    assert [Head(f[0], parent)][1..] == [];
  }

  /** Choosing the rows of a pruned list by id gives its rows in preorder. */
  lemma {:induction false} ChosenPruned(g: seq<Content>, f: seq<Content>, parent: Option<int>, ids: set<int>)
    requires Distinct(f) && Pruned(g, f) && ids * Ids(f) == Ids(g)
    ensures Chosen(Entries(f, parent), ids) == Entries(g, parent)
  {
    if f != [] {
      var below, rest := f[0].kids, f[1..];
      ChosenSplit(f, parent, ids);
      if g != [] && g[0].id == f[0].id {
        PrunedIds(g[0].kids, below);
        PrunedIds(g[1..], rest);
        assert f[0].id in Ids(g) && f[0].id in ids;
        PartOfIds(ids, f, g[0].id, Ids(g[0].kids), Ids(g[1..]));
        ChosenPruned(g[0].kids, below, Some(f[0].id), ids);
        ChosenPruned(g[1..], rest, parent, ids);
      } else {
        PrunedIds(g, rest);
        PartOfIds(ids, f, f[0].id, {}, Ids(g));
        NoneChosen(below, Some(f[0].id), ids);
        ChosenPruned(g, rest, parent, ids);
      }
    }
  }

  lemma {:induction false} PartOfIds(ids: set<int>, f: seq<Content>, root: int, below: set<int>, rest: set<int>)
    requires f != [] && Distinct(f) && root == f[0].id
    requires below <= Ids(f[0].kids) && rest <= Ids(f[1..])
    requires ids * Ids(f) == {root} + below + rest || (below == {} && ids * Ids(f) == rest)
    ensures ids * Ids(f[0].kids) == below && ids * Ids(f[1..]) == rest
    ensures root in ids <==> root in ids * Ids(f)
  {
    var k, r := Ids(f[0].kids), Ids(f[1..]);
    forall x | x in k ensures x in ids <==> x in below { assert x in Ids(f); }
    forall x | x in r ensures x in ids <==> x in rest { assert x in Ids(f); }
  }

  lemma {:induction false} NoneChosen(f: seq<Content>, parent: Option<int>, ids: set<int>)
    requires ids * Ids(f) == {}
    ensures Chosen(Entries(f, parent), ids) == []
  {
    if f != [] {
      ChosenSplit(f, parent, ids);
      assert f[0].id in Ids(f);
      assert ids * Ids(f[0].kids) <= ids * Ids(f);
      assert ids * Ids(f[1..]) <= ids * Ids(f);
      NoneChosen(f[0].kids, Some(f[0].id), ids);
      NoneChosen(f[1..], parent, ids);
    }
  }

  lemma {:induction false} ChosenChosen(db: seq<Entry>, all: set<int>, ids: set<int>)
    requires ids <= all
    ensures Chosen(Chosen(db, all), ids) == Chosen(db, ids)
  {
    if db != [] {
      ChosenChosen(db[1..], all, ids);
      ChosenConcat([db[0]], Chosen(db[1..], all), ids);
      assert [db[0]][1..] == [];
      assert [] + Chosen(db[1..], all) == Chosen(db[1..], all);
    }
  }

  // ---- the shown part is a pruning -----------------------------------------------------------

  lemma {:induction false} PrunedAll(f: seq<Content>)
    ensures Pruned([], f)
  {
    if f != [] {
      PrunedAll(f[1..]);
    }
  }

  lemma {:induction false} PrunedBare(f: seq<Content>, n: nat)
    ensures Pruned(Bare(First(f, n)), f)
    ensures |Bare(First(f, n))| == |First(f, n)|
  {
    if n == 0 {
      PrunedAll(f);
    } else if f != [] {
      var g := First(f, n);
      PrunedBare(f[1..], n - 1);
      assert g[1..] == First(f[1..], n - 1);
      PrunedAll(f[0].kids);
    }
  }

  lemma {:induction false} PrunedBelow(c: Content)
    ensures Pruned(Below(c), c.kids)
  {
    if |c.kids| == 1 {
      PrunedBelow(c.kids[0]);
    } else {
      PrunedBare(c.kids, NUM_GRANDCHILDREN_PER_CHILD);
    }
  }

  lemma {:induction false} PrunedChildren(f: seq<Content>, next: Option<int>, n: nat, depth: int)
    requires Distinct(f)
    ensures Pruned(WithGrandchildren(First(After(f, next), n), depth), f)
  {
    var a := After(f, next);
    if n == 0 {
      PrunedAll(f);
    } else if f != [] {
      if next.None? || next.value < f[0].lft {
        PrunedChildren(f[1..], next, n - 1, depth);
        assert a[1..] == After(f[1..], next) && First(a, n)[1..] == First(a[1..], n - 1);
        if depth == 2 {
          PrunedBelow(f[0]);
        } else {
          PrunedAll(f[0].kids);
        }
      } else {
        PrunedChildren(f[1..], next, n, depth);
        PrunedIds(WithGrandchildren(First(a, n), depth), f[1..]);
      }
    }
  }

  lemma {:induction false} PrunedShown(c: Content, next: Option<int>, depth: int)
    requires Distinct([c])
    ensures Pruned([Shown(c, next, depth)], [c])
  {
    var p := Shown(c, next, depth);
    assert [c][1..] == [] && [p][1..] == [];
    if next.None? && |c.kids| == 1 {
      assert c.kids == [c.kids[0]];
      PrunedShown(c.kids[0], next, depth);
    } else {
      PrunedChildren(c.kids, next, NUM_CHILDREN, depth);
    }
  }

  /** In any table that stores the tree, the rows of the shown nodes are the shown tree in preorder. */
  lemma {:induction false} ShownRows(db: seq<Entry>, x: Content, parent: Option<int>, next: Option<int>, depth: int)
    requires Stores(db, x, parent)
    ensures var p := Shown(x, next, depth);
            Distinct([p]) && Ids([p]) <= Ids([x]) && Chosen(db, Ids([p])) == Entries([p], parent)
  {
    var p := Shown(x, next, depth);
    PrunedShown(x, next, depth);
    PrunedIds([p], [x]);
    PrunedDistinct([p], [x]);
    ChosenChosen(db, Ids([x]), Ids([p]));
    assert Ids([p]) * Ids([x]) == Ids([p]);
    ChosenPruned([p], [x], parent, Ids([p]));
  }
}
