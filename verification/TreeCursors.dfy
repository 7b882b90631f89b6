/**
 Going on from every cursor of a response: the nodes that are visible are in order, each cursor is one that
 the endpoint accepts, and requests that follow the cursors list the children.
 */
module TreeCursors {
  import opened Wrappers
  import opened ContentTrees
  import opened NestedSets
  import opened TreeNesting
  import opened TreePaging
  import TreePages

  /** Every list of siblings is in order within its parent, and the numbers are positive. */
  predicate AllOrdered(f: seq<Content>) {
    f == [] || (1 <= f[0].lft < f[0].rght && Ordered(f[0]) && AllOrdered(f[0].kids) && AllOrdered(f[1..]))
  }

  // ---- trees of which only some nodes are visible ------------------------------------------------

  /** Siblings one after the other between two numbers, with or without gaps. */
  predicate Spread(f: seq<Content>, cursor: int, end: int) {
    if f == [] then cursor <= end
    else cursor <= f[0].lft < f[0].rght && Spread(f[1..], f[0].rght + 1, end)
  }

  lemma {:induction false} SpreadFrom(f: seq<Content>, cursor: int, later: int, end: int)
    requires Spread(f, later, end) && cursor <= later
    ensures Spread(f, cursor, end)
  {
  }

  lemma {:induction false} PrunedSpread(g: seq<Content>, f: seq<Content>, cursor: int, end: int)
    requires Pruned(g, f) && Spread(f, cursor, end)
    ensures Spread(g, cursor, end)
  {
    if f != [] {
      if g != [] && g[0].id == f[0].id {
        PrunedSpread(g[1..], f[1..], f[0].rght + 1, end);
      } else {
        PrunedSpread(g, f[1..], f[0].rght + 1, end);
        SpreadFrom(g, cursor, f[0].rght + 1, end);
      }
    }
  }

  lemma {:induction false} FillIsSpread(f: seq<Content>, cursor: int, end: int)
    requires Fill(f, cursor, end)
    ensures Spread(f, cursor, end)
  {
    if f != [] {
      FillIsSpread(f[1..], f[0].rght + 1, end);
    }
  }

  lemma {:induction false} SpreadInOrder(f: seq<Content>, cursor: int, end: int)
    requires Spread(f, cursor, end)
    ensures InOrder(f) && cursor <= end && forall i :: 0 <= i < |f| ==> cursor <= f[i].lft && f[i].rght < end
  {
    if f != [] {
      var g := f[1..];
      SpreadInOrder(g, f[0].rght + 1, end);
      assert forall i :: 0 < i < |f| ==> f[i] == g[i - 1];
    }
  }

  /** However many nodes of a numbered tree are hidden, with all below them: the visible ones are in order. */
  lemma {:induction false} VisibleIsOrdered(g: seq<Content>, f: seq<Tree>, cursor: nat)
    requires 1 <= cursor && Pruned(g, Labelled(f, cursor))
    ensures AllOrdered(g)
  {
    if f != [] {
      var all := Labelled(f, cursor);
      if g != [] && g[0].id == all[0].id {
        LabelledFills(f[0].kids, cursor + 1);
        FillIsSpread(all[0].kids, cursor + 1, all[0].rght);
        PrunedSpread(g[0].kids, all[0].kids, cursor + 1, all[0].rght);
        SpreadInOrder(g[0].kids, cursor + 1, all[0].rght);
        VisibleIsOrdered(g[0].kids, f[0].kids, cursor + 1);
        VisibleIsOrdered(g[1..], f[1..], cursor + 2 * Size(f[0]));
      } else {
        VisibleIsOrdered(g, f[1..], cursor + 2 * Size(f[0]));
      }
    }
  }

  lemma {:induction false} OrderedWithin(c: Content, f: seq<Content>)
    requires AllOrdered(f) && Within(c, f)
    ensures Ordered(c) && 1 <= c.lft < c.rght && AllOrdered(c.kids)
  {
    if c != f[0] {
      if Within(c, f[0].kids) {
        OrderedWithin(c, f[0].kids);
      } else {
        OrderedWithin(c, f[1..]);
      }
    }
  }

  // ---- every list of a response goes on ----------------------------------------------------------

  /** The cursor on this list, if there is one, leads on from it, with parameters that the endpoint accepts. */
  predicate Continues(c: Content, list: Content, pk: int) {
    && Ordered(c) && c.id == list.id && GoesOn(c, list, pk)
    && (MoreOf(list, pk).Some? ==> 1 <= MoreOf(list, pk).value.nextGt && MoreOf(list, pk).value.depth == if c.id == pk then 2 else 1)
  }

  lemma {:induction false} PageContinues(c: Content, list: Content, pk: int)
    requires AllOrdered([c]) && list.id == c.id && list.rght == c.rght
    requires var f := First(c.kids, NUM_CHILDREN);
             KidIds(list.kids) == KidIds(f) && |list.kids| == |f| && forall i :: 0 <= i < |f| ==> list.kids[i].rght == f[i].rght
    ensures Continues(c, list, pk)
  {
    PageGoesOn(c, list, pk);
    if MoreOf(list, pk).Some? {
      OrderedMember(c.kids[NUM_CHILDREN - 1], c.kids);
    }
  }

  lemma {:induction false} BareHasNoKids(f: seq<Content>, n: Content)
    requires Within(n, Bare(f))
    ensures n.kids == []
  {
    if n != Bare(f)[0] {
      BareHasNoKids(f[1..], n);
    }
  }

  lemma {:induction false} WithinBare(n: Content, k: Content)
    requires Within(n, [k.(kids := [])])
    ensures n.kids == []
  {
    assert [k.(kids := [])][1..] == [];
  }

  lemma {:induction false} InGrandchildren(f: seq<Content>, depth: int, n: Content) returns (k: Content)
    requires Within(n, WithGrandchildren(f, depth))
    ensures k in f && Within(n, [k.(kids := if depth == 2 then Below(k) else [])])
  {
    var first := f[0].(kids := if depth == 2 then Below(f[0]) else []);
    if n == first || Within(n, first.kids) {
      k := f[0];
    } else {
      k := InGrandchildren(f[1..], depth, n);
    }
  }

  lemma {:induction false} WithinOne(c: Content, k: Content, f: seq<Content>)
    requires k in f && Within(c, [k])
    ensures Within(c, f)
  {
    if k == f[0] {
      assert [k][1..] == [];
    } else {
      WithinOne(c, k, f[1..]);
    }
  }

  lemma {:induction false} OrderedMember(c: Content, f: seq<Content>)
    requires c in f && AllOrdered(f)
    ensures AllOrdered([c])
  {
    if c != f[0] {
      OrderedMember(c, f[1..]);
    }
  }

  lemma {:induction false} BelowGoesOn(k: Content, n: Content, pk: int) returns (c: Content)
    requires AllOrdered([k]) && Within(n, [k.(kids := Below(k))]) && n.kids != []
    ensures Within(c, [k]) && Continues(c, n, pk)
  {
    var shown := k.(kids := Below(k));
    assert [shown][1..] == [] && [k][1..] == [];
    if n == shown {
      c := k;
      if |k.kids| != 1 {
        BareKeepsHeads(First(k.kids, NUM_CHILDREN));
        PageContinues(k, n, pk);
      } else {
        assert k.kids[1..] == [] && n.kids[1..] == [];
        assert KidIds(n.kids) == [k.kids[0].id] == KidIds(k.kids);
      }
    } else if |k.kids| == 1 {
      var only := k.kids[0];
      OrderedMember(only, k.kids);
      c := BelowGoesOn(only, n, pk);
      assert k.kids == [only];
    } else {
      BareHasNoKids(First(k.kids, NUM_GRANDCHILDREN_PER_CHILD), n);
    }
  }

  /**
   Every list in a response, down the chain, on the page and below its children, is the beginning of the
   children of its node, and the cursor on it leads to the rest.
   */
  lemma {:induction false} ShownGoesOn(x: Content, depth: int, n: Content, pk: int) returns (c: Content)
    requires AllOrdered([x]) && Within(n, [Shown(x, None, depth)]) && n.kids != []
    ensures Within(c, [x]) && Continues(c, n, pk)
  {
    var p := Shown(x, None, depth);
    assert [p][1..] == [] && [x][1..] == [];
    if n == p {
      c := x;
      ShownIsPage(x, depth, pk);
    } else if |x.kids| == 1 {
      OrderedMember(x.kids[0], x.kids);
      c := ShownGoesOn(x.kids[0], depth, n, pk);
      assert x.kids == [x.kids[0]];
    } else {
      TreePages.AfterNone(x.kids);
      var k := InGrandchildren(First(x.kids, NUM_CHILDREN), depth, n);
      OrderedMember(k, x.kids);
      assert depth == 2 by {
        if depth != 2 {
          WithinBare(n, k);
        }
      }
      c := BelowGoesOn(k, n, pk);
      WithinOne(c, k, x.kids);
    }
  }

  lemma {:induction false} ShownIsPage(x: Content, depth: int, pk: int)
    requires AllOrdered([x])
    ensures Continues(x, Shown(x, None, depth), pk)
  {
    TreePages.AfterNone(x.kids);
    ShownList(x, None, depth);
    PageContinues(x, Shown(x, None, depth), pk);
  }

  // ---- following the cursors by requests ---------------------------------------------------------

  lemma {:induction false} SubtreeDistinct(c: Content, f: seq<Content>)
    requires Distinct(f) && Within(c, f)
    ensures Distinct([c]) && Ids([c]) <= Ids(f)
  {
    assert [c][1..] == [];
    WithinHasId(c, f);
    if c != f[0] {
      if Within(c, f[0].kids) {
        SubtreeDistinct(c, f[0].kids);
      } else {
        SubtreeDistinct(c, f[1..]);
      }
    }
  }

  /** Choosing the rows of a subtree by id gives its rows, under the id of its parent. */
  lemma {:induction false} ChosenSubtree(c: Content, f: seq<Content>, parent: Option<int>) returns (above: Option<int>)
    requires Distinct(f) && Within(c, f) && (parent.Some? ==> parent.value !in Ids(f))
    ensures Chosen(Entries(f, parent), Ids([c])) == Entries([c], above)
    ensures above.Some? ==> above.value !in Ids([c])
  {
    var t, ids := f[0], Ids([c]);
    assert [c][1..] == [];
    ChosenSplit(f, parent, ids);
    SubtreeDistinct(c, f);
    if c == t {
      above := parent;
      ChosenAll(t.kids, Some(t.id), ids);
      assert ids * Ids(f[1..]) == {};
      NoneChosen(f[1..], parent, ids);
      assert Entries([c], parent) == [Head(c, parent)] + Entries(c.kids, Some(c.id)) + [];
    } else if Within(c, t.kids) {
      SubtreeDistinct(c, t.kids);
      above := ChosenSubtree(c, t.kids, Some(t.id));
      assert ids * Ids(f[1..]) == {};
      NoneChosen(f[1..], parent, ids);
    } else {
      SubtreeDistinct(c, f[1..]);
      above := ChosenSubtree(c, f[1..], parent);
      assert ids * Ids(t.kids) == {};
      NoneChosen(t.kids, Some(t.id), ids);
    }
  }

  lemma {:induction false} ChosenAll(f: seq<Content>, parent: Option<int>, ids: set<int>)
    requires Ids(f) <= ids
    ensures Chosen(Entries(f, parent), ids) == Entries(f, parent)
  {
    if f != [] {
      ChosenSplit(f, parent, ids);
      ChosenAll(f[0].kids, Some(f[0].id), ids);
      ChosenAll(f[1..], parent, ids);
    }
  }

  lemma {:induction false} ParentsInForest(f: seq<Content>, parent: Option<int>, e: Entry)
    requires e in Entries(f, parent)
    ensures e.id in Ids(f) && (e.parent == parent || (e.parent.Some? && e.parent.value in Ids(f)))
  {
    if e in Entries(f[0].kids, Some(f[0].id)) {
      ParentsInForest(f[0].kids, Some(f[0].id), e);
    } else if e in Entries(f[1..], parent) {
      ParentsInForest(f[1..], parent, e);
    }
  }

  /** In the rows of a forest, what has its parent in a subtree is in that subtree. */
  lemma {:induction false} ParentInSubtree(c: Content, f: seq<Content>, parent: Option<int>, e: Entry)
    requires Distinct(f) && Within(c, f) && (parent.Some? ==> parent.value !in Ids(f))
    requires e in Entries(f, parent) && e.parent.Some? && e.parent.value in Ids([c])
    ensures e.id in Ids([c])
  {
    var t := f[0];
    assert [c][1..] == [];
    SubtreeDistinct(c, f);
    if e in Entries(t.kids, Some(t.id)) {
      ParentsInForest(t.kids, Some(t.id), e);
      if c != t {
        if Within(c, t.kids) {
          ParentInSubtree(c, t.kids, Some(t.id), e);
        } else {
          SubtreeDistinct(c, f[1..]);
        }
      }
    } else if e in Entries(f[1..], parent) {
      ParentsInForest(f[1..], parent, e);
      if c != t {
        if Within(c, t.kids) {
          SubtreeDistinct(c, t.kids);
        } else {
          ParentInSubtree(c, f[1..], parent, e);
        }
      }
    }
  }

  lemma {:induction false} InChosen(db: seq<Entry>, ids: set<int>, e: Entry)
    requires e in db && e.id in ids
    ensures e in Chosen(db, ids)
  {
    if e != db[0] {
      InChosen(db[1..], ids, e);
    }
  }

  /** A table that holds a tree holds each of its subtrees, under the id of its parent. */
  lemma {:induction false} SubtreeStored(db: seq<Entry>, x: Content, parent: Option<int>, c: Content) returns (above: Option<int>)
    requires Stores(db, x, parent) && Within(c, [x])
    ensures Stores(db, c, above)
  {
    SubtreeDistinct(c, [x]);
    above := ChosenSubtree(c, [x], parent);
    ChosenChosen(db, Ids([x]), Ids([c]));
    forall e <- db | e.parent.Some? && e.parent.value in Ids([c]) ensures e.id in Ids([c]) {
      InChosen(db, Ids([x]), e);
      ParentInSubtree(c, [x], parent, e);
    }
  }

  /** The ids on the list of a response. */
  method ListedIds(node: Serialized, ghost c: Content, ghost pk: int, ghost all: set<Serialized>) returns (ids: seq<int>)
    requires Shows(node, c, pk, all)
    ensures ids == KidIds(c.kids)
  {
    ids := [];
    if node.children.Some? {
      var results := node.children.value.results;
      for i := 0 to |results|
        invariant ids == KidIds(c.kids[..i])
      {
        assert Shows(results[i], c.kids[i], pk, all);
        KidIdsConcat(c.kids[..i], [c.kids[i]]);
        assert [c.kids[i]][1..] == [];
        assert c.kids[..i + 1] == c.kids[..i] + [c.kids[i]];
        ids := ids + [results[i].entry.id];
      }
      assert c.kids[..|results|] == c.kids;
    }
  }

  lemma {:induction false} ChosenInTable(db: seq<Entry>, ids: set<int>, e: Entry)
    requires e in Chosen(db, ids)
    ensures e in db
  {
    if e != db[0] {
      ChosenInTable(db[1..], ids, e);
    }
  }

  lemma {:induction false} RowOf(db: seq<Entry>, c: Content, above: Option<int>) returns (row: Entry)
    requires Stores(db, c, above)
    ensures row in db && row.id == c.id
  {
    row := Head(c, above);
    assert Chosen(db, Ids([c]))[0] == row;
    ChosenInTable(db, Ids([c]), row);
  }

  lemma {:induction false} CursorIsPositive(c: Content, next: Option<int>)
    requires AllOrdered(c.kids) && NUM_CHILDREN <= |After(c.kids, next)|
    ensures 1 <= After(c.kids, next)[NUM_CHILDREN - 1].rght
  {
    var last := After(c.kids, next)[NUM_CHILDREN - 1];
    AfterInForest(c.kids, next, last);
    OrderedMember(last, c.kids);
  }

  lemma {:induction false} AfterInForest(f: seq<Content>, next: Option<int>, c: Content)
    requires c in After(f, next)
    ensures c in f
  {
    if c != f[0] {
      AfterInForest(f[1..], next, c);
    }
  }

  /** A request for a node of the tree, with parameters in their ranges, is answered. */
  method Request(db: seq<Entry>, id: int, depth: int, next: Option<int>,
                 ghost c: Content, ghost x: Content, ghost parent: Option<int>)
    returns (node: Serialized, ghost all: set<Serialized>)
    requires Stores(db, x, parent) && Within(c, [x]) && c.id == id
    requires 1 <= depth <= 2 && (next.Some? ==> 1 <= next.value)
    ensures Shows(node, Shown(c, next, depth), id, all)
  {
    hide Stores, Shown, Shows;
    ghost var above := SubtreeStored(db, x, parent, c);
    ghost var row := RowOf(db, c, above);
    assert row in db && row.id == id;
    var r;
    r, all := Retrieve(db, id, depth, next, c, above);
    assert r != Failure(NotFound) && r != Failure(ValidationError);
    assert r.Failure? ==> r.error == NotFound || r.error == ValidationError;
    node := r.value;
  }

  /**
   Asking for the children of a node of the tree, and then with each cursor received until one is null:
   no request is refused, and the ids received are those of all children past the first cursor, once each.
   */
  method ListChildren(db: seq<Entry>, id: int, depth: int, next: Option<int>,
                      ghost c: Content, ghost x: Content, ghost parent: Option<int>)
    returns (ids: seq<int>)
    requires Stores(db, x, parent) && AllOrdered([x]) && Within(c, [x]) && c.id == id
    requires 1 <= depth <= 2 && (next.Some? ==> 1 <= next.value)
    ensures ids == KidIds(After(c.kids, next))
    ensures next == None ==> ids == KidIds(c.kids)
    decreases |After(c.kids, next)|
  {
    hide Stores, Shown, Within, After, AllOrdered;
    OrderedWithin(c, [x]);
    ghost var page, a := Shown(c, next, depth), After(c.kids, next);
    ShownList(c, next, depth);
    TreePages.AfterNone(c.kids);
    var node, all := Request(db, id, depth, next, c, x, parent);
    ids := ListedIds(node, page, id, all);
    if node.children.Some? && node.children.value.more.Some? {
      var more := node.children.value.more.value;
      AfterCursor(c.kids, next);
      CursorIsPositive(c, next);
      var rest := ListChildren(db, more.id, more.depth, Some(more.nextGt), c, x, parent);
      assert a == a[..NUM_CHILDREN] + a[NUM_CHILDREN..];
      KidIdsConcat(a[..NUM_CHILDREN], a[NUM_CHILDREN..]);
      assert First(a, NUM_CHILDREN) == a[..NUM_CHILDREN];
      ids := ids + rest;
    } else {
      NoMoreNoFurther(c, next, depth);
    }
  }
}
