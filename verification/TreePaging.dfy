/**
 Following the cursors of the tree endpoint: what the pages of a node's children are together, and when
 the cursor is null.
 */
module TreePaging {
  import opened Wrappers
  import opened ContentTrees
  import opened TreeNesting
  import opened NestedSets
  import TreePages

  function KidIds(f: seq<Content>): seq<int> {
    if f == [] then [] else [f[0].id] + KidIds(f[1..])
  }

  /** Siblings by interval: each ends before the next begins. Gaps are where nodes that are not visible stand. */
  predicate InOrder(f: seq<Content>) {
    && (forall i :: 0 <= i < |f| ==> f[i].lft < f[i].rght)
    && (forall i, j :: 0 <= i < j < |f| ==> f[i].rght < f[j].lft)
  }

  predicate Ordered(c: Content) {
    InOrder(c.kids) && forall k <- c.kids :: k.rght < c.rght
  }

  /** No gap before a child or after the last one: all children are visible. */
  predicate Tight(c: Content) {
    Ordered(c) && (forall i :: 0 < i < |c.kids| ==> c.kids[i].lft == c.kids[i - 1].rght + 1)
    && (c.kids != [] ==> c.kids[|c.kids| - 1].rght + 1 == c.rght)
  }

  /** The cut that a left number makes in siblings in order. */
  ghost predicate CutsAt(f: seq<Content>, next: Option<int>, k: nat) {
    && k <= |f|
    && (forall i :: 0 <= i < k ==> next.Some? && f[i].lft <= next.value)
    && (forall i :: k <= i < |f| ==> next.None? || next.value < f[i].lft)
  }

  lemma {:induction false} AfterIsSuffix(f: seq<Content>, next: Option<int>, k: nat)
    requires CutsAt(f, next, k)
    ensures After(f, next) == f[k..]
  {
    if f != [] {
      if k == 0 {
        AfterIsSuffix(f[1..], next, 0);
        assert next.None? || next.value < f[0].lft;
      } else {
        AfterIsSuffix(f[1..], next, k - 1);
        assert f[0].lft <= next.value;
      }
    }
  }

  lemma {:induction false} CutExists(f: seq<Content>, next: Option<int>) returns (k: nat)
    requires InOrder(f)
    ensures CutsAt(f, next, k)
  {
    if f == [] || next.None? || next.value < f[0].lft {
      k := 0;
    } else {
      var j := CutExists(f[1..], next);
      k := j + 1;
      forall i | k <= i < |f| ensures next.value < f[i].lft {
        assert f[i] == f[1..][i - 1];
      }
      forall i | 0 <= i < k ensures f[i].lft <= next.value {
        assert i == 0 || f[i] == f[1..][i - 1];
      }
    }
  }

  /** Past the cursor of a full page are exactly the children that were not on it. */
  lemma {:induction false} AfterCursor(f: seq<Content>, next: Option<int>)
    requires InOrder(f) && NUM_CHILDREN <= |After(f, next)|
    ensures After(f, Some(After(f, next)[NUM_CHILDREN - 1].rght)) == After(f, next)[NUM_CHILDREN..]
  {
    var k := CutExists(f, next);
    AfterIsSuffix(f, next, k);
    var v := f[k + NUM_CHILDREN - 1].rght;
    AfterIsSuffix(f, Some(v), k + NUM_CHILDREN);
  }

  lemma {:induction false} KidIdsConcat(f: seq<Content>, g: seq<Content>)
    ensures KidIds(f + g) == KidIds(f) + KidIds(g)
  {
    if f == [] {
      assert f + g == g;
    } else {
      assert (f + g)[1..] == f[1..] + g;
      KidIdsConcat(f[1..], g);
    }
  }

  /** The list shown for a node asked with a cursor has its first children after that, and the node's own interval. */
  lemma {:induction false} ShownList(c: Content, next: Option<int>, depth: int)
    ensures var p := Shown(c, next, depth);
            && KidIds(p.kids) == KidIds(First(After(c.kids, next), NUM_CHILDREN))
            && |p.kids| == |First(After(c.kids, next), NUM_CHILDREN)|
            && (forall i :: 0 <= i < |p.kids| ==> p.kids[i].rght == After(c.kids, next)[i].rght)
            && p.rght == c.rght && p.id == c.id
  {
    if next.None? && |c.kids| == 1 {
      TreePages.AfterNone(c.kids);
    } else {
      GrandchildrenKeepHeads(First(After(c.kids, next), NUM_CHILDREN), depth);
    }
  }

  lemma {:induction false} GrandchildrenKeepHeads(f: seq<Content>, depth: int)
    ensures var g := WithGrandchildren(f, depth);
            KidIds(g) == KidIds(f) && |g| == |f| && forall i :: 0 <= i < |f| ==> g[i].rght == f[i].rght
  {
    if f != [] {
      GrandchildrenKeepHeads(f[1..], depth);
    }
  }

  /**
   A response at the end of a chain: the first twelve children after the cursor; with depth 2 what is below each of
   them, and with depth 1 nothing. And down a chain of only children: each with the next.
   */
  lemma {:induction false} WhatIsShown(c: Content, next: Option<int>, depth: int)
    ensures var p, a := Shown(c, next, depth), After(c.kids, next);
            && p.id == c.id && p.lft == c.lft && p.rght == c.rght
            && if next.None? && |c.kids| == 1 then p.kids == [Shown(c.kids[0], None, depth)]
               else
                 && |p.kids| == (if 12 < |a| then 12 else |a|)
                 && forall i :: 0 <= i < |p.kids| ==>
                      && p.kids[i].id == a[i].id
                      && if depth != 2 then p.kids[i].kids == []
                         else ChainBelow(a[i], p.kids[i].kids)
  {
    if !(next.None? && |c.kids| == 1) {
      EachWithGrandchildren(First(After(c.kids, next), NUM_CHILDREN), depth);
    }
  }

  lemma {:induction false} EachWithGrandchildren(f: seq<Content>, depth: int)
    ensures var g := WithGrandchildren(f, depth);
            |g| == |f| && forall i :: 0 <= i < |f| ==> g[i] == f[i].(kids := if depth == 2 then Below(f[i]) else [])
    ensures forall k <- f :: ChainBelow(k, Below(k))
  {
    if f != [] {
      var k := f[0];
      BelowIsChain(k);
      EachWithGrandchildren(f[1..], depth);
      assert forall m <- f :: m == k || m in f[1..];
    }
  }

  /** Below a node: the first twelve children, without theirs; but an only child with what is below it in turn. */
  predicate ChainBelow(c: Content, shown: seq<Content>) {
    KidIds(shown) == KidIds(if 12 < |c.kids| then c.kids[..12] else c.kids)
    && if |c.kids| == 1 then |shown| == 1 && ChainBelow(c.kids[0], shown[0].kids)
       else forall k <- shown :: k.kids == []
  }

  lemma {:induction false} BelowIsChain(c: Content)
    ensures ChainBelow(c, Below(c))
  {
    if |c.kids| == 1 {
      BelowIsChain(c.kids[0]);
      var shown := Below(c);
      assert shown[1..] == [] && c.kids[1..] == [];
      assert KidIds(shown) == [shown[0].id] + KidIds(shown[1..]);
      assert KidIds(c.kids) == [c.kids[0].id] + KidIds(c.kids[1..]);
    } else {
      BareKeepsHeads(First(c.kids, NUM_GRANDCHILDREN_PER_CHILD));
      BareIsBare(First(c.kids, NUM_GRANDCHILDREN_PER_CHILD));
    }
  }

  lemma {:induction false} BareIsBare(f: seq<Content>)
    ensures forall k <- Bare(f) :: k.kids == []
  {
    if f != [] {
      BareIsBare(f[1..]);
    }
  }

  /** The ids listed for a node by asking for its children and following the cursors to the end. */
  function Follow(c: Content, next: Option<int>, depth: int): seq<int>
    requires Ordered(c)
    decreases |After(c.kids, next)|
  {
    var page := Shown(c, next, depth);
    ShownList(c, next, depth);
    match MoreOf(page, c.id)
    case None => KidIds(page.kids)
    case Some(more) =>
      AfterCursor(c.kids, next);
      KidIds(page.kids) + Follow(c, Some(more.nextGt), more.depth)
  }

  /** Following the cursors lists every child exactly once, in order. */
  lemma {:induction false} FollowListsAll(c: Content, next: Option<int>, depth: int)
    requires Ordered(c)
    ensures Follow(c, next, depth) == KidIds(After(c.kids, next))
    ensures next == None ==> Follow(c, next, depth) == KidIds(c.kids)
    decreases |After(c.kids, next)|
  {
    hide Shown, After, KidIds;
    var page, a := Shown(c, next, depth), After(c.kids, next);
    ShownList(c, next, depth);
    TreePages.AfterNone(c.kids);
    match MoreOf(page, c.id) {
      case None =>
        NoMoreNoFurther(c, next, depth);
      case Some(more) =>
        AfterCursor(c.kids, next);
        FollowListsAll(c, Some(more.nextGt), more.depth);
        assert a == a[..NUM_CHILDREN] + a[NUM_CHILDREN..];
        KidIdsConcat(a[..NUM_CHILDREN], a[NUM_CHILDREN..]);
        assert First(a, NUM_CHILDREN) == a[..NUM_CHILDREN];
    }
  }

  /** The last child of a full page, against the end of the node's interval: before it if there are more. */
  lemma {:induction false} EndOfPage(c: Content, next: Option<int>)
    requires Ordered(c) && NUM_CHILDREN <= |After(c.kids, next)|
    ensures var a := After(c.kids, next);
            && (NUM_CHILDREN < |a| ==> a[NUM_CHILDREN - 1].rght + 1 < c.rght)
            && (NUM_CHILDREN == |a| && Tight(c) ==> a[NUM_CHILDREN - 1].rght + 1 == c.rght)
  {
    var k := CutExists(c.kids, next);
    AfterIsSuffix(c.kids, next, k);
    if k + NUM_CHILDREN < |c.kids| {
      assert c.kids[k + NUM_CHILDREN] in c.kids;
      assert c.kids[k + NUM_CHILDREN - 1].rght < c.kids[k + NUM_CHILDREN].lft;
    }
  }

  /** A null cursor means that there is no further child; a cursor, with all children visible, that there is one. */
  lemma {:induction false} NoMoreNoFurther(c: Content, next: Option<int>, depth: int)
    requires Ordered(c)
    ensures var page, a := Shown(c, next, depth), After(c.kids, next);
            && (MoreOf(page, c.id).None? ==> |a| <= NUM_CHILDREN)
            && (Tight(c) ==> (MoreOf(page, c.id).None? <==> |a| <= NUM_CHILDREN))
  {
    ShownList(c, next, depth);
    if NUM_CHILDREN <= |After(c.kids, next)| {
      EndOfPage(c, next);
    }
  }

  /** The list of a child's children that is nested in a response for its parent. */
  function NestedList(c: Content): Content {
    c.(kids := Bare(First(c.kids, NUM_GRANDCHILDREN_PER_CHILD)))
  }

  /** A list nested below a child is its first page, and goes on from its cursor just so. */
  lemma {:induction false} NestedListGoesOn(c: Content, pk: int)
    requires Ordered(c)
    ensures |c.kids| != 1 ==> c.(kids := Below(c)) == NestedList(c)
    ensures GoesOn(c, NestedList(c), pk)
  {
    BareKeepsHeads(First(c.kids, NUM_CHILDREN));
    PageGoesOn(c, NestedList(c), pk);
  }

  /** The ids on the list, and those that its cursor leads to, are those of all children. */
  predicate GoesOn(c: Content, list: Content, pk: int)
    requires Ordered(c)
  {
    match MoreOf(list, pk)
    case None => KidIds(list.kids) == KidIds(c.kids)
    case Some(more) => more.id == c.id && KidIds(list.kids) + Follow(c, Some(more.nextGt), more.depth) == KidIds(c.kids)
  }

  lemma {:induction false} PageGoesOn(c: Content, list: Content, pk: int)
    requires Ordered(c) && list.id == c.id && list.rght == c.rght
    requires var f := First(c.kids, NUM_CHILDREN);
             KidIds(list.kids) == KidIds(f) && |list.kids| == |f| && forall i :: 0 <= i < |f| ==> list.kids[i].rght == f[i].rght
    ensures GoesOn(c, list, pk)
  {
    var f := c.kids;
    if NUM_CHILDREN < |f| {
      assert f[NUM_CHILDREN] in c.kids;
    }
    match MoreOf(list, pk)
    case None =>
    case Some(more) =>
      TreePages.AfterNone(f);
      AfterCursor(f, None);
      FollowListsAll(c, Some(more.nextGt), more.depth);
      assert f == f[..NUM_CHILDREN] + f[NUM_CHILDREN..];
      KidIdsConcat(f[..NUM_CHILDREN], f[NUM_CHILDREN..]);
  }

  lemma {:induction false} BareKeepsHeads(f: seq<Content>)
    ensures KidIds(Bare(f)) == KidIds(f) && |Bare(f)| == |f| && forall i :: 0 <= i < |f| ==> Bare(f)[i].rght == f[i].rght
  {
    if f != [] {
      BareKeepsHeads(f[1..]);
    }
  }

  // ---- page sizes ------------------------------------------------------------------------------

  predicate Narrow(f: seq<Content>) {
    f == [] || (|f[0].kids| <= NUM_CHILDREN && Narrow(f[0].kids) && Narrow(f[1..]))
  }

  /** No list in a response is longer than a page. */
  lemma {:induction false} ListsArePages(c: Content, next: Option<int>, depth: int)
    ensures Narrow([Shown(c, next, depth)])
  {
    var p := Shown(c, next, depth);
    assert [p][1..] == [];
    if next.None? && |c.kids| == 1 {
      ListsArePages(c.kids[0], next, depth);
    } else {
      GrandchildrenKeepHeads(First(After(c.kids, next), NUM_CHILDREN), depth);
      GrandchildrenNarrow(First(After(c.kids, next), NUM_CHILDREN), depth);
    }
  }

  lemma {:induction false} GrandchildrenNarrow(f: seq<Content>, depth: int)
    ensures Narrow(WithGrandchildren(f, depth))
  {
    if f != [] {
      BelowNarrow(f[0]);
      GrandchildrenNarrow(f[1..], depth);
    }
  }

  lemma {:induction false} BelowNarrow(c: Content)
    ensures |Below(c)| <= NUM_CHILDREN && Narrow(Below(c))
  {
    if |c.kids| == 1 {
      BelowNarrow(c.kids[0]);
      assert Below(c)[1..] == [];
    } else {
      BareKeepsHeads(First(c.kids, NUM_CHILDREN));
      BareNarrow(First(c.kids, NUM_CHILDREN));
    }
  }

  lemma {:induction false} BareNarrow(f: seq<Content>)
    ensures Narrow(Bare(f))
  {
    if f != [] {
      BareNarrow(f[1..]);
    }
  }

  // ---- numbered trees --------------------------------------------------------------------------

  /** Trees with the numbers that the numbering gives them. */
  function Labelled(f: seq<Tree>, cursor: nat): seq<Content> {
    if f == [] then []
    else [Content(f[0].id, cursor, cursor + 2 * Size(f[0]) - 1, Labelled(f[0].kids, cursor + 1))] + Labelled(f[1..], cursor + 2 * Size(f[0]))
  }

  /** Siblings that fill the numbers from `cursor` up to `end`, without gaps. */
  predicate Fill(f: seq<Content>, cursor: int, end: int) {
    if f == [] then cursor == end
    else f[0].lft == cursor && f[0].lft < f[0].rght && Fill(f[1..], f[0].rght + 1, end)
  }

  lemma {:induction false} FillIsTight(f: seq<Content>, cursor: int, end: int)
    requires Fill(f, cursor, end)
    ensures InOrder(f) && (forall i :: 0 < i < |f| ==> f[i].lft == f[i - 1].rght + 1)
    ensures f != [] ==> f[|f| - 1].rght + 1 == end
    ensures cursor <= end && forall i :: 0 <= i < |f| ==> cursor <= f[i].lft && f[i].rght < end
  {
    if f != [] {
      var g := f[1..];
      FillIsTight(g, f[0].rght + 1, end);
      assert forall i :: 0 < i < |f| ==> f[i] == g[i - 1];
      if g != [] {
        assert f[|f| - 1] == g[|g| - 1];
      }
    }
  }

  /** Every list of siblings in a numbered tree is in order and without gaps, so the cursors are exact on it. */
  lemma {:induction false} NumberedIsTight(f: seq<Tree>, cursor: nat, c: Content)
    requires Within(c, Labelled(f, cursor))
    ensures Tight(c)
  {
    var g := Labelled(f, cursor);
    if c == g[0] {
      LabelledFills(f[0].kids, cursor + 1);
      FillIsTight(c.kids, cursor + 1, c.rght);
    } else if Within(c, g[0].kids) {
      NumberedIsTight(f[0].kids, cursor + 1, c);
    } else {
      NumberedIsTight(f[1..], cursor + 2 * Size(f[0]), c);
    }
  }

  lemma {:induction false} LabelledFills(f: seq<Tree>, cursor: nat)
    ensures Fill(Labelled(f, cursor), cursor, cursor + 2 * ForestSize(f))
  {
    if f != [] {
      LabelledFills(f[1..], cursor + 2 * Size(f[0]));
    }
  }

  predicate SameNumbers(entries: seq<Entry>, rows: seq<Row>) {
    && |entries| == |rows|
    && forall i :: 0 <= i < |rows| ==>
       entries[i].id == rows[i].id && entries[i].lft == rows[i].lft && entries[i].rght == rows[i].rght
  }

  lemma {:induction false} SameNumbersConcat(a: seq<Entry>, b: seq<Entry>, c: seq<Row>, d: seq<Row>)
    requires SameNumbers(a, c) && SameNumbers(b, d)
    ensures SameNumbers(a + b, c + d)
  {
  }

  /** The labels are those of the stored rows, in the same order. */
  lemma {:induction false} LabelsAreNumbers(f: seq<Tree>, cursor: nat, level: nat, parent: Option<int>)
    ensures SameNumbers(Entries(Labelled(f, cursor), parent), Number(f, cursor, level))
  {
    if f != [] {
      var t, g := f[0], Labelled(f, cursor);
      var below, rest := Labelled(t.kids, cursor + 1), Labelled(f[1..], cursor + 2 * Size(t));
      LabelsAreNumbers(t.kids, cursor + 1, level + 1, Some(t.id));
      LabelsAreNumbers(f[1..], cursor + 2 * Size(t), level, parent);
      assert g[1..] == rest;
      var root := Row(t.id, level, cursor, cursor + 2 * Size(t) - 1);
      SameNumbersConcat([Head(g[0], parent)], Entries(below, Some(t.id)), [root], Number(t.kids, cursor + 1, level + 1));
      SameNumbersConcat([Head(g[0], parent)] + Entries(below, Some(t.id)), Entries(rest, parent),
                        NumberTree(t, cursor, level), Number(f[1..], cursor + 2 * Size(t), level));
    }
  }
}
