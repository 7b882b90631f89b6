/**
 Why ordering by left number gives preorder: the left numbers of the visible nodes of a numbered tree grow
 along its preorder, so every table in that order holds the tree as the endpoint relies on.
 */
module TreeTables {
  import opened Wrappers
  import opened ContentTrees
  import opened NestedSets
  import opened TreePaging

  /** What `order_by("lft")` gives; rows of different trees may have the same number. */
  predicate ByLeft(rows: seq<Entry>) {
    forall i, j :: 0 <= i < j < |rows| ==> rows[i].lft <= rows[j].lft
  }

  predicate StrictlyByLeft(rows: seq<Entry>) {
    forall i, j :: 0 <= i < j < |rows| ==> rows[i].lft < rows[j].lft
  }

  predicate Between(rows: seq<Entry>, lo: int, hi: int) {
    forall e <- rows :: lo <= e.lft < hi
  }

  predicate UniqueIds(rows: seq<Entry>) {
    forall i, j :: 0 <= i < j < |rows| ==> rows[i].id != rows[j].id
  }

  lemma {:induction false} Ascending(a: seq<Entry>, b: seq<Entry>, lo: int, mid: int, hi: int)
    requires StrictlyByLeft(a) && StrictlyByLeft(b) && Between(a, lo, mid) && Between(b, mid, hi) && lo <= mid <= hi
    ensures StrictlyByLeft(a + b) && Between(a + b, lo, hi)
  {
    forall i, j | 0 <= i < j < |a + b| ensures (a + b)[i].lft < (a + b)[j].lft {
      assert (a + b)[i] in a || (a + b)[i] in b;
      assert (a + b)[j] in a || (a + b)[j] in b;
    }
  }

  /** However many nodes of a numbered forest are hidden: in preorder, the left numbers of the others ascend. */
  lemma {:induction false} PreorderIsByLeft(g: seq<Content>, f: seq<Tree>, cursor: nat, parent: Option<int>)
    requires Pruned(g, Labelled(f, cursor))
    ensures StrictlyByLeft(Entries(g, parent)) && Between(Entries(g, parent), cursor, cursor + 2 * ForestSize(f))
  {
    if f != [] {
      var next := cursor + 2 * Size(f[0]);
      assert Labelled(f, cursor)[1..] == Labelled(f[1..], next);
      if g != [] && g[0].id == f[0].id {
        var head, below, rest := [Head(g[0], parent)], Entries(g[0].kids, Some(g[0].id)), Entries(g[1..], parent);
        PreorderIsByLeft(g[0].kids, f[0].kids, cursor + 1, Some(g[0].id));
        PreorderIsByLeft(g[1..], f[1..], next, parent);
        Ascending(head, below, cursor, cursor + 1, next);
        Ascending(head + below, rest, cursor, next, cursor + 2 * ForestSize(f));
      } else {
        PreorderIsByLeft(g, f[1..], next, parent);
      }
    }
  }

  lemma {:induction false} ChosenRows(db: seq<Entry>, ids: set<int>)
    requires ByLeft(db) && UniqueIds(db)
    ensures ByLeft(Chosen(db, ids)) && UniqueIds(Chosen(db, ids))
    ensures forall e :: e in Chosen(db, ids) <==> e in db && e.id in ids
  {
    if db != [] {
      var rest := Chosen(db[1..], ids);
      ChosenRows(db[1..], ids);
      forall e <- rest ensures db[0].lft <= e.lft && db[0].id != e.id {
        var i :| 0 <= i < |db[1..]| && db[1..][i] == e;
        assert e == db[i + 1];
      }
      assert Chosen(db, ids) == (if db[0].id in ids then [db[0]] else []) + rest;
    }
  }

  /** Rows in order by left number are determined by which they are, if no two of them have the same number. */
  lemma {:induction false} SameRows(a: seq<Entry>, b: seq<Entry>)
    requires ByLeft(a) && UniqueIds(a) && StrictlyByLeft(b)
    requires forall e :: e in a <==> e in b
    ensures a == b
  {
    assert (a != [] ==> a[0] in b) && (b != [] ==> b[0] in a);
    if a != [] {
      assert a[0] == b[0];
      forall e ensures e in a[1..] <==> e in b[1..] {
        assert e in a <==> e == a[0] || e in a[1..];
        assert e in b <==> e == b[0] || e in b[1..];
      }
      SameRows(a[1..], b[1..]);
    }
  }

  /**
   A table ordered by left number, with an id for each row, that has the visible rows of a numbered tree and
   no other row below one of them, stores the tree: by left number its rows are in preorder.
   */
  lemma {:induction false} OrderedTableStores(db: seq<Entry>, x: Content, parent: Option<int>, t: Tree, cursor: nat)
    requires Pruned([x], Labelled([t], cursor)) && Distinct([x]) && (parent.Some? ==> parent.value !in Ids([x]))
    requires ByLeft(db) && UniqueIds(db)
    requires forall e :: e in db && e.id in Ids([x]) <==> e in Entries([x], parent)
    requires forall e <- db :: e.parent.Some? && e.parent.value in Ids([x]) ==> e.id in Ids([x])
    ensures Stores(db, x, parent)
  {
    PreorderIsByLeft([x], [t], cursor, parent);
    ChosenRows(db, Ids([x]));
    SameRows(Chosen(db, Ids([x])), Entries([x], parent));
  }
}
