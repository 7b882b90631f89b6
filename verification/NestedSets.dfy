/**
 Nested-set numbering of content trees: each node has a left and a right number, and a node is a
 descendant of another exactly when its interval lies strictly inside. The numbering of a tree, what it
 means, and what inserting a subtree into a numbered tree does to it.
 */
module NestedSets {
  datatype Tree = Node(id: int, kids: seq<Tree>)

  /** The mptt columns of one node. */
  datatype Row = Row(id: int, level: nat, lft: nat, rght: nat)

  function Size(t: Tree): nat {
    1 + ForestSize(t.kids)
  }

  function ForestSize(f: seq<Tree>): nat {
    if f == [] then 0 else Size(f[0]) + ForestSize(f[1..])
  }

  /** The rows of a tree numbered from `cursor` on, in preorder. */
  function NumberTree(t: Tree, cursor: nat, level: nat): seq<Row> {
    [Row(t.id, level, cursor, cursor + 2 * Size(t) - 1)] + Number(t.kids, cursor + 1, level + 1)
  }

  /** The rows of a list of trees numbered without a gap, one after the other. */
  function Number(f: seq<Tree>, cursor: nat, level: nat): seq<Row> {
    if f == [] then [] else NumberTree(f[0], cursor, level) + Number(f[1..], cursor + 2 * Size(f[0]), level)
  }

  lemma {:induction false} NumberSize(f: seq<Tree>, cursor: nat, level: nat)
    ensures |Number(f, cursor, level)| == ForestSize(f)
  {
    if f != [] {
      NumberSize(f[0].kids, cursor + 1, level + 1);
      NumberSize(f[1..], cursor + 2 * Size(f[0]), level);
    }
  }

  lemma {:induction false} NumberTreeSize(t: Tree, cursor: nat, level: nat)
    ensures |NumberTree(t, cursor, level)| == Size(t)
  {
    NumberSize(t.kids, cursor + 1, level + 1);
  }

  // ---- containment is descent ----------------------------------------------------------------

  /**
   The path of the i-th node in preorder: the child indices leading to it, where the trees of the
   forest count from `first`.
   */
  function PathAt(f: seq<Tree>, first: nat, i: nat): seq<nat>
    requires i < ForestSize(f)
  {
    if i == 0 then [first]
    else if i < Size(f[0]) then [first] + PathAt(f[0].kids, 0, i - 1)
    else PathAt(f[1..], first + 1, i - Size(f[0]))
  }

  function RowAt(f: seq<Tree>, cursor: nat, level: nat, i: nat): Row
    requires i < ForestSize(f)
  {
    if i == 0 then Row(f[0].id, level, cursor, cursor + 2 * Size(f[0]) - 1)
    else if i < Size(f[0]) then RowAt(f[0].kids, cursor + 1, level + 1, i - 1)
    else RowAt(f[1..], cursor + 2 * Size(f[0]), level, i - Size(f[0]))
  }

  lemma {:induction false} NumberAt(f: seq<Tree>, cursor: nat, level: nat, i: nat)
    requires i < ForestSize(f)
    ensures |Number(f, cursor, level)| == ForestSize(f) && Number(f, cursor, level)[i] == RowAt(f, cursor, level, i)
  {
    NumberSize(f, cursor, level);
    NumberSize(f[0].kids, cursor + 1, level + 1);
    if 0 < i < Size(f[0]) {
      NumberAt(f[0].kids, cursor + 1, level + 1, i - 1);
    } else if Size(f[0]) <= i {
      NumberAt(f[1..], cursor + 2 * Size(f[0]), level, i - Size(f[0]));
    }
  }

  predicate ValidPath(f: seq<Tree>, path: seq<nat>)
    decreases |path|
  {
    path != [] && path[0] < |f| && (|path| == 1 || ValidPath(f[path[0]].kids, path[1..]))
  }

  function NodeAt(f: seq<Tree>, path: seq<nat>): Tree
    requires ValidPath(f, path)
    decreases |path|
  {
    if |path| == 1 then f[path[0]] else NodeAt(f[path[0]].kids, path[1..])
  }

  /** The i-th row is that of the node at the i-th path: its level is its depth, its interval fits its size. */
  lemma {:induction false} PathLeadsToRow(f: seq<Tree>, cursor: nat, level: nat, first: nat, i: nat)
    requires i < ForestSize(f)
    ensures var p := PathAt(f, first, i);
            && p != [] && first <= p[0] && ValidPath(f, [p[0] - first] + p[1..])
            && var node, row := NodeAt(f, [p[0] - first] + p[1..]), RowAt(f, cursor, level, i);
               && node.id == row.id && row.level == level + |p| - 1
               && row.rght == row.lft + 2 * Size(node) - 1
               && cursor <= row.lft && row.rght < cursor + 2 * ForestSize(f)
  {
    var p := PathAt(f, first, i);
    if 0 < i < Size(f[0]) {
      PathLeadsToRow(f[0].kids, cursor + 1, level + 1, 0, i - 1);
      var q := PathAt(f[0].kids, 0, i - 1);
      assert [q[0] - 0] + q[1..] == q;
      assert ([0] + q)[1..] == q && p[1..] == q;
    } else if Size(f[0]) <= i {
      PathLeadsToRow(f[1..], cursor + 2 * Size(f[0]), level, first + 1, i - Size(f[0]));
      var q := [p[0] - first - 1] + p[1..];
      assert ([p[0] - first] + p[1..])[1..] == p[1..] == q[1..];
      assert f[p[0] - first] == f[1..][q[0]];
    } else {
      assert [p[0] - first] + p[1..] == [0];
    }
  }

  predicate Inside(outer: Row, inner: Row) {
    outer.lft < inner.lft && inner.rght < outer.rght
  }

  /** The node at path p is a proper ancestor of the node at path q: p is a proper prefix of q. */
  predicate Above(p: seq<nat>, q: seq<nat>) {
    q != [] && (p == [] || (p[0] == q[0] && Above(p[1..], q[1..])))
  }

  /**
   In a numbered forest, an interval lies strictly inside another exactly when its node is a descendant
   of the other's node. So filtering on lft and rght selects exactly the descendants.
   */
  lemma {:induction false} InsideIffAbove(f: seq<Tree>, cursor: nat, level: nat, first: nat, i: nat, j: nat)
    requires i < ForestSize(f) && j < ForestSize(f)
    ensures Inside(RowAt(f, cursor, level, i), RowAt(f, cursor, level, j)) <==> Above(PathAt(f, first, i), PathAt(f, first, j))
  {
    var n := Size(f[0]);
    assert [first][1..] == [];
    RowBounds(f, cursor, level, first, i);
    RowBounds(f, cursor, level, first, j);
    if n <= i && n <= j {
      InsideIffAbove(f[1..], cursor + 2 * n, level, first + 1, i - n, j - n);
    } else if 0 < i < n && 0 < j < n {
      InsideIffAbove(f[0].kids, cursor + 1, level + 1, 0, i - 1, j - 1);
      assert PathAt(f, first, i)[1..] == PathAt(f[0].kids, 0, i - 1);
      assert PathAt(f, first, j)[1..] == PathAt(f[0].kids, 0, j - 1);
    } else if 0 < j < n {
      assert PathAt(f, first, j)[1..] == PathAt(f[0].kids, 0, j - 1);
      PathLeadsToRow(f[0].kids, cursor + 1, level + 1, 0, j - 1);
    } else if 0 < i < n {
      assert PathAt(f, first, i)[1..] == PathAt(f[0].kids, 0, i - 1);
    }
  }

  lemma {:induction false} RowBounds(f: seq<Tree>, cursor: nat, level: nat, first: nat, i: nat)
    requires i < ForestSize(f)
    ensures PathAt(f, first, i) != []
    ensures var row, p, n := RowAt(f, cursor, level, i), PathAt(f, first, i)[0], Size(f[0]);
            if i == 0 then p == first && row.lft == cursor && row.rght == cursor + 2 * n - 1
            else if i < n then p == first && cursor < row.lft < row.rght < cursor + 2 * n - 1
            else first < p && cursor + 2 * n <= row.lft < row.rght
  {
    PathLeadsToRow(f, cursor, level, first, i);
    if 0 < i < Size(f[0]) {
      PathLeadsToRow(f[0].kids, cursor + 1, level + 1, 0, i - 1);
    } else if Size(f[0]) <= i {
      PathLeadsToRow(f[1..], cursor + 2 * Size(f[0]), level, first + 1, i - Size(f[0]));
    }
  }

  /** `filter_descendant_of` on the rows of a numbered forest, by the paths of the nodes. */
  lemma {:induction false} DescendantsByInterval(f: seq<Tree>, cursor: nat, level: nat, i: nat, j: nat)
    requires i < ForestSize(f) && j < ForestSize(f)
    ensures |Number(f, cursor, level)| == ForestSize(f)
    ensures Inside(Number(f, cursor, level)[i], Number(f, cursor, level)[j]) <==> Above(PathAt(f, 0, i), PathAt(f, 0, j))
  {
    NumberAt(f, cursor, level, i);
    NumberAt(f, cursor, level, j);
    InsideIffAbove(f, cursor, level, 0, i, j);
  }

  // ---- insertion -----------------------------------------------------------------------------

  /** A place in a forest: before the `index`-th tree below the node at `parent`, or of the forest itself. */
  predicate ValidPlace(f: seq<Tree>, parent: seq<nat>, index: nat)
    decreases |parent|
  {
    if parent == [] then index <= |f| else parent[0] < |f| && ValidPlace(f[parent[0]].kids, parent[1..], index)
  }

  function InsertTree(f: seq<Tree>, parent: seq<nat>, index: nat, x: Tree): seq<Tree>
    requires ValidPlace(f, parent, index)
    decreases |parent|
  {
    if parent == [] then f[..index] + [x] + f[index..]
    else
      var t := f[parent[0]];
      f[..parent[0]] + [Node(t.id, InsertTree(t.kids, parent[1..], index, x))] + f[parent[0] + 1..]
  }

  /** The number that a tree inserted at this place starts with. */
  function CursorAt(f: seq<Tree>, cursor: nat, parent: seq<nat>, index: nat): nat
    requires ValidPlace(f, parent, index)
    decreases |parent|
  {
    if parent == [] then cursor + 2 * ForestSize(f[..index])
    else CursorAt(f[parent[0]].kids, cursor + 2 * ForestSize(f[..parent[0]]) + 1, parent[1..], index)
  }

  /** How many rows come before it. */
  function RowsBefore(f: seq<Tree>, parent: seq<nat>, index: nat): nat
    requires ValidPlace(f, parent, index)
    decreases |parent|
  {
    if parent == [] then ForestSize(f[..index])
    else ForestSize(f[..parent[0]]) + 1 + RowsBefore(f[parent[0]].kids, parent[1..], index)
  }

  /** `_create_space`: every left and right number above `target` grows by `size`. */
  function ShiftRow(r: Row, size: nat, target: int): Row {
    r.(lft := if target < r.lft then r.lft + size else r.lft,
       rght := if target < r.rght then r.rght + size else r.rght)
  }

  function Shift(rows: seq<Row>, size: nat, target: int): (r: seq<Row>) {
    seq(|rows|, i requires 0 <= i < |rows| => ShiftRow(rows[i], size, target))
  }

  lemma {:induction false} ShiftConcat(a: seq<Row>, b: seq<Row>, size: nat, target: int)
    ensures Shift(a + b, size, target) == Shift(a, size, target) + Shift(b, size, target)
  {
  }

  lemma {:induction false} ShiftOne(r: Row, size: nat, target: int)
    ensures Shift([r], size, target) == [ShiftRow(r, size, target)] && Shift([], size, target) == []
  {
  }

  lemma {:induction false} ShiftParts(f: seq<Tree>, cursor: nat, level: nat, size: nat, target: int)
    requires f != []
    ensures Shift(Number(f, cursor, level), size, target)
         == [ShiftRow(Row(f[0].id, level, cursor, cursor + 2 * Size(f[0]) - 1), size, target)]
            + Shift(Number(f[0].kids, cursor + 1, level + 1), size, target)
            + Shift(Number(f[1..], cursor + 2 * Size(f[0]), level), size, target)
  {
    hide Shift;
    var t, root := f[0], Row(f[0].id, level, cursor, cursor + 2 * Size(f[0]) - 1);
    ShiftConcat(NumberTree(t, cursor, level), Number(f[1..], cursor + 2 * Size(t), level), size, target);
    ShiftConcat([root], Number(t.kids, cursor + 1, level + 1), size, target);
    ShiftOne(root, size, target);
  }

  /** Rows numbered above the target move as a whole; rows numbered below it stay. */
  lemma {:induction false} ShiftNumber(f: seq<Tree>, cursor: nat, level: nat, size: nat, target: int)
    ensures target < cursor ==> Shift(Number(f, cursor, level), size, target) == Number(f, cursor + size, level)
    ensures cursor + 2 * ForestSize(f) <= target + 1 ==> Shift(Number(f, cursor, level), size, target) == Number(f, cursor, level)
  {
    hide Shift;
    if f == [] {
      ShiftOne(Row(0, 0, 0, 0), size, target);
    } else {
      ShiftParts(f, cursor, level, size, target);
      ShiftNumber(f[0].kids, cursor + 1, level + 1, size, target);
      ShiftNumber(f[1..], cursor + 2 * Size(f[0]), level, size, target);
    }
  }

  lemma {:induction false} NumberConcat(f: seq<Tree>, g: seq<Tree>, cursor: nat, level: nat)
    ensures ForestSize(f + g) == ForestSize(f) + ForestSize(g)
    ensures Number(f + g, cursor, level) == Number(f, cursor, level) + Number(g, cursor + 2 * ForestSize(f), level)
  {
    if f == [] {
      assert f + g == g;
    } else {
      assert (f + g)[1..] == f[1..] + g;
      NumberConcat(f[1..], g, cursor + 2 * Size(f[0]), level);
    }
  }

  /** A forest around its j-th tree. */
  lemma {:induction false} NumberAround(f: seq<Tree>, t: Tree, g: seq<Tree>, cursor: nat, level: nat)
    ensures ForestSize(f + [t] + g) == ForestSize(f) + Size(t) + ForestSize(g)
    ensures Number(f + [t] + g, cursor, level)
         == Number(f, cursor, level) + NumberTree(t, cursor + 2 * ForestSize(f), level) + Number(g, cursor + 2 * ForestSize(f) + 2 * Size(t), level)
  {
    NumberConcat(f + [t], g, cursor, level);
    NumberConcat(f, [t], cursor, level);
    assert [t][1..] == [];
    assert Number([t], cursor + 2 * ForestSize(f), level) == NumberTree(t, cursor + 2 * ForestSize(f), level) + [];
  }

  /** The old rows, moved apart above `target`, with new rows put in after the first `before` of them. */
  function Spliced(rows: seq<Row>, before: nat, added: seq<Row>, size: nat, target: int): seq<Row>
    requires before <= |rows|
  {
    Shift(rows[..before], size, target) + added + Shift(rows[before..], size, target)
  }

  /** Splicing into the second of three lists of rows, the first and last of which only shift. */
  lemma {:induction false} SpliceMiddle(left: seq<Row>, middle: seq<Row>, right: seq<Row>, k: nat, added: seq<Row>, size: nat, target: int)
    requires k <= |middle|
    ensures Spliced(left + middle + right, |left| + k, added, size, target)
         == Shift(left, size, target) + Spliced(middle, k, added, size, target) + Shift(right, size, target)
  {
    assert (left + middle + right)[..|left| + k] == left + middle[..k];
    assert (left + middle + right)[|left| + k..] == middle[k..] + right;
    ShiftConcat(left, middle[..k], size, target);
    ShiftConcat(middle[k..], right, size, target);
  }

  /** The place's number and the rows before it, for the rows of a forest with a gap opened there. */
  function SplicedAt(f: seq<Tree>, cursor: nat, level: nat, parent: seq<nat>, index: nat, x: Tree): seq<Row>
    requires ValidPlace(f, parent, index) && RowsBefore(f, parent, index) <= |Number(f, cursor, level)|
  {
    var c: int := CursorAt(f, cursor, parent, index);
    Spliced(Number(f, cursor, level), RowsBefore(f, parent, index), NumberTree(x, c, level + |parent|), 2 * Size(x), c - 1)
  }

  /**
   The numbering of the new tree from the place's number on, and the old tree with all higher numbers
   shifted by twice the size of the new one, are together the gap-free numbering of the enlarged forest.
   */
  predicate InsertsWell(f: seq<Tree>, cursor: nat, level: nat, parent: seq<nat>, index: nat, x: Tree)
    requires ValidPlace(f, parent, index)
  {
    && RowsBefore(f, parent, index) <= |Number(f, cursor, level)|
    && SplicedAt(f, cursor, level, parent, index, x) == Number(InsertTree(f, parent, index, x), cursor, level)
  }

  /** The enlarged forest has the nodes of both, and the place's number lies within the forest's. */
  lemma {:induction false} InsertionSizes(f: seq<Tree>, cursor: nat, parent: seq<nat>, index: nat, x: Tree)
    requires ValidPlace(f, parent, index)
    ensures ForestSize(InsertTree(f, parent, index, x)) == ForestSize(f) + Size(x)
    ensures cursor <= CursorAt(f, cursor, parent, index) <= cursor + 2 * ForestSize(f)
    decreases |parent|
  {
    if parent == [] {
      NumberConcat(f[..index], f[index..], 0, 0);
      assert f[..index] + f[index..] == f;
      ForestAround(f[..index], x, f[index..]);
    } else {
      var a, t, b := f[..parent[0]], f[parent[0]], f[parent[0] + 1..];
      InsertionSizes(t.kids, cursor + 2 * ForestSize(a) + 1, parent[1..], index, x);
      assert f == a + [t] + b;
      ForestAround(a, t, b);
      ForestAround(a, Node(t.id, InsertTree(t.kids, parent[1..], index, x)), b);
    }
  }

  /** Inserting a tree anywhere in a numbered forest keeps the numbering gap-free. */
  lemma {:induction false} InsertionKeepsNumbering(f: seq<Tree>, cursor: nat, level: nat, parent: seq<nat>, index: nat, x: Tree)
    requires ValidPlace(f, parent, index)
    ensures InsertsWell(f, cursor, level, parent, index, x)
    decreases |parent|
  {
    if parent == [] {
      InsertHere(f, cursor, level, index, x);
    } else {
      var inner := cursor + 2 * ForestSize(f[..parent[0]]) + 1;
      InsertionKeepsNumbering(f[parent[0]].kids, inner, level + 1, parent[1..], index, x);
      var k, c, t' := InsertedInTree(f, cursor, level, parent, index, x);
      InsertedBelow(f, cursor, level, parent, index, x, k, c, t');
    }
  }

  /** The rows of a forest with the gap opened in one of its trees. */
  lemma {:induction false} InsertedInTree(f: seq<Tree>, cursor: nat, level: nat, parent: seq<nat>, index: nat, x: Tree)
    returns (k: nat, c: nat, t': Tree)
    requires ValidPlace(f, parent, index) && parent != []
    requires InsertsWell(f[parent[0]].kids, cursor + 2 * ForestSize(f[..parent[0]]) + 1, level + 1, parent[1..], index, x)
    ensures t' == Node(f[parent[0]].id, InsertTree(f[parent[0]].kids, parent[1..], index, x))
    ensures c == CursorAt(f[parent[0]].kids, cursor + 2 * ForestSize(f[..parent[0]]) + 1, parent[1..], index)
    ensures k == ForestSize(f[..parent[0]]) + 1 + RowsBefore(f[parent[0]].kids, parent[1..], index)
    ensures k <= |Number(f, cursor, level)|
    ensures Spliced(Number(f, cursor, level), k, NumberTree(x, c, level + |parent|), 2 * Size(x), c as int - 1)
         == Number(f[..parent[0]] + [t'] + f[parent[0] + 1..], cursor, level)
  {
    hide Number, NumberTree, ForestSize, Spliced, Shift;
    var t, inner := f[parent[0]], cursor + 2 * ForestSize(f[..parent[0]]) + 1;
    InsertionSizes(t.kids, inner, parent[1..], index, x);
    c := CursorAt(t.kids, inner, parent[1..], index);
    t' := Node(t.id, InsertTree(t.kids, parent[1..], index, x));
    var inside := RowsBefore(t.kids, parent[1..], index);
    k := ForestSize(f[..parent[0]]) + 1 + inside;
    InsertBelow(f, parent[0], t', cursor, level, inside, NumberTree(x, c, level + |parent|), 2 * Size(x), c as int - 1);
  }

  /** What the place and the enlarged forest are, one level further down. */
  lemma {:induction false} InsertedBelow(f: seq<Tree>, cursor: nat, level: nat, parent: seq<nat>, index: nat, x: Tree, k: nat, c: nat, t': Tree)
    requires ValidPlace(f, parent, index) && parent != []
    requires t' == Node(f[parent[0]].id, InsertTree(f[parent[0]].kids, parent[1..], index, x))
    requires c == CursorAt(f[parent[0]].kids, cursor + 2 * ForestSize(f[..parent[0]]) + 1, parent[1..], index)
    requires k == ForestSize(f[..parent[0]]) + 1 + RowsBefore(f[parent[0]].kids, parent[1..], index)
    requires k <= |Number(f, cursor, level)|
    requires Spliced(Number(f, cursor, level), k, NumberTree(x, c, level + |parent|), 2 * Size(x), c as int - 1)
          == Number(f[..parent[0]] + [t'] + f[parent[0] + 1..], cursor, level)
    ensures InsertsWell(f, cursor, level, parent, index, x)
  {
    assert InsertTree(f, parent, index, x) == f[..parent[0]] + [t'] + f[parent[0] + 1..];
    assert CursorAt(f, cursor, parent, index) == c && RowsBefore(f, parent, index) == k;
  }

  lemma {:induction false} InsertHere(f: seq<Tree>, cursor: nat, level: nat, index: nat, x: Tree)
    requires index <= |f|
    ensures InsertsWell(f, cursor, level, [], index, x)
  {
    hide Spliced, Shift;
    var a, b := f[..index], f[index..];
    assert f == a + b;
    SpliceHereRows(a, b, cursor, level, x);
    NumberConcat(a, b, cursor, level);
    NumberSize(a, cursor, level);
    NumberAround(a, x, b, cursor, level);
  }

  /** Splicing between trees: the rows of those before stay, those of the trees after move as a whole. */
  lemma {:induction false} SpliceHereRows(a: seq<Tree>, b: seq<Tree>, cursor: nat, level: nat, x: Tree)
    ensures var c: int := cursor + 2 * ForestSize(a);
            var ra, rb := Number(a, cursor, level), Number(b, c, level);
            Spliced(ra + rb, |ra|, NumberTree(x, c, level), 2 * Size(x), c - 1)
            == ra + NumberTree(x, c, level) + Number(b, c + 2 * Size(x), level)
  {
    var c: int := cursor + 2 * ForestSize(a);
    var ra, rb := Number(a, cursor, level), Number(b, c, level);
    ShiftNumber(a, cursor, level, 2 * Size(x), c - 1);
    ShiftNumber(b, c, level, 2 * Size(x), c - 1);
    SpliceMiddle(ra, [], rb, 0, NumberTree(x, c, level), 2 * Size(x), c - 1);
    assert ra + [] == ra;
  }

  /** Splicing below the root of the j-th tree of a forest gives the numbering with that tree replaced. */
  lemma {:induction false} InsertBelow(f: seq<Tree>, j: nat, t': Tree, cursor: nat, level: nat, k: nat, added: seq<Row>, size: nat, target: int)
    requires j < |f| && t'.id == f[j].id && 2 * Size(t') == 2 * Size(f[j]) + size
    requires cursor + 2 * ForestSize(f[..j]) <= target < cursor + 2 * ForestSize(f[..j]) + 2 * Size(f[j]) - 1
    requires k <= |Number(f[j].kids, cursor + 2 * ForestSize(f[..j]) + 1, level + 1)|
    requires Spliced(Number(f[j].kids, cursor + 2 * ForestSize(f[..j]) + 1, level + 1), k, added, size, target)
          == Number(t'.kids, cursor + 2 * ForestSize(f[..j]) + 1, level + 1)
    ensures ForestSize(f[..j]) + 1 + k <= |Number(f, cursor, level)|
    ensures Spliced(Number(f, cursor, level), ForestSize(f[..j]) + 1 + k, added, size, target)
         == Number(f[..j] + [t'] + f[j + 1..], cursor, level)
  {
    SpliceAround(f[..j], f[j], t', f[j + 1..], cursor, level, k, added, size, target);
    NumberSize(f[..j], cursor, level);
    assert f == f[..j] + [f[j]] + f[j + 1..];
  }

  lemma {:induction false} ForestAround(a: seq<Tree>, t: Tree, b: seq<Tree>)
    ensures ForestSize(a + [t] + b) == ForestSize(a) + Size(t) + ForestSize(b)
  {
    NumberAround(a, t, b, 0, 0);
  }

  /** Splicing below the root of the middle one of trees, seen in the rows of all of them. */
  lemma {:induction false} SpliceAroundRows(a: seq<Tree>, t: Tree, t': Tree, b: seq<Tree>, cursor: nat, level: nat, k: nat, added: seq<Row>, size: nat, target: int)
    requires t'.id == t.id && 2 * Size(t') == 2 * Size(t) + size
    requires cursor + 2 * ForestSize(a) <= target < cursor + 2 * ForestSize(a) + 2 * Size(t) - 1
    requires k <= |Number(t.kids, cursor + 2 * ForestSize(a) + 1, level + 1)|
    requires Spliced(Number(t.kids, cursor + 2 * ForestSize(a) + 1, level + 1), k, added, size, target)
          == Number(t'.kids, cursor + 2 * ForestSize(a) + 1, level + 1)
    ensures var at := cursor + 2 * ForestSize(a);
            var ra, mt, mt', rb, rb' := Number(a, cursor, level), NumberTree(t, at, level), NumberTree(t', at, level),
                                       Number(b, at + 2 * Size(t), level), Number(b, at + 2 * Size(t'), level);
            && 1 + k <= |mt|
            && Spliced(ra + mt + rb, |ra| + (1 + k), added, size, target) == ra + mt' + rb'
  {
    hide Number, ForestSize, Spliced, Shift;
    var at := cursor + 2 * ForestSize(a);
    NumberTreeSize(t, at, level);
    NumberSize(t.kids, at + 1, level + 1);
    SpliceTree(t, t', at, level, k, added, size, target);
    ShiftNumber(a, cursor, level, size, target);
    ShiftNumber(b, at + 2 * Size(t), level, size, target);
    SpliceMiddle(Number(a, cursor, level), NumberTree(t, at, level), Number(b, at + 2 * Size(t), level), 1 + k, added, size, target);
  }

  /** Splicing below the root of one tree of a forest. */
  lemma {:induction false} SpliceAround(a: seq<Tree>, t: Tree, t': Tree, b: seq<Tree>, cursor: nat, level: nat, k: nat, added: seq<Row>, size: nat, target: int)
    requires t'.id == t.id && 2 * Size(t') == 2 * Size(t) + size
    requires cursor + 2 * ForestSize(a) <= target < cursor + 2 * ForestSize(a) + 2 * Size(t) - 1
    requires k <= |Number(t.kids, cursor + 2 * ForestSize(a) + 1, level + 1)|
    requires Spliced(Number(t.kids, cursor + 2 * ForestSize(a) + 1, level + 1), k, added, size, target)
          == Number(t'.kids, cursor + 2 * ForestSize(a) + 1, level + 1)
    ensures |Number(a, cursor, level)| + (1 + k) <= |Number(a + [t] + b, cursor, level)|
    ensures Spliced(Number(a + [t] + b, cursor, level), |Number(a, cursor, level)| + (1 + k), added, size, target)
         == Number(a + [t'] + b, cursor, level)
  {
    SpliceAroundRows(a, t, t', b, cursor, level, k, added, size, target);
    NumberAround(a, t, b, cursor, level);
    NumberAround(a, t', b, cursor, level);
  }

  /** Splicing below the root of a tree: the root's right number is the only one of its row to move. */
  lemma {:induction false} SpliceTree(t: Tree, t': Tree, at: nat, level: nat, k: nat, added: seq<Row>, size: nat, target: int)
    requires t'.id == t.id && 2 * Size(t') == 2 * Size(t) + size
    requires at <= target < at + 2 * Size(t) - 1
    requires k <= |Number(t.kids, at + 1, level + 1)|
    requires Spliced(Number(t.kids, at + 1, level + 1), k, added, size, target) == Number(t'.kids, at + 1, level + 1)
    ensures Spliced(NumberTree(t, at, level), 1 + k, added, size, target) == NumberTree(t', at, level)
  {
    var root := Row(t.id, level, at, at + 2 * Size(t) - 1);
    SpliceMiddle([root], Number(t.kids, at + 1, level + 1), [], k, added, size, target);
    SameSplice([root] + Number(t.kids, at + 1, level + 1) + [], NumberTree(t, at, level), 1 + k, added, size, target);
  }

  lemma {:induction false} SameSplice(rows: seq<Row>, rows': seq<Row>, k: nat, added: seq<Row>, size: nat, target: int)
    requires rows == rows' && k <= |rows|
    ensures Spliced(rows, k, added, size, target) == Spliced(rows', k, added, size, target)
  {
  }
}
