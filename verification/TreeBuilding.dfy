/**
 Building the numbered nodes of a new subtree and opening the space for them in a stored tree
 (`ContentNodeManager.build_tree_nodes`).
 */
module TreeBuilding {
  import opened Wrappers
  import opened NestedSets

  datatype Position = Left | Right | FirstChild | LastChild

  class ContentNode {
    const id: int
    var treeId: nat
    var level: nat
    var lft: nat
    var rght: nat

    constructor (id: int)
      ensures this.id == id
    {
      this.id := id;
    }

    function AsRow(): Row
      reads this
    {
      Row(id, level, lft, rght)
    }
  }

  function Rows(nodes: seq<ContentNode>): (rows: seq<Row>)
    reads nodes
  {
    seq(|nodes|, i requires 0 <= i < |nodes| reads nodes => nodes[i].AsRow())
  }

  lemma {:induction false} RowsConcat(a: seq<ContentNode>, b: seq<ContentNode>)
    ensures Rows(a + b) == Rows(a) + Rows(b)
  {
  }

  /** The row of the node at a path. */
  function PathRow(f: seq<Tree>, cursor: nat, level: nat, path: seq<nat>): Row
    requires ValidPath(f, path)
    decreases |path|
  {
    var at := cursor + 2 * ForestSize(f[..path[0]]);
    if |path| == 1 then Row(f[path[0]].id, level, at, at + 2 * Size(f[path[0]]) - 1)
    else PathRow(f[path[0]].kids, at + 1, level + 1, path[1..])
  }

  /** Which place a position names, relative to the node at `path`. */
  function PlaceParent(path: seq<nat>, position: Position): seq<nat>
    requires path != []
  {
    if position.Left? || position.Right? then path[..|path| - 1] else path
  }

  function PlaceIndex(f: seq<Tree>, path: seq<nat>, position: Position): nat
    requires ValidPath(f, path)
  {
    match position
    case Left => path[|path| - 1]
    case Right => path[|path| - 1] + 1
    case FirstChild => 0
    case LastChild => |NodeAt(f, path).kids|
  }

  /** The cursor and the level that the code derives from the target's columns. */
  function TargetCursor(target: Row, position: Position): nat {
    match position
    case Left => target.lft
    case Right => target.rght + 1
    case FirstChild => target.lft + 1
    case LastChild => target.rght
  }

  function TargetLevel(target: Row, position: Position): nat {
    if position.Left? || position.Right? then target.level else target.level + 1
  }

  /** The target's columns name the right number and depth for each of the four positions. */
  lemma {:induction false} TargetNamesPlace(f: seq<Tree>, cursor: nat, level: nat, path: seq<nat>, position: Position)
    requires ValidPath(f, path)
    ensures var row, parent, index := PathRow(f, cursor, level, path), PlaceParent(path, position), PlaceIndex(f, path, position);
            && ValidPlace(f, parent, index)
            && TargetCursor(row, position) == CursorAt(f, cursor, parent, index)
            && TargetLevel(row, position) == level + |parent|
    decreases |path|
  {
    var i, t := path[0], f[path[0]];
    var at := cursor + 2 * ForestSize(f[..i]);
    if |path| == 1 {
      assert path == [i];
      AtRoot(f, cursor, level, i, position);
    } else {
      TargetNamesPlace(t.kids, at + 1, level + 1, path[1..], position);
      var parent := PlaceParent(path, position);
      assert parent[1..] == PlaceParent(path[1..], position) && parent[0] == i;
      assert PlaceIndex(f, path, position) == PlaceIndex(t.kids, path[1..], position);
    }
  }

  /** The list that the node at this path stands in. */
  function Siblings(f: seq<Tree>, path: seq<nat>): (siblings: seq<Tree>)
    requires ValidPath(f, path)
    ensures path[|path| - 1] < |siblings| && siblings[path[|path| - 1]] == NodeAt(f, path)
    decreases |path|
  {
    if |path| == 1 then f else Siblings(f[path[0]].kids, path[1..])
  }

  /** From `f` to `g`, nothing has changed but what the node at this path, or the whole forest, has as its children. */
  predicate OnlyAt(f: seq<Tree>, g: seq<Tree>, parent: seq<nat>)
    decreases |parent|
  {
    parent == [] ||
    (&& parent[0] < |f| == |g| && f[..parent[0]] == g[..parent[0]] && f[parent[0] + 1..] == g[parent[0] + 1..]
     && f[parent[0]].id == g[parent[0]].id && OnlyAt(f[parent[0]].kids, g[parent[0]].kids, parent[1..]))
  }

  /** Where the tree is at a position by the target, and that nothing else differs. */
  predicate StandsAt(f: seq<Tree>, g: seq<Tree>, path: seq<nat>, position: Position, data: Tree)
    requires ValidPath(f, path)
  {
    var target, siblings, i := NodeAt(f, path), Siblings(f, path), path[|path| - 1];
    && ValidPath(g, path)
    && OnlyAt(f, g, if position.FirstChild? || position.LastChild? then path else path[..|path| - 1])
    && match position
       case FirstChild => NodeAt(g, path) == Node(target.id, [data] + target.kids)
       case LastChild => NodeAt(g, path) == Node(target.id, target.kids + [data])
       case Left => Siblings(g, path) == siblings[..i] + [data] + siblings[i..]
       case Right => Siblings(g, path) == siblings[..i + 1] + [data] + siblings[i + 1..]
  }

  lemma {:induction false} PositionAtRoot(f: seq<Tree>, i: nat, position: Position, data: Tree)
    requires i < |f|
    ensures ValidPlace(f, PlaceParent([i], position), PlaceIndex(f, [i], position))
    ensures StandsAt(f, InsertTree(f, PlaceParent([i], position), PlaceIndex(f, [i], position), data), [i], position, data)
  {
    var t, path := f[i], [i];
    assert path[..0] == [] && path[1..] == [];
    var index := PlaceIndex(f, path, position);
    if position.FirstChild? || position.LastChild? {
      assert ValidPlace(t.kids, [], index);
      assert InsertTree(f, path, index, data) == f[..i] + [Node(t.id, t.kids[..index] + [data] + t.kids[index..])] + f[i + 1..];
      assert t.kids[..|t.kids|] == t.kids && t.kids[..0] == [];
    }
  }

  lemma {:induction false} PositionBelow(f: seq<Tree>, i: nat, below: seq<Tree>, path: seq<nat>, position: Position, data: Tree)
    requires ValidPath(f, path) && 1 < |path| && path[0] == i && StandsAt(f[i].kids, below, path[1..], position, data)
    ensures StandsAt(f, f[..i] + [Node(f[i].id, below)] + f[i + 1..], path, position, data)
  {
    var g := f[..i] + [Node(f[i].id, below)] + f[i + 1..];
    assert g[i].kids == below && g[..i] == f[..i] && g[i + 1..] == f[i + 1..];
    assert path[..|path| - 1][1..] == path[1..][..|path| - 2];
  }

  /**
   The four positions: the tree becomes the first or the last child of the target, or stands directly before or
   after it among its siblings; and nothing else changes.
   */
  lemma {:induction false} FourPositions(f: seq<Tree>, path: seq<nat>, position: Position, data: Tree)
    requires ValidPath(f, path)
    ensures ValidPlace(f, PlaceParent(path, position), PlaceIndex(f, path, position))
    ensures StandsAt(f, InsertTree(f, PlaceParent(path, position), PlaceIndex(f, path, position), data), path, position, data)
    decreases |path|
  {
    hide StandsAt, CursorAt, PathRow;
    TargetNamesPlace(f, 0, 0, path, position);
    var i, t := path[0], f[path[0]];
    if |path| == 1 {
      assert path == [i];
      PositionAtRoot(f, i, position, data);
    } else {
      var parent, index := PlaceParent(path, position), PlaceIndex(f, path, position);
      FourPositions(t.kids, path[1..], position, data);
      assert parent[0] == i && parent[1..] == PlaceParent(path[1..], position) && index == PlaceIndex(t.kids, path[1..], position);
      PositionBelow(f, i, InsertTree(t.kids, parent[1..], index, data), path, position, data);
    }
  }

  /** The row of a path is the stored one: the row before which a tree at its left would go. */
  lemma {:induction false} PathRowIsStored(f: seq<Tree>, cursor: nat, level: nat, path: seq<nat>)
    requires ValidPath(f, path)
    ensures var parent, index, rows := PlaceParent(path, Left), PlaceIndex(f, path, Left), Number(f, cursor, level);
            && ValidPlace(f, parent, index)
            && RowsBefore(f, parent, index) < |rows|
            && rows[RowsBefore(f, parent, index)] == PathRow(f, cursor, level, path)
    decreases |path|
  {
    var i := path[0];
    var a, t, b := f[..i], f[i], f[i + 1..];
    var at := cursor + 2 * ForestSize(a);
    assert f == a + [t] + b;
    NumberAround(a, t, b, cursor, level);
    NumberSize(a, cursor, level);
    if |path| == 1 {
      assert PlaceParent(path, Left) == [];
    } else {
      PathRowIsStored(t.kids, at + 1, level + 1, path[1..]);
      var parent := PlaceParent(path, Left);
      assert parent[1..] == PlaceParent(path[1..], Left) && parent[0] == i;
    }
  }

  lemma {:induction false} AtRoot(f: seq<Tree>, cursor: nat, level: nat, i: nat, position: Position)
    requires i < |f|
    ensures var row, parent, index := PathRow(f, cursor, level, [i]), PlaceParent([i], position), PlaceIndex(f, [i], position);
            && ValidPlace(f, parent, index)
            && TargetCursor(row, position) == CursorAt(f, cursor, parent, index)
            && TargetLevel(row, position) == level + |parent|
  {
    var t := f[i];
    assert [i][1..] == [] && [i][..0] == [];
    assert f[..i + 1] == f[..i] + [t] + [];
    ForestAround(f[..i], t, []);
    assert t.kids[..|t.kids|] == t.kids && t.kids[..0] == [];
  }

  lemma {:induction false} OneMoreTree(f: seq<Tree>, i: nat, cursor: nat, level: nat)
    requires i < |f|
    ensures ForestSize(f[..i + 1]) == ForestSize(f[..i]) + Size(f[i])
    ensures Number(f[..i + 1], cursor, level)
         == Number(f[..i], cursor, level) + NumberTree(f[i], cursor + 2 * ForestSize(f[..i]), level)
  {
    assert f[..i + 1] == f[..i] + [f[i]] + [];
    NumberAround(f[..i], f[i], [], cursor, level);
  }

  lemma {:induction false} NothingNumbered(cursor: nat, level: nat)
    ensures ForestSize([]) == 0 && Number([], cursor, level) == [] && Rows([]) == []
  {
  }

  lemma {:induction false} TreeNumbered(node: ContentNode, data: Tree, cursor: nat, level: nat)
    requires node.id == data.id && node.level == level && node.lft == cursor
    requires node.rght == cursor + 2 * ForestSize(data.kids) + 1
    ensures node.rght == cursor + 2 * Size(data) - 1
    ensures Rows([node]) + Number(data.kids, cursor + 1, level + 1) == NumberTree(data, cursor, level)
  {
  }

  /** The nodes made so far, and the tree they belong to. */
  class Builder {
    const treeId: nat
    var stack: seq<ContentNode>

    constructor (treeId: nat)
      ensures this.treeId == treeId && stack == []
    {
      this.treeId := treeId;
      stack := [];
    }

    /**
     Numbers `data` from `cursor` on, in preorder, putting a new node `made[i]` on the stack for each of its
     nodes, and returns the last number used.
     */
    method Treeify(data: Tree, cursor: nat, level: nat) returns (last: nat, ghost made: seq<ContentNode>)
      modifies this`stack
      ensures last == cursor + 2 * Size(data) - 1
      ensures stack == old(stack) + made
      ensures forall node <- made :: fresh(node) && node.treeId == treeId
      ensures Rows(made) == NumberTree(data, cursor, level)
      decreases data
    {
      hide *;
      var node := new ContentNode(data.id);
      stack := stack + [node];
      NothingNumbered(cursor + 1, level + 1);
      node.treeId, node.level, node.lft := treeId, level, cursor;
      last := cursor;
      made := [];
      for i := 0 to |data.kids|
        invariant last == cursor + 2 * ForestSize(data.kids[..i])
        invariant stack == old(stack) + [node] + made
        invariant forall other <- made :: fresh(other) && other != node && other.treeId == treeId
        invariant node.treeId == treeId && node.level == level && node.lft == cursor
        invariant Rows(made) == Number(data.kids[..i], cursor + 1, level + 1)
      {
        ghost var more;
        OneMoreTree(data.kids, i, cursor + 1, level + 1);
        last, more := Treeify(data.kids[i], last + 1, level + 1);
        RowsConcat(made, more);
        made := made + more;
      }
      last := last + 1;
      node.rght := last;
      assert data.kids[..|data.kids|] == data.kids;
      RowsConcat([node], made);
      TreeNumbered(node, data, cursor, level);
      made := [node] + made;
    }
  }

  /** A stored node, as the caller passes it to name a place. */
  datatype Target = Target(treeId: nat, row: Row)

  /** Rows of an enlarged tree: those stored and those made are together the numbering with `data` in its place. */
  predicate Enlarged(stored: seq<Row>, made: seq<Row>, f: seq<Tree>, path: seq<nat>, position: Position, data: Tree)
    requires ValidPath(f, path)
  {
    var parent, index := PlaceParent(path, position), PlaceIndex(f, path, position);
    && ValidPlace(f, parent, index)
    && var k := RowsBefore(f, parent, index);
       k <= |stored| && stored[..k] + made + stored[k..] == Number(InsertTree(f, parent, index, data), 1, 0)
  }

  lemma {:induction false} SpaceForTree(f: seq<Tree>, path: seq<nat>, position: Position, data: Tree)
    requires ValidPath(f, path)
    ensures var row := PathRow(f, 1, 0, path);
            var c: int := TargetCursor(row, position);
            Enlarged(Shift(Number(f, 1, 0), 2 * Size(data), c - 1), NumberTree(data, c, TargetLevel(row, position)), f, path, position, data)
  {
    var parent, index := PlaceParent(path, position), PlaceIndex(f, path, position);
    TargetNamesPlace(f, 1, 0, path, position);
    InsertionKeepsNumbering(f, 1, 0, parent, index, data);
    var c: int := TargetCursor(PathRow(f, 1, 0, path), position);
    ShiftSplit(Number(f, 1, 0), RowsBefore(f, parent, index), 2 * Size(data), c - 1);
  }

  lemma {:induction false} ShiftSplit(rows: seq<Row>, k: nat, size: nat, target: int)
    requires k <= |rows|
    ensures Shift(rows, size, target)[..k] == Shift(rows[..k], size, target)
    ensures Shift(rows, size, target)[k..] == Shift(rows[k..], size, target)
  {
  }

  class ContentNodeManager {
    /** The stored rows of every tree, in tree order. */
    var trees: map<nat, seq<Row>>

    /** Opens a gap: every number above `target` in this tree grows by `size`. */
    method CreateSpace(size: nat, target: int, treeId: nat)
      requires treeId in trees
      modifies this
      ensures trees == old(trees)[treeId := Shift(old(trees[treeId]), size, target)]
    {
      trees := trees[treeId := Shift(trees[treeId], size, target)];
    }

    /**
     With a target: wherever it stands in the forest `f` stored under its tree, and whichever position is
     asked for, the nodes made and the rows stored afterwards are together, in preorder, the gap-free
     numbering of the forest with `data` put at that position. Without one: the numbering of a tree alone.
     */
    method BuildTreeNodes(data: Tree, target: Option<Target>, position: Position, nextTreeId: nat, ghost f: seq<Tree>, ghost path: seq<nat>)
      returns (stack: seq<ContentNode>)
      requires target.Some? ==>
        && target.value.treeId in trees && trees[target.value.treeId] == Number(f, 1, 0)
        && ValidPath(f, path) && target.value.row == PathRow(f, 1, 0, path)
      modifies this
      ensures forall node <- stack :: fresh(node) && node.treeId == (if target.Some? then target.value.treeId else nextTreeId)
      ensures target.None? ==> trees == old(trees) && Rows(stack) == NumberTree(data, 1, 0)
      ensures target.Some? ==>
        && trees.Keys == old(trees).Keys && (forall id <- trees :: id != target.value.treeId ==> trees[id] == old(trees)[id])
        && Enlarged(trees[target.value.treeId], Rows(stack), f, path, position, data)
    {
      hide Number, NumberTree, ForestSize, Shift;
      var treeId, cursor: int, level := nextTreeId, 1, 0;
      match target {
        case None =>
        case Some(t) =>
          treeId := t.treeId;
          if position.Left? || position.Right? {
            level := t.row.level;
            cursor := if position.Left? then t.row.lft else t.row.rght + 1;
          } else {
            level := t.row.level + 1;
            cursor := if position.FirstChild? then t.row.lft + 1 else t.row.rght;
          }
      }
      var builder := new Builder(treeId);
      var last, made := builder.Treeify(data, cursor, level);
      stack := builder.stack;
      assert stack == made;
      NumberTreeSize(data, cursor, level);
      if target.Some? {
        CreateSpace(2 * |stack|, cursor - 1, treeId);
        SpaceForTree(f, path, position, data);
      }
    }
  }
}
