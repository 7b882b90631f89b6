/**
 Nesting the rows of the shown nodes in one pass, with a cursor on every list that goes on, and what
 following the cursors lists (`BaseContentNodeTreeViewset.retrieve`).
 */
module TreeNesting {
  import opened Wrappers
  import opened ContentTrees
  import opened TreePages

  /** How to ask for more children: of which node, after which left number, how deep. */
  datatype More = More(id: int, nextGt: int, depth: int)
  datatype Page = Page(results: seq<Serialized>, more: Option<More>)
  datatype Error = NotFound | ValidationError

  /** The dictionary of a serialized node, to which `children` is added when the first is nested. */
  class Serialized {
    const entry: Entry
    var children: Option<Page>

    constructor (entry: Entry)
      ensures this.entry == entry && children == None
    {
      this.entry := entry;
      children := None;
    }
  }

  /** Those of the nodes after the first that have this parent. */
  function Under(nodes: seq<Serialized>, id: int): seq<Serialized> {
    if |nodes| <= 1 then []
    else
      var under := Under(nodes[..|nodes| - 1], id);
      if nodes[|nodes| - 1].entry.parent == Some(id) then under + [nodes[|nodes| - 1]] else under
  }

  function EntriesOf(nodes: seq<Serialized>): (rows: seq<Entry>)
    ensures |rows| == |nodes| && forall i :: 0 <= i < |rows| ==> rows[i] == nodes[i].entry
  {
    seq(|nodes|, i requires 0 <= i < |nodes| => nodes[i].entry)
  }

  /** The cursor of a list of children: set when a full page is reached and the parent's interval goes on. */
  function MoreAfter(parent: Entry, results: seq<Entry>, depth: int): Option<More> {
    if NUM_CHILDREN <= |results| && results[NUM_CHILDREN - 1].rght + 1 < parent.rght
    then Some(More(parent.id, results[NUM_CHILDREN - 1].rght, depth)) else None
  }

  /** The depth asked for by the cursor on a node's children: two levels for the node queried, one for others. */
  function MoreDepth(id: int, pk: int): int {
    if id == pk then 2 else 1
  }

  function Nested(node: Serialized, under: seq<Serialized>, pk: int): Option<Page> {
    if under == [] then None
    else Some(Page(under, MoreAfter(node.entry, EntriesOf(under), MoreDepth(node.entry.id, pk))))
  }

  ghost predicate DistinctNodes(nodes: seq<Serialized>) {
    forall i, j :: 0 <= i < j < |nodes| ==> nodes[i].entry.id != nodes[j].entry.id
  }

  ghost predicate ParentBefore(nodes: seq<Serialized>, k: nat)
    requires k < |nodes|
  {
    nodes[k].entry.parent.Some? && exists j :: 0 <= j < k && nodes[j].entry.id == nodes[k].entry.parent.value
  }

  /** Every node after the first has its parent before it. */
  ghost predicate ParentsFirst(nodes: seq<Serialized>) {
    forall k {:trigger ParentBefore(nodes, k)} :: 1 <= k < |nodes| ==> ParentBefore(nodes, k)
  }

  /** Appends a child to its parent's list, and sets the cursor if that fills the page and more may come. */
  method AppendChild(descParent: Serialized, desc: Serialized, pageSize: nat, moreDepth: int, ghost under: seq<Serialized>, ghost pk: int)
    requires pageSize == NUM_CHILDREN && moreDepth == MoreDepth(descParent.entry.id, pk)
    requires descParent.children == Nested(descParent, under, pk)
    modifies descParent
    ensures descParent.children == Nested(descParent, under + [desc], pk)
  {
    if descParent.children.None? {
      descParent.children := Some(Page([], None));
    }
    var page := descParent.children.value;
    var results, more := page.results + [desc], page.more;
    if |results| == pageSize {
      if desc.entry.rght + 1 < descParent.entry.rght {
        more := Some(More(descParent.entry.id, desc.entry.rght, moreDepth));
      }
    }
    descParent.children := Some(Page(results, more));
  }

  lemma {:induction false} UnderStep(nodes: seq<Serialized>, k: nat, id: int)
    requires 1 <= k < |nodes|
    ensures Under(nodes[..k + 1], id)
         == if nodes[k].entry.parent == Some(id) then Under(nodes[..k], id) + [nodes[k]] else Under(nodes[..k], id)
  {
    assert nodes[..k + 1][..k] == nodes[..k];
  }

  /** After the first `k` nodes of the pass: every node has those of its children that are among them. */
  ghost predicate NestedUpTo(nodes: seq<Serialized>, k: nat, pk: int)
    requires k <= |nodes|
    reads nodes
  {
    forall i :: 0 <= i < |nodes| ==> nodes[i].children == Nested(nodes[i], Under(nodes[..k], nodes[i].entry.id), pk)
  }

  /** One turn of the pass, once the parent of the k-th node is found. */
  method NestUnder(nodes: seq<Serialized>, k: nat, descParent: Serialized, pk: int, moreDepth: int, pageSize: nat)
    requires 1 <= k < |nodes| && descParent in nodes && nodes[k].entry.parent == Some(descParent.entry.id)
    requires DistinctNodes(nodes) && NestedUpTo(nodes, k, pk)
    requires pageSize == NUM_CHILDREN && moreDepth == MoreDepth(descParent.entry.id, pk)
    modifies nodes
    ensures NestedUpTo(nodes, k + 1, pk)
  {
    ghost var j :| 0 <= j < |nodes| && nodes[j] == descParent;
    AppendChild(descParent, nodes[k], pageSize, moreDepth, Under(nodes[..k], descParent.entry.id), pk);
    forall i | 0 <= i < |nodes|
      ensures nodes[i].children == Nested(nodes[i], Under(nodes[..k + 1], nodes[i].entry.id), pk)
    {
      UnderStep(nodes, k, nodes[i].entry.id);
    }
  }

  /** The dictionary finds the nodes from the second to the k-th by their ids. */
  ghost predicate ById(descendantsById: map<int, Serialized>, nodes: seq<Serialized>, k: nat)
    requires k <= |nodes|
  {
    forall i :: 1 <= i < k ==> nodes[i].entry.id in descendantsById && descendantsById[nodes[i].entry.id] == nodes[i]
  }

  lemma {:induction false} ByIdStep(descendantsById: map<int, Serialized>, nodes: seq<Serialized>, k: nat)
    requires 1 <= k < |nodes| && DistinctNodes(nodes) && ById(descendantsById, nodes, k)
    ensures ById(descendantsById[nodes[k].entry.id := nodes[k]], nodes, k + 1)
  {
  }

  /** The parent of the k-th node is the first node, or else the dictionary has it. */
  lemma {:induction false} ParentFound(nodes: seq<Serialized>, k: nat, descendantsById: map<int, Serialized>, pk: int)
    requires 1 <= k < |nodes| && nodes[0].entry.id == pk
    requires ParentsFirst(nodes) && ById(descendantsById, nodes, k + 1)
    ensures var parent := nodes[k].entry.parent;
            && parent.Some?
            && (parent.value != pk ==>
                parent.value in descendantsById && descendantsById[parent.value] in nodes && descendantsById[parent.value].entry.id == parent.value)
  {
    assert ParentBefore(nodes, k);
    var j :| 0 <= j < k && nodes[j].entry.id == nodes[k].entry.parent.value;
    if nodes[k].entry.parent.value != pk {
      assert descendantsById[nodes[j].entry.id] == nodes[j];
    }
  }

  /** One pass over the nodes, each appended to the children of its parent, which the pass has met before. */
  method Nest(nodes: seq<Serialized>, pk: int)
    requires nodes != [] && nodes[0].entry.id == pk
    requires DistinctNodes(nodes) && ParentsFirst(nodes)
    requires forall node <- nodes :: node.children == None
    modifies nodes
    ensures NestedUpTo(nodes, |nodes|, pk)
  {
    var parent := nodes[0];
    var descendantsById: map<int, Serialized> := map[];
    for k := 1 to |nodes|
      invariant ById(descendantsById, nodes, k)
      invariant NestedUpTo(nodes, k, pk)
    {
      var desc := nodes[k];
      ByIdStep(descendantsById, nodes, k);
      descendantsById := descendantsById[desc.entry.id := desc];
      ParentFound(nodes, k, descendantsById, pk);
      if desc.entry.parent == Some(pk) {
        NestUnder(nodes, k, parent, pk, 2, NUM_CHILDREN);
      } else if desc.entry.parent.Some? && desc.entry.parent.value in descendantsById {
        NestUnder(nodes, k, descendantsById[desc.entry.parent.value], pk, 1, NUM_GRANDCHILDREN_PER_CHILD);
      } else {
        assert false;
      }
    }
  }

  // ---- what the pass builds ------------------------------------------------------------------

  function MoreOf(c: Content, pk: int): Option<More> {
    if NUM_CHILDREN <= |c.kids| && c.kids[NUM_CHILDREN - 1].rght + 1 < c.rght
    then Some(More(c.id, c.kids[NUM_CHILDREN - 1].rght, MoreDepth(c.id, pk))) else None
  }

  /** The nested dictionaries from this one on are the tree `c`, with the cursors its lists call for. */
  ghost predicate Shows(node: Serialized, c: Content, pk: int, all: set<Serialized>)
    reads all
    decreases c
  {
    && node in all && node.entry == Head(c, node.entry.parent)
    && if c.kids == [] then node.children == None
       else
         && node.children.Some? && node.children.value.more == MoreOf(c, pk)
         && |node.children.value.results| == |c.kids|
         && forall i :: 0 <= i < |c.kids| ==> Shows(node.children.value.results[i], c.kids[i], pk, all)
  }

  lemma {:induction false} UnderRows(nodes: seq<Serialized>, id: int)
    requires nodes != []
    ensures EntriesOf(Under(nodes, id)) == ChildrenOf(EntriesOf(nodes)[1..], id)
    ensures forall node <- Under(nodes, id) :: node in nodes
  {
    var n := |nodes| - 1;
    if n > 0 {
      UnderRows(nodes[..n], id);
      var rows, last := EntriesOf(nodes), nodes[n];
      assert rows[1..] == EntriesOf(nodes[..n])[1..] + [last.entry];
      ChildrenConcat(EntriesOf(nodes[..n])[1..], [last.entry], id);
      assert [last.entry][1..] == [];
    }
  }

  lemma {:induction false} EntriesIds(f: seq<Content>, parent: Option<int>)
    ensures forall e <- Entries(f, parent) :: e.id in Ids(f)
  {
    if f != [] {
      EntriesIds(f[0].kids, Some(f[0].id));
      EntriesIds(f[1..], parent);
    }
  }

  ghost predicate DistinctRows(rows: seq<Entry>) {
    forall i, j :: 0 <= i < j < |rows| ==> rows[i].id != rows[j].id
  }

  lemma {:induction false} EntriesDistinct(f: seq<Content>, parent: Option<int>)
    requires Distinct(f)
    ensures DistinctRows(Entries(f, parent))
  {
    if f != [] {
      var below, rest := Entries(f[0].kids, Some(f[0].id)), Entries(f[1..], parent);
      EntriesDistinct(f[0].kids, Some(f[0].id));
      EntriesDistinct(f[1..], parent);
      EntriesIds(f[0].kids, Some(f[0].id));
      EntriesIds(f[1..], parent);
      JoinDistinct(Head(f[0], parent), below, rest, Ids(f[0].kids), Ids(f[1..]));
    }
  }

  lemma {:induction false} JoinDistinct(head: Entry, a: seq<Entry>, b: seq<Entry>, ia: set<int>, ib: set<int>)
    requires DistinctRows(a) && DistinctRows(b) && ia !! ib && head.id !in ia && head.id !in ib
    requires (forall e <- a :: e.id in ia) && (forall e <- b :: e.id in ib)
    ensures DistinctRows([head] + a + b)
  {
    var s := [head] + a + b;
    forall i, j | 0 <= i < j < |s| ensures s[i].id != s[j].id {
      assert s[j] in a || s[j] in b;
      assert i == 0 || s[i] in a || s[i] in b;
    }
  }

  ghost predicate RowParentBefore(rows: seq<Entry>, k: nat)
    requires k < |rows|
  {
    rows[k].parent.Some? && exists j :: 0 <= j < k && rows[j].id == rows[k].parent.value
  }

  lemma {:induction false} EntriesParentsFirst(f: seq<Content>, parent: Option<int>, k: nat)
    requires k < |Entries(f, parent)|
    ensures Entries(f, parent)[k].parent == parent || RowParentBefore(Entries(f, parent), k)
  {
    var rows, below, rest := Entries(f, parent), Entries(f[0].kids, Some(f[0].id)), Entries(f[1..], parent);
    if k == 0 {
    } else if k <= |below| {
      assert rows[k] == below[k - 1];
      EntriesParentsFirst(f[0].kids, Some(f[0].id), k - 1);
      if RowParentBefore(below, k - 1) {
        var j :| 0 <= j < k - 1 && below[j].id == below[k - 1].parent.value;
        assert rows[j + 1].id == rows[k].parent.value;
      } else {
        assert rows[0].id == rows[k].parent.value;
      }
    } else {
      var d := 1 + |below|;
      assert rows[k] == rest[k - d];
      EntriesParentsFirst(f[1..], parent, k - d);
      if RowParentBefore(rest, k - d) {
        var j :| 0 <= j < k - d && rest[j].id == rest[k - d].parent.value;
        assert rows[j + d].id == rows[k].parent.value;
      }
    }
  }

  /** The rows of a tree can be nested in one pass: the branch for a row without a known parent is never taken. */
  lemma {:induction false} RowsCanBeNested(nodes: seq<Serialized>, p: Content, parent: Option<int>)
    requires Distinct([p]) && EntriesOf(nodes) == Entries([p], parent)
    ensures nodes != [] && nodes[0].entry == Head(p, parent)
    ensures DistinctNodes(nodes) && ParentsFirst(nodes)
  {
    var rows, below := Entries([p], parent), Entries(p.kids, Some(p.id));
    assert [p][1..] == [];
    assert rows == [Head(p, parent)] + below;
    EntriesDistinct([p], parent);
    forall k | 1 <= k < |nodes| ensures ParentBefore(nodes, k) {
      assert rows[k] == below[k - 1];
      EntriesParentsFirst(p.kids, Some(p.id), k - 1);
      if RowParentBefore(below, k - 1) {
        var j :| 0 <= j < k - 1 && below[j].id == below[k - 1].parent.value;
        assert nodes[j + 1].entry == rows[j + 1] == below[j];
      } else {
        assert nodes[0].entry == rows[0];
      }
      assert nodes[k].entry == rows[k];
    }
  }

  /** Each node's list is its children in the tree, in order. */
  lemma {:induction false} UnderIsKids(nodes: seq<Serialized>, p: Content, parent: Option<int>, c: Content)
    requires Distinct([p]) && EntriesOf(nodes) == Entries([p], parent) && (parent.Some? ==> parent.value !in Ids([p]))
    requires Within(c, [p])
    ensures EntriesOf(Under(nodes, c.id)) == Heads(c.kids, Some(c.id))
    ensures forall node <- Under(nodes, c.id) :: node in nodes
  {
    ChildrenInForest([p], parent, c);
    WithinHasId(c, [p]);
    assert [p][1..] == [];
    UnderRows(nodes, c.id);
    var rows := EntriesOf(nodes);
    assert rows == [rows[0]] + rows[1..];
    ChildrenConcat([rows[0]], rows[1..], c.id);
    assert [rows[0]][1..] == [];
  }

  /** The one pass builds the recursive tree. */
  lemma {:induction false} PassBuildsTree(nodes: seq<Serialized>, p: Content, parent: Option<int>, pk: int, c: Content, node: Serialized)
    requires Distinct([p]) && EntriesOf(nodes) == Entries([p], parent) && (parent.Some? ==> parent.value !in Ids([p]))
    requires NestedUpTo(nodes, |nodes|, pk)
    requires Within(c, [p]) && node in nodes && node.entry == Head(c, node.entry.parent)
    ensures Shows(node, c, pk, set n | n in nodes)
    decreases c
  {
    UnderIsKids(nodes, p, parent, c);
    HeadsAt(c.kids, Some(c.id));
    var under := Under(nodes, c.id);
    assert nodes[..|nodes|] == nodes;
    forall i | 0 <= i < |c.kids| ensures Shows(under[i], c.kids[i], pk, set n | n in nodes) {
      KidWithin(c.kids[i], c, [p]);
      assert EntriesOf(under)[i] == Head(c.kids[i], Some(c.id));
      assert under[i] in under;
      PassBuildsTree(nodes, p, parent, pk, c.kids[i], under[i]);
    }
  }

  /** The dictionaries of the rows, in their order. */
  method Serialize(rows: seq<Entry>) returns (nodes: seq<Serialized>)
    ensures EntriesOf(nodes) == rows
    ensures forall i :: 0 <= i < |nodes| ==> fresh(nodes[i]) && nodes[i].children == None
  {
    nodes := [];
    for i := 0 to |rows|
      invariant EntriesOf(nodes) == rows[..i]
      invariant forall j :: 0 <= j < |nodes| ==> fresh(nodes[j]) && nodes[j].children == None
    {
      var node := new Serialized(rows[i]);
      nodes := nodes + [node];
    }
  }

  /**
   The response for a node: its tree as far as it is shown, nested, with the cursors; not found if it has no
   row; refused for a depth other than 1 and 2 and for a cursor that is not positive.
   */
  method Retrieve(db: seq<Entry>, pk: int, depth: int, next: Option<int>, ghost x: Content, ghost parent: Option<int>)
    returns (r: Result<Serialized, Error>, ghost all: set<Serialized>)
    requires (exists e :: e in db && e.id == pk) ==> Stores(db, x, parent) && x.id == pk
    ensures r == Failure(NotFound) <==> forall e <- db :: e.id != pk
    ensures r == Failure(ValidationError)
       <==> (exists e :: e in db && e.id == pk) && (depth < 1 || 2 < depth || (next.Some? && next.value < 1))
    ensures r.Success? ==> Shows(r.value, Shown(x, next, depth), pk, all) && r.value.entry.parent == parent
  {
    all := {};
    if forall e <- db :: e.id != pk {
      return Failure(NotFound), all;
    }
    if 1 > depth || depth > 2 {
      return Failure(ValidationError), all;
    }
    if next.Some? && 1 > next.value {
      return Failure(ValidationError), all;
    }
    var ids := GetTreeQueryset(db, pk, depth, next, x, parent);
    var nodes := Serialize(Chosen(db, ids));
    ghost var p := Shown(x, next, depth);
    ShownRows(db, x, parent, next, depth);
    RowsCanBeNested(nodes, p, parent);
    Nest(nodes, pk);
    all := set node | node in nodes;
    assert nodes[0].entry == Head(p, parent);
    PassBuildsTree(nodes, p, parent, pk, p, nodes[0]);
    r := Success(nodes[0]);
  }
}
