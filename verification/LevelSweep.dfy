/**
 Recounting the resources below every topic, level by level from the deepest to the shallowest
 (`update_num_coach_contents`, `update_on_device_resources`).
 */
module LevelSweep {
  import opened Wrappers

  /** A row of the table; `parent` is the position of another row. */
  datatype Node = Node(parent: Option<nat>, channel: int, level: nat, topic: bool, available: bool, coach: bool, total: int)

  /** Which resources are counted: those for coaches, or those on the device. */
  datatype Measure = CoachContents | OnDevice

  predicate Counts(m: Measure, n: Node) {
    match m
    case CoachContents => n.coach
    case OnDevice => n.available
  }

  /** The parent of a row is a topic of its channel, one level up. */
  predicate WellFormed(rows: seq<Node>) {
    forall i {:trigger rows[i].parent} :: 0 <= i < |rows| && rows[i].parent.Some? ==>
      && rows[i].parent.value < |rows| && rows[rows[i].parent.value].level + 1 == rows[i].level
      && rows[rows[i].parent.value].channel == rows[i].channel && rows[rows[i].parent.value].topic
  }

  predicate AvailableChild(rows: seq<Node>, c: nat, i: nat)
    requires c < |rows|
  {
    rows[c].available && rows[c].parent == Some(i)
  }

  predicate HasAvailableChild(rows: seq<Node>, i: nat) {
    exists c: nat :: c < |rows| && AvailableChild(rows, c, i)
  }

  function TopLevel(rows: seq<Node>): (top: nat)
    ensures forall i :: 0 <= i < |rows| ==> rows[i].level <= top
  {
    if rows == [] then 0
    else
      var n := |rows| - 1;
      var top := TopLevel(rows[..n]);
      assert forall i :: 0 <= i < n ==> rows[i] == rows[..n][i];
      if top < rows[n].level then rows[n].level else top
  }

  // ---- what each total should be -------------------------------------------------------------

  /** The total of a node: whether it counts; for a topic with an available child, the sum over those. */
  function Value(m: Measure, rows: seq<Node>, i: nat): int
    requires WellFormed(rows) && i < |rows|
    decreases TopLevel(rows) - rows[i].level, |rows| + 1
  {
    if !rows[i].topic then (if Counts(m, rows[i]) then 1 else 0)
    else if HasAvailableChild(rows, i) then ValueBelow(m, rows, i, |rows|)
    else rows[i].total
  }

  function ValueBelow(m: Measure, rows: seq<Node>, i: nat, k: nat): int
    requires WellFormed(rows) && i < |rows| && k <= |rows|
    decreases TopLevel(rows) - rows[i].level, k
  {
    if k == 0 then 0
    else ValueBelow(m, rows, i, k - 1) + (if AvailableChild(rows, k - 1, i) then Value(m, rows, k - 1) else 0)
  }

  /** The row `d` is row `i`, or reaches it by parents through available nodes, itself included. */
  predicate Reaches(rows: seq<Node>, d: nat, i: nat)
    requires WellFormed(rows) && d < |rows|
    decreases rows[d].level
  {
    d == i || (rows[d].available && rows[d].parent.Some? && Reaches(rows, rows[d].parent.value, i))
  }

  /** The resources that count and are reached from a node through available nodes. */
  function Resources(m: Measure, rows: seq<Node>, i: nat): set<nat>
    requires WellFormed(rows)
  {
    set d: nat | d < |rows| && !rows[d].topic && Counts(m, rows[d]) && Reaches(rows, d, i)
  }

  /** Those reached through one of the first `k` rows as an available child. */
  function ResourcesBelow(m: Measure, rows: seq<Node>, i: nat, k: nat): set<nat>
    requires WellFormed(rows) && k <= |rows|
  {
    if k == 0 then {}
    else ResourcesBelow(m, rows, i, k - 1) + (if AvailableChild(rows, k - 1, i) then Resources(m, rows, k - 1) else {})
  }

  /** A topic is available just when one of its children is. */
  predicate Consistent(rows: seq<Node>) {
    forall i: nat {:trigger HasAvailableChild(rows, i)} :: i < |rows| && rows[i].topic ==> (rows[i].available <==> HasAvailableChild(rows, i))
  }

  lemma {:induction false} ReachesOne(rows: seq<Node>, d: nat, a: nat, b: nat)
    requires WellFormed(rows) && d < |rows| && a < |rows| && b < |rows| && rows[a].level == rows[b].level
    requires Reaches(rows, d, a) && Reaches(rows, d, b)
    ensures a == b && rows[a].level <= rows[d].level
    decreases rows[d].level
  {
    if d != a && d != b {
      ReachesOne(rows, rows[d].parent.value, a, b);
    } else if d != a {
      ReachesLevel(rows, rows[d].parent.value, a);
    } else if d != b {
      ReachesLevel(rows, rows[d].parent.value, b);
    }
  }

  lemma {:induction false} ReachesLevel(rows: seq<Node>, d: nat, a: nat)
    requires WellFormed(rows) && d < |rows| && a < |rows| && Reaches(rows, d, a)
    ensures rows[a].level <= rows[d].level
    decreases rows[d].level
  {
    if d != a {
      ReachesLevel(rows, rows[d].parent.value, a);
    }
  }

  /** Whatever reaches a node from below does so through one of its available children. */
  lemma {:induction false} ReachesThroughChild(rows: seq<Node>, d: nat, i: nat) returns (c: nat)
    requires WellFormed(rows) && d < |rows| && d != i && Reaches(rows, d, i)
    ensures c < |rows| && AvailableChild(rows, c, i) && Reaches(rows, d, c)
    decreases rows[d].level
  {
    var p := rows[d].parent.value;
    if p == i {
      c := d;
    } else {
      c := ReachesThroughChild(rows, p, i);
    }
  }

  lemma {:induction false} ReachesUp(rows: seq<Node>, d: nat, c: nat, i: nat)
    requires WellFormed(rows) && d < |rows| && c < |rows| && AvailableChild(rows, c, i) && Reaches(rows, d, c)
    ensures Reaches(rows, d, i)
    decreases rows[d].level
  {
    if d != c {
      ReachesUp(rows, rows[d].parent.value, c, i);
    } else {
      assert Reaches(rows, i, i);
    }
  }

  lemma {:induction false} InBelow(m: Measure, rows: seq<Node>, i: nat, k: nat, d: nat)
    requires WellFormed(rows) && k <= |rows|
    ensures d in ResourcesBelow(m, rows, i, k) <==> exists c: nat :: c < k && AvailableChild(rows, c, i) && d in Resources(m, rows, c)
  {
    if k > 0 {
      InBelow(m, rows, i, k - 1, d);
    }
  }

  lemma {:induction false} TopicResources(m: Measure, rows: seq<Node>, i: nat)
    requires WellFormed(rows) && i < |rows| && rows[i].topic
    ensures Resources(m, rows, i) == ResourcesBelow(m, rows, i, |rows|)
  {
    forall d ensures d in Resources(m, rows, i) <==> d in ResourcesBelow(m, rows, i, |rows|) {
      InBelow(m, rows, i, |rows|, d);
      if d in Resources(m, rows, i) {
        var c := ReachesThroughChild(rows, d, i);
        assert d in Resources(m, rows, c);
      }
      if d in ResourcesBelow(m, rows, i, |rows|) {
        var c: nat :| c < |rows| && AvailableChild(rows, c, i) && d in Resources(m, rows, c);
        ReachesUp(rows, d, c, i);
      }
    }
  }

  /**
   Where availability is consistent, the total of a resource, and of a topic with an available child, is the
   number of counted resources reached from it through available nodes.
   */
  lemma {:induction false} ValueIsNumberOfResources(m: Measure, rows: seq<Node>, i: nat)
    requires WellFormed(rows) && Consistent(rows) && i < |rows|
    requires !rows[i].topic || HasAvailableChild(rows, i)
    ensures Value(m, rows, i) == |Resources(m, rows, i)|
    ensures Resources(m, rows, i) == set d: nat | d < |rows| && !rows[d].topic && Reaches(rows, d, i)
                                             && if m.CoachContents? then rows[d].coach else rows[d].available
    decreases TopLevel(rows) - rows[i].level, |rows| + 1
  {
    if rows[i].topic {
      BelowIsNumberOfResources(m, rows, i, |rows|);
      TopicResources(m, rows, i);
    } else {
      forall d | d in Resources(m, rows, i) ensures d == i {
        if d != i {
          ReachedIsTopic(rows, d, i);
        }
      }
      assert Resources(m, rows, i) == if Counts(m, rows[i]) then {i} else {};
    }
  }

  lemma {:induction false} ReachedIsTopic(rows: seq<Node>, d: nat, i: nat)
    requires WellFormed(rows) && d < |rows| && i < |rows| && d != i && Reaches(rows, d, i)
    ensures rows[i].topic
    decreases rows[d].level
  {
    if rows[d].parent.value != i {
      ReachedIsTopic(rows, rows[d].parent.value, i);
    }
  }

  /** No resource is reached through two children. */
  lemma {:induction false} ChildrenDisjoint(m: Measure, rows: seq<Node>, i: nat, c: nat)
    requires WellFormed(rows) && i < |rows| && c < |rows| && AvailableChild(rows, c, i)
    ensures ResourcesBelow(m, rows, i, c) !! Resources(m, rows, c)
  {
    assert rows[c].parent == Some(i);
    forall d | d in ResourcesBelow(m, rows, i, c) ensures d !in Resources(m, rows, c) {
      InBelow(m, rows, i, c, d);
      var b: nat :| b < c && AvailableChild(rows, b, i) && d in Resources(m, rows, b);
      assert rows[b].parent == Some(i);
      if Reaches(rows, d, c) {
        ReachesOne(rows, d, b, c);
      }
    }
  }

  lemma {:induction false} OneMoreRow(m: Measure, rows: seq<Node>, i: nat, k: nat)
    requires WellFormed(rows) && i < |rows| && 0 < k <= |rows|
    ensures |ResourcesBelow(m, rows, i, k)|
         == |ResourcesBelow(m, rows, i, k - 1)| + (if AvailableChild(rows, k - 1, i) then |Resources(m, rows, k - 1)| else 0)
  {
    if AvailableChild(rows, k - 1, i) {
      ChildrenDisjoint(m, rows, i, k - 1);
      DisjointSize(ResourcesBelow(m, rows, i, k - 1), Resources(m, rows, k - 1));
    }
  }

  lemma {:induction false} BelowIsNumberOfResources(m: Measure, rows: seq<Node>, i: nat, k: nat)
    requires WellFormed(rows) && Consistent(rows) && i < |rows| && k <= |rows|
    ensures ValueBelow(m, rows, i, k) == |ResourcesBelow(m, rows, i, k)|
    decreases TopLevel(rows) - rows[i].level, k
  {
    if k > 0 {
      var c := k - 1;
      BelowIsNumberOfResources(m, rows, i, c);
      OneMoreRow(m, rows, i, k);
      if AvailableChild(rows, c, i) {
        assert rows[c].parent == Some(i);
        assert !rows[c].topic || HasAvailableChild(rows, c);
        ValueIsNumberOfResources(m, rows, c);
      }
    }
  }

  lemma {:induction false} DisjointSize(a: set<nat>, b: set<nat>)
    requires a !! b
    ensures |a + b| == |a| + |b|
  {
  }

  // ---- the sweep -----------------------------------------------------------------------------

  predicate SameButTotals(rows: seq<Node>, base: seq<Node>) {
    |rows| == |base| && forall i :: 0 <= i < |rows| ==> rows[i].(total := 0) == base[i].(total := 0)
  }

  /** The sum of the stored totals of the available children among the first `k` rows. */
  function SumBelow(rows: seq<Node>, i: nat, k: nat): int
    requires k <= |rows|
  {
    if k == 0 then 0 else SumBelow(rows, i, k - 1) + (if AvailableChild(rows, k - 1, i) then rows[k - 1].total else 0)
  }

  /** The totals of a row and, for the level sweep, of what is below it are right. */
  predicate Right(m: Measure, rows: seq<Node>, base: seq<Node>, i: nat)
    requires WellFormed(base) && SameButTotals(rows, base) && i < |rows|
  {
    rows[i].total == Value(m, base, i)
  }

  lemma {:induction false} SumOfRight(m: Measure, rows: seq<Node>, base: seq<Node>, i: nat, k: nat)
    requires WellFormed(base) && SameButTotals(rows, base) && i < |rows| && k <= |rows|
    requires forall c: nat :: c < |rows| && base[c].parent == Some(i) ==> Right(m, rows, base, c)
    ensures SumBelow(rows, i, k) == ValueBelow(m, base, i, k)
  {
    if k > 0 {
      SumOfRight(m, rows, base, i, k - 1);
      assert rows[k - 1].(total := 0) == base[k - 1].(total := 0);
      assert AvailableChild(rows, k - 1, i) == AvailableChild(base, k - 1, i);
    }
  }

  lemma {:induction false} SameChildren(rows: seq<Node>, base: seq<Node>, i: nat)
    requires SameButTotals(rows, base)
    ensures HasAvailableChild(rows, i) <==> HasAvailableChild(base, i)
  {
    forall c: nat | c < |rows| ensures AvailableChild(rows, c, i) == AvailableChild(base, c, i) {
      assert rows[c].(total := 0) == base[c].(total := 0);
    }
  }

  class ContentNodeTable {
    var rows: seq<Node>

    /** The rows of resources get one or zero. */
    method InitResources(m: Measure)
      modifies this
      ensures |rows| == |old(rows)|
      ensures forall i :: 0 <= i < |rows| ==>
        rows[i] == if old(rows)[i].topic then old(rows)[i] else old(rows)[i].(total := if Counts(m, old(rows)[i]) then 1 else 0)
    {
      rows := seq(|rows|, i requires 0 <= i < |rows| reads this =>
        if rows[i].topic then rows[i] else rows[i].(total := if Counts(m, rows[i]) then 1 else 0));
    }

    /** The topics of one level of a channel that have an available child get the sum of their available children. */
    method UpdateLevel(channel: int, level: nat)
      modifies this
      ensures |rows| == |old(rows)|
      ensures forall i: nat :: i < |rows| ==>
        rows[i] == if old(rows)[i].level == level && old(rows)[i].channel == channel && old(rows)[i].topic && HasAvailableChild(old(rows), i)
                   then old(rows)[i].(total := SumBelow(old(rows), i, |old(rows)|)) else old(rows)[i]
    {
      rows := seq(|rows|, i requires 0 <= i < |rows| reads this =>
        if rows[i].level == level && rows[i].channel == channel && rows[i].topic && HasAvailableChild(rows, i)
        then rows[i].(total := SumBelow(rows, i, |rows|)) else rows[i]);
    }

    /** The deepest level of a channel; zero if it has no row. */
    method NodeDepth(channel: int) returns (depth: nat)
      ensures forall i :: 0 <= i < |rows| && rows[i].channel == channel ==> rows[i].level <= depth
      ensures depth == 0 || exists i :: 0 <= i < |rows| && rows[i].channel == channel && rows[i].level == depth
    {
      depth := 0;
      for k := 0 to |rows|
        invariant forall i :: 0 <= i < k && rows[i].channel == channel ==> rows[i].level <= depth
        invariant depth == 0 || exists i :: 0 <= i < k && rows[i].channel == channel && rows[i].level == depth
      {
        if rows[k].channel == channel && depth < rows[k].level {
          depth := rows[k].level;
        }
      }
    }

    /**
     Recounts: every resource, and every topic of the given channels, ends with its recursively defined
     total; the topics of other channels and all other columns stay as they were.
     */
    method UpdateTotals(m: Measure, channels: seq<int>)
      requires WellFormed(rows)
      modifies this
      ensures SameButTotals(rows, old(rows))
      ensures forall i: nat :: i < |rows| ==>
        if !rows[i].topic || rows[i].channel in channels then Right(m, rows, old(rows), i) else rows[i].total == old(rows)[i].total
    {
      ghost var base := rows;
      InitResources(m);
      AllSweptStart(m, rows, base);
      for c := 0 to |channels|
        invariant SameButTotals(rows, base)
        invariant AllSwept(m, rows, base, channels[..c], None, 0)
      {
        var channel := channels[c];
        var depth := NodeDepth(channel);
        StartChannel(m, rows, base, channels[..c], channel, depth);
        for level := depth downto 0
          invariant SameButTotals(rows, base)
          invariant AllSwept(m, rows, base, channels[..c], Some(channel), level)
        {
          ghost var before := rows;
          UpdateLevel(channel, level);
          LevelSwept(m, before, rows, base, channels[..c], channel, level);
        }
        ChannelDone(m, rows, base, channels[..c], channel);
        assert channels[..c + 1] == channels[..c] + [channel];
      }
      assert channels[..|channels|] == channels;
      forall i: nat | i < |rows|
        ensures if !rows[i].topic || rows[i].channel in channels then Right(m, rows, base, i) else rows[i].total == base[i].total
      {
        assert Swept(m, rows, base, i, channels, None, 0) && rows[i].(total := 0) == base[i].(total := 0);
      }
    }
  }

  /** How far the sweep has come: the channels done, and the level down to which the current one is. */
  predicate Swept(m: Measure, rows: seq<Node>, base: seq<Node>, i: nat, done: seq<int>, current: Option<int>, level: int)
    requires WellFormed(base) && SameButTotals(rows, base) && i < |rows|
  {
    if !base[i].topic || base[i].channel in done || (Some(base[i].channel) == current && level <= base[i].level)
    then Right(m, rows, base, i)
    else rows[i].total == base[i].total
  }

  predicate AllSwept(m: Measure, rows: seq<Node>, base: seq<Node>, done: seq<int>, current: Option<int>, level: int)
    requires WellFormed(base) && SameButTotals(rows, base)
  {
    forall i: nat :: i < |rows| ==> Swept(m, rows, base, i, done, current, level)
  }

  lemma {:induction false} AllSweptStart(m: Measure, rows: seq<Node>, base: seq<Node>)
    requires WellFormed(base) && SameButTotals(rows, base)
    requires forall i :: 0 <= i < |rows| ==>
      rows[i] == if base[i].topic then base[i] else base[i].(total := if Counts(m, base[i]) then 1 else 0)
    ensures AllSwept(m, rows, base, [], None, 0)
  {
  }

  lemma {:induction false} ChannelDone(m: Measure, rows: seq<Node>, base: seq<Node>, done: seq<int>, channel: int)
    requires WellFormed(base) && SameButTotals(rows, base)
    requires AllSwept(m, rows, base, done, Some(channel), 0)
    ensures AllSwept(m, rows, base, done + [channel], None, 0)
  {
    forall i: nat | i < |rows| ensures Swept(m, rows, base, i, done + [channel], None, 0) {
      assert Swept(m, rows, base, i, done, Some(channel), 0);
    }
  }

  lemma {:induction false} StartChannel(m: Measure, rows: seq<Node>, base: seq<Node>, done: seq<int>, channel: int, depth: nat)
    requires WellFormed(base) && SameButTotals(rows, base)
    requires forall i: nat :: i < |rows| && rows[i].channel == channel ==> rows[i].level <= depth
    requires AllSwept(m, rows, base, done, None, 0)
    ensures AllSwept(m, rows, base, done, Some(channel), depth)
  {
    forall i: nat | i < |rows| ensures Swept(m, rows, base, i, done, Some(channel), depth) {
      assert rows[i].(total := 0) == base[i].(total := 0) && Swept(m, rows, base, i, done, None, 0);
      if base[i].topic && base[i].channel !in done && base[i].channel == channel && depth <= base[i].level {
        forall c: nat | c < |base| ensures !AvailableChild(base, c, i) {
          assert rows[c].(total := 0) == base[c].(total := 0);
          assert base[c].parent == Some(i) ==> base[c].level > depth;
        }
      }
    }
  }

  lemma {:induction false} LevelSwept(m: Measure, before: seq<Node>, rows: seq<Node>, base: seq<Node>, done: seq<int>, channel: int, level: nat)
    requires WellFormed(base) && SameButTotals(before, base) && |rows| == |before|
    requires AllSwept(m, before, base, done, Some(channel), level + 1)
    requires forall i: nat :: i < |rows| ==>
      rows[i] == if before[i].level == level && before[i].channel == channel && before[i].topic && HasAvailableChild(before, i)
                 then before[i].(total := SumBelow(before, i, |before|)) else before[i]
    ensures SameButTotals(rows, base)
    ensures AllSwept(m, rows, base, done, Some(channel), level)
  {
    forall i | 0 <= i < |rows| ensures rows[i].(total := 0) == base[i].(total := 0) {
      assert before[i].(total := 0) == base[i].(total := 0);
    }
    forall i: nat | i < |rows| ensures Swept(m, rows, base, i, done, Some(channel), level) {
      assert before[i].(total := 0) == base[i].(total := 0);
      assert Swept(m, before, base, i, done, Some(channel), level + 1);
      SameChildren(before, base, i);
      if base[i].topic && base[i].channel == channel && base[i].level == level && HasAvailableChild(base, i) {
        forall c: nat | c < |rows| && base[c].parent == Some(i) ensures Right(m, before, base, c) {
          assert Swept(m, before, base, c, done, Some(channel), level + 1);
        }
        SumOfRight(m, before, base, i, |before|);
      }
    }
  }
}
