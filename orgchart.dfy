/** The chart editor's view of one project's node map: the metrics shown on
    every card, and the three edits a card offers (change a field, add a
    child, delete the card with everything below it). Every edit produces a
    new map; the caller stores it as the project's nodes. */
module OrgChart {
  import opened Types
  import opened Tree
  import opened Seqs
  import opened Text
  import opened Metrics

  /** The chart's metrics map: the engine run from the root, without depths. */
  method AllMetrics(nodes: NodeMap, rootNodeId: string) returns (metricsMap: map<string, NodeMetrics>)
    requires Acyclic(nodes)
    ensures metricsMap.Keys == (if rootNodeId == "" then {} else Reach(nodes, rootNodeId))
    ensures forall x :: x in metricsMap ==> metricsMap[x] == Compute(nodes, x)
  {
    var t := ComputeTable(nodes, rootNodeId);
    metricsMap := MetricsOf(t);
    LevelTableFacts(nodes, rootNodeId);
  }

  /** The metrics column of a level table. */
  function MetricsOf(t: map<string, Entry>): (m: map<string, NodeMetrics>)
    ensures m.Keys == t.Keys
    ensures forall x :: x in m ==> m[x] == t[x].metrics
  {
    map x | x in t :: t[x].metrics
  }

  // ---------------------------------------------------------------- update

  /** A partial node: the fields an edit supplies. */
  datatype NodeUpdate = NodeUpdate(
    id: Option<string>,
    name: Option<string>,
    employeeId: Option<string>,
    value: Option<real>,
    children: Option<seq<string>>,
    parentId: Option<Option<string>>)

  function Or<T>(o: Option<T>, default: T): T {
    if o.Some? then o.value else default
  }

  /** `{ ...node, ...u }`: the supplied fields win, the others are kept. */
  function Merge(node: OrgNode, u: NodeUpdate): (r: OrgNode) {
    OrgNode(
      Or(u.id, node.id),
      Or(u.name, node.name),
      Or(u.employeeId, node.employeeId),
      Or(u.value, node.value),
      Or(u.children, node.children),
      Or(u.parentId, node.parentId))
  }

  /** The field update of one card. */
  function UpdateNode(nodes: NodeMap, nodeId: string, u: NodeUpdate): (r: NodeMap)
    requires nodeId in nodes
    ensures r.Keys == nodes.Keys
    ensures forall k :: k in nodes && k != nodeId ==> r[k] == nodes[k]
  {
    nodes[nodeId := Merge(nodes[nodeId], u)]
  }

  /** The edited entry holds each supplied field and keeps every other one;
      applying the same edit twice is applying it once. */
  lemma UpdateNodeFields(nodes: NodeMap, nodeId: string, u: NodeUpdate)
    requires nodeId in nodes
    ensures var n := UpdateNode(nodes, nodeId, u)[nodeId];
      && (u.name.Some? ==> n.name == u.name.value)
      && (u.name.None? ==> n.name == nodes[nodeId].name)
      && (u.employeeId.Some? ==> n.employeeId == u.employeeId.value)
      && (u.employeeId.None? ==> n.employeeId == nodes[nodeId].employeeId)
      && (u.value.Some? ==> n.value == u.value.value)
      && (u.value.None? ==> n.value == nodes[nodeId].value)
      && (u.children.Some? ==> n.children == u.children.value)
      && (u.children.None? ==> n.children == nodes[nodeId].children)
      && (u.parentId.Some? ==> n.parentId == u.parentId.value)
      && (u.parentId.None? ==> n.parentId == nodes[nodeId].parentId)
      && (u.id.Some? ==> n.id == u.id.value)
      && (u.id.None? ==> n.id == nodes[nodeId].id)
    ensures UpdateNode(UpdateNode(nodes, nodeId, u), nodeId, u) == UpdateNode(nodes, nodeId, u)
  {
  }

  /** Changing a card's value moves that card's total by the difference and
      keeps its children total; a card whose subtree does not hold the edited
      card keeps all its metrics. */
  lemma ValueEditMetrics(nodes: NodeMap, nodeId: string, u: NodeUpdate, x: string)
    requires Acyclic(nodes) && nodeId in nodes && u.value.Some? && u.children.None?
    ensures Acyclic(UpdateNode(nodes, nodeId, u))
    ensures var r := UpdateNode(nodes, nodeId, u);
      && Compute(r, nodeId).childrenSum == Compute(nodes, nodeId).childrenSum
      && Compute(r, nodeId).totalWithSelf
         == Compute(nodes, nodeId).totalWithSelf + (u.value.value - nodes[nodeId].value)
    ensures nodeId !in Reach(nodes, x) ==> Compute(UpdateNode(nodes, nodeId, u), x) == Compute(nodes, x)
  {
    var r := UpdateNode(nodes, nodeId, u);
    assert SameChildren(nodes, r);
    SameChildrenAcyclic(nodes, r);
    var n := |nodes[nodeId].children|;
    forall i | 0 <= i < n
      ensures Compute(nodes, nodes[nodeId].children[i]) == Compute(r, nodes[nodeId].children[i])
    {
      var c := nodes[nodeId].children[i];
      ChildBelow(nodes, nodeId, i);
      if nodeId in Reach(nodes, c) {
        ReachBelow(nodes, c, nodeId);
      }
      ComputeAway(nodes, r, nodeId, c);
    }
    ChildResultsAgree(nodes, r, nodeId, nodeId, n);
    if nodeId !in Reach(nodes, x) {
      ComputeAway(nodes, r, nodeId, x);
    }
  }

  /** In a proper tree a value edit moves the total of the edited card and of
      every card above it by the difference, and no other total. */
  lemma ValueEditTotals(nodes: NodeMap, nodeId: string, u: NodeUpdate, x: string)
    requires Acyclic(nodes) && UniqueParents(nodes) && nodeId in nodes
    requires u.value.Some? && u.children.None?
    ensures Acyclic(UpdateNode(nodes, nodeId, u))
    ensures Compute(UpdateNode(nodes, nodeId, u), x).totalWithSelf
         == Compute(nodes, x).totalWithSelf
            + (if nodeId in Reach(nodes, x) then u.value.value - nodes[nodeId].value else 0.0)
  {
    var r := UpdateNode(nodes, nodeId, u);
    assert SameChildren(nodes, r);
    SameChildrenAcyclic(nodes, r);
    SubtreeTotal(nodes, x);
    SubtreeTotal(r, x);
    ReachSameChildren(nodes, r, x);
    var s := Reach(nodes, x);
    if nodeId in s {
      ValueSumRemove(nodes, s, nodeId);
      ValueSumRemove(r, s, nodeId);
      ValueSumAgree(nodes, r, s - {nodeId});
    } else {
      ValueSumAgree(nodes, r, s);
    }
  }

  /** Editing a name or a recommender id leaves the tree and every metric as
      they were. */
  lemma UpdateKeepsMetrics(nodes: NodeMap, nodeId: string, u: NodeUpdate, x: string)
    requires Acyclic(nodes) && nodeId in nodes && u.value.None? && u.children.None?
    ensures Acyclic(UpdateNode(nodes, nodeId, u))
    ensures Compute(UpdateNode(nodes, nodeId, u), x) == Compute(nodes, x)
  {
    var r := UpdateNode(nodes, nodeId, u);
    assert SameShape(nodes, r);
    SameShapeAcyclic(nodes, r);
    ComputeSameShape(nodes, r, x);
  }

  // ------------------------------------------------------------- add child

  const NewMemberName := "새 팀원"

  /** The placeholder recommender id `ID-<tag>` of a new card. */
  function NewEmployeeId(tag: nat): (s: string)
    ensures |s| > 3 && s[..3] == "ID-"
  {
    "ID-" + NatToString(tag)
  }

  /** `newId` names no entry and is nobody's listed child. */
  ghost predicate Fresh(nodes: NodeMap, newId: string) {
    newId !in nodes && forall k :: k in nodes ==> newId !in nodes[k].children
  }

  /** A new, empty card under `parentId`, appended after its siblings. */
  function AddChild(nodes: NodeMap, parentId: string, newId: string, tag: nat): (r: NodeMap)
    requires parentId in nodes && newId !in nodes
    ensures r.Keys == nodes.Keys + {newId}
    ensures r[newId] == OrgNode(newId, NewMemberName, NewEmployeeId(tag), 0.0, [], Some(parentId))
    ensures r[parentId].children == nodes[parentId].children + [newId]
    ensures r[parentId] == nodes[parentId].(children := r[parentId].children)
    ensures forall k :: k in nodes && k != parentId ==> r[k] == nodes[k]
  {
    var parent := nodes[parentId];
    nodes[newId := OrgNode(newId, NewMemberName, NewEmployeeId(tag), 0.0, [], Some(parentId))]
         [parentId := parent.(children := parent.children + [newId])]
  }

  /** Adding a fresh child keeps the map acyclic and, when it was a proper
      tree, a proper tree. */
  lemma AddChildKeepsTree(nodes: NodeMap, parentId: string, newId: string, tag: nat)
    requires Acyclic(nodes) && parentId in nodes && Fresh(nodes, newId)
    ensures Acyclic(AddChild(nodes, parentId, newId, tag))
    ensures UniqueParents(nodes) ==> UniqueParents(AddChild(nodes, parentId, newId, tag))
  {
    AddChildAcyclic(nodes, parentId, newId, tag);
    if UniqueParents(nodes) {
      AddChildUnique(nodes, parentId, newId, tag);
    }
  }

  lemma AddChildAcyclic(nodes: NodeMap, parentId: string, newId: string, tag: nat)
    requires Acyclic(nodes) && parentId in nodes && Fresh(nodes, newId)
    ensures Acyclic(AddChild(nodes, parentId, newId, tag))
  {
    var r := AddChild(nodes, parentId, newId, tag);
    var h := Ranking(nodes);
    var h' := (map k | k in h :: h[k] + 1)[newId := 0];
    forall p, c | p in r && c in r[p].children && c in r
      ensures h'[c] < h'[p]
    {
      if p == parentId && c == newId {
      } else {
        assert c != newId;
        assert c in nodes[p].children;
      }
    }
    assert Ranks(r, h');
  }

  /** Where a child slot of the grown map comes from: the appended slot of
      the parent holds the newcomer, every other slot is an old one. */
  lemma AddChildSlot(nodes: NodeMap, parentId: string, newId: string, tag: nat, p: string, i: nat)
    requires parentId in nodes && Fresh(nodes, newId)
    requires p in AddChild(nodes, parentId, newId, tag)
    requires i < |AddChild(nodes, parentId, newId, tag)[p].children|
    ensures var r := AddChild(nodes, parentId, newId, tag);
      if p == parentId && i == |nodes[parentId].children| then r[p].children[i] == newId
      else (p in nodes && i < |nodes[p].children| && r[p].children[i] == nodes[p].children[i]
            && r[p].children[i] != newId)
  {
  }

  lemma AddChildUnique(nodes: NodeMap, parentId: string, newId: string, tag: nat)
    requires UniqueParents(nodes) && parentId in nodes && Fresh(nodes, newId)
    ensures UniqueParents(AddChild(nodes, parentId, newId, tag))
  {
    var r := AddChild(nodes, parentId, newId, tag);
    forall p, i, q, j |
      p in r && q in r && 0 <= i < |r[p].children| && 0 <= j < |r[q].children|
      && r[p].children[i] == r[q].children[j]
      ensures p == q && i == j
    {
      AddChildSlot(nodes, parentId, newId, tag, p, i);
      AddChildSlot(nodes, parentId, newId, tag, q, j);
    }
  }

  /** Adding a fresh child changes no existing card's metrics: the newcomer
      adds 0 to its parent's children total and a branch of rank 0, which no
      tier counts. */
  lemma {:induction false} AddChildKeepsMetrics(nodes: NodeMap, parentId: string, newId: string, tag: nat, x: string)
    requires Acyclic(nodes) && parentId in nodes && Fresh(nodes, newId) && x != newId
    ensures Acyclic(AddChild(nodes, parentId, newId, tag))
    ensures Compute(AddChild(nodes, parentId, newId, tag), x) == Compute(nodes, x)
    decreases Bound(nodes, x)
  {
    var r := AddChild(nodes, parentId, newId, tag);
    AddChildAcyclic(nodes, parentId, newId, tag);
    if x in nodes {
      var n := |nodes[x].children|;
      forall i | 0 <= i < n
        ensures Compute(nodes, nodes[x].children[i]) == Compute(r, nodes[x].children[i])
      {
        var c := nodes[x].children[i];
        if c in nodes {
          ChildBelow(nodes, x, i);
          AddChildKeepsMetrics(nodes, parentId, newId, tag, c);
        }
      }
      ChildResultsAgree(nodes, r, x, x, n);
      if x == parentId {
        LeafMetrics(r, newId);
        AppendZeroChild(nodes, r, x);
      } else {
        assert r[x] == nodes[x];
      }
    }
  }

  // ---------------------------------------------------------------- delete

  /** Whether a delete request goes ahead: not for the root, nor for a card
      whose parent id is missing or empty. */
  predicate Unlinks(nodes: NodeMap, rootNodeId: string, nodeId: string)
    requires nodeId in nodes
  {
    nodeId != rootNodeId && nodes[nodeId].parentId.Some? && nodes[nodeId].parentId.value != ""
  }

  /** The filter test `id => id !== nodeId`. */
  function IsNot(nodeId: string): string -> bool {
    c => c != nodeId
  }

  /** What deleting `nodeId` leaves: the map itself when the request does not
      go ahead; otherwise the map without the card's subtree, with the card's
      id struck from its parent's children. */
  ghost function Deleted(nodes: NodeMap, rootNodeId: string, nodeId: string): NodeMap
    requires Acyclic(nodes) && nodeId in nodes
    requires Unlinks(nodes, rootNodeId, nodeId) ==>
      nodes[nodeId].parentId.value in nodes - Reach(nodes, nodeId)
  {
    if !Unlinks(nodes, rootNodeId, nodeId) then nodes
    else
      var pid := nodes[nodeId].parentId.value;
      var rest := nodes - Reach(nodes, nodeId);
      rest[pid := rest[pid].(children := Filter(rest[pid].children, IsNot(nodeId)))]
  }

  /** The in-place removal on the editor's working copy of the map. */
  class Pruner {
    var nodes: NodeMap

    constructor (nodes: NodeMap)
      ensures this.nodes == nodes
    {
      this.nodes := nodes;
    }

    /** Deletes `id` and, first, every card below it. The working copy is
        the map `top` the deletion started from less the ids already
        deleted, `gone`, none of which lies in the subtree of `id`. */
    method RemoveRecursive(id: string, ghost top: NodeMap, ghost gone: set<string>, ghost h: map<string, nat>)
      requires Ranks(top, h) && UniqueParents(top) && id in top && Closed(top, id)
      requires nodes == top - gone && id !in gone
      requires forall x :: x in Reach(top, id) ==> x !in gone
      modifies this
      ensures Acyclic(top) && nodes == old(nodes) - Reach(top, id)
      decreases h[id], 1
    {
      var children := nodes[id].children;
      assert children == top[id].children;
      PruneFirst(top, id, gone);
      for i := 0 to |children|
        invariant nodes == top - (gone + ReachChildren(top, id, i))
      {
        RemoveChild(id, i, children[i], top, gone, h);
      }
      PruneLast(top, id, gone, h);
      nodes := nodes - {id};
    }

    /** One turn of the `forEach` over the children of `id`: deletes the
        subtree of `child`, the `i`-th child, after those of the children
        before it. */
    method RemoveChild(id: string, i: nat, child: string, ghost top: NodeMap, ghost gone: set<string>, ghost h: map<string, nat>)
      requires Ranks(top, h) && UniqueParents(top) && id in top && Closed(top, id)
      requires forall x :: x in Reach(top, id) ==> x !in gone
      requires i < |top[id].children| && child == top[id].children[i]
      requires nodes == top - (gone + ReachChildren(top, id, i))
      modifies this
      ensures Acyclic(top) && nodes == top - (gone + ReachChildren(top, id, i + 1))
      decreases h[id], 0
    {
      PruneStep(top, id, i, gone, h);
      RemoveRecursive(child, top, gone + ReachChildren(top, id, i), h);
    }
  }

  /** Before the visit of the `i`-th child of `id`, none of the child's
      subtree has been deleted, and deleting it leaves the working copy
      without the first `i + 1` children's subtrees. */
  lemma PruneStep(top: NodeMap, id: string, i: nat, gone: set<string>, h: map<string, nat>)
    requires Ranks(top, h) && UniqueParents(top) && id in top && Closed(top, id)
    requires forall x :: x in Reach(top, id) ==> x !in gone
    requires i < |top[id].children|
    ensures Acyclic(top)
    ensures var c := top[id].children[i]; var done := gone + ReachChildren(top, id, i);
      && c in top && Closed(top, c) && h[c] < h[id] && c !in done
      && (forall x :: x in Reach(top, c) ==> x !in done)
      && (top - done) - Reach(top, c) == top - (gone + ReachChildren(top, id, i + 1))
  {
    var c := top[id].children[i];
    var n := |top[id].children|;
    assert c in top[id].children;
    ChildBelow(top, id, i);
    ReachChildrenIncludes(top, id, n, i);
    forall x | x in Reach(top, c) ensures x !in ReachChildren(top, id, i) {
      ReachChildrenAvoidAt(top, id, i, i, x);
    }
    forall y, d | y in Reach(top, c) && d in top[y].children ensures d in top {
      assert y in ReachChildren(top, id, n);
    }
  }

  lemma PruneFirst(top: NodeMap, id: string, gone: set<string>)
    requires Acyclic(top) && id in top
    ensures top - (gone + ReachChildren(top, id, 0)) == top - gone
  {
    assert gone + ReachChildren(top, id, 0) == gone;
  }

  /** Once every child's subtree is gone, deleting `id` itself completes the
      subtree. */
  lemma PruneLast(top: NodeMap, id: string, gone: set<string>, h: map<string, nat>)
    requires Ranks(top, h) && id in top
    ensures Acyclic(top)
    ensures top - (gone + ReachChildren(top, id, |top[id].children|)) - {id}
         == (top - gone) - Reach(top, id)
  {
    var n := |top[id].children|;
    if id in ReachChildren(top, id, n) {
      ReachChildrenBelow(top, id, n, id);
    }
  }

  /** The delete handler. */
  method DeleteNode(nodes: NodeMap, rootNodeId: string, nodeId: string) returns (r: NodeMap)
    requires Acyclic(nodes) && nodeId in nodes
    requires Unlinks(nodes, rootNodeId, nodeId) ==>
      && nodes[nodeId].parentId.value in nodes - Reach(nodes, nodeId)
      && UniqueParents(nodes) && Closed(nodes, nodeId)
    ensures r == Deleted(nodes, rootNodeId, nodeId)
  {
    if nodeId == rootNodeId {
      return nodes;
    }
    var parentId := nodes[nodeId].parentId;
    if parentId.None? || parentId.value == "" {
      return nodes;
    }
    var pruner := new Pruner(nodes);
    pruner.RemoveRecursive(nodeId, nodes, {}, Ranking(nodes));
    var parent := pruner.nodes[parentId.value];
    r := pruner.nodes[parentId.value := parent.(children := Filter(parent.children, IsNot(nodeId)))];
  }

  /** A delete that goes ahead removes exactly the card's subtree, strikes
      exactly the card's id from its parent's list, and keeps the parent's
      other fields and every other entry; one that does not go ahead changes
      nothing. */
  lemma DeleteRemovesSubtree(nodes: NodeMap, rootNodeId: string, nodeId: string)
    requires Acyclic(nodes) && nodeId in nodes
    requires Unlinks(nodes, rootNodeId, nodeId) ==>
      nodes[nodeId].parentId.value in nodes - Reach(nodes, nodeId)
    ensures var r := Deleted(nodes, rootNodeId, nodeId);
      && (!Unlinks(nodes, rootNodeId, nodeId) ==> r == nodes)
      && (Unlinks(nodes, rootNodeId, nodeId) ==>
           var pid := nodes[nodeId].parentId.value;
           && r.Keys == nodes.Keys - Reach(nodes, nodeId)
           && nodeId !in r
           && r[pid] == nodes[pid].(children := r[pid].children)
           && r[pid].children == Filter(nodes[pid].children, IsNot(nodeId))
           && (forall c :: multiset(r[pid].children)[c] ==
                 if c == nodeId then 0 else multiset(nodes[pid].children)[c])
           && (forall k :: k in r && k != pid ==> r[k] == nodes[k]))
  {
    if Unlinks(nodes, rootNodeId, nodeId) {
      var pid := nodes[nodeId].parentId.value;
      var r := Deleted(nodes, rootNodeId, nodeId);
      assert r[pid].children == Filter(nodes[pid].children, IsNot(nodeId));
      forall c ensures multiset(r[pid].children)[c] ==
          if c == nodeId then 0 else multiset(nodes[pid].children)[c]
      {
        FilterCount(nodes[pid].children, IsNot(nodeId), c);
      }
    }
  }

  /** Deleting keeps the map acyclic, and a proper tree a proper tree. */
  lemma DeleteKeepsTree(nodes: NodeMap, rootNodeId: string, nodeId: string)
    requires Acyclic(nodes) && nodeId in nodes
    requires Unlinks(nodes, rootNodeId, nodeId) ==>
      nodes[nodeId].parentId.value in nodes - Reach(nodes, nodeId)
    ensures Acyclic(Deleted(nodes, rootNodeId, nodeId))
    ensures UniqueParents(nodes) ==> UniqueParents(Deleted(nodes, rootNodeId, nodeId))
  {
    if Unlinks(nodes, rootNodeId, nodeId) {
      StrikeKeepsTree(nodes, Reach(nodes, nodeId), nodes[nodeId].parentId.value, IsNot(nodeId));
    }
  }

  /** Dropping a set of entries and filtering one remaining parent's list
      keeps a map acyclic, and a proper tree a proper tree. */
  lemma StrikeKeepsTree(nodes: NodeMap, gone: set<string>, pid: string, keep: string -> bool)
    requires Acyclic(nodes) && pid in nodes - gone
    ensures var rest := nodes - gone;
      var r := rest[pid := rest[pid].(children := Filter(rest[pid].children, keep))];
      Acyclic(r) && (UniqueParents(nodes) ==> UniqueParents(r))
  {
    var rest := nodes - gone;
    var kids := nodes[pid].children;
    var r := rest[pid := rest[pid].(children := Filter(rest[pid].children, keep))];
    var h := Ranking(nodes);
    forall p, c | p in r && c in r[p].children && c in r
      ensures h[c] < h[p]
    {
      assert c in nodes[p].children;
    }
    assert Ranks(r, h);
    if UniqueParents(nodes) {
      assert NoDuplicates(kids);
      FilterNoDuplicates(kids, keep);
      forall p, i, q, j |
        p in r && q in r && 0 <= i < |r[p].children| && 0 <= j < |r[q].children|
        && r[p].children[i] == r[q].children[j]
        ensures p == q && i == j
      {
        var x := r[p].children[i];
        assert x in nodes[p].children && x in nodes[q].children;
        var i' :| 0 <= i' < |nodes[p].children| && nodes[p].children[i'] == x;
        var j' :| 0 <= j' < |nodes[q].children| && nodes[q].children[j'] == x;
      }
    }
  }

  /** Deleting a card that was just added, and so has no children, gives
      back the map from before the addition. */
  lemma DeleteUndoesAddChild(nodes: NodeMap, rootNodeId: string, parentId: string, newId: string, tag: nat)
    requires Acyclic(nodes) && parentId in nodes && Fresh(nodes, newId)
    requires parentId != "" && newId != rootNodeId
    ensures Acyclic(AddChild(nodes, parentId, newId, tag))
    ensures var r := AddChild(nodes, parentId, newId, tag);
      && Reach(r, newId) == {newId}
      && Unlinks(r, rootNodeId, newId)
      && Deleted(r, rootNodeId, newId) == nodes
  {
    AddChildKeepsTree(nodes, parentId, newId, tag);
    var r := AddChild(nodes, parentId, newId, tag);
    LeafReach(r, newId);
    StrikeAppended(nodes[parentId].children, newId);
    var rest := r - {newId};
    assert rest[parentId := rest[parentId].(children := nodes[parentId].children)] == nodes;
  }

  /** A childless card's subtree is the card alone. */
  lemma LeafReach(nodes: NodeMap, id: string)
    requires Acyclic(nodes) && id in nodes && nodes[id].children == []
    ensures Reach(nodes, id) == {id}
  {
  }

  /** Striking an id just appended to a list that lacked it restores the
      list. */
  lemma StrikeAppended(kids: seq<string>, id: string)
    requires id !in kids
    ensures Filter(kids + [id], IsNot(id)) == kids
  {
    FilterAppend(kids, [id], IsNot(id));
    FilterKeepsAll(kids, IsNot(id));
    assert Filter([id], IsNot(id)) == [] by {
      assert [id][1..] == [];
    }
  }
}
