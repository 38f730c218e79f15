/** The tree-metrics and rank engine. The application carries three copies of
    one post-order recursion (the chart, the sidebar directory and the revenue
    report); all three are this one definition. For each node it computes the
    children's subtree total, the node's own total, a rank S1..S8 and the
    highest rank anywhere in its subtree. */
module Metrics {
  import opened Types
  import opened Tree
  import opened Seqs

  /** The metrics of one node. `rank` is the tier number: 0 when the node has
      no rank, k for tier Sk. */
  datatype NodeMetrics = NodeMetrics(
    totalWithSelf: real,
    childrenSum: real,
    rank: nat,
    maxRankInSubtree: nat)

  /** What a missing id yields. */
  const NoMetrics := NodeMetrics(0.0, 0.0, 0, 0)

  /** A recorded entry of the level-tracking copies: the depth at which the
      node was visited, and its metrics. */
  datatype Entry = Entry(level: nat, metrics: NodeMetrics)

  /** The least children total that tier Sk asks for. */
  function Threshold(k: nat): real
    requires 1 <= k <= 8
  {
    match k
    case 1 => 5000.0
    case 2 => 15000.0
    case 3 => 50000.0
    case 4 => 150000.0
    case 5 => 500000.0
    case 6 => 1500000.0
    case 7 => 5000000.0
    case _ => 15000000.0
  }

  /** How many branches reached at least `target` somewhere in their subtree
      (the length of the ranks filtered by `lvl >= target`). */
  function CountAtLeast(branchRanks: seq<nat>, target: nat): nat {
    if branchRanks == [] then 0
    else
      var last := branchRanks[|branchRanks| - 1];
      CountAtLeast(branchRanks[..|branchRanks| - 1], target) + (if last >= target then 1 else 0)
  }

  /** The count is at most the number of branches; it is 0 exactly when no
      branch reached `target`, and the number of branches exactly when all
      did. */
  lemma {:induction false} CountAtLeastBounds(branchRanks: seq<nat>, target: nat)
    ensures CountAtLeast(branchRanks, target) <= |branchRanks|
    ensures CountAtLeast(branchRanks, target) == 0 <==>
      forall i :: 0 <= i < |branchRanks| ==> branchRanks[i] < target
    ensures CountAtLeast(branchRanks, target) == |branchRanks| <==>
      forall i :: 0 <= i < |branchRanks| ==> branchRanks[i] >= target
  {
    if branchRanks != [] {
      CountAtLeastBounds(branchRanks[..|branchRanks| - 1], target);
    }
  }

  /** The filter `lvl >= target` over branch ranks. */
  function RankAtLeast(target: nat): nat -> bool {
    (rank: nat) => rank >= target
  }

  /** The count is the length of the ranks filtered by `lvl >= target`. */
  lemma {:induction false} CountAtLeastFilter(branchRanks: seq<nat>, target: nat)
    ensures CountAtLeast(branchRanks, target) == |Filter(branchRanks, RankAtLeast(target))|
  {
    if branchRanks != [] {
      var n := |branchRanks| - 1;
      assert branchRanks == branchRanks[..n] + [branchRanks[n]];
      FilterAppend(branchRanks[..n], [branchRanks[n]], RankAtLeast(target));
      CountAtLeastFilter(branchRanks[..n], target);
    }
  }

  /** The tier test `>= 2` holds exactly when two different branches reached
      `target`. */
  lemma {:induction false} CountAtLeastTwo(branchRanks: seq<nat>, target: nat)
    ensures CountAtLeast(branchRanks, target) >= 2 <==>
      exists i, j :: 0 <= i < j < |branchRanks| && branchRanks[i] >= target && branchRanks[j] >= target
  {
    if branchRanks != [] {
      var n := |branchRanks| - 1;
      var front := branchRanks[..n];
      CountAtLeastTwo(front, target);
      CountAtLeastBounds(front, target);
      if CountAtLeast(branchRanks, target) >= 2 {
        if CountAtLeast(front, target) < 2 {
          var i :| 0 <= i < |front| && front[i] >= target;
          assert branchRanks[i] >= target && branchRanks[n] >= target;
        } else {
          var i, j :| 0 <= i < j < |front| && front[i] >= target && front[j] >= target;
          assert branchRanks[i] >= target && branchRanks[j] >= target;
        }
      }
      if exists i, j :: 0 <= i < j < |branchRanks| && branchRanks[i] >= target && branchRanks[j] >= target {
        var i, j :| 0 <= i < j < |branchRanks| && branchRanks[i] >= target && branchRanks[j] >= target;
        assert front[i] >= target;
        if j < n {
          assert front[j] >= target;
        }
      }
    }
  }

  /** Tier Sk's two conditions: the children total reaches its threshold, and,
      above S1, at least two branches reached tier k-1. */
  predicate Qualifies(k: nat, childrenSum: real, branchRanks: seq<nat>)
    requires 1 <= k <= 8
  {
    childrenSum >= Threshold(k) && (k == 1 || CountAtLeast(branchRanks, k - 1) >= 2)
  }

  /** The rank cascade, tested from S8 down: the result is the highest tier
      whose conditions hold, or 0 when none does, which happens exactly when
      the children total is below 5000. */
  function RankFor(childrenSum: real, branchRanks: seq<nat>): (r: nat)
    ensures r <= 8
    ensures r > 0 ==> Qualifies(r, childrenSum, branchRanks)
    ensures forall k :: r < k <= 8 ==> !Qualifies(k, childrenSum, branchRanks)
    ensures r == 0 <==> childrenSum < 5000.0
  {
    if childrenSum >= 15000000.0 && CountAtLeast(branchRanks, 7) >= 2 then 8
    else if childrenSum >= 5000000.0 && CountAtLeast(branchRanks, 6) >= 2 then 7
    else if childrenSum >= 1500000.0 && CountAtLeast(branchRanks, 5) >= 2 then 6
    else if childrenSum >= 500000.0 && CountAtLeast(branchRanks, 4) >= 2 then 5
    else if childrenSum >= 150000.0 && CountAtLeast(branchRanks, 3) >= 2 then 4
    else if childrenSum >= 50000.0 && CountAtLeast(branchRanks, 2) >= 2 then 3
    else if childrenSum >= 15000.0 && CountAtLeast(branchRanks, 1) >= 2 then 2
    else if childrenSum >= 5000.0 then 1
    else 0
  }

  /** With the branch ranks held fixed, a larger children total never lowers
      the rank. */
  lemma RankMonotone(lo: real, hi: real, branchRanks: seq<nat>)
    requires lo <= hi
    ensures RankFor(lo, branchRanks) <= RankFor(hi, branchRanks)
  {
    var r := RankFor(lo, branchRanks);
    if r > 0 {
      assert Qualifies(r, hi, branchRanks);
    }
  }

  /** `Math.max(own, ...branchRanks)`. */
  function MaxRank(own: nat, branchRanks: seq<nat>): (m: nat)
    ensures m >= own
    ensures forall i :: 0 <= i < |branchRanks| ==> branchRanks[i] <= m
    ensures m == own || m in branchRanks
  {
    if branchRanks == [] then own
    else
      var rest := MaxRank(own, branchRanks[..|branchRanks| - 1]);
      var last := branchRanks[|branchRanks| - 1];
      if last > rest then last else rest
  }

  /** The running `childrenSum` of the children loop. */
  function SumTotals(results: seq<NodeMetrics>): real {
    if results == [] then 0.0
    else SumTotals(results[..|results| - 1]) + results[|results| - 1].totalWithSelf
  }

  /** The `childMaxRanks` list of the children loop. */
  function BranchRanks(results: seq<NodeMetrics>): (ranks: seq<nat>)
    ensures |ranks| == |results|
    ensures forall i :: 0 <= i < |results| ==> ranks[i] == results[i].maxRankInSubtree
  {
    if results == [] then []
    else BranchRanks(results[..|results| - 1]) + [results[|results| - 1].maxRankInSubtree]
  }

  /** The metrics of node `id`: post-order, so the children come first. An id
      the map lacks yields zero metrics and no rank. */
  function Compute(nodes: NodeMap, id: string): (m: NodeMetrics)
    requires Acyclic(nodes)
    ensures id !in nodes ==> m == NoMetrics
    ensures id in nodes ==> m.totalWithSelf == nodes[id].value + m.childrenSum
    ensures m.rank <= m.maxRankInSubtree <= 8
    decreases Bound(nodes, id), 1, 0
  {
    if id !in nodes then NoMetrics
    else
      var results := ChildResults(nodes, id, |nodes[id].children|);
      var childrenSum := SumTotals(results);
      var branchRanks := BranchRanks(results);
      var rank := RankFor(childrenSum, branchRanks);
      NodeMetrics(nodes[id].value + childrenSum, childrenSum, rank, MaxRank(rank, branchRanks))
  }

  /** The metrics of the first `k` children of `p`, in order. */
  function ChildResults(nodes: NodeMap, p: string, k: nat): (results: seq<NodeMetrics>)
    requires Acyclic(nodes) && p in nodes && k <= |nodes[p].children|
    ensures |results| == k
    ensures forall i :: 0 <= i < k ==> results[i].maxRankInSubtree <= 8
    decreases Bound(nodes, p), 0, k
  {
    if k == 0 then []
    else
      ChildBelow(nodes, p, k - 1);
      ChildResults(nodes, p, k - 1) + [Compute(nodes, nodes[p].children[k - 1])]
  }

  lemma {:induction false} ChildResultsAt(nodes: NodeMap, p: string, k: nat, i: nat)
    requires Acyclic(nodes) && p in nodes && i < k <= |nodes[p].children|
    ensures ChildResults(nodes, p, k)[i] == Compute(nodes, nodes[p].children[i])
    decreases k
  {
    if i < k - 1 {
      ChildResultsAt(nodes, p, k - 1, i);
    }
  }

  /** A node without children has children total 0 and no rank. */
  lemma LeafMetrics(nodes: NodeMap, id: string)
    requires Acyclic(nodes) && id in nodes && nodes[id].children == []
    ensures Compute(nodes, id) == NodeMetrics(nodes[id].value, 0.0, 0, 0)
  {
  }

  /** Each node's highest subtree rank is at least the highest subtree rank of
      every child branch. */
  lemma MaxRankCoversBranches(nodes: NodeMap, id: string, i: nat)
    requires Acyclic(nodes) && id in nodes && i < |nodes[id].children|
    ensures Compute(nodes, nodes[id].children[i]).maxRankInSubtree <= Compute(nodes, id).maxRankInSubtree
  {
    var n := |nodes[id].children|;
    ChildResultsAt(nodes, id, n, i);
    assert BranchRanks(ChildResults(nodes, id, n))[i] == Compute(nodes, nodes[id].children[i]).maxRankInSubtree;
  }

  /** `maxRankInSubtree` is the highest rank held anywhere in the subtree:
      no member's rank exceeds it ... */
  lemma {:induction false} MaxRankBoundsSubtree(nodes: NodeMap, id: string, x: string)
    requires Acyclic(nodes) && x in Reach(nodes, id)
    ensures Compute(nodes, x).rank <= Compute(nodes, id).maxRankInSubtree
    decreases Bound(nodes, id)
  {
    if x != id {
      var i := WhichChild(nodes, id, |nodes[id].children|, x);
      ChildBelow(nodes, id, i);
      MaxRankBoundsSubtree(nodes, nodes[id].children[i], x);
      MaxRankCoversBranches(nodes, id, i);
    }
  }

  /** ... and, when it is not 0, some member of the subtree holds exactly that
      rank. */
  lemma {:induction false} MaxRankAttained(nodes: NodeMap, id: string) returns (y: string)
    requires Acyclic(nodes) && id in nodes
    ensures y in Reach(nodes, id)
    ensures Compute(nodes, id).maxRankInSubtree == 0
         || Compute(nodes, y).rank == Compute(nodes, id).maxRankInSubtree
    decreases Bound(nodes, id)
  {
    y := id;
    var m := Compute(nodes, id);
    if m.maxRankInSubtree != m.rank {
      var n := |nodes[id].children|;
      var branchRanks := BranchRanks(ChildResults(nodes, id, n));
      assert m.maxRankInSubtree in branchRanks;
      var i :| 0 <= i < n && branchRanks[i] == m.maxRankInSubtree;
      ChildResultsAt(nodes, id, n, i);
      var c := nodes[id].children[i];
      if c in nodes {
        ChildBelow(nodes, id, i);
        y := MaxRankAttained(nodes, c);
        ReachChildrenIncludes(nodes, id, n, i);
      }
    }
  }

  /** The child whose subtree holds a given member of `ReachChildren`. */
  lemma {:induction false} WhichChild(nodes: NodeMap, p: string, k: nat, x: string) returns (i: nat)
    requires Acyclic(nodes) && p in nodes && k <= |nodes[p].children|
    requires x in ReachChildren(nodes, p, k)
    ensures i < k && x in Reach(nodes, nodes[p].children[i])
  {
    if x in ReachChildren(nodes, p, k - 1) {
      i := WhichChild(nodes, p, k - 1, x);
    } else {
      i := k - 1;
    }
  }

  /** What a visit of `id` at depth `level` leaves in the metrics record `acc`:
      the children's visits in order, one level deeper, then the node's own
      entry. A missing id records nothing. */
  ghost function Tally(nodes: NodeMap, id: string, level: nat, acc: map<string, Entry>): (t: map<string, Entry>)
    requires Acyclic(nodes)
    decreases Bound(nodes, id), 1, 0
  {
    if id !in nodes then acc
    else
      TallyChildren(nodes, id, |nodes[id].children|, level + 1, acc)[id := Entry(level, Compute(nodes, id))]
  }

  ghost function TallyChildren(nodes: NodeMap, p: string, k: nat, level: nat, acc: map<string, Entry>)
    : (t: map<string, Entry>)
    requires Acyclic(nodes) && p in nodes && k <= |nodes[p].children|
    decreases Bound(nodes, p), 0, k
  {
    if k == 0 then acc
    else
      ChildBelow(nodes, p, k - 1);
      Tally(nodes, nodes[p].children[k - 1], level, TallyChildren(nodes, p, k - 1, level, acc))
  }

  /** The record a whole computation produces: empty for an empty root id. */
  ghost function LevelTable(nodes: NodeMap, rootNodeId: string): map<string, Entry>
    requires Acyclic(nodes)
  {
    if rootNodeId == "" then map[] else Tally(nodes, rootNodeId, 0, map[])
  }

  /** Every visited node is recorded with its own metrics, whatever path led
      to it; entries outside the subtree are left alone. */
  lemma {:induction false} TallyAt(nodes: NodeMap, id: string, level: nat, acc: map<string, Entry>, x: string)
    requires Acyclic(nodes)
    ensures x in Tally(nodes, id, level, acc) <==> x in acc || x in Reach(nodes, id)
    ensures x in Reach(nodes, id) ==> Tally(nodes, id, level, acc)[x].metrics == Compute(nodes, x)
    ensures x in acc && x !in Reach(nodes, id) ==> Tally(nodes, id, level, acc)[x] == acc[x]
    decreases Bound(nodes, id), 1, 0
  {
    if id in nodes && x != id {
      TallyChildrenAt(nodes, id, |nodes[id].children|, level + 1, acc, x);
    }
  }

  lemma {:induction false} TallyChildrenAt(nodes: NodeMap, p: string, k: nat, level: nat, acc: map<string, Entry>, x: string)
    requires Acyclic(nodes) && p in nodes && k <= |nodes[p].children|
    ensures x in TallyChildren(nodes, p, k, level, acc) <==> x in acc || x in ReachChildren(nodes, p, k)
    ensures x in ReachChildren(nodes, p, k) ==> TallyChildren(nodes, p, k, level, acc)[x].metrics == Compute(nodes, x)
    ensures x in acc && x !in ReachChildren(nodes, p, k) ==> TallyChildren(nodes, p, k, level, acc)[x] == acc[x]
    decreases Bound(nodes, p), 0, k
  {
    if k > 0 {
      var c := nodes[p].children[k - 1];
      var prev := TallyChildren(nodes, p, k - 1, level, acc);
      ChildBelow(nodes, p, k - 1);
      TallyChildrenAt(nodes, p, k - 1, level, acc, x);
      TallyAt(nodes, c, level, prev, x);
    }
  }

  /** The whole-record form of `TallyAt`. */
  lemma TallyEntries(nodes: NodeMap, id: string, level: nat, acc: map<string, Entry>)
    requires Acyclic(nodes)
    ensures var t := Tally(nodes, id, level, acc);
      && t.Keys == acc.Keys + Reach(nodes, id)
      && (forall x :: x in Reach(nodes, id) ==> t[x].metrics == Compute(nodes, x))
      && (forall x :: x in acc && x !in Reach(nodes, id) ==> t[x] == acc[x])
  {
    forall x {
      TallyAt(nodes, id, level, acc, x);
    }
  }

  /** A visit records its starting node at the visit's level. */
  lemma TallyStartLevel(nodes: NodeMap, id: string, level: nat, acc: map<string, Entry>)
    requires Acyclic(nodes) && id in nodes
    ensures id in Tally(nodes, id, level, acc) && Tally(nodes, id, level, acc)[id].level == level
  {
  }

  /** A later child's visit leaves entries outside its subtree alone. */
  lemma TallyChildrenKeeps(nodes: NodeMap, p: string, k: nat, level: nat, acc: map<string, Entry>, x: string)
    requires Acyclic(nodes) && p in nodes && 0 < k <= |nodes[p].children|
    requires x in TallyChildren(nodes, p, k - 1, level, acc) && x !in Reach(nodes, nodes[p].children[k - 1])
    ensures x in TallyChildren(nodes, p, k, level, acc)
    ensures TallyChildren(nodes, p, k, level, acc)[x] == TallyChildren(nodes, p, k - 1, level, acc)[x]
  {
    ChildBelow(nodes, p, k - 1);
    TallyAt(nodes, nodes[p].children[k - 1], level, TallyChildren(nodes, p, k - 1, level, acc), x);
  }

  /** The children's visits run one level deeper, and in a proper tree no
      later sibling's visit overwrites an earlier child's entry. */
  lemma {:induction false} TallyChildStartLevel(nodes: NodeMap, p: string, k: nat, level: nat, acc: map<string, Entry>, j: nat)
    requires Acyclic(nodes) && UniqueParents(nodes) && p in nodes && j < k <= |nodes[p].children|
    requires nodes[p].children[j] in nodes
    ensures var u := TallyChildren(nodes, p, k, level, acc);
      nodes[p].children[j] in u && u[nodes[p].children[j]].level == level
    decreases k
  {
    ChildBelow(nodes, p, k - 1);
    if j == k - 1 {
      TallyStartLevel(nodes, nodes[p].children[k - 1], level, TallyChildren(nodes, p, k - 1, level, acc));
    } else {
      var cj := nodes[p].children[j];
      TallyChildStartLevel(nodes, p, k - 1, level, acc, j);
      SiblingOutside(nodes, p, j, k - 1);
      TallyChildrenKeeps(nodes, p, k, level, acc, cj);
    }
  }

  /** In a proper tree (unique parents) each recorded node sits one level
      below its parent. */
  lemma {:induction false} TallyLevelAt(nodes: NodeMap, id: string, level: nat, acc: map<string, Entry>, x: string, i: nat)
    requires Acyclic(nodes) && UniqueParents(nodes)
    requires x in Reach(nodes, id) && i < |nodes[x].children| && nodes[x].children[i] in nodes
    ensures var t := Tally(nodes, id, level, acc);
      x in t && nodes[x].children[i] in t && t[nodes[x].children[i]].level == t[x].level + 1
    decreases Bound(nodes, id), 1, 0
  {
    var n := |nodes[id].children|;
    var ch := nodes[x].children[i];
    ChildBelow(nodes, x, i);
    ReachBelow(nodes, id, x);
    var u := TallyChildren(nodes, id, n, level + 1, acc);
    assert Tally(nodes, id, level, acc) == u[id := Entry(level, Compute(nodes, id))];
    if x == id {
      TallyChildStartLevel(nodes, id, n, level + 1, acc, i);
    } else {
      assert x in ReachChildren(nodes, id, n);
      ReachChildrenBelow(nodes, id, n, x);
      ReachChildrenClosed(nodes, id, n, x, i);
      TallyChildrenLevelAt(nodes, id, n, level + 1, acc, x, i);
    }
  }

  lemma {:induction false} TallyChildrenLevelAt(nodes: NodeMap, p: string, k: nat, level: nat, acc: map<string, Entry>, x: string, i: nat)
    requires Acyclic(nodes) && UniqueParents(nodes) && p in nodes && k <= |nodes[p].children|
    requires x in ReachChildren(nodes, p, k) && i < |nodes[x].children| && nodes[x].children[i] in nodes
    ensures var u := TallyChildren(nodes, p, k, level, acc);
      x in u && nodes[x].children[i] in u && u[nodes[x].children[i]].level == u[x].level + 1
    decreases Bound(nodes, p), 0, k
  {
    var c := nodes[p].children[k - 1];
    var prev := TallyChildren(nodes, p, k - 1, level, acc);
    var ch := nodes[x].children[i];
    ChildBelow(nodes, p, k - 1);
    if x in Reach(nodes, c) {
      TallyLevelAt(nodes, c, level, prev, x, i);
    } else {
      ReachChildrenBefore(nodes, p, k, x, i);
      TallyChildrenLevelAt(nodes, p, k - 1, level, acc, x, i);
      TallyAt(nodes, c, level, prev, x);
      TallyAt(nodes, c, level, prev, ch);
    }
  }

  /** One more child visited: its metrics join the results and its visit
      runs on the record the earlier children left. */
  lemma VisitStep(nodes: NodeMap, p: string, k: nat, level: nat, acc: map<string, Entry>)
    requires Acyclic(nodes) && p in nodes && k < |nodes[p].children|
    ensures ChildResults(nodes, p, k + 1) == ChildResults(nodes, p, k) + [Compute(nodes, nodes[p].children[k])]
    ensures TallyChildren(nodes, p, k + 1, level, acc)
         == Tally(nodes, nodes[p].children[k], level, TallyChildren(nodes, p, k, level, acc))
  {
  }

  /** The running sum and the branch-rank list after one more result. */
  lemma ResultsStep(results: seq<NodeMetrics>, r: NodeMetrics)
    ensures SumTotals(results + [r]) == SumTotals(results) + r.totalWithSelf
    ensures BranchRanks(results + [r]) == BranchRanks(results) + [r.maxRankInSubtree]
  {
    assert (results + [r])[..|results|] == results;
  }

  /** The recursive visit with its running record: the metrics of `id` are
      returned and every node of the subtree is entered in the record, at its
      depth below the starting level. */
  method Calculate(nodes: NodeMap, id: string, level: nat, acc: map<string, Entry>)
    returns (m: NodeMetrics, t: map<string, Entry>)
    requires Acyclic(nodes)
    ensures m == Compute(nodes, id)
    ensures t == Tally(nodes, id, level, acc)
    decreases Bound(nodes, id), 1
  {
    if id !in nodes {
      return NoMetrics, acc;
    }
    var childrenSum, childMaxRanks;
    childrenSum, childMaxRanks, t := VisitChildren(nodes, id, level + 1, acc);
    var rank := RankFor(childrenSum, childMaxRanks);
    m := NodeMetrics(nodes[id].value + childrenSum, childrenSum, rank, MaxRank(rank, childMaxRanks));
    t := t[id := Entry(level, m)];
  }

  /** The loop over the children of `id`: `childrenSum` and `childMaxRanks`
      accumulate the children's results, and each child's visit runs at
      `level` on the record the earlier ones left. */
  method VisitChildren(nodes: NodeMap, id: string, level: nat, acc: map<string, Entry>)
    returns (childrenSum: real, childMaxRanks: seq<nat>, t: map<string, Entry>)
    requires Acyclic(nodes) && id in nodes
    ensures var results := ChildResults(nodes, id, |nodes[id].children|);
      childrenSum == SumTotals(results) && childMaxRanks == BranchRanks(results)
    ensures t == TallyChildren(nodes, id, |nodes[id].children|, level, acc)
    decreases Bound(nodes, id), 0
  {
    var children := nodes[id].children;
    childrenSum := 0.0;
    childMaxRanks := [];
    t := acc;
    for i := 0 to |children|
      invariant childrenSum == SumTotals(ChildResults(nodes, id, i))
      invariant childMaxRanks == BranchRanks(ChildResults(nodes, id, i))
      invariant t == TallyChildren(nodes, id, i, level, acc)
    {
      ChildBelow(nodes, id, i);
      var childMetric;
      ghost var before := ChildResults(nodes, id, i);
      childMetric, t := Calculate(nodes, children[i], level, t);
      assert ChildResults(nodes, id, i + 1) == before + [childMetric]
          && t == TallyChildren(nodes, id, i + 1, level, acc) by {
        VisitStep(nodes, id, i, level, acc);
      }
      ResultsStep(before, childMetric);
      childrenSum := childrenSum + childMetric.totalWithSelf;
      childMaxRanks := childMaxRanks + [childMetric.maxRankInSubtree];
    }
  }

  /** The whole computation: an empty root id visits nothing. */
  method ComputeTable(nodes: NodeMap, rootNodeId: string) returns (t: map<string, Entry>)
    requires Acyclic(nodes)
    ensures t == LevelTable(nodes, rootNodeId)
  {
    t := map[];
    if rootNodeId != "" {
      var rootMetrics;
      rootMetrics, t := Calculate(nodes, rootNodeId, 0, t);
    }
  }

  /** What the record holds: exactly the nodes reachable from the root, each
      with its own metrics; the root at depth 0; and, in a proper tree, every
      child one level below its parent. */
  lemma LevelTableFacts(nodes: NodeMap, rootNodeId: string)
    requires Acyclic(nodes)
    ensures var t := LevelTable(nodes, rootNodeId);
      && t.Keys == (if rootNodeId == "" then {} else Reach(nodes, rootNodeId))
      && (forall x :: x in t ==> t[x].metrics == Compute(nodes, x))
      && (rootNodeId in t ==> t[rootNodeId].level == 0)
  {
    if rootNodeId != "" {
      TallyEntries(nodes, rootNodeId, 0, map[]);
      if rootNodeId in nodes {
        TallyStartLevel(nodes, rootNodeId, 0, map[]);
      }
    }
  }

  /** In a proper tree every recorded child sits one level below its parent. */
  lemma LevelTableDepths(nodes: NodeMap, rootNodeId: string)
    requires Acyclic(nodes) && UniqueParents(nodes)
    ensures var t := LevelTable(nodes, rootNodeId);
      forall x, i :: x in t && x in nodes && 0 <= i < |nodes[x].children| && nodes[x].children[i] in nodes ==>
        nodes[x].children[i] in t && t[nodes[x].children[i]].level == t[x].level + 1
  {
    var t := LevelTable(nodes, rootNodeId);
    forall x, i | x in t && x in nodes && 0 <= i < |nodes[x].children| && nodes[x].children[i] in nodes
      ensures nodes[x].children[i] in t && t[nodes[x].children[i]].level == t[x].level + 1
    {
      TallyAt(nodes, rootNodeId, 0, map[], x);
      TallyLevelAt(nodes, rootNodeId, 0, map[], x, i);
    }
  }

  /** The sum of the values of a set of held ids, in no particular order: the
      reference meaning of a subtree total. */
  ghost function ValueSum(nodes: NodeMap, s: set<string>): real
    requires s <= nodes.Keys
    decreases s
  {
    if s == {} then 0.0
    else
      var x :| x in s;
      nodes[x].value + ValueSum(nodes, s - {x})
  }

  lemma {:induction false} ValueSumRemove(nodes: NodeMap, s: set<string>, y: string)
    requires s <= nodes.Keys && y in s
    ensures ValueSum(nodes, s) == nodes[y].value + ValueSum(nodes, s - {y})
    decreases s
  {
    var x :| x in s && ValueSum(nodes, s) == nodes[x].value + ValueSum(nodes, s - {x});
    if x != y {
      ValueSumRemove(nodes, s - {x}, y);
      ValueSumRemove(nodes, s - {y}, x);
      assert s - {x} - {y} == s - {y} - {x};
    }
  }

  lemma {:induction false} ValueSumUnion(nodes: NodeMap, a: set<string>, b: set<string>)
    requires a <= nodes.Keys && b <= nodes.Keys && a !! b
    ensures ValueSum(nodes, a + b) == ValueSum(nodes, a) + ValueSum(nodes, b)
    decreases a
  {
    if a == {} {
      assert a + b == b;
    } else {
      var x :| x in a;
      ValueSumRemove(nodes, a + b, x);
      ValueSumRemove(nodes, a, x);
      assert (a + b) - {x} == (a - {x}) + b;
      ValueSumUnion(nodes, a - {x}, b);
    }
  }

  /** In a proper tree a node's total is the sum of the values of its whole
      subtree, each member counted once. */
  lemma {:induction false} SubtreeTotal(nodes: NodeMap, id: string)
    requires Acyclic(nodes) && UniqueParents(nodes)
    ensures Compute(nodes, id).totalWithSelf == ValueSum(nodes, Reach(nodes, id))
    decreases Bound(nodes, id), 1, 0
  {
    if id in nodes {
      var n := |nodes[id].children|;
      ChildrenTotal(nodes, id, n);
      if id in ReachChildren(nodes, id, n) {
        ReachChildrenBelow(nodes, id, n, id);
      }
      ValueSumUnion(nodes, {id}, ReachChildren(nodes, id, n));
      ValueSumRemove(nodes, {id}, id);
    }
  }

  /** ... so the children total is the sum of the values of all descendants. */
  lemma {:induction false} ChildrenTotal(nodes: NodeMap, p: string, k: nat)
    requires Acyclic(nodes) && UniqueParents(nodes) && p in nodes && k <= |nodes[p].children|
    ensures SumTotals(ChildResults(nodes, p, k)) == ValueSum(nodes, ReachChildren(nodes, p, k))
    decreases Bound(nodes, p), 0, k
  {
    if k > 0 {
      var c := nodes[p].children[k - 1];
      ChildBelow(nodes, p, k - 1);
      var results := ChildResults(nodes, p, k);
      assert results[..k - 1] == ChildResults(nodes, p, k - 1);
      ChildrenTotal(nodes, p, k - 1);
      SubtreeTotal(nodes, c);
      ReachChildrenAvoid(nodes, p, k - 1, k - 1);
      ValueSumUnion(nodes, ReachChildren(nodes, p, k - 1), Reach(nodes, c));
    }
  }

  /** Two child lists that agree on a prefix, child by child and metrics by
      metrics, give the same results for that prefix. */
  lemma {:induction false} ChildResultsAgree(a: NodeMap, b: NodeMap, p: string, q: string, k: nat)
    requires Acyclic(a) && Acyclic(b) && p in a && q in b
    requires k <= |a[p].children| && k <= |b[q].children|
    requires forall i :: 0 <= i < k ==> a[p].children[i] == b[q].children[i]
    requires forall i :: 0 <= i < k ==> Compute(a, a[p].children[i]) == Compute(b, a[p].children[i])
    ensures ChildResults(a, p, k) == ChildResults(b, q, k)
  {
    if k > 0 {
      ChildResultsAgree(a, b, p, q, k - 1);
      var c := a[p].children[k - 1];
      assert c == b[q].children[k - 1] && Compute(a, c) == Compute(b, c);
    }
  }

  /** Two maps with the same ids, children and values. */
  ghost predicate SameShape(a: NodeMap, b: NodeMap) {
    && a.Keys == b.Keys
    && forall id :: id in a ==> a[id].children == b[id].children && a[id].value == b[id].value
  }

  lemma SameShapeAcyclic(a: NodeMap, b: NodeMap)
    requires Acyclic(a) && SameShape(a, b)
    ensures Acyclic(b)
  {
    assert Ranks(b, Ranking(a));
  }

  /** The metrics depend on nothing but the ids, the children lists and the
      values: names and recommender ids play no part. */
  lemma {:induction false} ComputeSameShape(a: NodeMap, b: NodeMap, id: string)
    requires Acyclic(a) && Acyclic(b) && SameShape(a, b)
    ensures Compute(a, id) == Compute(b, id)
    decreases Bound(a, id)
  {
    if id in a {
      var n := |a[id].children|;
      forall i | 0 <= i < n
        ensures Compute(a, a[id].children[i]) == Compute(b, a[id].children[i])
      {
        ChildBelow(a, id, i);
        ComputeSameShape(a, b, a[id].children[i]);
      }
      ChildResultsAgree(a, b, id, id, n);
    }
  }

  /** Two maps with the same ids and children lists, whatever the values. */
  ghost predicate SameChildren(a: NodeMap, b: NodeMap) {
    && a.Keys == b.Keys
    && forall id :: id in a ==> a[id].children == b[id].children
  }

  lemma SameChildrenAcyclic(a: NodeMap, b: NodeMap)
    requires Acyclic(a) && SameChildren(a, b)
    ensures Acyclic(b)
    ensures UniqueParents(a) ==> UniqueParents(b)
  {
    assert Ranks(b, Ranking(a));
  }

  /** The subtrees depend on nothing but the ids and the children lists. */
  lemma {:induction false} ReachSameChildren(a: NodeMap, b: NodeMap, x: string)
    requires Acyclic(a) && Acyclic(b) && SameChildren(a, b)
    ensures Reach(a, x) == Reach(b, x)
    decreases Bound(a, x)
  {
    if x in a {
      var n := |a[x].children|;
      forall i | 0 <= i < n
        ensures Reach(a, a[x].children[i]) == Reach(b, a[x].children[i])
      {
        ChildBelow(a, x, i);
        ReachSameChildren(a, b, a[x].children[i]);
      }
      ReachChildrenAgree(a, b, x, n);
    }
  }

  /** Child lists whose subtrees agree one by one reach the same ids. */
  lemma {:induction false} ReachChildrenAgree(a: NodeMap, b: NodeMap, p: string, k: nat)
    requires Acyclic(a) && Acyclic(b) && SameChildren(a, b) && p in a && k <= |a[p].children|
    requires forall i :: 0 <= i < k ==> Reach(a, a[p].children[i]) == Reach(b, a[p].children[i])
    ensures ReachChildren(a, p, k) == ReachChildren(b, p, k)
  {
    assert p in b && b[p].children == a[p].children;
    if k > 0 {
      var c := a[p].children[k - 1];
      ReachChildrenAgree(a, b, p, k - 1);
      assert Reach(a, c) == Reach(b, c);
    }
  }

  /** The metrics of a subtree that does not hold `y` ignore `y`'s value. */
  lemma {:induction false} ComputeAway(a: NodeMap, b: NodeMap, y: string, x: string)
    requires Acyclic(a) && Acyclic(b) && SameChildren(a, b)
    requires forall id :: id in a && id != y ==> a[id].value == b[id].value
    requires y !in Reach(a, x)
    ensures Compute(a, x) == Compute(b, x)
    decreases Bound(a, x)
  {
    if x in a {
      var n := |a[x].children|;
      forall i | 0 <= i < n
        ensures Compute(a, a[x].children[i]) == Compute(b, a[x].children[i])
      {
        ChildBelow(a, x, i);
        ReachChildrenIncludes(a, x, n, i);
        ComputeAway(a, b, y, a[x].children[i]);
      }
      ChildResultsAgree(a, b, x, x, n);
    }
  }

  /** Value sums agree where the values agree. */
  lemma {:induction false} ValueSumAgree(a: NodeMap, b: NodeMap, s: set<string>)
    requires s <= a.Keys && s <= b.Keys
    requires forall id :: id in s ==> a[id].value == b[id].value
    ensures ValueSum(a, s) == ValueSum(b, s)
    decreases s
  {
    if s != {} {
      var x :| x in s;
      ValueSumRemove(a, s, x);
      ValueSumRemove(b, s, x);
      ValueSumAgree(a, b, s - {x});
    }
  }

  lemma CountIgnoresZero(branchRanks: seq<nat>, t: nat)
    requires t >= 1
    ensures CountAtLeast(branchRanks + [0], t) == CountAtLeast(branchRanks, t)
  {
    assert (branchRanks + [0])[..|branchRanks|] == branchRanks;
  }

  lemma RankIgnoresZero(childrenSum: real, branchRanks: seq<nat>)
    ensures RankFor(childrenSum, branchRanks + [0]) == RankFor(childrenSum, branchRanks)
  {
    CountIgnoresZero(branchRanks, 1);
    CountIgnoresZero(branchRanks, 2);
    CountIgnoresZero(branchRanks, 3);
    CountIgnoresZero(branchRanks, 4);
    CountIgnoresZero(branchRanks, 5);
    CountIgnoresZero(branchRanks, 6);
    CountIgnoresZero(branchRanks, 7);
  }

  lemma MaxRankIgnoresZero(own: nat, branchRanks: seq<nat>)
    ensures MaxRank(own, branchRanks + [0]) == MaxRank(own, branchRanks)
  {
    assert (branchRanks + [0])[..|branchRanks|] == branchRanks;
  }

  /** A branch of rank 0 counts towards no tier and raises no maximum. */
  lemma ZeroBranchNeutral(childrenSum: real, branchRanks: seq<nat>)
    ensures RankFor(childrenSum, branchRanks + [0]) == RankFor(childrenSum, branchRanks)
    ensures forall own :: MaxRank(own, branchRanks + [0]) == MaxRank(own, branchRanks)
  {
    RankIgnoresZero(childrenSum, branchRanks);
    forall own ensures MaxRank(own, branchRanks + [0]) == MaxRank(own, branchRanks) {
      MaxRankIgnoresZero(own, branchRanks);
    }
  }

  /** A node whose children list gains, at its end, a child with zero metrics
      keeps its own metrics. */
  lemma AppendZeroChild(a: NodeMap, b: NodeMap, p: string)
    requires Acyclic(a) && Acyclic(b) && p in a && p in b && b[p].value == a[p].value
    requires |b[p].children| == |a[p].children| + 1
    requires ChildResults(b, p, |a[p].children|) == ChildResults(a, p, |a[p].children|)
    requires Compute(b, b[p].children[|a[p].children|]) == NodeMetrics(0.0, 0.0, 0, 0)
    ensures Compute(b, p) == Compute(a, p)
  {
    var n := |a[p].children|;
    var results := ChildResults(b, p, n + 1);
    assert results[..n] == ChildResults(a, p, n);
    ZeroBranchNeutral(SumTotals(results[..n]), BranchRanks(results[..n]));
    assert BranchRanks(results) == BranchRanks(results[..n]) + [0];
  }
}
