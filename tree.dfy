/** The shape of a node map: acyclicity, the ids reachable from a node by
    following `children`, and the single-parent property of a proper tree.
    Every traversal in the application follows child ids through the map and
    silently stops at an id the map does not hold. */
module Tree {
  import opened Types
  import opened Seqs

  /** `h` ranks the map: every child id that the map holds sits strictly below
      its parent. */
  ghost predicate Ranks(nodes: NodeMap, h: map<string, nat>) {
    && nodes.Keys <= h.Keys
    && forall p, c {:trigger h[c], h[p]} :: p in nodes && c in nodes[p].children && c in nodes ==> h[c] < h[p]
  }

  /** Following child ids from any node never returns to it. */
  ghost predicate Acyclic(nodes: NodeMap) {
    exists h :: Ranks(nodes, h)
  }

  ghost function Ranking(nodes: NodeMap): (h: map<string, nat>)
    requires Acyclic(nodes)
    ensures Ranks(nodes, h)
  {
    var h :| Ranks(nodes, h); h
  }

  /** The termination measure of every traversal; 0 for an id the map lacks. */
  ghost function Bound(nodes: NodeMap, id: string): nat
    requires Acyclic(nodes)
  {
    if id in nodes then Ranking(nodes)[id] + 1 else 0
  }

  lemma ChildBelow(nodes: NodeMap, p: string, i: int)
    requires Acyclic(nodes) && p in nodes && 0 <= i < |nodes[p].children|
    ensures Bound(nodes, nodes[p].children[i]) < Bound(nodes, p)
  {
    assert nodes[p].children[i] in nodes[p].children;
  }

  /** The ids of the subtree rooted at `id`: `id` itself when the map holds
      it, and everything reachable from its children. */
  ghost function Reach(nodes: NodeMap, id: string): (r: set<string>)
    requires Acyclic(nodes)
    ensures r <= nodes.Keys
    ensures id in r <==> id in nodes
    decreases Bound(nodes, id), 1, 0
  {
    if id !in nodes then {}
    else {id} + ReachChildren(nodes, id, |nodes[id].children|)
  }

  /** The ids reachable from the first `k` children of `p`. */
  ghost function ReachChildren(nodes: NodeMap, p: string, k: nat): (r: set<string>)
    requires Acyclic(nodes) && p in nodes && k <= |nodes[p].children|
    ensures r <= nodes.Keys
    decreases Bound(nodes, p), 0, k
  {
    if k == 0 then {}
    else
      ChildBelow(nodes, p, k - 1);
      ReachChildren(nodes, p, k - 1) + Reach(nodes, nodes[p].children[k - 1])
  }

  /** No id occurs twice among all children lists: every node has at most one
      parent and is listed there once. */
  ghost predicate UniqueParents(nodes: NodeMap) {
    forall p, i, q, j ::
      p in nodes && q in nodes && 0 <= i < |nodes[p].children| && 0 <= j < |nodes[q].children|
      && nodes[p].children[i] == nodes[q].children[j]
      ==> p == q && i == j
  }

  /** Every child id listed anywhere in the subtree of `x` is held by the map. */
  ghost predicate Closed(nodes: NodeMap, x: string)
    requires Acyclic(nodes)
  {
    forall y, c :: y in Reach(nodes, x) && c in nodes[y].children ==> c in nodes
  }

  /** `small` is `big` with some entries deleted and none changed. */
  ghost predicate SubmapOf(small: NodeMap, big: NodeMap) {
    forall k :: k in small ==> k in big && small[k] == big[k]
  }

  lemma {:induction false} ReachBelow(nodes: NodeMap, a: string, x: string)
    requires Acyclic(nodes) && x in Reach(nodes, a)
    ensures Bound(nodes, x) <= Bound(nodes, a)
    decreases Bound(nodes, a), 1, 0
  {
    if x != a {
      ReachChildrenBelow(nodes, a, |nodes[a].children|, x);
    }
  }

  lemma {:induction false} ReachChildrenBelow(nodes: NodeMap, p: string, k: nat, x: string)
    requires Acyclic(nodes) && p in nodes && k <= |nodes[p].children|
    requires x in ReachChildren(nodes, p, k)
    ensures Bound(nodes, x) < Bound(nodes, p)
    decreases Bound(nodes, p), 0, k
  {
    if x in ReachChildren(nodes, p, k - 1) {
      ReachChildrenBelow(nodes, p, k - 1, x);
    } else {
      ChildBelow(nodes, p, k - 1);
      ReachBelow(nodes, nodes[p].children[k - 1], x);
    }
  }

  lemma {:induction false} ReachChildrenIncludes(nodes: NodeMap, p: string, k: nat, i: nat)
    requires Acyclic(nodes) && p in nodes && i < k <= |nodes[p].children|
    ensures Reach(nodes, nodes[p].children[i]) <= ReachChildren(nodes, p, k)
    decreases k
  {
    if i < k - 1 {
      ReachChildrenIncludes(nodes, p, k - 1, i);
    }
  }

  /** A subtree holds the present children of each of its members. */
  lemma {:induction false} ReachClosed(nodes: NodeMap, a: string, x: string, i: nat)
    requires Acyclic(nodes) && x in Reach(nodes, a)
    requires i < |nodes[x].children| && nodes[x].children[i] in nodes
    ensures nodes[x].children[i] in Reach(nodes, a)
    decreases Bound(nodes, a), 1, 0
  {
    if x == a {
      ReachChildrenIncludes(nodes, a, |nodes[a].children|, i);
    } else {
      ReachChildrenClosed(nodes, a, |nodes[a].children|, x, i);
    }
  }

  lemma {:induction false} ReachChildrenClosed(nodes: NodeMap, p: string, k: nat, x: string, i: nat)
    requires Acyclic(nodes) && p in nodes && k <= |nodes[p].children|
    requires x in ReachChildren(nodes, p, k)
    requires i < |nodes[x].children| && nodes[x].children[i] in nodes
    ensures nodes[x].children[i] in ReachChildren(nodes, p, k)
    decreases Bound(nodes, p), 0, k
  {
    if x in ReachChildren(nodes, p, k - 1) {
      ReachChildrenClosed(nodes, p, k - 1, x, i);
    } else {
      ChildBelow(nodes, p, k - 1);
      ReachClosed(nodes, nodes[p].children[k - 1], x, i);
    }
  }

  /** Every member of a subtree other than its root is listed as a child by
      some member of the same subtree. */
  lemma {:induction false} ReachUp(nodes: NodeMap, a: string, x: string) returns (p: string, i: nat)
    requires Acyclic(nodes) && x in Reach(nodes, a) && x != a
    ensures p in Reach(nodes, a) && i < |nodes[p].children| && nodes[p].children[i] == x
    decreases Bound(nodes, a), 1, 0
  {
    p, i := ReachChildrenUp(nodes, a, |nodes[a].children|, x);
  }

  lemma {:induction false} ReachChildrenUp(nodes: NodeMap, q: string, k: nat, x: string) returns (p: string, i: nat)
    requires Acyclic(nodes) && q in nodes && k <= |nodes[q].children|
    requires x in ReachChildren(nodes, q, k)
    ensures p == q || p in ReachChildren(nodes, q, k)
    ensures p in nodes && i < |nodes[p].children| && nodes[p].children[i] == x
    decreases Bound(nodes, q), 0, k
  {
    if x in ReachChildren(nodes, q, k - 1) {
      p, i := ReachChildrenUp(nodes, q, k - 1, x);
    } else {
      var c := nodes[q].children[k - 1];
      if x == c {
        p, i := q, k - 1;
      } else {
        ChildBelow(nodes, q, k - 1);
        p, i := ReachUp(nodes, c, x);
      }
    }
  }

  /** In a map with unique parents, two subtrees that share a member are
      nested. */
  lemma {:induction false} ReachMeet(nodes: NodeMap, a: string, b: string, x: string)
    requires Acyclic(nodes) && UniqueParents(nodes)
    requires x in Reach(nodes, a) && x in Reach(nodes, b)
    ensures a in Reach(nodes, b) || b in Reach(nodes, a)
    decreases Bound(nodes, a) - Bound(nodes, x)
  {
    ReachBelow(nodes, a, x);
    if x != a && x != b {
      var p, i := ReachUp(nodes, a, x);
      var q, j := ReachUp(nodes, b, x);
      assert p == q;
      ChildBelow(nodes, p, i);
      ReachBelow(nodes, a, p);
      ReachMeet(nodes, a, b, p);
    }
  }

  /** Distinct children of one node have disjoint subtrees. */
  lemma SiblingsDisjoint(nodes: NodeMap, p: string, i: nat, j: nat)
    requires Acyclic(nodes) && UniqueParents(nodes) && p in nodes
    requires i < |nodes[p].children| && j < |nodes[p].children| && i != j
    ensures Reach(nodes, nodes[p].children[i]) !! Reach(nodes, nodes[p].children[j])
  {
    var ci, cj := nodes[p].children[i], nodes[p].children[j];
    forall x | x in Reach(nodes, ci) && x in Reach(nodes, cj) ensures false {
      ReachMeet(nodes, ci, cj, x);
      if ci in Reach(nodes, cj) {
        var q, l := ReachUp(nodes, cj, ci);
        ReachBelow(nodes, cj, q);
        ChildBelow(nodes, p, j);
      } else {
        var q, l := ReachUp(nodes, ci, cj);
        ReachBelow(nodes, ci, q);
        ChildBelow(nodes, p, i);
      }
    }
  }

  /** A present child lies outside each of its siblings' subtrees. */
  lemma SiblingOutside(nodes: NodeMap, p: string, i: nat, j: nat)
    requires Acyclic(nodes) && UniqueParents(nodes) && p in nodes
    requires i < |nodes[p].children| && j < |nodes[p].children| && i != j
    requires nodes[p].children[i] in nodes
    ensures nodes[p].children[i] !in Reach(nodes, nodes[p].children[j])
  {
    SiblingsDisjoint(nodes, p, i, j);
  }

  /** The subtree of child `i` is disjoint from those of the first `k <= i`
      children. */
  lemma {:induction false} ReachChildrenAvoid(nodes: NodeMap, p: string, k: nat, i: nat)
    requires Acyclic(nodes) && UniqueParents(nodes) && p in nodes
    requires k <= i < |nodes[p].children|
    ensures Reach(nodes, nodes[p].children[i]) !! ReachChildren(nodes, p, k)
  {
    if k > 0 {
      ReachChildrenAvoid(nodes, p, k - 1, i);
      SiblingsDisjoint(nodes, p, i, k - 1);
    }
  }

  lemma SubmapRanks(big: NodeMap, small: NodeMap, h: map<string, nat>)
    requires Ranks(big, h) && SubmapOf(small, big)
    ensures Ranks(small, h) && Acyclic(small)
    ensures UniqueParents(big) ==> UniqueParents(small)
  {
    assert Ranks(small, h);
  }

  /** Deleting entries outside a subtree leaves that subtree as it was. */
  lemma {:induction false} ReachSubmap(big: NodeMap, small: NodeMap, x: string)
    requires Acyclic(big) && Acyclic(small) && SubmapOf(small, big)
    requires Reach(big, x) <= small.Keys
    ensures Reach(small, x) == Reach(big, x)
    decreases Bound(big, x), 1, 0
  {
    if x in big {
      ReachChildrenSubmap(big, small, x, |big[x].children|);
    }
  }

  lemma {:induction false} ReachChildrenSubmap(big: NodeMap, small: NodeMap, p: string, k: nat)
    requires Acyclic(big) && Acyclic(small) && SubmapOf(small, big)
    requires p in small && k <= |big[p].children|
    requires ReachChildren(big, p, k) <= small.Keys
    ensures ReachChildren(small, p, k) == ReachChildren(big, p, k)
    decreases Bound(big, p), 0, k
  {
    if k > 0 {
      ReachChildrenSubmap(big, small, p, k - 1);
      ChildBelow(big, p, k - 1);
      ReachSubmap(big, small, big[p].children[k - 1]);
    }
  }

  lemma ReachChildrenAvoidAt(nodes: NodeMap, p: string, k: nat, i: nat, x: string)
    requires Acyclic(nodes) && UniqueParents(nodes) && p in nodes
    requires k <= i < |nodes[p].children|
    ensures x !in Reach(nodes, nodes[p].children[i]) || x !in ReachChildren(nodes, p, k)
  {
    ReachChildrenAvoid(nodes, p, k, i);
  }

  // ------------------------------------------------------------ listing

  /** `order` is the order in which the map lists its keys: each key once. */
  ghost predicate Lists(nodes: NodeMap, order: seq<string>) {
    && NoDuplicates(order)
    && (forall i :: 0 <= i < |order| ==> order[i] in nodes)
    && (forall k :: k in nodes ==> k in order)
  }

  /** `Object.values(nodes)`, the entries in key order. */
  function Values(nodes: NodeMap, order: seq<string>): (all: seq<OrgNode>)
    requires forall i :: 0 <= i < |order| ==> order[i] in nodes
    ensures |all| == |order|
    ensures forall i :: 0 <= i < |order| ==> all[i] == nodes[order[i]]
  {
    seq(|order|, i requires 0 <= i < |order| => nodes[order[i]])
  }

  /** Every entry is stored under its own id. */
  ghost predicate IdsMatch(nodes: NodeMap) {
    forall k :: k in nodes ==> nodes[k].id == k
  }

  predicate DistinctIds(all: seq<OrgNode>) {
    forall i, j :: 0 <= i < j < |all| ==> all[i].id != all[j].id
  }

  lemma ValuesDistinct(nodes: NodeMap, order: seq<string>)
    requires Lists(nodes, order) && IdsMatch(nodes)
    ensures DistinctIds(Values(nodes, order))
  {
  }


  /** A member of the first `k` children's subtrees that lies outside the
      last one's lies, with each child it lists, in the first `k - 1`, and in
      a proper tree that child lies outside the last subtree too. */
  lemma ReachChildrenBefore(nodes: NodeMap, p: string, k: nat, x: string, i: nat)
    requires Acyclic(nodes) && UniqueParents(nodes) && p in nodes && 0 < k <= |nodes[p].children|
    requires x in ReachChildren(nodes, p, k) && x !in Reach(nodes, nodes[p].children[k - 1])
    requires i < |nodes[x].children| && nodes[x].children[i] in nodes
    ensures x in ReachChildren(nodes, p, k - 1)
    ensures nodes[x].children[i] in ReachChildren(nodes, p, k - 1)
    ensures nodes[x].children[i] !in Reach(nodes, nodes[p].children[k - 1])
  {
    ReachChildrenClosed(nodes, p, k - 1, x, i);
    ReachChildrenAvoid(nodes, p, k - 1, k - 1);
  }
}
