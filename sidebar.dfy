/** The project directory beside the chart: the metrics of the selected
    project, the member search, and the inline rename of a project title. */
module Sidebar {
  import opened Types
  import opened Seqs
  import opened Text
  import opened Tree
  import opened Metrics
  import opened App

  // ------------------------------------------------------------- metrics

  /** The metrics table the directory shows: nothing without a selected
      project, otherwise the level table of its root. */
  ghost function SidebarTable(selected: Option<Project>): (t: map<string, Entry>)
    requires selected.Some? ==> Acyclic(selected.value.nodes)
  {
    if selected.None? then map[] else LevelTable(selected.value.nodes, selected.value.rootNodeId)
  }

  /** `nodeMetrics`: the same traversal as the report's, run on the selected
      project. */
  method NodeMetricsOf(projects: seq<Project>, selectedProjectId: Option<string>)
    returns (t: map<string, Entry>)
    requires var sel := FindProject(projects, selectedProjectId); sel.Some? ==> Acyclic(sel.value.nodes)
    ensures t == SidebarTable(FindProject(projects, selectedProjectId))
  {
    var selected := FindProject(projects, selectedProjectId);
    if selected.None? {
      t := map[];
    } else {
      t := ComputeTable(selected.value.nodes, selected.value.rootNodeId);
    }
  }

  /** The table holds exactly the members reachable from the root, each with
      its own metrics; without a selection or a root it is empty. */
  lemma SidebarTableFacts(selected: Option<Project>)
    requires selected.Some? ==> Acyclic(selected.value.nodes)
    ensures var t := SidebarTable(selected);
      && (selected.None? || selected.value.rootNodeId == "" ==> t == map[])
      && (selected.Some? && selected.value.rootNodeId != "" ==>
            t.Keys == Reach(selected.value.nodes, selected.value.rootNodeId))
      && (forall x :: x in t ==> t[x].metrics == Compute(selected.value.nodes, x))
  {
    if selected.Some? {
      LevelTableFacts(selected.value.nodes, selected.value.rootNodeId);
    }
  }

  // -------------------------------------------------------------- search

  /** A member matches a query when its lower-cased name or member number
      contains the lower-cased query. */
  predicate Matches(node: OrgNode, query: string) {
    Contains(Lower(node.name), Lower(query)) || Contains(Lower(node.employeeId), Lower(query))
  }

  function MatchesQuery(query: string): OrgNode -> bool {
    (node: OrgNode) => Matches(node, query)
  }

  /** The search over a member list: a query that is blank after trimming
      keeps every member, any other query keeps the matching ones. The query
      is matched untrimmed. */
  function Search(all: seq<OrgNode>, query: string): (r: seq<OrgNode>)
  {
    if Trim(query) == [] then all else Filter(all, MatchesQuery(query))
  }

  /** `filteredNodes`: nothing without a selected project; with one, every
      member in key order for a blank query, and otherwise each matching
      member as often as it is listed and no other member. */
  function FilteredNodes(selected: Option<Project>, order: seq<string>, query: string): (r: seq<OrgNode>)
    requires selected.Some? ==> forall i :: 0 <= i < |order| ==> order[i] in selected.value.nodes
    ensures selected.None? ==> r == []
    ensures selected.Some? && IsBlank(query) ==> r == Values(selected.value.nodes, order)
    ensures selected.Some? && !IsBlank(query) ==>
      forall x :: multiset(r)[x] == if Matches(x, query) then multiset(Values(selected.value.nodes, order))[x] else 0
    ensures selected.Some? ==> r == Search(Values(selected.value.nodes, order), query)
  {
    if selected.None? then []
    else
      var all := Values(selected.value.nodes, order);
      assert forall x :: !IsBlank(query) ==>
        multiset(Search(all, query))[x] == if Matches(x, query) then multiset(all)[x] else 0
      by {
        forall x { SearchMembers(all, query, x); }
      }
      Search(all, query)
  }

  /** A blank query keeps every member; otherwise a member is kept exactly
      when it is listed and matches, as often as it is listed. */
  lemma SearchMembers(all: seq<OrgNode>, query: string, x: OrgNode)
    ensures IsBlank(query) ==> Search(all, query) == all
    ensures !IsBlank(query) ==> (x in Search(all, query) <==> x in all && Matches(x, query))
    ensures !IsBlank(query) ==> multiset(Search(all, query))[x] == if Matches(x, query) then multiset(all)[x] else 0
  {
    if !IsBlank(query) {
      FilterCount(all, MatchesQuery(query), x);
    }
  }

  /** The search keeps list order: searching a concatenation is
      concatenating the searches. */
  lemma SearchKeepsOrder(a: seq<OrgNode>, b: seq<OrgNode>, query: string)
    ensures Search(a + b, query) == Search(a, query) + Search(b, query)
  {
    if !IsBlank(query) {
      FilterAppend(a, b, MatchesQuery(query));
    }
  }

  /** The search ignores the case of the query's ASCII letters. */
  lemma SearchIgnoresCase(all: seq<OrgNode>, query: string)
    ensures Search(all, Lower(query)) == Search(all, query)
  {
    LowerKeepsBlank(query);
    LowerIdempotent(query);
    FilterSame(all, MatchesQuery(Lower(query)), MatchesQuery(query));
  }

  // -------------------------------------------------------------- rename

  /** The rename request handed to the project list. */
  datatype Rename = Rename(id: string, title: string)

  /** What `submitRename` hands on: the trimmed title, when it is not empty. */
  function RenameRequest(id: string, title: string): (r: Option<Rename>)
    ensures r.Some? <==> !IsBlank(title)
    ensures r.Some? ==> r.value.id == id && r.value.title == Trim(title)
  {
    if Trim(title) != [] then Some(Rename(id, Trim(title))) else None
  }

  /** A title handed on is not empty and trimming it again changes nothing. */
  lemma RenameRequestTrimmed(id: string, title: string)
    ensures var r := RenameRequest(id, title);
      r.Some? ==> r.value.title != [] && Trim(r.value.title) == r.value.title
  {
    TrimIdempotent(title);
  }

  /** The inline title editor. */
  class RenameEditor {
    var editingProjectId: Option<string>
    var tempTitle: string

    constructor()
      ensures editingProjectId == None && tempTitle == ""
    {
      editingProjectId := None;
      tempTitle := "";
    }

    /** `startRename`: edit the given project, starting from its title. */
    method StartRename(id: string, title: string)
      modifies this
      ensures editingProjectId == Some(id) && tempTitle == title
    {
      editingProjectId := Some(id);
      tempTitle := title;
    }

    /** `submitRename`: hands on the trimmed title when it is not blank, and
        leaves edit mode either way. */
    method SubmitRename(id: string) returns (request: Option<Rename>)
      modifies this
      ensures request == RenameRequest(id, old(tempTitle))
      ensures editingProjectId == None && tempTitle == old(tempTitle)
    {
      if Trim(tempTitle) != [] {
        request := Some(Rename(id, Trim(tempTitle)));
      } else {
        request := None;
      }
      editingProjectId := None;
    }
  }
}
