/** The project list of the application shell: creating a project that holds
    a single root member, deleting, renaming and replacing projects, and the
    selected project id that follows these edits. */
module App {
  import opened Types
  import opened Seqs
  import opened Text
  import opened Tree
  import opened Metrics

  // ------------------------------------------------------------- lookups

  /** `projects.find(p => p.id === selectedProjectId)`: the first project
      with the selected id; nothing when no id is selected. */
  function FindProject(projects: seq<Project>, selected: Option<string>): (r: Option<Project>)
    ensures r.Some? <==> selected.Some? && exists i :: 0 <= i < |projects| && projects[i].id == selected.value
    ensures r.Some? ==> r.value in projects && r.value.id == selected.value
  {
    if selected.None? || projects == [] then None
    else if projects[0].id == selected.value then Some(projects[0])
    else
      var r := FindProject(projects[1..], selected);
      assert forall i :: 1 <= i < |projects| ==> projects[i] == projects[1..][i - 1];
      r
  }

  /** The project found is the one at the first position holding the id:
      every project before it has another id. */
  lemma {:induction false} FindFirst(projects: seq<Project>, selected: Option<string>)
    ensures var r := FindProject(projects, selected);
      r.Some? ==> exists i :: (0 <= i < |projects| && projects[i] == r.value
        && forall j :: 0 <= j < i ==> projects[j].id != selected.value)
  {
    if selected.Some? && projects != [] && projects[0].id != selected.value {
      FindFirst(projects[1..], selected);
      var r := FindProject(projects[1..], selected);
      if r.Some? {
        var i :| 0 <= i < |projects[1..]| && projects[1..][i] == r.value
          && forall j :: 0 <= j < i ==> projects[1..][j].id != selected.value;
        forall j | 0 <= j < i + 1 ensures projects[j].id != selected.value {
          if j > 0 { assert projects[j] == projects[1..][j - 1]; }
        }
        assert projects[i + 1] == r.value;
      }
    }
  }

  /** No two projects share an id. */
  predicate DistinctProjectIds(projects: seq<Project>) {
    forall i, j :: 0 <= i < j < |projects| ==> projects[i].id != projects[j].id
  }

  /** With distinct ids, the project found under an id is the one at its
      position. */
  lemma {:induction false} FindAt(projects: seq<Project>, i: nat)
    requires DistinctProjectIds(projects) && i < |projects|
    ensures FindProject(projects, Some(projects[i].id)) == Some(projects[i])
  {
    if i > 0 {
      assert DistinctProjectIds(projects[1..]);
      FindAt(projects[1..], i - 1);
    }
  }

  // -------------------------------------------------------------- create

  /** The name and member number of a new project's root member. */
  const RootName := "대표이사"
  const RootEmployeeId := "CEO-01"

  /** The root member of a new project: no value, no children, no parent. */
  function RootNode(rootId: string): OrgNode {
    OrgNode(rootId, RootName, RootEmployeeId, 0.0, [], None)
  }

  /** The project `createProject` appends when `count` projects exist,
      titled with the new count; fresh project and root ids and the creation
      time are supplied by the caller. */
  function NewProject(projectId: string, rootId: string, count: nat, createdAt: int): (p: Project)
    ensures p.id == projectId && p.rootNodeId == rootId && p.createdAt == createdAt
    ensures p.title == "신규 팀 " + NatToString(count + 1)
    ensures p.nodes.Keys == {rootId} && p.nodes[rootId] == RootNode(rootId)
  {
    Project(projectId, "신규 팀 " + NatToString(count + 1), rootId, map[rootId := RootNode(rootId)], createdAt)
  }

  /** A new project is a one-member tree whose root has no value, no rank and
      no children total, at level 0. */
  lemma NewProjectTree(projectId: string, rootId: string, count: nat, createdAt: int)
    ensures var p := NewProject(projectId, rootId, count, createdAt);
      && Acyclic(p.nodes) && UniqueParents(p.nodes) && IdsMatch(p.nodes)
      && Reach(p.nodes, rootId) == {rootId}
      && Compute(p.nodes, rootId) == NodeMetrics(0.0, 0.0, 0, 0)
      && (rootId != "" ==> LevelTable(p.nodes, rootId) == map[rootId := Entry(0, NodeMetrics(0.0, 0.0, 0, 0))])
  {
    var nodes := NewProject(projectId, rootId, count, createdAt).nodes;
    assert Ranks(nodes, map[rootId := 0]);
    LeafMetrics(nodes, rootId);
    LevelTableFacts(nodes, rootId);
    if rootId != "" {
      TallyStartLevel(nodes, rootId, 0, map[]);
      var t := LevelTable(nodes, rootId);
      assert t.Keys == {rootId};
    }
  }

  // -------------------------------------------------------------- delete

  function IdIsNot(id: string): Project -> bool {
    (p: Project) => p.id != id
  }

  /** `prev.filter(p => p.id !== id)`. */
  function WithoutProject(projects: seq<Project>, id: string): (r: seq<Project>)
  {
    Filter(projects, IdIsNot(id))
  }

  /** Deleting removes exactly the projects with that id, keeps the others in
      their order and with their multiplicity, and leaves none to find under
      that id. */
  lemma WithoutProjectFacts(projects: seq<Project>, id: string, x: Project)
    ensures var r := WithoutProject(projects, id);
      && (x in r <==> x in projects && x.id != id)
      && multiset(r)[x] == (if x.id == id then 0 else multiset(projects)[x])
      && FindProject(r, Some(id)).None?
  {
    FilterCount(projects, IdIsNot(id), x);
  }

  /** Deleting keeps the remaining ids distinct. */
  lemma {:induction false} WithoutProjectDistinct(projects: seq<Project>, id: string)
    requires DistinctProjectIds(projects)
    ensures DistinctProjectIds(WithoutProject(projects, id))
  {
    if projects != [] {
      var tail := projects[1..];
      assert DistinctProjectIds(tail);
      WithoutProjectDistinct(tail, id);
      var rest := WithoutProject(tail, id);
      forall i | 0 <= i < |rest| ensures rest[i].id != projects[0].id {
        var k :| 0 <= k < |tail| && tail[k] == rest[i];
        assert tail[k] == projects[k + 1];
      }
    }
  }

  /** Deleting a project right after creating it gives back the list as it
      was, provided the new id was fresh. */
  lemma DeleteUndoesCreate(projects: seq<Project>, projectId: string, rootId: string, createdAt: int)
    requires forall i :: 0 <= i < |projects| ==> projects[i].id != projectId
    ensures WithoutProject(projects + [NewProject(projectId, rootId, |projects|, createdAt)], projectId) == projects
  {
    var p := NewProject(projectId, rootId, |projects|, createdAt);
    FilterAppend(projects, [p], IdIsNot(projectId));
    FilterKeepsAll(projects, IdIsNot(projectId));
    assert [p][1..] == [];
  }

  // -------------------------------------------------------- rename, update

  /** `prev.map(p => p.id === id ? { ...p, title: newTitle } : p)`. */
  function Renamed(projects: seq<Project>, id: string, title: string): (r: seq<Project>)
    ensures |r| == |projects|
    ensures forall i :: 0 <= i < |projects| ==>
      r[i] == if projects[i].id == id then projects[i].(title := title) else projects[i]
  {
    seq(|projects|, i requires 0 <= i < |projects| =>
      if projects[i].id == id then projects[i].(title := title) else projects[i])
  }

  /** `prev.map(p => p.id === updated.id ? updated : p)`. */
  function Replaced(projects: seq<Project>, updated: Project): (r: seq<Project>)
    ensures |r| == |projects|
    ensures forall i :: 0 <= i < |projects| ==>
      r[i] == if projects[i].id == updated.id then updated else projects[i]
  {
    seq(|projects|, i requires 0 <= i < |projects| =>
      if projects[i].id == updated.id then updated else projects[i])
  }

  /** Renaming changes nothing but titles, only those of the matching
      projects, and keeps every id in place; renaming twice to the same title
      is renaming once. */
  lemma RenamedFacts(projects: seq<Project>, id: string, title: string)
    ensures var r := Renamed(projects, id, title);
      && (forall i :: 0 <= i < |r| ==> r[i].id == projects[i].id && r[i].rootNodeId == projects[i].rootNodeId
                                       && r[i].nodes == projects[i].nodes && r[i].createdAt == projects[i].createdAt)
      && (forall i :: 0 <= i < |r| && projects[i].id == id ==> r[i].title == title)
      && (forall i :: 0 <= i < |r| && projects[i].id != id ==> r[i] == projects[i])
      && Renamed(r, id, title) == r
  {
  }

  /** With distinct ids, renaming is replacing the project under that id by
      its renamed copy, and the renamed project is what is found there. */
  lemma RenameIsReplace(projects: seq<Project>, i: nat, title: string)
    requires DistinctProjectIds(projects) && i < |projects|
    ensures var id := projects[i].id;
      && Renamed(projects, id, title) == Replaced(projects, projects[i].(title := title))
      && FindProject(Renamed(projects, id, title), Some(id)) == Some(projects[i].(title := title))
  {
    var id := projects[i].id;
    var r := Renamed(projects, id, title);
    assert DistinctProjectIds(r);
    assert r[i] == projects[i].(title := title);
    FindAt(r, i);
  }

  /** Replacing keeps the list's length and ids, puts the update where its id
      was, and replacing twice with the same project is replacing once. */
  lemma ReplacedFacts(projects: seq<Project>, updated: Project)
    ensures var r := Replaced(projects, updated);
      && (forall i :: 0 <= i < |r| ==> r[i].id == projects[i].id)
      && (DistinctProjectIds(projects) ==> DistinctProjectIds(r))
      && Replaced(r, updated) == r
      && (FindProject(projects, Some(updated.id)).Some? ==> FindProject(r, Some(updated.id)) == Some(updated))
      && (FindProject(projects, Some(updated.id)).None? ==> r == projects)
  {
    var r := Replaced(projects, updated);
    if FindProject(projects, Some(updated.id)).Some? {
      ReplacedFind(projects, updated);
    } else {
      assert forall i :: 0 <= i < |projects| ==> projects[i].id != updated.id;
    }
  }

  lemma {:induction false} ReplacedFind(projects: seq<Project>, updated: Project)
    requires FindProject(projects, Some(updated.id)).Some?
    ensures FindProject(Replaced(projects, updated), Some(updated.id)) == Some(updated)
  {
    var r := Replaced(projects, updated);
    if projects[0].id != updated.id {
      ReplacedFind(projects[1..], updated);
      assert r[1..] == Replaced(projects[1..], updated);
    }
  }

  // ------------------------------------------------------------ the state

  /** The project list and the selection held by the application shell. */
  class Workspace {
    var projects: seq<Project>
    var selectedProjectId: Option<string>

    /** Project ids are distinct and a selection names a listed project. */
    ghost predicate Valid()
      reads this
    {
      && DistinctProjectIds(projects)
      && (selectedProjectId.Some? ==> FindProject(projects, selectedProjectId).Some?)
    }

    constructor()
      ensures projects == [] && selectedProjectId == None
      ensures Valid()
    {
      projects := [];
      selectedProjectId := None;
    }

    /** `createProject`: appends a one-member project under a fresh id and
        selects it. */
    method CreateProject(projectId: string, rootId: string, createdAt: int)
      requires Valid()
      requires forall i :: 0 <= i < |projects| ==> projects[i].id != projectId
      modifies this
      ensures projects == old(projects) + [NewProject(projectId, rootId, |old(projects)|, createdAt)]
      ensures selectedProjectId == Some(projectId)
      ensures Valid()
      ensures FindProject(projects, selectedProjectId) == Some(NewProject(projectId, rootId, |old(projects)|, createdAt))
    {
      var p := NewProject(projectId, rootId, |projects|, createdAt);
      projects := projects + [p];
      selectedProjectId := Some(projectId);
      FindAt(projects, |projects| - 1);
    }

    /** `deleteProject`: drops the projects with that id; the selection is
        cleared exactly when it named that id. */
    method DeleteProject(id: string)
      requires Valid()
      modifies this
      ensures projects == WithoutProject(old(projects), id)
      ensures selectedProjectId == if old(selectedProjectId) == Some(id) then None else old(selectedProjectId)
      ensures Valid()
    {
      ghost var before := projects;
      projects := WithoutProject(projects, id);
      if selectedProjectId == Some(id) {
        selectedProjectId := None;
      }
      WithoutProjectDistinct(before, id);
      if selectedProjectId.Some? {
        var p := FindProject(before, selectedProjectId).value;
        WithoutProjectFacts(before, id, p);
      }
    }

    /** `renameProject`: retitles the project with that id. */
    method RenameProject(id: string, title: string)
      requires Valid()
      modifies this
      ensures projects == Renamed(old(projects), id, title)
      ensures selectedProjectId == old(selectedProjectId)
      ensures Valid()
    {
      RenamedFacts(projects, id, title);
      projects := Renamed(projects, id, title);
    }

    /** `updateProject`: replaces the project with the update's id. */
    method UpdateProject(updated: Project)
      requires Valid()
      modifies this
      ensures projects == Replaced(old(projects), updated)
      ensures selectedProjectId == old(selectedProjectId)
      ensures Valid()
    {
      ReplacedFacts(projects, updated);
      projects := Replaced(projects, updated);
    }
  }
}
