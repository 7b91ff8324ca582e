/**
 Project resolution: the first workspace of the user (or an empty placeholder
 when there is none), the projects the service lists for it, and the first of
 those whose name is exactly the required one.
 */
module Projects {
  import opened Results

  /** The service's opaque identifiers. */
  type Id = string

  datatype Workspace = Workspace(id: Id)
  datatype Project = Project(id: Id, name: string)

  /** The project every entry is filed under. */
  const CamundaName: string := "Camunda"

  /**
   `workspaces[0] || {}`, reduced to what is used of it: the id handed to the
   project listing. `None` is the placeholder `{}`, whose id is undefined.
   */
  function SelectWorkspace(workspaces: seq<Workspace>): (r: Option<Id>)
    ensures r.Some? <==> |workspaces| > 0
    ensures r.Some? ==> r.value == workspaces[0].id
  {
    if |workspaces| > 0 then Some(workspaces[0].id) else None
  }

  /** No project before index `i` carries `name`. */
  predicate NoMatchBefore(projects: seq<Project>, name: string, i: int)
    requires i <= |projects|
  {
    forall j :: 0 <= j < i ==> projects[j].name != name
  }

  /** The position of the first project named exactly `name`. */
  function FindIndex(projects: seq<Project>, name: string): (r: Option<nat>)
    ensures r.Some? ==> r.value < |projects| && projects[r.value].name == name
    ensures r.Some? ==> NoMatchBefore(projects, name, r.value)
    ensures r.None? ==> NoMatchBefore(projects, name, |projects|)
    decreases |projects|
  {
    if |projects| == 0 then None
    else if projects[0].name == name then Some(0)
    else
      match FindIndex(projects[1..], name)
      case None => None
      case Some(i) => Some(i + 1)
  }

  /**
   `_.find(projects, p => p.name === name)`: the first project whose name is
   exactly `name`, or undefined when none is.
   */
  function Find(projects: seq<Project>, name: string): (r: Option<Project>)
    ensures r.None? <==> forall p :: p in projects ==> p.name != name
    ensures r.Some? ==> r.value.name == name
    ensures r.Some? ==> exists i :: 0 <= i < |projects| && projects[i] == r.value && NoMatchBefore(projects, name, i)
  {
    match FindIndex(projects, name)
    case None => None
    case Some(i) => Some(projects[i])
  }

  /**
   `getCamundaProject`: the projects listed for the selected workspace, and
   the first of them named exactly "Camunda". `listProjects` is the service's
   project listing, given the selected workspace's id.
   */
  function GetCamundaProject(workspaces: seq<Workspace>, listProjects: Option<Id> -> seq<Project>): (r: Option<Project>)
    ensures r.None? <==> forall p :: p in listProjects(SelectWorkspace(workspaces)) ==> p.name != CamundaName
    ensures r.Some? ==> r.value.name == CamundaName && r.value in listProjects(SelectWorkspace(workspaces))
    ensures var listed := listProjects(SelectWorkspace(workspaces));
      r.Some? ==> exists i :: 0 <= i < |listed| && listed[i] == r.value && NoMatchBefore(listed, CamundaName, i)
  {
    Find(listProjects(SelectWorkspace(workspaces)), CamundaName)
  }

  /**
   Only the first workspace is consulted: two project listings that agree on
   it give the same answer, whatever they say about other workspaces.
   */
  lemma OnlyFirstWorkspaceConsulted(workspaces: seq<Workspace>, a: Option<Id> -> seq<Project>, b: Option<Id> -> seq<Project>)
    requires a(SelectWorkspace(workspaces)) == b(SelectWorkspace(workspaces))
    ensures GetCamundaProject(workspaces, a) == GetCamundaProject(workspaces, b)
  {
  }

  /** A project named "Camunda" that follows another one of that name is never chosen. */
  lemma FirstMatchWins(projects: seq<Project>, i: nat, j: nat)
    requires i < j < |projects|
    requires projects[i].name == CamundaName && projects[j].name == CamundaName
    ensures FindIndex(projects, CamundaName).Some?
    ensures FindIndex(projects, CamundaName).value <= i
  {
  }

  /** The service stub: workspace "1" holding project "1" named "Camunda" resolves to that project. */
  lemma StubResolution(workspaces: seq<Workspace>, listProjects: Option<Id> -> seq<Project>)
    requires workspaces == [Workspace("1")]
    requires forall w :: listProjects(w) == [Project("1", "Camunda")]
    ensures GetCamundaProject(workspaces, listProjects) == Some(Project("1", "Camunda"))
  {
  }
}
