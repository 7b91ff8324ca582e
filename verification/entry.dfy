/**
 Entry composition: resolve the project, resolve the time window, and build
 the payload handed to the service's entry creation. The service echoes the
 payload back as the created entry, so the payload is what the caller sees.
 */
module Entry {
  import opened Results
  import Clock
  import Projects

  /** The `createTimeEntry` payload; `start` and `stop` are seconds since midnight. */
  datatype TimeEntry = TimeEntry(
    billable: bool,
    description: string,
    duration: int,
    pid: Projects.Id,
    start: nat,
    stop: nat)

  /**
   `execute`: the project is resolved first; when there is none, reading its
   id rejects the call before any entry is submitted. Otherwise the window is
   resolved and the payload is a non-billable entry for the resolved project
   with the given description and the window's bounds and duration.
   */
  function Execute(
    workspaces: seq<Projects.Workspace>,
    listProjects: Option<Projects.Id> -> seq<Projects.Project>,
    description: string,
    start: string,
    end: string): (r: Result<TimeEntry, Error>)
    ensures Projects.GetCamundaProject(workspaces, listProjects).None? ==> r == Err(ProjectNotFound)
    ensures r.Ok? <==>
      Projects.GetCamundaProject(workspaces, listProjects).Some? && Clock.GenerateDates(start, end).Ok?
    ensures r.Err? ==> r.error == ProjectNotFound || r.error == InvalidTimeFormat
    ensures Projects.GetCamundaProject(workspaces, listProjects).Some? && r.Err? ==> r.error == InvalidTimeFormat
    ensures r.Ok? ==>
      && !r.value.billable
      && r.value.description == description
      && r.value.pid == Projects.GetCamundaProject(workspaces, listProjects).value.id
      && Clock.ParseClock(start) == Some(r.value.start)
      && Clock.ParseClock(end) == Some(r.value.stop)
      && r.value.start + r.value.duration == r.value.stop
  {
    match Projects.GetCamundaProject(workspaces, listProjects)
    case None => Err(ProjectNotFound)
    case Some(project) =>
      match Clock.GenerateDates(start, end)
      case Err(e) => Err(e)
      case Ok(w) => Ok(TimeEntry(false, description, w.duration, project.id, w.start, w.end))
  }

  /**
   The service stub's scenario: description "test" from 08:00AM to 04:00PM
   for the single "Camunda" project gives an eight-hour entry for project "1"
   that carries the description unchanged.
   */
  lemma StubScenario(
    workspaces: seq<Projects.Workspace>,
    listProjects: Option<Projects.Id> -> seq<Projects.Project>,
    start: string,
    end: string)
    requires workspaces == [Projects.Workspace("1")]
    requires forall w :: listProjects(w) == [Projects.Project("1", "Camunda")]
    requires start == "08:00AM" && end == "04:00PM"
    ensures Execute(workspaces, listProjects, "test", start, end)
      == Ok(TimeEntry(false, "test", 28800, "1", 28800, 57600))
  {
    Projects.StubResolution(workspaces, listProjects);
    Clock.EightHourDay(start, end);
  }

  /** Equal start and end still produce an entry, of zero duration, when the project resolves. */
  lemma ZeroLengthEntry(
    workspaces: seq<Projects.Workspace>,
    listProjects: Option<Projects.Id> -> seq<Projects.Project>,
    description: string,
    t: string)
    requires Projects.GetCamundaProject(workspaces, listProjects).Some?
    requires Clock.ParseClock(t).Some?
    ensures Execute(workspaces, listProjects, description, t, t).Ok?
    ensures Execute(workspaces, listProjects, description, t, t).value.duration == 0
  {
  }
}
