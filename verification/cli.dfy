/**
 The command-line script's `run`: the same composition as `execute`, fed by
 parsed flags whose start and end times fall back to a default working day.
 */
module Cli {
  import opened Results
  import Clock
  import Projects
  import Entry

  /** Default times when `--start` / `--end` are not given. */
  const DefaultStart: string := "08:00AM"
  const DefaultEnd: string := "04:30PM"

  /** The flags `run` reads; an absent time flag is `None`. */
  datatype Args = Args(description: string, start: Option<string>, end: Option<string>)

  /**
   `run`: `execute` on the flags. An explicit `--start` / `--end` is read as
   given; an absent one falls back to the default working day.
   */
  function Run(
    args: Args,
    workspaces: seq<Projects.Workspace>,
    listProjects: Option<Projects.Id> -> seq<Projects.Project>): (r: Result<Entry.TimeEntry, Error>)
    ensures Projects.GetCamundaProject(workspaces, listProjects).None? ==> r == Err(ProjectNotFound)
    ensures Projects.GetCamundaProject(workspaces, listProjects).Some? && r.Err? ==> r.error == InvalidTimeFormat
    ensures r.Ok? <==>
      && Projects.GetCamundaProject(workspaces, listProjects).Some?
      && Clock.GenerateDates(args.start.GetOr(DefaultStart), args.end.GetOr(DefaultEnd)).Ok?
    ensures r.Ok? ==>
      && Clock.ParseClock(args.start.GetOr(DefaultStart)) == Some(r.value.start)
      && Clock.ParseClock(args.end.GetOr(DefaultEnd)) == Some(r.value.stop)
    ensures r.Ok? ==>
      && !r.value.billable
      && r.value.description == args.description
      && r.value.pid == Projects.GetCamundaProject(workspaces, listProjects).value.id
      && r.value.start + r.value.duration == r.value.stop
    ensures args.start.None? ==> (r.Ok? ==> r.value.start == 8 * Clock.SecondsPerHour)
    ensures args.end.None? ==> (r.Ok? ==> r.value.stop == 16 * Clock.SecondsPerHour + 30 * 60)
  {
    Clock.EightAM(DefaultStart);
    DefaultEndReading(DefaultEnd);
    Entry.Execute(workspaces, listProjects, args.description,
                  args.start.GetOr(DefaultStart), args.end.GetOr(DefaultEnd))
  }

  /** The default end reads as 16:30. */
  lemma DefaultEndReading(end: string)
    requires end == DefaultEnd
    ensures Clock.ParseClock(end) == Some(59400)
  {
    assert end[5..] == "PM";
    assert end[..5][0] == '0' && end[..5][1] == '4' && end[..5][3] == '3' && end[..5][4] == '0';
    Clock.ParseClockWellFormed(end);
    assert Clock.TwoDigits(end[0], end[1]) == 4 && Clock.TwoDigits(end[3], end[4]) == 30;
    assert Clock.To24(4, Clock.PM) == 16;
  }

  /** The default working day, 08:00AM to 04:30PM, is 30600 seconds long. */
  lemma DefaultTimes(start: string, end: string)
    requires start == DefaultStart && end == DefaultEnd
    ensures Clock.GenerateDates(start, end) == Ok(Clock.TimeWindow(28800, 59400, 30600))
  {
    Clock.EightAM(start);
    DefaultEndReading(end);
  }

  /** Without time flags, and with the project found, the entry spans the default 30600 seconds. */
  lemma DefaultRun(
    args: Args,
    workspaces: seq<Projects.Workspace>,
    listProjects: Option<Projects.Id> -> seq<Projects.Project>)
    requires args.start.None? && args.end.None?
    requires Projects.GetCamundaProject(workspaces, listProjects).Some?
    ensures Run(args, workspaces, listProjects).Ok?
    ensures Run(args, workspaces, listProjects).value.duration == 30600
  {
    DefaultTimes(DefaultStart, DefaultEnd);
  }

  /** With both time flags given, `run` is `execute` on exactly those times; the defaults play no part. */
  lemma ExplicitFlags(
    args: Args,
    workspaces: seq<Projects.Workspace>,
    listProjects: Option<Projects.Id> -> seq<Projects.Project>)
    requires args.start.Some? && args.end.Some?
    ensures Run(args, workspaces, listProjects)
      == Entry.Execute(workspaces, listProjects, args.description, args.start.value, args.end.value)
  {
  }
}
