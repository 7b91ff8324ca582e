# camunda-toggl domain logic in Dafny

camunda-toggl is a small command-line helper that files one time entry in
Toggl under the project named "Camunda". Its logic lives in
`lib/core/index.js` (the library: `execute`, `getLatestDescriptions`). The
script `lib/index.js` repeats most of that library nearly line for line
(`run`, with default start and end times). This project models that logic:

- **Clock time and duration** (`clock.dfy`, with `text.dfy`). `isAM`
  classifies a raw time string as AM when it contains "AM" and as PM
  otherwise. `getHourFrom` strips the first occurrence of that marker. The
  remaining `hh:mm` fragment is read on a 12-hour clock. `generateDates`
  returns both instants and the signed duration, end minus start, in seconds.
  Both instants lie on the current day, so a time is modelled as seconds
  since midnight.
- **Description history** (`history.dfy`). `removeDuplicates` (lodash
  `uniqBy` keyed on the description) keeps the first entry of each
  description in fetch order. `getLatestDescriptions` then maps the entries to
  their descriptions and applies `slice(0, limit)`. An absent or zero limit
  becomes 5.
- **Project resolution** (`projects.dfy`). `workspaces[0] || {}` selects the
  workspace. `_.find` then returns the first of its projects whose name is
  exactly "Camunda", or `undefined`.
- **Entry composition** (`entry.dfy`, `cli.dfy`). `execute` and `run` build
  the `createTimeEntry` payload: `billable: false`, the project id, the given
  description, and the window's start, stop and duration. If no project was
  found, reading `project.id` throws inside the Promise executor. The call
  then rejects before anything is submitted. The model writes this rejection
  as `Err(ProjectNotFound)`.

`results.dfy` holds the shared `Option`, `Result` and `Error` types.

The service calls become inputs. The workspace list is a sequence. The
project listing is a function from the selected workspace's id (absent for
the `{}` placeholder) to a sequence of projects. The fetched history is a
sequence of entries. The service's stub echoes the payload it is given, so
the model returns the payload as the created entry.

The copies in `lib/index.js` are modelled by the same members as their
library originals:

- `isAM` (lib/index.js:208-210): `Clock.IsAM`
- `getHourFrom` (lib/index.js:219-221): `Clock.GetHourFrom`, characterised by `Text.RemoveFirstSpec`
- `generateDates` (lib/index.js:131-159): `Clock.GenerateDates`
- `getWorkspace` / `getCamundaProject` (lib/index.js:62-122):
  `Projects.GetCamundaProject`

Two behaviours of the code deserve a note:

- **Limit.** A limit of 0 is falsy and becomes 5. A negative limit goes to
  `slice(0, limit)`, which drops that many elements from the end.
  `History.LatestDescriptions` states both behaviours.
- **Missing project.** When no project is found, the missing project surfaces
  as a TypeError rejection before anything is submitted. The model gives that
  rejection the name `ProjectNotFound`.

The model adds one rejection the code does not have. A string whose
fragment, after the marker is stripped, is not a two-digit `hh:mm` with hour
01-12 and minute 00-59 gives `InvalidTimeFormat`. A string with no marker, or
with the marker elsewhere than at the end, is still read when the stripped
fragment has that form (`08:00` reads as `08:00PM`). For a rejected fragment,
moment either reads it leniently (`9:00AM` as 09:00) and the entry is filed,
or gives an Invalid Date and a NaN duration (see "## Left out").

## Model

| member | source | states |
|---|---|---|
| Clock.MeridiemOf | lib/core/index.js:90-95 | the marker chosen for a raw string is AM exactly when `isAM` holds, and PM for every other string |
| Clock.GetHourFrom | lib/core/index.js:243-245 | the raw string without the chosen marker's first occurrence: unchanged when the marker is absent, otherwise two characters shorter, and putting the marker back at its first occurrence restores the raw string |
| Clock.IsAM | lib/core/index.js:232-234 | a string is AM exactly when "AM" occurs in it as a substring at some index; every other string, malformed ones included, is PM |
| Text.IndexOf | lib/core/index.js:243-245 | the search both `includes` and `replace` rely on: finds an occurrence exactly when one exists, and the index returned is an occurrence with none before it |
| Text.RemoveFirstSpec | lib/core/index.js:243-245 | `getHourFrom` leaves the string unchanged when the marker is absent; otherwise it is shorter by the marker's length, putting the marker back at the first-occurrence index restores the input (so every other character stays, in order), and no earlier index held the marker |
| Clock.ParseFragment | lib/core/index.js:92 | the fragment is accepted exactly when it is `hh:mm` with hour 01-12 and minute 00-59, and the reading then has a clock hour 1-12 and minutes below 60 |
| Clock.ParseFragmentRoundTrip | lib/core/index.js:92 | writing back the reading of an accepted fragment gives the fragment, so the reading keeps every digit |
| Clock.To24 | lib/core/index.js:92 | the 12-hour convention: the hour of the day agrees with the clock hour modulo 12 and is before noon exactly for AM (12AM is 0, 12PM is 12, other PM hours add 12) |
| Clock.To24Unique | lib/core/index.js:92 | those three facts leave only one possible hour of the day |
| Clock.SecondOfDay | lib/core/index.js:92 | a reading falls inside the day on a whole minute, and its hour and minute can be read back from the seconds |
| Clock.ParseClock | lib/core/index.js:90-92 | one raw string yields a time exactly when the fragment left after stripping the detected marker is well formed; that time is a whole minute inside the day |
| Clock.ParseClockWellFormed | lib/core/index.js:90-92 | for `hh:mmAM` / `hh:mmPM` the detected marker is the suffix, the stripped fragment is exactly `hh:mm`, and the time is the written hour on the 12-hour convention times 3600 plus minutes times 60 |
| Clock.ParseClockMeaning | lib/core/index.js:95-97 | for `hh:mmAM` / `hh:mmPM` the time lies before noon exactly for AM, its hour agrees with the written hour modulo 12, and its minutes are the written minutes |
| Clock.ParseClockMeaningAll | lib/core/index.js:90-92 | for every accepted string, wherever the marker sits, the fragment left after removing it is well formed and the time is its hour on the 12-hour convention (AM exactly when `isAM` holds) times 3600 plus its minutes times 60: before noon exactly for AM, hour agreeing modulo 12, minutes as written |
| Clock.LeadingMarker | lib/core/index.js:90-92 | a marker in front still counts: "AM08:00" reads as 28800 seconds, 08:00 AM |
| Clock.NoMarkerMeansPM | lib/core/index.js:90-91 | a well-formed `hh:mm` with no marker at all is classified PM and reads the same as `hh:mmPM` |
| Clock.ParseFormat | lib/core/index.js:95-97 | every whole-minute time of day, written as `hh:mmAM`/`hh:mmPM`, reads back as itself |
| Clock.FormatParse | lib/core/index.js:90-92 | every well-formed raw string is read and then written back unchanged, so the reading loses nothing |
| Clock.GenerateDates | lib/core/index.js:80-108 | a window exists exactly when both strings read; otherwise the failure is InvalidTimeFormat; start plus duration is end, and the duration stays strictly within one day either way, with no wrap past midnight |
| Clock.DurationOfWellFormed | lib/core/index.js:100 | for well-formed input the duration is (end hour x 3600 + end minutes x 60) minus the same for start, on the 24-hour readings |
| Clock.DurationZero | lib/core/index.js:100 | equal start and end give duration 0 |
| Clock.DurationSign | lib/core/index.js:100 | the duration is negative exactly when end is earlier than start, and zero exactly when they coincide |
| Clock.DurationAdditive | lib/core/index.js:100 | swapping start and end negates the duration, and the durations of two chained windows add up |
| Clock.EightAM | lib/index.js:19 | the default start "08:00AM" reads as 28800 seconds after midnight |
| Clock.FourPM | test/core.test.js:21-22 | "04:00PM" reads as 57600 seconds after midnight |
| Clock.EightHourDay | test/core.test.js:19-23 | 08:00AM to 04:00PM gives a window of 28800 seconds |
| History.UniqFrom | lib/core/index.js:263-267 | the left-to-right walk keeps only entries of the input, never two with one description, and covers every description not seen before |
| History.RemoveDuplicates | lib/core/index.js:263-267 | the deduplicated list has no repeated description, has the same set of descriptions as the input, and contains only input entries |
| History.RemoveDuplicatesIsFirstOccurrences | lib/core/index.js:170-171 | the deduplicated list equals the independently defined list of entries whose description does not occur earlier, in input order |
| History.RemoveDuplicatesIdempotent | lib/core/index.js:263-267 | deduplicating twice gives the same list as deduplicating once |
| History.Descriptions | lib/core/index.js:172 | the mapped list has one description per entry, position for position |
| History.EffectiveLimit | lib/core/index.js:155-157 | the limit handed to `slice` is never 0: an absent or zero (falsy) limit becomes 5, and any other integer limit is kept as given |
| History.SliceEnd | lib/core/index.js:173 | `slice(0, limit)` never reaches past the end of the list |
| History.LatestDescriptions | lib/core/index.js:145-177 | the suggestions are a prefix of the distinct-description list, hold no repeated string, and hold only descriptions from the input; with a non-negative limit the length is the smaller of the limit and the number of distinct descriptions, and with a negative one it is that number minus the limit's magnitude, floored at 0 |
| History.SuggestionsBounded | lib/core/index.js:155-157 | a positive limit bounds the suggestions; an absent or zero limit behaves as limit 5 |
| History.FooBarSuggestions | test/mocks/toggl.mock.js:21-30 | the stub's entries `foo`, `bar` give `['foo','bar']` with no limit and `['foo']` with limit 1 |
| History.RepeatedSuggestion | lib/core/index.js:170-173 | entries described `a`, `a`, `b` give `['a','b']` |
| Projects.SelectWorkspace | lib/core/index.js:23 | a workspace id is selected exactly when the list is non-empty, and it is the first workspace's |
| Projects.FindIndex | lib/core/index.js:70 | the index found holds a project with the exact name and no earlier project has it; none is found only when no project has it |
| Projects.Find | lib/core/index.js:70 | `_.find` returns undefined exactly when no project has the name; otherwise it returns the project at the first index holding that name |
| Projects.GetCamundaProject | lib/core/index.js:60-71 | the project found is named exactly "Camunda" and is the first such project listed for the selected workspace; none is found exactly when that listing has no such project |
| Projects.OnlyFirstWorkspaceConsulted | lib/core/index.js:66-67 | only the first workspace's projects matter: listings that agree on it give the same project, whatever they say about other workspaces |
| Projects.FirstMatchWins | lib/core/index.js:70 | of two projects named "Camunda", the later one is never chosen |
| Projects.StubResolution | test/mocks/toggl.mock.js:4-15 | workspace "1" with the single project "1" named "Camunda" resolves to that project |
| Entry.Execute | lib/core/index.js:179-216 | a missing project rejects (ProjectNotFound) whatever the times; otherwise the entry exists exactly when both times read, and the only failure left is InvalidTimeFormat; the entry is not billable, carries the description unchanged, the resolved project's id, the two readings as start and stop, and their difference as duration |
| Entry.StubScenario | test/core.test.js:16-33 | the test scenario (description "test", 08:00AM to 04:00PM, stub workspace and project) gives a non-billable entry for project "1" with description "test" and duration 28800 |
| Entry.ZeroLengthEntry | lib/core/index.js:193-207 | equal start and end still produce an entry, of duration 0, when the project resolves |
| Cli.Run | lib/index.js:161-198 | `run` produces an entry exactly when the project is found and both times read, each time being the flag's when given and the default otherwise; the entry's start and stop are those readings; it is non-billable, carries the flag's description and the project's id; a missing project rejects with ProjectNotFound, and with the project found the only failure is InvalidTimeFormat; absent time flags give start 08:00 and stop 16:30 |
| Cli.ExplicitFlags | lib/index.js:172-188 | with both `--start` and `--end` given, `run` is `execute` on exactly those times |
| Cli.DefaultEndReading | lib/index.js:17 | the default end "04:30PM" reads as 59400 seconds after midnight |
| Cli.DefaultTimes | lib/index.js:15-20 | the default times span 30600 seconds |
| Cli.DefaultRun | lib/index.js:161-178 | without time flags, and with the project found, the entry lasts 30600 seconds |

## Left out

- The Toggl HTTP client, the callback-to-Promise wrappers and the service's errors are not modelled. The model takes the workspace list, the project listing and the fetched history as inputs. In the code, an error callback calls `reject` and then goes on to `resolve`. That path is asynchronous I/O and is not modelled.
- The current date, time zones, DST, `toIso` and the one-month history window are left out. They come from the system clock and from moment. Times are seconds since midnight of one implicit day.
- Clock.GenerateDates: fails with `InvalidTimeFormat` when a stripped fragment is not a two-digit `hh:mm` with hour 01-12. The code never fails here: moment either reads the fragment leniently (`9:00AM` as 09:00) or gives Invalid Date instants, and then `diff` gives a NaN duration (lib/core/index.js:92-100). Neither lenient reading nor Invalid Date and NaN is modelled.
- Entry.Execute: rejects with `InvalidTimeFormat` when a stripped fragment is not a two-digit `hh:mm` with hour 01-12. The code still calls `createTimeEntry` (lib/core/index.js:199-207): with a normal entry when moment reads the fragment leniently, and with Invalid Date bounds and a NaN duration otherwise. Neither submission is modelled.
- History.RemoveDuplicates: every entry carries a string description. Toggl entries without one are not modelled. In the code, `uniqBy` keeps the first such entry under the key `undefined`, and the suggestions then hold `undefined` (lib/core/index.js:170-173).
- Clock.ParseFragment: accepts only `hh:mm` with two-digit hours 01-12 and two-digit minutes 00-59. moment's lenient parsing of other fragments is not modelled: one-digit hours, hours 00 or 13-23, stray characters. moment may accept such a fragment or produce an Invalid Date and a NaN duration. The model returns `InvalidTimeFormat` for all of them.
- History.LatestDescriptions: takes the limit as an optional integer. Non-integer limits are not modelled: fractions, NaN, strings. JavaScript would coerce them in `slice`.
- Cli.Run: inherits the `InvalidTimeFormat` rejection of `Entry.Execute` for a flag or default time whose stripped fragment is not a two-digit `hh:mm` with hour 01-12; the script still calls `createTimeEntry` in that case (lib/index.js:182-189). It also takes the description as a string. The case where `-d` is absent and `description` is `undefined` is not modelled.
- The CLI glue in lib/index.js:7-52 is not modelled: `mri` argument parsing, help text, the API-token check, `console` output and `process.exit`.
- The entry the service returns is taken to be the payload it was given, as the test stub echoes it. Fields the real service adds are not modelled.
