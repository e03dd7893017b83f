# PoolTracker core, modelled in Dafny

PoolTracker runs a municipal swimming pool. Its back end holds one pool-status
record: the live head count, the capacity and the open/closed flag. It also
keeps a per-day visitor counter and a registry of staff. Each staff member has
a business key (`W0001`, `W0002`, ...), and the back end records the shifts
they start and end. This project models that core as pure functions over
immutable values and proves properties of it.

The modules follow the services of the program:

- `Common`: `Option`, `Result` and the C# `int` range with its wrap-around.
  Also the representation of time: instants as abstract ticks, days as
  `ticks / TicksPerDay`, local time of day as seconds since midnight.
- `Visits` (VisitService): the per-day visitor counter, as a map from date to
  total.
- `Occupancy` (PoolService): entry, exit, set count, set capacity, open/close,
  reset, the default record, and the opening-hours table. It also proves that
  every sequence of these operations keeps `0 <= count <= capacity` with
  `capacity >= 1`.
- `PoolDataService` (the SOAP service): the twin counters and the bulk update.
  Unlike the REST service, the bulk update does not keep the invariant.
- `Roles` (WorkerRoleJsonConverter): the role enum and its JSON form.
- `WorkerIds`: ordinal string order, `int.TryParse`, the `D4` format, and the
  key generator as written. Alongside it is a corrected generator that is
  proved to produce a fresh key.
- `Workers` (WorkerService): create, partial update and soft delete of staff.
- `Shifts` (WorkerService): the shift label and the 09:00-19:00 window,
  starting a shift with its fixed order of checks, ending one shift or all of
  them, per-role counts of open shifts, and per-worker shift totals.
- `Closing` (PoolService.SetOpenStatusAsync): the side effects of closing the
  pool. All open shifts are ended and a daily report is requested, and
  failures in either step never undo the status change.
- `Statistics` (StatisticsService): the visitor window, completed shifts per
  worker ordered by count, and the peak-occupancy range.
- `Weather` (WeatherService): the weather-code tables.

The clock, the Lisbon time zone and the day of week are parameters.
Database tables are sequences or maps. A lookup that takes the first matching
row (`FirstOrDefault`) is modelled as the first match. The unique indexes on a
worker's key and on a visitor row's date are modelled as a duplicate-key
failure and as map keys.

Three behaviours of the code are easy to misread, and the model follows the
code in each:

- A worker who already has an open shift gets a success from
  `ActivateShiftAsync` even when inactive or deleted. The open-shift check runs
  before the worker checks (`Shifts.OpenShiftWinsOverWorkerChecks`).
- `sunny`, `cloudy` and the like come from the icon table. The description
  table holds Portuguese strings.
- The minimum in the occupancy statistics is taken over the same
  `MaxOccupancy` column as the maximum, not over the averages. The report
  generator stores the pool's capacity in that column, not a measured peak.

## Model

| member | source | states |
|---|---|---|
| `Common.Wrap32` | PoolTracker.API/Services/WorkerService.cs:43 | C# unchecked `int` addition: the result is in the `int` range, agrees with the exact sum when that fits, and differs from it by a multiple of 2^32 |
| `Visits.IncrementDailyVisitors` | PoolTracker.API/Services/VisitService.cs:19-42 | a day with no row gets a row with total 1; an existing row goes up by one; every other day is unchanged |
| `Visits.GetTodayVisitors` | PoolTracker.API/Services/VisitService.cs:59-66 | the day's total, or 0 when the day has no row |
| `Visits.IncrementAddsOne` | PoolTracker.API/Services/VisitService.cs:19-66 | after one increment, the day's reading is exactly one more than before, whether or not the row existed |
| `Visits.IncrementIsLocal` | PoolTracker.API/Services/VisitService.cs:19-66 | incrementing one day leaves every other day's reading unchanged |
| `Occupancy.GetStatus` | PoolTracker.API/Services/PoolService.cs:49-79 | the stored record; with an empty table, the created default: count 0, capacity 120, open, with the municipal pool's address; it is valid |
| `Occupancy.Enter` | PoolTracker.API/Services/PoolService.cs:81-104 | a person is admitted iff the record exists, the pool is open and count < capacity; then the count goes up by one; otherwise nothing changes |
| `Occupancy.EnterAsync` | PoolTracker.API/Services/PoolService.cs:81-104 | the daily visitor counter goes up exactly when a person is admitted; no other day's total changes |
| `Occupancy.Exit` | PoolTracker.API/Services/PoolService.cs:106-119 | the count drops by one when positive; otherwise nothing changes |
| `Occupancy.SetCount` | PoolTracker.API/Services/PoolService.cs:121-133 | the stored count is the requested value clamped to [0, capacity] |
| `Occupancy.SetCapacity` | PoolTracker.API/Services/PoolService.cs:135-147 | the capacity is the requested value but at least 1, and the count is lowered to fit under it |
| `Occupancy.SetOpenStatus` | PoolTracker.API/Services/PoolService.cs:149-164 | the flag takes the requested value; closing zeroes the count; a transition is a "closing" iff the record existed, was open and is being closed |
| `Occupancy.Reset` | PoolTracker.API/Services/PoolService.cs:199-210 | the count becomes 0 and the pool closed; capacity and site are kept |
| `Occupancy.ResetMatchesCloseButTriggersNothing` | PoolTracker.API/Services/PoolService.cs:149-210 | reset stores the same record as closing; closing runs the side effects iff the pool was open, and reset never runs them |
| `Occupancy.EnterThenExitRestoresCount` | PoolTracker.API/Services/PoolService.cs:81-119 | an admitted entry followed by an exit restores the count |
| `Occupancy.SetCountIdempotent` | PoolTracker.API/Services/PoolService.cs:121-133 | setting the same count twice equals setting it once; the requested value is stored iff it lies in [0, capacity] |
| `Occupancy.OpeningHours` | PoolTracker.API/Services/PoolService.cs:18-47 | Sunday and Saturday are 09:00–19:00, Monday to Friday 10:00–19:00, any other day key "Encerrado" |
| `Occupancy.ApplyPreservesValid` | PoolTracker.API/Services/PoolService.cs:81-210 | every API operation keeps 0 <= count <= capacity with capacity >= 1, starting from a valid record or from an empty table |
| `Occupancy.RunPreservesValid` | PoolTracker.API/Services/PoolService.cs:81-210 | the invariant holds after every step of any sequence of API operations |
| `PoolDataService.GetPoolStatus` | PoolTracker.SOAP/Services/PoolDataService.cs:21-50 | the stored record, or the default (0, 120, open) when the table is empty |
| `PoolDataService.DefaultRecordsAgree` | PoolTracker.SOAP/Services/PoolDataService.cs:21-50 | the SOAP service and the REST service create the same default record |
| `PoolDataService.UpdatePoolStatus` | PoolTracker.SOAP/Services/PoolDataService.cs:52-66 | count, capacity, flag and site are copied as sent, without clamping; a missing record stays missing |
| `PoolDataService.UpdateCanBreakInvariant` | PoolTracker.SOAP/Services/PoolDataService.cs:52-66 | from a valid record, the bulk update can store count 200 over capacity 120 |
| `PoolDataService.IncrementCount` | PoolTracker.SOAP/Services/PoolDataService.cs:68-79 | adds one only when the record exists, count < capacity and the pool is open; otherwise nothing changes |
| `PoolDataService.DecrementCount` | PoolTracker.SOAP/Services/PoolDataService.cs:81-92 | subtracts one only when the record exists and the count is positive |
| `PoolDataService.IncrementAgreesWithEnter` | PoolTracker.SOAP/Services/PoolDataService.cs:68-79 | on an existing record, the SOAP increment stores what the REST entry stores |
| `PoolDataService.DecrementAgreesWithExit` | PoolTracker.SOAP/Services/PoolDataService.cs:81-92 | on an existing record, the SOAP decrement stores what the REST exit stores |
| `PoolDataService.CountersPreserveValid` | PoolTracker.SOAP/Services/PoolDataService.cs:68-92 | the SOAP counters keep the occupancy invariant |
| `Roles.RoleValue` | PoolTracker.Core/Entities/Worker.cs:17-23 | the enum values lie in 0..3 |
| `Roles.RoleNameAndValueInjective` | PoolTracker.Core/Entities/Worker.cs:17-23 | distinct roles have distinct names and distinct values |
| `Roles.LookupRoleString` | PoolTracker.API/Converters/WorkerRoleJsonConverter.cs:9-19 | a recognised string is the snake_case or the PascalCase spelling of the role it maps to |
| `Roles.Read` | PoolTracker.API/Converters/WorkerRoleJsonConverter.cs:21-41 | a string token is read only as a role it spells; a number token only as the role with that value; any other token is an error |
| `Roles.Write` | PoolTracker.API/Converters/WorkerRoleJsonConverter.cs:43-46 | a role is written as a string token holding its PascalCase enum name, never the snake_case spelling |
| `Roles.ReadWriteRoundTrip` | PoolTracker.API/Converters/WorkerRoleJsonConverter.cs:21-46 | reading what was written gives the role back |
| `Roles.BothSpellingsRead` | PoolTracker.API/Converters/WorkerRoleJsonConverter.cs:9-29 | each role is read from both its snake_case and its PascalCase string |
| `Roles.NumberReadIffDefined` | PoolTracker.API/Converters/WorkerRoleJsonConverter.cs:31-38 | a number is accepted iff it is in 0..3, and then it names the role with that value |
| `Roles.StringReadIffKnownSpelling` | PoolTracker.API/Converters/WorkerRoleJsonConverter.cs:21-30 | a string is accepted iff it is one of the eight spellings; matching is case-sensitive, so "BAR" is rejected |
| `WorkerIds.LexMax` | PoolTracker.API/Services/WorkerService.cs:33-36 | the first key under descending ordinal string order is a member of the list and is at or after every key |
| `WorkerIds.ParseFormatRoundTrip` | PoolTracker.API/Services/WorkerService.cs:41-47 | `int.TryParse` of `n.ToString("D4")` gives `n` back, for every `int` including negatives |
| `WorkerIds.GenerateWorkerId` | PoolTracker.API/Services/WorkerService.cs:31-48 | the generated key is "W" followed by at least four characters, and its number is the last key's number plus one (with `int` wrap-around), or 1 when the greatest W-prefixed key in string order carries no number or there is none |
| `WorkerIds.FirstKeyIsW0001` | PoolTracker.API/Services/WorkerService.cs:38-47 | with no W-prefixed key the first key is W0001 |
| `WorkerIds.UnparsableLastKeyGivesW0001` | PoolTracker.API/Services/WorkerService.cs:38-47 | when the greatest W-prefixed key in string order does not parse as "W" plus an `int`, the generator falls back to W0001 |
| `WorkerIds.GeneratorRepeatsAfterW9999` | PoolTracker.API/Services/WorkerService.cs:31-48 | with W9999 and W10000 present, the generator proposes W10000, which is already taken |
| `WorkerIds.MaxSuffix` | PoolTracker.API/Services/WorkerService.cs:31-48 | the greatest number carried by any key in numeric order: carried by some key and at least every other key's number; absent iff no key carries one |
| `WorkerIds.NextWorkerId` | PoolTracker.API/Services/WorkerService.cs:31-48 | the corrected generator: a W-prefixed key, not already present, numbered one more than the greatest number; none only when that number is the largest `int` |
| `WorkerIds.NextAgreesWhileOrdersAgree` | PoolTracker.API/Services/WorkerService.cs:31-48 | the corrected and the original generators agree whenever string order and numeric order pick the same last key |
| `Workers.FindWorker` | PoolTracker.API/Services/WorkerService.cs:223-224 | the position of a worker with the key, or none iff no worker has it |
| `Workers.AddWorker` | PoolTracker.API/Services/WorkerService.cs:198-206 | a new active worker is appended under the key, and the unique index refuses the insert iff the key is already present |
| `Workers.CreateWorkerAsWritten` | PoolTracker.API/Services/WorkerService.cs:194-219 | the source's creation: the requested key, or else the generator's key; it succeeds iff that key is absent, and a taken key is refused as a duplicate |
| `Workers.CreateAsWrittenCollidesAfterW9999` | PoolTracker.API/Services/WorkerService.cs:194-206 | with W9999 and W10000 registered, creating a worker without a key is refused as a duplicate of W10000 |
| `Workers.CreateWorker` | PoolTracker.API/Services/WorkerService.cs:194-219 | creation with the corrected generator: a new active worker with the requested name, role and key is appended; a key already present is refused; the key set stays unique; with a requested key it equals the creation as written |
| `Workers.UpdateWorker` | PoolTracker.API/Services/WorkerService.cs:221-236 | none iff no worker has the key; otherwise only that worker changes, each supplied field is replaced, the others are kept, and the key is unchanged |
| `Workers.DeleteWorker` | PoolTracker.API/Services/WorkerService.cs:238-250 | a soft delete: true iff the worker exists, which is then marked inactive; nothing is removed and no other worker changes |
| `Workers.DeleteIsDeactivatingUpdate` | PoolTracker.API/Services/WorkerService.cs:221-250 | deleting equals an update that only sets the active flag to false |
| `Workers.GeneratedKeyNeverCollides` | PoolTracker.API/Services/WorkerService.cs:194-206 | with the corrected generator, creating a worker without a key always succeeds while a key is left |
| `Shifts.DetermineCurrentShiftType` | PoolTracker.API/Services/WorkerService.cs:82-97 | morning iff the local hour is in [9, 14); every other time, night included, is afternoon |
| `Shifts.IsValidShiftTime` | PoolTracker.API/Services/WorkerService.cs:102-108 | a shift may start iff the local hour is in [9, 19) |
| `Shifts.LabelVersusWindow` | PoolTracker.API/Services/WorkerService.cs:82-108 | a morning label implies a valid time; outside the window the label is afternoon; a valid afternoon is exactly 14:00-19:00 |
| `Shifts.FindOpenShift` | PoolTracker.API/Services/WorkerService.cs:277-278 | the first open shift of the worker, or none iff the worker has no open shift |
| `Shifts.OnDutyMeansExactlyOne` | PoolTracker.API/Services/WorkerService.cs:276-288 | while no worker has two open shifts, a worker on duty has exactly one |
| `Shifts.ActivateShift` | PoolTracker.API/Services/WorkerService.cs:252-332 | each refusal happens exactly when its check is the first to fail, in the order pool closed, outside hours, unknown worker, inactive worker; an existing open shift wins before the worker checks and changes nothing; when every check passes, exactly one open shift is appended with the worker's role and the requested label or the label for the time, and the success carries that label |
| `Shifts.ActivationKeepsOnDutyInvariant` | PoolTracker.API/Services/WorkerService.cs:276-332 | starting a shift keeps "at most one open shift per worker", and after any success the worker has exactly one |
| `Shifts.ActivateTwiceIsIdempotent` | PoolTracker.API/Services/WorkerService.cs:276-288 | a second start of the same shift returns the same answer and changes nothing |
| `Shifts.InactiveWorkerIsRefused` | PoolTracker.API/Services/WorkerService.cs:290-310 | an inactive worker with no open shift is refused with WorkerInactive once the pool is open and the hour valid |
| `Shifts.OpenShiftWinsOverWorkerChecks` | PoolTracker.API/Services/WorkerService.cs:276-310 | a worker with an open shift gets a success even when inactive or unknown |
| `Shifts.DeactivateShift` | PoolTracker.API/Services/WorkerService.cs:334-345 | true iff the worker was on shift; exactly that open shift gets the end time; while the one-open-shift invariant holds, the worker is off duty afterwards |
| `Shifts.CloseFirstOpen` | PoolTracker.API/Services/WorkerService.cs:347-359 | ending the first k open shifts in order: closed shifts are untouched, and the number of open shifts drops by min(k, open) |
| `Shifts.DeactivateAllWorkers` | PoolTracker.API/Services/WorkerService.cs:347-359 | every open shift gets the same end time, closed shifts are untouched, and no shift stays open |
| `Shifts.DeactivateAllLeavesNoneOnShift` | PoolTracker.API/Services/WorkerService.cs:347-359 | after ending all shifts nobody is on duty and the one-open-shift invariant holds |
| `Shifts.ActiveWorkersCount` | PoolTracker.API/Services/WorkerService.cs:395-407 | a role name is a key iff some open shift holds that role, and its value is the number of such shifts; every key is a role name |
| `Shifts.RoleCountsSumToOpenShifts` | PoolTracker.API/Services/WorkerService.cs:395-407 | the four per-role counts add up to the number of open shifts |
| `Shifts.WorkerShiftStats` | PoolTracker.API/Services/WorkerService.cs:409-436 | the morning count is the number of the worker's completed shifts started between the two days and labelled morning, the afternoon count likewise, and the total is their sum |
| `Shifts.CountLabelledCountsPositions` | PoolTracker.API/Services/WorkerService.cs:409-436 | the per-label count of a prefix equals the number of positions in it holding a completed, labelled shift of the worker in the window |
| `Shifts.TotalCountsLabelledShifts` | PoolTracker.API/Services/WorkerService.cs:409-436 | the total is at most the number of the worker's completed shifts started between the two days, with equality iff each of them carries a label |
| `Closing.Planned` | PoolTracker.API/Services/PoolService.cs:166-194 | shifts are ended iff the worker service is present and a report is requested iff the report service is present, in that order |
| `Closing.EndAll` | PoolTracker.API/Services/WorkerService.cs:347-359 | with no fault, every open shift is ended; a fault partway leaves closed shifts untouched |
| `Closing.SetOpenStatusAsync` | PoolTracker.API/Services/PoolService.cs:149-197 | the stored status never depends on the side effects; they run only on an open-to-closed transition; on that transition with a worker service the shifts are ended as `EndAll` ends them, whatever happens to the report; a step fails iff it was attempted and its fault occurs, so with no fault nothing fails; without a worker service the shifts are untouched |
| `Closing.ReportFaultDoesNotStopShifts` | PoolTracker.API/Services/PoolService.cs:166-194 | when the report request fails, the shifts are ended exactly as when it succeeds |
| `Closing.FaultsNeverUndoTheClose` | PoolTracker.API/Services/PoolService.cs:154-194 | whatever fails, closing an existing record leaves the pool closed and empty, as with no fault |
| `Closing.ShiftFaultDoesNotStopReport` | PoolTracker.API/Services/PoolService.cs:166-194 | when ending the shifts fails, the report is still requested |
| `Closing.CloseEndsEveryShift` | PoolTracker.API/Services/PoolService.cs:166-175 | closing an open pool with the worker service and no fault leaves nobody on shift |
| `Closing.ClosingTwiceTriggersOnce` | PoolTracker.API/Services/PoolService.cs:154-167 | closing an already closed pool runs no side effect |
| `Statistics.Collect` | PoolTracker.API/Services/StatisticsService.cs:21-30 | the recorded days between two dates, in strictly ascending order, each with its total, none missing |
| `Statistics.VisitorsStatistics` | PoolTracker.API/Services/StatisticsService.cs:16-33 | the recorded days from `days` days before today up to today, oldest first, each with its total, none missing |
| `Statistics.VisitorsStatisticsIsTheWindow` | PoolTracker.API/Services/StatisticsService.cs:16-33 | any ascending list of exactly the map's entries in the window equals the answer, so the answer is unique |
| `Statistics.ShiftCountPositiveIff` | PoolTracker.API/Services/StatisticsService.cs:38-44 | a worker's count is positive iff the worker has a completed shift started in the window |
| `Statistics.GroupKeys` | PoolTracker.API/Services/StatisticsService.cs:37-39 | the group keys are distinct and are exactly the workers with a completed shift in the window |
| `Statistics.InsertByCount` | PoolTracker.API/Services/StatisticsService.cs:46 | inserting into a list ordered by count, descending, keeps it ordered and adds exactly the inserted row |
| `Statistics.SortByCountDesc` | PoolTracker.API/Services/StatisticsService.cs:46 | the result is ordered by count, descending, and is a permutation of the input |
| `Statistics.SortKeepsKeys` | PoolTracker.API/Services/StatisticsService.cs:39-46 | ordering keeps the worker keys distinct and adds no key |
| `Statistics.GroupRows` | PoolTracker.API/Services/StatisticsService.cs:37-45 | one row per worker with a completed shift in the window, with the worker's name and a positive count |
| `Statistics.WorkersStatistics` | PoolTracker.API/Services/StatisticsService.cs:35-50 | ordered by count, descending; keys distinct; each count is the number of the worker's completed shifts started in the window; a worker appears iff they have one |
| `Statistics.Filter` | PoolTracker.API/Services/StatisticsService.cs:57-59 | keeps exactly the reports dated between the two days |
| `Statistics.MaxPeak` | PoolTracker.API/Services/StatisticsService.cs:74 | the largest `MaxOccupancy`: attained by some report and at least every report's value |
| `Statistics.MinPeak` | PoolTracker.API/Services/StatisticsService.cs:75 | the smallest `MaxOccupancy`: attained by some report and at most every report's value |
| `Statistics.GeneratedReport` | PoolTracker.API/Services/ReportService.cs:44-73 | the generated row for a day stores the pool's capacity (120 without a pool record) as `MaxOccupancy` and leaves the average unset |
| `Statistics.OccupancyStatisticsIntended` | PoolTracker.API/Services/StatisticsService.cs:52-83 | both zero when no report is in the window; otherwise every `MaxOccupancy` in the window lies between the minimum and the maximum, and both are attained |
| `Statistics.OccupancyStatistics` | PoolTracker.API/Services/StatisticsService.cs:52-83 | the request as written fails iff the window holds a report and none of its reports carries an average (`Average` of an empty sequence throws); when it answers, it answers the intended range |
| `Statistics.GeneratedReportBreaksStatistics` | PoolTracker.API/Services/StatisticsService.cs:71-72 | a window holding one generated report makes the request as written fail, while the intended range is that report's capacity |
| `Statistics.OccupancyRangeOrdered` | PoolTracker.API/Services/StatisticsService.cs:61-75 | the minimum never exceeds the maximum, both in the intended range and whenever the request as written answers, and one report gives equal bounds |
| `Weather.Description` | PoolTracker.API/Services/WeatherService.cs:93-106 | the description is the fallback "Condição desconhecida" iff the code is not one of the ten known codes |
| `Weather.Icon` | PoolTracker.API/Services/WeatherService.cs:108-116 | sunny iff code 0, cloudy iff 1 or 2, overcast iff 3, rain iff 61/63/65, showers iff 80-82, unknown iff the code is not known |
| `Weather.DescriptionsDistinguishKnownCodes` | PoolTracker.API/Services/WeatherService.cs:93-106 | distinct known codes have distinct descriptions |
| `Weather.IconFollowsDescription` | PoolTracker.API/Services/WeatherService.cs:93-116 | codes with the same description have the same icon, and the two tables agree on which codes are unknown |

## Left out

- The clock and the time zone. `DateTime.UtcNow`, the Lisbon local time (with
  its fallbacks) and the day of week are parameters. `ActivateShiftAsync` reads
  the clock up to three times (window check, error message, label); the model
  uses one reading for all of them. Closing the pool likewise reads the clock
  separately for the status stamp, the report's closing time and the shifts'
  common end time; `Closing.SetOpenStatusAsync` uses one `now` for all three.
- Persistence (Entity Framework, repositories, the surrogate numeric `Id`
  columns, `CreatedAt` defaults of rows other than workers). Tables are
  sequences or maps, and lookups take the first match.
- The duplicate-key retry in `IncrementDailyVisitorsAsync`, which covers a
  race between two requests. Concurrency is not modelled, and sequentially the
  retry path never runs.
- `Visits.IncrementDailyVisitors`: the per-day total is an unbounded integer.
  The C# `int` would wrap after 2^31 - 1 visitors in a day.
- The value of the average occupancy in the statistics, a floating-point
  mean of decimals. The model keeps only whether each report carries one.
  The occupancy report's other columns are not modelled either.
- `ReportService.GenerateDailyReportAsync`: only the fact that it is requested,
  and with which closing time, is modelled (`Closing.SideEffect`).
- Error message texts, including the `HH:mm` time in the outside-hours message.
  The model keeps the error kind and the local time.
- The thin queries `GetAllWorkersAsync`, `GetWorkerByIdAsync`,
  `GetWorkerByWorkerIdAsync`, `GetActiveWorkersAsync` (a listing ordered by
  role and name) and `GetWorkerShiftsAsync`.
- `Shifts.WorkerShiftStats`: models one worker's row of `GetShiftStatsAsync`.
  Not modelled: the list of rows ordered by name, and the name and role
  fallback "Desconhecido".
- `Statistics.WorkersStatistics`: rows with equal counts come out in an
  unspecified order in the database query. The model fixes one order, and its
  contract states only the order by count. Grouping by key and name is modelled
  as grouping by key, since a key has one name.
- The string order of `OrderByDescending(w => w.WorkerId)` is modelled as
  ordinal (code-point) order. A database collation could order keys
  differently.
- `DateOnly.AddDays` throws for a `days` value that leaves the calendar range;
  the model treats dates as unbounded integers.
- `Roles.Read`: for a number token, the model uses its integral value. Not
  modelled: the reader's conversion of non-integral or out-of-range numbers,
  and the exact exception each failing path throws. The serializer reports all
  of them as JSON errors, and the model reports all of them as `Failure`.
- Fetching, caching and configuring the weather forecast.
- Authentication, controllers, Swagger setup, the other CRUD services
  (cleaning, shopping, water quality) and the web front end.

## Findings

| source | as written | input that shows it | evidently intended | confidence | as-written member | corrected member |
|---|---|---|---|---|---|---|
| PoolTracker.API/Services/WorkerService.cs:31-48 | the next key is one more than the number of the greatest W-prefixed key in string order; once W10000 exists, W9999 is still the greatest in string order, so W10000 is proposed again and the unique index rejects every later creation without an explicit key | existing keys W9999 and W10000 | one more than the greatest number in numeric order | not executed | `WorkerIds.GeneratorRepeatsAfterW9999` (on `WorkerIds.GenerateWorkerId`), and `Workers.CreateAsWrittenCollidesAfterW9999` (on `Workers.CreateWorkerAsWritten`) | `WorkerIds.NextWorkerId`, used by `Workers.CreateWorker` |
| PoolTracker.API/Services/StatisticsService.cs:71-72 | the average is taken over the reports whose `AvgOccupancy` has a value, and `Average` throws on an empty sequence; no writer of daily reports sets `AvgOccupancy` (ReportService.cs:66-90, ReportDataService.cs:56-62), so every window that holds a report throws | one generated report dated inside the window | zero average when no report carries one, as for an empty window, with the range still returned | not executed; a row edited directly in the database could carry an average | `Statistics.GeneratedReportBreaksStatistics` (on `Statistics.OccupancyStatistics`) | `Statistics.OccupancyStatisticsIntended` |
