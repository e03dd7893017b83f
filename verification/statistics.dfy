/** The statistics queries (StatisticsService): visitors per day over a
    window of days, completed shifts per worker ordered by count, and the
    peak occupancy range over a window of daily reports. */
module Statistics {
  import opened Common
  import Visits
  import Workers
  import Shifts
  import Occupancy

  // ---------------------------------------------------------------------
  // Visitors per day

  /** VisitorDataPoint. */
  datatype VisitorDataPoint = VisitorDataPoint(date: Date, visitors: int)

  predicate StrictlyAscendingDates(points: seq<VisitorDataPoint>) {
    forall i, j :: 0 <= i < j < |points| ==> points[i].date < points[j].date
  }

  /** The recorded days from `lo` to `hi`, in ascending order. */
  function Collect(visits: Visits.VisitLog, lo: Date, hi: Date): (r: seq<VisitorDataPoint>)
    ensures StrictlyAscendingDates(r)
    ensures forall i :: 0 <= i < |r| ==>
      lo <= r[i].date <= hi && r[i].date in visits && r[i].visitors == visits[r[i].date]
    ensures forall d :: lo <= d <= hi && d in visits ==> exists i :: 0 <= i < |r| && r[i].date == d
    decreases hi - lo
  {
    if hi < lo then []
    else
      var prefix := Collect(visits, lo, hi - 1);
      if hi in visits then
        var r := prefix + [VisitorDataPoint(hi, visits[hi])];
        assert r[|prefix|].date == hi;
        assert forall i :: 0 <= i < |prefix| ==> r[i] == prefix[i];
        r
      else prefix
  }

  /** GetVisitorsStatisticsAsync: the recorded days from `days` days before
      today up to today inclusive, oldest first; a negative `days` gives an
      empty window. */
  function VisitorsStatistics(visits: Visits.VisitLog, today: Date, days: int): (r: seq<VisitorDataPoint>)
    ensures StrictlyAscendingDates(r)
    ensures forall i :: 0 <= i < |r| ==>
      today - days <= r[i].date <= today && r[i].date in visits && r[i].visitors == visits[r[i].date]
    ensures forall d :: today - days <= d <= today && d in visits ==>
      exists i :: 0 <= i < |r| && r[i].date == d
  {
    Collect(visits, today - days, today)
  }

  /** Two ascending lists that contain each other's first points start alike. */
  lemma HeadsAgree(a: seq<VisitorDataPoint>, b: seq<VisitorDataPoint>)
    requires StrictlyAscendingDates(a) && StrictlyAscendingDates(b)
    requires |a| > 0 && |b| > 0 && a[0] in b && b[0] in a
    ensures a[0] == b[0]
  {
    var j :| 0 <= j < |b| && b[j] == a[0];
    var i :| 0 <= i < |a| && a[i] == b[0];
    assert a[0].date <= a[i].date;
    assert b[0].date <= b[j].date;
  }

  /** Dropping a shared first point keeps containment between ascending lists. */
  lemma DropSharedHead(a: seq<VisitorDataPoint>, b: seq<VisitorDataPoint>)
    requires StrictlyAscendingDates(a)
    requires |a| > 0 && |b| > 0 && a[0] == b[0]
    requires forall p :: p in a ==> p in b
    ensures forall p :: p in a[1..] ==> p in b[1..]
  {
    forall p | p in a[1..] ensures p in b[1..] {
      var k :| 0 <= k < |a[1..]| && a[1..][k] == p;
      assert a[k + 1] == p;
      assert a[0].date < p.date;
      assert p in b;
      var m :| 0 <= m < |b| && b[m] == p;
      assert b[1..][m - 1] == p;
    }
  }

  /** Two ascending lists with the same elements are the same list. */
  lemma {:induction false} AscendingListsAreDetermined(a: seq<VisitorDataPoint>, b: seq<VisitorDataPoint>)
    requires StrictlyAscendingDates(a) && StrictlyAscendingDates(b)
    requires forall p :: p in a ==> p in b
    requires forall p :: p in b ==> p in a
    ensures a == b
  {
    FirstIsMember(a);
    FirstIsMember(b);
    if |a| > 0 && |b| > 0 {
      HeadsAgree(a, b);
      DropSharedHead(a, b);
      DropSharedHead(b, a);
      AscendingListsAreDetermined(a[1..], b[1..]);
      assert a == [a[0]] + a[1..] && b == [b[0]] + b[1..];
    }
  }

  lemma FirstIsMember(points: seq<VisitorDataPoint>)
    ensures |points| > 0 ==> points[0] in points
  {
  }

  /** Every point carries a recorded day of the window with that day's total. */
  predicate EntriesMatch(points: seq<VisitorDataPoint>, visits: Visits.VisitLog, lo: Date, hi: Date) {
    forall i :: 0 <= i < |points| ==>
      lo <= points[i].date <= hi && points[i].date in visits && points[i].visitors == visits[points[i].date]
  }

  /** Every recorded day of the window has a point. */
  predicate CoversWindow(points: seq<VisitorDataPoint>, visits: Visits.VisitLog, lo: Date, hi: Date) {
    forall d :: lo <= d <= hi && d in visits ==> exists i :: 0 <= i < |points| && points[i].date == d
  }

  lemma MembersCarryOver(a: seq<VisitorDataPoint>, b: seq<VisitorDataPoint>, visits: Visits.VisitLog, lo: Date, hi: Date)
    requires EntriesMatch(a, visits, lo, hi) && EntriesMatch(b, visits, lo, hi) && CoversWindow(b, visits, lo, hi)
    ensures forall p :: p in a ==> p in b
  {
    forall p | p in a ensures p in b {
      var i :| 0 <= i < |a| && a[i] == p;
      assert lo <= p.date <= hi && p.date in visits;
      var j :| 0 <= j < |b| && b[j].date == p.date;
      assert b[j].visitors == visits[p.date];
      assert b[j] == p;
    }
  }

  /** Independent reference: any ascending list holding exactly the map's
      entries between the two dates is the answer of the window query. */
  lemma VisitorsStatisticsIsTheWindow(visits: Visits.VisitLog, today: Date, days: int, other: seq<VisitorDataPoint>)
    requires StrictlyAscendingDates(other)
    requires EntriesMatch(other, visits, today - days, today)
    requires CoversWindow(other, visits, today - days, today)
    ensures VisitorsStatistics(visits, today, days) == other
  {
    var r := VisitorsStatistics(visits, today, days);
    assert EntriesMatch(r, visits, today - days, today) && CoversWindow(r, visits, today - days, today);
    MembersCarryOver(r, other, visits, today - days, today);
    MembersCarryOver(other, r, visits, today - days, today);
    AscendingListsAreDetermined(r, other);
  }

  // ---------------------------------------------------------------------
  // Completed shifts per worker

  /** WorkerShiftData. */
  datatype WorkerShiftData = WorkerShiftData(workerId: string, name: string, shiftCount: nat)

  /** A completed shift that started between the two instants, inclusive. */
  predicate InWindow(s: Shifts.ShiftRecord, start: Instant, end: Instant) {
    start <= s.startTime <= end && s.endTime.Some?
  }

  function ShiftCountOf(shifts: seq<Shifts.ShiftRecord>, id: string, start: Instant, end: Instant): nat {
    if |shifts| == 0 then 0
    else
      var head := if shifts[0].workerId == id && InWindow(shifts[0], start, end) then 1 else 0;
      ShiftCountOf(shifts[1..], id, start, end) + head
  }

  predicate HasShiftInWindow(shifts: seq<Shifts.ShiftRecord>, id: string, start: Instant, end: Instant) {
    exists k :: 0 <= k < |shifts| && shifts[k].workerId == id && InWindow(shifts[k], start, end)
  }

  lemma {:induction false} ShiftCountPositiveIff(shifts: seq<Shifts.ShiftRecord>, id: string, start: Instant, end: Instant)
    ensures ShiftCountOf(shifts, id, start, end) > 0 <==> HasShiftInWindow(shifts, id, start, end)
  {
    if |shifts| > 0 {
      ShiftCountPositiveIff(shifts[1..], id, start, end);
      if HasShiftInWindow(shifts[1..], id, start, end) {
        var k :| 0 <= k < |shifts[1..]| && shifts[1..][k].workerId == id && InWindow(shifts[1..][k], start, end);
        assert shifts[k + 1] == shifts[1..][k];
      }
      if HasShiftInWindow(shifts, id, start, end) && !(shifts[0].workerId == id && InWindow(shifts[0], start, end)) {
        var k :| 0 <= k < |shifts| && shifts[k].workerId == id && InWindow(shifts[k], start, end);
        assert shifts[1..][k - 1] == shifts[k];
      }
    }
  }

  predicate DistinctIds(rows: seq<WorkerShiftData>) {
    forall i, j :: 0 <= i < j < |rows| ==> rows[i].workerId != rows[j].workerId
  }

  /** The workers with a counted shift, in order of first appearance. */
  function GroupKeys(shifts: seq<Shifts.ShiftRecord>, start: Instant, end: Instant): (ids: seq<string>)
    ensures forall i, j :: 0 <= i < j < |ids| ==> ids[i] != ids[j]
    ensures forall id :: id in ids <==> HasShiftInWindow(shifts, id, start, end)
  {
    if |shifts| == 0 then []
    else
      var init := shifts[..|shifts| - 1];
      var last := shifts[|shifts| - 1];
      var keys := GroupKeys(init, start, end);
      assert forall k :: 0 <= k < |init| ==> init[k] == shifts[k];
      if InWindow(last, start, end) && last.workerId !in keys then keys + [last.workerId]
      else keys
  }

  /** The worker's name, empty when the worker is unknown (`Name ?? string.Empty`). */
  function NameOf(workers: seq<Workers.Worker>, id: string): string {
    match Workers.FindWorker(workers, id)
    case Some(k) => workers[k].name
    case None => ""
  }

  predicate SortedByCountDesc(rows: seq<WorkerShiftData>) {
    forall i, j :: 0 <= i < j < |rows| ==> rows[i].shiftCount >= rows[j].shiftCount
  }

  /** No row has the key `id`. */
  predicate IdAbsent(rows: seq<WorkerShiftData>, id: string) {
    forall i :: 0 <= i < |rows| ==> rows[i].workerId != id
  }

  /** In a list ordered by count every later row's count is at most the
      first row's. */
  lemma HeadBoundsTail(rows: seq<WorkerShiftData>)
    requires SortedByCountDesc(rows) && |rows| > 0
    ensures forall e :: e in rows[1..] ==> e.shiftCount <= rows[0].shiftCount
  {
    forall e | e in rows[1..] ensures e.shiftCount <= rows[0].shiftCount {
      var k :| 0 <= k < |rows[1..]| && rows[1..][k] == e;
      assert rows[k + 1] == e;
    }
  }

  /** A row put in front of an ordered list whose counts are all at most
      its own gives an ordered list. */
  lemma ConsKeepsOrder(h: WorkerShiftData, rows: seq<WorkerShiftData>)
    requires SortedByCountDesc(rows)
    requires forall k :: 0 <= k < |rows| ==> rows[k].shiftCount <= h.shiftCount
    ensures SortedByCountDesc([h] + rows)
  {
    var r := [h] + rows;
    forall i, j | 0 <= i < j < |r| ensures r[i].shiftCount >= r[j].shiftCount {
      assert r[j] == rows[j - 1];
      if i > 0 {
        assert r[i] == rows[i - 1];
      }
    }
  }

  /** Inserts a row into a list ordered by count, descending, ahead of the
      rows with the same count. */
  function InsertByCount(x: WorkerShiftData, rows: seq<WorkerShiftData>): (r: seq<WorkerShiftData>)
    requires SortedByCountDesc(rows)
    ensures SortedByCountDesc(r)
    ensures multiset(r) == multiset(rows) + multiset{x}
  {
    if |rows| == 0 || x.shiftCount >= rows[0].shiftCount then
      ConsKeepsOrder(x, rows);
      [x] + rows
    else
      var tail := InsertByCount(x, rows[1..]);
      assert rows == [rows[0]] + rows[1..];
      HeadBoundsTail(rows);
      forall k | 0 <= k < |tail| ensures tail[k].shiftCount <= rows[0].shiftCount {
        assert tail[k] in multiset(tail);
        assert tail[k] == x || tail[k] in multiset(rows[1..]);
      }
      ConsKeepsOrder(rows[0], tail);
      [rows[0]] + tail
  }

  /** A permutation of the rows ordered by count, descending. */
  function SortByCountDesc(rows: seq<WorkerShiftData>): (r: seq<WorkerShiftData>)
    ensures SortedByCountDesc(r)
    ensures multiset(r) == multiset(rows)
  {
    if |rows| == 0 then []
    else
      assert rows == [rows[0]] + rows[1..];
      InsertByCount(rows[0], SortByCountDesc(rows[1..]))
  }

  /** A key absent from the list and from the inserted row stays absent;
      a row whose key is new keeps the keys distinct. */
  lemma {:induction false} InsertKeepsKeys(x: WorkerShiftData, rows: seq<WorkerShiftData>)
    requires SortedByCountDesc(rows)
    ensures forall id :: IdAbsent(rows, id) && x.workerId != id ==> IdAbsent(InsertByCount(x, rows), id)
    ensures DistinctIds(rows) && IdAbsent(rows, x.workerId) ==> DistinctIds(InsertByCount(x, rows))
  {
    if |rows| > 0 && x.shiftCount < rows[0].shiftCount {
      var tail := rows[1..];
      InsertKeepsKeys(x, tail);
      var r := InsertByCount(x, rows);
      assert r == [rows[0]] + InsertByCount(x, tail);
      forall id | IdAbsent(rows, id) && x.workerId != id ensures IdAbsent(r, id) {
        assert IdAbsent(tail, id);
      }
      if DistinctIds(rows) && IdAbsent(rows, x.workerId) {
        assert IdAbsent(tail, rows[0].workerId);
        assert IdAbsent(tail, x.workerId);
        assert DistinctIds(tail);
      }
    }
  }

  /** Sorting keeps the keys distinct. */
  lemma {:induction false} SortKeepsKeys(rows: seq<WorkerShiftData>)
    ensures forall id :: IdAbsent(rows, id) ==> IdAbsent(SortByCountDesc(rows), id)
    ensures DistinctIds(rows) ==> DistinctIds(SortByCountDesc(rows))
  {
    if |rows| > 0 {
      var tail := rows[1..];
      SortKeepsKeys(tail);
      InsertKeepsKeys(rows[0], SortByCountDesc(tail));
      forall id | IdAbsent(rows, id) ensures IdAbsent(SortByCountDesc(rows), id) {
        assert IdAbsent(tail, id);
      }
      if DistinctIds(rows) {
        assert IdAbsent(tail, rows[0].workerId);
      }
    }
  }

  /** The grouped rows before ordering, one per worker with a counted shift. */
  function GroupRows(workers: seq<Workers.Worker>, shifts: seq<Shifts.ShiftRecord>, start: Instant, end: Instant)
    : (rows: seq<WorkerShiftData>)
    ensures DistinctIds(rows)
    ensures forall i :: 0 <= i < |rows| ==>
      rows[i].shiftCount == ShiftCountOf(shifts, rows[i].workerId, start, end) && rows[i].shiftCount > 0 &&
      rows[i].name == NameOf(workers, rows[i].workerId)
    ensures forall id :: HasShiftInWindow(shifts, id, start, end) ==> exists i :: 0 <= i < |rows| && rows[i].workerId == id
  {
    var keys := GroupKeys(shifts, start, end);
    var rows := seq(|keys|, i requires 0 <= i < |keys| =>
      WorkerShiftData(keys[i], NameOf(workers, keys[i]), ShiftCountOf(shifts, keys[i], start, end)));
    forall i | 0 <= i < |keys| ensures ShiftCountOf(shifts, keys[i], start, end) > 0 {
      ShiftCountPositiveIff(shifts, keys[i], start, end);
    }
    assert forall id :: HasShiftInWindow(shifts, id, start, end) ==> exists i :: 0 <= i < |rows| && rows[i].workerId == id by {
      forall id | HasShiftInWindow(shifts, id, start, end) ensures exists i :: 0 <= i < |rows| && rows[i].workerId == id {
        var k :| 0 <= k < |keys| && keys[k] == id;
        assert rows[k].workerId == id;
      }
    }
    rows
  }

  /** GetWorkersStatisticsAsync: one row per worker with a completed shift
      started in the window, carrying the worker's name and the number of
      such shifts, ordered by that number, largest first. */
  function WorkersStatistics(workers: seq<Workers.Worker>, shifts: seq<Shifts.ShiftRecord>, start: Instant, end: Instant)
    : (r: seq<WorkerShiftData>)
    ensures SortedByCountDesc(r)
    ensures DistinctIds(r)
    ensures forall i :: 0 <= i < |r| ==>
      r[i].shiftCount == ShiftCountOf(shifts, r[i].workerId, start, end) && r[i].shiftCount > 0 &&
      r[i].name == NameOf(workers, r[i].workerId)
    ensures forall id :: (exists i :: 0 <= i < |r| && r[i].workerId == id) <==> HasShiftInWindow(shifts, id, start, end)
  {
    var rows := GroupRows(workers, shifts, start, end);
    var r := SortByCountDesc(rows);
    SortKeepsKeys(rows);
    forall i | 0 <= i < |r|
      ensures r[i].shiftCount == ShiftCountOf(shifts, r[i].workerId, start, end) && r[i].shiftCount > 0
      ensures r[i].name == NameOf(workers, r[i].workerId)
    {
      assert r[i] in multiset(rows);
      var k :| 0 <= k < |rows| && rows[k] == r[i];
    }
    forall id | HasShiftInWindow(shifts, id, start, end) ensures exists i :: 0 <= i < |r| && r[i].workerId == id {
      var k :| 0 <= k < |rows| && rows[k].workerId == id;
      assert rows[k] in multiset(r);
      var i :| 0 <= i < |r| && r[i] == rows[k];
    }
    forall id | (exists i :: 0 <= i < |r| && r[i].workerId == id) ensures HasShiftInWindow(shifts, id, start, end) {
      var i :| 0 <= i < |r| && r[i].workerId == id;
      ShiftCountPositiveIff(shifts, id, start, end);
    }
    r
  }

  // ---------------------------------------------------------------------
  // Occupancy

  /** The DailyReport columns the occupancy statistics read. `maxOccupancy`
      holds what the report generator stored, which is the pool's capacity
      at report time rather than a measured peak (see GeneratedReport).
      `hasAverage` says whether the nullable AvgOccupancy column holds a
      value; the decimal amount itself is not modelled. */
  datatype DailyReport = DailyReport(reportDate: Date, maxOccupancy: Int32, hasAverage: bool)

  /** The row GenerateDailyReportAsync stores for a day: the pool's capacity
      (120 without a pool record) in MaxOccupancy, and AvgOccupancy left
      unset. The SOAP GenerateReport likewise creates rows without an
      average. */
  function GeneratedReport(day: Date, pool: Option<Occupancy.PoolStatus>): (r: DailyReport)
    ensures r.reportDate == day && !r.hasAverage
    ensures pool.Some? ==> r.maxOccupancy == pool.value.maxCapacity
    ensures pool.None? ==> r.maxOccupancy == 120
  {
    DailyReport(day, if pool.Some? then pool.value.maxCapacity else 120, false)
  }

  /** The two integer fields of OccupancyStatisticsDto; the average is a
      floating-point value and is not modelled. */
  datatype OccupancyStats = OccupancyStats(maxOccupancy: int, minOccupancy: int)

  /** Why the occupancy statistics request fails: `Average` over an empty
      sequence throws InvalidOperationException. */
  datatype StatisticsError = NoAverageInWindow

  function Filter(reports: seq<DailyReport>, lo: Date, hi: Date): (r: seq<DailyReport>)
    ensures forall i :: 0 <= i < |r| ==> lo <= r[i].reportDate <= hi && r[i] in reports
    ensures forall x :: x in reports && lo <= x.reportDate <= hi ==> x in r
  {
    if |reports| == 0 then []
    else
      var rest := Filter(reports[1..], lo, hi);
      assert forall x :: x in reports[1..] ==> x in reports;
      assert forall x :: x in reports ==> x == reports[0] || x in reports[1..];
      if lo <= reports[0].reportDate <= hi then [reports[0]] + rest else rest
  }

  function MaxPeak(reports: seq<DailyReport>): (m: int)
    requires |reports| > 0
    ensures forall i :: 0 <= i < |reports| ==> reports[i].maxOccupancy <= m
    ensures exists i :: 0 <= i < |reports| && reports[i].maxOccupancy == m
  {
    if |reports| == 1 then reports[0].maxOccupancy
    else
      var m := MaxPeak(reports[1..]);
      assert forall i :: 1 <= i < |reports| ==> reports[i] == reports[1..][i - 1];
      if reports[0].maxOccupancy >= m then reports[0].maxOccupancy
      else
        assert exists i :: 1 <= i < |reports| && reports[i].maxOccupancy == m by {
          var j :| 0 <= j < |reports[1..]| && reports[1..][j].maxOccupancy == m;
          assert reports[j + 1].maxOccupancy == m;
        }
        m
  }

  function MinPeak(reports: seq<DailyReport>): (m: int)
    requires |reports| > 0
    ensures forall i :: 0 <= i < |reports| ==> m <= reports[i].maxOccupancy
    ensures exists i :: 0 <= i < |reports| && reports[i].maxOccupancy == m
  {
    if |reports| == 1 then reports[0].maxOccupancy
    else
      var m := MinPeak(reports[1..]);
      assert forall i :: 1 <= i < |reports| ==> reports[i] == reports[1..][i - 1];
      if reports[0].maxOccupancy <= m then reports[0].maxOccupancy
      else
        assert exists i :: 1 <= i < |reports| && reports[i].maxOccupancy == m by {
          var j :| 0 <= j < |reports[1..]| && reports[1..][j].maxOccupancy == m;
          assert reports[j + 1].maxOccupancy == m;
        }
        m
  }

  /** The largest and the smallest MaxOccupancy of a non-empty window. */
  function PeakRange(window: seq<DailyReport>): (r: OccupancyStats)
    requires |window| > 0
    ensures forall x :: x in window ==> r.minOccupancy <= x.maxOccupancy <= r.maxOccupancy
    ensures exists i :: 0 <= i < |window| && window[i].maxOccupancy == r.maxOccupancy
    ensures exists i :: 0 <= i < |window| && window[i].maxOccupancy == r.minOccupancy
  {
    var hi := MaxPeak(window);
    var lo := MinPeak(window);
    assert forall x :: x in window ==> lo <= x.maxOccupancy <= hi;
    OccupancyStats(hi, lo)
  }

  /** GetOccupancyStatisticsAsync as intended: over the reports dated
      between the two days, the largest and the smallest MaxOccupancy; both
      zero when there is no report. The minimum is taken over the same
      column as the maximum, not over the daily averages. */
  function OccupancyStatisticsIntended(reports: seq<DailyReport>, startDate: Instant, endDate: Instant): (r: OccupancyStats)
    ensures (forall x :: x in reports ==> !(DateOf(startDate) <= x.reportDate <= DateOf(endDate))) ==>
      r == OccupancyStats(0, 0)
    ensures forall x :: x in reports && DateOf(startDate) <= x.reportDate <= DateOf(endDate) ==>
      r.minOccupancy <= x.maxOccupancy <= r.maxOccupancy
    ensures (exists x :: x in reports && DateOf(startDate) <= x.reportDate <= DateOf(endDate)) ==>
      (exists x :: x in reports && DateOf(startDate) <= x.reportDate <= DateOf(endDate) && x.maxOccupancy == r.maxOccupancy) &&
      (exists x :: x in reports && DateOf(startDate) <= x.reportDate <= DateOf(endDate) && x.maxOccupancy == r.minOccupancy)
  {
    var window := Filter(reports, DateOf(startDate), DateOf(endDate));
    if |window| == 0 then OccupancyStats(0, 0) else PeakRange(window)
  }

  /** GetOccupancyStatisticsAsync as written: zeros when no report is dated
      between the two days; otherwise the average is taken over the reports
      that carry one, which throws when none does, before the range is
      computed. */
  function OccupancyStatistics(reports: seq<DailyReport>, startDate: Instant, endDate: Instant)
    : (r: Result<OccupancyStats, StatisticsError>)
    ensures r.Failure? <==>
      (exists x :: x in reports && DateOf(startDate) <= x.reportDate <= DateOf(endDate)) &&
      (forall x :: x in reports && DateOf(startDate) <= x.reportDate <= DateOf(endDate) ==> !x.hasAverage)
    ensures r.Success? ==> r.value == OccupancyStatisticsIntended(reports, startDate, endDate)
  {
    var window := Filter(reports, DateOf(startDate), DateOf(endDate));
    if |window| == 0 then Success(OccupancyStats(0, 0))
    else if forall i :: 0 <= i < |window| ==> !window[i].hasAverage then
      assert window[0] in reports;
      assert forall x :: x in window ==> !x.hasAverage;
      Failure(NoAverageInWindow)
    else Success(PeakRange(window))
  }

  /** Every row the report generator writes lacks an average, so a window
      holding one generated report makes the request fail, while the
      intended statistics return the stored capacity as both bounds. */
  lemma GeneratedReportBreaksStatistics(day: nat, pool: Option<Occupancy.PoolStatus>)
    ensures var t := day * TicksPerDay;
      var reports := [GeneratedReport(day, pool)];
      OccupancyStatistics(reports, t, t) == Failure(NoAverageInWindow) &&
      OccupancyStatisticsIntended(reports, t, t) == OccupancyStats(reports[0].maxOccupancy, reports[0].maxOccupancy)
  {
    var t := day * TicksPerDay;
    assert DateOf(t) == day;
    var reports := [GeneratedReport(day, pool)];
    assert reports[0] in reports;
  }

  /** The range is well formed, and collapses to one value for one report;
      when the request as written answers, it answers that range. */
  lemma OccupancyRangeOrdered(reports: seq<DailyReport>, startDate: Instant, endDate: Instant)
    ensures OccupancyStatisticsIntended(reports, startDate, endDate).minOccupancy
         <= OccupancyStatisticsIntended(reports, startDate, endDate).maxOccupancy
    ensures OccupancyStatistics(reports, startDate, endDate).Success? ==>
      OccupancyStatistics(reports, startDate, endDate).value.minOccupancy
      <= OccupancyStatistics(reports, startDate, endDate).value.maxOccupancy
    ensures |reports| == 1 && DateOf(startDate) <= reports[0].reportDate <= DateOf(endDate) ==>
      OccupancyStatisticsIntended(reports, startDate, endDate) == OccupancyStats(reports[0].maxOccupancy, reports[0].maxOccupancy)
  {
    var r := OccupancyStatisticsIntended(reports, startDate, endDate);
    if exists x :: x in reports && DateOf(startDate) <= x.reportDate <= DateOf(endDate) {
      var x :| x in reports && DateOf(startDate) <= x.reportDate <= DateOf(endDate);
      assert r.minOccupancy <= x.maxOccupancy <= r.maxOccupancy;
    }
    if |reports| == 1 && DateOf(startDate) <= reports[0].reportDate <= DateOf(endDate) {
      assert reports[0] in reports;
    }
  }
}
