/** The shift controller (WorkerService): the shift label and validity window
    as functions of local time, starting and ending shifts, ending every open
    shift, the per-role counts of open shifts, and per-worker shift totals. */
module Shifts {
  import opened Common
  import opened Roles
  import Occupancy
  import Workers

  /** ShiftType: morning or afternoon. */
  datatype ShiftType = Manha | Tarde

  const MorningShiftStart: int := 9 * SecondsPerHour
  const MorningShiftEnd: int := 14 * SecondsPerHour
  const AfternoonShiftEnd: int := 19 * SecondsPerHour

  /** DetermineCurrentShiftType: morning from 09:00 up to 14:00, afternoon at
      every other time of day, including the night hours. */
  function DetermineCurrentShiftType(t: TimeOfDay): (r: ShiftType)
    ensures r == Manha <==> 9 <= HourOf(t) < 14
  {
    if MorningShiftStart <= t < MorningShiftEnd then Manha else Tarde
  }

  /** IsValidShiftTime: a shift may start from 09:00 up to 19:00. */
  function IsValidShiftTime(t: TimeOfDay): (r: bool)
    ensures r <==> 9 <= HourOf(t) < 19
  {
    MorningShiftStart <= t && t < AfternoonShiftEnd
  }

  /** How the label and the window relate: a morning label is always inside
      the window, and outside the window the label is always afternoon, so the
      label alone does not tell whether a shift may start. */
  lemma LabelVersusWindow(t: TimeOfDay)
    ensures DetermineCurrentShiftType(t) == Manha ==> IsValidShiftTime(t)
    ensures !IsValidShiftTime(t) ==> DetermineCurrentShiftType(t) == Tarde
    ensures IsValidShiftTime(t) && DetermineCurrentShiftType(t) == Tarde <==> 14 <= HourOf(t) < 19
  {
  }

  /** The ActiveWorkers row: one shift of one worker. The role is copied
      from the worker when the shift starts; `endTime` is absent while the
      shift is open. */
  datatype ShiftRecord = ShiftRecord(
    workerId: string,
    role: WorkerRole,
    shiftType: Option<ShiftType>,
    startTime: Instant,
    endTime: Option<Instant>)

  predicate IsOpen(s: ShiftRecord) {
    s.endTime.None?
  }

  predicate IsOpenFor(s: ShiftRecord, id: string) {
    s.workerId == id && s.endTime.None?
  }

  /** The worker has an open shift. */
  predicate OnShift(shifts: seq<ShiftRecord>, id: string) {
    exists i :: 0 <= i < |shifts| && IsOpenFor(shifts[i], id)
  }

  /** The on-duty invariant: no worker has two open shifts. */
  predicate AtMostOneOpenPerWorker(shifts: seq<ShiftRecord>) {
    forall i, j :: 0 <= i < j < |shifts| && IsOpen(shifts[i]) && IsOpen(shifts[j]) ==>
      shifts[i].workerId != shifts[j].workerId
  }

  function FindOpenFrom(shifts: seq<ShiftRecord>, id: string, from: nat): (r: Option<nat>)
    requires from <= |shifts|
    ensures r.Some? ==> from <= r.value < |shifts| && IsOpenFor(shifts[r.value], id)
    ensures r.Some? ==> forall k :: from <= k < r.value ==> !IsOpenFor(shifts[k], id)
    ensures r.None? <==> forall k :: from <= k < |shifts| ==> !IsOpenFor(shifts[k], id)
    decreases |shifts| - from
  {
    if from == |shifts| then None
    else if IsOpenFor(shifts[from], id) then Some(from)
    else FindOpenFrom(shifts, id, from + 1)
  }

  /** The worker's open shift (`FirstOrDefaultAsync(aw => aw.WorkerId == id && aw.EndTime == null)`). */
  function FindOpenShift(shifts: seq<ShiftRecord>, id: string): (r: Option<nat>)
    ensures r.Some? ==> r.value < |shifts| && IsOpenFor(shifts[r.value], id)
    ensures r.Some? ==> forall k :: 0 <= k < r.value ==> !IsOpenFor(shifts[k], id)
    ensures r.None? <==> !OnShift(shifts, id)
  {
    FindOpenFrom(shifts, id, 0)
  }

  /** The number of open shifts of one worker. */
  function OpenShiftsOf(shifts: seq<ShiftRecord>, id: string): nat {
    if |shifts| == 0 then 0
    else OpenShiftsOf(shifts[1..], id) + (if IsOpenFor(shifts[0], id) then 1 else 0)
  }

  lemma {:induction false} NoOpenShiftCountsZero(shifts: seq<ShiftRecord>, id: string)
    requires !OnShift(shifts, id)
    ensures OpenShiftsOf(shifts, id) == 0
  {
    if |shifts| > 0 {
      assert !IsOpenFor(shifts[0], id);
      assert forall k :: 0 <= k < |shifts[1..]| ==> shifts[1..][k] == shifts[k + 1];
      NoOpenShiftCountsZero(shifts[1..], id);
    }
  }

  /** Under the on-duty invariant a worker on shift has exactly one open shift. */
  lemma {:induction false} OnDutyMeansExactlyOne(shifts: seq<ShiftRecord>, id: string)
    requires AtMostOneOpenPerWorker(shifts) && OnShift(shifts, id)
    ensures OpenShiftsOf(shifts, id) == 1
  {
    var rest := shifts[1..];
    assert forall k :: 0 <= k < |rest| ==> rest[k] == shifts[k + 1];
    if IsOpenFor(shifts[0], id) {
      NoOpenShiftCountsZero(rest, id);
    } else {
      var i :| 0 <= i < |shifts| && IsOpenFor(shifts[i], id);
      assert IsOpenFor(rest[i - 1], id);
      OnDutyMeansExactlyOne(rest, id);
    }
  }

  /** Why a shift could not be started. */
  datatype ShiftError =
    | PoolClosed
    | OutsideShiftHours(localTime: TimeOfDay)
    | WorkerNotFound
    | WorkerInactive

  /** ActivateShiftResult: success carries the shift's label (which an
      existing record may lack), failure carries the reason. */
  datatype ActivateShiftResult = Activated(shiftType: Option<ShiftType>) | Rejected(error: ShiftError)

  datatype Activation = Activation(result: ActivateShiftResult, shifts: seq<ShiftRecord>)

  /** The pool record exists and the pool is open; a missing record counts as closed. */
  predicate PoolIsOpen(pool: Option<Occupancy.PoolStatus>) {
    pool.Some? && pool.value.isOpen
  }

  /** ActivateShiftAsync. The checks run in a fixed order and the first that
      fails decides the answer: pool closed, outside 09:00-19:00, already on
      shift (a success that adds nothing), unknown worker, inactive worker.
      Otherwise a new open shift is appended with the worker's role and the
      requested label, or the label for the current time. */
  function ActivateShift(
    pool: Option<Occupancy.PoolStatus>,
    workers: seq<Workers.Worker>,
    shifts: seq<ShiftRecord>,
    workerId: string,
    requested: Option<ShiftType>,
    t: TimeOfDay,
    now: Instant): (r: Activation)
    ensures r.result.Rejected? ==> r.shifts == shifts
    ensures r.result == Rejected(PoolClosed) <==> !PoolIsOpen(pool)
    ensures r.result == Rejected(OutsideShiftHours(t)) <==> PoolIsOpen(pool) && !IsValidShiftTime(t)
    ensures PoolIsOpen(pool) && IsValidShiftTime(t) && OnShift(shifts, workerId) ==>
      r == Activation(Activated(shifts[FindOpenShift(shifts, workerId).value].shiftType), shifts)
    ensures r.result == Rejected(WorkerNotFound) <==>
      PoolIsOpen(pool) && IsValidShiftTime(t) && !OnShift(shifts, workerId) &&
      Workers.FindWorker(workers, workerId).None?
    ensures r.result == Rejected(WorkerInactive) <==>
      PoolIsOpen(pool) && IsValidShiftTime(t) && !OnShift(shifts, workerId) &&
      Workers.FindWorker(workers, workerId).Some? &&
      !workers[Workers.FindWorker(workers, workerId).value].isActive
    ensures r.shifts != shifts ==>
      && PoolIsOpen(pool) && IsValidShiftTime(t) && !OnShift(shifts, workerId)
      && Workers.FindWorker(workers, workerId).Some?
      && var w := workers[Workers.FindWorker(workers, workerId).value];
         var tag := requested.GetOr(DetermineCurrentShiftType(t));
         && w.isActive
         && r.result == Activated(Some(tag))
         && r.shifts == shifts + [ShiftRecord(workerId, w.role, Some(tag), now, None)]
    ensures (PoolIsOpen(pool) && IsValidShiftTime(t) && !OnShift(shifts, workerId) &&
             Workers.FindWorker(workers, workerId).Some? &&
             workers[Workers.FindWorker(workers, workerId).value].isActive) ==>
      var w := workers[Workers.FindWorker(workers, workerId).value];
      var tag := requested.GetOr(DetermineCurrentShiftType(t));
      r == Activation(Activated(Some(tag)), shifts + [ShiftRecord(workerId, w.role, Some(tag), now, None)])
  {
    if !PoolIsOpen(pool) then Activation(Rejected(PoolClosed), shifts)
    else if !IsValidShiftTime(t) then Activation(Rejected(OutsideShiftHours(t)), shifts)
    else match FindOpenShift(shifts, workerId)
      case Some(i) => Activation(Activated(shifts[i].shiftType), shifts)
      case None =>
        match Workers.FindWorker(workers, workerId)
        case None => Activation(Rejected(WorkerNotFound), shifts)
        case Some(k) =>
          if !workers[k].isActive then Activation(Rejected(WorkerInactive), shifts)
          else
            var tag := requested.GetOr(DetermineCurrentShiftType(t));
            Activation(Activated(Some(tag)), shifts + [ShiftRecord(workerId, workers[k].role, Some(tag), now, None)])
  }

  /** Starting a shift keeps the on-duty invariant, and after any success the
      worker is on shift. */
  lemma ActivationKeepsOnDutyInvariant(
    pool: Option<Occupancy.PoolStatus>, workers: seq<Workers.Worker>, shifts: seq<ShiftRecord>,
    workerId: string, requested: Option<ShiftType>, t: TimeOfDay, now: Instant)
    requires AtMostOneOpenPerWorker(shifts)
    ensures var r := ActivateShift(pool, workers, shifts, workerId, requested, t, now);
      AtMostOneOpenPerWorker(r.shifts) &&
      (r.result.Activated? ==> OnShift(r.shifts, workerId) && OpenShiftsOf(r.shifts, workerId) == 1)
  {
    var r := ActivateShift(pool, workers, shifts, workerId, requested, t, now);
    if r.result.Activated? {
      if r.shifts == shifts {
        assert OnShift(shifts, workerId) by {
          assert r.result != Rejected(WorkerNotFound);
        }
      } else {
        assert IsOpenFor(r.shifts[|shifts|], workerId);
      }
      OnDutyMeansExactlyOne(r.shifts, workerId);
    }
  }

  /** Starting the same shift twice answers the same both times, and the
      second call changes nothing: the worker still has one open shift. */
  lemma ActivateTwiceIsIdempotent(
    pool: Option<Occupancy.PoolStatus>, workers: seq<Workers.Worker>, shifts: seq<ShiftRecord>,
    workerId: string, requested: Option<ShiftType>, t: TimeOfDay, now: Instant, later: Instant)
    requires AtMostOneOpenPerWorker(shifts)
    requires ActivateShift(pool, workers, shifts, workerId, requested, t, now).result.Activated?
    ensures var first := ActivateShift(pool, workers, shifts, workerId, requested, t, now);
      var second := ActivateShift(pool, workers, first.shifts, workerId, requested, t, later);
      second.result == first.result && second.shifts == first.shifts &&
      OpenShiftsOf(second.shifts, workerId) == 1
  {
    var first := ActivateShift(pool, workers, shifts, workerId, requested, t, now);
    ActivationKeepsOnDutyInvariant(pool, workers, shifts, workerId, requested, t, now);
    if first.shifts != shifts {
      var n := |shifts|;
      assert IsOpenFor(first.shifts[n], workerId);
      assert !OnShift(shifts, workerId);
      assert forall k :: 0 <= k < n ==> first.shifts[k] == shifts[k];
      assert FindOpenShift(first.shifts, workerId) == Some(n);
    } else {
      assert OnShift(shifts, workerId) by {
        assert first.result != Rejected(WorkerNotFound);
      }
    }
  }

  /** An inactive worker with no open shift is always refused with
      WorkerInactive once the pool is open and the hour is valid. */
  lemma InactiveWorkerIsRefused(
    pool: Option<Occupancy.PoolStatus>, workers: seq<Workers.Worker>, shifts: seq<ShiftRecord>,
    workerId: string, requested: Option<ShiftType>, t: TimeOfDay, now: Instant)
    requires PoolIsOpen(pool) && IsValidShiftTime(t) && !OnShift(shifts, workerId)
    requires Workers.FindWorker(workers, workerId).Some?
    requires !workers[Workers.FindWorker(workers, workerId).value].isActive
    ensures ActivateShift(pool, workers, shifts, workerId, requested, t, now) ==
      Activation(Rejected(WorkerInactive), shifts)
  {
  }

  /** Because the open-shift check comes before the worker checks, a worker
      who already has an open shift gets a success even when inactive or no
      longer registered. */
  lemma OpenShiftWinsOverWorkerChecks(
    pool: Option<Occupancy.PoolStatus>, workers: seq<Workers.Worker>, shifts: seq<ShiftRecord>,
    workerId: string, requested: Option<ShiftType>, t: TimeOfDay, now: Instant)
    requires PoolIsOpen(pool) && IsValidShiftTime(t) && OnShift(shifts, workerId)
    ensures ActivateShift(pool, workers, shifts, workerId, requested, t, now).result.Activated?
  {
  }

  /** The record with its end time set. */
  function CloseShift(s: ShiftRecord, now: Instant): ShiftRecord {
    s.(endTime := Some(now))
  }

  /** DeactivateShiftAsync: closes the worker's open shift and answers true,
      or answers false and changes nothing when there is none. */
  function DeactivateShift(shifts: seq<ShiftRecord>, workerId: string, now: Instant): (r: (bool, seq<ShiftRecord>))
    ensures r.0 <==> OnShift(shifts, workerId)
    ensures !r.0 ==> r.1 == shifts
    ensures r.0 ==> var i := FindOpenShift(shifts, workerId).value;
      r.1 == shifts[i := CloseShift(shifts[i], now)]
    ensures AtMostOneOpenPerWorker(shifts) ==>
      AtMostOneOpenPerWorker(r.1) && !OnShift(r.1, workerId)
  {
    match FindOpenShift(shifts, workerId)
    case None => (false, shifts)
    case Some(i) =>
      (true, shifts[i := CloseShift(shifts[i], now)])
  }

  /** The number of open shifts. */
  function OpenCount(shifts: seq<ShiftRecord>): nat {
    if |shifts| == 0 then 0
    else OpenCount(shifts[1..]) + (if IsOpen(shifts[0]) then 1 else 0)
  }

  /** Closes the first `k` open shifts, in order, and leaves the rest alone:
      what ending every open shift achieves if it is interrupted after `k`
      updates. */
  function CloseFirstOpen(shifts: seq<ShiftRecord>, now: Instant, k: nat): (r: seq<ShiftRecord>)
    ensures |r| == |shifts|
    ensures forall i :: 0 <= i < |shifts| && !IsOpen(shifts[i]) ==> r[i] == shifts[i]
    ensures forall i :: 0 <= i < |shifts| && IsOpen(shifts[i]) ==>
      r[i] == shifts[i] || r[i] == CloseShift(shifts[i], now)
    ensures OpenCount(r) == OpenCount(shifts) - Min(k, OpenCount(shifts))
  {
    if |shifts| == 0 then []
    else
      var rest := shifts[1..];
      assert forall i :: 1 <= i < |shifts| ==> shifts[i] == rest[i - 1];
      if IsOpen(shifts[0]) && k > 0 then
        var r := [CloseShift(shifts[0], now)] + CloseFirstOpen(rest, now, k - 1);
        assert r[1..] == CloseFirstOpen(rest, now, k - 1);
        r
      else
        var r := [shifts[0]] + CloseFirstOpen(rest, now, k);
        assert r[1..] == CloseFirstOpen(rest, now, k);
        r
  }

  lemma {:induction false} OpenCountBound(shifts: seq<ShiftRecord>)
    ensures OpenCount(shifts) <= |shifts|
  {
    if |shifts| > 0 {
      OpenCountBound(shifts[1..]);
    }
  }

  lemma {:induction false} ZeroOpenCountMeansAllClosed(shifts: seq<ShiftRecord>)
    requires OpenCount(shifts) == 0
    ensures forall i :: 0 <= i < |shifts| ==> !IsOpen(shifts[i])
  {
    if |shifts| > 0 {
      ZeroOpenCountMeansAllClosed(shifts[1..]);
      assert forall i :: 1 <= i < |shifts| ==> shifts[i] == shifts[1..][i - 1];
    }
  }

  /** DeactivateAllWorkersAsync: every open shift gets the same end time;
      shifts that were already closed are untouched. */
  function DeactivateAllWorkers(shifts: seq<ShiftRecord>, now: Instant): (r: seq<ShiftRecord>)
    ensures |r| == |shifts|
    ensures forall i :: 0 <= i < |shifts| && IsOpen(shifts[i]) ==> r[i] == CloseShift(shifts[i], now)
    ensures forall i :: 0 <= i < |shifts| && !IsOpen(shifts[i]) ==> r[i] == shifts[i]
    ensures forall i :: 0 <= i < |r| ==> !IsOpen(r[i])
  {
    var r := CloseFirstOpen(shifts, now, |shifts|);
    OpenCountBound(shifts);
    ZeroOpenCountMeansAllClosed(r);
    r
  }

  /** After every open shift is ended nobody is on duty, and the
      one-open-shift-per-worker invariant holds whatever held before. */
  lemma DeactivateAllLeavesNoneOnShift(shifts: seq<ShiftRecord>, now: Instant, id: string)
    ensures !OnShift(DeactivateAllWorkers(shifts, now), id)
    ensures AtMostOneOpenPerWorker(DeactivateAllWorkers(shifts, now))
  {
  }

  /** The number of open shifts held in one role. */
  function OpenCountWithRole(shifts: seq<ShiftRecord>, role: WorkerRole): nat {
    if |shifts| == 0 then 0
    else OpenCountWithRole(shifts[1..], role) + (if IsOpen(shifts[0]) && shifts[0].role == role then 1 else 0)
  }

  /** The map with `key := n` added when `n` is positive. */
  function PutIfPositive(m: map<string, nat>, key: string, n: nat): map<string, nat> {
    if n > 0 then m[key := n] else m
  }

  /** GetActiveWorkersCountAsync: open shifts grouped by role name; a role
      with no open shift has no entry. */
  function ActiveWorkersCount(shifts: seq<ShiftRecord>): (m: map<string, nat>)
    ensures forall role :: RoleName(role) in m <==> OpenCountWithRole(shifts, role) > 0
    ensures forall role :: RoleName(role) in m ==> m[RoleName(role)] == OpenCountWithRole(shifts, role)
    ensures forall key :: key in m ==> exists role :: key == RoleName(role)
  {
    var m0 := PutIfPositive(map[], RoleName(NadadorSalvador), OpenCountWithRole(shifts, NadadorSalvador));
    var m1 := PutIfPositive(m0, RoleName(Bar), OpenCountWithRole(shifts, Bar));
    var m2 := PutIfPositive(m1, RoleName(Vigilante), OpenCountWithRole(shifts, Vigilante));
    PutIfPositive(m2, RoleName(Bilheteira), OpenCountWithRole(shifts, Bilheteira))
  }

  /** A role's entry, zero when absent. */
  function CountOrZero(m: map<string, nat>, key: string): nat {
    if key in m then m[key] else 0
  }

  lemma {:induction false} RoleCountsPartition(shifts: seq<ShiftRecord>)
    ensures OpenCountWithRole(shifts, NadadorSalvador) + OpenCountWithRole(shifts, Bar)
          + OpenCountWithRole(shifts, Vigilante) + OpenCountWithRole(shifts, Bilheteira)
         == OpenCount(shifts)
  {
    if |shifts| > 0 {
      RoleCountsPartition(shifts[1..]);
    }
  }

  /** The per-role counts add up to the number of open shifts. */
  lemma RoleCountsSumToOpenShifts(shifts: seq<ShiftRecord>)
    ensures var m := ActiveWorkersCount(shifts);
      CountOrZero(m, "NadadorSalvador") + CountOrZero(m, "Bar")
      + CountOrZero(m, "Vigilante") + CountOrZero(m, "Bilheteira") == OpenCount(shifts)
  {
    RoleCountsPartition(shifts);
    var m := ActiveWorkersCount(shifts);
    assert "NadadorSalvador" == RoleName(NadadorSalvador) && "Bar" == RoleName(Bar);
    assert "Vigilante" == RoleName(Vigilante) && "Bilheteira" == RoleName(Bilheteira);
  }

  /** Shifts counted by the shift statistics: completed, and started on a day
      between the two given days. */
  predicate CompletedWithin(s: ShiftRecord, startDate: Instant, endDate: Instant) {
    DateOf(startDate) <= DateOf(s.startTime) <= DateOf(endDate) && s.endTime.Some?
  }

  /** The worker's completed shifts in range. */
  predicate Counted(s: ShiftRecord, id: string, startDate: Instant, endDate: Instant) {
    s.workerId == id && CompletedWithin(s, startDate, endDate)
  }

  function CompletedShiftsOf(shifts: seq<ShiftRecord>, id: string, startDate: Instant, endDate: Instant): nat {
    if |shifts| == 0 then 0
    else
      var head := if Counted(shifts[0], id, startDate, endDate) then 1 else 0;
      CompletedShiftsOf(shifts[1..], id, startDate, endDate) + head
  }

  function CountLabelled(shifts: seq<ShiftRecord>, id: string, startDate: Instant, endDate: Instant, tag: ShiftType): nat {
    if |shifts| == 0 then 0
    else
      var head := if Counted(shifts[0], id, startDate, endDate) && shifts[0].shiftType == Some(tag) then 1 else 0;
      CountLabelled(shifts[1..], id, startDate, endDate, tag) + head
  }

  /** A completed shift of the worker in the window, carrying the label. */
  predicate LabelledAs(s: ShiftRecord, id: string, startDate: Instant, endDate: Instant, tag: ShiftType) {
    Counted(s, id, startDate, endDate) && s.shiftType == Some(tag)
  }

  /** The positions, below `n`, of the worker's completed shifts in the
      window that carry the label. */
  function LabelledPositions(shifts: seq<ShiftRecord>, n: nat, id: string, startDate: Instant, endDate: Instant, tag: ShiftType)
    : set<int>
    requires n <= |shifts|
  {
    set i | 0 <= i < n && LabelledAs(shifts[i], id, startDate, endDate, tag)
  }

  lemma {:induction false} CountLabelledSnoc(a: seq<ShiftRecord>, x: ShiftRecord, id: string, startDate: Instant, endDate: Instant, tag: ShiftType)
    ensures CountLabelled(a + [x], id, startDate, endDate, tag)
         == CountLabelled(a, id, startDate, endDate, tag) + (if LabelledAs(x, id, startDate, endDate, tag) then 1 else 0)
  {
    if |a| == 0 {
      assert (a + [x])[1..] == [];
    } else {
      assert (a + [x])[1..] == a[1..] + [x];
      CountLabelledSnoc(a[1..], x, id, startDate, endDate, tag);
    }
  }

  lemma PositionsStep(shifts: seq<ShiftRecord>, n: nat, id: string, startDate: Instant, endDate: Instant, tag: ShiftType)
    requires 0 < n <= |shifts|
    ensures var before := LabelledPositions(shifts, n - 1, id, startDate, endDate, tag);
      n - 1 !in before &&
      LabelledPositions(shifts, n, id, startDate, endDate, tag)
        == before + (if LabelledAs(shifts[n - 1], id, startDate, endDate, tag) then {n - 1} else {})
  {
  }

  lemma PrefixCountStep(shifts: seq<ShiftRecord>, n: nat, id: string, startDate: Instant, endDate: Instant, tag: ShiftType)
    requires 0 < n <= |shifts|
    ensures CountLabelled(shifts[..n], id, startDate, endDate, tag)
         == CountLabelled(shifts[..n - 1], id, startDate, endDate, tag)
            + (if LabelledAs(shifts[n - 1], id, startDate, endDate, tag) then 1 else 0)
  {
    assert shifts[..n] == shifts[..n - 1] + [shifts[n - 1]];
    CountLabelledSnoc(shifts[..n - 1], shifts[n - 1], id, startDate, endDate, tag);
  }

  /** The recursive count agrees with the number of labelled positions. */
  lemma {:induction false} CountLabelledCountsPositions(shifts: seq<ShiftRecord>, n: nat, id: string, startDate: Instant, endDate: Instant, tag: ShiftType)
    requires n <= |shifts|
    ensures CountLabelled(shifts[..n], id, startDate, endDate, tag) == |LabelledPositions(shifts, n, id, startDate, endDate, tag)|
  {
    if n == 0 {
      assert LabelledPositions(shifts, n, id, startDate, endDate, tag) == {};
    } else {
      CountLabelledCountsPositions(shifts, n - 1, id, startDate, endDate, tag);
      PrefixCountStep(shifts, n, id, startDate, endDate, tag);
      PositionsStep(shifts, n, id, startDate, endDate, tag);
    }
  }

  /** One row of GetShiftStatsAsync. */
  datatype ShiftStats = ShiftStats(workerId: string, manha: nat, tarde: nat, total: nat)

  /** The shift totals of one worker: morning and afternoon shifts among the
      counted ones, and their sum. */
  function WorkerShiftStats(shifts: seq<ShiftRecord>, id: string, startDate: Instant, endDate: Instant)
    : (r: ShiftStats)
    ensures r.workerId == id && r.total == r.manha + r.tarde
    ensures r.manha == |LabelledPositions(shifts, |shifts|, id, startDate, endDate, Manha)|
    ensures r.tarde == |LabelledPositions(shifts, |shifts|, id, startDate, endDate, Tarde)|
  {
    var m := CountLabelled(shifts, id, startDate, endDate, Manha);
    var a := CountLabelled(shifts, id, startDate, endDate, Tarde);
    assert shifts[..|shifts|] == shifts;
    CountLabelledCountsPositions(shifts, |shifts|, id, startDate, endDate, Manha);
    CountLabelledCountsPositions(shifts, |shifts|, id, startDate, endDate, Tarde);
    ShiftStats(id, m, a, m + a)
  }

  predicate AllLabelled(shifts: seq<ShiftRecord>, id: string, startDate: Instant, endDate: Instant) {
    forall i :: 0 <= i < |shifts| && Counted(shifts[i], id, startDate, endDate) ==> shifts[i].shiftType.Some?
  }

  function LabelledTotal(shifts: seq<ShiftRecord>, id: string, startDate: Instant, endDate: Instant): nat {
    CountLabelled(shifts, id, startDate, endDate, Manha) + CountLabelled(shifts, id, startDate, endDate, Tarde)
  }

  lemma {:induction false} LabelledSplit(shifts: seq<ShiftRecord>, id: string, startDate: Instant, endDate: Instant)
    ensures LabelledTotal(shifts, id, startDate, endDate) <= CompletedShiftsOf(shifts, id, startDate, endDate)
    ensures (LabelledTotal(shifts, id, startDate, endDate) == CompletedShiftsOf(shifts, id, startDate, endDate))
        <==> AllLabelled(shifts, id, startDate, endDate)
  {
    if |shifts| > 0 {
      var rest := shifts[1..];
      LabelledSplit(rest, id, startDate, endDate);
      if !AllLabelled(rest, id, startDate, endDate) {
        var i :| 0 <= i < |rest| && Counted(rest[i], id, startDate, endDate) && rest[i].shiftType.None?;
        assert shifts[i + 1] == rest[i];
      } else if !(Counted(shifts[0], id, startDate, endDate) && shifts[0].shiftType.None?) {
        forall i | 0 <= i < |shifts| && Counted(shifts[i], id, startDate, endDate)
          ensures shifts[i].shiftType.Some?
        {
          if i > 0 {
            assert shifts[i] == rest[i - 1];
          }
        }
        if Counted(shifts[0], id, startDate, endDate) {
          match shifts[0].shiftType.value
          case Manha => assert LabelledTotal(shifts, id, startDate, endDate) == LabelledTotal(rest, id, startDate, endDate) + 1;
          case Tarde => assert LabelledTotal(shifts, id, startDate, endDate) == LabelledTotal(rest, id, startDate, endDate) + 1;
        }
      }
    }
  }

  /** A worker's total counts each completed shift in range at most once, and
      exactly the completed shifts when every one of them carries a label;
      a shift without a label is left out of the total. */
  lemma TotalCountsLabelledShifts(shifts: seq<ShiftRecord>, id: string, startDate: Instant, endDate: Instant)
    ensures WorkerShiftStats(shifts, id, startDate, endDate).total <= CompletedShiftsOf(shifts, id, startDate, endDate)
    ensures WorkerShiftStats(shifts, id, startDate, endDate).total == CompletedShiftsOf(shifts, id, startDate, endDate)
      <==> AllLabelled(shifts, id, startDate, endDate)
  {
    LabelledSplit(shifts, id, startDate, endDate);
  }
}
