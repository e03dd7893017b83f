/** Closing the pool (PoolService.SetOpenStatusAsync with its side effects):
    the status change is stored first; only on an open-to-closed transition
    are every open shift ended and the daily report requested, each step
    guarded so that its failure does not undo the status change or stop the
    other step. */
module Closing {
  import opened Common
  import Occupancy
  import Shifts

  /** Which optional collaborators the service was constructed with. */
  datatype Collaborators = Collaborators(hasWorkerService: bool, hasReportService: bool)

  /** Where the side effects fail: ending the open shifts may fail after
      `n` rows have been updated, and the report request may fail. */
  datatype Faults = Faults(endAllFailsAfter: Option<nat>, reportFails: bool)

  const NoFaults: Faults := Faults(None, false)

  datatype SideEffect = EndAllShifts | GenerateReport(closingTime: Instant)

  datatype CloseOutcome = CloseOutcome(
    status: Occupancy.PoolStatus,
    shifts: seq<Shifts.ShiftRecord>,
    attempted: seq<SideEffect>,
    failed: seq<SideEffect>)

  /** The side effects attempted on a closing transition, in order. */
  function Planned(collab: Collaborators, now: Instant): (plan: seq<SideEffect>)
    ensures EndAllShifts in plan <==> collab.hasWorkerService
    ensures GenerateReport(now) in plan <==> collab.hasReportService
    ensures |plan| <= 2 && (|plan| == 2 ==> plan == [EndAllShifts, GenerateReport(now)])
  {
    (if collab.hasWorkerService then [EndAllShifts] else [])
      + (if collab.hasReportService then [GenerateReport(now)] else [])
  }

  /** The shifts after ending all of them, when it fails after `n` rows. */
  function EndAll(shifts: seq<Shifts.ShiftRecord>, now: Instant, failsAfter: Option<nat>): (r: seq<Shifts.ShiftRecord>)
    ensures failsAfter.None? ==> r == Shifts.DeactivateAllWorkers(shifts, now)
    ensures |r| == |shifts|
    ensures forall i :: 0 <= i < |shifts| && !Shifts.IsOpen(shifts[i]) ==> r[i] == shifts[i]
  {
    match failsAfter
    case None => Shifts.DeactivateAllWorkers(shifts, now)
    case Some(n) => Shifts.CloseFirstOpen(shifts, now, n)
  }

  /** SetOpenStatusAsync with its side effects. */
  function SetOpenStatusAsync(
    store: Option<Occupancy.PoolStatus>,
    shifts: seq<Shifts.ShiftRecord>,
    isOpen: bool,
    now: Instant,
    collab: Collaborators,
    faults: Faults): (r: CloseOutcome)
    ensures r.status == Occupancy.SetOpenStatus(store, isOpen, now).status
    ensures !Occupancy.SetOpenStatus(store, isOpen, now).closing ==> r.shifts == shifts && r.attempted == [] && r.failed == []
    ensures Occupancy.SetOpenStatus(store, isOpen, now).closing ==> r.attempted == Planned(collab, now)
    ensures forall e :: e in r.failed ==> e in r.attempted
    ensures !collab.hasWorkerService ==> r.shifts == shifts
    ensures Occupancy.SetOpenStatus(store, isOpen, now).closing && collab.hasWorkerService ==>
      r.shifts == EndAll(shifts, now, faults.endAllFailsAfter)
    ensures EndAllShifts in r.failed <==> EndAllShifts in r.attempted && faults.endAllFailsAfter.Some?
    ensures GenerateReport(now) in r.failed <==> GenerateReport(now) in r.attempted && faults.reportFails
    ensures faults == NoFaults ==> r.failed == []
  {
    var t := Occupancy.SetOpenStatus(store, isOpen, now);
    if !t.closing then CloseOutcome(t.status, shifts, [], [])
    else
      var shifts' := if collab.hasWorkerService then EndAll(shifts, now, faults.endAllFailsAfter) else shifts;
      var failed :=
        (if collab.hasWorkerService && faults.endAllFailsAfter.Some? then [EndAllShifts] else [])
        + (if collab.hasReportService && faults.reportFails then [GenerateReport(now)] else []);
      CloseOutcome(t.status, shifts', Planned(collab, now), failed)
  }

  /** Whatever fails, the pool ends up closed and empty when a record exists
      and the request asks to close it. */
  lemma FaultsNeverUndoTheClose(
    s: Occupancy.PoolStatus, shifts: seq<Shifts.ShiftRecord>, now: Instant,
    collab: Collaborators, faults: Faults)
    ensures var r := SetOpenStatusAsync(Some(s), shifts, false, now, collab, faults);
      !r.status.isOpen && r.status.currentCount == 0 &&
      r.status == SetOpenStatusAsync(Some(s), shifts, false, now, collab, NoFaults).status
  {
  }

  /** A fault in ending the shifts does not stop the report request. */
  lemma ShiftFaultDoesNotStopReport(
    s: Occupancy.PoolStatus, shifts: seq<Shifts.ShiftRecord>, now: Instant, n: nat)
    requires s.isOpen
    ensures var r := SetOpenStatusAsync(Some(s), shifts, false, now, Collaborators(true, true), Faults(Some(n), false));
      r.attempted == [EndAllShifts, GenerateReport(now)] && r.failed == [EndAllShifts]
  {
  }

  /** A failed report request does not stop the shifts from being ended:
      they are ended exactly as when the report succeeds. */
  lemma ReportFaultDoesNotStopShifts(
    s: Occupancy.PoolStatus, shifts: seq<Shifts.ShiftRecord>, now: Instant, endAllFailsAfter: Option<nat>)
    requires s.isOpen
    ensures var failing := SetOpenStatusAsync(Some(s), shifts, false, now, Collaborators(true, true), Faults(endAllFailsAfter, true));
      var succeeding := SetOpenStatusAsync(Some(s), shifts, false, now, Collaborators(true, true), Faults(endAllFailsAfter, false));
      failing.shifts == succeeding.shifts && failing.shifts == EndAll(shifts, now, endAllFailsAfter) &&
      GenerateReport(now) in failing.failed && GenerateReport(now) !in succeeding.failed
  {
  }

  /** Closing an open pool with the worker service present and no fault
      leaves nobody on shift. */
  lemma CloseEndsEveryShift(
    s: Occupancy.PoolStatus, shifts: seq<Shifts.ShiftRecord>, now: Instant, hasReport: bool, id: string)
    requires s.isOpen
    ensures var r := SetOpenStatusAsync(Some(s), shifts, false, now, Collaborators(true, hasReport), NoFaults);
      (forall i :: 0 <= i < |r.shifts| ==> !Shifts.IsOpen(r.shifts[i])) && !Shifts.OnShift(r.shifts, id)
  {
  }

  /** Closing a pool that is already closed triggers nothing: the side
      effects follow the open-to-closed transition, not the requested state. */
  lemma ClosingTwiceTriggersOnce(
    s: Occupancy.PoolStatus, shifts: seq<Shifts.ShiftRecord>, now: Instant, later: Instant,
    collab: Collaborators, faults: Faults)
    ensures var first := SetOpenStatusAsync(Some(s), shifts, false, now, collab, faults);
      var second := SetOpenStatusAsync(Some(first.status), first.shifts, false, later, collab, faults);
      second.attempted == [] && second.shifts == first.shifts
  {
  }
}
