/** The occupancy controller (PoolService): the single pool-status record and
    the transitions that mutate it. Every API operation first loads the record;
    when none exists it only creates the default record and returns it. */
module Occupancy {
  import opened Common
  import Visits

  /** The descriptive part of the record, copied but never inspected. */
  datatype Site = Site(locationName: string, address: string, phone: string)

  const DefaultSite: Site :=
    Site("Piscina Municipal da Sobreposta", "R. da Piscina 22, 4715-553 Sobreposta", "253 636 948")

  const DefaultCapacity: Int32 := 120

  /** The PoolStatus row. */
  datatype PoolStatus = PoolStatus(
    currentCount: Int32,
    maxCapacity: Int32,
    isOpen: bool,
    lastUpdated: Instant,
    site: Site)

  /** The occupancy invariant: the count lies between zero and a positive capacity. */
  predicate Valid(s: PoolStatus) {
    0 <= s.currentCount <= s.maxCapacity && 1 <= s.maxCapacity
  }

  /** The record as it stands after a read: the stored one, or, when the table
      is empty, a freshly created default (count 0, capacity 120, open). */
  function GetStatus(store: Option<PoolStatus>, now: Instant): (r: PoolStatus)
    ensures store.Some? ==> r == store.value
    ensures store.None? ==> r.currentCount == 0 && r.maxCapacity == 120 && r.isOpen
    ensures store.None? ==> r.site == DefaultSite && Valid(r)
  {
    match store
    case Some(s) => s
    case None => PoolStatus(0, DefaultCapacity, true, now, DefaultSite)
  }

  /** The outcome of an entry attempt; `admitted` says whether the daily
      visitor counter is called. */
  datatype Admission = Admission(status: PoolStatus, admitted: bool)

  /** One person enters: admitted only when the record exists, the pool is
      open and there is room; otherwise nothing changes. */
  function Enter(store: Option<PoolStatus>, now: Instant): (r: Admission)
    ensures store.None? ==> r == Admission(GetStatus(store, now), false)
    ensures store.Some? ==>
      (r.admitted <==> store.value.isOpen && store.value.currentCount < store.value.maxCapacity)
    ensures store.Some? && r.admitted ==>
      r.status == store.value.(currentCount := store.value.currentCount + 1, lastUpdated := now)
    ensures store.Some? && !r.admitted ==> r.status == store.value
  {
    match store
    case None => Admission(GetStatus(store, now), false)
    case Some(s) =>
      if !s.isOpen then Admission(s, false)
      else if s.currentCount < s.maxCapacity then
        Admission(s.(currentCount := s.currentCount + 1, lastUpdated := now), true)
      else Admission(s, false)
  }

  /** The result of an entry together with the daily visitor log. */
  datatype EnterResult = EnterResult(status: PoolStatus, visits: Visits.VisitLog)

  /** EnterAsync: an entry followed, when admitted, by exactly one call to the
      daily visitor counter for `today`. `today` is the UTC date of the clock
      reading the visitor counter takes itself; that is a second reading,
      separate from `now`, so the two may fall on different days around
      midnight and the model leaves them independent. */
  function EnterAsync(store: Option<PoolStatus>, visits: Visits.VisitLog, today: Date, now: Instant)
    : (r: EnterResult)
    ensures r.status == Enter(store, now).status
    ensures Enter(store, now).admitted ==>
      Visits.GetTodayVisitors(r.visits, today) == Visits.GetTodayVisitors(visits, today) + 1
    ensures !Enter(store, now).admitted ==> r.visits == visits
    ensures forall d :: d != today ==> Visits.GetTodayVisitors(r.visits, d) == Visits.GetTodayVisitors(visits, d)
  {
    var a := Enter(store, now);
    if a.admitted then
      Visits.IncrementAddsOne(visits, today);
      EnterResult(a.status, Visits.IncrementDailyVisitors(visits, today))
    else EnterResult(a.status, visits)
  }

  /** One person leaves: the count drops by one unless it is already zero. */
  function Exit(store: Option<PoolStatus>, now: Instant): (r: PoolStatus)
    ensures store.None? ==> r == GetStatus(store, now)
    ensures store.Some? && store.value.currentCount > 0 ==>
      r == store.value.(currentCount := store.value.currentCount - 1, lastUpdated := now)
    ensures store.Some? && store.value.currentCount <= 0 ==> r == store.value
  {
    match store
    case None => GetStatus(store, now)
    case Some(s) =>
      if s.currentCount > 0 then s.(currentCount := s.currentCount - 1, lastUpdated := now)
      else s
  }


  /** SetCountAsync: stores the requested count clamped into [0, capacity];
      out-of-range input is corrected, never rejected. */
  function SetCount(store: Option<PoolStatus>, value: Int32, now: Instant): (r: PoolStatus)
    ensures store.None? ==> r == GetStatus(store, now)
    ensures store.Some? ==>
      r == store.value.(currentCount := r.currentCount, lastUpdated := now)
    ensures store.Some? && 0 <= value <= store.value.maxCapacity ==> r.currentCount == value
    ensures store.Some? && value < 0 ==> r.currentCount == 0
    ensures store.Some? && value > store.value.maxCapacity ==>
      r.currentCount == Max(0, store.value.maxCapacity)
  {
    match store
    case None => GetStatus(store, now)
    case Some(s) =>
      s.(currentCount := Max(0, Min(value, s.maxCapacity)), lastUpdated := now)
  }

  /** SetCapacityAsync: stores the capacity raised to at least one, and lowers
      the count to the new capacity when it no longer fits. */
  function SetCapacity(store: Option<PoolStatus>, value: Int32, now: Instant): (r: PoolStatus)
    ensures store.None? ==> r == GetStatus(store, now)
    ensures store.Some? ==> r.isOpen == store.value.isOpen && r.site == store.value.site
    ensures store.Some? ==> r.lastUpdated == now
    ensures store.Some? && value >= 1 ==> r.maxCapacity == value
    ensures store.Some? && value < 1 ==> r.maxCapacity == 1
    ensures store.Some? && store.value.currentCount <= r.maxCapacity ==>
      r.currentCount == store.value.currentCount
    ensures store.Some? && store.value.currentCount > r.maxCapacity ==>
      r.currentCount == r.maxCapacity
  {
    match store
    case None => GetStatus(store, now)
    case Some(s) =>
      var cap := Max(1, value);
      s.(maxCapacity := cap, currentCount := Min(s.currentCount, cap), lastUpdated := now)
  }

  /** The outcome of setting the open flag; `closing` says whether this was
      the Open to Closed transition that triggers the closing side effects. */
  datatype Transition = Transition(status: PoolStatus, closing: bool)

  /** SetOpenStatusAsync, the record part: stores the flag, and zeroes the
      count whenever the flag is set to closed (even if it already was). */
  function SetOpenStatus(store: Option<PoolStatus>, isOpen: bool, now: Instant): (r: Transition)
    ensures store.None? ==> r == Transition(GetStatus(store, now), false)
    ensures store.Some? ==> r.status.isOpen == isOpen && r.status.lastUpdated == now
    ensures store.Some? ==> r.status.maxCapacity == store.value.maxCapacity
    ensures store.Some? ==> r.status.site == store.value.site
    ensures store.Some? && !isOpen ==> r.status.currentCount == 0
    ensures store.Some? && isOpen ==> r.status.currentCount == store.value.currentCount
    ensures r.closing <==> store.Some? && store.value.isOpen && !isOpen
  {
    match store
    case None => Transition(GetStatus(store, now), false)
    case Some(s) =>
      var s1 := s.(isOpen := isOpen, lastUpdated := now);
      var s2 := if !isOpen then s1.(currentCount := 0) else s1;
      Transition(s2, s.isOpen && !isOpen)
  }

  /** ResetAsync: zeroes the count and closes the pool, without being a
      closing transition (no side effects are triggered). */
  function Reset(store: Option<PoolStatus>, now: Instant): (r: PoolStatus)
    ensures store.None? ==> r == GetStatus(store, now)
    ensures store.Some? ==> r.currentCount == 0 && !r.isOpen && r.lastUpdated == now
    ensures store.Some? ==>
      r.maxCapacity == store.value.maxCapacity && r.site == store.value.site
  {
    match store
    case None => GetStatus(store, now)
    case Some(s) => s.(currentCount := 0, isOpen := false, lastUpdated := now)
  }

  /** Reset and closing leave the same record behind; they differ only in
      that closing an open pool is reported as a closing transition. */
  lemma ResetMatchesCloseButTriggersNothing(store: Option<PoolStatus>, now: Instant)
    requires store.Some?
    ensures Reset(store, now) == SetOpenStatus(store, false, now).status
    ensures SetOpenStatus(store, false, now).closing <==> store.value.isOpen
  {
  }

  /** An admitted entry followed by an exit restores the count. */
  lemma EnterThenExitRestoresCount(s: PoolStatus, now: Instant, later: Instant)
    requires Valid(s) && Enter(Some(s), now).admitted
    ensures Exit(Some(Enter(Some(s), now).status), later).currentCount == s.currentCount
  {
  }

  /** Setting the same count twice is the same as setting it once, and the
      stored count equals the request exactly when the request is in range. */
  lemma SetCountIdempotent(s: PoolStatus, value: Int32, now: Instant)
    requires Valid(s)
    ensures SetCount(Some(SetCount(Some(s), value, now)), value, now) == SetCount(Some(s), value, now)
    ensures SetCount(Some(s), value, now).currentCount == value <==> 0 <= value <= s.maxCapacity
  {
  }

  /** The opening-hours table, by day of week (0 = Sunday): weekends open at
      09:00, weekdays at 10:00, any other key reads as closed. */
  function OpeningHours(dayOfWeek: int): (r: string)
    ensures dayOfWeek == 0 || dayOfWeek == 6 ==> r == "09:00–19:00"
    ensures 1 <= dayOfWeek <= 5 ==> r == "10:00–19:00"
    ensures dayOfWeek < 0 || dayOfWeek > 6 ==> r == "Encerrado"
  {
    match dayOfWeek
    case 0 => "09:00–19:00"
    case 1 => "10:00–19:00"
    case 2 => "10:00–19:00"
    case 3 => "10:00–19:00"
    case 4 => "10:00–19:00"
    case 5 => "10:00–19:00"
    case 6 => "09:00–19:00"
    case _ => "Encerrado"
  }

  /** The operations a caller can request through the API. */
  datatype Command =
    | EnterCmd
    | ExitCmd
    | SetCountCmd(count: Int32)
    | SetCapacityCmd(capacity: Int32)
    | SetOpenCmd(open: bool)
    | ResetCmd

  /** The record after one API operation. */
  function Apply(store: Option<PoolStatus>, cmd: Command, now: Instant): (r: PoolStatus)
    ensures store.None? ==> r == GetStatus(store, now)
  {
    match cmd
    case EnterCmd => Enter(store, now).status
    case ExitCmd => Exit(store, now)
    case SetCountCmd(v) => SetCount(store, v, now)
    case SetCapacityCmd(v) => SetCapacity(store, v, now)
    case SetOpenCmd(b) => SetOpenStatus(store, b, now).status
    case ResetCmd => Reset(store, now)
  }

  /** Every API operation keeps the occupancy invariant, starting from a valid
      record or from an empty table. */
  lemma ApplyPreservesValid(store: Option<PoolStatus>, cmd: Command, now: Instant)
    requires store.Some? ==> Valid(store.value)
    ensures Valid(Apply(store, cmd, now))
  {
  }

  /** The records after each of a sequence of API operations. */
  function Run(store: Option<PoolStatus>, cmds: seq<Command>, now: Instant): (trace: seq<PoolStatus>)
    ensures |trace| == |cmds|
    decreases |cmds|
  {
    if |cmds| == 0 then []
    else
      var s := Apply(store, cmds[0], now);
      [s] + Run(Some(s), cmds[1..], now)
  }

  /** The invariant holds after every call of any sequence of API operations. */
  lemma {:induction false} RunPreservesValid(store: Option<PoolStatus>, cmds: seq<Command>, now: Instant)
    requires store.Some? ==> Valid(store.value)
    ensures forall i :: 0 <= i < |cmds| ==> Valid(Run(store, cmds, now)[i])
    decreases |cmds|
  {
    if |cmds| > 0 {
      var s := Apply(store, cmds[0], now);
      ApplyPreservesValid(store, cmds[0], now);
      RunPreservesValid(Some(s), cmds[1..], now);
      assert Run(store, cmds, now) == [s] + Run(Some(s), cmds[1..], now);
    }
  }
}
