/** The SOAP twin of the occupancy controller (PoolDataService). Unlike the
    REST service its mutators do nothing at all when no record exists, and its
    bulk update stores whatever it is given. */
module PoolDataService {
  import opened Common
  import Occupancy

  /** The PoolStatusData contract a SOAP caller sends. */
  datatype PoolStatusData = PoolStatusData(
    currentCount: Int32,
    maxCapacity: Int32,
    isOpen: bool,
    site: Occupancy.Site)

  /** GetPoolStatus: the stored record, or the default record created on the
      spot when the table is empty. */
  function GetPoolStatus(store: Option<Occupancy.PoolStatus>, now: Instant): (r: Occupancy.PoolStatus)
    ensures store.Some? ==> r == store.value
    ensures store.None? ==> r.currentCount == 0 && r.maxCapacity == 120 && r.isOpen
  {
    match store
    case Some(s) => s
    case None =>
      Occupancy.PoolStatus(0, 120, true, now,
        Occupancy.Site("Piscina Municipal da Sobreposta", "R. da Piscina 22, 4715-553 Sobreposta", "253 636 948"))
  }

  /** Both services create the same default record. */
  lemma DefaultRecordsAgree(store: Option<Occupancy.PoolStatus>, now: Instant)
    ensures GetPoolStatus(store, now) == Occupancy.GetStatus(store, now)
  {
  }

  /** UpdatePoolStatus: copies count, capacity, flag and site verbatim, with no
      clamping; a missing record stays missing. */
  function UpdatePoolStatus(store: Option<Occupancy.PoolStatus>, data: PoolStatusData, now: Instant)
    : (r: Option<Occupancy.PoolStatus>)
    ensures store.None? ==> r.None?
    ensures store.Some? ==> r.Some? && r.value.currentCount == data.currentCount
    ensures store.Some? ==> r.value.maxCapacity == data.maxCapacity && r.value.isOpen == data.isOpen
    ensures store.Some? ==> r.value.site == data.site && r.value.lastUpdated == now
  {
    match store
    case None => None
    case Some(s) =>
      Some(s.(currentCount := data.currentCount, maxCapacity := data.maxCapacity,
              isOpen := data.isOpen, lastUpdated := now, site := data.site))
  }

  /** The bulk update does not guarantee the occupancy invariant: a valid
      record can be overwritten with a count above the capacity. */
  lemma UpdateCanBreakInvariant(now: Instant)
    ensures var s := Occupancy.GetStatus(None, now);
            Occupancy.Valid(s) &&
            !Occupancy.Valid(UpdatePoolStatus(Some(s), PoolStatusData(200, 120, true, s.site), now).value)
  {
  }

  /** IncrementCount: adds one only when the record exists, the count is below
      the capacity and the pool is open. */
  function IncrementCount(store: Option<Occupancy.PoolStatus>, now: Instant): (r: Option<Occupancy.PoolStatus>)
    ensures store.None? ==> r.None?
    ensures store.Some? && store.value.currentCount < store.value.maxCapacity && store.value.isOpen ==>
      r == Some(store.value.(currentCount := store.value.currentCount + 1, lastUpdated := now))
    ensures store.Some? && !(store.value.currentCount < store.value.maxCapacity && store.value.isOpen) ==>
      r == store
  {
    match store
    case None => None
    case Some(s) =>
      if s.currentCount < s.maxCapacity && s.isOpen then
        Some(s.(currentCount := s.currentCount + 1, lastUpdated := now))
      else store
  }

  /** DecrementCount: subtracts one only when the record exists and the count
      is above zero. */
  function DecrementCount(store: Option<Occupancy.PoolStatus>, now: Instant): (r: Option<Occupancy.PoolStatus>)
    ensures store.None? ==> r.None?
    ensures store.Some? && store.value.currentCount > 0 ==>
      r == Some(store.value.(currentCount := store.value.currentCount - 1, lastUpdated := now))
    ensures store.Some? && store.value.currentCount <= 0 ==> r == store
  {
    match store
    case None => None
    case Some(s) =>
      if s.currentCount > 0 then Some(s.(currentCount := s.currentCount - 1, lastUpdated := now))
      else store
  }

  /** On an existing record the SOAP increment and the REST entry leave the
      same record behind (the SOAP path does not count a daily visitor). */
  lemma IncrementAgreesWithEnter(s: Occupancy.PoolStatus, now: Instant)
    ensures IncrementCount(Some(s), now) == Some(Occupancy.Enter(Some(s), now).status)
  {
  }

  /** On an existing record the SOAP decrement and the REST exit agree. */
  lemma DecrementAgreesWithExit(s: Occupancy.PoolStatus, now: Instant)
    ensures DecrementCount(Some(s), now) == Some(Occupancy.Exit(Some(s), now))
  {
  }

  /** Increment and decrement keep the occupancy invariant. */
  lemma CountersPreserveValid(s: Occupancy.PoolStatus, now: Instant)
    requires Occupancy.Valid(s)
    ensures Occupancy.Valid(IncrementCount(Some(s), now).value)
    ensures Occupancy.Valid(DecrementCount(Some(s), now).value)
  {
  }
}
