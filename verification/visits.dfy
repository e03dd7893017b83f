/** The per-date visitor counter (VisitService): one entry per calendar day,
    bumped once for every admission to the pool. */
module Visits {
  import opened Common

  /** The DailyVisitors table: total visitors per day. The day is a unique key. */
  type VisitLog = map<Date, int>

  /** Records one more visitor on `today`: a missing day starts at 1, an
      existing day goes up by one, and no other day is touched. */
  function IncrementDailyVisitors(visits: VisitLog, today: Date): (r: VisitLog)
    ensures today in r
    ensures today !in visits ==> r[today] == 1
    ensures today in visits ==> r[today] == visits[today] + 1
    ensures forall d :: d != today ==> (d in r <==> d in visits)
    ensures forall d :: d != today && d in visits ==> r[d] == visits[d]
  {
    if today in visits then visits[today := visits[today] + 1]
    else visits[today := 1]
  }

  /** The visitor total of `today`, zero when the day has no entry yet. */
  function GetTodayVisitors(visits: VisitLog, today: Date): (n: int)
    ensures today in visits ==> n == visits[today]
    ensures today !in visits ==> n == 0
  {
    if today in visits then visits[today] else 0
  }

  /** One increment raises the day's reading by exactly one, whether or not
      the day already had an entry. */
  lemma IncrementAddsOne(visits: VisitLog, today: Date)
    ensures GetTodayVisitors(IncrementDailyVisitors(visits, today), today)
         == GetTodayVisitors(visits, today) + 1
  {
  }

  /** Incrementing one day leaves the reading of every other day unchanged. */
  lemma IncrementIsLocal(visits: VisitLog, today: Date, other: Date)
    requires other != today
    ensures GetTodayVisitors(IncrementDailyVisitors(visits, today), other)
         == GetTodayVisitors(visits, other)
  {
  }
}
