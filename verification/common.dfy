/** Shared vocabulary: optional values, the C# `int` range, and the abstract
    clock values (instants, calendar dates, local time of day). */
module Common {

  /** A value that may be absent: a nullable reference or `Nullable<T>`. */
  datatype Option<+T> = None | Some(value: T) {
    /** The value if present, otherwise `default` (the `??` operator). */
    function GetOr(default: T): T {
      match this
      case Some(v) => v
      case None => default
    }
  }

  /** A success value or an error value. */
  datatype Result<+R, +E> = Success(value: R) | Failure(error: E)

  const Int32Min: int := -0x8000_0000
  const Int32Max: int := 0x7FFF_FFFF

  /** The range of the C# `int` type. */
  type Int32 = x: int | -0x8000_0000 <= x <= 0x7FFF_FFFF

  /** Reduces an unbounded integer into the `int` range the way unchecked C#
      arithmetic does (two's-complement wrap-around). */
  function Wrap32(x: int): (r: Int32)
    ensures Int32Min <= x <= Int32Max ==> r == x
    ensures (x - r) % 0x1_0000_0000 == 0
  {
    (x - Int32Min) % 0x1_0000_0000 + Int32Min
  }

  /** Math.Max / Math.Min on `int`. */
  function Max(a: int, b: int): int { if a >= b then a else b }
  function Min(a: int, b: int): int { if a <= b then a else b }

  /** A point in time, as a count of ticks since the epoch (`DateTime`). */
  type Instant = nat

  /** A calendar day, as a day number (`DateOnly`). */
  type Date = int

  const TicksPerDay: nat := 864_000_000_000

  /** The calendar day an instant falls on (`DateTime.Date`, `DateOnly.FromDateTime`). */
  function DateOf(t: Instant): Date {
    t / TicksPerDay
  }

  /** A local time of day, in whole seconds since midnight (`DateTime.TimeOfDay`).
      Every boundary the system compares against is a whole hour, so dropping
      the sub-second part changes no comparison. */
  type TimeOfDay = t: int | 0 <= t < 86400

  const SecondsPerHour: int := 3600

  /** The hour of the day (0..23) a time of day falls in. */
  function HourOf(t: TimeOfDay): int {
    t / SecondsPerHour
  }
}
