/** The reporting window of the noon task (index.js): the seven local calendar days ending
    today. Instants are milliseconds on the local clock; day `n` covers the instants
    `n * DayMs` up to `n * DayMs + DayMs - 1`. */
module Periods {

  const DayMs: int := 86_400_000

  /** An inclusive interval of instants: both `start` and `end` belong to it. */
  datatype Window = Window(start: int, end: int) {
    predicate Contains(t: int) {
      start <= t && t <= end
    }
  }

  /** The day an instant falls on (division rounds down, also before day 0). */
  function DayOf(t: int): int {
    t / DayMs
  }

  /** `setHours(0, 0, 0, 0)`: the first millisecond of day `d`. */
  function StartOfDay(d: int): int {
    d * DayMs
  }

  /** `setHours(23, 59, 59, 999)`: the last millisecond of day `d`. */
  function EndOfDay(d: int): int {
    d * DayMs + 23 * 3_600_000 + 59 * 60_000 + 59 * 1000 + 999
  }

  /** The instants of day `d` are exactly those from its first to its last millisecond. */
  lemma DayBounds(t: int, d: int)
    ensures DayOf(t) == d <==> StartOfDay(d) <= t <= EndOfDay(d)
  {
    var q := t / DayMs;
    var r := t % DayMs;
    assert t == q * DayMs + r && 0 <= r < DayMs;
  }

  /** Task 1's window: `end` is today at 23:59:59.999 and `start` is six days earlier at
      00:00:00.000. An instant lies in it exactly when its day is one of the last seven. */
  function TrailingWeek(now: int): (w: Window)
    ensures w.start < w.end && w.Contains(now)
    ensures w.end - w.start + 1 == 7 * DayMs
    ensures DayOf(w.start) == DayOf(now) - 6 && DayOf(w.end) == DayOf(now)
    ensures forall t :: w.Contains(t) <==> DayOf(now) - 6 <= DayOf(t) <= DayOf(now)
  {
    var today := DayOf(now);
    var w := Window(StartOfDay(today - 6), EndOfDay(today));
    DayBounds(now, today);
    DayBounds(w.start, today - 6);
    DayBounds(w.end, today);
    forall t ensures w.Contains(t) <==> today - 6 <= DayOf(t) <= today {
      DayBounds(t, DayOf(t));
    }
    w
  }
}
