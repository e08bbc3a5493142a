/**
 Task records and their recurrence period.

 A task is either daily or weekly; its period carries a marker, the last
 day-of-month (daily) or ISO week number (weekly) for which its `done` flag is
 known to be valid. Markers are 8-bit unsigned values, as in the Rust
 program, and calendar values reach them through an explicit `as u8` cast.
 */
module Tasks {

  /** An unsigned 8-bit integer: the width of a period marker. */
  type U8 = x: int | 0 <= x < 256

  /** The `as u8` cast: keeps the low eight bits of a calendar value. */
  function AsU8(x: nat): (r: U8)
    ensures r <= x
    ensures x < 256 ==> r == x
    ensures (x - r) % 256 == 0
  {
    x % 256
  }

  /** The recurrence of a task: every day or every ISO week, with its marker. */
  datatype Interval = Daily(marker: U8) | Weekly(marker: U8)

  /** One to-do item. Names need not be unique. */
  datatype Task = Task(name: string, done: bool, period: Interval)

  /** The marker of a period, whichever its variant. */
  function Extract(p: Interval): (m: U8)
    ensures p == Daily(m) || p == Weekly(m)
  {
    match p
    case Daily(s) => s
    case Weekly(s) => s
  }

  /** A period of the same variant as `p` carrying the marker `m`. */
  function WithMarker(p: Interval, m: U8): (q: Interval)
    ensures q.Daily? <==> p.Daily?
    ensures Extract(q) == m
  {
    match p
    case Daily(_) => Daily(m)
    case Weekly(_) => Weekly(m)
  }

  /** Reading the marker and writing it back are inverse to each other. */
  lemma MarkerRoundTrip(p: Interval, m: U8)
    ensures WithMarker(p, Extract(p)) == p
    ensures Extract(WithMarker(p, m)) == m
    ensures WithMarker(WithMarker(p, m), Extract(p)) == p
  {
  }
}
