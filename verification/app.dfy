/**
 The application as a sequence of events on the store: a frame tick (which
 runs the refresh pass with the calendar of that moment) and the user's clicks
 on a checkbox, on a batch of "Remove" buttons, or on "Add new".
 */
module App {
  import opened Tasks
  import opened TaskStore
  import opened Recurrence

  datatype Event =
    | Tick(day: nat, week: nat)
    | ClickDone(id: nat)
    | ClickRemove(ids: seq<nat>)
    | ClickAdd(name: string, daily: bool)

  /** The effect of one event on the store. */
  function Step(s: Store, e: Event): (r: Store)
    ensures r.nextId == if e.ClickAdd? then s.nextId + 1 else s.nextId
    ensures e.Tick? ==> r.todos.Keys == s.todos.Keys
    ensures e.ClickDone? ==> r.todos.Keys == s.todos.Keys
    ensures e.ClickRemove? ==> r.todos.Keys <= s.todos.Keys
    ensures Valid(s) ==> Valid(r)
  {
    match e
    case Tick(day, week) => Refresh(s, day, week)
    case ClickDone(id) => Toggle(s, id)
    case ClickRemove(ids) => Remove(s, ids)
    case ClickAdd(name, daily) => Add(s, name, daily)
  }

  /** How many "Add new" clicks a run of events holds. */
  function AddCount(es: seq<Event>): nat
  {
    if |es| == 0 then 0 else (if es[0].ClickAdd? then 1 else 0) + AddCount(es[1..])
  }

  /**
   The store after a run of events. The counter only grows, by one per added
   task, and the store invariant holds throughout.
   */
  function Run(s: Store, es: seq<Event>): (r: Store)
    ensures r.nextId == s.nextId + AddCount(es)
    ensures Valid(s) ==> Valid(r)
    decreases |es|
  {
    if |es| == 0 then s else Run(Step(s, es[0]), es[1..])
  }

  /**
   The ids handed out by the "Add new" clicks of a run, in order: consecutive
   from the counter's starting value, hence strictly increasing and never
   repeated, whatever removals happen in between.
   */
  function AssignedIds(s: Store, es: seq<Event>): (ids: seq<nat>)
    ensures |ids| == AddCount(es)
    ensures forall i :: 0 <= i < |ids| ==> ids[i] == s.nextId + i
    ensures forall i :: 0 <= i < |ids| ==> ids[i] < Run(s, es).nextId
    decreases |es|
  {
    if |es| == 0 then
      []
    else
      (if es[0].ClickAdd? then [s.nextId] else []) + AssignedIds(Step(s, es[0]), es[1..])
  }

  /** Ids handed out in a run are pairwise distinct and ascend. */
  lemma AssignedIdsAscend(s: Store, es: seq<Event>)
    ensures forall i, j :: 0 <= i < j < |AssignedIds(s, es)| ==>
              AssignedIds(s, es)[i] < AssignedIds(s, es)[j]
  {
  }

  /**
   After any run from a valid store, the id the next "Add new" click takes
   belongs to no stored task, nor to any task stored at the start.
   */
  lemma NextIdIsFresh(s: Store, es: seq<Event>)
    requires Valid(s)
    ensures Run(s, es).nextId !in Run(s, es).todos
    ensures forall k :: k in s.todos ==> k < Run(s, es).nextId
  {
  }

  /**
   A task added with marker 1 is, after the next frame's refresh, exactly the
   task that seeding with the current day or week would have produced, for any
   real calendar value (day 1 to 31, week 1 to 53).
   */
  lemma AddThenTickSeedsToday(s: Store, name: string, daily: bool, day: nat, week: nat)
    requires 1 <= day <= 31 && 1 <= week <= 53
    ensures var r := Refresh(Add(s, name, daily), day, week);
            r.todos[s.nextId] == Task(name, false, if daily then Daily(day) else Weekly(week))
  {
  }
}
