/**
 The task store: an ordered map from numeric id to task, plus the counter that
 hands out the next id. User actions (add, remove, toggle) act on it directly.
 */
module TaskStore {
  import opened Tasks

  /** The `todos` map and the `id` counter of the application state. */
  datatype Store = Store(todos: map<nat, Task>, nextId: nat)

  /** Every stored id was handed out before: it lies below the counter. */
  predicate Valid(s: Store)
  {
    forall k :: k in s.todos ==> k < s.nextId
  }

  /** The state the application starts from when nothing was persisted. */
  function Empty(): (s: Store)
    ensures Valid(s)
    ensures |s.todos| == 0
    ensures s.nextId == 0
  {
    Store(map[], 0)
  }

  /** The task the "Add new" button creates: not done, marker seeded with 1. */
  function NewTask(name: string, daily: bool): Task
  {
    Task(name, false, if daily then Daily(1) else Weekly(1))
  }

  /**
   Inserts a new task under the current counter value and advances the counter.
   The insertion replaces whatever is stored under that id; under `Valid` there
   is nothing there, so no task is ever overwritten.
   */
  function Add(s: Store, name: string, daily: bool): (r: Store)
    ensures r.nextId == s.nextId + 1
    ensures r.todos.Keys == s.todos.Keys + {s.nextId}
    ensures s.nextId in r.todos
    ensures r.todos[s.nextId].name == name
    ensures !r.todos[s.nextId].done
    ensures r.todos[s.nextId].period.Daily? <==> daily
    ensures Extract(r.todos[s.nextId].period) == 1
    ensures forall k :: k in s.todos && k != s.nextId ==> r.todos[k] == s.todos[k]
    ensures Valid(s) ==> s.nextId !in s.todos && Valid(r) && |r.todos| == |s.todos| + 1
  {
    Store(s.todos[s.nextId := NewTask(name, daily)], s.nextId + 1)
  }

  /** Deletes the entry under `id`, if there is one. */
  function RemoveOne(s: Store, id: nat): (r: Store)
    ensures r.nextId == s.nextId
    ensures id !in r.todos
    ensures forall k :: k in r.todos <==> k in s.todos && k != id
    ensures forall k :: k in r.todos ==> r.todos[k] == s.todos[k]
    ensures id !in s.todos ==> r == s
    ensures Valid(s) ==> Valid(r)
  {
    Store(s.todos - {id}, s.nextId)
  }

  /**
   Deletes, one after the other, every id collected during a frame. Absent and
   repeated ids are no-ops.
   */
  function Remove(s: Store, ids: seq<nat>): (r: Store)
    ensures r.nextId == s.nextId
    ensures forall k :: k in r.todos <==> k in s.todos && k !in ids
    ensures forall k :: k in r.todos ==> r.todos[k] == s.todos[k]
    ensures Valid(s) ==> Valid(r)
    decreases |ids|
  {
    if |ids| == 0 then s else Remove(RemoveOne(s, ids[0]), ids[1..])
  }

  /** Flips the `done` checkbox of the task under `id`; nothing if absent. */
  function Toggle(s: Store, id: nat): (r: Store)
    ensures r.nextId == s.nextId
    ensures r.todos.Keys == s.todos.Keys
    ensures id in s.todos ==>
              && r.todos[id].done == !s.todos[id].done
              && r.todos[id].name == s.todos[id].name
              && r.todos[id].period == s.todos[id].period
    ensures forall k :: k in s.todos && k != id ==> r.todos[k] == s.todos[k]
    ensures id !in s.todos ==> r == s
    ensures Valid(s) ==> Valid(r)
  {
    if id in s.todos then
      var t := s.todos[id];
      Store(s.todos[id := t.(done := !t.done)], s.nextId)
    else
      s
  }

  /** Clicking a checkbox twice restores the store. */
  lemma ToggleTwice(s: Store, id: nat)
    ensures Toggle(Toggle(s, id), id) == s
  {
  }

  /** Removing the same batch twice changes nothing the second time. */
  lemma RemoveIdempotent(s: Store, ids: seq<nat>)
    ensures Remove(Remove(s, ids), ids) == Remove(s, ids)
  {
  }

  /** Once removed, an id is neither toggled nor removed again. */
  lemma RemovedIdIsInert(s: Store, id: nat)
    ensures Toggle(RemoveOne(s, id), id) == RemoveOne(s, id)
    ensures RemoveOne(RemoveOne(s, id), id) == RemoveOne(s, id)
  {
  }

  /**
   An id handed out by `Add` is never reused: after removing any batch, the
   new task's id differs from every id stored before the removal, and every
   task that survived the removal keeps its entry.
   */
  lemma RemovedIdNotReassigned(s: Store, ids: seq<nat>, name: string, daily: bool)
    requires Valid(s)
    ensures var r := Add(Remove(s, ids), name, daily);
            && s.nextId !in s.todos
            && s.nextId in r.todos && r.todos[s.nextId].name == name
            && forall k :: k in s.todos && k !in ids ==> k in r.todos && r.todos[k] == s.todos[k]
  {
  }
}
