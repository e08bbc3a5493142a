# Everyframe recurrence core in Dafny

Everyframe is a small to-do tracker. Every task is either daily or weekly.
Its `done` flag must reset by itself when a new day or ISO week begins. This
project models the only non-UI logic of the program:

- the task record and its period (`Daily(marker)` or `Weekly(marker)`, with an 8-bit marker);
- the store, which maps ids to tasks and keeps an id counter;
- the per-frame refresh pass, which resets stale tasks;
- the user actions that change the store: add, remove a batch, and flip a checkbox.

The model is purely functional and split into four modules:

- `Tasks` (`tasks.dfy`): the `U8` marker type and the `as u8` cast (`AsU8`), plus `Interval`, `Task`, `Extract` and `WithMarker`.
- `TaskStore` (`store.dfy`): `Store` (the `todos` map and the `nextId` counter), the invariant `Valid` (every key is below the counter), and `Add`, `RemoveOne`, `Remove` and `Toggle`.
- `Recurrence` (`recurrence.dfy`): `RefreshTask` (the rule for one task), `Refresh` (the pass as a map comprehension), `RefreshKeys` (the pass as a loop over keys in a given order) and `RefreshLoop` (a method that visits the ids in ascending order, as the ordered map does).
- `App` (`app.dfy`): events (a frame tick and the user's clicks), `Step`, `Run`, and the ids that a run hands out.

"Now" is not read from a clock. The refresh takes two naturals: the day of the
month and the ISO week number. Each goes through the explicit `as u8` cast
before it is compared with a marker.

Two behaviours are modelled exactly as the code has them:

- A new task is seeded with marker `1`, not with the current day or week. `App.AddThenTickSeedsToday` shows that after the next frame's refresh, the task equals one seeded with today's value.
- Wrap-around is not detected. The comparison is a strict `<`, so when the day of the month or the week number drops (31 to 1, or 52 to 1), a task that was done stays done. `Recurrence.WrapAroundIsNotDetected` states this.

One might expect a new task's marker to start at the current day or week.
The code seeds `1` (src/app.rs:183,185), and the model follows the code.

## Model

| member | source | states |
|---|---|---|
| Tasks.AsU8 | src/app.rs:105-107 | the `as u8` cast never increases a value, changes it by a multiple of 256, and leaves any calendar value below 256 unchanged |
| Tasks.Extract | src/app.rs:32-38 | the marker returned is the payload of the period, whichever variant it is |
| Tasks.WithMarker | src/app.rs:107-113 | rebuilding a period with a new marker keeps its variant and carries exactly that marker |
| Tasks.MarkerRoundTrip | src/app.rs:27-38 | reading a marker and writing it back are inverses, and writing never changes the variant |
| TaskStore.Empty | src/app.rs:51-60 | the default state has no tasks, its counter starts at 0, and it satisfies the store invariant |
| TaskStore.Add | src/app.rs:176-190 | the new task is not done, has the typed name, is daily exactly when the daily box was set, and has marker 1; it is stored under the old counter value; the counter grows by one; other entries are unchanged; under the invariant nothing is overwritten, the store grows by one, and the invariant still holds |
| TaskStore.RemoveOne | src/app.rs:168 | the id is gone, every other entry is kept unchanged, absent ids are a no-op, the counter is unchanged, and the invariant is preserved |
| TaskStore.Remove | src/app.rs:167-169 | after a batch, exactly the ids not in the batch remain, with unchanged tasks; the counter and the invariant are preserved |
| TaskStore.Toggle | src/app.rs:145-157 | clicking a checkbox flips only that task's `done` flag; the name, period, keys, other tasks and counter are kept; an absent id is a no-op |
| TaskStore.ToggleTwice | src/app.rs:148 | flipping the same checkbox twice restores the store |
| TaskStore.RemoveIdempotent | src/app.rs:167-169 | removing the same batch a second time changes nothing |
| TaskStore.RemovedIdIsInert | src/app.rs:167-169 | after removal, toggling or removing the same id again is a no-op |
| TaskStore.RemovedIdNotReassigned | src/app.rs:177-189 | a task added after a removal is stored under the counter value, which no task held before the removal, and the surviving tasks keep their entries |
| Recurrence.RefreshTask | src/app.rs:103-116 | daily with marker below the day: becomes not done, with the day as marker; weekly with marker below the week: likewise with the week; otherwise unchanged; the name and variant never change |
| Recurrence.RefreshTaskAdvances | src/app.rs:105-113 | after a refresh the marker has reached the current value; it never decreases; refresh can only clear `done`, never set it |
| Recurrence.RefreshTaskChangesIffStale | src/app.rs:104-115 | a task changes under refresh if and only if its marker is behind the calendar |
| Recurrence.RefreshTaskSettles | src/app.rs:104-115 | a second refresh with the same or an earlier day and week leaves a refreshed task alone |
| Recurrence.WrapAroundIsNotDetected | src/app.rs:105-111 | marker 31 on day 1, or marker 52 in week 1, leaves a done task done; in general, any day below the marker keeps `done` |
| Recurrence.Refresh | src/app.rs:102-117 | the pass keeps keys, counter, names and variants; no marker decreases; every task ends current; current tasks are untouched; stale tasks end not done, with the same variant and exactly the current day (daily) or week (weekly) as marker; the invariant is preserved |
| Recurrence.RefreshSettles | src/app.rs:102-117 | refreshing again with the same or an earlier calendar gives the store the first refresh gave |
| Recurrence.RefreshIdempotent | src/app.rs:102-117 | refreshing twice in one frame equals refreshing once |
| Recurrence.RefreshFixpointIffAllCurrent | src/app.rs:102-117 | the pass leaves the store unchanged if and only if every task is already current |
| Recurrence.RefreshKeys | src/app.rs:102-117 | a loop rewriting tasks key by key never adds or drops a key |
| Recurrence.RefreshKeysVisits | src/app.rs:102-117 | such a loop refreshes exactly the visited tasks, even when a key is visited twice, and leaves the others alone |
| Recurrence.RefreshOrderIrrelevant | src/app.rs:102-117 | visiting all keys in any order produces the same store as the refresh pass |
| Recurrence.RefreshLoop | src/app.rs:101-117 | the in-place loop over ids in ascending order computes the refresh pass |
| App.Step | src/app.rs:101-190 | each event keeps the invariant; only "Add new" moves the counter, by one; a tick or a checkbox keeps the keys; a removal only drops keys |
| App.Run | src/app.rs:176-189 | over any run of events, the counter grows by exactly the number of added tasks, and the invariant holds at the end |
| App.AssignedIds | src/app.rs:177-189 | the ids handed out in a run are consecutive from the starting counter, one per added task, and all are below the final counter |
| App.AssignedIdsAscend | src/app.rs:178-189 | ids handed out in a run strictly increase, so none repeats, even with removals in between |
| App.NextIdIsFresh | src/app.rs:177-189 | after any run from a valid store, the next id is unused and above every id stored at the start |
| App.AddThenTickSeedsToday | src/app.rs:182-186 | for real calendar values, a task added with marker 1 equals, after the next refresh, one seeded with the current day or week and not done |

## Left out

- Rendering (src/app.rs:119-198) is left out as UI only: the panels, columns, labels, menu bar, theme buttons and the debug-build warning. The checkbox and "Remove" clicks it collects appear as the `App.Event` values `ClickDone` and `ClickRemove`.
- The text field and the "daily?" checkbox (`task`, `daily`, src/app.rs:13-14) are UI input state. They become the `name` and `daily` parameters of `TaskStore.Add`.
- Font loading and `TemplateApp::new` (src/app.rs:64-88) are framework setup.
- Persistence (src/app.rs:83-85, 93-95) is left out because it is library serialization with no logic of its own. So is `Task::default` (src/app.rs:41-49), which only fills missing fields on load. No save/load round trip is stated.
- The wall clock (`Local::now`, `day`, `iso_week`, src/app.rs:101,105,111) is left out. The model takes the day and the week as parameters.
- The debug `print!` of the store (src/app.rs:193) is output only.
- src/wrap_app.rs is left out: it holds navigation anchors, URL hash handling, fullscreen, the top bar and a colour blend.
- TaskStore.Add: the counter is an unbounded natural. The source's `u64` counter would overflow after 2^64 additions; that is not modelled.
- App.Step: within one frame, the model applies the clicks one at a time, in the order the events list them. The source applies checkbox flips while it draws, then the collected removals, then the add.
