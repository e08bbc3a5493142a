/**
 The recurrence engine: once per frame every task is compared with the current
 calendar and, when its marker is strictly behind, its `done` flag is cleared
 and its marker advanced. The calendar arrives as two naturals, the day of the
 month and the ISO week number, each narrowed by the `as u8` cast.
 */
module Recurrence {
  import opened Tasks
  import opened TaskStore

  /** The calendar value a period is compared with, after the `as u8` cast. */
  function PeriodNow(p: Interval, day: nat, week: nat): U8
  {
    match p
    case Daily(_) => AsU8(day)
    case Weekly(_) => AsU8(week)
  }

  /** A task whose marker has caught up with the calendar. */
  predicate IsCurrent(t: Task, day: nat, week: nat)
  {
    Extract(t.period) >= PeriodNow(t.period, day, week)
  }

  /** The refresh rule applied to one task. */
  function RefreshTask(t: Task, day: nat, week: nat): (r: Task)
    ensures r.name == t.name
    ensures r.period.Daily? <==> t.period.Daily?
    ensures t.period.Daily? && Extract(t.period) < AsU8(day) ==>
              r == Task(t.name, false, Daily(AsU8(day)))
    ensures t.period.Daily? && Extract(t.period) >= AsU8(day) ==> r == t
    ensures t.period.Weekly? && Extract(t.period) < AsU8(week) ==>
              r == Task(t.name, false, Weekly(AsU8(week)))
    ensures t.period.Weekly? && Extract(t.period) >= AsU8(week) ==> r == t
  {
    var now := PeriodNow(t.period, day, week);
    if Extract(t.period) < now then
      Task(t.name, false, WithMarker(t.period, now))
    else
      t
  }

  /** After a refresh the task is current, and its marker never went down. */
  lemma RefreshTaskAdvances(t: Task, day: nat, week: nat)
    ensures IsCurrent(RefreshTask(t, day, week), day, week)
    ensures Extract(RefreshTask(t, day, week).period) >= Extract(t.period)
    ensures RefreshTask(t, day, week).done ==> t.done
  {
  }

  /** A task changes under refresh exactly when it is not current. */
  lemma RefreshTaskChangesIffStale(t: Task, day: nat, week: nat)
    ensures RefreshTask(t, day, week) == t <==> IsCurrent(t, day, week)
  {
  }

  /**
   A second refresh with the same calendar, or with an earlier one, changes
   nothing further.
   */
  lemma RefreshTaskSettles(t: Task, day: nat, week: nat, day': nat, week': nat)
    requires AsU8(day') <= AsU8(day) && AsU8(week') <= AsU8(week)
    ensures RefreshTask(RefreshTask(t, day, week), day', week') == RefreshTask(t, day, week)
  {
  }

  /**
   The wrap-around gap: when the day of the month or the week number falls
   below the marker (a new month, a new year), refresh does not notice, and a
   task done in the old period stays done.
   */
  lemma WrapAroundIsNotDetected(name: string, week: nat, day: nat)
    ensures RefreshTask(Task(name, true, Daily(31)), 1, week) == Task(name, true, Daily(31))
    ensures RefreshTask(Task(name, true, Weekly(52)), day, 1) == Task(name, true, Weekly(52))
    ensures forall t: Task :: t.period.Daily? && AsU8(day) < Extract(t.period) ==>
              RefreshTask(t, day, week).done == t.done
  {
  }

  /** The refresh pass over every task of the store. */
  function Refresh(s: Store, day: nat, week: nat): (r: Store)
    ensures r.nextId == s.nextId
    ensures r.todos.Keys == s.todos.Keys
    ensures forall k :: k in r.todos ==>
              && r.todos[k].name == s.todos[k].name
              && (r.todos[k].period.Daily? <==> s.todos[k].period.Daily?)
              && Extract(r.todos[k].period) >= Extract(s.todos[k].period)
              && IsCurrent(r.todos[k], day, week)
              && (IsCurrent(s.todos[k], day, week) ==> r.todos[k] == s.todos[k])
              && (!IsCurrent(s.todos[k], day, week) ==>
                    && !r.todos[k].done
                    && r.todos[k].period == WithMarker(s.todos[k].period, PeriodNow(s.todos[k].period, day, week)))
    ensures Valid(s) ==> Valid(r)
  {
    Store(map k | k in s.todos :: RefreshTask(s.todos[k], day, week), s.nextId)
  }

  /**
   Refreshing twice with the same calendar, or refreshing again with an
   earlier one, gives the store the first refresh gave.
   */
  lemma RefreshSettles(s: Store, day: nat, week: nat, day': nat, week': nat)
    requires AsU8(day') <= AsU8(day) && AsU8(week') <= AsU8(week)
    ensures Refresh(Refresh(s, day, week), day', week') == Refresh(s, day, week)
  {
  }

  /** Idempotence: a frame refreshing twice does what it does once. */
  lemma RefreshIdempotent(s: Store, day: nat, week: nat)
    ensures Refresh(Refresh(s, day, week), day, week) == Refresh(s, day, week)
  {
  }

  /** The store is left alone exactly when every task is current. */
  lemma RefreshFixpointIffAllCurrent(s: Store, day: nat, week: nat)
    ensures Refresh(s, day, week) == s <==>
            forall k :: k in s.todos ==> IsCurrent(s.todos[k], day, week)
  {
  }

  /**
   The refresh loop as written: visiting the keys one after the other, in the
   order given, and rewriting the task under each visited key.
   */
  function RefreshKeys(todos: map<nat, Task>, ks: seq<nat>, day: nat, week: nat): (r: map<nat, Task>)
    ensures r.Keys == todos.Keys
    decreases |ks|
  {
    if |ks| == 0 then
      todos
    else
      var k := ks[0];
      var next := if k in todos then todos[k := RefreshTask(todos[k], day, week)] else todos;
      RefreshKeys(next, ks[1..], day, week)
  }

  /**
   Visiting keys in any order, even with repetitions, refreshes exactly the
   visited tasks and leaves the rest as they were.
   */
  lemma {:induction false} RefreshKeysVisits(todos: map<nat, Task>, ks: seq<nat>, day: nat, week: nat)
    ensures forall k :: k in todos ==>
              RefreshKeys(todos, ks, day, week)[k] ==
              (if k in ks then RefreshTask(todos[k], day, week) else todos[k])
    decreases |ks|
  {
    if |ks| != 0 {
      var k0 := ks[0];
      var next := if k0 in todos then todos[k0 := RefreshTask(todos[k0], day, week)] else todos;
      RefreshKeysVisits(next, ks[1..], day, week);
      forall k | k in todos
        ensures RefreshKeys(todos, ks, day, week)[k] ==
                (if k in ks then RefreshTask(todos[k], day, week) else todos[k])
      {
        assert k in ks <==> k == k0 || k in ks[1..];
        if k == k0 && k in ks[1..] {
          RefreshTaskSettles(todos[k], day, week, day, week);
        }
      }
    }
  }

  /** Order does not matter: a loop over all keys, in any order, is `Refresh`. */
  lemma {:induction false} RefreshOrderIrrelevant(s: Store, ks: seq<nat>, day: nat, week: nat)
    requires forall k :: k in s.todos ==> k in ks
    ensures Store(RefreshKeys(s.todos, ks, day, week), s.nextId) == Refresh(s, day, week)
  {
    RefreshKeysVisits(s.todos, ks, day, week);
    assert RefreshKeys(s.todos, ks, day, week) == Refresh(s, day, week).todos;
  }

  /** The least id of a non-empty set: the first key an ordered map yields. */
  ghost function Least(ks: set<nat>): (m: nat)
    requires ks != {}
    ensures m in ks
    ensures forall j :: j in ks ==> m <= j
    decreases |ks|
  {
    var x :| x in ks;
    var rest := ks - {x};
    assert forall j :: j in ks ==> j == x || j in rest;
    if rest == {} then
      x
    else
      var m := Least(rest);
      if x < m then x else m
  }

  /** Every non-empty finite set of ids has a least element. */
  lemma LeastExists(ks: set<nat>)
    requires ks != {}
    ensures exists k :: k in ks && forall j :: j in ks ==> k <= j
  {
    var m := Least(ks);
    assert m in ks && forall j :: j in ks ==> m <= j;
  }

  /**
   The refresh loop of the frame update, visiting ids in ascending order as the
   ordered map does, and rewriting each task in place.
   */
  method RefreshLoop(s: Store, day: nat, week: nat) returns (r: Store)
    ensures r == Refresh(s, day, week)
  {
    var todos := s.todos;
    var pending := s.todos.Keys;
    while pending != {}
      invariant todos.Keys == s.todos.Keys
      invariant pending <= s.todos.Keys
      invariant forall k :: k in todos ==>
                  todos[k] == (if k in pending then s.todos[k] else RefreshTask(s.todos[k], day, week))
      decreases pending
    {
      LeastExists(pending);
      var k :| k in pending && forall j :: j in pending ==> k <= j;
      todos := todos[k := RefreshTask(todos[k], day, week)];
      pending := pending - {k};
    }
    r := Store(todos, s.nextId);
  }
}
