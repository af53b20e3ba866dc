/**
 One CPU's run queue: round-robin scheduling from the timer interrupt.  `Queue` is the state that the
 run-queue lock and the per-CPU atomics hold; a run is any sequence of ticks, additions and changes
 of task states.
 */
module Scheduler {
  import opened Wrappers

  type Task = nat

  datatype TaskState = Initializing | Running | Ready | Sleeping | Zombie

  /** A task the scheduler drops instead of queueing it again. */
  predicate Stopped(s: TaskState) { s.Sleeping? || s.Zombie? }

  type States = Task -> TaskState

  /** `context` is the task whose saved context the CPU points at. */
  datatype Queue = Queue(current: Option<Task>, ready: seq<Task>, readyCount: nat, context: Option<Task>, state: States)

  function With(state: States, t: Task, s: TaskState): States {
    (u: Task) => if u == t then s else state(u)
  }

  /** One timer tick. */
  function Tick(q: Queue): Queue {
    if q.readyCount == 0 || q.ready == [] then q
    else
      var next, rest := q.ready[0], q.ready[1..];
      var keep := q.current.Some? && !Stopped(q.state(q.current.value));
      var state := if keep then With(q.state, q.current.value, Ready) else q.state;
      Queue(Some(next), if keep then rest + [q.current.value] else rest, if keep then q.readyCount
                        else q.readyCount - 1,
            Some(next), With(state, next, Running))
  }

  function AddTask(q: Queue, t: Task): Queue {
    q.(ready := q.ready + [t], readyCount := q.readyCount + 1)
  }

  /** What holds whenever the lock is free. */
  predicate Valid(q: Queue) {
    q.readyCount == |q.ready| && q.context == q.current
  }

  class RunQueue {
    var current: Option<Task>
    var ready: seq<Task>
    var readyCount: nat
    var context: Option<Task>
    var state: States

    function Contents(): Queue
      reads this
    {
      Queue(current, ready, readyCount, context, state)
    }

    constructor (state: States)
      ensures Contents() == Queue(None, [], 0, None, state)
    {
      this.current, this.ready, this.readyCount, this.context, this.state := None, [], 0, None, state;
    }

    method Add(t: Task)
      requires Valid(Contents())
      modifies `ready, `readyCount
      ensures Valid(Contents()) && Contents() == AddTask(old(Contents()), t)
    {
      ready := ready + [t];
      readyCount := readyCount + 1;
    }

    /** A task's state is stored, by itself or by whoever wakes it. */
    method Mark(t: Task, s: TaskState)
      requires Valid(Contents())
      modifies `state
      ensures Valid(Contents()) && Contents() == old(Contents()).(state := With(old(state), t, s))
    {
      state := With(state, t, s);
    }

    /** Queue the outgoing task again if it can still run. */
    method Requeue()
      modifies this
      ensures context == old(context) && current == None
      ensures
        var keep :=
          old(current).Some? && !old(state)(old(current).value).Sleeping? && !old(state)(old(current).value).Zombie?;
        && ready == (if keep then old(ready) + [old(current).value] else old(ready))
        && readyCount == (if keep then old(readyCount) + 1 else old(readyCount))
        && state == (if keep then With(old(state), old(current).value, Ready) else old(state))
    {
      var prev := current;
      current := None;
      if prev.Some? {
        match state(prev.value) {
          case Zombie =>
          case Sleeping =>
          case _ =>
            state := With(state, prev.value, Ready);
            ready := ready + [prev.value];
            readyCount := readyCount + 1;
        }
      }
    }

    /** Pick the next task; returns the context to resume. */
    method ScheduleFromInterrupt() returns (next: Option<Task>)
      requires Valid(Contents())
      modifies this
      ensures Valid(Contents()) && Contents() == Tick(old(Contents())) && next == context
    {
      if readyCount == 0 { return context; }
      if ready == [] { return context; }
      var task := ready[0];
      ready := ready[1..];
      readyCount := readyCount - 1;
      Requeue();
      state := With(state, task, Running);
      current := Some(task);
      context := Some(task);
      next := Some(task);
    }
  }

  // --- Runs ---

  datatype Event = Timer | Add(task: Task) | Mark(task: Task, to: TaskState)

  function Apply(q: Queue, e: Event): Queue {
    match e
    case Timer => Tick(q)
    case Add(t) => AddTask(q, t)
    case Mark(t, s) => q.(state := With(q.state, t, s))
  }

  function Run(q: Queue, events: seq<Event>): Queue
    decreases |events|
  {
    if events == [] then q else Run(Apply(q, events[0]), events[1..])
  }

  function Ticks(events: seq<Event>): nat {
    if events == [] then 0 else (if events[0].Timer? then 1 else 0) + Ticks(events[1..])
  }

  lemma {:induction false} RunKeepsValid(q: Queue, events: seq<Event>)
    requires Valid(q)
    ensures Valid(Run(q, events))
    decreases |events|
  {
    if events != [] { RunKeepsValid(Apply(q, events[0]), events[1..]); }
  }

  /** A queued task moves up one place per tick, whatever is added meanwhile. */
  lemma {:induction false} MovesUp(q: Queue, events: seq<Event>, k: nat)
    requires Valid(q) && k < |q.ready| && Ticks(events) <= k
    ensures var r := Run(q, events); k - Ticks(events) < |r.ready| && r.ready[k - Ticks(events)] == q.ready[k]
    decreases |events|
  {
    if events != [] {
      var q' := Apply(q, events[0]);
      MovesUp(q', events[1..], if events[0].Timer? then k - 1 else k);
    }
  }

  /** Round robin: the task at position k runs after exactly k+1 ticks. */
  lemma RoundRobin(q: Queue, events: seq<Event>, k: nat)
    requires Valid(q) && k < |q.ready| && Ticks(events) == k
    ensures Tick(Run(q, events)).current == Some(q.ready[k]) && Tick(Run(q, events)).context == Some(q.ready[k])
    ensures Tick(Run(q, events)).state(q.ready[k]) == Running
  {
    MovesUp(q, events, k);
    RunKeepsValid(q, events);
  }

  /** The task waits at position k and nowhere else. */
  predicate WaitsAt(q: Queue, t: Task, k: nat) {
    && k < |q.ready| && q.ready[k] == t && q.current != Some(t)
    && forall i :: 0 <= i < |q.ready| && i != k ==> q.ready[i] != t
  }

  predicate Adds(events: seq<Event>, t: Task) {
    exists i :: 0 <= i < |events| && events[i] == Add(t)
  }

  /** And not before: until then it is not current. */
  lemma {:induction false} NotEarlier(q: Queue, events: seq<Event>, t: Task, k: nat)
    requires Valid(q) && WaitsAt(q, t, k) && Ticks(events) <= k && !Adds(events, t)
    ensures Run(q, events).current != Some(t)
    decreases |events|
  {
    if events != [] {
      var q', rest := Apply(q, events[0]), events[1..];
      assert forall i :: 0 <= i < |rest| ==> rest[i] == events[i + 1];
      assert events[0] != Add(t);
      NotEarlier(q', rest, t, if events[0].Timer? then k - 1 else k);
    }
  }

  // --- One tick ---

  /** With nothing queued a tick changes nothing; otherwise the first of the queue runs. */
  lemma NextRuns(q: Queue)
    requires Valid(q)
    ensures q.ready == [] ==> Tick(q) == q
    ensures q.ready != [] ==>
      var r, next := Tick(q), q.ready[0];
      && Valid(r) && r.current == Some(next) && r.context == Some(next) && r.state(next) == Running
      && (forall t: Task :: t != next && q.current != Some(t) ==> r.state(t) == q.state(t))
      && (q.current == None ==> r.ready == q.ready[1..])
  {
  }

  /** What becomes of the outgoing task, by its state: one that sleeps or is dead leaves the CPU as it is,
      any other goes to the back of the queue, ready. */
  lemma OutgoingTask(q: Queue, t: Task)
    requires Valid(q) && q.ready != [] && q.current == Some(t)
    ensures q.state(t) == Sleeping || q.state(t) == Zombie ==>
      Tick(q).ready == q.ready[1..] && (t != q.ready[0] ==> Tick(q).state(t) == q.state(t))
    ensures q.state(t) == Initializing || q.state(t) == Running || q.state(t) == Ready ==>
      Tick(q).ready == q.ready[1..] + [t] && (t != q.ready[0] ==> Tick(q).state(t) == Ready)
  {
  }

  // --- Conservation ---

  function Members(q: Queue): multiset<Task> {
    multiset(q.ready) + (if q.current.Some? then multiset{q.current.value} else multiset{})
  }

  /** What a tick drops: a stopped outgoing task, when there is another to run. */
  function Dropped(q: Queue): multiset<Task> {
    if q.readyCount > 0 && q.current.Some? && (q.state(q.current.value).Sleeping? || q.state(q.current.value).Zombie?)
    then multiset{q.current.value} else multiset{}
  }

  lemma TickConserves(q: Queue)
    requires Valid(q)
    ensures Members(q) == Members(Tick(q)) + Dropped(q)
  {
    if q.ready != [] { assert q.ready == [q.ready[0]] + q.ready[1..]; }
  }

  function AllDropped(q: Queue, events: seq<Event>): multiset<Task>
    decreases |events|
  {
    if events == [] then multiset{}
    else (if events[0].Timer? then Dropped(q) else multiset{}) + AllDropped(Apply(q, events[0]), events[1..])
  }

  function AllAdded(events: seq<Event>): multiset<Task> {
    if events == [] then multiset{}
    else (if events[0].Add? then multiset{events[0].task} else multiset{}) + AllAdded(events[1..])
  }

  lemma StepConserves(q: Queue, e: Event)
    requires Valid(q)
    ensures Members(Apply(q, e)) + (if e.Timer? then Dropped(q) else multiset{}) ==
      Members(q) + (if e.Add? then multiset{e.task} else multiset{})
  {
    if e.Timer? { TickConserves(q); }
  }

  // --- Blocking ---

  predicate Marks(events: seq<Event>, t: Task) {
    exists i :: 0 <= i < |events| && events[i].Mark? && events[i].task == t
  }

  /** Without an addition a task does not come back. */
  lemma {:induction false} GoneStaysGone(q: Queue, t: Task, events: seq<Event>)
    requires Valid(q) && t !in Members(q) && !Adds(events, t)
    ensures t !in Members(Run(q, events))
    decreases |events|
  {
    if events != [] {
      var rest := events[1..];
      assert forall i :: 0 <= i < |rest| ==> rest[i] == events[i + 1];
      assert events[0] != Add(t);
      ApplyKeepsValid(q, events[0]);
      StepConserves(q, events[0]);
      hide Members, Dropped, Apply;
      GoneStaysGone(Apply(q, events[0]), t, rest);
    }
  }

  /** A current task that sleeps or is dead is gone after the next tick. */
  lemma {:induction false} StoppedTaskLeaves(q: Queue, t: Task, events: seq<Event>)
    requires Valid(q) && q.current == Some(t) && t !in q.ready && q.ready != []
    requires q.state(t).Sleeping? || q.state(t).Zombie?
    requires !Adds(events, t) && !Marks(events, t) && Ticks(events) > 0
    ensures t !in Members(Run(q, events))
    decreases |events|
  {
    var q', rest := Apply(q, events[0]), events[1..];
    assert forall i :: 0 <= i < |rest| ==> rest[i] == events[i + 1];
    assert events[0] != Add(t) && (events[0].Mark? ==> events[0].task != t);
    if events[0].Timer? {
      OutgoingTask(q, t);
      assert t !in q.ready[1..];
      GoneStaysGone(q', t, rest);
    } else {
      StoppedTaskLeaves(q', t, rest);
    }
  }

  /** Blocking or exiting: a current task that is marked sleeping or dead while another can run leaves the CPU
      with the next tick, and does not come back until it is added again, whatever else happens. */
  lemma BlockedTaskLeaves(q: Queue, t: Task, s: TaskState, events: seq<Event>)
    requires Valid(q) && q.current == Some(t) && t !in q.ready && q.ready != [] && (s.Sleeping? || s.Zombie?)
    requires !Adds(events, t) && !Marks(events, t) && Ticks(events) > 0
    ensures t !in Members(Run(q, [Mark(t, s)] + events))
  {
    assert ([Mark(t, s)] + events)[1..] == events;
    StoppedTaskLeaves(Apply(q, Mark(t, s)), t, events);
  }

  /** Over a whole run no task is lost or duplicated. */
  lemma {:induction false} RunConserves(q: Queue, events: seq<Event>)
    requires Valid(q)
    ensures Members(Run(q, events)) + AllDropped(q, events) == Members(q) + AllAdded(events)
    decreases |events|
  {
    if events != [] {
      hide Members, Dropped, Apply;
      var q', rest := Apply(q, events[0]), events[1..];
      StepConserves(q, events[0]);
      ApplyKeepsValid(q, events[0]);
      RunConserves(q', rest);
      var d := if events[0].Timer? then Dropped(q) else multiset{};
      var a := if events[0].Add? then multiset{events[0].task} else multiset{};
      assert AllDropped(q, events) == d + AllDropped(q', rest) && AllAdded(events) == a + AllAdded(rest);
      Rearrange(Members(Run(q', rest)), AllDropped(q', rest), Members(q'), AllAdded(rest), d, Members(q), a);
    }
  }

  lemma Rearrange(end: multiset<Task>, dropped: multiset<Task>, mid: multiset<Task>, added: multiset<Task>,
                  d: multiset<Task>, start: multiset<Task>, a: multiset<Task>)
    requires end + dropped == mid + added && mid + d == start + a
    ensures end + (d + dropped) == start + (a + added)
  {
    assert end + dropped + d == mid + d + added;
    assert end + (d + dropped) == end + dropped + d;
    assert start + (a + added) == start + a + added;
  }

  lemma ApplyKeepsValid(q: Queue, e: Event)
    requires Valid(q)
    ensures Valid(Apply(q, e))
  {
  }

  // --- The idle task ---

  /** The CPU has its idle task, which never stops, and no task is in two places. */
  ghost predicate Idling(q: Queue, idle: Task) {
    && Valid(q) && idle in Members(q) && !q.state(idle).Sleeping? && !q.state(idle).Zombie?
    && forall t :: Members(q)[t] <= 1
  }

  /** Tasks are added only when neither queued nor current, and the idle task never blocks. */
  predicate Allowed(q: Queue, e: Event, idle: Task) {
    && (e.Add? ==> e.task !in Members(q))
    && (e.Mark? ==> e.task == idle ==> !e.to.Sleeping? && !e.to.Zombie?)
  }

  ghost predicate AllAllowed(q: Queue, events: seq<Event>, idle: Task)
    decreases |events|
  {
    events != [] ==> Allowed(q, events[0], idle) && AllAllowed(Apply(q, events[0]), events[1..], idle)
  }

  lemma IdlingStep(q: Queue, e: Event, idle: Task)
    requires Idling(q, idle) && Allowed(q, e, idle)
    ensures Idling(Apply(q, e), idle)
  {
    hide Apply, Dropped, Members, Valid;
    StepConserves(q, e);
    ApplyKeepsValid(q, e);
    IdleKeepsGoing(q, e, idle);
    IdleIsNotDropped(q, idle);
    var d := if e.Timer? then Dropped(q) else multiset{};
    var a := if e.Add? then multiset{e.task} else multiset{};
    AtMostOnce(Members(q), Members(Apply(q, e)), d, a);
    Remains(Members(q), Members(Apply(q, e)), d, a, idle);
  }

  lemma IdleIsNotDropped(q: Queue, idle: Task)
    requires !q.state(idle).Sleeping? && !q.state(idle).Zombie?
    ensures idle !in Dropped(q)
  {
  }

  lemma Remains(m: multiset<Task>, m': multiset<Task>, d: multiset<Task>, a: multiset<Task>, t: Task)
    requires m' + d == m + a && t in m && t !in d
    ensures t in m'
  {
    assert (m' + d)[t] == (m + a)[t];
  }

  lemma AtMostOnce(m: multiset<Task>, m': multiset<Task>, d: multiset<Task>, a: multiset<Task>)
    requires m' + d == m + a && (forall t :: m[t] <= 1) && (forall t :: t in a ==> a[t] == 1 && t !in m)
    ensures forall t :: m'[t] <= 1
  {
    forall t ensures m'[t] <= 1 { assert (m' + d)[t] == (m + a)[t]; }
  }

  lemma IdleKeepsGoing(q: Queue, e: Event, idle: Task)
    requires !q.state(idle).Sleeping? && !q.state(idle).Zombie?
    requires e.Mark? ==> e.task == idle ==> !e.to.Sleeping? && !e.to.Zombie?
    ensures !Apply(q, e).state(idle).Sleeping? && !Apply(q, e).state(idle).Zombie?
  {
  }

  lemma {:induction false} IdlingForever(q: Queue, events: seq<Event>, idle: Task)
    requires Idling(q, idle) && AllAllowed(q, events, idle)
    ensures Idling(Run(q, events), idle)
    decreases |events|
  {
    if events != [] {
      IdlingStep(q, events[0], idle);
      IdlingForever(Apply(q, events[0]), events[1..], idle);
    }
  }

  /** No tick ever resumes an outgoing task that is asleep or dead; the shortcut for an empty queue can
      only be taken while the idle task runs. */
  lemma StoppedIsNotResumed(q: Queue, events: seq<Event>, idle: Task)
    requires Idling(q, idle) && AllAllowed(q, events, idle)
    ensures var r := Run(q, events);
      && (r.readyCount == 0 ==> r.current == Some(idle))
      && (r.current.Some? && (r.state(r.current.value).Sleeping? || r.state(r.current.value).Zombie?) ==>
            Tick(r).current != r.current && Tick(r).context != r.current)
  {
    IdlingForever(q, events, idle);
    var r := Run(q, events);
    assert Members(r)[idle] >= 1;
    if r.readyCount > 0 && r.current.Some? {
      assert Members(r)[r.ready[0]] <= 1;
      assert r.ready == [r.ready[0]] + r.ready[1..];
    }
  }
}
