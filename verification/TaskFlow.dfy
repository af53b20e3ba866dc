/**
 What becomes of tasks over runs of all CPUs: none is lost or duplicated between queues and hands, a task
 in hand gets onto its CPU's queue and runs there in its turn, and waiters are woken in order.
 */
module TaskFlow {
  import opened Wrappers
  import Scheduler
  import opened Affinity

  // --- No task is lost ---

  ghost predicate QueuesValid(s: System) {
    forall c :: 0 <= c < |s.cpus| ==> Scheduler.Valid(s.cpus[c])
  }

  /** The tasks queued or current, on all CPUs. */
  ghost function OnCpus(cpus: seq<Scheduler.Queue>): multiset<Task> {
    if cpus == [] then multiset{} else OnCpus(cpus[..|cpus| - 1]) + Scheduler.Members(cpus[|cpus| - 1])
  }

  /** The tasks about to be queued. */
  ghost function InHands(pending: seq<Pending>): multiset<Task> {
    if pending == [] then multiset{} else InHands(pending[..|pending| - 1]) + InHand(pending[|pending| - 1])
  }

  ghost function InHand(k: Pending): multiset<Task> {
    if k.Adding? then multiset{k.w.task} else multiset{}
  }

  ghost function Here(s: System): multiset<Task> {
    OnCpus(s.cpus) + InHands(s.pending)
  }

  /** What a step drops: the sleeping or dead task a tick finds current. */
  ghost function DroppedAt(s: System, e: Step): multiset<Task>
    requires Enabled(s, e)
  {
    if e.Timer? then Scheduler.Dropped(s.cpus[e.cpu].(state := e.state)) else multiset{}
  }

  /** What a step brings: a new task that gets its CPU, or the first waiter of a place. */
  ghost function ArrivedAt(s: System, e: Step): multiset<Task>
    requires Enabled(s, e)
  {
    if e.SpawnLocal? then multiset{e.task}
    else if e.TakeWaiter? then multiset{Waiting(s, e.place)[0].task}
    else if e.Try? && Settles(s, e.i) then multiset{s.pending[e.i].task}
    else multiset{}
  }

  /** The scan in hand i ends with its next step. */
  predicate Settles(s: System, i: nat)
    requires i < |s.pending| && s.pending[i].Scanning?
  {
    var k := s.pending[i];
    |s.ready| <= k.tried || s.ready[Tried(|s.ready|, k.start, k.tried)]
  }

  lemma AddBoth(a': multiset<Task>, x: multiset<Task>, a: multiset<Task>, y: multiset<Task>, l: multiset<Task>)
    requires a' + x == a + y
    ensures a' + l + x == a + l + y
  {
    assert a' + l + x == a' + x + l && a + l + y == a + y + l;
  }

  lemma {:induction false} OnCpusUpdate(cpus: seq<Scheduler.Queue>, c: nat, q: Scheduler.Queue)
    requires c < |cpus|
    ensures OnCpus(cpus[c := q]) + Scheduler.Members(cpus[c]) == OnCpus(cpus) + Scheduler.Members(q)
  {
    hide Scheduler.Members;
    var n := |cpus| - 1;
    var cpus', below := cpus[c := q], cpus[..n];
    if c < n {
      assert cpus'[..n] == below[c := q] && cpus'[n] == cpus[n] && below[c] == cpus[c];
      OnCpusUpdate(below, c, q);
      AddBoth(OnCpus(below[c := q]), Scheduler.Members(cpus[c]), OnCpus(below), Scheduler.Members(q),
              Scheduler.Members(cpus[n]));
    } else {
      assert cpus'[..n] == below;
    }
  }

  lemma InHandsAppend(pending: seq<Pending>, k: Pending)
    ensures InHands(pending + [k]) == InHands(pending) + InHand(k)
  {
    assert (pending + [k])[..|pending|] == pending;
  }

  lemma {:induction false} InHandsUpdate(pending: seq<Pending>, i: nat, k: Pending)
    requires i < |pending|
    ensures InHands(pending[i := k]) + InHand(pending[i]) == InHands(pending) + InHand(k)
  {
    hide InHand;
    var n := |pending| - 1;
    var pending', below := pending[i := k], pending[..n];
    if i < n {
      assert pending'[..n] == below[i := k] && pending'[n] == pending[n] && below[i] == pending[i];
      InHandsUpdate(below, i, k);
      AddBoth(InHands(below[i := k]), InHand(pending[i]), InHands(below), InHand(k), InHand(pending[n]));
    } else {
      assert pending'[..n] == below;
    }
  }

  lemma {:induction false} InHandsWithout(pending: seq<Pending>, i: nat)
    requires i < |pending|
    ensures InHands(Without(pending, i)) + InHand(pending[i]) == InHands(pending)
  {
    hide InHand;
    var n := |pending| - 1;
    var rest, below := Without(pending, i), pending[..n];
    if i < n {
      assert rest[..n - 1] == Without(below, i) && rest[n - 1] == pending[n] && below[i] == pending[i];
      InHandsWithout(below, i);
      AddBoth(InHands(Without(below, i)), InHand(pending[i]), InHands(below), multiset{}, InHand(pending[n]));
    } else {
      assert rest == below;
    }
  }

  lemma QueuesStayValid(s: System, e: Step)
    requires QueuesValid(s) && Enabled(s, e)
    ensures QueuesValid(Next(s, e))
  {
    var s' := Next(s, e);
    forall c | 0 <= c < |s'.cpus| ensures Scheduler.Valid(s'.cpus[c]) { assert Scheduler.Valid(s.cpus[c]); }
  }

  lemma TimerConserves(s: System, e: Step)
    requires QueuesValid(s) && Enabled(s, e) && e.Timer?
    ensures Here(Next(s, e)) + DroppedAt(s, e) == Here(s)
  {
    hide Scheduler.Members, Scheduler.Dropped, Scheduler.Tick, OnCpus, InHands;
    var q := s.cpus[e.cpu];
    var marked := q.(state := e.state);
    StatesAside(q, e.state);
    assert Scheduler.Valid(q);
    Scheduler.TickConserves(marked);
    OnCpusUpdate(s.cpus, e.cpu, Scheduler.Tick(marked));
    Cancel(OnCpus(Next(s, e).cpus), Scheduler.Members(q), OnCpus(s.cpus), Scheduler.Members(Scheduler.Tick(marked)),
           DroppedAt(s, e));
    AddBoth(OnCpus(Next(s, e).cpus), DroppedAt(s, e), OnCpus(s.cpus), multiset{}, InHands(s.pending));
  }

  lemma StatesAside(q: Scheduler.Queue, state: Scheduler.States)
    ensures Scheduler.Members(q.(state := state)) == Scheduler.Members(q)
  {
  }

  lemma Cancel(after: multiset<Task>, was: multiset<Task>, before: multiset<Task>, now: multiset<Task>,
               d: multiset<Task>)
    requires after + was == before + now && was == now + d
    ensures after + d == before
  {
    forall t: Task ensures (after + d)[t] == before[t] {
      assert (after + was)[t] == (before + now)[t] && was[t] == (now + d)[t];
    }
  }

  lemma AddConserves(s: System, e: Step)
    requires Enabled(s, e) && e.Add?
    ensures Here(Next(s, e)) == Here(s)
  {
    var k := s.pending[e.i];
    var q := s.cpus[k.w.cpu];
    OnCpusUpdate(s.cpus, k.w.cpu, Scheduler.AddTask(q, k.w.task));
    InHandsWithout(s.pending, e.i);
    assert Scheduler.Members(Scheduler.AddTask(q, k.w.task)) == Scheduler.Members(q) + InHand(k);
    hide Scheduler.Members, OnCpus, InHands, InHand;
    Transfer(OnCpus(Next(s, e).cpus), Scheduler.Members(q), OnCpus(s.cpus), InHand(k), InHands(Next(s, e).pending),
             InHands(s.pending));
  }

  lemma Transfer(after: multiset<Task>, q: multiset<Task>, before: multiset<Task>, k: multiset<Task>,
                 handsAfter: multiset<Task>, handsBefore: multiset<Task>)
    requires after + q == before + (q + k) && handsAfter + k == handsBefore
    ensures after + handsAfter == before + handsBefore
  {
    forall t: Task ensures (after + handsAfter)[t] == (before + handsBefore)[t] {
      assert (after + q)[t] == (before + (q + k))[t] && (handsAfter + k)[t] == handsBefore[t];
    }
  }

  /** A look at one CPU changes one hand. */
  lemma TryChangesHand(s: System, i: nat)
    requires Enabled(s, Try(i))
    ensures var s', k' := TryOne(s, i), TryOne(s, i).pending[i];
      s'.cpus == s.cpus && s'.pending == s.pending[i := k'] && InHand(k') == ArrivedAt(s, Try(i))
  {
  }

  lemma TryConserves(s: System, e: Step)
    requires Enabled(s, e) && e.Try?
    ensures Here(Next(s, e)) == Here(s) + ArrivedAt(s, e)
  {
    TryChangesHand(s, e.i);
    var s' := TryOne(s, e.i);
    InHandsUpdate(s.pending, e.i, s'.pending[e.i]);
    assert Next(s, e) == s' && InHand(s.pending[e.i]) == multiset{};
    hide OnCpus, InHands, TryOne, ArrivedAt, InHand, Next;
    Gain(OnCpus(s.cpus), InHands(s'.pending), InHands(s.pending), ArrivedAt(s, e));
  }

  lemma Gain(cpus: multiset<Task>, after: multiset<Task>, before: multiset<Task>, a: multiset<Task>)
    requires after + multiset{} == before + a
    ensures cpus + after == cpus + before + a
  {
    assert after == before + a;
  }

  /** Steps that only take something in hand or put it away. */
  lemma HandsConserve(s: System, e: Step)
    requires Enabled(s, e) && !e.Timer? && !e.Add? && !e.Try? && !e.GetReady?
    ensures Here(Next(s, e)) == Here(s) + ArrivedAt(s, e)
  {
    if e.Register? || e.TakeNumber? { HandsReplaced(s, e); } else { HandsTaken(s, e); }
    hide Next, ArrivedAt, OnCpus, InHands, Enabled;
    var s' := Next(s, e);
    Gain(OnCpus(s.cpus), InHands(s'.pending), InHands(s.pending), ArrivedAt(s, e));
  }

  lemma HandsReplaced(s: System, e: Step)
    requires Enabled(s, e) && (e.Register? || e.TakeNumber?)
    ensures var s' := Next(s, e);
      s'.cpus == s.cpus && InHands(s'.pending) + multiset{} == InHands(s.pending) + ArrivedAt(s, e)
  {
    hide InHands, Settles;
    match e {
      case Register(i) => InHandsWithout(s.pending, i);
      case TakeNumber(i) => InHandsUpdate(s.pending, i, Next(s, e).pending[i]);
    }
  }

  lemma HandsTaken(s: System, e: Step)
    requires Enabled(s, e) && (e.Spawn? || e.SpawnLocal? || e.Block? || e.TakeWaiter?)
    ensures var s' := Next(s, e);
      s'.cpus == s.cpus && InHands(s'.pending) + multiset{} == InHands(s.pending) + ArrivedAt(s, e)
  {
    hide InHands, Settles;
    match e {
      case Spawn(t, local) => InHandsAppend(s.pending, Entered(t, local));
      case SpawnLocal(t, c) => InHandsAppend(s.pending, Adding(Waiter(t, c)));
      case Block(c, p) => InHandsAppend(s.pending, Registering(p, Waiter(s.cpus[c].current.value, c)));
      case TakeWaiter(p) => InHandsAppend(s.pending, Adding(Waiting(s, p)[0]));
    }
  }

  /** One step: the tasks on the CPUs or about to be queued, and those it drops, are the ones before and
      those it brings. */
  lemma StepConserves(s: System, e: Step)
    requires QueuesValid(s) && Enabled(s, e)
    ensures Here(Next(s, e)) + DroppedAt(s, e) == Here(s) + ArrivedAt(s, e)
  {
    hide Here, Scheduler.Dropped, Settles;
    match e
    case GetReady(c) => assert Here(Next(s, e)) == Here(s) by { OnlyReadiness(s, c); }
    case Timer(_, _) => TimerConserves(s, e);
    case Add(_) => AddConserves(s, e);
    case Try(_) => TryConserves(s, e);
    case _ => HandsConserve(s, e);
  }

  lemma OnlyReadiness(s: System, c: CpuId)
    requires Enabled(s, GetReady(c))
    ensures Here(Next(s, GetReady(c))) == Here(s)
  {
  }

  ghost function AllDropped(s: System, steps: seq<Step>): multiset<Task>
    requires AllEnabled(s, steps)
    decreases |steps|
  {
    if steps == [] then multiset{} else DroppedAt(s, steps[0]) + AllDropped(Next(s, steps[0]), steps[1..])
  }

  ghost function AllArrived(s: System, steps: seq<Step>): multiset<Task>
    requires AllEnabled(s, steps)
    decreases |steps|
  {
    if steps == [] then multiset{} else ArrivedAt(s, steps[0]) + AllArrived(Next(s, steps[0]), steps[1..])
  }

  /** Over every run of all CPUs no task is lost or duplicated. */
  lemma {:induction false} RunConserves(s: System, steps: seq<Step>)
    requires QueuesValid(s) && AllEnabled(s, steps)
    ensures QueuesValid(Run(s, steps))
    ensures Here(Run(s, steps)) + AllDropped(s, steps) == Here(s) + AllArrived(s, steps)
    decreases |steps|
  {
    if steps != [] {
      hide Here, DroppedAt, ArrivedAt, QueuesValid, Next, Enabled;
      var s1, rest := Next(s, steps[0]), steps[1..];
      StepConserves(s, steps[0]);
      QueuesStayValid(s, steps[0]);
      RunConserves(s1, rest);
      Scheduler.Rearrange(Here(Run(s1, rest)), AllDropped(s1, rest), Here(s1), AllArrived(s1, rest),
                          DroppedAt(s, steps[0]), Here(s), ArrivedAt(s, steps[0]));
    }
  }

  // --- A task in hand runs ---

  ghost function TicksOf(steps: seq<Step>, c: CpuId): nat {
    if steps == [] then 0 else (if TicksOn(steps[0], c) then 1 else 0) + TicksOf(steps[1..], c)
  }

  predicate QueuedAt(s: System, c: CpuId, k: int, t: Task) {
    c < |s.cpus| && 0 <= k < |s.cpus[c].ready| && s.cpus[c].ready[k] == t
  }

  predicate TicksOn(e: Step, c: CpuId) { e.Timer? && e.cpu == c }

  lemma QueueMoves(s: System, e: Step, c: CpuId, k: int, t: Task)
    requires QueuesValid(s) && Enabled(s, e) && QueuedAt(s, c, k, t) && (TicksOn(e, c) ==> k > 0)
    ensures QueuedAt(Next(s, e), c, if TicksOn(e, c) then k - 1 else k, t)
  {
    assert Scheduler.Valid(s.cpus[c]);
  }

  /** A queued task moves up one place per tick of its CPU, whatever else happens on any CPU. */
  lemma {:induction false} QueuedMovesUp(s: System, steps: seq<Step>, c: CpuId, k: int, t: Task)
    requires QueuesValid(s) && AllEnabled(s, steps) && QueuedAt(s, c, k, t) && TicksOf(steps, c) <= k
    ensures QueuesValid(Run(s, steps)) && QueuedAt(Run(s, steps), c, k - TicksOf(steps, c), t)
    decreases |steps|
  {
    hide Next, Enabled, QueuesValid, QueuedAt;
    if steps != [] {
      QueueMoves(s, steps[0], c, k, t);
      QueuesStayValid(s, steps[0]);
      QueuedMovesUp(Next(s, steps[0]), steps[1..], c, if TicksOn(steps[0], c) then k - 1 else k, t);
    }
  }

  /** Adding puts the task at the end of the queue it names, which is that of its CPU. */
  lemma AddQueues(s: System, i: nat)
    requires Affine(s) && i < |s.pending| && s.pending[i].Adding?
    ensures Enabled(s, Add(i))
    ensures var w, s' := s.pending[i].w, Next(s, Add(i));
      && w.cpu < |s.cpus| && AtHome(s, w.task, w.cpu)
      && |s'.cpus| == |s.cpus| && s'.cpus[w.cpu].ready == s.cpus[w.cpu].ready + [w.task]
      && (forall c :: 0 <= c < |s.cpus| && c != w.cpu ==> s'.cpus[c] == s.cpus[c])
  {
    assert HandAtHome(s, s.pending[i]);
  }

  /** A spawned or woken task in hand: once it is added, and its CPU has ticked as often as its queue was
      long, the next tick makes it current there, whatever else happens meanwhile. */
  lemma TaskInHandRuns(s: System, i: nat, steps: seq<Step>, state: Scheduler.States)
    requires Affine(s) && QueuesValid(s) && i < |s.pending| && s.pending[i].Adding?
    requires Enabled(s, Add(i)) && AllEnabled(Next(s, Add(i)), steps)
    requires s.pending[i].w.cpu < |s.cpus| && TicksOf(steps, s.pending[i].w.cpu) == |s.cpus[s.pending[i].w.cpu].ready|
    ensures var w, r := s.pending[i].w, Run(Next(s, Add(i)), steps);
      && Enabled(r, Timer(w.cpu, state))
      && var s' := Next(r, Timer(w.cpu, state)); w.cpu < |s'.cpus| && s'.cpus[w.cpu].current == Some(w.task)
  {
    var w := s.pending[i].w;
    var n, s1 := |s.cpus[w.cpu].ready|, Next(s, Add(i));
    AddQueues(s, i);
    QueuesStayValid(s, Add(i));
    QueuedMovesUp(s1, steps, w.cpu, n, w.task);
    hide Affine, Run, AllEnabled, TicksOf;
    assert Scheduler.Valid(Run(s1, steps).cpus[w.cpu]);
  }

  /** Spawning that nothing interrupts: the task ends up at the back of the queue of the CPU chosen. */
  lemma SpawnAlone(s: System, t: Task, local: CpuId) returns (steps: seq<Step>, c: CpuId)
    requires Affine(s) && t !in s.known && local < |s.cpus|
    ensures AllEnabled(s, steps) && Chosen(s.ready, s.nextSpawn, local, c) && c < |s.cpus|
    ensures var r := Run(s, steps);
      && |r.cpus| == |s.cpus| && r.cpus[c].ready == s.cpus[c].ready + [t] && AtHome(r, t, c)
      && r.nextSpawn == s.nextSpawn + 1
  {
    hide Next, Affine, Enabled, Chosen, TryOne;
    var i := |s.pending|;
    SpawnScans(s, t, local);
    var s1 := Next(s, Spawn(t, local));
    var s2 := Next(s1, TakeNumber(i));
    var scan;
    scan, c := ScanAlone(s2, i);
    RunKeepsAffinity(s2, scan);
    AddQueues(Run(s2, scan), i);
    AddKeepsHome(Run(s2, scan), i);
    RunThen(s2, scan, Add(i));
    Before(s1, TakeNumber(i), scan + [Add(i)]);
    Before(s, Spawn(t, local), [TakeNumber(i)] + (scan + [Add(i)]));
    steps := [Spawn(t, local)] + ([TakeNumber(i)] + (scan + [Add(i)]));
  }

  /** The first two steps of spawning. */
  lemma SpawnScans(s: System, t: Task, local: CpuId)
    requires Affine(s) && t !in s.known && local < |s.cpus|
    ensures Enabled(s, Spawn(t, local)) && Enabled(Next(s, Spawn(t, local)), TakeNumber(|s.pending|))
    ensures var r, i := Next(Next(s, Spawn(t, local)), TakeNumber(|s.pending|)), |s.pending|;
      && Affine(r) && r.cpus == s.cpus && r.ready == s.ready && r.nextSpawn == s.nextSpawn + 1
      && i < |r.pending| && r.pending[i] == Scanning(t, local, s.nextSpawn, 0) && NoneBefore(r.ready, s.nextSpawn, 0)
      && |r.ready| == |r.cpus|
  {
    var s1 := Next(s, Spawn(t, local));
    StepKeepsAffinity(s, Spawn(t, local));
    StepKeepsAffinity(s1, TakeNumber(|s.pending|));
    hide QueuesAtHome, ChoosesOnce, HandAtHome, WaitersAtHome;
  }

  lemma AddKeepsHome(s: System, i: nat)
    requires Enabled(s, Add(i))
    ensures Next(s, Add(i)).home == s.home && Next(s, Add(i)).nextSpawn == s.nextSpawn
  {
  }

  lemma Before(s: System, e: Step, rest: seq<Step>)
    requires Enabled(s, e) && AllEnabled(Next(s, e), rest)
    ensures AllEnabled(s, [e] + rest) && Run(s, [e] + rest) == Run(Next(s, e), rest)
  {
    assert ([e] + rest)[1..] == rest;
  }

  lemma {:induction false} RunThen(s: System, steps: seq<Step>, e: Step)
    requires AllEnabled(s, steps) && Enabled(Run(s, steps), e)
    ensures AllEnabled(s, steps + [e]) && Run(s, steps + [e]) == Next(Run(s, steps), e)
    decreases |steps|
  {
    hide Next, Enabled;
    if steps == [] {
      assert steps + [e] == [e] && [e][1..] == [];
    } else {
      assert (steps + [e])[1..] == steps[1..] + [e];
      RunThen(Next(s, steps[0]), steps[1..], e);
    }
  }

  /** Waking that nothing interrupts: the first waiter ends up at the back of the queue of its CPU. */
  lemma WakeAlone(s: System, p: Place)
    requires Affine(s) && Waiting(s, p) != []
    ensures Enabled(s, TakeWaiter(p)) && Enabled(Next(s, TakeWaiter(p)), Add(|s.pending|))
    ensures var w, r := Waiting(s, p)[0], Next(Next(s, TakeWaiter(p)), Add(|s.pending|));
      && w.cpu < |s.cpus| == |r.cpus| && r.cpus[w.cpu].ready == s.cpus[w.cpu].ready + [w.task]
      && Waiting(r, p) == Waiting(s, p)[1..]
  {
    StepKeepsAffinity(s, TakeWaiter(p));
    AddQueues(Next(s, TakeWaiter(p)), |s.pending|);
    hide Affine;
  }

  // --- Waiters ---

  ghost function RegisteredAt(s: System, e: Step, p: Place): seq<Waiter>
    requires Enabled(s, e)
  {
    if e.Register? && s.pending[e.i].place == p then [s.pending[e.i].w] else []
  }

  ghost function WokenAt(s: System, e: Step, p: Place): seq<Waiter>
    requires Enabled(s, e)
  {
    if e.TakeWaiter? && e.place == p then [Waiting(s, p)[0]] else []
  }

  ghost function Registered(s: System, steps: seq<Step>, p: Place): seq<Waiter>
    requires AllEnabled(s, steps)
    decreases |steps|
  {
    if steps == [] then [] else RegisteredAt(s, steps[0], p) + Registered(Next(s, steps[0]), steps[1..], p)
  }

  ghost function Woken(s: System, steps: seq<Step>, p: Place): seq<Waiter>
    requires AllEnabled(s, steps)
    decreases |steps|
  {
    if steps == [] then [] else WokenAt(s, steps[0], p) + Woken(Next(s, steps[0]), steps[1..], p)
  }

  lemma WaitersStep(s: System, e: Step, p: Place)
    requires Enabled(s, e) && (p.Receivers? || p.Senders?)
    ensures WokenAt(s, e, p) + Waiting(Next(s, e), p) == Waiting(s, p) + RegisteredAt(s, e, p)
  {
  }

  /** At a channel, waiters are woken in the order in which they registered, and none is lost: those woken
      and those still waiting are those that waited and those that registered. */
  lemma {:induction false} WaitersInOrder(s: System, steps: seq<Step>, p: Place)
    requires AllEnabled(s, steps) && (p.Receivers? || p.Senders?)
    ensures Woken(s, steps, p) + Waiting(Run(s, steps), p) == Waiting(s, p) + Registered(s, steps, p)
    decreases |steps|
  {
    if steps != [] {
      var s1, rest := Next(s, steps[0]), steps[1..];
      WaitersStep(s, steps[0], p);
      WaitersInOrder(s1, rest, p);
      hide Next, Enabled, WokenAt, RegisteredAt, Waiting, Run;
      Splice(WokenAt(s, steps[0], p), Waiting(s1, p), Waiting(s, p), RegisteredAt(s, steps[0], p),
             Woken(s1, rest, p), Waiting(Run(s1, rest), p), Registered(s1, rest, p));
      assert Woken(s, steps, p) == WokenAt(s, steps[0], p) + Woken(s1, rest, p);
      assert Registered(s, steps, p) == RegisteredAt(s, steps[0], p) + Registered(s1, rest, p);
    }
  }

  lemma Splice(w: seq<Waiter>, mid: seq<Waiter>, start: seq<Waiter>, r: seq<Waiter>,
               woken: seq<Waiter>, end: seq<Waiter>, registered: seq<Waiter>)
    requires w + mid == start + r && woken + end == mid + registered
    ensures w + woken + end == start + (r + registered)
  {
    assert w + woken + end == w + (woken + end);
    assert w + (mid + registered) == w + mid + registered;
    assert start + r + registered == start + (r + registered);
  }

  /** A single slot keeps the last waiter that registered: one that was waiting there is forgotten. */
  lemma SlotKeepsLast(s: System, e: Step, p: Place)
    requires Enabled(s, e) && (p.Keyboard? || p.ExitOf?) && |Waiting(s, p)| <= 1
    ensures |Waiting(Next(s, e), p)| <= 1
    ensures Waiting(Next(s, e), p) ==
      if RegisteredAt(s, e, p) != [] then RegisteredAt(s, e, p)
      else if WokenAt(s, e, p) != [] then [] else Waiting(s, p)
  {
  }

  /** A blocking task registers itself, for the CPU it runs on. */
  lemma BlockAlone(s: System, c: CpuId, p: Place)
    requires Enabled(s, Block(c, p))
    ensures var s1, w := Next(s, Block(c, p)), Waiter(s.cpus[c].current.value, c);
      && Enabled(s1, Register(|s.pending|))
      && Waiting(Next(s1, Register(|s.pending|)), p) ==
         (if p.Keyboard? || p.ExitOf? then [w] else Waiting(s, p) + [w])
      && Next(s1, Register(|s.pending|)).pending == s.pending
  {
    assert Without(s.pending + [Registering(p, Waiter(s.cpus[c].current.value, c))], |s.pending|) == s.pending;
  }

  // --- Readiness and turns ---

  ghost predicate BecomesReady(steps: seq<Step>, c: CpuId) {
    exists i :: 0 <= i < |steps| && steps[i] == GetReady(c)
  }

  ghost function Numbers(steps: seq<Step>): nat {
    if steps == [] then 0 else (if steps[0].TakeNumber? then 1 else 0) + Numbers(steps[1..])
  }

  /** After any run exactly those CPUs are ready that were or have become so, and each number for a new task
      has been given out once, in turn. */
  lemma {:induction false} ReadyExactly(s: System, steps: seq<Step>, c: CpuId)
    requires AllEnabled(s, steps) && c < |s.ready|
    ensures c < |Run(s, steps).ready| && (Run(s, steps).ready[c] <==> s.ready[c] || BecomesReady(steps, c))
    ensures Run(s, steps).nextSpawn == s.nextSpawn + Numbers(steps)
    decreases |steps|
  {
    if steps != [] {
      var rest := steps[1..];
      ReadyExactly(Next(s, steps[0]), rest, c);
      assert forall i :: 0 <= i < |rest| ==> rest[i] == steps[i + 1];
      if BecomesReady(steps, c) {
        var i :| 0 <= i < |steps| && steps[i] == GetReady(c);
        if i > 0 { assert rest[i - 1] == GetReady(c); }
      }
    }
  }
}
