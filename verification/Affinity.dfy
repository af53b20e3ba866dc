/**
 All CPUs together.  A task is put on a CPU when it is spawned; afterwards it moves between that CPU's
 queue and waiter lists, and every waiter entry carries the CPU to wake the task on.  Steps are as
 small as the locks: taking or making an entry and acting on it are separate steps of any interleaving.
 */
module Affinity {
  import opened Wrappers
  import Scheduler

  type Task = Scheduler.Task
  type CpuId = nat

  /** Where a task can wait. */
  datatype Place = Receivers(channel: nat) | Senders(channel: nat) | Keyboard | ExitOf(task: Task)

  datatype Waiter = Waiter(task: Task, cpu: CpuId)

  /** What code outside any lock holds in its hands: a spawned task without a CPU yet, an entry it will
      register, or a task it will add to a queue because it was spawned or woken. */
  datatype Pending =
    | Entered(task: Task, local: CpuId)
    | Scanning(task: Task, local: CpuId, start: nat, tried: nat)
    | Registering(place: Place, w: Waiter)
    | Adding(w: Waiter)

  /** `known` is the table of all tasks ever spawned, `home` the CPU each has been given. */
  datatype System = System(
    cpus: seq<Scheduler.Queue>, ready: seq<bool>, nextSpawn: nat, known: set<Task>, home: map<Task, CpuId>,
    waiting: map<Place, seq<Waiter>>, pending: seq<Pending>)

  /** Channels keep a queue of waiters, keyboard and exits a single slot. */
  predicate Slot(p: Place) { p.Keyboard? || p.ExitOf? }

  function Waiting(s: System, p: Place): seq<Waiter> {
    if p in s.waiting then s.waiting[p] else []
  }

  // --- Choosing a CPU ---

  /** The i-th CPU tried. */
  function Tried(n: nat, start: nat, i: nat): (c: CpuId)
    requires n > 0
    ensures c < n
  {
    (start + i) % n
  }

  ghost predicate NoneBefore(ready: seq<bool>, start: nat, j: nat)
    requires |ready| > 0
  {
    forall i: nat :: i < j ==> !ready[Tried(|ready|, start, i)]
  }

  /** The CPUs from `start` on, cyclically: the first that is ready, or the caller's own if none is. */
  ghost predicate Chosen(ready: seq<bool>, start: nat, local: CpuId, cpu: CpuId) {
    && cpu < |ready|
    && ((exists j: nat :: j < |ready| && cpu == Tried(|ready|, start, j) && ready[cpu] && NoneBefore(ready, start, j))
        || (cpu == local && forall c :: 0 <= c < |ready| ==> !ready[c]))
  }

  /** Choose the CPU of a new task. */
  method ChooseCpu(ready: seq<bool>, start: nat, local: CpuId) returns (cpu: CpuId)
    requires local < |ready|
    ensures Chosen(ready, start, local, cpu)
  {
    for i := 0 to |ready|
      invariant NoneBefore(ready, start, i)
    {
      var id := Tried(|ready|, start, i);
      if ready[id] { return id; }
    }
    cpu := local;
    forall c: nat | c < |ready| ensures !ready[c] { var i := EveryCpuIsTried(|ready|, start, c); }
  }

  /** Every CPU is tried. */
  lemma EveryCpuIsTried(n: nat, start: nat, c: nat) returns (i: nat)
    requires c < n
    ensures i < n && Tried(n, start, i) == c
  {
    var q, r := start / n, start % n;
    assert start == q * n + r;
    if r <= c {
      i := c - r;
      RemainderIs(start + i, q, c, n);
    } else {
      i := c + n - r;
      assert (q + 1) * n == q * n + n;
      RemainderIs(start + i, q + 1, c, n);
    }
  }

  lemma RemainderIs(x: nat, q: nat, r: nat, n: nat)
    requires x == q * n + r && r < n
    ensures x % n == r
  {
    var q', r' := x / n, x % n;
    assert x == q' * n + r';
    if q < q' { Apart(q, q', n); } else if q' < q { Apart(q', q, n); }
  }

  lemma {:induction false} Apart(a: nat, b: nat, n: nat)
    requires a < b
    ensures a * n + n <= b * n
  {
    assert b * n == (b - 1) * n + n;
    if a < b - 1 { Apart(a, b - 1, n); }
  }

  // --- Steps ---

  datatype Step =
    | GetReady(cpu: CpuId)
    | Spawn(task: Task, local: CpuId)
    | TakeNumber(i: nat)
    | Try(i: nat)
    | SpawnLocal(task: Task, cpu: CpuId)
    | Timer(cpu: CpuId, state: Scheduler.States)
    | Block(cpu: CpuId, place: Place)
    | Register(i: nat)
    | TakeWaiter(place: Place)
    | Add(i: nat)

  ghost predicate Enabled(s: System, e: Step) {
    match e
    case GetReady(c) => c < |s.ready|
    case Spawn(t, local) => t !in s.known && local < |s.cpus|
    case TakeNumber(i) => i < |s.pending| && s.pending[i].Entered?
    case Try(i) => i < |s.pending| && s.pending[i].Scanning?
    case SpawnLocal(t, c) => t !in s.known && c < |s.cpus|
    case Timer(c, _) => c < |s.cpus|
    case Block(c, _) => c < |s.cpus| && s.cpus[c].current.Some?
    case Register(i) => i < |s.pending| && s.pending[i].Registering?
    case TakeWaiter(p) => Waiting(s, p) != []
    case Add(i) => i < |s.pending| && s.pending[i].Adding? && s.pending[i].w.cpu < |s.cpus|
  }

  /** Give the task in hand i its CPU. */
  function Settle(s: System, i: nat, t: Task, c: CpuId): System
    requires i < |s.pending|
  {
    s.(home := s.home[t := c], pending := s.pending[i := Adding(Waiter(t, c))])
  }

  /** Look at one CPU: take it if it is ready, go on to the next if it is not, and settle for the caller's
      own after the last. */
  function TryOne(s: System, i: nat): System
    requires i < |s.pending| && s.pending[i].Scanning?
  {
    var k := s.pending[i];
    if |s.ready| <= k.tried then Settle(s, i, k.task, k.local)
    else
      var c := Tried(|s.ready|, k.start, k.tried);
      if s.ready[c] then Settle(s, i, k.task, c) else s.(pending := s.pending[i := k.(tried := k.tried + 1)])
  }

  function Without<T>(xs: seq<T>, i: nat): seq<T>
    requires i < |xs|
  {
    xs[..i] + xs[i + 1..]
  }

  ghost function Next(s: System, e: Step): System
    requires Enabled(s, e)
  {
    match e
    case GetReady(c) => s.(ready := s.ready[c := true])
    case Spawn(t, local) => s.(known := s.known + {t}, pending := s.pending + [Entered(t, local)])
    case TakeNumber(i) =>
      var k := s.pending[i];
      s.(nextSpawn := s.nextSpawn + 1, pending := s.pending[i := Scanning(k.task, k.local, s.nextSpawn, 0)])
    case Try(i) => TryOne(s, i)
    case SpawnLocal(t, c) =>
      s.(known := s.known + {t}, home := s.home[t := c], pending := s.pending + [Adding(Waiter(t, c))])
    case Timer(c, state) => s.(cpus := s.cpus[c := Scheduler.Tick(s.cpus[c].(state := state))])
    case Block(c, p) => s.(pending := s.pending + [Registering(p, Waiter(s.cpus[c].current.value, c))])
    case Register(i) =>
      var p, w := s.pending[i].place, s.pending[i].w;
      s.(waiting := s.waiting[p := if Slot(p) then [w] else Waiting(s, p) + [w]], pending := Without(s.pending, i))
    case TakeWaiter(p) =>
      s.(waiting := s.waiting[p := Waiting(s, p)[1..]], pending := s.pending + [Adding(Waiting(s, p)[0])])
    case Add(i) =>
      var w := s.pending[i].w;
      s.(cpus := s.cpus[w.cpu := Scheduler.AddTask(s.cpus[w.cpu], w.task)], pending := Without(s.pending, i))
  }

  // --- The invariant ---

  predicate AtHome(s: System, t: Task, c: CpuId) {
    t in s.home && s.home[t] == c
  }

  ghost predicate QueuesAtHome(s: System) {
    forall c :: 0 <= c < |s.cpus| ==> QueueAtHome(s, s.cpus[c], c)
  }

  ghost predicate QueueAtHome(s: System, q: Scheduler.Queue, c: CpuId) {
    && (forall i :: 0 <= i < |q.ready| ==> AtHome(s, q.ready[i], c))
    && (q.current.Some? ==> AtHome(s, q.current.value, c))
  }

  ghost predicate WaitersAtHome(s: System, ws: seq<Waiter>) {
    forall i :: 0 <= i < |ws| ==> AtHome(s, ws[i].task, ws[i].cpu)
  }

  ghost predicate Affine(s: System) {
    && |s.ready| == |s.cpus| && (forall t :: t in s.home ==> t in s.known && s.home[t] < |s.cpus|)
    && QueuesAtHome(s)
    && (forall p :: p in s.waiting ==> WaitersAtHome(s, s.waiting[p]))
    && (forall i :: 0 <= i < |s.pending| ==> HandAtHome(s, s.pending[i]))
    && ChoosesOnce(s.pending)
  }

  /** The task in hand has no CPU yet, but is known. */
  predicate Choosing(k: Pending) { k.Entered? || k.Scanning? }

  ghost predicate HandAtHome(s: System, k: Pending) {
    if Choosing(k) then k.task in s.known && k.task !in s.home && k.local < |s.cpus| else AtHome(s, k.w.task, k.w.cpu)
  }

  /** No task is in two hands that choose its CPU. */
  ghost predicate ChoosesOnce(pending: seq<Pending>) {
    forall i, j :: 0 <= i < j < |pending| && Choosing(pending[i]) && Choosing(pending[j]) ==>
      pending[i].task != pending[j].task
  }

  lemma TickKeepsMembers(q: Scheduler.Queue, s: System, c: CpuId)
    requires QueueAtHome(s, q, c)
    ensures QueueAtHome(s, Scheduler.Tick(q), c)
  {
  }

  /** Homes are only ever added. */
  lemma HomesStay(s: System, s': System)
    requires forall t :: t in s.home ==> t in s'.home && s'.home[t] == s.home[t]
    ensures forall q, c :: QueueAtHome(s, q, c) ==> QueueAtHome(s', q, c)
    ensures forall ws :: WaitersAtHome(s, ws) ==> WaitersAtHome(s', ws)
  {
  }

  lemma HomesOnlyGrow(s: System, e: Step)
    requires Affine(s) && Enabled(s, e)
    ensures forall t :: t in s.home ==> t in Next(s, e).home && Next(s, e).home[t] == s.home[t]
  {
    if e.Try? { assert HandAtHome(s, s.pending[e.i]); }
  }

  lemma QueuesStep(s: System, e: Step)
    requires Affine(s) && Enabled(s, e)
    ensures QueuesAtHome(Next(s, e))
  {
    var s' := Next(s, e);
    HomesOnlyGrow(s, e);
    HomesStay(s, s');
    if e.Timer? { TickKeepsMembers(s.cpus[e.cpu].(state := e.state), s, e.cpu); }
    forall c | 0 <= c < |s'.cpus| ensures QueueAtHome(s', s'.cpus[c], c) {
      assert QueueAtHome(s, s.cpus[c], c) && QueueAtHome(s', s.cpus[c], c);
    }
  }

  lemma WaitingStep(s: System, e: Step)
    requires Affine(s) && Enabled(s, e)
    ensures forall p :: p in Next(s, e).waiting ==> WaitersAtHome(Next(s, e), Next(s, e).waiting[p])
  {
    var s' := Next(s, e);
    HomesOnlyGrow(s, e);
    HomesStay(s, s');
    if e.Register? { assert HandAtHome(s, s.pending[e.i]); }
    forall p | p in s'.waiting ensures WaitersAtHome(s', s'.waiting[p]) {
      assert WaitersAtHome(s', Waiting(s, p));
    }
  }

  /** What a step takes in hand. */
  lemma NewHand(s: System, e: Step)
    requires Affine(s) && Enabled(s, e) && |Next(s, e).pending| > |s.pending|
    ensures HandAtHome(Next(s, e), Next(s, e).pending[|s.pending|])
  {
    if e.Block? { assert QueueAtHome(s, s.cpus[e.cpu], e.cpu); }
    if e.TakeWaiter? { assert WaitersAtHome(s, Waiting(s, e.place)); }
  }

  lemma PendingStep(s: System, e: Step)
    requires Affine(s) && Enabled(s, e)
    ensures forall i :: 0 <= i < |Next(s, e).pending| ==> HandAtHome(Next(s, e), Next(s, e).pending[i])
  {
    hide QueuesAtHome, WaitersAtHome, ChoosesOnce;
    var s' := Next(s, e);
    HomesOnlyGrow(s, e);
    if |s'.pending| > |s.pending| { NewHand(s, e); }
    forall i | 0 <= i < |s'.pending| ensures HandAtHome(s', s'.pending[i]) {
      if e.Register? || e.Add? {
        HandStays(s, s', if i < e.i then i else i + 1);
      } else if e.Try? {
        TryKeepsHand(s, e.i, i);
      } else if i < |s.pending| {
        HandStays(s, s', i);
      }
    }
  }

  /** What is in hand stays right while homes only grow and nobody else gives its task one. */
  lemma HandStays(s: System, s': System, i: nat)
    requires i < |s.pending| && HandAtHome(s, s.pending[i]) && s.known <= s'.known && |s'.cpus| == |s.cpus|
    requires forall t :: t in s.home ==> t in s'.home && s'.home[t] == s.home[t]
    requires forall t :: t in s'.home && t !in s.home ==> t !in s.known
    ensures HandAtHome(s', s.pending[i])
  {
  }

  lemma TryKeepsHand(s: System, i: nat, j: nat)
    requires Affine(s) && Enabled(s, Try(i)) && j < |s.pending|
    ensures HandAtHome(TryOne(s, i), TryOne(s, i).pending[j])
  {
    assert HandAtHome(s, s.pending[i]) && HandAtHome(s, s.pending[j]);
    if j != i && Choosing(s.pending[j]) { assert s.pending[Min(i, j)].task != s.pending[Max(i, j)].task; }
  }

  lemma OnceWithout(pending: seq<Pending>, k: nat)
    requires ChoosesOnce(pending) && k < |pending|
    ensures ChoosesOnce(Without(pending, k))
  {
    var rest := Without(pending, k);
    forall i, j | 0 <= i < j < |rest| && Choosing(rest[i]) && Choosing(rest[j]) ensures rest[i].task != rest[j].task {
      assert rest[i] == pending[if i < k then i else i + 1] && rest[j] == pending[if j < k then j else j + 1];
    }
  }

  lemma OnceAppended(pending: seq<Pending>, x: Pending)
    requires ChoosesOnce(pending)
    requires Choosing(x) ==> forall i :: 0 <= i < |pending| && Choosing(pending[i]) ==> pending[i].task != x.task
    ensures ChoosesOnce(pending + [x])
  {
  }

  lemma OnceReplaced(pending: seq<Pending>, k: nat, x: Pending)
    requires ChoosesOnce(pending) && k < |pending|
    requires (Choosing(x) ==> Choosing(pending[k]) && x.task == pending[k].task)
    ensures ChoosesOnce(pending[k := x])
  {
  }

  lemma ChoosesOnceStep(s: System, e: Step)
    requires Affine(s) && Enabled(s, e)
    ensures ChoosesOnce(Next(s, e).pending)
  {
    hide ChoosesOnce, QueuesAtHome, WaitersAtHome;
    match e
    case GetReady(_) =>
    case Timer(_, _) =>
    case Register(i) => OnceWithout(s.pending, i);
    case Add(i) => OnceWithout(s.pending, i);
    case TakeNumber(i) => OnceReplaced(s.pending, i, Next(s, e).pending[i]);
    case Try(i) => OnceReplaced(s.pending, i, Next(s, e).pending[i]);
    case Spawn(t, local) =>
      assert forall i :: 0 <= i < |s.pending| ==> HandAtHome(s, s.pending[i]);
      OnceAppended(s.pending, Entered(t, local));
    case SpawnLocal(t, c) => OnceAppended(s.pending, Adding(Waiter(t, c)));
    case Block(c, p) => OnceAppended(s.pending, Registering(p, Waiter(s.cpus[c].current.value, c)));
    case TakeWaiter(p) => OnceAppended(s.pending, Adding(Waiting(s, p)[0]));
  }

  /** Neither spawning nor waking is ever stuck: whatever is in hand can be acted on. */
  lemma NeverStuck(s: System, i: nat)
    requires Affine(s) && i < |s.pending|
    ensures Enabled(s, match s.pending[i]
                       case Entered(_, _) => TakeNumber(i)
                       case Scanning(_, _, _, _) => Try(i)
                       case Registering(_, _) => Register(i)
                       case Adding(_) => Add(i))
  {
    assert HandAtHome(s, s.pending[i]);
  }

  /** A scan that nothing interrupts settles on the CPU that choosing among the flags gives. */
  lemma {:induction false} ScanAlone(s: System, i: nat) returns (steps: seq<Step>, c: CpuId)
    requires Affine(s) && i < |s.pending| && s.pending[i].Scanning? && s.pending[i].tried <= |s.ready|
    requires NoneBefore(s.ready, s.pending[i].start, s.pending[i].tried)
    ensures AllEnabled(s, steps) && Run(s, steps) == Settle(s, i, s.pending[i].task, c)
    ensures Chosen(s.ready, s.pending[i].start, s.pending[i].local, c)
    decreases |s.ready| - s.pending[i].tried
  {
    var k := s.pending[i];
    assert HandAtHome(s, k);
    var s1 := TryOne(s, i);
    if k.tried == |s.ready| {
      c := k.local;
      forall d: nat | d < |s.ready| ensures !s.ready[d] { var j := EveryCpuIsTried(|s.ready|, k.start, d); }
      steps := [Try(i)];
    } else if s.ready[Tried(|s.ready|, k.start, k.tried)] {
      c := Tried(|s.ready|, k.start, k.tried);
      steps := [Try(i)];
    } else {
      StepKeepsAffinity(s, Try(i));
      var rest;
      rest, c := ScanAlone(s1, i);
      steps := [Try(i)] + rest;
      assert steps[1..] == rest;
      assert s1.pending[i := Adding(Waiter(k.task, c))] == s.pending[i := Adding(Waiter(k.task, c))];
    }
  }

  lemma StepKeepsAffinity(s: System, e: Step)
    requires Affine(s) && Enabled(s, e)
    ensures Affine(Next(s, e))
  {
    QueuesStep(s, e);
    WaitingStep(s, e);
    PendingStep(s, e);
    ChoosesOnceStep(s, e);
    if e.Try? { assert HandAtHome(s, s.pending[e.i]); }
  }

  // --- Runs ---

  ghost predicate AllEnabled(s: System, steps: seq<Step>)
    decreases |steps|
  {
    steps != [] ==> Enabled(s, steps[0]) && AllEnabled(Next(s, steps[0]), steps[1..])
  }

  ghost function Run(s: System, steps: seq<Step>): System
    requires AllEnabled(s, steps)
    decreases |steps|
  {
    if steps == [] then s else Run(Next(s, steps[0]), steps[1..])
  }

  /** Nothing has been spawned. */
  predicate Initial(s: System) {
    && |s.ready| == |s.cpus|
    && s.known == {} && s.home == map[] && s.waiting == map[] && s.pending == []
    && forall c :: 0 <= c < |s.cpus| ==> s.cpus[c].ready == [] && s.cpus[c].current == None
  }

  lemma {:induction false} RunKeepsAffinity(s: System, steps: seq<Step>)
    requires Affine(s) && AllEnabled(s, steps)
    ensures Affine(Run(s, steps))
    ensures forall t :: t in s.home ==> t in Run(s, steps).home && Run(s, steps).home[t] == s.home[t]
    decreases |steps|
  {
    if steps != [] {
      StepKeepsAffinity(s, steps[0]);
      HomesOnlyGrow(s, steps[0]);
      RunKeepsAffinity(Next(s, steps[0]), steps[1..]);
    }
  }

  /** In every reachable state a task is queued or current only where it was spawned, every waiter entry
      names that CPU, and no task is current on two CPUs. */
  lemma TasksStayHome(s: System, steps: seq<Step>)
    requires Initial(s) && AllEnabled(s, steps)
    ensures Affine(Run(s, steps))
    ensures var r := Run(s, steps); forall c, d :: SameCurrent(r, c, d) ==> c == d
  {
    RunKeepsAffinity(s, steps);
    var r := Run(s, steps);
    forall c, d | SameCurrent(r, c, d) ensures c == d {
      assert QueueAtHome(r, r.cpus[c], c) && QueueAtHome(r, r.cpus[d], d);
    }
  }

  /** Two CPUs run the same task. */
  predicate SameCurrent(s: System, c: int, d: int) {
    && 0 <= c < |s.cpus| && 0 <= d < |s.cpus|
    && s.cpus[c].current.Some? && s.cpus[c].current == s.cpus[d].current
  }
}
