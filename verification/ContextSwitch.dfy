/**
 The timer interrupt and system call paths of one CPU, register by register.  `World` is what tasks
 can observe: each task's own registers and return frame.  The handlers refine a world in which a
 tick only changes who is current, so a task that is resumed finds its registers as it left them.
 */
module ContextSwitch {
  import opened Wrappers
  import Scheduler

  type Task = Scheduler.Task
  type Queue = Scheduler.Queue

  datatype Regs = Regs(r15: nat, r14: nat, r13: nat, r12: nat, r11: nat, r10: nat, r9: nat, r8: nat,
                       rdi: nat, rsi: nat, rbp: nat, rbx: nat, rdx: nat, rcx: nat, rax: nat)

  /** The frame `iretq` returns through. */
  datatype Iret = Iret(rip: nat, cs: nat, rflags: nat, rsp: nat, ss: nat)

  datatype Context = Context(regs: Regs, iret: Iret)

  datatype GsBase = UserGs | KernelGs

  const USER_CS: nat := 0x23
  const USER_SS: nat := 0x1B
  const KERNEL_CS: nat := 0x08
  const KERNEL_SS: nat := 0x10

  predicate FromUser(cs: nat) { cs % 4 != 0 }

  /** The stack selector gets privilege level 3 when the code selector has it. */
  function FixSs(f: Iret): Iret {
    if f.cs % 4 == 3 then f.(ss := f.ss - f.ss % 4 + 3) else f
  }

  function Fixed(c: Context): Context { c.(iret := FixSs(c.iret)) }

  // --- What tasks observe ---

  datatype Mode = InTask | InSyscall(entry: Regs)

  datatype World = World(queue: Queue, own: map<Task, Context>, mode: Mode)

  /** SYSCALL leaves the return address in rcx and the flags in r11 (Intel SDM volume 2, SYSCALL). */
  function Entered(c: Context): Context {
    c.(regs := c.regs.(rcx := c.iret.rip, r11 := c.iret.rflags))
  }

  /** The registers a direct return does not set: they hold whatever the handler left in them. */
  datatype Left = Left(rbx: nat, rbp: nat, r12: nat, r13: nat, r14: nat, r15: nat)

  function LeftOf(r: Regs): Left {
    Left(r.rbx, r.rbp, r.r12, r.r13, r.r14, r.r15)
  }

  /** Nine operands of the returning instructions have fixed registers and rbp is the frame pointer, so
      the tenth, the user's stack pointer, is in one of these. */
  predicate HasRsp(l: Left, rsp: nat) {
    rsp in {l.rbx, l.r12, l.r13, l.r14, l.r15}
  }

  /** Registers after a system call returns directly: the argument registers are shifted by one. */
  function Returned(c: Context, entry: Regs, ret: nat, l: Left): Context {
    c.(regs := Regs(l.r15, l.r14, l.r13, l.r12, entry.r11, entry.r8, entry.rax, entry.r9,
                    entry.rsi, entry.rdx, l.rbp, l.rbx, entry.r10, entry.rcx, ret))
  }

  datatype Event =
    | Tick
    | Queued(e: Scheduler.Event)
    | Step(to: Context)
    | Enter
    | SetRax(v: nat)
    | Return(ret: nat, left: Left)

  /** Which events can happen in a world. */
  predicate Possible(w: World, e: Event) {
    && w.queue.current.Some? && w.queue.current.value in w.own
    && match e
       case Tick => true
       case Queued(q) => !q.Timer? && (q.Add? ==> q.task in w.own)
       case Step(to) =>
         w.mode.InTask? && var now := w.own[w.queue.current.value].iret; to.iret.cs == now.cs && to.iret.ss == now.ss
       case Enter => w.mode.InTask? && w.own[w.queue.current.value].iret.cs == USER_CS
       case SetRax(_) => w.mode.InSyscall?
       case Return(_, left) => w.mode.InSyscall? && HasRsp(left, w.own[w.queue.current.value].iret.rsp)
  }

  function Next(w: World, e: Event): World
    requires Possible(w, e)
  {
    var t := w.queue.current.value;
    match e
    case Tick => World(Scheduler.Tick(w.queue), w.own, InTask)
    case Queued(q) => w.(queue := Scheduler.Apply(w.queue, q))
    case Step(to) => w.(own := w.own[t := to])
    case Enter => var c := Entered(w.own[t]); w.(own := w.own[t := c], mode := InSyscall(c.regs))
    case SetRax(v) => w.(own := w.own[t := w.own[t].(regs := w.own[t].regs.(rax := v))])
    case Return(ret, left) => World(w.queue, w.own[t := Returned(w.own[t], w.mode.entry, ret, left)], InTask)
  }

  // --- Runs ---

  predicate AllPossible(w: World, events: seq<Event>)
    decreases |events|
  {
    events != [] ==> Possible(w, events[0]) && AllPossible(Next(w, events[0]), events[1..])
  }

  function Run(w: World, events: seq<Event>): World
    requires AllPossible(w, events)
    decreases |events|
  {
    if events == [] then w else Run(Next(w, events[0]), events[1..])
  }

  /** The task does not compute, in user mode or in a handler, during the run. */
  predicate Rests(w: World, events: seq<Event>, t: Task)
    requires AllPossible(w, events)
    decreases |events|
  {
    events != [] ==>
      (events[0].Tick? || events[0].Queued? || w.queue.current != Some(t)) && Rests(Next(w, events[0]), events[1..], t)
  }

  /** Whatever the others do, ticks included, a task that does not compute keeps its registers, and is
      in its own code when it is current again. */
  lemma {:induction false} RestingTaskIsUntouched(w: World, events: seq<Event>, t: Task)
    requires AllPossible(w, events) && Rests(w, events, t) && t in w.own
    ensures t in Run(w, events).own && Run(w, events).own[t] == w.own[t]
    ensures InOwnCode(w, t) ==> InOwnCode(Run(w, events), t)
    decreases |events|
  {
    if events != [] { RestingTaskIsUntouched(Next(w, events[0]), events[1..], t); }
  }

  predicate InOwnCode(w: World, t: Task) {
    w.queue.current == Some(t) ==> w.mode.InTask?
  }

  /** The events of a handler at work: results left for the task, and changes to the run queue. */
  predicate HandlerOnly(events: seq<Event>) {
    forall i :: 0 <= i < |events| ==> events[i].SetRax? || events[i].Queued?
  }

  function LastRax(events: seq<Event>, rax: nat): nat {
    if events == [] then rax else LastRax(events[1..], if events[0].SetRax? then events[0].v else rax)
  }

  lemma {:induction false} HandlerSetsOnlyRax(w: World, events: seq<Event>, t: Task)
    requires w.queue.current == Some(t) && w.mode.InSyscall? && t in w.own && HandlerOnly(events)
    requires AllPossible(w, events)
    ensures var r := Run(w, events);
      && r.queue.current == Some(t) && r.mode == w.mode && t in r.own
      && r.own[t] == w.own[t].(regs := w.own[t].regs.(rax := LastRax(events, w.own[t].regs.rax)))
    decreases |events|
  {
    if events != [] {
      assert HandlerOnly(events[1..]);
      HandlerSetsOnlyRax(Next(w, events[0]), events[1..], t);
    }
  }

  /** A run that interrupts task t in its own code and lets it rest. */
  predicate Interrupts(w: World, events: seq<Event>, t: Task) {
    && AllPossible(w, events) && w.queue.current == Some(t) && w.mode.InTask?
    && events != [] && events[0].Tick? && Rests(Next(w, Tick), events[1..], t)
  }

  /** A task interrupted in its own code is resumed with exactly the registers and frame it had. */
  lemma InterruptedTaskResumes(w: World, events: seq<Event>, t: Task)
    requires Interrupts(w, events, t)
    ensures var r := Run(w, events); t in r.own && r.own[t] == w.own[t] && InOwnCode(r, t)
  {
    RestingTaskIsUntouched(Next(w, Tick), events[1..], t);
  }

  /** A run in which task t makes a system call, its handler works, and t is preempted and rests. */
  predicate Preempts(w: World, handling: seq<Event>, events: seq<Event>, t: Task) {
    && w.queue.current == Some(t) && HandlerOnly(handling) && AllPossible(w, [Enter] + handling)
    && var p := Run(w, [Enter] + handling);
       Possible(p, Tick) && AllPossible(Next(p, Tick), events) && Rests(Next(p, Tick), events, t)
  }

  /** A task preempted inside a system call is resumed in user mode with the registers it entered with,
      except that rax is what the handler set last. */
  lemma PreemptedCallerResumes(w: World, handling: seq<Event>, events: seq<Event>, t: Task)
    requires Preempts(w, handling, events, t)
    ensures var r := Run(Next(Run(w, [Enter] + handling), Tick), events);
      var c := Entered(w.own[t]);
      t in r.own && InOwnCode(r, t) && r.own[t] == c.(regs := c.regs.(rax := LastRax(handling, c.regs.rax)))
  {
    assert ([Enter] + handling)[1..] == handling;
    HandlerSetsOnlyRax(Next(w, Enter), handling, t);
    RestingTaskIsUntouched(Next(Run(w, [Enter] + handling), Tick), events, t);
  }

  /** While the handler works, what the task entered with is kept. */
  lemma EntryIsKept(w: World, handling: seq<Event>, t: Task)
    requires w.queue.current == Some(t) && HandlerOnly(handling) && AllPossible(w, [Enter] + handling)
    ensures t in w.own
    ensures var r := Run(w, [Enter] + handling);
      && r.queue.current == Some(t) && r.mode == InSyscall(Entered(w.own[t]).regs) && t in r.own
      && r.own[t].iret == w.own[t].iret
  {
    assert ([Enter] + handling)[1..] == handling;
    HandlerSetsOnlyRax(Next(w, Enter), handling, t);
  }

  /** A run in which task t makes a system call that returns directly. */
  predicate Returns(w: World, handling: seq<Event>, ret: nat, left: Left, t: Task) {
    && w.queue.current == Some(t) && HandlerOnly(handling) && AllPossible(w, [Enter] + handling)
    && Possible(Run(w, [Enter] + handling), Return(ret, left))
  }

  /** A direct return keeps the frame, delivers the result and shifts the argument registers. */
  lemma DirectReturn(w: World, handling: seq<Event>, ret: nat, left: Left, t: Task)
    requires Returns(w, handling, ret, left, t)
    ensures var r := Next(Run(w, [Enter] + handling), Return(ret, left));
      && t in r.own && r.mode.InTask? && r.queue.current == Some(t)
      && var c, d := w.own[t], r.own[t];
         && d.iret == c.iret && d.regs.rax == ret && d.regs.rcx == c.iret.rip && d.regs.r11 == c.iret.rflags
         && d.regs.rdi == c.regs.rsi && d.regs.rsi == c.regs.rdx && d.regs.rdx == c.regs.r10
         && d.regs.r10 == c.regs.r8 && d.regs.r8 == c.regs.r9 && d.regs.r9 == c.regs.rax
         && LeftOf(d.regs) == left
  {
    assert ([Enter] + handling)[1..] == handling;
    HandlerSetsOnlyRax(Next(w, Enter), handling, t);
  }

  /** A caller whose rbx and r12 to r15 all differ from its stack pointer loses one of them to every
      direct return; any other caller can get all of them back, if the handler left them alone. */
  lemma DirectReturnKeepsOnlyIf(w: World, handling: seq<Event>, ret: nat, t: Task)
    requires w.queue.current == Some(t) && HandlerOnly(handling) && AllPossible(w, [Enter] + handling)
    ensures t in w.own
    ensures (exists left :: Returns(w, handling, ret, left, t) && left == LeftOf(w.own[t].regs))
       <==> HasRsp(LeftOf(w.own[t].regs), w.own[t].iret.rsp)
  {
    assert ([Enter] + handling)[1..] == handling;
    HandlerSetsOnlyRax(Next(w, Enter), handling, t);
    var left := LeftOf(w.own[t].regs);
    assert Returns(w, handling, ret, left, t) <==> HasRsp(left, w.own[t].iret.rsp);
  }

  /** A caller with all registers zero and a stack loses one of rbx and r12 to r15. */
  lemma ZeroedCallerLosesARegister(ret: nat, left: Left)
    ensures
      var iret := Iret(0x1000, USER_CS, 0x200, 0x2000, USER_SS);
      var c := Context(Regs(0, 0, 0, 0, 0, 0, 0, 0, 0, 0, 0, 0, 0, 0, 0), iret);
      var w := World(Scheduler.Queue(Some(1), [], 0, Some(1), _ => Scheduler.Running), map[1 := c], InTask);
      && AllPossible(w, [Enter])
      && (Returns(w, [], ret, left, 1) ==> left != LeftOf(c.regs))
  {
    var c := Context(Regs(0, 0, 0, 0, 0, 0, 0, 0, 0, 0, 0, 0, 0, 0, 0), Iret(0x1000, USER_CS, 0x200, 0x2000, USER_SS));
    var w := World(Scheduler.Queue(Some(1), [], 0, Some(1), _ => Scheduler.Running), map[1 := c], InTask);
    assert [Enter][1..] == [] && [Enter] + [] == [Enter];
    assert AllPossible(w, [Enter]);
    DirectReturnKeepsOnlyIf(w, [], ret, 1);
  }

  // --- The CPU ---

  function FixedAll(contexts: map<Task, Context>): map<Task, Context> {
    map t | t in contexts :: Fixed(contexts[t])
  }

  lemma FixedUpdate(contexts: map<Task, Context>, t: Task, c: Context)
    ensures FixedAll(contexts[t := c]) == FixedAll(contexts)[t := Fixed(c)]
  {
  }

  lemma FixedSame(contexts: map<Task, Context>, t: Task)
    requires t in contexts
    ensures FixedAll(contexts)[t := Fixed(contexts[t])] == FixedAll(contexts) && t in FixedAll(contexts)
    ensures FixedAll(contexts)[t] == Fixed(contexts[t])
  {
  }

  lemma NothingToFix(contexts: map<Task, Context>)
    requires forall t :: t in contexts ==>
      contexts[t].iret.cs == KERNEL_CS || (contexts[t].iret.cs == USER_CS && contexts[t].iret.ss == USER_SS)
    ensures FixedAll(contexts) == contexts && forall t :: t in contexts ==> FixSs(contexts[t].iret) == contexts[t].iret
  {
  }

  /** Each task's own state: the live registers for the task that is computing, else its saved context. */
  function Own(contexts: map<Task, Context>, t: Task, live: Option<Context>): map<Task, Context> {
    if live.Some? then FixedAll(contexts)[t := live.value] else FixedAll(contexts)
  }

  lemma OwnOf(contexts: map<Task, Context>, t: Task, live: Option<Context>)
    requires t in contexts
    ensures t in Own(contexts, t, live)
    ensures Own(contexts, t, live)[t] == (if live.Some? then live.value else Fixed(contexts[t]))
    ensures forall u :: u in Own(contexts, t, live) <==> u in contexts
  {
  }

  /** What a system call in progress has saved. */
  datatype Saved = Saved(args: Regs, number: nat, flags: nat, rip: nat, rsp: nat)

  /** The saved values are those of the entry registers, in the handler's argument order. */
  predicate SavedAt(s: Saved, entry: Regs, f: Iret) {
    && s == Saved(entry.(rcx := entry.r10), entry.rax, entry.r11, entry.rcx, f.rsp)
    && f == Iret(entry.rcx, USER_CS, entry.r11, f.rsp, USER_SS)
  }

  /** The context the prologue builds is the state the processor left. */
  lemma OwnEntered(contexts: map<Task, Context>, contexts': map<Task, Context>, t: Task, live: Context, c: Context)
    requires live.iret.cs == USER_CS && live.iret.ss == USER_SS
    requires c.regs == live.regs.(rcx := live.iret.rip, r11 := live.iret.rflags)
    requires c.iret == Iret(c.regs.rcx, USER_CS, c.regs.r11, live.iret.rsp, USER_SS)
    requires contexts' == contexts[t := c]
    ensures c == Entered(live) && Fixed(c) == c
    ensures Own(contexts', t, None) == Own(contexts, t, Some(live))[t := Entered(live)]
  {
  }

  /** The registers the compiler can choose for the user's stack pointer. */
  datatype Holder = Rbx | R12 | R13 | R14 | R15

  function Put(r: Regs, at: Holder, v: nat): Regs {
    match at
    case Rbx => r.(rbx := v)
    case R12 => r.(r12 := v)
    case R13 => r.(r13 := v)
    case R14 => r.(r14 := v)
    case R15 => r.(r15 := v)
  }

  function Held(r: Regs, at: Holder): nat {
    match at case Rbx => r.rbx case R12 => r.r12 case R13 => r.r13 case R14 => r.r14 case R15 => r.r15
  }

  function HolderOf(l: Left, v: nat): Holder {
    if l.rbx == v then Rbx else if l.r12 == v then R12 else if l.r13 == v then R13 else if l.r14 == v then R14 else R15
  }

  lemma LeftOfLeft(r: Regs, l: Left)
    requires r.rbx == l.rbx && r.rbp == l.rbp && r.r12 == l.r12 && r.r13 == l.r13 && r.r14 == l.r14 && r.r15 == l.r15
    ensures LeftOf(r) == l
  {
  }

  lemma PutBack(r: Regs, l: Left, v: nat)
    requires LeftOf(r) == l && HasRsp(l, v)
    ensures LeftOf(Put(r, HolderOf(l, v), v)) == l
  {
  }

  /** What the model leaves open about an event: the selector bits the processor pushes, what the
      scheduler leaves in the registers, and the registers of a handler at work. */
  datatype Noise = Noise(bits: nat, junk: Regs, handler: Regs, at: Iret)

  class Cpu {
    const queue: Scheduler.RunQueue
    const user: Task -> bool
    const cr3Of: Task -> nat
    const stackTop: Task -> nat
    var regs: Regs
    var iret: Iret
    var gs: GsBase
    var inSyscall: bool
    var contexts: map<Task, Context>
    var scratch: nat
    var kernelStack: Saved
    var cr3: nat
    var rsp0: nat
    ghost var entry: Regs

    /** Selectors of a task's code: user tasks in ring 3, kernel tasks in ring 0. */
    predicate Selectors(t: Task, f: Iret) {
      if user(t) then f.cs == USER_CS && f.ss == USER_SS else f.cs == KERNEL_CS
    }

    ghost predicate ContextsOk()
      reads `contexts
    {
      forall t :: t in contexts ==> Selectors(t, FixSs(contexts[t].iret))
    }

    ghost predicate QueueOk()
      reads `contexts, queue
    {
      && Scheduler.Valid(queue.Contents()) && queue.current.Some? && queue.current.value in contexts
      && forall t :: t in queue.ready ==> t in contexts
    }

    /** The CPU runs on the current task's address space and kernel stack. */
    ghost predicate Placed()
      reads `cr3, `rsp0, queue
    {
      queue.current.Some? && cr3 == cr3Of(queue.current.value) && rsp0 == stackTop(queue.current.value)
    }

    ghost predicate Valid()
      reads this, queue
    {
      && QueueOk() && ContextsOk() && Placed()
      && (gs == KernelGs <==> iret.cs % 4 == 0)
      && (if inSyscall then iret.cs == KERNEL_CS && SavedAt(kernelStack, entry, contexts[queue.current.value].iret)
          else Selectors(queue.current.value, iret))
    }

    /** What tasks observe. */
    ghost function Observed(): World
      reads this, queue
      requires queue.current.Some?
    {
      World(queue.Contents(),
            Own(contexts, queue.current.value, if inSyscall then None else Some(Context(regs, iret))),
            if inSyscall then InSyscall(entry) else InTask)
    }

    /** A CPU that has just been handed its first task. */
    constructor (queue: Scheduler.RunQueue, user: Task -> bool, cr3Of: Task -> nat, stackTop: Task -> nat,
                 contexts: map<Task, Context>)
      requires Scheduler.Valid(queue.Contents()) && queue.current.Some? && queue.current.value in contexts
      requires forall t :: t in queue.ready ==> t in contexts
      requires forall t :: t in contexts ==>
        if user(t) then contexts[t].iret.cs == USER_CS && contexts[t].iret.ss == USER_SS
        else contexts[t].iret.cs == KERNEL_CS
      ensures Valid() && this.queue == queue && Observed() == World(queue.Contents(), contexts, InTask)
    {
      var first := contexts[queue.current.value];
      this.queue, this.user, this.cr3Of, this.stackTop, this.contexts := queue, user, cr3Of, stackTop, contexts;
      regs, iret, inSyscall, scratch, entry := first.regs, first.iret, false, 0, first.regs;
      kernelStack := Saved(first.regs, 0, 0, 0, 0);
      gs := if FromUser(first.iret.cs) then UserGs else KernelGs;
      cr3, rsp0 := cr3Of(queue.current.value), stackTop(queue.current.value);
      new;
      NothingToFix(contexts);
      hide FixedAll, FixSs;
    }

    /** Ask the scheduler for the next task and switch address space and kernel stack to it. */
    method Inner() returns (next: Task)
      requires QueueOk() && Placed()
      modifies `cr3, `rsp0, queue
      ensures QueueOk() && Placed() && queue.Contents() == Scheduler.Tick(old(queue.Contents()))
      ensures queue.current == Some(next)
    {
      var task := queue.ScheduleFromInterrupt();
      next := task.value;
      if cr3Of(next) != cr3 { cr3 := cr3Of(next); }
      rsp0 := stackTop(next);
    }

    /** Save all registers of the interrupted code; r11 was pushed before it became scratch. */
    method Save(task: Task, savedR11: nat, f: Iret)
      requires task in contexts
      modifies `contexts
      ensures contexts == old(contexts)[task := Context(regs.(r11 := savedR11), f)]
    {
      var c := contexts[task];
      c := c.(regs := c.regs.(rax := regs.rax, r15 := regs.r15, r14 := regs.r14, r13 := regs.r13, r12 := regs.r12));
      c := c.(regs := c.regs.(r11 := savedR11));
      c := c.(regs := c.regs.(r10 := regs.r10, r9 := regs.r9, r8 := regs.r8, rdi := regs.rdi, rsi := regs.rsi));
      c := c.(regs := c.regs.(rbp := regs.rbp, rbx := regs.rbx, rdx := regs.rdx, rcx := regs.rcx));
      c := c.(iret := c.iret.(rip := f.rip, cs := f.cs, rflags := f.rflags, rsp := f.rsp, ss := f.ss));
      contexts := contexts[task := c];
    }

    /** Load all registers of the next task and return to it. */
    method Restore(task: Task)
      requires task in contexts && gs == KernelGs
      modifies `regs, `iret, `gs
      ensures Context(regs, iret) == Fixed(contexts[task])
      ensures gs == KernelGs <==> iret.cs % 4 == 0
    {
      var c := contexts[task];
      var f := iret;
      f := f.(rip := c.iret.rip, cs := c.iret.cs, rflags := c.iret.rflags, rsp := c.iret.rsp, ss := c.iret.ss);
      if f.cs % 4 == 3 { f := f.(ss := f.ss - f.ss % 4 + 3); }
      if FromUser(f.cs) { gs := UserGs; }
      regs := regs.(r15 := c.regs.r15, r14 := c.regs.r14, r13 := c.regs.r13, r12 := c.regs.r12, r10 := c.regs.r10);
      regs := regs.(r9 := c.regs.r9, r8 := c.regs.r8, rdi := c.regs.rdi, rsi := c.regs.rsi, rbp := c.regs.rbp);
      regs := regs.(rbx := c.regs.rbx, rdx := c.regs.rdx, rcx := c.regs.rcx, rax := c.regs.rax);
      regs := regs.(r11 := c.regs.r11);
      iret := f;
    }

    /** The first half of the timer interrupt: kernel GS, and the task's state in its context. */
    method Interrupted(pushed: Iret)
      requires Valid() && FixSs(pushed) == iret
      modifies `regs, `gs, `inSyscall, `contexts
      ensures QueueOk() && ContextsOk() && gs == KernelGs && !inSyscall
      ensures FixedAll(contexts) == old(Observed()).own
    {
      hide FixedAll;
      var savedR11 := regs.r11;
      regs := regs.(r11 := pushed.cs);
      if FromUser(regs.r11) { gs := KernelGs; }
      var task := queue.context.value;
      if inSyscall {
        inSyscall := false;
      } else {
        Save(task, savedR11, pushed);
        FixedUpdate(old(contexts), task, Context(old(regs), pushed));
      }
    }

    /** The timer interrupt.  The processor pushed `pushed`, whose stack selector may have lost its
        privilege bits; `junk` is what the scheduler leaves in the registers. */
    method TimerInterrupt(pushed: Iret, junk: Regs)
      requires Valid() && FixSs(pushed) == iret
      modifies this, queue
      ensures Valid() && Possible(old(Observed()), Tick) && Observed() == Next(old(Observed()), Tick)
    {
      hide FixedAll;
      FixedSame(contexts, queue.current.value);
      Interrupted(pushed);
      var next := Inner();
      regs := junk;
      Restore(next);
      FixedSame(contexts, next);
    }

    /** The prologue's saves: user state into the context, with rax and rbx as scratch. */
    method SaveForSyscall(task: Task)
      requires task in contexts
      modifies `regs, `contexts
      ensures regs == old(regs)
      ensures contexts == old(contexts)[task := Context(regs, Iret(regs.rcx, USER_CS, regs.r11, scratch, USER_SS))]
    {
      var number := regs.rax;
      var c := contexts[task];
      c := c.(regs := c.regs.(rbx := regs.rbx, rcx := regs.rcx, rdx := regs.rdx,
                              rsi := regs.rsi, rdi := regs.rdi, rbp := regs.rbp));
      c := c.(regs := c.regs.(r8 := regs.r8, r9 := regs.r9, r10 := regs.r10, r11 := regs.r11));
      c := c.(regs := c.regs.(r12 := regs.r12, r13 := regs.r13, r14 := regs.r14, r15 := regs.r15));
      regs := regs.(rbx := number);
      c := c.(regs := c.regs.(rax := regs.rbx));
      c := c.(iret := c.iret.(rip := regs.rcx, cs := USER_CS, rflags := regs.r11));
      regs := regs.(rbx := scratch);
      c := c.(iret := c.iret.(rsp := regs.rbx, ss := USER_SS));
      regs := regs.(rbx := c.regs.rbx, rax := number);
      contexts := contexts[task := c];
    }

    /** The processor's part of SYSCALL and the switch to kernel GS and stack. */
    method Trap(handlerRip: nat, handlerFlags: nat)
      modifies `regs, `iret, `gs, `scratch
      ensures regs == old(regs).(rcx := old(iret.rip), r11 := old(iret.rflags)) && scratch == old(iret.rsp)
      ensures iret == Iret(handlerRip, KERNEL_CS, handlerFlags, rsp0, KERNEL_SS) && gs == KernelGs
    {
      regs := regs.(rcx := iret.rip, r11 := iret.rflags);
      iret := Iret(handlerRip, KERNEL_CS, handlerFlags, iret.rsp, KERNEL_SS);
      gs := KernelGs;
      scratch := iret.rsp;
      iret := iret.(rsp := rsp0);
    }

    /** Save the user state, raise the flag and push the handler's arguments. */
    method Prologue(task: Task)
      requires task in contexts
      modifies `regs, `contexts, `inSyscall, `entry, `kernelStack
      ensures regs == old(regs) && entry == regs && inSyscall
      ensures contexts == old(contexts)[task := Context(regs, Iret(regs.rcx, USER_CS, regs.r11, scratch, USER_SS))]
      ensures SavedAt(kernelStack, entry, contexts[task].iret)
    {
      SaveForSyscall(task);
      inSyscall := true;
      entry := regs;
      kernelStack := Saved(regs.(rcx := regs.r10), regs.rax, regs.r11, regs.rcx, scratch);
    }

    /** SYSCALL from user code up to the call of the handler. */
    method SyscallEntry(handlerRip: nat, handlerFlags: nat)
      requires Valid() && !inSyscall && iret.cs == USER_CS
      modifies this
      ensures Valid() && inSyscall && Possible(old(Observed()), Enter) && Observed() == Next(old(Observed()), Enter)
      ensures kernelStack.args.rdi == old(regs.rdi) && kernelStack.args.rsi == old(regs.rsi)
      ensures kernelStack.args.rdx == old(regs.rdx) && kernelStack.args.rcx == old(regs.r10)
      ensures kernelStack.args.r8 == old(regs.r8) && kernelStack.args.r9 == old(regs.r9)
      ensures kernelStack.number == old(regs.rax) && kernelStack.rip == old(iret.rip)
      ensures kernelStack.flags == old(iret.rflags) && kernelStack.rsp == old(iret.rsp)
    {
      hide FixedAll;
      ghost var live := Context(regs, iret);
      var task := queue.context.value;
      Trap(handlerRip, handlerFlags);
      Prologue(task);
      OwnEntered(old(contexts), contexts, task, live, contexts[task]);
    }

    /** What the handler dispatches on and passes to the system call. */
    method Arguments() returns (number: nat, inputs: seq<nat>)
      ensures number == kernelStack.args.rdi
      ensures inputs == [kernelStack.args.rsi, kernelStack.args.rdx, kernelStack.args.rcx, kernelStack.args.r8,
                         kernelStack.args.r9, kernelStack.number]
    {
      var a := kernelStack.args;
      return a.rdi, [a.rsi, a.rdx, a.rcx, a.r8, a.r9, kernelStack.number];
    }

    /** The handler returns directly to user code; `at` is the register the compiler gave to the stack
        pointer.  The other registers it does not set are as the handler's code has left them. */
    method SyscallReturn(ret: nat, at: Holder)
      requires Valid() && inSyscall
      modifies this
      ensures Valid() && !inSyscall && LeftOf(regs) == LeftOf(Put(old(regs), at, old(kernelStack).rsp))
      ensures Possible(old(Observed()), Return(ret, LeftOf(regs)))
      ensures Observed() == Next(old(Observed()), Return(ret, LeftOf(regs)))
    {
      hide FixedAll;
      var _, inputs := Arguments();
      FixedSame(contexts, queue.current.value);
      inSyscall := false;
      regs := Put(regs, at, kernelStack.rsp);
      regs := regs.(rcx := kernelStack.rip, r11 := kernelStack.flags, rdi := inputs[0], rsi := inputs[1],
                    rdx := inputs[2], r10 := inputs[3], r8 := inputs[4], r9 := inputs[5], rax := ret);
      var rsp := Held(regs, at);
      gs := UserGs;
      // The processor.
      iret := Iret(regs.rcx, USER_CS, regs.r11, rsp, USER_SS);
    }

    /** The current task computes: anything may change but its selectors. */
    method Execute(to: Context)
      requires Valid() && !inSyscall && to.iret.cs == iret.cs && to.iret.ss == iret.ss
      modifies `regs, `iret
      ensures Valid() && Possible(old(Observed()), Step(to)) && Observed() == Next(old(Observed()), Step(to))
    {
      hide FixedAll;
      regs, iret := to.regs, to.iret;
    }

    /** Somebody puts a task on this CPU's queue. */
    method Enqueue(t: Task)
      requires Valid() && t in contexts
      modifies queue
      ensures Valid() && Possible(old(Observed()), Queued(Scheduler.Add(t)))
      ensures Observed() == Next(old(Observed()), Queued(Scheduler.Add(t)))
    {
      hide FixedAll;
      FixedSame(contexts, queue.current.value);
      FixedSame(contexts, t);
      queue.Add(t);
    }

    /** Somebody stores a task's state. */
    method Mark(t: Task, s: Scheduler.TaskState)
      requires Valid()
      modifies queue
      ensures Valid() && Possible(old(Observed()), Queued(Scheduler.Mark(t, s)))
      ensures Observed() == Next(old(Observed()), Queued(Scheduler.Mark(t, s)))
    {
      hide FixedAll;
      FixedSame(contexts, queue.current.value);
      queue.Mark(t, s);
    }

    /** The handler computes: its own registers are not the task's. */
    method Handle(regs': Regs, iret': Iret)
      requires Valid() && inSyscall && iret'.cs == KERNEL_CS
      modifies `regs, `iret
      ensures Valid() && Observed() == old(Observed()) && regs == regs' && iret == iret'
    {
      regs, iret := regs', iret';
    }

    /** A blocking handler leaves the result the task will see if it is preempted. */
    method SetFallback(v: nat)
      requires Valid() && inSyscall
      modifies `contexts
      ensures Valid() && Possible(old(Observed()), SetRax(v)) && Observed() == Next(old(Observed()), SetRax(v))
    {
      hide FixedAll;
      var task := queue.context.value;
      var c := contexts[task];
      FixedSame(contexts, task);
      contexts := contexts[task := c.(regs := c.regs.(rax := v))];
      FixedUpdate(old(contexts), task, contexts[task]);
    }

    /** The handler works and leaves `left` when it returns. */
    method ReturnLeaving(ret: nat, left: Left, n: Noise)
      requires Valid() && inSyscall && HasRsp(left, kernelStack.rsp)
      modifies this
      ensures Valid() && Possible(old(Observed()), Return(ret, left))
      ensures Observed() == Next(old(Observed()), Return(ret, left))
    {
      hide Own, SavedAt, Possible, Next, FixSs, LeftOf, Put;
      var r := n.handler.(rbx := left.rbx, rbp := left.rbp, r12 := left.r12, r13 := left.r13, r14 := left.r14,
                          r15 := left.r15);
      var at := HolderOf(left, kernelStack.rsp);
      assert LeftOf(r) == left by { LeftOfLeft(r, left); }
      PutBack(r, left, kernelStack.rsp);
      Handle(r, n.at.(cs := KERNEL_CS));
      SyscallReturn(ret, at);
    }

    /** One event, whatever the open details are. */
    method Play(e: Event, n: Noise)
      requires Valid() && Possible(Observed(), e)
      modifies this, queue
      ensures Valid() && Possible(old(Observed()), e) && Observed() == Next(old(Observed()), e)
    {
      hide FixedAll;
      OwnOf(contexts, queue.current.value, if inSyscall then None else Some(Context(regs, iret)));
      match e {
        case Tick =>
          if inSyscall { Handle(n.handler, n.at.(cs := KERNEL_CS)); }
          TimerInterrupt(if FromUser(iret.cs) then iret.(ss := iret.ss - iret.ss % 4 + n.bits % 4) else iret, n.junk);
        case Queued(q) =>
          if q.Add? { Enqueue(q.task); } else { Mark(q.task, q.to); }
        case Step(to) => Execute(to);
        case Enter => SyscallEntry(n.at.rip, n.at.rflags);
        case SetRax(v) => SetFallback(v);
        case Return(ret, left) => ReturnLeaving(ret, left, n);
      }
    }

    /** Any run of this CPU is a run of what tasks observe. */
    method Drive(events: seq<Event>, noise: nat -> Noise)
      requires Valid() && AllPossible(Observed(), events)
      modifies this, queue
      ensures Valid() && Observed() == Run(old(Observed()), events)
    {
      hide ContextsOk, Placed, Own, SavedAt, Selectors, Possible, Next;
      for i := 0 to |events|
        invariant Valid() && queue.current.Some?
        invariant AllPossible(Observed(), events[i..]) && Run(Observed(), events[i..]) == Run(old(Observed()), events)
      {
        assert events[i..][0] == events[i] && events[i..][1..] == events[i + 1..];
        Play(events[i], noise(i));
      }
      assert events[|events|..] == [];
    }

    /** The current task's own state, as its registers hold it. */
    lemma Live(t: Task)
      requires Valid() && queue.current == Some(t) && !inSyscall
      ensures t in Observed().own && Observed().own[t] == Context(regs, iret)
    {
      OwnOf(contexts, t, Some(Context(regs, iret)));
    }

    /** Interrupt the current task and run on: when it is current again, the CPU holds exactly its
        registers and frame. */
    method RunInterrupted(events: seq<Event>, noise: nat -> Noise, ghost t: Task)
      requires Valid() && !inSyscall && Interrupts(Observed(), events, t)
      modifies this, queue
      ensures Valid() && (queue.current == Some(t) ==> !inSyscall && regs == old(regs) && iret == old(iret))
    {
      hide Own, Rests, Run, AllPossible;
      Live(t);
      InterruptedTaskResumes(Observed(), events, t);
      Drive(events, noise);
      if queue.current == Some(t) { Live(t); }
    }

    /** The current task makes a system call, is preempted inside it, and the CPU runs on: when the task
        is current again, the CPU holds its entry registers, with rax as the handler set it last. */
    method RunPreempted(handling: seq<Event>, events: seq<Event>, noise: nat -> Noise, ghost t: Task)
      requires Valid() && !inSyscall && Preempts(Observed(), handling, events, t)
      modifies this, queue
      ensures Valid()
      ensures queue.current == Some(t) ==> !inSyscall && iret == old(iret)
      ensures queue.current == Some(t) ==>
        regs == old(regs).(rcx := old(iret.rip), r11 := old(iret.rflags), rax := LastRax(handling, old(regs.rax)))
    {
      hide Own, Run, AllPossible;
      ghost var w := Observed();
      Live(t);
      PreemptedCallerResumes(w, handling, events, t);
      Drive([Enter] + handling, noise);
      Play(Tick, noise(|handling| + 1));
      Drive(events, noise);
      if queue.current == Some(t) { Live(t); }
    }

    /** The current task makes a system call: its number is in rdi, its arguments in rsi, rdx, r10, r8 and r9,
        with rax as a sixth, and they are what the handler finds however long it works. */
    method RunHandling(handling: seq<Event>, noise: nat -> Noise, ghost t: Task) returns (number: nat, inputs: seq<nat>)
      requires Valid() && !inSyscall && queue.current == Some(t) && HandlerOnly(handling)
      requires AllPossible(Observed(), [Enter] + handling)
      modifies this, queue
      ensures Valid() && inSyscall && queue.current == Some(t) && number == old(regs.rdi)
      ensures inputs ==
        [old(regs.rsi), old(regs.rdx), old(regs.r10), old(regs.r8), old(regs.r9), old(regs.rax)]
      ensures kernelStack.rip == old(iret.rip) && kernelStack.flags == old(iret.rflags)
      ensures kernelStack.rsp == old(iret.rsp)
    {
      hide Own, Run, AllPossible;
      ghost var w := Observed();
      Live(t);
      EntryIsKept(w, handling, t);
      Drive([Enter] + handling, noise);
      number, inputs := Arguments();
      OwnOf(contexts, t, None);
    }

    /** The current task makes a system call that returns directly: frame, result and shifted arguments.
        The registers the handler does not set come back unchanged only if one of them held rsp. */
    method RunReturning(handling: seq<Event>, ret: nat, left: Left, noise: nat -> Noise, ghost t: Task)
      requires Valid() && !inSyscall && Returns(Observed(), handling, ret, left, t)
      modifies this, queue
      ensures Valid() && !inSyscall && queue.current == Some(t) && iret == old(iret) && regs.rax == ret
      ensures LeftOf(regs) == left
      ensures LeftOf(regs) == LeftOf(old(regs)) ==> HasRsp(LeftOf(old(regs)), old(iret.rsp))
    {
      hide Own, Run, AllPossible;
      ghost var w := Observed();
      Live(t);
      DirectReturn(w, handling, ret, left, t);
      Drive([Enter] + handling, noise);
      assert HasRsp(left, Observed().own[t].iret.rsp);
      Play(Return(ret, left), noise(|handling| + 1));
      Live(t);
    }
  }
}
