/**
 Message channels under every interleaving.  A step is what one thread does inside one critical
 section or with one atomic access; operations in progress are kept per thread.  Each channel also
 carries its history: the messages accepted from senders and those delivered to receivers.
 */
module Ipc {
  import opened Wrappers

  type Message = seq<bv8>
  type Thread = nat

  const MAX_MESSAGE_SIZE: nat := 4096
  const DEFAULT_CHANNEL_CAPACITY: nat := 16
  const MAX_CHANNEL_CAPACITY: nat := 256

  datatype Role = Send | Recv

  datatype Endpoint = Endpoint(role: Role, chan: nat)

  datatype Channel = Channel(queue: seq<Message>, capacity: nat, sendClosed: bool, recvClosed: bool,
                             accepted: seq<Message>, delivered: seq<Message>)

  datatype IpcError = InvalidEndpoint | WrongDirection | PeerClosed | ChannelFull | WouldBlock | MessageTooLarge

  /** How far a thread's operation has got. */
  datatype Phase =
    | Idle
    | HasSendId(capacity: nat, send: nat)
    | HasIds(capacity: nat, send: nat, recv: nat)
    | SendFound(c: nat, m: Message)
    | SendChecked(c: nat, m: Message)
    | RecvFound(c: nat)
    | Removed(ep: Endpoint)

  datatype System = System(
    registry: map<nat, Endpoint>, channels: seq<Channel>, nextId: nat, phases: map<Thread, Phase>)

  function PhaseOf(s: System, th: Thread): Phase {
    if th in s.phases then s.phases[th] else Idle
  }

  function SetPhase(s: System, th: Thread, p: Phase): System {
    s.(phases := s.phases[th := p])
  }

  function Capacity(requested: nat): (r: nat)
    ensures 1 <= r <= MAX_CHANNEL_CAPACITY
    ensures 1 <= requested <= MAX_CHANNEL_CAPACITY ==> r == requested
    ensures requested > MAX_CHANNEL_CAPACITY ==> r == MAX_CHANNEL_CAPACITY
    ensures requested == 0 ==> r == DEFAULT_CHANNEL_CAPACITY
  {
    if requested == 0 then DEFAULT_CHANNEL_CAPACITY
    else if requested > MAX_CHANNEL_CAPACITY then MAX_CHANNEL_CAPACITY else requested
  }

  datatype Step =
    | TakeSendId(th: Thread, capacity: nat)
    | TakeRecvId(th: Thread)
    | Create(th: Thread)
    | FindSend(th: Thread, id: nat, m: Message)
    | CheckPeer(th: Thread)
    | Push(th: Thread)
    | FindRecv(th: Thread, id: nat)
    | Pop(th: Thread)
    | Remove(th: Thread, id: nat)
    | Store(th: Thread)

  predicate ChanOk(s: System, c: nat) { c < |s.channels| }

  predicate Enabled(s: System, e: Step) {
    match e
    case TakeSendId(th, _) => PhaseOf(s, th).Idle?
    case TakeRecvId(th) => PhaseOf(s, th).HasSendId?
    case Create(th) => PhaseOf(s, th).HasIds?
    case FindSend(th, _, _) => PhaseOf(s, th).Idle?
    case CheckPeer(th) => PhaseOf(s, th).SendFound? && ChanOk(s, PhaseOf(s, th).c)
    case Push(th) => PhaseOf(s, th).SendChecked? && ChanOk(s, PhaseOf(s, th).c)
    case FindRecv(th, _) => PhaseOf(s, th).Idle?
    case Pop(th) => PhaseOf(s, th).RecvFound? && ChanOk(s, PhaseOf(s, th).c)
    case Remove(th, _) => PhaseOf(s, th).Idle?
    case Store(th) => PhaseOf(s, th).Removed? && ChanOk(s, PhaseOf(s, th).ep.chan)
  }

  function SetChannel(s: System, c: nat, ch: Channel): System
    requires ChanOk(s, c)
  {
    s.(channels := s.channels[c := ch])
  }

  /** A sender's turn with the channel lock. */
  function Accept(ch: Channel, m: Message): Channel {
    if |ch.queue| >= ch.capacity then ch else ch.(queue := ch.queue + [m], accepted := ch.accepted + [m])
  }

  /** A receiver's turn with the channel lock. */
  function Deliver(ch: Channel): Channel {
    if ch.queue == [] then ch else ch.(queue := ch.queue[1..], delivered := ch.delivered + [ch.queue[0]])
  }

  function CloseFlag(ch: Channel, r: Role): Channel {
    match r case Send => ch.(sendClosed := true) case Recv => ch.(recvClosed := true)
  }

  function Next(s: System, e: Step): System
    requires Enabled(s, e)
  {
    match e
    case TakeSendId(th, n) => SetPhase(s.(nextId := s.nextId + 1), th, HasSendId(n, s.nextId))
    case TakeRecvId(th) =>
      var p := PhaseOf(s, th);
      SetPhase(s.(nextId := s.nextId + 1), th, HasIds(p.capacity, p.send, s.nextId))
    case Create(th) =>
      var p := PhaseOf(s, th);
      SetPhase(s.(channels := s.channels + [Channel([], Capacity(p.capacity), false, false, [], [])],
                  registry := s.registry[p.send := Endpoint(Send, |s.channels|)]
                                        [p.recv := Endpoint(Recv, |s.channels|)]),
               th, Idle)
    case FindSend(th, id, m) =>
      if |m| > MAX_MESSAGE_SIZE || id !in s.registry || !s.registry[id].role.Send? then s
      else SetPhase(s, th, SendFound(s.registry[id].chan, m))
    case CheckPeer(th) =>
      var p := PhaseOf(s, th);
      SetPhase(s, th, if s.channels[p.c].recvClosed then Idle else SendChecked(p.c, p.m))
    case Push(th) =>
      var p := PhaseOf(s, th);
      SetPhase(SetChannel(s, p.c, Accept(s.channels[p.c], p.m)), th, Idle)
    case FindRecv(th, id) =>
      if id !in s.registry || !s.registry[id].role.Recv? then s else SetPhase(s, th, RecvFound(s.registry[id].chan))
    case Pop(th) =>
      var c := PhaseOf(s, th).c;
      SetPhase(SetChannel(s, c, Deliver(s.channels[c])), th, Idle)
    case Remove(th, id) =>
      if id !in s.registry then s
      else SetPhase(s.(registry := s.registry - {id}), th, Removed(s.registry[id]))
    case Store(th) =>
      var ep := PhaseOf(s, th).ep;
      SetPhase(SetChannel(s, ep.chan, CloseFlag(s.channels[ep.chan], ep.role)), th, Idle)
  }

  /** What a step answers its caller, if the operation ends with it. */
  datatype Reply = Made(send: nat, recv: nat) | Sent | Received(m: Message) | Closed | Failed(why: IpcError)

  function Answer(s: System, e: Step): Option<Reply>
    requires Enabled(s, e)
  {
    match e
    case TakeSendId(_, _) => None
    case TakeRecvId(_) => None
    case Create(th) => Some(Made(PhaseOf(s, th).send, PhaseOf(s, th).recv))
    case FindSend(_, id, m) =>
      if |m| > MAX_MESSAGE_SIZE then Some(Failed(MessageTooLarge))
      else if id !in s.registry then Some(Failed(InvalidEndpoint))
      else if !s.registry[id].role.Send? then Some(Failed(WrongDirection)) else None
    case CheckPeer(th) => if s.channels[PhaseOf(s, th).c].recvClosed then Some(Failed(PeerClosed)) else None
    case Push(th) =>
      var ch := s.channels[PhaseOf(s, th).c];
      if |ch.queue| >= ch.capacity then Some(Failed(ChannelFull)) else Some(Sent)
    case FindRecv(_, id) =>
      if id !in s.registry then Some(Failed(InvalidEndpoint))
      else if !s.registry[id].role.Recv? then Some(Failed(WrongDirection)) else None
    case Pop(th) =>
      var ch := s.channels[PhaseOf(s, th).c];
      if ch.queue != [] then Some(Received(ch.queue[0]))
      else if ch.sendClosed then Some(Failed(PeerClosed)) else Some(Failed(WouldBlock))
    case Remove(_, id) => if id !in s.registry then Some(Failed(InvalidEndpoint)) else None
    case Store(_) => Some(Closed)
  }

  // --- Invariants ---

  ghost predicate Small(ms: seq<Message>) {
    forall i :: 0 <= i < |ms| ==> |ms[i]| <= MAX_MESSAGE_SIZE
  }

  /** First in, first out, nothing lost or duplicated, and never more than the capacity. */
  ghost predicate Fifo(ch: Channel) {
    && ch.accepted == ch.delivered + ch.queue
    && |ch.queue| <= ch.capacity && 1 <= ch.capacity <= MAX_CHANNEL_CAPACITY
    && Small(ch.accepted)
  }

  ghost predicate ChannelsOk(s: System) {
    forall c :: 0 <= c < |s.channels| ==> Fifo(s.channels[c])
  }

  predicate Closing(ch: Channel, r: Role) {
    match r case Send => ch.sendClosed case Recv => ch.recvClosed
  }

  predicate Open(s: System, ep: Endpoint) {
    ChanOk(s, ep.chan) && !Closing(s.channels[ep.chan], ep.role)
  }

  /** Every endpoint of the registry is the only one of its kind, and still open. */
  ghost predicate RegistryOk(s: System) {
    && (forall id :: id in s.registry ==> id < s.nextId && Open(s, s.registry[id]))
    && (forall a, b :: a in s.registry && b in s.registry && s.registry[a] == s.registry[b] ==> a == b)
  }

  ghost predicate PhasesOk(s: System) {
    forall th :: th in s.phases ==> PhaseOk(s, s.phases[th])
  }

  /** A thread that removed an endpoint is the one that will close it. */
  ghost predicate PhaseOk(s: System, p: Phase) {
    match p
    case Idle => true
    case HasSendId(_, send) => true
    case HasIds(_, send, recv) => send != recv
    case SendFound(c, m) => ChanOk(s, c) && |m| <= MAX_MESSAGE_SIZE
    case SendChecked(c, m) => ChanOk(s, c) && |m| <= MAX_MESSAGE_SIZE
    case RecvFound(c) => ChanOk(s, c)
    case Removed(ep) => ChanOk(s, ep.chan) && forall id :: id in s.registry ==> s.registry[id] != ep
  }

  /** The thread has taken the identifier and not yet entered it. */
  predicate Owns(s: System, th: Thread, id: nat) {
    th in s.phases && Has(s.phases[th], id)
  }

  predicate Has(p: Phase, id: nat) {
    (p.HasSendId? && id == p.send) || (p.HasIds? && (id == p.send || id == p.recv))
  }

  predicate Unused(s: System, id: nat) { id < s.nextId && id !in s.registry }

  /** Taken identifiers are taken once, and not in use. */
  ghost predicate IdsOk(s: System) {
    && (forall th: Thread, id: nat :: Owns(s, th, id) ==> Unused(s, id))
    && (forall a: Thread, b: Thread, id: nat :: Owns(s, a, id) && Owns(s, b, id) ==> a == b)
  }

  ghost predicate Inv(s: System) {
    ChannelsOk(s) && RegistryOk(s) && PhasesOk(s) && IdsOk(s)
  }

  /** The identifiers a thread is about to enter are its own and unused. */
  lemma OwnIds(s: System, th: Thread)
    requires IdsOk(s)
    ensures forall id: nat :: Has(PhaseOf(s, th), id) ==> Unused(s, id)
    ensures forall u: Thread, id: nat :: Has(PhaseOf(s, th), id) && Owns(s, u, id) ==> u == th
    ensures PhaseOf(s, th).HasSendId? || PhaseOf(s, th).HasIds? ==> Has(PhaseOf(s, th), PhaseOf(s, th).send)
    ensures PhaseOf(s, th).HasIds? ==> Has(PhaseOf(s, th), PhaseOf(s, th).recv)
  {
    forall id: nat | Has(PhaseOf(s, th), id) ensures Owns(s, th, id) { }
  }

  lemma IdsStep(s: System, e: Step)
    requires Inv(s) && Enabled(s, e)
    ensures IdsOk(Next(s, e))
  {
    hide Fifo, PhaseOk, Open;
    var s' := Next(s, e);
    forall th: Thread, id: nat | Owns(s', th, id) ensures Unused(s', id) {
      NewIds(s, e, th, id);
      OwnIds(s, th);
      if e.Create? { OwnIds(s, e.th); }
      assert Has(PhaseOf(s, th), id) ==> Owns(s, th, id);
    }
    forall a: Thread, b: Thread, id: nat | Owns(s', a, id) && Owns(s', b, id) ensures a == b {
      NewIds(s, e, a, id);
      NewIds(s, e, b, id);
      OwnIds(s, a);
      OwnIds(s, b);
      assert Has(PhaseOf(s, b), id) ==> Owns(s, b, id);
    }
  }

  /** An identifier a thread has after a step it had before, or it just took the next one. */
  lemma NewIds(s: System, e: Step, th: Thread, id: nat)
    requires Enabled(s, e) && Has(PhaseOf(Next(s, e), th), id)
    ensures Has(PhaseOf(s, th), id) || (id == s.nextId && !e.Create? && (e.TakeSendId? || e.TakeRecvId?) && th == e.th)
    ensures e.Create? ==> th != e.th
  {
  }

  lemma AcceptKeepsFifo(ch: Channel, m: Message)
    requires Fifo(ch) && |m| <= MAX_MESSAGE_SIZE
    ensures Fifo(Accept(ch, m))
  {
  }

  lemma DeliverKeepsFifo(ch: Channel)
    requires Fifo(ch)
    ensures Fifo(Deliver(ch))
  {
  }

  lemma ChannelsStep(s: System, e: Step)
    requires Inv(s) && Enabled(s, e)
    ensures ChannelsOk(Next(s, e))
  {
    hide RegistryOk;
    var s' := Next(s, e);
    if e.Push? { AcceptKeepsFifo(s.channels[PhaseOf(s, e.th).c], PhaseOf(s, e.th).m); }
    if e.Pop? { DeliverKeepsFifo(s.channels[PhaseOf(s, e.th).c]); }
    hide Accept, Deliver;
    forall c | 0 <= c < |s'.channels| ensures Fifo(s'.channels[c]) {
      if c < |s.channels| { assert Fifo(s.channels[c]); }
    }
  }

  /** A step other than creating a channel only takes endpoints out, and the others stay open. */
  lemma EntryStays(s: System, e: Step, id: nat)
    requires RegistryOk(s) && PhasesOk(s) && Enabled(s, e) && !e.Create? && id in Next(s, e).registry
    ensures id in s.registry && Next(s, e).registry[id] == s.registry[id] && s.nextId <= Next(s, e).nextId
    ensures Open(Next(s, e), s.registry[id])
  {
    hide Fifo;
    assert PhaseOf(s, e.th).Removed? ==> PhaseOk(s, PhaseOf(s, e.th));
  }

  lemma CreateKeepsRegistry(s: System, e: Step)
    requires Inv(s) && Enabled(s, e) && e.Create?
    ensures RegistryOk(Next(s, e))
  {
    hide Fifo, PhaseOk;
    OwnIds(s, e.th);
    assert PhaseOk(s, PhaseOf(s, e.th));
    hide IdsOk;
  }

  lemma RegistryStep(s: System, e: Step)
    requires Inv(s) && Enabled(s, e)
    ensures RegistryOk(Next(s, e))
  {
    hide Fifo, IdsOk, Open;
    var s' := Next(s, e);
    if e.Create? {
      CreateKeepsRegistry(s, e);
    } else {
      hide Next;
      forall id | id in s'.registry
        ensures id in s.registry && s'.registry[id] == s.registry[id] && s.nextId <= s'.nextId
        ensures Open(s', s.registry[id])
      {
        EntryStays(s, e, id);
      }
    }
  }

  lemma PhasesStep(s: System, e: Step)
    requires Inv(s) && Enabled(s, e)
    ensures PhasesOk(Next(s, e))
  {
    hide Fifo, IdsOk;
    var s' := Next(s, e);
    if e.TakeRecvId? || e.Create? { OwnIds(s, e.th); }
    forall th | th in s'.phases ensures PhaseOk(s', s'.phases[th]) {
      assert th in s.phases ==> PhaseOk(s, s.phases[th]);
    }
  }

  predicate AllEnabled(s: System, steps: seq<Step>)
    decreases |steps|
  {
    steps != [] ==> Enabled(s, steps[0]) && AllEnabled(Next(s, steps[0]), steps[1..])
  }

  function Run(s: System, steps: seq<Step>): System
    requires AllEnabled(s, steps)
    decreases |steps|
  {
    if steps == [] then s else Run(Next(s, steps[0]), steps[1..])
  }

  lemma {:induction false} RunKeepsInv(s: System, steps: seq<Step>)
    requires Inv(s) && AllEnabled(s, steps)
    ensures Inv(Run(s, steps))
    decreases |steps|
  {
    if steps != [] {
      ChannelsStep(s, steps[0]);
      RegistryStep(s, steps[0]);
      PhasesStep(s, steps[0]);
      IdsStep(s, steps[0]);
      RunKeepsInv(Next(s, steps[0]), steps[1..]);
    }
  }

  predicate Initial(s: System) {
    s.registry == map[] && s.channels == [] && s.phases == map[]
  }

  /** Every reachable channel: first in, first out, within its capacity. */
  lemma ChannelsAreFifo(s: System, steps: seq<Step>, c: nat)
    requires Initial(s) && AllEnabled(s, steps) && c < |Run(s, steps).channels|
    ensures Fifo(Run(s, steps).channels[c])
  {
    RunKeepsInv(s, steps);
  }

  /** Histories only grow: no step takes back an accepted or a delivered message. */
  lemma {:induction false} HistoryGrows(s: System, steps: seq<Step>, c: nat)
    requires AllEnabled(s, steps) && c < |s.channels|
    ensures c < |Run(s, steps).channels|
    ensures s.channels[c].accepted <= Run(s, steps).channels[c].accepted
    ensures s.channels[c].delivered <= Run(s, steps).channels[c].delivered
    decreases |steps|
  {
    if steps != [] { HistoryGrows(Next(s, steps[0]), steps[1..], c); }
  }

  // --- What senders and receivers are told ---

  /** The message a step hands to a receiver of channel c. */
  ghost function HeardAt(s: System, e: Step, c: nat): seq<Message>
    requires Enabled(s, e)
  {
    var r := Answer(s, e);
    if e.Pop? && PhaseOf(s, e.th).c == c && r.Some? && r.value.Received? then [r.value.m] else []
  }

  /** The message whose sender a step tells that channel c took it. */
  ghost function ToldAt(s: System, e: Step, c: nat): seq<Message>
    requires Enabled(s, e)
  {
    if e.Push? && PhaseOf(s, e.th).c == c && Answer(s, e) == Some(Sent) then [PhaseOf(s, e.th).m] else []
  }

  ghost function Heard(s: System, steps: seq<Step>, c: nat): seq<Message>
    requires AllEnabled(s, steps)
    decreases |steps|
  {
    if steps == [] then [] else HeardAt(s, steps[0], c) + Heard(Next(s, steps[0]), steps[1..], c)
  }

  ghost function Told(s: System, steps: seq<Step>, c: nat): seq<Message>
    requires AllEnabled(s, steps)
    decreases |steps|
  {
    if steps == [] then [] else ToldAt(s, steps[0], c) + Told(Next(s, steps[0]), steps[1..], c)
  }

  lemma AnswersAreHistory(s: System, e: Step, c: nat)
    requires Enabled(s, e) && c < |s.channels|
    ensures c < |Next(s, e).channels|
    ensures Next(s, e).channels[c].delivered == s.channels[c].delivered + HeardAt(s, e, c)
    ensures Next(s, e).channels[c].accepted == s.channels[c].accepted + ToldAt(s, e, c)
    ensures Next(s, e).channels[c].capacity == s.channels[c].capacity
  {
  }

  /** Over any run the histories grow by exactly what receivers were given and senders were confirmed. */
  lemma {:induction false} HistoryIsAnswers(s: System, steps: seq<Step>, c: nat)
    requires AllEnabled(s, steps) && c < |s.channels|
    ensures c < |Run(s, steps).channels|
    ensures Run(s, steps).channels[c].delivered == s.channels[c].delivered + Heard(s, steps, c)
    ensures Run(s, steps).channels[c].accepted == s.channels[c].accepted + Told(s, steps, c)
    decreases |steps|
  {
    if steps != [] {
      hide Next, Enabled, HeardAt, ToldAt;
      var s1, rest := Next(s, steps[0]), steps[1..];
      AnswersAreHistory(s, steps[0], c);
      HistoryIsAnswers(s1, rest, c);
      Regroup(s.channels[c].delivered, HeardAt(s, steps[0], c), Heard(s1, rest, c));
      Regroup(s.channels[c].accepted, ToldAt(s, steps[0], c), Told(s1, rest, c));
    }
  }

  lemma Regroup(a: seq<Message>, b: seq<Message>, c: seq<Message>)
    ensures a + b + c == a + (b + c)
  {
  }

  /** What receivers of a new channel are given is a prefix of what its senders were confirmed. */
  lemma HeardIsPrefixOfTold(s: System, steps: seq<Step>, c: nat)
    requires Inv(s) && AllEnabled(s, steps) && c < |s.channels|
    requires s.channels[c].accepted == [] && s.channels[c].delivered == []
    ensures Heard(s, steps, c) <= Told(s, steps, c)
    ensures |Told(s, steps, c)| <= |Heard(s, steps, c)| + s.channels[c].capacity
  {
    RunKeepsInv(s, steps);
    HistoryIsAnswers(s, steps, c);
    CapacityStays(s, steps, c);
    var ch := Run(s, steps).channels[c];
    assert Fifo(ch) && ch.delivered == Heard(s, steps, c) && ch.accepted == Told(s, steps, c);
  }

  lemma {:induction false} CapacityStays(s: System, steps: seq<Step>, c: nat)
    requires AllEnabled(s, steps) && c < |s.channels|
    ensures c < |Run(s, steps).channels| && Run(s, steps).channels[c].capacity == s.channels[c].capacity
    decreases |steps|
  {
    if steps != [] {
      AnswersAreHistory(s, steps[0], c);
      CapacityStays(Next(s, steps[0]), steps[1..], c);
    }
  }

  /** A sender with the channel lock is refused if and only if as many messages as the channel holds have
      been accepted and not delivered; then nothing changes. */
  lemma PushAnswers(s: System, th: Thread)
    requires Inv(s) && Enabled(s, Push(th))
    ensures var ch := s.channels[PhaseOf(s, th).c];
      && Answer(s, Push(th)) ==
           Some(if |ch.accepted| == |ch.delivered| + ch.capacity then Failed(ChannelFull) else Sent)
      && (Answer(s, Push(th)) != Some(Sent) ==> Next(s, Push(th)).channels == s.channels)
  {
    var c := PhaseOf(s, th).c;
    assert Fifo(s.channels[c]);
    assert s.channels[c := s.channels[c]] == s.channels;
  }

  /** A receiver with the channel lock gets the oldest message not delivered yet, or learns why there is none. */
  lemma PopAnswers(s: System, th: Thread)
    requires Inv(s) && Enabled(s, Pop(th))
    ensures var ch := s.channels[PhaseOf(s, th).c];
      && |ch.delivered| <= |ch.accepted|
      && Answer(s, Pop(th)) ==
           Some(if |ch.delivered| < |ch.accepted| then Received(ch.accepted[|ch.delivered|])
                else Failed(if ch.sendClosed then PeerClosed else WouldBlock))
  {
    assert Fifo(s.channels[PhaseOf(s, th).c]);
  }

  // --- What PeerClosed means to a receiver ---

  /** Some thread is past the lookup with a message for channel c and can still get it accepted. */
  ghost predicate SendInFlight(s: System, c: nat)
    requires c < |s.channels|
  {
    exists th :: th in s.phases && StillSending(s.phases[th], c, s.channels[c].recvClosed)
  }

  predicate StillSending(p: Phase, c: nat, recvClosed: bool) {
    (p.SendChecked? && p.c == c) || (p.SendFound? && p.c == c && !recvClosed)
  }

  /** No run from here ever accepts another message. */
  ghost predicate Final(s: System, c: nat)
    requires c < |s.channels|
  {
    forall steps :: AllEnabled(s, steps) ==>
      c < |Run(s, steps).channels| && Run(s, steps).channels[c].accepted == s.channels[c].accepted
  }

  /** The sender's side of c is closed and no send is in flight. */
  ghost predicate Quiet(s: System, c: nat) {
    c < |s.channels| && s.channels[c].sendClosed && !SendInFlight(s, c)
  }

  lemma QuietStep(s: System, e: Step, c: nat)
    requires Inv(s) && Enabled(s, e) && Quiet(s, c)
    ensures Quiet(Next(s, e), c) && Next(s, e).channels[c].accepted == s.channels[c].accepted
  {
    hide Fifo;
    var s' := Next(s, e);
    forall th | th in s'.phases ensures !StillSending(s'.phases[th], c, s'.channels[c].recvClosed) {
      assert th in s.phases ==> !StillSending(s.phases[th], c, s.channels[c].recvClosed);
      if e.FindSend? && e.id in s.registry { assert Open(s, s.registry[e.id]); }
    }
  }

  lemma {:induction false} QuietForever(s: System, steps: seq<Step>, c: nat)
    requires Inv(s) && AllEnabled(s, steps) && Quiet(s, c)
    ensures c < |Run(s, steps).channels| && Run(s, steps).channels[c].accepted == s.channels[c].accepted
    decreases |steps|
  {
    if steps != [] {
      QuietStep(s, steps[0], c);
      RunKeepsInv(s, [steps[0]]);
      assert Run(s, [steps[0]]) == Next(s, steps[0]);
      QuietForever(Next(s, steps[0]), steps[1..], c);
    }
  }

  /** A send in flight can still be accepted by an empty channel. */
  lemma InFlightIsAccepted(s: System, c: nat) returns (steps: seq<Step>)
    requires Inv(s) && c < |s.channels| && s.channels[c].queue == [] && SendInFlight(s, c)
    ensures AllEnabled(s, steps) && c < |Run(s, steps).channels|
    ensures |Run(s, steps).channels[c].accepted| == |s.channels[c].accepted| + 1
  {
    var th :| th in s.phases && StillSending(s.phases[th], c, s.channels[c].recvClosed);
    assert Fifo(s.channels[c]);
    if s.phases[th].SendChecked? {
      steps := [Push(th)];
      assert Run(s, steps) == Next(s, Push(th));
    } else {
      var s1 := Next(s, CheckPeer(th));
      steps := [CheckPeer(th), Push(th)];
      assert steps[1..] == [Push(th)];
      assert Run(s1, [Push(th)]) == Next(s1, Push(th));
    }
  }

  /** A receiver that is told its peer has closed has been given everything accepted so far, and this is
      all there will ever be exactly if no send is in flight at that moment. */
  lemma PeerClosedIsFinal(s: System, th: Thread)
    requires Inv(s) && Enabled(s, Pop(th)) && Answer(s, Pop(th)) == Some(Failed(PeerClosed))
    ensures var c := PhaseOf(s, th).c;
      && s.channels[c].delivered == s.channels[c].accepted
      && (Final(s, c) <==> !SendInFlight(s, c))
  {
    var c := PhaseOf(s, th).c;
    assert Fifo(s.channels[c]);
    if SendInFlight(s, c) {
      var steps := InFlightIsAccepted(s, c);
      assert !Final(s, c);
    } else {
      forall steps | AllEnabled(s, steps)
        ensures c < |Run(s, steps).channels| && Run(s, steps).channels[c].accepted == s.channels[c].accepted
      {
        QuietForever(s, steps, c);
      }
    }
  }

  /** The moments of the run below. */
  function Asked(m: Message): System {
    System(map[2 := Endpoint(Recv, 0)], [Channel([], DEFAULT_CHANNEL_CAPACITY, true, false, [], [])], 3,
           map[0 := Idle, 1 := SendFound(0, m), 2 := Idle, 3 := RecvFound(0)])
  }

  function WhenFound(m: Message): System {
    Opened().(phases := map[0 := Idle, 1 := SendFound(0, m)])
  }

  function WhenCut(m: Message): System {
    Opened().(registry := map[2 := Endpoint(Recv, 0)],
              phases := map[0 := Idle, 1 := SendFound(0, m), 2 := Removed(Endpoint(Send, 0))])
  }

  function WhenClosed(m: Message): System {
    System(map[2 := Endpoint(Recv, 0)], [Channel([], DEFAULT_CHANNEL_CAPACITY, true, false, [], [])], 3,
           map[0 := Idle, 1 := SendFound(0, m), 2 := Idle])
  }

  lemma SenderFinds(m: Message)
    requires |m| <= MAX_MESSAGE_SIZE
    ensures Enabled(Opened(), FindSend(1, 1, m)) && Next(Opened(), FindSend(1, 1, m)) == WhenFound(m)
  {
  }

  lemma SenderCloses(m: Message)
    ensures Enabled(WhenFound(m), Remove(2, 1)) && Next(WhenFound(m), Remove(2, 1)) == WhenCut(m)
    ensures Enabled(WhenCut(m), Store(2)) && Next(WhenCut(m), Store(2)) == WhenClosed(m)
  {
  }

  lemma ReceiverAsks(m: Message)
    ensures Enabled(WhenClosed(m), FindRecv(3, 2)) && Next(WhenClosed(m), FindRecv(3, 2)) == Asked(m)
  {
  }

  function Opened(): System {
    System(map[1 := Endpoint(Send, 0), 2 := Endpoint(Recv, 0)],
           [Channel([], DEFAULT_CHANNEL_CAPACITY, false, false, [], [])], 3, map[0 := Idle])
  }

  function Taken(): System {
    System(map[], [], 3, map[0 := HasIds(0, 1, 2)])
  }

  lemma Unroll(s: System, e: Step, rest: seq<Step>)
    requires Enabled(s, e) && AllEnabled(Next(s, e), rest)
    ensures AllEnabled(s, [e] + rest) && Run(s, [e] + rest) == Run(Next(s, e), rest)
  {
  }

  lemma CloseAndAsk(m: Message)
    requires |m| <= MAX_MESSAGE_SIZE
    ensures AllEnabled(Opened(), [FindSend(1, 1, m), Remove(2, 1), Store(2), FindRecv(3, 2)])
    ensures Run(Opened(), [FindSend(1, 1, m), Remove(2, 1), Store(2), FindRecv(3, 2)]) == Asked(m)
  {
    SenderFinds(m);
    SenderCloses(m);
    ReceiverAsks(m);
    hide Next, Enabled;
    Unroll(WhenClosed(m), FindRecv(3, 2), []);
    Unroll(WhenCut(m), Store(2), [FindRecv(3, 2)]);
    Unroll(WhenFound(m), Remove(2, 1), [Store(2), FindRecv(3, 2)]);
    Unroll(Opened(), FindSend(1, 1, m), [Remove(2, 1), Store(2), FindRecv(3, 2)]);
  }

  /** The other case does happen: thread 1 finds the endpoint, thread 2 closes it, thread 3 is told the
      peer has closed, and then thread 1's message is accepted. */
  lemma MessageAfterPeerClosed(m: Message)
    requires |m| <= MAX_MESSAGE_SIZE
    ensures Enabled(Taken(), Create(0)) && Next(Taken(), Create(0)) == Opened()
    ensures Next(Next(System(map[], [], 1, map[]), TakeSendId(0, 0)), TakeRecvId(0)) == Taken()
    ensures AllEnabled(Opened(), [FindSend(1, 1, m), Remove(2, 1), Store(2), FindRecv(3, 2)])
    ensures var s := Run(Opened(), [FindSend(1, 1, m), Remove(2, 1), Store(2), FindRecv(3, 2)]);
      && Enabled(s, Pop(3)) && Answer(s, Pop(3)) == Some(Failed(PeerClosed))
      && Enabled(Next(s, Pop(3)), CheckPeer(1)) && Enabled(Next(Next(s, Pop(3)), CheckPeer(1)), Push(1))
      && Next(Next(Next(s, Pop(3)), CheckPeer(1)), Push(1)).channels[0].accepted == [m]
  {
    assert Next(Taken(), Create(0)).registry == Opened().registry;
    CloseAndAsk(m);
  }
}
