/**
 Channels as their clients see them.  A log records, from the arguments of calls and the answers to them
 alone, which endpoints were made in pairs, what senders were told was sent, what receivers were given and
 which endpoints were closed.  Over every run of every interleaving the log explains every answer.
 */
module IpcClients {
  import opened Wrappers
  import opened Ipc

  /** What a thread asked for last. */
  datatype Call = ToCreate(capacity: nat) | ToSend(id: nat, m: Message) | ToReceive(id: nat) | ToClose(id: nat)

  /** Two endpoints made together, and the capacity that was asked for. */
  datatype Pair = Pair(send: nat, recv: nat, asked: nat)

  /** `removed` are the endpoints whose closing has begun, `shut` those whose closing was confirmed. */
  datatype Log = Log(calls: map<Thread, Call>, pairs: seq<Pair>, told: map<nat, seq<Message>>,
                     heard: map<nat, seq<Message>>, removed: set<nat>, shut: set<nat>)

  const BLANK := Log(map[], [], map[], map[], {}, {})

  function Logged(ms: map<nat, seq<Message>>, id: nat): seq<Message> {
    if id in ms then ms[id] else []
  }

  /** Record a call or its answer. */
  function Note(l: Log, e: Step, r: Option<Reply>): Log {
    match e
    case TakeSendId(th, n) => l.(calls := l.calls[th := ToCreate(n)])
    case TakeRecvId(_) => l
    case Create(th) =>
      if r.Some? && r.value.Made? && th in l.calls && l.calls[th].ToCreate? then
        l.(pairs := l.pairs + [Pair(r.value.send, r.value.recv, l.calls[th].capacity)])
      else l
    case FindSend(th, id, m) => l.(calls := l.calls[th := ToSend(id, m)])
    case CheckPeer(_) => l
    case Push(th) =>
      if r == Some(Sent) && th in l.calls && l.calls[th].ToSend? then
        l.(told := l.told[l.calls[th].id := Logged(l.told, l.calls[th].id) + [l.calls[th].m]])
      else l
    case FindRecv(th, id) => l.(calls := l.calls[th := ToReceive(id)])
    case Pop(th) =>
      if r.Some? && r.value.Received? && th in l.calls && l.calls[th].ToReceive? then
        l.(heard := l.heard[l.calls[th].id := Logged(l.heard, l.calls[th].id) + [r.value.m]])
      else l
    case Remove(th, id) =>
      l.(calls := l.calls[th := ToClose(id)], removed := if r.None? then l.removed + {id} else l.removed)
    case Store(th) =>
      if r == Some(Closed) && th in l.calls && l.calls[th].ToClose? then l.(shut := l.shut + {l.calls[th].id}) else l
  }

  ghost function LogOf(s: System, steps: seq<Step>, l: Log): Log
    requires AllEnabled(s, steps)
    decreases |steps|
  {
    if steps == [] then l else LogOf(Next(s, steps[0]), steps[1..], Note(l, steps[0], Answer(s, steps[0])))
  }

  // --- How the log explains the state ---

  predicate IsMade(l: Log, ep: Endpoint) { ep.chan < |l.pairs| }

  function IdOf(l: Log, ep: Endpoint): nat
    requires IsMade(l, ep)
  {
    match ep.role case Send => l.pairs[ep.chan].send case Recv => l.pairs[ep.chan].recv
  }

  /** No identifier is given out twice, nor while a thread is about to enter it. */
  ghost predicate IdsDiffer(s: System, l: Log) {
    && (forall ep :: IsMade(l, ep) ==> IdOf(l, ep) < s.nextId)
    && (forall ep, ep' :: IsMade(l, ep) && IsMade(l, ep') && IdOf(l, ep) == IdOf(l, ep') ==> ep == ep')
    && (forall ep, th: Thread :: IsMade(l, ep) ==> !Owns(s, th, IdOf(l, ep)))
  }

  /** The registry holds exactly the endpoints made and not removed. */
  ghost predicate RegistryExplained(s: System, l: Log) {
    && (forall id :: id in s.registry ==> IsMade(l, s.registry[id]) && IdOf(l, s.registry[id]) == id)
    && (forall ep :: IsMade(l, ep) ==> (IdOf(l, ep) in s.registry <==> IdOf(l, ep) !in l.removed))
  }

  ghost predicate ChannelExplained(ch: Channel, l: Log, p: Pair) {
    && ch.accepted == Logged(l.told, p.send) && ch.delivered == Logged(l.heard, p.recv)
    && (ch.sendClosed <==> p.send in l.shut) && (ch.recvClosed <==> p.recv in l.shut)
    && ch.capacity == Capacity(p.asked)
  }

  ghost predicate ChannelsExplained(s: System, l: Log) {
    && |l.pairs| == |s.channels|
    && forall c :: 0 <= c < |l.pairs| ==> ChannelExplained(s.channels[c], l, l.pairs[c])
  }

  /** Nothing is recorded of an endpoint that was not made. */
  ghost predicate OnlyMade(s: System, l: Log) {
    forall id: nat :: id in l.told || id in l.heard || id in l.shut || id in l.removed ==> Known(l, id)
  }

  ghost predicate Known(l: Log, id: nat) {
    exists ep :: IsMade(l, ep) && IdOf(l, ep) == id
  }

  /** What a thread is doing is what it asked for. */
  ghost predicate PhaseExplained(l: Log, th: Thread, p: Phase) {
    match p
    case Idle => true
    case HasSendId(n, _) => th in l.calls && l.calls[th] == ToCreate(n)
    case HasIds(n, _, _) => th in l.calls && l.calls[th] == ToCreate(n)
    case SendFound(c, m) => c < |l.pairs| && th in l.calls && l.calls[th] == ToSend(l.pairs[c].send, m)
    case SendChecked(c, m) => c < |l.pairs| && th in l.calls && l.calls[th] == ToSend(l.pairs[c].send, m)
    case RecvFound(c) => c < |l.pairs| && th in l.calls && l.calls[th] == ToReceive(l.pairs[c].recv)
    case Removed(ep) => IsMade(l, ep) && th in l.calls && l.calls[th] == ToClose(IdOf(l, ep))
  }

  ghost predicate PhasesExplained(s: System, l: Log) {
    forall th: Thread :: PhaseExplained(l, th, PhaseOf(s, th))
  }

  ghost predicate Explained(s: System, l: Log) {
    IdsDiffer(s, l) && RegistryExplained(s, l) && ChannelsExplained(s, l) && OnlyMade(s, l) && PhasesExplained(s, l)
  }

  // --- Every step keeps it so ---

  lemma PairsGrow(s: System, e: Step, l: Log)
    requires PhasesExplained(s, l) && Enabled(s, e)
    ensures var l', p := Note(l, e, Answer(s, e)), PhaseOf(s, e.th);
      l'.pairs == if e.Create? then l.pairs + [Pair(p.send, p.recv, p.capacity)] else l.pairs
  {
    assert PhaseExplained(l, e.th, PhaseOf(s, e.th));
  }

  lemma OthersUnmoved(s: System, e: Step, l: Log, th: Thread)
    requires Enabled(s, e) && th != e.th
    ensures var s', l' := Next(s, e), Note(l, e, Answer(s, e));
      PhaseOf(s', th) == PhaseOf(s, th) && (th in l'.calls <==> th in l.calls)
      && (th in l.calls ==> l'.calls[th] == l.calls[th])
  {
  }

  lemma OwnPhaseExplained(s: System, e: Step, l: Log)
    requires Explained(s, l) && Enabled(s, e)
    ensures PhaseExplained(Note(l, e, Answer(s, e)), e.th, PhaseOf(Next(s, e), e.th))
  {
    hide IdsDiffer, ChannelsExplained, OnlyMade;
    assert PhaseExplained(l, e.th, PhaseOf(s, e.th));
    hide PhasesExplained;
  }

  lemma PhasesStayExplained(s: System, e: Step, l: Log)
    requires Explained(s, l) && Enabled(s, e)
    ensures PhasesExplained(Next(s, e), Note(l, e, Answer(s, e)))
  {
    hide IdsDiffer, RegistryExplained, ChannelsExplained, OnlyMade, Next, Note, Enabled;
    var s', l' := Next(s, e), Note(l, e, Answer(s, e));
    PairsGrow(s, e, l);
    forall th: Thread ensures PhaseExplained(l', th, PhaseOf(s', th)) {
      if th == e.th {
        OwnPhaseExplained(s, e, l);
      } else {
        OthersUnmoved(s, e, l, th);
        assert PhaseExplained(l, th, PhaseOf(s, th));
      }
    }
  }

  /** The endpoints of a pair that was just made. */
  lemma NewPair(s: System, e: Step, l: Log, ep: Endpoint)
    requires Inv(s) && Explained(s, l) && Enabled(s, e) && e.Create?
    requires ep.chan == |l.pairs|
    ensures var l' := Note(l, e, Answer(s, e)); IsMade(l', ep) && Owns(s, e.th, IdOf(l', ep)) && Unused(s, IdOf(l', ep))
  {
    PairsGrow(s, e, l);
    hide Fifo, RegistryOk, RegistryExplained, ChannelsExplained, OnlyMade, PhasesExplained, Note;
    OwnIds(s, e.th);
    assert Owns(s, e.th, PhaseOf(s, e.th).send) && Owns(s, e.th, PhaseOf(s, e.th).recv);
  }

  /** An identifier in hand after a step was in hand before or has just been drawn. */
  lemma StillOwned(s: System, e: Step, th: Thread, id: nat)
    requires Enabled(s, e) && Owns(Next(s, e), th, id)
    ensures Owns(s, th, id) || id == s.nextId
    ensures e.Create? ==> Owns(s, th, id) && th != e.th
  {
    NewIds(s, e, th, id);
  }

  lemma IdsStayDifferent(s: System, e: Step, l: Log)
    requires Inv(s) && Explained(s, l) && Enabled(s, e)
    ensures IdsDiffer(Next(s, e), Note(l, e, Answer(s, e)))
  {
    hide Fifo, RegistryOk, RegistryExplained, ChannelsExplained, OnlyMade, PhasesExplained, Note;
    var s', l' := Next(s, e), Note(l, e, Answer(s, e));
    PairsGrow(s, e, l);
    assert s.nextId <= s'.nextId;
    forall ep: Endpoint | IsMade(l', ep)
      ensures IdOf(l', ep) < s'.nextId && IdOf(l', ep) < s.nextId && forall th: Thread :: !Owns(s', th, IdOf(l', ep))
    {
      if ep.chan == |l.pairs| { NewPair(s, e, l, ep); } else { assert IsMade(l, ep) && IdOf(l', ep) == IdOf(l, ep); }
      forall th: Thread ensures !Owns(s', th, IdOf(l', ep)) { OwnedOnce(s, e, l, ep, th); }
    }
    forall ep, ep' | IsMade(l', ep) && IsMade(l', ep') && IdOf(l', ep) == IdOf(l', ep') ensures ep == ep' {
      SameIdSameEnd(s, e, l, ep, ep');
    }
  }

  lemma OwnedOnce(s: System, e: Step, l: Log, ep: Endpoint, th: Thread)
    requires Inv(s) && Explained(s, l) && Enabled(s, e) && IsMade(Note(l, e, Answer(s, e)), ep)
    ensures !Owns(Next(s, e), th, IdOf(Note(l, e, Answer(s, e)), ep))
  {
    hide Fifo, RegistryOk, RegistryExplained, ChannelsExplained, OnlyMade, PhasesExplained;
    var l' := Note(l, e, Answer(s, e));
    PairsGrow(s, e, l);
    if ep.chan == |l.pairs| { NewPair(s, e, l, ep); } else { assert IsMade(l, ep) && IdOf(l', ep) == IdOf(l, ep); }
    if Owns(Next(s, e), th, IdOf(l', ep)) { StillOwned(s, e, th, IdOf(l', ep)); }
  }

  lemma SameIdSameEnd(s: System, e: Step, l: Log, ep: Endpoint, ep': Endpoint)
    requires Inv(s) && Explained(s, l) && Enabled(s, e)
    requires var l' := Note(l, e, Answer(s, e)); IsMade(l', ep) && IsMade(l', ep') && IdOf(l', ep) == IdOf(l', ep')
    ensures ep == ep'
  {
    hide Fifo, RegistryOk, RegistryExplained, ChannelsExplained, OnlyMade, PhasesExplained;
    var l' := Note(l, e, Answer(s, e));
    PairsGrow(s, e, l);
    if ep.chan == |l.pairs| { NewPair(s, e, l, ep); } else { assert IsMade(l, ep) && IdOf(l', ep) == IdOf(l, ep); }
    if ep'.chan == |l.pairs| { NewPair(s, e, l, ep'); } else { assert IsMade(l, ep') && IdOf(l', ep') == IdOf(l, ep'); }
    if ep.chan == |l.pairs| && ep'.chan == |l.pairs| { assert PhaseOk(s, PhaseOf(s, e.th)); }
  }

  lemma OnlyMadeStays(s: System, e: Step, l: Log)
    requires Explained(s, l) && Enabled(s, e)
    ensures OnlyMade(Next(s, e), Note(l, e, Answer(s, e)))
  {
    hide IdsDiffer, ChannelsExplained;
    var l' := Note(l, e, Answer(s, e));
    forall id: nat | Known(l, id) ensures Known(l', id) {
      var ep :| IsMade(l, ep) && IdOf(l, ep) == id;
      assert IsMade(l', ep) && IdOf(l', ep) == id;
    }
    forall id: nat | id in l'.told || id in l'.heard || id in l'.shut || id in l'.removed ensures Known(l', id) {
      if !(id in l.told || id in l.heard || id in l.shut || id in l.removed) { NewlyRecorded(s, e, l, id); }
    }
  }

  lemma NewlyRecorded(s: System, e: Step, l: Log, id: nat)
    requires Explained(s, l) && Enabled(s, e)
    requires !(id in l.told || id in l.heard || id in l.shut || id in l.removed)
    requires var l' := Note(l, e, Answer(s, e)); id in l'.told || id in l'.heard || id in l'.shut || id in l'.removed
    ensures Known(l, id)
  {
    hide IdsDiffer, ChannelsExplained, OnlyMade;
    assert PhaseExplained(l, e.th, PhaseOf(s, e.th));
    match e
    case Push(th) =>
      var ep := Endpoint(Send, PhaseOf(s, th).c);
      assert IsMade(l, ep) && IdOf(l, ep) == id;
    case Pop(th) =>
      var ep := Endpoint(Recv, PhaseOf(s, th).c);
      assert IsMade(l, ep) && IdOf(l, ep) == id;
    case Remove(_, i) => assert IsMade(l, s.registry[i]) && IdOf(l, s.registry[i]) == id;
    case Store(th) => assert IsMade(l, PhaseOf(s, th).ep) && IdOf(l, PhaseOf(s, th).ep) == id;
  }

  lemma NotRecorded(s: System, l: Log, id: nat)
    requires OnlyMade(s, l) && !Known(l, id)
    ensures id !in l.told && id !in l.heard && id !in l.shut && id !in l.removed
  {
  }

  /** The identifiers of a pair that was just made are new to the log. */
  lemma NewIsUnknown(s: System, e: Step, l: Log, ep: Endpoint)
    requires Inv(s) && Explained(s, l) && Enabled(s, e) && e.Create? && ep.chan == |l.pairs|
    ensures var l' := Note(l, e, Answer(s, e)); IsMade(l', ep) && !Known(l, IdOf(l', ep))
  {
    NewPair(s, e, l, ep);
    hide Inv, RegistryExplained, ChannelsExplained, OnlyMade, PhasesExplained;
  }

  /** Apart from making a pair, only closing changes the registry. */
  lemma RegistryLoses(s: System, e: Step, l: Log)
    requires Enabled(s, e) && !e.Create?
    ensures var s', l' := Next(s, e), Note(l, e, Answer(s, e));
      if e.Remove? && e.id in s.registry then s'.registry == s.registry - {e.id} && l'.removed == l.removed + {e.id}
      else s'.registry == s.registry && l'.removed == l.removed
  {
  }

  lemma RegistryStaysExplained(s: System, e: Step, l: Log)
    requires Inv(s) && Explained(s, l) && Enabled(s, e)
    ensures RegistryExplained(Next(s, e), Note(l, e, Answer(s, e)))
  {
    hide Inv, Next, Note, ChannelsExplained, PhasesExplained;
    var s', l' := Next(s, e), Note(l, e, Answer(s, e));
    PairsGrow(s, e, l);
    if e.Create? {
      NewIsUnknown(s, e, l, Endpoint(Send, |l.pairs|));
      NewIsUnknown(s, e, l, Endpoint(Recv, |l.pairs|));
      CreatedRegistry(s, e, l);
    } else {
      RegistryLoses(s, e, l);
      forall ep: Endpoint | IsMade(l', ep) ensures IdOf(l', ep) in s'.registry <==> IdOf(l', ep) !in l'.removed {
        assert IsMade(l, ep) && IdOf(l, ep) == IdOf(l', ep);
      }
      forall id | id in s'.registry ensures IsMade(l', s'.registry[id]) && IdOf(l', s'.registry[id]) == id {
        assert IsMade(l, s.registry[id]);
      }
    }
  }

  lemma CreatedRegistry(s: System, e: Step, l: Log)
    requires Explained(s, l) && Enabled(s, e) && e.Create?
    requires var l' := Note(l, e, Answer(s, e));
      forall ep: Endpoint :: ep.chan == |l.pairs| ==> IsMade(l', ep) && !Known(l, IdOf(l', ep))
    ensures RegistryExplained(Next(s, e), Note(l, e, Answer(s, e)))
  {
    hide PhasesExplained, IdsDiffer;
    var s', l' := Next(s, e), Note(l, e, Answer(s, e));
    assert |l.pairs| == |s.channels|;
    forall ep: Endpoint | IsMade(l', ep) ensures IdOf(l', ep) in s'.registry <==> IdOf(l', ep) !in l'.removed {
      if ep.chan < |l.pairs| { assert IsMade(l, ep) && IdOf(l, ep) == IdOf(l', ep) && Known(l, IdOf(l, ep)); }
    }
    forall id | id in s'.registry ensures IsMade(l', s'.registry[id]) && IdOf(l', s'.registry[id]) == id {
      if id in s.registry { assert IsMade(l, s.registry[id]) && Known(l, id); }
    }
  }

  lemma EndsDiffer(s: System, l: Log, c: nat, d: nat)
    requires IdsDiffer(s, l) && c < |l.pairs| && d < |l.pairs|
    ensures l.pairs[c].send == l.pairs[d].send ==> c == d
    ensures l.pairs[c].recv == l.pairs[d].recv ==> c == d
  {
    assert IsMade(l, Endpoint(Send, c)) && IsMade(l, Endpoint(Recv, c));
    assert IsMade(l, Endpoint(Send, d)) && IsMade(l, Endpoint(Recv, d));
    assert IdOf(l, Endpoint(Send, c)) == IdOf(l, Endpoint(Send, d)) ==> c == d;
    assert IdOf(l, Endpoint(Recv, c)) == IdOf(l, Endpoint(Recv, d)) ==> c == d;
  }

  /** What a step records of the two ends of a channel. */
  lemma ToldOf(s: System, e: Step, l: Log, c: nat)
    requires Explained(s, l) && Enabled(s, e) && c < |l.pairs|
    ensures Logged(Note(l, e, Answer(s, e)).told, l.pairs[c].send) == Logged(l.told, l.pairs[c].send) + ToldAt(s, e, c)
  {
    assert PhaseExplained(l, e.th, PhaseOf(s, e.th));
    if e.Push? { EndsDiffer(s, l, c, PhaseOf(s, e.th).c); }
    hide Explained;
  }

  lemma HeardOf(s: System, e: Step, l: Log, c: nat)
    requires Explained(s, l) && Enabled(s, e) && c < |l.pairs|
    ensures
      Logged(Note(l, e, Answer(s, e)).heard, l.pairs[c].recv) == Logged(l.heard, l.pairs[c].recv) + HeardAt(s, e, c)
  {
    assert PhaseExplained(l, e.th, PhaseOf(s, e.th));
    if e.Pop? { EndsDiffer(s, l, c, PhaseOf(s, e.th).c); }
    hide Explained;
  }

  lemma ClosedOf(s: System, e: Step, l: Log, c: nat)
    requires Explained(s, l) && Enabled(s, e) && c < |l.pairs|
    ensures c < |s.channels| && c < |Next(s, e).channels|
    ensures var ch, l', p := Next(s, e).channels[c], Note(l, e, Answer(s, e)), l.pairs[c];
      (ch.sendClosed <==> p.send in l'.shut) && (ch.recvClosed <==> p.recv in l'.shut)
  {
    hide RegistryExplained, OnlyMade;
    assert PhaseExplained(l, e.th, PhaseOf(s, e.th)) && ChannelExplained(s.channels[c], l, l.pairs[c]);
    if e.Store? {
      var ep := PhaseOf(s, e.th).ep;
      assert IsMade(l, ep) && IsMade(l, Endpoint(Send, c)) && IsMade(l, Endpoint(Recv, c));
      assert IdOf(l, ep) == IdOf(l, Endpoint(Send, c)) ==> ep == Endpoint(Send, c);
      assert IdOf(l, ep) == IdOf(l, Endpoint(Recv, c)) ==> ep == Endpoint(Recv, c);
    }
  }

  lemma ChannelsStayExplained(s: System, e: Step, l: Log)
    requires Inv(s) && Explained(s, l) && Enabled(s, e)
    ensures ChannelsExplained(Next(s, e), Note(l, e, Answer(s, e)))
  {
    hide Inv, Note, RegistryExplained, PhasesExplained, IdsDiffer;
    var s', l' := Next(s, e), Note(l, e, Answer(s, e));
    PairsGrow(s, e, l);
    assert |l'.pairs| == |s'.channels|;
    forall c | 0 <= c < |l'.pairs| ensures ChannelExplained(s'.channels[c], l', l'.pairs[c]) {
      if c < |l.pairs| {
        hide Next;
        assert ChannelExplained(s.channels[c], l, l.pairs[c]);
        AnswersAreHistory(s, e, c);
        ToldOf(s, e, l, c);
        HeardOf(s, e, l, c);
        ClosedOf(s, e, l, c);
      } else {
        NewChannelIsBlank(s, e, l);
      }
    }
  }

  lemma NewChannelIsBlank(s: System, e: Step, l: Log)
    requires Inv(s) && Explained(s, l) && Enabled(s, e) && e.Create?
    ensures var s', l', c := Next(s, e), Note(l, e, Answer(s, e)), |l.pairs|;
      c < |s'.channels| && c < |l'.pairs| && ChannelExplained(s'.channels[c], l', l'.pairs[c])
  {
    var l', c := Note(l, e, Answer(s, e)), |l.pairs|;
    NewIsUnknown(s, e, l, Endpoint(Send, c));
    NewIsUnknown(s, e, l, Endpoint(Recv, c));
    NotRecorded(s, l, l'.pairs[c].send);
    NotRecorded(s, l, l'.pairs[c].recv);
    hide Inv, RegistryExplained, PhasesExplained, IdsDiffer, OnlyMade, Known;
    assert l'.told == l.told && l'.heard == l.heard && l'.shut == l.shut;
  }

  // --- Whole runs ---

  lemma {:induction false} RunIsExplained(s: System, steps: seq<Step>, l: Log)
    requires Inv(s) && Explained(s, l) && AllEnabled(s, steps)
    ensures Inv(Run(s, steps)) && Explained(Run(s, steps), LogOf(s, steps, l))
    decreases |steps|
  {
    hide Inv, Next, Note, Enabled, IdsDiffer, RegistryExplained, ChannelsExplained, OnlyMade, PhasesExplained;
    if steps != [] {
      var e := steps[0];
      PhasesStayExplained(s, e, l);
      IdsStayDifferent(s, e, l);
      OnlyMadeStays(s, e, l);
      RegistryStaysExplained(s, e, l);
      ChannelsStayExplained(s, e, l);
      StepKeepsInv(s, e);
      RunIsExplained(Next(s, e), steps[1..], Note(l, e, Answer(s, e)));
    }
  }

  lemma StepKeepsInv(s: System, e: Step)
    requires Inv(s) && Enabled(s, e)
    ensures Inv(Next(s, e))
  {
    RunKeepsInv(s, [e]);
    assert Run(s, [e]) == Next(s, e);
  }

  lemma BlankExplains(s: System)
    requires Initial(s)
    ensures Inv(s) && Explained(s, BLANK)
  {
  }

  /** Over any run from the start, for every pair of endpoints ever made: what receivers on the one end were
      given is, in order, a prefix of what senders on the other end were told was sent, and lags behind by at
      most the capacity. */
  lemma SentIsReceived(s: System, steps: seq<Step>, c: nat)
    requires Initial(s) && AllEnabled(s, steps)
    requires c < |LogOf(s, steps, BLANK).pairs|
    ensures var l := LogOf(s, steps, BLANK);
      var told, heard := Logged(l.told, l.pairs[c].send), Logged(l.heard, l.pairs[c].recv);
      heard <= told && |told| <= |heard| + Capacity(l.pairs[c].asked)
  {
    BlankExplains(s);
    RunIsExplained(s, steps, BLANK);
    hide RegistryExplained, PhasesExplained, IdsDiffer, OnlyMade;
    var r, l := Run(s, steps), LogOf(s, steps, BLANK);
    assert ChannelExplained(r.channels[c], l, l.pairs[c]) && Fifo(r.channels[c]);
  }

  /** The endpoint was made and its closing has not begun. */
  ghost predicate Live(l: Log, ep: Endpoint, id: nat) {
    IsMade(l, ep) && IdOf(l, ep) == id && id !in l.removed
  }

  ghost predicate LiveAs(l: Log, r: Role, id: nat) {
    exists ep: Endpoint :: ep.role == r && Live(l, ep, id)
  }

  lemma RegisteredIsLive(s: System, l: Log, id: nat, r: Role)
    requires Explained(s, l)
    ensures LiveAs(l, r, id) <==> id in s.registry && s.registry[id].role == r
  {
    if id in s.registry { assert IsMade(l, s.registry[id]) && Live(l, s.registry[id], id); }
    if LiveAs(l, r, id) {
      var ep: Endpoint :| ep.role == r && Live(l, ep, id);
      assert IdOf(l, ep) in s.registry && IsMade(l, s.registry[id]);
    }
  }

  /** How a send, a receive or a close that has to give up at the start is answered, by what clients know. */
  lemma LookUpAnswers(s: System, steps: seq<Step>, th: Thread, id: nat, m: Message)
    requires Initial(s) && AllEnabled(s, steps) && PhaseOf(Run(s, steps), th) == Idle
    ensures var r, l := Run(s, steps), LogOf(s, steps, BLANK);
      && Answer(r, FindSend(th, id, m)) ==
           (if |m| > MAX_MESSAGE_SIZE then Some(Failed(MessageTooLarge))
            else if LiveAs(l, Send, id) then None
            else Some(Failed(if LiveAs(l, Recv, id) then WrongDirection else InvalidEndpoint)))
      && Answer(r, FindRecv(th, id)) ==
           (if LiveAs(l, Recv, id) then None
            else Some(Failed(if LiveAs(l, Send, id) then WrongDirection else InvalidEndpoint)))
      && Answer(r, Remove(th, id)) ==
           (if LiveAs(l, Send, id) || LiveAs(l, Recv, id) then None else Some(Failed(InvalidEndpoint)))
  {
    BlankExplains(s);
    RunIsExplained(s, steps, BLANK);
    var r, l := Run(s, steps), LogOf(s, steps, BLANK);
    hide Explained, LiveAs, LogOf, Inv;
    RegisteredIsLive(r, l, id, Send);
    RegisteredIsLive(r, l, id, Recv);
  }

  /** What senders on channel c were told was sent, and what receivers on it were given. */
  function AllTold(l: Log, c: nat): seq<Message>
    requires c < |l.pairs|
  {
    Logged(l.told, l.pairs[c].send)
  }

  function AllHeard(l: Log, c: nat): seq<Message>
    requires c < |l.pairs|
  {
    Logged(l.heard, l.pairs[c].recv)
  }

  /** A send past its look-up is answered PeerClosed at once if and only if the closing of the other end was
      confirmed. */
  lemma SendFindsPeer(s: System, steps: seq<Step>, th: Thread)
    requires Initial(s) && AllEnabled(s, steps) && PhaseOf(Run(s, steps), th).SendFound?
    ensures var r, l, c := Run(s, steps), LogOf(s, steps, BLANK), PhaseOf(Run(s, steps), th).c;
      && c < |l.pairs| && Enabled(r, CheckPeer(th))
      && (Answer(r, CheckPeer(th)) == Some(Failed(PeerClosed)) <==> l.pairs[c].recv in l.shut)
  {
    Reached(s, steps, PhaseOf(Run(s, steps), th).c, th);
    hide Explained, LogOf, Run, Inv;
  }

  /** A send past that is refused if and only if the messages told and not heard fill the channel. */
  lemma SendIsAnswered(s: System, steps: seq<Step>, th: Thread)
    requires Initial(s) && AllEnabled(s, steps) && PhaseOf(Run(s, steps), th).SendChecked?
    ensures var r, l, c := Run(s, steps), LogOf(s, steps, BLANK), PhaseOf(Run(s, steps), th).c;
      && c < |l.pairs| && Enabled(r, Push(th))
      && Answer(r, Push(th)) ==
           Some(if |AllTold(l, c)| == |AllHeard(l, c)| + Capacity(l.pairs[c].asked) then Failed(ChannelFull) else Sent)
  {
    Reached(s, steps, PhaseOf(Run(s, steps), th).c, th);
    PushAnswers(Run(s, steps), th);
    hide Explained, LogOf, Run, Inv;
  }

  /** A receive past its look-up gives the first message told and not heard; if there is none, it reports the
      other end closed if and only if its closing was confirmed. */
  lemma ReceiveIsAnswered(s: System, steps: seq<Step>, th: Thread)
    requires Initial(s) && AllEnabled(s, steps) && PhaseOf(Run(s, steps), th).RecvFound?
    ensures var r, l, c := Run(s, steps), LogOf(s, steps, BLANK), PhaseOf(Run(s, steps), th).c;
      && c < |l.pairs| && Enabled(r, Pop(th)) && |AllHeard(l, c)| <= |AllTold(l, c)|
      && Answer(r, Pop(th)) ==
           Some(if |AllHeard(l, c)| < |AllTold(l, c)| then Received(AllTold(l, c)[|AllHeard(l, c)|])
                else Failed(if l.pairs[c].send in l.shut then PeerClosed else WouldBlock))
  {
    Reached(s, steps, PhaseOf(Run(s, steps), th).c, th);
    PopAnswers(Run(s, steps), th);
    hide Explained, LogOf, Run, Inv;
  }

  lemma Reached(s: System, steps: seq<Step>, c: nat, th: Thread)
    requires Initial(s) && AllEnabled(s, steps)
    requires var p := PhaseOf(Run(s, steps), th); (p.SendFound? || p.SendChecked? || p.RecvFound?) && c == p.c
    ensures var r, l := Run(s, steps), LogOf(s, steps, BLANK);
      && Inv(r) && c < |l.pairs| && c < |r.channels| && ChannelExplained(r.channels[c], l, l.pairs[c])
  {
    BlankExplains(s);
    RunIsExplained(s, steps, BLANK);
    hide RegistryExplained, IdsDiffer, OnlyMade, LogOf, Run, Inv;
    assert PhaseExplained(LogOf(s, steps, BLANK), th, PhaseOf(Run(s, steps), th));
  }

  // --- Calls that nothing interrupts ---

  /** A send through a live endpoint whose other end is open, with room in the channel, is accepted. */
  lemma SendAlone(s: System, th: Thread, id: nat, m: Message)
    requires Inv(s) && PhaseOf(s, th) == Idle && |m| <= MAX_MESSAGE_SIZE
    requires id in s.registry && s.registry[id].role.Send?
    requires var ch := s.channels[s.registry[id].chan]; !ch.recvClosed && |ch.queue| < ch.capacity
    ensures Enabled(s, FindSend(th, id, m))
    ensures var s1 := Next(s, FindSend(th, id, m));
      Enabled(s1, CheckPeer(th)) && Enabled(Next(s1, CheckPeer(th)), Push(th))
    ensures var s2, c := Next(Next(s, FindSend(th, id, m)), CheckPeer(th)), s.registry[id].chan;
      Answer(s2, Push(th)) == Some(Sent) && ToldAt(s2, Push(th), c) == [m] && s2.channels == s.channels
  {
    assert Open(s, s.registry[id]);
    hide Inv;
  }

  /** A receive through a live endpoint of a channel that holds a message takes the oldest. */
  lemma ReceiveAlone(s: System, th: Thread, id: nat)
    requires Inv(s) && PhaseOf(s, th) == Idle && id in s.registry && s.registry[id].role.Recv?
    requires s.channels[s.registry[id].chan].queue != []
    ensures Enabled(s, FindRecv(th, id)) && Enabled(Next(s, FindRecv(th, id)), Pop(th))
    ensures var s1, c := Next(s, FindRecv(th, id)), s.registry[id].chan;
      && HeardAt(s1, Pop(th), c) == [s.channels[c].queue[0]]
      && Next(s1, Pop(th)).channels[c].queue == s.channels[c].queue[1..]
  {
    assert Open(s, s.registry[id]);
    hide Inv;
  }

  /** Drawing two identifiers for a new channel. */
  lemma IdsTaken(s: System, th: Thread, n: nat)
    requires PhaseOf(s, th) == Idle
    ensures Enabled(s, TakeSendId(th, n)) && Enabled(Next(s, TakeSendId(th, n)), TakeRecvId(th))
    ensures var r := Next(Next(s, TakeSendId(th, n)), TakeRecvId(th));
      PhaseOf(r, th) == HasIds(n, s.nextId, s.nextId + 1) && r.registry == s.registry && r.channels == s.channels
  {
  }

  /** Creating a channel from them: both ends are live, and the channel is empty. */
  lemma ChannelMade(s: System, th: Thread)
    requires PhaseOf(s, th).HasIds?
    ensures Enabled(s, Create(th))
    ensures var r, p, c := Next(s, Create(th)), PhaseOf(s, th), |s.channels|;
      && |r.channels| == c + 1 && r.channels[c] == Channel([], Capacity(p.capacity), false, false, [], [])
      && r.registry == s.registry[p.send := Endpoint(Send, c)][p.recv := Endpoint(Recv, c)]
      && Answer(s, Create(th)) == Some(Made(p.send, p.recv))
  {
  }

  /** Closing an end: the identifier is gone, and then the other side can tell. */
  lemma CloseAlone(s: System, th: Thread, id: nat)
    requires Inv(s) && PhaseOf(s, th) == Idle && id in s.registry
    ensures Enabled(s, Remove(th, id)) && Enabled(Next(s, Remove(th, id)), Store(th))
    ensures Next(s, Remove(th, id)).registry == s.registry - {id}
    ensures var r, ep := Next(Next(s, Remove(th, id)), Store(th)), s.registry[id];
      && r.registry == s.registry - {id} && ep.chan < |s.channels| == |r.channels|
      && (if ep.role.Send? then r.channels[ep.chan] == s.channels[ep.chan].(sendClosed := true)
          else r.channels[ep.chan] == s.channels[ep.chan].(recvClosed := true))
  {
    assert Open(s, s.registry[id]);
    hide Inv;
  }
}
