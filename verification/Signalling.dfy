/**
 The signalling protocol between nodes that follow it: signed offers and answers over a network
 that may lose, delay, reorder and duplicate whatever was sent.

 Each `await` is a boundary between two events, so any other event can fall between.  A session
 belongs to a node and one of its contacts; its lock is the field `task`, which says what the
 holder of the lock is waiting for.  A session description is known by the peer connection it
 describes, and an answer also by the offer it answers.
 */
module Signalling {
  import opened Prelude
  import opened ReplayWindows

  datatype Pc = Pc(id: nat)
  datatype Sid = Sid(uuid: nat)
  datatype Link = Link(self: Peer, peer: Peer)

  datatype Sdp = OfferOf(pc: Pc) | AnswerOf(pc: Pc, offer: Sdp)

  datatype Kind = Offer | Answer

  datatype Message = Message(kind: Kind, sender: Peer, recipient: Peer, nonce: Nonce, sid: Sid, sdp: Sdp)

  /** What the holder of a session's lock is doing. */
  datatype Task =
    | Free
    | DialClosing
    | DialOffering(pc: Pc)
    | DialWaiting(pc: Pc)
    | DialApplying(pc: Pc, answer: Message)
    | OfferClosing(h: Handle)
    | OfferAnswering(pc: Pc, h: Handle)
    | Dropping

  datatype Phase = Fresh | Negotiating | AnswerApplied | Transport(state: string) | Open | ChannelClosed

  datatype Session = Session(task: Task, pc: Option<Pc>, sid: Option<Sid>, connected: bool, phase: Phase)

  /** An inbound connection whose offer was accepted, named by the node and the call of its replay window. */
  datatype Handle = Handle(node: Peer, at: nat)

  datatype Stage = Waiting | Running | Answered(answer: Message, pc: Pc)

  datatype Handler = Handler(offer: Message, stage: Stage)

  datatype Dial = Dial(link: Link, pc: Pc)

  /** `session.state` became `answer-applied`: `answer` was applied to `pc`. */
  datatype Completion = Completion(link: Link, sid: Sid, pc: Pc, answer: Message)

  /** What was sent, and what was done about it. */
  datatype Log = Log(
    net: set<Message>,
    dials: map<Sid, Dial>,
    offered: map<Sid, Message>,
    handlers: map<Handle, Handler>,
    answered: map<Message, Handle>,
    completions: seq<Completion>)

  /** The sessions, the peer connections with those on which `close` was called, and the replay windows' calls. */
  datatype State = State(
    sessions: map<Link, Session>,
    created: map<Pc, Link>,
    closed: set<Pc>,
    calls: map<Peer, seq<Call>>,
    log: Log)

  datatype Event =
    | AddContact(l: Link)
    | DialStart(l: Link)
    | DialInstall(l: Link, pc: Pc, sid: Sid)
    | DialSend(l: Link, nonce: Nonce)
    | DialReply(l: Link, m: Message)
    | DialDone(l: Link)
    | Arrive(node: Peer, m: Message)
    | OfferStart(h: Handle)
    | OfferInstall(l: Link, pc: Pc)
    | OfferDone(l: Link, nonce: Nonce)
    | DropStart(l: Link)
    | Leave(l: Link)    // an exception, a cancellation, or the end of a drop
    | ConnectionState(pc: Pc, state: string)
    | ChannelOpen(l: Link)
    | ChannelClose(l: Link)

  const MAX_SEEN: nat := 4096

  // ------------------------------------------------------------ who dials

  /** The order of strings. */
  predicate Less(a: string, b: string) {
    b != [] && (a == [] || a[0] < b[0] || (a[0] == b[0] && Less(a[1..], b[1..])))
  }

  /** The role of a session: its node dials, else it waits for the peer to dial. */
  predicate Initiator(l: Link) { Less(l.self.id, l.peer.id) }

  lemma {:induction false} LessTotal(a: string, b: string)
    requires a != b
    ensures Less(a, b) <==> !Less(b, a)
  {
    if a != [] && b != [] && a[0] == b[0] {
      assert a == [a[0]] + a[1..] && b == [a[0]] + b[1..];
      LessTotal(a[1..], b[1..]);
    }
  }

  lemma {:induction false} LessIrreflexive(a: string)
    ensures !Less(a, a)
  {
    if a != [] {
      LessIrreflexive(a[1..]);
    }
  }

  /** Of two contacts, one dials and the other does not. */
  lemma {:induction false} OneSideDials(l: Link)
    requires l.self != l.peer
    ensures Initiator(l) <==> !Initiator(Link(l.peer, l.self))
  {
    LessTotal(l.self.id, l.peer.id);
  }

  // ------------------------------------------------------------ steps

  predicate Init(s: State) {
    s == State(map[], map[], {}, map[], Log({}, map[], map[], map[], map[], []))
  }

  function CallsOf(calls: map<Peer, seq<Call>>, node: Peer): seq<Call> {
    if node in calls then calls[node] else []
  }

  predicate Holds(s: State, l: Link, free: bool) { l in s.sessions && s.sessions[l].task.Free? == free }

  predicate FreshNonce(s: State, nonce: Nonce) { forall m :: m in s.log.net ==> m.nonce != nonce }

  /** When an event can happen: who has the lock, and what is new. */
  predicate Enabled(s: State, e: Event) {
    match e
    case AddContact(l) => l.self != l.peer
    case DialStart(l) => Holds(s, l, true) && Initiator(l)
    case DialInstall(l, pc, sid) =>
      l in s.sessions && s.sessions[l].task.DialClosing? && pc !in s.created && sid !in s.log.dials
    case DialSend(l, nonce) =>
      l in s.sessions && s.sessions[l].task.DialOffering? && s.sessions[l].sid.Some? && FreshNonce(s, nonce)
    case DialReply(l, m) => l in s.sessions && s.sessions[l].task.DialWaiting? && m in s.log.net
    case DialDone(l) => l in s.sessions && s.sessions[l].task.DialApplying? && s.sessions[l].sid.Some?
    case Arrive(node, m) => m in s.log.net
    case OfferStart(h) =>
      && h in s.log.handlers && s.log.handlers[h].stage.Waiting?
      && Holds(s, Link(h.node, s.log.handlers[h].offer.sender), true)
    case OfferInstall(l, pc) =>
      l in s.sessions && s.sessions[l].task.OfferClosing? && s.sessions[l].task.h in s.log.handlers && pc !in s.created
    case OfferDone(l, nonce) =>
      && l in s.sessions && s.sessions[l].task.OfferAnswering? && s.sessions[l].task.h in s.log.handlers
      && s.sessions[l].sid.Some? && FreshNonce(s, nonce)
    case DropStart(l) => Holds(s, l, true)
    case Leave(l) => Holds(s, l, false)
    case ConnectionState(pc, state) => pc in s.created && s.created[pc] in s.sessions
    case ChannelOpen(l) => l in s.sessions
    case ChannelClose(l) => l in s.sessions
  }

  function Update(s: State, l: Link, session: Session): State {
    s.(sessions := s.sessions[l := session])
  }

  /** `_close_session_pc` by the new holder of the lock, up to its `await`. */
  function Close(s: State, l: Link, task: Task): State
    requires l in s.sessions
  {
    var was := s.sessions[l];
    Update(s, l, was.(task := task, pc := None, connected := false))
      .(closed := if was.pc.Some? then s.closed + {was.pc.value} else s.closed)
  }

  /** A new peer connection becomes that of the session. */
  function Install(s: State, l: Link, pc: Pc, sid: Sid, task: Task): State
    requires l in s.sessions
  {
    Update(s, l, s.sessions[l].(task := task, pc := Some(pc), phase := Negotiating, sid := Some(sid)))
      .(created := s.created[pc := l])
  }

  /** `_validate_message` of a signed message, as far as nodes that follow the protocol can fail it. */
  predicate Accepts(s: State, node: Peer, m: Message) {
    Link(node, m.sender) in s.sessions && m.nonce !in Window(CallsOf(s.calls, node), m.sender, MAX_SEEN)
  }

  /** The nonce of a message that passes is recorded. */
  function Record(s: State, node: Peer, m: Message): State {
    s.(calls := s.calls[node := CallsOf(s.calls, node) + [Call(m.sender, m.nonce)]])
  }

  function Release(s: State, l: Link): State
    requires l in s.sessions
  {
    Update(s, l, s.sessions[l].(task := Free))
  }

  /** The reply to an offer; its recipient is not among the things checked. */
  function Reply(s: State, l: Link, m: Message): State
    requires l in s.sessions && s.sessions[l].task.DialWaiting?
  {
    if m.sender != l.peer || !Accepts(s, l.self, m) then Release(s, l)
    else
      var s' := Record(s, l.self, m);
      if !m.kind.Answer? || Some(m.sid) != s.sessions[l].sid then Release(s', l)
      else Update(s', l, s.sessions[l].(task := DialApplying(s.sessions[l].task.pc, m)))
  }

  /** A message on an inbound connection; an offer then waits for the lock of its session. */
  function Inbound(s: State, node: Peer, m: Message): State {
    if m.recipient != node || !Accepts(s, node, m) then s
    else
      var s' := Record(s, node, m);
      if !m.kind.Offer? then s'
      else s'.(log := s.log.(handlers := s.log.handlers[Handle(node, |CallsOf(s.calls, node)|) := Handler(m, Waiting)]))
  }

  function Send(s: State, l: Link, nonce: Nonce): State
    requires l in s.sessions && s.sessions[l].task.DialOffering? && s.sessions[l].sid.Some?
  {
    var Session(task, _, sid, _, _) := s.sessions[l];
    var m := Message(Offer, l.self, l.peer, nonce, sid.value, OfferOf(task.pc));
    Update(s, l, s.sessions[l].(task := DialWaiting(task.pc)))
      .(log := s.log.(net := s.log.net + {m}, offered := s.log.offered[sid.value := m]))
  }

  function Complete(s: State, l: Link): State
    requires l in s.sessions && s.sessions[l].task.DialApplying? && s.sessions[l].sid.Some?
  {
    var Session(task, _, sid, _, _) := s.sessions[l];
    Update(s, l, s.sessions[l].(task := Free, phase := AnswerApplied))
      .(log := s.log.(completions := s.log.completions + [Completion(l, sid.value, task.pc, task.answer)]))
  }

  function AnswerWith(s: State, l: Link, nonce: Nonce): State
    requires l in s.sessions && s.sessions[l].task.OfferAnswering? && s.sessions[l].task.h in s.log.handlers
    requires s.sessions[l].sid.Some?
  {
    var Session(task, _, sid, _, _) := s.sessions[l];
    var offer := s.log.handlers[task.h].offer;
    var m := Message(Answer, l.self, offer.sender, nonce, sid.value, AnswerOf(task.pc, offer.sdp));
    Release(s, l)
      .(log := s.log.(
        net := s.log.net + {m},
        answered := s.log.answered[m := task.h],
        handlers := s.log.handlers[task.h := Handler(offer, Answered(m, task.pc))]))
  }

  predicate Lost(state: string) { state == "failed" || state == "closed" || state == "disconnected" }

  /** The callback of a peer connection, whether or not it is still that of its session. */
  function Changed(s: State, pc: Pc, state: string): State
    requires pc in s.created && s.created[pc] in s.sessions
  {
    var l := s.created[pc];
    var session := s.sessions[l].(phase := Transport(state));
    if !Lost(state) then Update(s, l, session)
    else
      Update(s, l, session.(connected := false, pc := if session.pc == Some(pc) then None else session.pc))
        .(closed := s.closed + {pc})
  }

  function After(s: State, e: Event): State
    requires Enabled(s, e)
  {
    match e
    case AddContact(l) =>
      if l in s.sessions then s else Update(s, l, Session(Free, None, None, false, Fresh))
    case DialStart(l) => if s.sessions[l].connected then s else Close(s, l, DialClosing)
    case DialInstall(l, pc, sid) =>
      Install(s, l, pc, sid, DialOffering(pc)).(log := s.log.(dials := s.log.dials[sid := Dial(l, pc)]))
    case DialSend(l, nonce) => Send(s, l, nonce)
    case DialReply(l, m) => Reply(s, l, m)
    case DialDone(l) => Complete(s, l)
    case Arrive(node, m) => Inbound(s, node, m)
    case OfferStart(h) =>
      Close(s, Link(h.node, s.log.handlers[h].offer.sender), OfferClosing(h))
        .(log := s.log.(handlers := s.log.handlers[h := s.log.handlers[h].(stage := Running)]))
    case OfferInstall(l, pc) =>
      var h := s.sessions[l].task.h;
      Install(s, l, pc, s.log.handlers[h].offer.sid, OfferAnswering(pc, h))
    case OfferDone(l, nonce) => AnswerWith(s, l, nonce)
    case DropStart(l) => Close(s, l, Dropping)
    case Leave(l) => Release(s, l)
    case ConnectionState(pc, state) => Changed(s, pc, state)
    case ChannelOpen(l) =>
      if s.sessions[l].connected then s else Update(s, l, s.sessions[l].(connected := true, phase := Open))
    case ChannelClose(l) => Update(s, l, s.sessions[l].(connected := false, phase := ChannelClosed))
  }

  // ------------------------------------------------------------ the peer connections

  /** Every peer connection is either that of its session or closed, and not both. */
  ghost predicate Owned(sessions: map<Link, Session>, created: map<Pc, Link>, closed: set<Pc>) {
    && closed <= created.Keys
    && (forall l :: l in sessions ==> OwnsPc(l, sessions[l], created, closed))
    && (forall pc ::
      pc in created ==> created[pc] in sessions && (sessions[created[pc]].pc == Some(pc) || pc in closed))
  }

  ghost predicate OwnsPc(l: Link, session: Session, created: map<Pc, Link>, closed: set<Pc>) {
    session.pc.Some? ==> session.pc.value in created && created[session.pc.value] == l && session.pc.value !in closed
  }

  lemma {:induction false} OwnedUpdate(s: State, l: Link, session: Session)
    requires Owned(s.sessions, s.created, s.closed)
    requires if l in s.sessions then session.pc == s.sessions[l].pc else session.pc.None?
    ensures Owned(s.sessions[l := session], s.created, s.closed)
  {
  }

  lemma {:induction false} OwnedClose(s: State, l: Link, session: Session)
    requires Owned(s.sessions, s.created, s.closed) && l in s.sessions && session.pc.None?
    ensures var pc := s.sessions[l].pc;
      Owned(s.sessions[l := session], s.created, if pc.Some? then s.closed + {pc.value} else s.closed)
  {
  }

  lemma {:induction false} OwnedInstall(s: State, l: Link, session: Session, pc: Pc)
    requires Owned(s.sessions, s.created, s.closed) && l in s.sessions && s.sessions[l].pc.None?
    requires session.pc == Some(pc) && pc !in s.created
    ensures Owned(s.sessions[l := session], s.created[pc := l], s.closed)
  {
  }

  lemma {:induction false} OwnedLost(s: State, pc: Pc, session: Session)
    requires Owned(s.sessions, s.created, s.closed) && pc in s.created
    requires session.pc == if s.sessions[s.created[pc]].pc == Some(pc) then None else s.sessions[s.created[pc]].pc
    ensures Owned(s.sessions[s.created[pc] := session], s.created, s.closed + {pc})
  {
  }

  // ------------------------------------------------------------ the holders of the locks

  /** A running dial: the only one with its session id, and not completed. */
  ghost predicate Dialling(l: Link, pc: Pc, sid: Option<Sid>, log: Log) {
    && Initiator(l) && sid.Some? && sid.value in log.dials && log.dials[sid.value] == Dial(l, pc)
    && Uncompleted(sid.value, log.completions)
  }

  ghost predicate Uncompleted(sid: Sid, completions: seq<Completion>) {
    forall i :: 0 <= i < |completions| ==> completions[i].sid != sid
  }

  /** The handler that holds a session's lock. */
  ghost predicate Handling(l: Link, h: Handle, handlers: map<Handle, Handler>) {
    h in handlers && handlers[h].stage.Running? && l == Link(h.node, handlers[h].offer.sender)
  }

  /** An answer to session id `sid`, from the peer. */
  ghost predicate AnswerFor(l: Link, sid: Sid, m: Message, net: set<Message>) {
    m in net && m.kind.Answer? && m.sender == l.peer && m.sid == sid
  }

  ghost predicate TaskOk(l: Link, session: Session, log: Log) {
    var Session(task, pc, sid, _, _) := session;
    match task
    case Free => true
    case DialClosing => pc.None? && Initiator(l)
    case DialOffering(p) => Dialling(l, p, sid, log) && sid.value !in log.offered
    case DialWaiting(p) => Dialling(l, p, sid, log) && sid.value in log.offered
    case DialApplying(p, m) =>
      Dialling(l, p, sid, log) && sid.value in log.offered && AnswerFor(l, sid.value, m, log.net)
    case OfferClosing(h) => pc.None? && Handling(l, h, log.handlers)
    case OfferAnswering(p, h) => Handling(l, h, log.handlers) && sid == Some(log.handlers[h].offer.sid)
    case Dropping => pc.None?
  }

  ghost predicate TasksOk(sessions: map<Link, Session>, log: Log) {
    forall l :: l in sessions ==> TaskOk(l, sessions[l], log)
  }

  /** All of them but one. */
  ghost predicate OthersOk(sessions: map<Link, Session>, log: Log, l: Link) {
    forall k :: k in sessions && k != l ==> TaskOk(k, sessions[k], log)
  }

  lemma {:induction false} TasksUpdate(sessions: map<Link, Session>, log: Log, l: Link, session: Session)
    requires OthersOk(sessions, log, l) && TaskOk(l, session, log)
    ensures TasksOk(sessions[l := session], log)
  {
  }

  lemma {:induction false} TasksDial(sessions: map<Link, Session>, log: Log, sid: Sid, dial: Dial)
    requires TasksOk(sessions, log) && sid !in log.dials
    ensures TasksOk(sessions, log.(dials := log.dials[sid := dial]))
  {
    var log' := log.(dials := log.dials[sid := dial]);
    forall l | l in sessions ensures TaskOk(l, sessions[l], log') {
      assert TaskOk(l, sessions[l], log);
    }
  }

  // ------------------------------------------------------------ what was sent

  /** An offer is the only one with its session id, and describes the peer connection of its dial. */
  ghost predicate OfferOk(m: Message, log: Log) {
    && m.sid in log.offered && log.offered[m.sid] == m
    && m.sid in log.dials && log.dials[m.sid].link == Link(m.sender, m.recipient)
    && Initiator(log.dials[m.sid].link)
    && m.sdp == OfferOf(log.dials[m.sid].pc)
  }

  /** An answer was made by the handler of an offer, from that offer. */
  ghost predicate AnswerOk(m: Message, log: Log) {
    && m in log.answered && log.answered[m] in log.handlers && log.answered[m].node == m.sender
    && var Handler(offer, stage) := log.handlers[log.answered[m]];
    && stage.Answered? && stage.answer == m
    && m.sdp == AnswerOf(stage.pc, offer.sdp)
    && offer.sid == m.sid && offer.sender == m.recipient
  }

  ghost predicate NetOk(log: Log) {
    && (forall m :: m in log.net ==> if m.kind.Offer? then OfferOk(m, log) else AnswerOk(m, log))
    && (forall sid ::
      sid in log.offered ==> log.offered[sid] in log.net && log.offered[sid].kind.Offer? && log.offered[sid].sid == sid)
  }

  /** The offer of a handler was sent to its node, and its nonce accepted there by that very call. */
  ghost predicate HandlerOk(h: Handle, offer: Message, net: set<Message>, calls: seq<Call>) {
    && offer in net && offer.kind.Offer? && offer.recipient == h.node
    && h.at < |calls| && calls[h.at] == Call(offer.sender, offer.nonce)
    && AcceptedAt(calls, h.at, MAX_SEEN)
  }

  ghost predicate HandlersOk(handlers: map<Handle, Handler>, net: set<Message>, calls: map<Peer, seq<Call>>) {
    forall h :: h in handlers ==> HandlerOk(h, handlers[h].offer, net, CallsOf(calls, h.node))
  }

  /** A completion belongs to a dial that sent an offer, and its answer came from the peer. */
  ghost predicate CompletionOk(c: Completion, log: Log) {
    && c.sid in log.dials && log.dials[c.sid] == Dial(c.link, c.pc)
    && c.sid in log.offered
    && AnswerFor(c.link, c.sid, c.answer, log.net)
  }

  ghost predicate Once(cs: seq<Completion>, i: int, j: int)
    requires 0 <= i < j < |cs|
  {
    cs[i].sid != cs[j].sid
  }

  ghost predicate CompletionsOk(log: Log) {
    && (forall i :: 0 <= i < |log.completions| ==> CompletionOk(log.completions[i], log))
    && (forall i, j :: 0 <= i < j < |log.completions| ==> Once(log.completions, i, j))
  }

  ghost predicate LogOk(log: Log, calls: map<Peer, seq<Call>>) {
    NetOk(log) && HandlersOk(log.handlers, log.net, calls) && CompletionsOk(log)
  }

  /** The peer connection of a dial was created for its session. */
  ghost predicate DialsOk(dials: map<Sid, Dial>, created: map<Pc, Link>) {
    forall sid :: sid in dials ==> dials[sid].pc in created && created[dials[sid].pc] == dials[sid].link
  }

  ghost predicate Inv(s: State) {
    && Owned(s.sessions, s.created, s.closed)
    && DialsOk(s.log.dials, s.created)
    && TasksOk(s.sessions, s.log)
    && LogOk(s.log, s.calls)
  }

  // ------------------------------------------------------------ what every event keeps

  lemma {:induction false} UpdateKeeps(s: State, l: Link, session: Session)
    requires Inv(s) && TaskOk(l, session, s.log)
    requires if l in s.sessions then session.pc == s.sessions[l].pc else session.pc.None?
    ensures Inv(Update(s, l, session))
  {
    OwnedUpdate(s, l, session);
    TasksUpdate(s.sessions, s.log, l, session);
  }

  lemma {:induction false} CloseKeeps(s: State, l: Link, task: Task)
    requires Inv(s) && l in s.sessions && (task.Dropping? || (task.DialClosing? && Initiator(l)))
    ensures Inv(Close(s, l, task))
  {
    var session := s.sessions[l].(task := task, pc := None, connected := false);
    OwnedClose(s, l, session);
    TasksUpdate(s.sessions, s.log, l, session);
  }

  lemma {:induction false} LogDial(log: Log, calls: map<Peer, seq<Call>>, sid: Sid, dial: Dial)
    requires LogOk(log, calls) && sid !in log.dials
    ensures LogOk(log.(dials := log.dials[sid := dial]), calls)
  {
    var log' := log.(dials := log.dials[sid := dial]);
    assert NetOk(log') by {
      forall m | m in log.net ensures if m.kind.Offer? then OfferOk(m, log') else AnswerOk(m, log') {
      }
    }
    assert CompletionsOk(log') by {
      forall i | 0 <= i < |log.completions| ensures CompletionOk(log.completions[i], log') {
        assert CompletionOk(log.completions[i], log);
      }
      forall i, j | 0 <= i < j < |log.completions| ensures Once(log'.completions, i, j) {
        assert Once(log.completions, i, j);
      }
    }
  }

  lemma {:induction false} DialInstallKeeps(s: State, l: Link, pc: Pc, sid: Sid)
    requires Inv(s) && Enabled(s, DialInstall(l, pc, sid))
    ensures s.sessions[l].pc.None?
    ensures Inv(After(s, DialInstall(l, pc, sid)))
  {
    var s' := After(s, DialInstall(l, pc, sid));
    var session := s'.sessions[l];
    assert TaskOk(l, s.sessions[l], s.log);
    OwnedInstall(s, l, session, pc);
    LogDial(s.log, s.calls, sid, Dial(l, pc));
    TasksDial(s.sessions, s.log, sid, Dial(l, pc));
    assert Uncompleted(sid, s.log.completions) && sid !in s.log.offered by {
      forall i | 0 <= i < |s.log.completions| ensures s.log.completions[i].sid != sid {
        assert CompletionOk(s.log.completions[i], s.log);
      }
    }
    TasksUpdate(s.sessions, s'.log, l, session);
  }

  lemma {:induction false} SendKeeps(s: State, l: Link, nonce: Nonce)
    requires Inv(s) && Enabled(s, DialSend(l, nonce))
    ensures Inv(Send(s, l, nonce))
  {
    var s' := Send(s, l, nonce);
    var sid := s.sessions[l].sid.value;
    assert TaskOk(l, s.sessions[l], s.log);
    LogSend(s.log, s.calls, s'.log.offered[sid]);
    OwnedUpdate(s, l, s'.sessions[l]);
    forall k | k in s.sessions && k != l ensures TaskOk(k, s.sessions[k], s'.log) {
      assert TaskOk(k, s.sessions[k], s.log);
    }
    TasksUpdate(s.sessions, s'.log, l, s'.sessions[l]);
  }

  lemma {:induction false} LogSend(log: Log, calls: map<Peer, seq<Call>>, m: Message)
    requires LogOk(log, calls) && m.kind.Offer? && m.sid !in log.offered
    requires m.sid in log.dials && Initiator(log.dials[m.sid].link)
    requires log.dials[m.sid].link == Link(m.sender, m.recipient) && m.sdp == OfferOf(log.dials[m.sid].pc)
    ensures LogOk(log.(net := log.net + {m}, offered := log.offered[m.sid := m]), calls)
  {
    var log' := log.(net := log.net + {m}, offered := log.offered[m.sid := m]);
    assert NetOk(log') by {
      forall k | k in log'.net ensures if k.kind.Offer? then OfferOk(k, log') else AnswerOk(k, log') {
        assert k == m || k in log.net;
      }
    }
    assert CompletionsOk(log') by {
      forall i | 0 <= i < |log.completions| ensures CompletionOk(log.completions[i], log') {
        assert CompletionOk(log.completions[i], log);
      }
    }
  }

  lemma {:induction false} RecordKeeps(s: State, node: Peer, m: Message)
    requires Inv(s)
    ensures Inv(Record(s, node, m))
  {
    var s' := Record(s, node, m);
    forall h | h in s.log.handlers
      ensures HandlerOk(h, s.log.handlers[h].offer, s.log.net, CallsOf(s'.calls, h.node))
    {
      if h.node == node {
        var sender := s.log.handlers[h].offer.sender;
        AcceptedPrefix(CallsOf(s.calls, node), [Call(m.sender, m.nonce)], h.at, sender, MAX_SEEN);
      }
    }
  }

  lemma {:induction false} ReleaseKeeps(s: State, l: Link)
    requires Inv(s) && l in s.sessions
    ensures Inv(Release(s, l))
  {
    UpdateKeeps(s, l, s.sessions[l].(task := Free));
  }

  lemma {:induction false} ReplyKeeps(s: State, l: Link, m: Message)
    requires Inv(s) && Enabled(s, DialReply(l, m))
    ensures Inv(Reply(s, l, m))
  {
    if m.sender != l.peer || !Accepts(s, l.self, m) {
      ReleaseKeeps(s, l);
    } else {
      var s' := Record(s, l.self, m);
      RecordKeeps(s, l.self, m);
      if !m.kind.Answer? || Some(m.sid) != s.sessions[l].sid {
        ReleaseKeeps(s', l);
      } else {
        var session := s.sessions[l].(task := DialApplying(s.sessions[l].task.pc, m));
        assert TaskOk(l, s.sessions[l], s.log);
        assert TaskOk(l, session, s.log);
        UpdateKeeps(s', l, session);
      }
    }
  }

  lemma {:induction false} CompleteKeeps(s: State, l: Link)
    requires Inv(s) && Enabled(s, DialDone(l))
    ensures Inv(Complete(s, l))
  {
    var s' := Complete(s, l);
    assert TaskOk(l, s.sessions[l], s.log);
    var c := s'.log.completions[|s.log.completions|];
    LogComplete(s.log, s.calls, c);
    OwnedUpdate(s, l, s'.sessions[l]);
    OthersComplete(s.sessions, s.log, c);
    TasksUpdate(s.sessions, s'.log, l, s'.sessions[l]);
  }

  lemma {:induction false} OthersComplete(sessions: map<Link, Session>, log: Log, c: Completion)
    requires TasksOk(sessions, log) && CompletionOk(c, log)
    ensures OthersOk(sessions, log.(completions := log.completions + [c]), c.link)
  {
    var log' := log.(completions := log.completions + [c]);
    forall k | k in sessions && k != c.link ensures TaskOk(k, sessions[k], log') {
      assert TaskOk(k, sessions[k], log);
    }
  }

  lemma {:induction false} LogComplete(log: Log, calls: map<Peer, seq<Call>>, c: Completion)
    requires LogOk(log, calls) && CompletionOk(c, log) && Uncompleted(c.sid, log.completions)
    ensures LogOk(log.(completions := log.completions + [c]), calls)
  {
    var log' := log.(completions := log.completions + [c]);
    assert NetOk(log') by {
      forall m | m in log.net ensures if m.kind.Offer? then OfferOk(m, log') else AnswerOk(m, log') {
      }
    }
    assert CompletionsOk(log') by {
      forall i | 0 <= i < |log'.completions| ensures CompletionOk(log'.completions[i], log') {
        if i < |log.completions| {
          assert CompletionOk(log.completions[i], log);
        }
      }
      forall i, j | 0 <= i < j < |log'.completions| ensures Once(log'.completions, i, j) {
        if j < |log.completions| {
          assert Once(log.completions, i, j);
        }
      }
    }
  }

  /** Changing or adding a handler whose offer is in order, and which has not answered. */
  lemma {:induction false} LogHandler(log: Log, calls: map<Peer, seq<Call>>, h: Handle, handler: Handler)
    requires LogOk(log, calls) && HandlerOk(h, handler.offer, log.net, CallsOf(calls, h.node))
    requires h in log.handlers ==> !log.handlers[h].stage.Answered?
    ensures LogOk(log.(handlers := log.handlers[h := handler]), calls)
  {
    var log' := log.(handlers := log.handlers[h := handler]);
    assert NetOk(log') by {
      forall m | m in log.net ensures if m.kind.Offer? then OfferOk(m, log') else AnswerOk(m, log') {
      }
    }
    assert CompletionsOk(log') by {
      forall i | 0 <= i < |log.completions| ensures CompletionOk(log.completions[i], log') {
        assert CompletionOk(log.completions[i], log);
      }
    }
  }

  lemma {:induction false} OthersHandler(sessions: map<Link, Session>, log: Log, h: Handle, handler: Handler)
    requires TasksOk(sessions, log) && (h in log.handlers ==> log.handlers[h].offer == handler.offer)
    ensures OthersOk(sessions, log.(handlers := log.handlers[h := handler]), Link(h.node, handler.offer.sender))
  {
    var log' := log.(handlers := log.handlers[h := handler]);
    forall k | k in sessions && k != Link(h.node, handler.offer.sender) ensures TaskOk(k, sessions[k], log') {
      assert TaskOk(k, sessions[k], log);
    }
  }

  lemma {:induction false} TasksHandler(sessions: map<Link, Session>, log: Log, h: Handle, handler: Handler)
    requires TasksOk(sessions, log) && h !in log.handlers
    ensures TasksOk(sessions, log.(handlers := log.handlers[h := handler]))
  {
    var log' := log.(handlers := log.handlers[h := handler]);
    forall k | k in sessions ensures TaskOk(k, sessions[k], log') {
      assert TaskOk(k, sessions[k], log);
    }
  }

  lemma {:induction false} OthersAnswered(sessions: map<Link, Session>, log: Log, l: Link, m: Message, h: Handle)
    requires OthersOk(sessions, log, l)
    ensures OthersOk(sessions, log.(net := log.net + {m}, answered := log.answered[m := h]), l)
  {
    var log' := log.(net := log.net + {m}, answered := log.answered[m := h]);
    forall k | k in sessions && k != l ensures TaskOk(k, sessions[k], log') {
      assert TaskOk(k, sessions[k], log);
    }
  }

  lemma {:induction false} InboundKeeps(s: State, node: Peer, m: Message)
    requires Inv(s) && m in s.log.net
    ensures Inv(Inbound(s, node, m))
  {
    if m.recipient == node && Accepts(s, node, m) {
      var s' := Record(s, node, m);
      RecordKeeps(s, node, m);
      if m.kind.Offer? {
        var before := CallsOf(s.calls, node);
        var h := Handle(node, |before|);
        AnswerIsAcceptance(before, Call(m.sender, m.nonce), MAX_SEEN);
        assert h !in s.log.handlers;
        LogHandler(s.log, s'.calls, h, Handler(m, Waiting));
        TasksHandler(s.sessions, s.log, h, Handler(m, Waiting));
      }
    }
  }

  lemma {:induction false} OfferStartKeeps(s: State, h: Handle)
    requires Inv(s) && Enabled(s, OfferStart(h))
    ensures Inv(After(s, OfferStart(h)))
  {
    var s' := After(s, OfferStart(h));
    var offer := s.log.handlers[h].offer;
    var l := Link(h.node, offer.sender);
    assert HandlerOk(h, offer, s.log.net, CallsOf(s.calls, h.node));
    LogHandler(s.log, s.calls, h, Handler(offer, Running));
    OwnedClose(s, l, s'.sessions[l]);
    OthersHandler(s.sessions, s.log, h, Handler(offer, Running));
    TasksUpdate(s.sessions, s'.log, l, s'.sessions[l]);
  }

  lemma {:induction false} OfferInstallKeeps(s: State, l: Link, pc: Pc)
    requires Inv(s) && Enabled(s, OfferInstall(l, pc))
    ensures s.sessions[l].pc.None?
    ensures Inv(After(s, OfferInstall(l, pc)))
  {
    var s' := After(s, OfferInstall(l, pc));
    assert TaskOk(l, s.sessions[l], s.log);
    OwnedInstall(s, l, s'.sessions[l], pc);
    TasksUpdate(s.sessions, s.log, l, s'.sessions[l]);
  }

  lemma {:induction false} AnswerKeeps(s: State, l: Link, nonce: Nonce)
    requires Inv(s) && Enabled(s, OfferDone(l, nonce))
    ensures Inv(AnswerWith(s, l, nonce))
  {
    var s' := AnswerWith(s, l, nonce);
    var task := s.sessions[l].task;
    assert TaskOk(l, s.sessions[l], s.log);
    var offer := s.log.handlers[task.h].offer;
    var m := Message(Answer, l.self, offer.sender, nonce, offer.sid, AnswerOf(task.pc, offer.sdp));
    assert m !in s.log.net;
    LogAnswer(s.log, s.calls, task.h, m, task.pc);
    OwnedUpdate(s, l, s'.sessions[l]);
    var handler := Handler(offer, Answered(m, task.pc));
    OthersHandler(s.sessions, s.log, task.h, handler);
    OthersAnswered(s.sessions, s.log.(handlers := s.log.handlers[task.h := handler]), l, m, task.h);
    TasksUpdate(s.sessions, s'.log, l, s'.sessions[l]);
  }

  lemma {:induction false} LogAnswer(log: Log, calls: map<Peer, seq<Call>>, h: Handle, m: Message, pc: Pc)
    requires LogOk(log, calls) && h in log.handlers && log.handlers[h].stage.Running?
    requires var offer := log.handlers[h].offer;
      m == Message(Answer, h.node, offer.sender, m.nonce, offer.sid, AnswerOf(pc, offer.sdp)) && m !in log.net
    ensures LogOk(log.(
      net := log.net + {m},
      answered := log.answered[m := h],
      handlers := log.handlers[h := Handler(log.handlers[h].offer, Answered(m, pc))]), calls)
  {
    var handler := Handler(log.handlers[h].offer, Answered(m, pc));
    var log' := log.(net := log.net + {m}, answered := log.answered[m := h], handlers := log.handlers[h := handler]);
    assert HandlersOk(log'.handlers, log'.net, calls) by {
      forall k | k in log'.handlers ensures HandlerOk(k, log'.handlers[k].offer, log'.net, CallsOf(calls, k.node)) {
        assert k in log.handlers;
      }
    }
    assert NetOk(log') by {
      forall k | k in log'.net ensures if k.kind.Offer? then OfferOk(k, log') else AnswerOk(k, log') {
        assert k == m || k in log.net;
      }
    }
    assert CompletionsOk(log') by {
      forall i | 0 <= i < |log.completions| ensures CompletionOk(log.completions[i], log') {
        assert CompletionOk(log.completions[i], log);
      }
    }
  }

  lemma {:induction false} ChangedKeeps(s: State, pc: Pc, state: string)
    requires Inv(s) && Enabled(s, ConnectionState(pc, state))
    ensures Inv(Changed(s, pc, state))
  {
    var s' := Changed(s, pc, state);
    var l := s.created[pc];
    assert TaskOk(l, s.sessions[l], s.log);
    if Lost(state) {
      OwnedLost(s, pc, s'.sessions[l]);
    } else {
      OwnedUpdate(s, l, s'.sessions[l]);
    }
    TasksUpdate(s.sessions, s.log, l, s'.sessions[l]);
  }

  lemma {:induction false} EventKeeps(s: State, e: Event)
    requires Inv(s) && Enabled(s, e)
    ensures Inv(After(s, e))
  {
    match e
    case AddContact(l) =>
      if l !in s.sessions {
        UpdateKeeps(s, l, Session(Free, None, None, false, Fresh));
      }
    case DialStart(l) => CloseKeeps(s, l, DialClosing);
    case DialInstall(l, pc, sid) => DialInstallKeeps(s, l, pc, sid);
    case DialSend(l, nonce) => SendKeeps(s, l, nonce);
    case DialReply(l, m) => ReplyKeeps(s, l, m);
    case DialDone(l) => CompleteKeeps(s, l);
    case Arrive(node, m) => InboundKeeps(s, node, m);
    case OfferStart(h) => OfferStartKeeps(s, h);
    case OfferInstall(l, pc) => OfferInstallKeeps(s, l, pc);
    case OfferDone(l, nonce) => AnswerKeeps(s, l, nonce);
    case DropStart(l) => CloseKeeps(s, l, Dropping);
    case Leave(l) => ReleaseKeeps(s, l);
    case ConnectionState(pc, state) => ChangedKeeps(s, pc, state);
    case ChannelOpen(l) =>
      assert TaskOk(l, s.sessions[l], s.log);
      UpdateKeeps(s, l, s.sessions[l].(connected := true, phase := Open));
    case ChannelClose(l) =>
      assert TaskOk(l, s.sessions[l], s.log);
      UpdateKeeps(s, l, s.sessions[l].(connected := false, phase := ChannelClosed));
  }
}
