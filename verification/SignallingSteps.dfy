/**
 What single events of the signalling protocol do, field by field: for each field of a session and
 for each part of the state, which events change it, and to what.  Each is said from the side of the
 field, over all events, and of runs where that makes sense.
 */
module SignallingSteps {
  import opened Prelude
  import opened ReplayWindows
  import opened Signalling
  import opened SignallingRuns

  /** The session whose offer is handled. */
  ghost function OfferLink(s: State, h: Handle): Link
    requires h in s.log.handlers
  {
    Link(h.node, s.log.handlers[h].offer.sender)
  }

  /** The event belongs to the session of `l`. */
  ghost predicate Concerns(s: State, e: Event, l: Link)
    requires Enabled(s, e)
  {
    match e
    case Arrive(_, _) => false
    case OfferStart(h) => OfferLink(s, h) == l
    case ConnectionState(pc, _) => s.created[pc] == l
    case _ => e.l == l
  }

  /** No event touches the session of another link, and sessions come only with a new contact. */
  lemma OtherSessionsKept(s: State, e: Event, l: Link)
    requires Enabled(s, e)
    ensures !Concerns(s, e, l) ==> (l in After(s, e).sessions <==> l in s.sessions)
    ensures !Concerns(s, e, l) && l in s.sessions ==> After(s, e).sessions[l] == s.sessions[l]
    ensures l in After(s, e).sessions <==> l in s.sessions || e == AddContact(l)
    ensures e == AddContact(l) ==>
      After(s, e).sessions[l] == if l in s.sessions then s.sessions[l] else Session(Free, None, None, false, Fresh)
  {
    match e
    case DialReply(_, m) =>
    case Arrive(node, m) =>
    case ConnectionState(_, state) =>
    case OfferStart(h) =>
    case _ =>
  }

  // ------------------------------------------------------------ connected

  /** The holder of the lock of `l` begins by closing its peer connection; a dial only of a session not connected. */
  ghost predicate Closing(s: State, e: Event, l: Link)
    requires Enabled(s, e) && l in s.sessions
  {
    || (e == DialStart(l) && !s.sessions[l].connected)
    || (e.OfferStart? && OfferLink(s, e.h) == l)
    || e == DropStart(l)
  }

  /** A peer connection of `l` reports that it is gone. */
  ghost predicate Gone(s: State, e: Event, l: Link)
    requires Enabled(s, e)
  {
    e.ConnectionState? && s.created[e.pc] == l && Lost(e.state)
  }

  /** Of the states that a peer connection can report, three mean that it is gone. */
  lemma LostStates()
    ensures Lost("disconnected") && Lost("failed") && Lost("closed")
    ensures !Lost("new") && !Lost("connecting") && !Lost("connected")
  {
    assert |"new"| == 3 && |"failed"| == 6 && |"closed"| == 6 && |"connected"| == 9;
  }

  ghost predicate Disconnects(s: State, e: Event, l: Link)
    requires Enabled(s, e)
  {
    e == DropStart(l) || e == ChannelClose(l) || (e.OfferStart? && OfferLink(s, e.h) == l) || Gone(s, e, l)
  }

  /** A session is connected after an event if the channel opens, or if it was and the event does not disconnect it. */
  lemma ConnectedIff(s: State, e: Event, l: Link)
    requires Enabled(s, e) && l in s.sessions
    ensures l in After(s, e).sessions
    ensures After(s, e).sessions[l].connected <==>
      e == ChannelOpen(l) || (s.sessions[l].connected && !Disconnects(s, e, l))
  {
    if Concerns(s, e, l) {
      ConnectedHere(s, e, l);
    } else {
      OtherSessionsKept(s, e, l);
    }
  }

  lemma ConnectedHere(s: State, e: Event, l: Link)
    requires Enabled(s, e) && l in s.sessions && Concerns(s, e, l)
    ensures l in After(s, e).sessions
    ensures After(s, e).sessions[l].connected <==>
      e.ChannelOpen? || (s.sessions[l].connected && !Disconnects(s, e, l))
  {
    match e
    case OfferStart(h) =>
    case ConnectionState(_, _) =>
    case DialReply(_, _) =>
    case _ =>
  }

  /** Event `i` of a run opened the channel of `l`, and none from there up to event `n` disconnected the session. */
  ghost predicate OpenSince(states: seq<State>, events: seq<Event>, i: nat, n: nat, l: Link)
    requires Run(states, events) && n <= |events|
  {
    i < n && events[i] == ChannelOpen(l) && forall j: nat {:trigger Happens(states, events, j)} ::
      i < j < n ==> Happens(states, events, j) && !Disconnects(states[j], events[j], l)
  }

  ghost predicate Opened(states: seq<State>, events: seq<Event>, n: nat, l: Link)
    requires Run(states, events) && n <= |events|
  {
    exists i: nat :: OpenSince(states, events, i, n, l)
  }

  /** In every run: a session is connected exactly when its channel was opened and it was not disconnected since. */
  lemma {:induction false} ConnectedSince(states: seq<State>, events: seq<Event>, n: nat, l: Link)
    requires Run(states, events) && n <= |events|
    ensures l in states[n].sessions && states[n].sessions[l].connected <==> Opened(states, events, n, l)
  {
    if n > 0 {
      ConnectedSince(states, events, n - 1, l);
      assert Happens(states, events, n - 1);
      var s, e := states[n - 1], events[n - 1];
      OtherSessionsKept(s, e, l);
      if l in s.sessions {
        ConnectedIff(s, e, l);
      }
      OpenStill(states, events, n - 1, l);
    }
  }

  lemma OpenStill(states: seq<State>, events: seq<Event>, n: nat, l: Link)
    requires Run(states, events) && n < |events| && Happens(states, events, n)
    ensures Opened(states, events, n + 1, l) <==>
      events[n] == ChannelOpen(l) || (Opened(states, events, n, l) && !Disconnects(states[n], events[n], l))
  {
    var m := n + 1;
    if events[n] == ChannelOpen(l) {
      assert OpenSince(states, events, n, n + 1, l);
    } else if i: nat :| OpenSince(states, events, i, n, l) {
      if !Disconnects(states[n], events[n], l) {
        OpenOn(states, events, i, n, l);
      }
    } else if i: nat :| OpenSince(states, events, i, m, l) {
      OpenBefore(states, events, i, n, l);
    }
  }

  lemma OpenOn(states: seq<State>, events: seq<Event>, i: nat, n: nat, l: Link)
    requires Run(states, events) && n < |events| && Happens(states, events, n)
    requires OpenSince(states, events, i, n, l) && !Disconnects(states[n], events[n], l)
    ensures OpenSince(states, events, i, n + 1, l)
  {
    forall j: nat {:trigger Happens(states, events, j)} | i < j < n + 1
      ensures Happens(states, events, j) && !Disconnects(states[j], events[j], l)
    {
      assert j == n || Happens(states, events, j);
    }
  }

  lemma OpenBefore(states: seq<State>, events: seq<Event>, i: nat, n: nat, l: Link)
    requires Run(states, events) && n < |events| && events[n] != ChannelOpen(l)
    requires OpenSince(states, events, i, n + 1, l)
    ensures OpenSince(states, events, i, n, l)
  {
  }

  // ------------------------------------------------------------ peer connections

  /** `close` is called on a peer connection. */
  ghost predicate Closes(s: State, e: Event, pc: Pc)
    requires Enabled(s, e)
  {
    || (exists l :: l in s.sessions && s.sessions[l].pc == Some(pc) && Closing(s, e, l))
    || (e.ConnectionState? && e.pc == pc && Gone(s, e, s.created[pc]))
  }

  lemma ClosedIff(s: State, e: Event, pc: Pc)
    requires Enabled(s, e)
    ensures pc in After(s, e).closed <==> pc in s.closed || Closes(s, e, pc)
  {
    if pc in After(s, e).closed && pc !in s.closed && !e.ConnectionState? {
      var l := if e.OfferStart? then OfferLink(s, e.h) else e.l;
      assert l in s.sessions && s.sessions[l].pc == Some(pc) && Closing(s, e, l);
    }
  }

  ghost predicate ClosedBy(states: seq<State>, events: seq<Event>, i: nat, pc: Pc)
    requires Run(states, events)
  {
    i < |events| && Happens(states, events, i) && Closes(states[i], events[i], pc)
  }

  /** In every run: a peer connection counts as closed exactly when some event has closed it. */
  lemma {:induction false} ClosedOnce(states: seq<State>, events: seq<Event>, n: nat, pc: Pc)
    requires Run(states, events) && n <= |events|
    ensures pc in states[n].closed <==> exists i: nat :: i < n && ClosedBy(states, events, i, pc)
  {
    if n > 0 {
      ClosedOnce(states, events, n - 1, pc);
      assert Happens(states, events, n - 1);
      ClosedIff(states[n - 1], events[n - 1], pc);
      assert ClosedBy(states, events, n - 1, pc) <==> Closes(states[n - 1], events[n - 1], pc);
    }
  }

  /** Whose peer connection a session has: the one installed, none once it is closed, or the same as before. */
  lemma SessionPc(s: State, e: Event, l: Link)
    requires Enabled(s, e) && l in s.sessions
    ensures After(s, e).sessions[l].pc ==
      if (e.DialInstall? || e.OfferInstall?) && e.l == l then Some(e.pc)
      else if Closing(s, e, l) || (Gone(s, e, l) && s.sessions[l].pc == Some(e.pc)) then None
      else s.sessions[l].pc
  {
    OtherSessionsKept(s, e, l);
    if Concerns(s, e, l) {
      match e
      case ConnectionState(pc, state) =>
      case _ =>
    }
  }

  lemma CreatedIff(s: State, e: Event, pc: Pc)
    requires Enabled(s, e)
    ensures pc in After(s, e).created <==> pc in s.created || ((e.DialInstall? || e.OfferInstall?) && e.pc == pc)
    ensures pc in s.created ==> pc in After(s, e).created && After(s, e).created[pc] == s.created[pc]
    ensures (e.DialInstall? || e.OfferInstall?) && e.pc == pc ==> After(s, e).created[pc] == e.l
  {
  }

  // ------------------------------------------------------------ session ids, phases and locks

  /** The session id is new with a dial and that of the offer with an answer; nothing else changes it. */
  lemma SessionId(s: State, e: Event, l: Link)
    requires Enabled(s, e) && l in s.sessions
    ensures After(s, e).sessions[l].sid ==
      if e.DialInstall? && e.l == l then Some(e.sid)
      else if e.OfferInstall? && e.l == l then Some(s.log.handlers[s.sessions[l].task.h].offer.sid)
      else s.sessions[l].sid
  {
  }

  /** Which event gives a session which state, and that no other event changes it. */
  lemma PhaseIff(s: State, e: Event, l: Link)
    requires Enabled(s, e) && l in s.sessions
    ensures var was, now := s.sessions[l].phase, After(s, e).sessions[l].phase;
      && (now.AnswerApplied? <==> e == DialDone(l) || (was.AnswerApplied? && now == was))
      && (now == was || match now
          case Fresh => false
          case Negotiating => (e.DialInstall? || e.OfferInstall?) && e.l == l
          case AnswerApplied => e == DialDone(l)
          case Transport(state) => e.ConnectionState? && s.created[e.pc] == l && e.state == state
          case Open => e == ChannelOpen(l) && !s.sessions[l].connected
          case ChannelClosed => e == ChannelClose(l))
      && ((e.DialInstall? || e.OfferInstall?) && e.l == l ==> now.Negotiating?)
      && (e.ConnectionState? && s.created[e.pc] == l ==> now == Transport(e.state))
      && (e == ChannelOpen(l) && !s.sessions[l].connected ==> now.Open?)
      && (e == ChannelClose(l) ==> now.ChannelClosed?)
  {
    if Concerns(s, e, l) {
      match e
      case DialReply(_, m) =>
      case ConnectionState(_, state) =>
      case OfferStart(h) =>
      case ChannelOpen(_) =>
      case _ =>
    } else {
      OtherSessionsKept(s, e, l);
    }
  }

  /** The lock is taken by a dial of a session not connected, by the handling of an offer and by a drop. */
  lemma LockTakenIff(s: State, e: Event, l: Link)
    requires Enabled(s, e) && l in s.sessions && s.sessions[l].task.Free?
    ensures !After(s, e).sessions[l].task.Free? <==> Closing(s, e, l)
  {
    if Concerns(s, e, l) {
      match e
      case DialReply(_, m) =>
      case ConnectionState(_, state) =>
      case OfferStart(h) =>
      case ChannelOpen(_) =>
      case _ =>
    } else {
      OtherSessionsKept(s, e, l);
    }
  }

  /** What `_initiate_with_contact` checks of the reply, the signature apart. */
  ghost predicate ReplyPasses(s: State, l: Link, m: Message) {
    && l in s.sessions && m.sender == l.peer
    && m.nonce !in Window(CallsOf(s.calls, l.self), m.sender, 4096)
    && m.kind.Answer? && Some(m.sid) == s.sessions[l].sid
  }

  /** It is given up when the dial or the handling is over, one way or the other, and not before. */
  lemma LockReleasedIff(s: State, e: Event, l: Link)
    requires Enabled(s, e) && l in s.sessions && !s.sessions[l].task.Free?
    ensures After(s, e).sessions[l].task.Free? <==>
      || e == DialDone(l) || e == Leave(l) || (e.OfferDone? && e.l == l)
      || (e.DialReply? && e.l == l && !ReplyPasses(s, l, e.m))
    ensures e.DialReply? && e.l == l && ReplyPasses(s, l, e.m) ==>
      After(s, e).sessions[l].task == DialApplying(s.sessions[l].task.pc, e.m)
  {
    if Concerns(s, e, l) {
      match e
      case DialReply(_, m) =>
      case ConnectionState(_, state) =>
      case OfferStart(h) =>
      case ChannelOpen(_) =>
      case _ =>
    } else {
      OtherSessionsKept(s, e, l);
    }
  }

  /** What can happen next to a session, given a new peer connection, session id and nonce. */
  ghost predicate NextStep(s: State, l: Link, pc: Pc, sid: Sid, nonce: Nonce)
    requires l in s.sessions
  {
    match s.sessions[l].task
    case Free =>
      && Enabled(s, DropStart(l)) && (Enabled(s, DialStart(l)) <==> Less(l.self.id, l.peer.id))
      && forall h :: h in s.log.handlers && s.log.handlers[h].stage.Waiting? && OfferLink(s, h) == l ==>
        Enabled(s, OfferStart(h))
    case DialClosing => Enabled(s, DialInstall(l, pc, sid))
    case DialOffering(_) => Enabled(s, DialSend(l, nonce))
    case DialWaiting(_) => forall m :: m in s.log.net ==> Enabled(s, DialReply(l, m))
    case DialApplying(_, _) => Enabled(s, DialDone(l))
    case OfferClosing(_) => Enabled(s, OfferInstall(l, pc))
    case OfferAnswering(_, _) => Enabled(s, OfferDone(l, nonce))
    case Dropping => Enabled(s, Leave(l))
  }

  /** The holder of a lock can always take its next step or leave, and a free one can be taken. */
  lemma NeverStuck(states: seq<State>, events: seq<Event>, s: State, l: Link, pc: Pc, sid: Sid, nonce: Nonce)
    requires Leads(states, events, s) && l in s.sessions
    requires pc !in s.created && sid !in s.log.dials && forall m :: m in s.log.net ==> m.nonce != nonce
    ensures NextStep(s, l, pc, sid, nonce)
  {
    LeadsToInv(states, events, s);
    assert TaskOk(l, s.sessions[l], s.log);
    CanGoOn(s, l, pc, sid, nonce);
  }

  ghost predicate Receptive(s: State, l: Link)
    requires l in s.sessions
  {
    && (s.sessions[l].task.Free? || Enabled(s, Leave(l)))
    && Enabled(s, ChannelOpen(l)) && Enabled(s, ChannelClose(l))
    && (forall m, node :: m in s.log.net ==> Enabled(s, Arrive(node, m)))
    && (forall pc, state :: pc in s.created ==> Enabled(s, ConnectionState(pc, state)))
  }

  /** And whoever holds the lock, it can be left, messages can arrive and callbacks can run. */
  lemma AlwaysOpen(states: seq<State>, events: seq<Event>, s: State, l: Link)
    requires Leads(states, events, s) && l in s.sessions
    ensures Receptive(s, l)
  {
    LeadsToInv(states, events, s);
    CallbacksRun(s, l);
  }

  lemma CallbacksRun(s: State, l: Link)
    requires l in s.sessions && Owned(s.sessions, s.created, s.closed)
    ensures Receptive(s, l)
  {
  }

  lemma CanGoOn(s: State, l: Link, pc: Pc, sid: Sid, nonce: Nonce)
    requires l in s.sessions && TaskOk(l, s.sessions[l], s.log)
    requires pc !in s.created && sid !in s.log.dials && FreshNonce(s, nonce)
    ensures NextStep(s, l, pc, sid, nonce)
  {
  }

  // ------------------------------------------------------------ messages

  /** The message an event sends. */
  ghost predicate Sends(s: State, e: Event, m: Message)
    requires Enabled(s, e)
  {
    match e
    case DialSend(l, nonce) =>
      m == Message(Offer, l.self, l.peer, nonce, s.sessions[l].sid.value, OfferOf(s.sessions[l].task.pc))
    case OfferDone(l, nonce) =>
      var Handler(offer, _) := s.log.handlers[s.sessions[l].task.h];
      && m.kind.Answer? && m.sender == l.self && m.recipient == offer.sender && m.nonce == nonce
      && Some(m.sid) == s.sessions[l].sid && m.sdp == AnswerOf(s.sessions[l].task.pc, offer.sdp)
    case _ => false
  }

  lemma SentIff(s: State, e: Event, m: Message)
    requires Enabled(s, e)
    ensures m in After(s, e).log.net <==> m in s.log.net || Sends(s, e, m)
  {
  }

  /** A node records the nonce of a message exactly when it is from a contact, expected and not in the window. */
  ghost predicate Records(s: State, e: Event, node: Peer, m: Message)
    requires Enabled(s, e)
  {
    && ((e == Arrive(node, m) && m.recipient == node) || (e.DialReply? && e.l == Link(node, m.sender) && e.m == m))
    && Link(node, m.sender) in s.sessions && m.nonce !in Window(CallsOf(s.calls, node), m.sender, 4096)
  }

  lemma RecordedIff(s: State, e: Event, node: Peer)
    requires Enabled(s, e)
    ensures var was, now := CallsOf(s.calls, node), CallsOf(After(s, e).calls, node);
      if (e.Arrive? || e.DialReply?) && Records(s, e, node, e.m) then now == was + [Call(e.m.sender, e.m.nonce)]
      else now == was
  {
    match e
    case DialReply(_, m) =>
    case Arrive(_, m) =>
    case _ =>
  }

  /** An offer waits to be handled exactly when it has arrived and its nonce was recorded. */
  lemma HandlerIff(s: State, e: Event, h: Handle)
    requires Enabled(s, e) && h !in s.log.handlers
    ensures h in After(s, e).log.handlers <==>
      && e.Arrive? && e.m.kind.Offer? && e.node == h.node && Records(s, e, h.node, e.m)
      && h.at == |CallsOf(s.calls, h.node)|
    ensures h in After(s, e).log.handlers ==> After(s, e).log.handlers[h] == Handler(e.m, Waiting)
  {
  }

  /** A handler runs once it has the lock and has answered once its answer is sent; its offer stays the same. */
  lemma HandlerStage(s: State, e: Event, h: Handle)
    requires Enabled(s, e) && h in s.log.handlers && h.at < |CallsOf(s.calls, h.node)|
    ensures h in After(s, e).log.handlers && After(s, e).log.handlers[h].offer == s.log.handlers[h].offer
    ensures var was, now := s.log.handlers[h].stage, After(s, e).log.handlers[h].stage;
      if e == OfferStart(h) then now == Running
      else if e.OfferDone? && s.sessions[e.l].task.h == h then now.Answered?
      else now == was
  {
    match e
    case Arrive(node, m) =>
    case OfferStart(k) =>
    case OfferDone(l, nonce) =>
    case _ =>
  }

  /** The answer it has then given is the one sent, for its peer connection. */
  lemma AnswerKept(s: State, l: Link, nonce: Nonce)
    requires Enabled(s, OfferDone(l, nonce))
    ensures var Session(task, _, _, _, _) := s.sessions[l];
      var s' := After(s, OfferDone(l, nonce));
      && task.h in s'.log.handlers && s'.log.handlers[task.h].stage.Answered?
      && s'.log.handlers[task.h].stage.pc == task.pc
      && Sends(s, OfferDone(l, nonce), s'.log.handlers[task.h].stage.answer)
      && s'.log.answered == s.log.answered[s'.log.handlers[task.h].stage.answer := task.h]
  {
  }

  /** Completions come one at a time, from the answer that a dial is applying. */
  lemma CompletedIff(s: State, e: Event)
    requires Enabled(s, e)
    ensures After(s, e).log.completions ==
      if e.DialDone? then
        var session := s.sessions[e.l];
        s.log.completions + [Completion(e.l, session.sid.value, session.task.pc, session.task.answer)]
      else s.log.completions
  {
  }

  // ------------------------------------------------------------ answer-applied

  ghost predicate Completed(s: State, l: Link, i: nat) {
    && l in s.sessions && i < |s.log.completions| && s.log.completions[i].link == l
    && s.sessions[l].sid == Some(s.log.completions[i].sid)
  }

  /** In every run: a session in state `answer-applied` has completed the dial of its current session id. */
  lemma {:induction false} AppliedIsCompleted(states: seq<State>, events: seq<Event>, n: nat, l: Link) returns (i: nat)
    requires Run(states, events) && n <= |events|
    requires l in states[n].sessions && states[n].sessions[l].phase.AnswerApplied?
    ensures Completed(states[n], l, i)
  {
    if n > 0 {
      assert Happens(states, events, n - 1);
      var s, e := states[n - 1], events[n - 1];
      OtherSessionsKept(s, e, l);
      CompletedIff(s, e);
      if l in s.sessions {
        PhaseIff(s, e, l);
        SessionId(s, e, l);
        if e == DialDone(l) {
          i := |s.log.completions|;
        } else {
          i := AppliedIsCompleted(states, events, n - 1, l);
        }
      }
    }
  }
}
