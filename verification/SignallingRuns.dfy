/**
 The runs of the signalling protocol, and what holds in every state of every one of them.
 */
module SignallingRuns {
  import opened Prelude
  import opened ReplayWindows
  import opened Signalling

  /** Event `k` can happen in state `k`, and leads to the next one. */
  ghost predicate Happens(states: seq<State>, events: seq<Event>, k: nat)
    requires k < |events| && |states| == |events| + 1
  {
    Enabled(states[k], events[k]) && states[k + 1] == After(states[k], events[k])
  }

  /** A run: any events, in any order in which they can happen. */
  ghost predicate Run(states: seq<State>, events: seq<Event>) {
    && |states| == |events| + 1 && Init(states[0])
    && forall k: nat {:trigger Happens(states, events, k)} :: k < |events| ==> Happens(states, events, k)
  }

  /** The run leads to state `s`. */
  ghost predicate Leads(states: seq<State>, events: seq<Event>, s: State) {
    Run(states, events) && states[|events|] == s
  }

  lemma {:induction false} InitInv(s: State)
    requires Init(s)
    ensures Inv(s)
  {
  }

  /** The invariant holds in every state of every run. */
  lemma {:induction false} RunKeeps(states: seq<State>, events: seq<Event>, k: nat)
    requires Run(states, events) && k <= |events|
    ensures Inv(states[k])
  {
    if k == 0 {
      InitInv(states[0]);
    } else {
      RunKeeps(states, events, k - 1);
      assert Happens(states, events, k - 1);
      EventKeeps(states[k - 1], events[k - 1]);
    }
  }

  lemma {:induction false} LeadsToInv(states: seq<State>, events: seq<Event>, s: State)
    requires Leads(states, events, s)
    ensures Inv(s)
  {
    RunKeeps(states, events, |events|);
  }

  // ------------------------------------------------------------ the main results

  /** The handling of an offer by the peer, from which a completion got its answer. */
  ghost predicate AnsweredBy(s: State, c: Completion, h: Handle) {
    && h in s.log.handlers && h.node == c.link.peer
    && var Handler(offer, stage) := s.log.handlers[h];
    && stage.Answered? && stage.answer == c.answer
    && offer.kind.Offer? && offer.sender == c.link.self && offer.recipient == c.link.peer
    && offer.sid == c.sid && offer.sdp == OfferOf(c.pc)
    && c.answer.recipient == c.link.self && c.answer.sdp == AnswerOf(stage.pc, offer.sdp)
  }

  /**
   A dial gets to `answer-applied` only with the answer that the peer made from the offer of that
   very dial, and applies it to the peer connection that the offer describes; although the
   recipient of an answer is not checked, it is the dialling node.
   */
  lemma {:induction false} CompletionIsGenuine(states: seq<State>, events: seq<Event>, s: State, i: nat)
      returns (h: Handle)
    requires Leads(states, events, s) && i < |s.log.completions|
    ensures AnsweredBy(s, s.log.completions[i], h)
    ensures s.log.completions[i].pc in s.created && s.created[s.log.completions[i].pc] == s.log.completions[i].link
  {
    LeadsToInv(states, events, s);
    var c := s.log.completions[i];
    assert CompletionOk(c, s.log);
    assert AnswerOk(c.answer, s.log);
    h := s.log.answered[c.answer];
    assert HandlerOk(h, s.log.handlers[h].offer, s.log.net, CallsOf(s.calls, h.node));
    assert OfferOk(s.log.handlers[h].offer, s.log);
  }

  /** Distinct completions have distinct session ids, offers and handlings of those offers. */
  lemma {:induction false} CompletionsAreDistinct(states: seq<State>, events: seq<Event>, s: State, i: nat, j: nat,
        h: Handle, k: Handle)
    requires Leads(states, events, s) && i < j < |s.log.completions|
    requires AnsweredBy(s, s.log.completions[i], h) && AnsweredBy(s, s.log.completions[j], k)
    ensures s.log.completions[i].sid != s.log.completions[j].sid
    ensures h != k && s.log.handlers[h].offer != s.log.handlers[k].offer
  {
    LeadsToInv(states, events, s);
    assert Once(s.log.completions, i, j);
  }

  /** Every peer connection ever created is that of its session or closed, and not both. */
  lemma {:induction false} ConnectionsAccounted(states: seq<State>, events: seq<Event>, s: State, pc: Pc)
    requires Leads(states, events, s) && pc in s.created
    ensures s.created[pc] in s.sessions
    ensures s.sessions[s.created[pc]].pc == Some(pc) <==> pc !in s.closed
  {
    LeadsToInv(states, events, s);
    var l := s.created[pc];
    assert OwnsPc(l, s.sessions[l], s.created, s.closed);
  }

  /** A session has no peer connection at the moment a new one is put there. */
  lemma {:induction false} InstalledWhenEmpty(states: seq<State>, events: seq<Event>, s: State, e: Event)
    requires Leads(states, events, s) && Enabled(s, e) && (e.DialInstall? || e.OfferInstall?)
    ensures s.sessions[e.l].pc.None? && After(s, e).sessions[e.l].pc == Some(e.pc)
  {
    LeadsToInv(states, events, s);
    assert TaskOk(e.l, s.sessions[e.l], s.log);
  }

  /** An offer is handled twice only when at least `MAX_SEEN` messages of that peer were accepted in between. */
  lemma {:induction false} HandledAgainLate(states: seq<State>, events: seq<Event>, s: State, h: Handle, k: Handle)
    requires Leads(states, events, s) && h in s.log.handlers && k in s.log.handlers
    requires h.node == k.node && h.at < k.at && s.log.handlers[h].offer == s.log.handlers[k].offer
    ensures k.at < |CallsOf(s.calls, h.node)|
    ensures var sender := s.log.handlers[h].offer.sender;
      AcceptedBetween(CallsOf(s.calls, h.node), h.at + 1, k.at, sender, MAX_SEEN) >= MAX_SEEN
  {
    LeadsToInv(states, events, s);
    AcceptedAgainLate(CallsOf(s.calls, h.node), h.at, k.at, MAX_SEEN);
  }

  /** Offers between two nodes go one way only. */
  lemma {:induction false} OffersGoOneWay(states: seq<State>, events: seq<Event>, s: State, m: Message, m': Message)
    requires Leads(states, events, s) && m in s.log.net && m' in s.log.net && m.kind.Offer? && m'.kind.Offer?
    ensures !(m.sender == m'.recipient && m.recipient == m'.sender)
  {
    LeadsToInv(states, events, s);
    if m.sender == m'.recipient && m.recipient == m'.sender {
      LessIrreflexive(m.sender.id);
      LessTotal(m.sender.id, m.recipient.id);
    }
  }

  /** Two contacts of which the first dials can complete a dial. */
  lemma {:induction false} CompletionHappens(a: Peer, b: Peer, pc: Pc, pc': Pc, sid: Sid, n: Nonce, n': Nonce)
      returns (states: seq<State>, events: seq<Event>, s: State)
    requires a != b && Less(a.id, b.id) && pc != pc' && n != n'
    ensures Leads(states, events, s) && |s.log.completions| == 1
    ensures s.log.completions[0].link == Link(a, b) && s.log.completions[0].pc == pc
  {
    var answer;
    states, events, s, answer := AnswerTo(a, b, pc, pc', sid, n, n');
    states, events, s := Then(states, events, s, DialReply(Link(a, b), answer));
    states, events, s := Then(states, events, s, DialDone(Link(a, b)));
  }

  lemma {:induction false} AnswerTo(a: Peer, b: Peer, pc: Pc, pc': Pc, sid: Sid, n: Nonce, n': Nonce)
      returns (states: seq<State>, events: seq<Event>, s: State, answer: Message)
    requires a != b && Less(a.id, b.id) && pc != pc' && n != n'
    ensures Leads(states, events, s) && a !in s.calls && answer in s.log.net && s.log.completions == []
    ensures Link(a, b) in s.sessions
    ensures s.sessions[Link(a, b)] == Session(DialWaiting(pc), Some(pc), Some(sid), false, Negotiating)
    ensures answer.kind.Answer? && answer.sender == b && answer.sid == sid
  {
    states, events, s := DialTo(a, b, pc, sid, n);
    var offer := s.log.offered[sid];
    states, events, s := Then(states, events, s, Arrive(b, offer));
    states, events, s := Then(states, events, s, OfferStart(Handle(b, 0)));
    states, events, s := Then(states, events, s, OfferInstall(Link(b, a), pc'));
    states, events, s := Then(states, events, s, OfferDone(Link(b, a), n'));
    answer := s.log.handlers[Handle(b, 0)].stage.answer;
  }

  /** A run goes on with any event that can happen. */
  lemma {:induction false} Then(states: seq<State>, events: seq<Event>, s: State, e: Event)
      returns (states': seq<State>, events': seq<Event>, s': State)
    requires Leads(states, events, s) && Enabled(s, e)
    ensures Leads(states', events', s') && s' == After(s, e)
  {
    s' := After(s, e);
    states', events' := states + [s'], events + [e];
    forall k: nat {:trigger Happens(states', events', k)} | k < |events'| ensures Happens(states', events', k) {
      assert k == |events| || Happens(states, events, k);
    }
  }

  /** Both nodes have each other as contact, and one has sent its offer. */
  lemma {:induction false} DialTo(a: Peer, b: Peer, pc: Pc, sid: Sid, n: Nonce)
      returns (states: seq<State>, events: seq<Event>, s: State)
    requires a != b && Less(a.id, b.id)
    ensures Leads(states, events, s)
    ensures s.sessions == map[
      Link(a, b) := Session(DialWaiting(pc), Some(pc), Some(sid), false, Negotiating),
      Link(b, a) := Session(Free, None, None, false, Fresh)]
    ensures s.created == map[pc := Link(a, b)] && s.calls == map[]
    ensures var m := Message(Offer, a, b, n, sid, OfferOf(pc));
      s.log == Log({m}, map[sid := Dial(Link(a, b), pc)], map[sid := m], map[], map[], [])
  {
    states, events, s := Meet(a, b);
    states, events, s := Then(states, events, s, DialStart(Link(a, b)));
    states, events, s := Then(states, events, s, DialInstall(Link(a, b), pc, sid));
    states, events, s := Then(states, events, s, DialSend(Link(a, b), n));
  }

  lemma {:induction false} Meet(a: Peer, b: Peer) returns (states: seq<State>, events: seq<Event>, s: State)
    requires a != b
    ensures Leads(states, events, s)
    ensures s.sessions == map[
      Link(a, b) := Session(Free, None, None, false, Fresh),
      Link(b, a) := Session(Free, None, None, false, Fresh)]
    ensures s.created == map[] && s.calls == map[] && s.log == Log({}, map[], map[], map[], map[], [])
  {
    s := State(map[], map[], {}, map[], Log({}, map[], map[], map[], map[], []));
    states, events := [s], [];
    states, events, s := Then(states, events, s, AddContact(Link(a, b)));
    states, events, s := Then(states, events, s, AddContact(Link(b, a)));
  }
}
