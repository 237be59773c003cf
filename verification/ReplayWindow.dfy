/**
 The replay window: per peer, the nonces of the last `maxSeen` accepted messages, held both as a
 list (to know which is the oldest) and as a set (to look a nonce up); and the checks that a
 signalling message passes before its nonce gets there.
 */
module ReplayWindows {
  import opened Prelude

  datatype Peer = Peer(id: string)
  datatype Nonce = Nonce(text: string)

  datatype Call = Call(peer: Peer, nonce: Nonce)

  // ------------------------------------------------------------ histories of calls

  /** The last `n` members of a sequence. */
  function Last<T>(s: seq<T>, n: nat): seq<T> {
    if |s| <= n then s else s[|s| - n..]
  }

  /** A nonce among those last `n`. */
  ghost predicate Recent(s: seq<Nonce>, x: Nonce, n: nat) {
    exists i :: 0 <= i < |s| && |s| - i <= n && s[i] == x
  }

  lemma RecentIffInLast(s: seq<Nonce>, x: Nonce, n: nat)
    ensures Recent(s, x, n) <==> x in Last(s, n)
  {
    if Recent(s, x, n) {
      var i :| 0 <= i < |s| && |s| - i <= n && s[i] == x;
      assert n < |s| ==> Last(s, n)[i - (|s| - n)] == x;
    }
  }

  /**
   The nonces accepted from a peer by the first `k` calls: at each call, one that is not among
   the last `n` accepted.
   */
  ghost function Accepted(calls: seq<Call>, k: nat, peer: Peer, n: nat): seq<Nonce>
    requires k <= |calls|
  {
    if k == 0 then []
    else
      var before, c := Accepted(calls, k - 1, peer, n), calls[k - 1];
      if c.peer == peer && !Recent(before, c.nonce, n) then before + [c.nonce] else before
  }

  /** Call number `k` is answered with "not seen". */
  ghost predicate AcceptedAt(calls: seq<Call>, k: nat, n: nat)
    requires k < |calls|
  {
    !Recent(Accepted(calls, k, calls[k].peer, n), calls[k].nonce, n)
  }

  /** What is accepted depends on the calls so far only. */
  lemma {:induction false} AcceptedPrefix(calls: seq<Call>, more: seq<Call>, k: nat, peer: Peer, n: nat)
    requires k <= |calls|
    ensures Accepted(calls + more, k, peer, n) == Accepted(calls, k, peer, n)
  {
    if k > 0 {
      AcceptedPrefix(calls, more, k - 1, peer, n);
    }
  }

  /** Equal nonces lie more than `n` apart. */
  ghost predicate Spaced(s: seq<Nonce>, n: nat) {
    forall i, j :: 0 <= i < j < |s| && s[i] == s[j] ==> j - i > n
  }

  lemma {:induction false} AcceptedSpaced(calls: seq<Call>, k: nat, peer: Peer, n: nat)
    requires k <= |calls|
    ensures Spaced(Accepted(calls, k, peer, n), n)
  {
    if k > 0 {
      AcceptedSpaced(calls, k - 1, peer, n);
    }
  }

  /** So the window never holds a nonce twice. */
  lemma WindowNoDup(s: seq<Nonce>, n: nat)
    requires Spaced(s, n)
    ensures NoDup(Last(s, n))
  {
    if |s| > n {
      forall i, j | 0 <= i < j < n ensures Last(s, n)[i] != Last(s, n)[j] {
        assert Last(s, n)[i] == s[|s| - n + i] && Last(s, n)[j] == s[|s| - n + j];
      }
    }
  }

  /** Later calls only add to what was accepted. */
  lemma {:induction false} AcceptedGrows(calls: seq<Call>, a: nat, b: nat, peer: Peer, n: nat)
    requires a <= b <= |calls|
    ensures Accepted(calls, a, peer, n) <= Accepted(calls, b, peer, n)
    decreases b - a
  {
    if a < b {
      AcceptedGrows(calls, a, b - 1, peer, n);
    }
  }

  /** The call at which a nonce came to be accepted. */
  lemma {:induction false} WhenAccepted(calls: seq<Call>, a: nat, b: nat, peer: Peer, n: nat, i: nat) returns (k: nat)
    requires a <= b <= |calls| && |Accepted(calls, a, peer, n)| <= i < |Accepted(calls, b, peer, n)|
    ensures a <= k < b && calls[k] == Call(peer, Accepted(calls, b, peer, n)[i]) && AcceptedAt(calls, k, n)
    decreases b - a
  {
    if i < |Accepted(calls, b - 1, peer, n)| {
      k := WhenAccepted(calls, a, b - 1, peer, n, i);
    } else {
      k := b - 1;
    }
  }

  /** How many nonces of a peer are accepted from call `a` on and before call `b`. */
  ghost function AcceptedBetween(calls: seq<Call>, a: nat, b: nat, peer: Peer, n: nat): int
    requires a <= b <= |calls|
  {
    |Accepted(calls, b, peer, n)| - |Accepted(calls, a, peer, n)|
  }

  /**
   A nonce accepted at call `a`, and not again before call `b`, is accepted at call `b` exactly
   when at least `n` other nonces of that peer were accepted in between.
   */
  lemma AcceptedAgainIff(calls: seq<Call>, a: nat, b: nat, n: nat)
    requires a < b < |calls| && calls[a] == calls[b] && AcceptedAt(calls, a, n)
    requires forall k :: a < k < b && calls[k] == calls[a] ==> !AcceptedAt(calls, k, n)
    ensures AcceptedAt(calls, b, n) <==> AcceptedBetween(calls, a + 1, b, calls[a].peer, n) >= n
  {
    var Call(peer, x) := calls[a];
    var first, acc := Accepted(calls, a, peer, n), Accepted(calls, b, peer, n);
    AcceptedGrows(calls, a + 1, b, peer, n);
    assert acc[|first|] == x;
    forall i | |first| < i < |acc| ensures acc[i] != x {
      var k := WhenAccepted(calls, a + 1, b, peer, n, i);
    }
  }

  /** Hence two acceptances of a nonce, whichever, have at least `n` others between them. */
  lemma AcceptedAgainLate(calls: seq<Call>, a: nat, b: nat, n: nat)
    requires a < b < |calls| && calls[a] == calls[b] && AcceptedAt(calls, a, n) && AcceptedAt(calls, b, n)
    ensures AcceptedBetween(calls, a + 1, b, calls[a].peer, n) >= n
  {
    var Call(peer, x) := calls[a];
    AcceptedGrows(calls, a + 1, b, peer, n);
    AcceptedSpaced(calls, b + 1, peer, n);
    var acc := Accepted(calls, b + 1, peer, n);
    assert acc[|Accepted(calls, a, peer, n)|] == x == acc[|acc| - 1];
  }

  // ------------------------------------------------------------ the window

  ghost function Members(s: seq<Nonce>): set<Nonce> { set x | x in s }

  /** Dropping the oldest from the list and from the set leaves them the same nonces. */
  lemma DropOldest(s: seq<Nonce>)
    requires s != [] && NoDup(s)
    ensures Members(s[1..]) == Members(s) - {s[0]}
  {
    forall x | x in Members(s) - {s[0]} ensures x in s[1..] {
      var i :| 0 <= i < |s| && s[i] == x;
      assert s[1..][i - 1] == x;
    }
  }

  lemma LastStep(s: seq<Nonce>, x: Nonce, n: nat)
    ensures var w := Last(s, n) + [x]; Last(s + [x], n) == if |w| > n then w[1..] else w
  {
  }

  /** What a call does to the window `w` of a peer. */
  function Slid(w: seq<Nonce>, peer: Peer, c: Call, n: nat): seq<Nonce> {
    if c.peer != peer || c.nonce in w then w
    else if |w| + 1 > n then (w + [c.nonce])[1..]
    else w + [c.nonce]
  }

  /** The window of a peer after a history of calls. */
  function Window(calls: seq<Call>, peer: Peer, n: nat): seq<Nonce> {
    if calls == [] then []
    else Slid(Window(calls[..|calls| - 1], peer, n), peer, calls[|calls| - 1], n)
  }

  lemma WindowStep(calls: seq<Call>, c: Call, peer: Peer, n: nat)
    ensures Window(calls + [c], peer, n) == Slid(Window(calls, peer, n), peer, c, n)
  {
    assert (calls + [c])[..|calls|] == calls;
  }

  /** It holds the last `n` accepted nonces, each once. */
  lemma {:induction false} WindowIsLastAccepted(calls: seq<Call>, peer: Peer, n: nat)
    ensures Window(calls, peer, n) == Last(Accepted(calls, |calls|, peer, n), n)
    ensures NoDup(Window(calls, peer, n)) && |Window(calls, peer, n)| <= n
  {
    if calls != [] {
      var k: nat := |calls| - 1;
      var before, c := calls[..k], calls[k];
      WindowIsLastAccepted(before, peer, n);
      assert before + [c] == calls;
      AcceptedPrefix(before, [c], k, peer, n);
      LastStep(Accepted(before, k, peer, n), c.nonce, n);
      RecentIffInLast(Accepted(before, k, peer, n), c.nonce, n);
    }
    AcceptedSpaced(calls, |calls|, peer, n);
    WindowNoDup(Accepted(calls, |calls|, peer, n), n);
  }

  lemma AnswerIsAcceptance(calls: seq<Call>, c: Call, n: nat)
    ensures AcceptedAt(calls + [c], |calls|, n) <==> c.nonce !in Window(calls, c.peer, n)
  {
    AcceptedPrefix(calls, [c], |calls|, c.peer, n);
    WindowIsLastAccepted(calls, c.peer, n);
    RecentIffInLast(Accepted(calls, |calls|, c.peer, n), c.nonce, n);
  }

  lemma SameMembers(calls: seq<Call>, c: Call, n: nat)
    ensures var w := Window(calls, c.peer, n);
      var w' := w + [c.nonce];
      c.nonce in w || (Members(w) + {c.nonce} == Members(w') && Members(w'[1..]) == Members(w') - {w'[0]})
  {
    var w := Window(calls, c.peer, n);
    WindowIsLastAccepted(calls, c.peer, n);
    if c.nonce !in w {
      DropOldest(w + [c.nonce]);
    }
  }

  class ReplayWindow {
    const maxSeen: int
    var seenList: map<Peer, seq<Nonce>>
    var seenSet: map<Peer, set<Nonce>>
    ghost var calls: seq<Call>

    ghost function Capacity(): nat { if maxSeen < 0 then 0 else maxSeen }

    /** The nonces that count as seen for a peer. */
    ghost function Held(peer: Peer): seq<Nonce>
      reads this
    {
      Window(calls, peer, Capacity())
    }

    function ListOf(peer: Peer): seq<Nonce>
      reads this
    {
      if peer in seenList then seenList[peer] else []
    }

    function SetOf(peer: Peer): set<Nonce>
      reads this
    {
      if peer in seenSet then seenSet[peer] else {}
    }

    ghost predicate Valid()
      reads this
    {
      forall p :: ListOf(p) == Held(p) && SetOf(p) == Members(Held(p))
    }

    constructor (maxSeen: int := 4096)
      ensures Valid() && calls == [] && this.maxSeen == maxSeen
    {
      this.maxSeen := maxSeen;
      seenList, seenSet, calls := map[], map[], [];
    }

    /** `seen`: true exactly for the nonces in the window, which is that of the call history. */
    method Seen(peer: Peer, nonce: Nonce) returns (r: bool)
      requires Valid()
      modifies this
      ensures Valid() && calls == old(calls) + [Call(peer, nonce)]
      ensures r <==> nonce in old(Held(peer))
      ensures r == !AcceptedAt(calls, |calls| - 1, Capacity())
      ensures r ==> seenList == old(seenList) && seenSet == old(seenSet)
      ensures forall p :: p != peer || r ==> Held(p) == old(Held(p))
    {
      ghost var now, n := Call(peer, nonce), Capacity();
      ghost var was := calls;
      forall p ensures Window(was + [now], p, n) == Slid(Held(p), p, now, n) {
        WindowStep(was, now, p, n);
      }
      AnswerIsAcceptance(was, now, n);
      var s := SetOf(peer);
      assert nonce in s <==> nonce in Held(peer);
      calls := was + [now];
      if nonce in s {
        return true;
      }
      var list;
      list, s := Slide(ListOf(peer), s, nonce, was, peer);
      seenList, seenSet := seenList[peer := list], seenSet[peer := s];
      return false;
    }

    /** A nonce joins the list and the set, and the oldest leaves both once there are too many. */
    method Slide(list: seq<Nonce>, s: set<Nonce>, nonce: Nonce, ghost was: seq<Call>, ghost peer: Peer)
        returns (list': seq<Nonce>, s': set<Nonce>)
      requires list == Window(was, peer, Capacity()) && s == Members(list) && nonce !in list
      ensures list' == Slid(list, peer, Call(peer, nonce), Capacity()) && s' == Members(list')
    {
      SameMembers(was, Call(peer, nonce), Capacity());
      list', s' := list + [nonce], s + {nonce};
      if |list'| > maxSeen {
        s' := s' - {list'[0]};
        list' := list'[1..];
      }
    }
  }

  // ------------------------------------------------------------ validating a message

  datatype Key = Key(b64: string)

  /** An envelope; a peer id that is not a string is `None`. */
  datatype Envelope = Envelope(version: int, sender: Option<Peer>, recipient: Option<Peer>, nonce: Nonce, body: string)

  datatype Check = Version | PeerIds | Sender | Recipient | Contact | HasNonce | Signature | Replay

  /** What a validation is told: what to expect, whom the node knows, and the signature check of the core. */
  datatype Context = Context(
    expectedFrom: Option<Peer>,
    expectedTo: Option<Peer>,
    contacts: map<Peer, Key>,
    verify: (Envelope, Key) -> bool)

  const PROTOCOL_VERSION := 1

  /**
   `_validate_message`: the first check that fails is the one reported, and the message passes
   exactly when none does; one that fails before the replay check leaves the window as it was, and
   any other is one call of `seen`.  An expectation that is absent or empty is not checked.
   */
  method Validate(window: ReplayWindow, msg: Envelope, ctx: Context) returns (failed: Option<Check>)
    requires window.Valid()
    modifies window
    ensures window.Valid()
    ensures failed == Some(Version) <==> msg.version != 1
    ensures failed == Some(PeerIds) <==> msg.version == 1 && (msg.sender.None? || msg.recipient.None?)
    ensures var ids := msg.version == 1 && msg.sender.Some? && msg.recipient.Some?;
      && (failed == Some(Sender) <==>
        ids && ctx.expectedFrom.Some? && ctx.expectedFrom.value.id != "" && ctx.expectedFrom != msg.sender)
      && var from := ids &&
        (ctx.expectedFrom.None? || ctx.expectedFrom.value.id == "" || ctx.expectedFrom == msg.sender);
      && (failed == Some(Recipient) <==>
        from && ctx.expectedTo.Some? && ctx.expectedTo.value.id != "" && ctx.expectedTo != msg.recipient)
      && var to := from &&
        (ctx.expectedTo.None? || ctx.expectedTo.value.id == "" || ctx.expectedTo == msg.recipient);
      && (failed == Some(Contact) <==> to && msg.sender.value !in ctx.contacts)
      && var known := to && msg.sender.value in ctx.contacts;
      && (failed == Some(HasNonce) <==> known && msg.nonce.text == "")
      && (failed == Some(Signature) <==>
        known && msg.nonce.text != "" && !ctx.verify(msg, ctx.contacts[msg.sender.value]))
      && var signed := known && msg.nonce.text != "" && ctx.verify(msg, ctx.contacts[msg.sender.value]);
      && (failed == Some(Replay) <==> signed && msg.nonce in old(window.Held(msg.sender.value)))
      && (failed == None <==> signed && msg.nonce !in old(window.Held(msg.sender.value)))
    ensures failed.Some? ==> window.seenList == old(window.seenList) && window.seenSet == old(window.seenSet)
    ensures failed.Some? && failed.value != Replay ==> window.calls == old(window.calls)
    ensures failed.None? || failed.value == Replay ==>
      msg.sender.Some? && window.calls == old(window.calls) + [Call(msg.sender.value, msg.nonce)]
    ensures failed.None? ==> AcceptedAt(window.calls, |window.calls| - 1, window.Capacity())
  {
    if msg.version != PROTOCOL_VERSION {
      return Some(Version);
    }
    if msg.sender.None? || msg.recipient.None? {
      return Some(PeerIds);
    }
    var from, to := msg.sender.value, msg.recipient.value;
    if ctx.expectedFrom.Some? && ctx.expectedFrom.value.id != "" && from != ctx.expectedFrom.value {
      return Some(Sender);
    }
    if ctx.expectedTo.Some? && ctx.expectedTo.value.id != "" && to != ctx.expectedTo.value {
      return Some(Recipient);
    }
    if from !in ctx.contacts {
      return Some(Contact);
    }
    if msg.nonce.text == "" {
      return Some(HasNonce);
    }
    if !ctx.verify(msg, ctx.contacts[from]) {
      return Some(Signature);
    }
    var again := window.Seen(from, msg.nonce);
    return if again then Some(Replay) else None;
  }
}
