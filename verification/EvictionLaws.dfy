/** What a disconnect achieves on the wire, when, and what becomes of messages, over every interleaving. */
module EvictionLaws {
  import opened Wrappers
  import opened Addresses
  import opened Session
  import opened Wire
  import opened WireLaws

  predicate Dials(l: Label, a: string) { l.DialLock? && CanonicalAddress(l.raw) == Some(a) }

  predicate Disconnects(l: Label, a: string) { l.DisconnectLock? && CanonicalAddress(l.raw) == Some(a) }

  predicate NoDials(labels: seq<Label>, a: string) { forall i :: 0 <= i < |labels| ==> !Dials(labels[i], a) }

  predicate NoDisconnects(labels: seq<Label>, a: string) { forall i :: 0 <= i < |labels| ==> !Disconnects(labels[i], a) }

  // ---- a disconnect is final until the next dial ----

  lemma StepKeepsOut(s: Wire, net: Resolver, l: Label, a: string)
    requires Enabled(s, l) && a !in s.authorized && !Dials(l, a)
    ensures a !in Apply(s, net, l).authorized
  {
    hide CanonicalAddress, IsValidCid;
  }

  lemma {:induction false} StaysOut(net: Resolver, s: Wire, labels: seq<Label>, a: string)
    requires Runs(net, s, labels) && a !in s.authorized && NoDials(labels, a)
    ensures a !in After(net, s, labels).authorized
    decreases |labels|
  {
    hide Apply, Enabled, Dials;
    if labels != [] {
      StepKeepsOut(s, net, labels[0], a);
      StaysOut(net, Apply(s, net, labels[0]), labels[1..], a);
    }
  }

  /** Every disconnect of `a` still on its way stands among the first `k` queue entries. */
  predicate Ahead(s: Wire, a: string, k: nat) {
    s.surface != Sending(a) && forall i :: k <= i < |s.queue| ==> s.queue[i] != Evict(a)
  }

  function Receives(labels: seq<Label>): nat {
    if labels == [] then 0 else (if labels[0].Receive? then 1 else 0) + Receives(labels[1..])
  }

  lemma StepAhead(s: Wire, net: Resolver, l: Label, a: string, k: nat)
    requires Enabled(s, l) && Ahead(s, a, k) && !Disconnects(l, a)
    ensures Ahead(Apply(s, net, l), a, if l.Receive? && k > 0 then k - 1 else k)
  {
    hide CanonicalAddress, IsValidCid;
  }

  lemma {:induction false} StaysAhead(net: Resolver, s: Wire, labels: seq<Label>, a: string, k: nat)
    requires Runs(net, s, labels) && Ahead(s, a, k) && NoDisconnects(labels, a)
    ensures Ahead(After(net, s, labels), a, if Receives(labels) < k then k - Receives(labels) else 0)
    decreases |labels|
  {
    hide Apply, Enabled, Disconnects, Ahead;
    if labels != [] {
      StepAhead(s, net, labels[0], a, k);
      StaysAhead(net, Apply(s, net, labels[0]), labels[1..], a, if labels[0].Receive? && k > 0 then k - 1 else k);
    }
  }

  function SentBy(s: Wire, l: Label): seq<Cmd> {
    match l
    case DisconnectSend => if s.surface.Sending? then [Evict(s.surface.address)] else []
    case SendOther => [Other]
    case _ => []
  }

  /** What is sent to the swarm task along some steps. */
  function Sends(net: Resolver, s: Wire, labels: seq<Label>): seq<Cmd>
    requires Runs(net, s, labels)
    decreases |labels|
  {
    if labels == [] then [] else SentBy(s, labels[0]) + Sends(net, Apply(s, net, labels[0]), labels[1..])
  }

  lemma StepQueues(s: Wire, net: Resolver, l: Label)
    requires Enabled(s, l)
    ensures Apply(s, net, l).queue == (if l.Receive? then s.queue[1..] else s.queue) + SentBy(s, l)
    ensures l.Receive? ==> s.queue != [] && SentBy(s, l) == []
  {
    hide CanonicalAddress, IsValidCid, Live, Closing;
    if l.Receive? {
      hide Identified;
    } else if l.IdentifyRead? {
      hide Received;
    } else {
      hide Received, Identified;
    }
  }

  /** The queue is what it was and what was sent since, less what the loop has received from its front. */
  lemma {:induction false} QueueIsFifo(net: Resolver, s: Wire, labels: seq<Label>)
    requires Runs(net, s, labels)
    ensures Receives(labels) <= |s.queue| + |Sends(net, s, labels)|
    ensures After(net, s, labels).queue == (s.queue + Sends(net, s, labels))[Receives(labels)..]
    decreases |labels|
  {
    hide Apply, Enabled, SentBy;
    if labels == [] {
      assert s.queue + [] == s.queue;
    } else {
      var l, t := labels[0], Apply(s, net, labels[0]);
      StepQueues(s, net, l);
      QueueIsFifo(net, t, labels[1..]);
      var rest := Sends(net, t, labels[1..]);
      if l.Receive? {
        TakenFirst(s.queue, SentBy(s, l), rest, t.queue);
        DropTwice(s.queue + rest, Receives(labels[1..]));
      } else {
        assert s.queue + (SentBy(s, l) + rest) == t.queue + rest;
      }
    }
  }

  lemma TakenFirst(q: seq<Cmd>, sent: seq<Cmd>, rest: seq<Cmd>, left: seq<Cmd>)
    requires q != [] && sent == [] && left == q[1..] + sent
    ensures sent + rest == rest && (q + rest)[1..] == left + rest
  {
  }

  lemma DropTwice(q: seq<Cmd>, n: nat)
    requires q != [] && n < |q|
    ensures q[1..][n..] == q[n + 1..]
  {
  }

  /** An address disconnected and not dialed since has no live ungated peer, except while a disconnect of
      it is still on its way. */
  lemma EvictedStaysOff(net: Resolver, s: Wire, labels: seq<Label>, a: string, p: Peer)
    requires Inv(s, net) && Runs(net, s, labels) && a !in s.authorized && NoDials(labels, a)
    requires net(p) == Some(a)
    ensures var t := After(net, s, labels); Live(t, p) > 0 && !Gated(t, p) ==> Pending(t, a)
  {
    hide After, Runs, Gated, Pending, NoDials;
    RunsKeepInv(net, s, labels);
    StaysOut(net, s, labels, a);
    assert PeerInv(After(net, s, labels), net, p);
  }

  /** Some disconnect of `a` stands among the first `k` queue entries. */
  ghost predicate WithinFirst(s: Wire, a: string, k: nat) {
    exists i :: 0 <= i < k && i < |s.queue| && s.queue[i] == Evict(a)
  }

  /** Not gated and connected or recorded, or about to be. */
  predicate AtLarge(s: Wire, p: Peer, a: string) {
    (!Gated(s, p) && (Live(s, p) > 0 || p in s.peerAddr)) || s.task == Admitting(p, a)
  }

  lemma StepBringsNobody(s: Wire, net: Resolver, l: Label, p: Peer, a: string)
    requires Enabled(s, l) && TaskInv(s, net) && PeerInv(s, net, p) && net(p) == Some(a) && a !in s.authorized
    ensures AtLarge(Apply(s, net, l), p, a) ==> AtLarge(s, p, a)
    ensures l.Receive? && s.queue[0] == Evict(a) ==> !AtLarge(Apply(s, net, l), p, a)
  {
    hide CanonicalAddress, IsValidCid, Live, Closing, Entitled, CloseInv;
    StepCounts(s, net, l, p);
  }

  lemma StepKeepsWithin(s: Wire, net: Resolver, l: Label, a: string, k: nat)
    requires Enabled(s, l) && WithinFirst(s, a, k) && !(l.Receive? && s.queue[0] == Evict(a))
    ensures WithinFirst(Apply(s, net, l), a, if l.Receive? && k > 0 then k - 1 else k)
  {
    hide CanonicalAddress, IsValidCid;
    var t := Apply(s, net, l);
    var i :| 0 <= i < k && i < |s.queue| && s.queue[i] == Evict(a);
    if l.Receive? {
      assert t.queue == s.queue[1..];
      assert t.queue[i - 1] == Evict(a);
    } else {
      assert t.queue[i] == Evict(a);
    }
  }

  lemma {:induction false} StaysWithin(net: Resolver, s: Wire, labels: seq<Label>, a: string, p: Peer, k: nat)
    requires Inv(s, net) && Runs(net, s, labels) && a !in s.authorized && net(p) == Some(a) && NoDials(labels, a)
    requires AtLarge(s, p, a) ==> WithinFirst(s, a, k)
    ensures AtLarge(After(net, s, labels), p, a)
            ==> WithinFirst(After(net, s, labels), a, if Receives(labels) < k then k - Receives(labels) else 0)
    decreases |labels|
  {
    hide Apply, Enabled, Dials, AtLarge, WithinFirst;
    if labels != [] {
      var l, t := labels[0], Apply(s, net, labels[0]);
      assert PeerInv(s, net, p);
      StepKeepsInv(s, net, l);
      StepKeepsOut(s, net, l, a);
      StepBringsNobody(s, net, l, p, a);
      var next := if l.Receive? && k > 0 then k - 1 else k;
      if AtLarge(t, p, a) {
        StepKeepsWithin(s, net, l, a, k);
      }
      StaysWithin(net, t, labels[1..], a, p, next);
    }
  }

  /** A disconnect that has been sent takes effect, whatever else happens short of a dial, once the loop has
      received as many commands as were then queued: no live peer of the address is ungated from there on. */
  lemma EvictionTakesHold(net: Resolver, s: Wire, labels: seq<Label>, a: string, p: Peer)
    requires Inv(s, net) && Runs(net, s, labels) && a !in s.authorized && s.surface != Sending(a)
    requires NoDials(labels, a) && Receives(labels) >= |s.queue|
    requires net(p) == Some(a)
    ensures var t := After(net, s, labels); Live(t, p) > 0 ==> Gated(t, p)
  {
    hide After, Runs, NoDials, Live, Gated;
    assert PeerInv(s, net, p);
    if AtLarge(s, p, a) {
      AtLargeIsQueued(s, net, p, a);
    }
    StaysWithin(net, s, labels, a, p, |s.queue|);
  }

  lemma AtLargeIsQueued(s: Wire, net: Resolver, p: Peer, a: string)
    requires TaskInv(s, net) && PeerInv(s, net, p) && net(p) == Some(a) && a !in s.authorized && s.surface != Sending(a)
    requires AtLarge(s, p, a)
    ensures WithinFirst(s, a, |s.queue|)
  {
    assert Evict(a) in s.queue;
    var i :| 0 <= i < |s.queue| && s.queue[i] == Evict(a);
  }

  // ---- and its connections ----

  /** A received disconnect asks every connection then open, of every peer recorded under the address, to
      close, and gates the peer. */
  lemma ReceivedHangsUp(s: Wire, net: Resolver, a: string, p: Peer)
    requires s.task == Top && s.queue != [] && s.queue[0] == Evict(a) && p in Targets(s, a)
    ensures var t := Apply(s, net, Receive); Closing(t, p) == Live(t, p) == Live(s, p) && Gated(t, p)
  {
    StepCounts(s, net, Receive, p);
  }

  /** How many of `p`'s connections have not been asked to close, given how many had not been before some
      steps, while `p`'s address is not authorized and no disconnect of it is on its way: each new
      connection is one more; it may go of itself; an `identify` or a sweep of `p` asks all of them. */
  function Loose(labels: seq<Label>, p: Peer, n: int): int
    decreases |labels|
  {
    if labels == [] then n
    else
      Loose(labels[1..], p,
        match labels[0]
        case Established(q) => if q == p then n + 1 else n
        case ClosedOne(q, wasClosing) => if q == p && !wasClosing then n - 1 else n
        case ClosedLast(q) => if q == p then 0 else n
        case IdentifyRead(q, _) => if q == p then 0 else n
        case Sweep(q) => if q == p then 0 else n
        case _ => n)
  }

  lemma StepLoose(s: Wire, net: Resolver, l: Label, p: Peer, a: string)
    requires Enabled(s, l) && PeerInv(s, net, p) && a !in s.authorized && net(p) == Some(a) && Ahead(s, a, 0)
    ensures Live(Apply(s, net, l), p) - Closing(Apply(s, net, l), p) == Loose([l], p, Live(s, p) - Closing(s, p))
  {
    hide Live, Closing, Apply;
    StepCounts(s, net, l, p);
    assert [l][1..] == [];
  }

  lemma OneLoose(labels: seq<Label>, p: Peer, n: int)
    requires labels != []
    ensures Loose(labels, p, n) == Loose(labels[1..], p, Loose([labels[0]], p, n))
  {
    assert [labels[0]][1..] == [];
  }

  lemma {:induction false} LooseConnections(net: Resolver, s: Wire, labels: seq<Label>, a: string, p: Peer)
    requires Inv(s, net) && Runs(net, s, labels) && a !in s.authorized && net(p) == Some(a) && Ahead(s, a, 0)
    requires NoDials(labels, a) && NoDisconnects(labels, a)
    ensures var t := After(net, s, labels);
            Live(t, p) - Closing(t, p) == Loose(labels, p, Live(s, p) - Closing(s, p))
    decreases |labels|
  {
    hide Apply, Enabled, Dials, Disconnects, Ahead, Live, Closing, Loose;
    if labels == [] {
      NoneLoose(p, Live(s, p) - Closing(s, p));
    } else {
      var l, t := labels[0], Apply(s, net, labels[0]);
      StepKeepsInv(s, net, l);
      assert PeerInv(s, net, p);
      StepKeepsOut(s, net, l, a);
      StepAhead(s, net, l, a, 0);
      StepLoose(s, net, l, p, a);
      OneLoose(labels, p, Live(s, p) - Closing(s, p));
      LooseConnections(net, t, labels[1..], a, p);
    }
  }

  lemma NoneLoose(p: Peer, n: int)
    ensures Loose([], p, n) == n
  {
  }

  /** After the last disconnect of an address is received, until its next dial or disconnect: a peer it reached stays
      gated while it has connections, and all of them are being closed if and only if the connections
      established since were closed, identified or swept. */
  lemma EvictionHangsUpExactly(net: Resolver, s: Wire, labels: seq<Label>, a: string, p: Peer)
    requires Inv(s, net) && s.task == Top && a !in s.authorized && s.surface != Sending(a)
    requires s.queue != [] && s.queue[0] == Evict(a) && Evict(a) !in s.queue[1..] && p in Targets(s, a)
    requires Runs(net, Apply(s, net, Receive), labels) && NoDials(labels, a) && NoDisconnects(labels, a)
    ensures var t := After(net, Apply(s, net, Receive), labels);
            && (Live(t, p) > 0 ==> Gated(t, p))
            && (Closing(t, p) == Live(t, p) <==> Loose(labels, p, 0) == 0)
  {
    hide Runs, After, NoDials, NoDisconnects, Loose, Gated, Live, Closing;
    var u := Apply(s, net, Receive);
    assert PeerInv(s, net, p);
    ReceivedHangsUp(s, net, a, p);
    StepKeepsInv(s, net, Receive);
    StepKeepsOutOnReceive(s, net, a);
    LooseConnections(net, u, labels, a, p);
    EvictedStaysOff(net, u, labels, a, p);
    StaysAhead(net, u, labels, a, 0);
  }

  lemma StepKeepsOutOnReceive(s: Wire, net: Resolver, a: string)
    requires Enabled(s, Receive) && a !in s.authorized && s.surface != Sending(a) && Evict(a) !in s.queue[1..]
    ensures a !in Apply(s, net, Receive).authorized && Ahead(Apply(s, net, Receive), a, 0)
  {
  }

  lemma {:induction false} LooseFallsWithoutNew(labels: seq<Label>, p: Peer, n: int)
    requires n <= 0 && forall i :: 0 <= i < |labels| ==> labels[i] != Established(p)
    ensures Loose(labels, p, n) <= 0
    decreases |labels|
  {
    if labels != [] {
      var first := [labels[0]];
      assert first[1..] == [];
      OneLoose(labels, p, n);
      LooseFallsWithoutNew(labels[1..], p, Loose(first, p, n));
    }
  }

  /** In particular, with no new connection of the peer every one it has is being closed. */
  lemma NothingNewNothingLoose(net: Resolver, s: Wire, labels: seq<Label>, a: string, p: Peer)
    requires Inv(s, net) && s.task == Top && a !in s.authorized && s.surface != Sending(a)
    requires s.queue != [] && s.queue[0] == Evict(a) && Evict(a) !in s.queue[1..] && p in Targets(s, a)
    requires Runs(net, Apply(s, net, Receive), labels) && NoDials(labels, a) && NoDisconnects(labels, a)
    requires forall i :: 0 <= i < |labels| ==> labels[i] != Established(p)
    ensures var t := After(net, Apply(s, net, Receive), labels); Closing(t, p) == Live(t, p)
  {
    hide Runs, After, NoDials, NoDisconnects, Loose, Live, Closing, Gated;
    var u := Apply(s, net, Receive);
    ReceivedHangsUp(s, net, a, p);
    StepKeepsInv(s, net, Receive);
    RunsKeepInv(net, u, labels);
    StepKeepsOutOnReceive(s, net, a);
    assert PeerInv(s, net, p);
    LooseConnections(net, u, labels, a, p);
    LooseFallsWithoutNew(labels, p, 0);
    assert PeerInv(After(net, u, labels), net, p);
  }

  /** A peer evicted with a connection open. */
  predicate AboutToGo(s: Wire, net: Resolver, p: Peer, a: string) {
    && s.task == Top && s.surface == Idle && s.queue == [] && a in s.authorized
    && p in s.peerAddr && s.peerAddr[p] == a && net(p) == Some(a)
    && p !in s.unidentified && Live(s, p) == 1 && Closing(s, p) == 0
  }

  /** The peer is disconnected, connects once more before its old connection is gone, and loses the old one. */
  function Reconnect(p: Peer, a: string): seq<Label> {
    [DisconnectLock(a)] + ([DisconnectSend] + ([Receive] + ([Established(p)] + ([ClosedOne(p, true)] + []))))
  }

  /** Eviction is not always the end of a peer's connections: the new one is open and nothing has asked it to
      close, and since the peer is recorded, no sweep will; only its `identify` or the peer can end it. */
  lemma ReconnectedIsNotHungUp(net: Resolver, s: Wire, p: Peer, a: string)
    requires AboutToGo(s, net, p, a) && IsCanonical(a)
    ensures Runs(net, s, Reconnect(p, a))
    ensures var t := After(net, s, Reconnect(p, a));
            && t.task == Top && a !in t.authorized && !Pending(t, a)
            && Live(t, p) == 1 && Closing(t, p) == 0 && Gated(t, p) && p in t.peerAddr && p !in t.unidentified
  {
    hide CanonicalAddress, IsCanonical, Runs, After;
    CanonicalFixpoint(a);
    var s2 := Disconnected(net, s, a);
    var tail := [Receive] + ([Established(p)] + ([ClosedOne(p, true)] + []));
    HungUpThenBack(net, s2, p, a);
    Prepend(net, Apply(s, net, DisconnectLock(a)), DisconnectSend, tail);
    Prepend(net, s, DisconnectLock(a), [DisconnectSend] + tail);
  }

  function Disconnected(net: Resolver, s: Wire, a: string): (t: Wire)
    requires s.surface == Idle && CanonicalAddress(a) == Some(a)
    ensures t == s.(authorized := s.authorized - {a}, connected := s.connected - {a}, queue := s.queue + [Evict(a)])
  {
    Apply(Apply(s, net, DisconnectLock(a)), net, DisconnectSend)
  }

  lemma HungUpThenBack(net: Resolver, s: Wire, p: Peer, a: string)
    requires s.task == Top && s.surface == Idle && s.queue == [Evict(a)] && a !in s.authorized
    requires p in s.peerAddr && s.peerAddr[p] == a && p !in s.unidentified && Live(s, p) == 1 && Closing(s, p) == 0
    ensures var tail := [Receive] + ([Established(p)] + ([ClosedOne(p, true)] + []));
            && Runs(net, s, tail)
            && var t := After(net, s, tail);
               && t.task == Top && a !in t.authorized && !Pending(t, a)
               && Live(t, p) == 1 && Closing(t, p) == 0 && Gated(t, p) && p in t.peerAddr && p !in t.unidentified
  {
    hide Runs, After, Live, Closing;
    var s1 := Apply(s, net, Receive);
    StepCounts(s, net, Receive, p);
    var s2 := Apply(s1, net, Established(p));
    StepCounts(s1, net, Established(p), p);
    var s3 := Apply(s2, net, ClosedOne(p, true));
    StepCounts(s2, net, ClosedOne(p, true), p);
    Arrived(net, s3);
    Prepend(net, s2, ClosedOne(p, true), []);
    Prepend(net, s1, Established(p), [ClosedOne(p, true)] + []);
    Prepend(net, s, Receive, [Established(p)] + ([ClosedOne(p, true)] + []));
  }

  /** A peer dialed, connected and admitted. */
  function Admission(p: Peer, a: string): seq<Label> {
    [DialLock(a)] + ([Established(p)] + ([IdentifyRead(p, true)] + ([AdmitLocal] + ([RecordConnected] + []))))
  }

  lemma AdmissionLeads(net: Resolver, p: Peer, a: string)
    requires net(p) == Some(a) && IsCanonical(a)
    ensures Runs(net, START, Admission(p, a)) && AboutToGo(After(net, START, Admission(p, a)), net, p, a)
  {
    hide CanonicalAddress, IsCanonical, Runs, After, Apply;
    CanonicalFixpoint(a);
    RaceStates(net, p, a);
    RaceEnabled(net, p, a);
    var s1 := Apply(START, net, DialLock(a));
    var s2 := Apply(s1, net, Established(p));
    var s3 := RacedTo(net, p, a);
    AdmissionEnds(net, p, a);
    Prepend(net, s2, IdentifyRead(p, true), [AdmitLocal] + ([RecordConnected] + []));
    Prepend(net, s1, Established(p), [IdentifyRead(p, true)] + ([AdmitLocal] + ([RecordConnected] + [])));
    Prepend(net, START, DialLock(a), [Established(p)] + ([IdentifyRead(p, true)] + ([AdmitLocal] + ([RecordConnected] + []))));
  }

  lemma AdmissionEnds(net: Resolver, p: Peer, a: string)
    requires net(p) == Some(a) && CanonicalAddress(a) == Some(a)
    ensures var tail := [AdmitLocal] + ([RecordConnected] + []);
            Runs(net, RacedTo(net, p, a), tail) && AboutToGo(After(net, RacedTo(net, p, a), tail), net, p, a)
  {
    hide CanonicalAddress, Runs, After;
    var s3 := RacedTo(net, p, a);
    RaceStates(net, p, a);
    var s4 := Apply(s3, net, AdmitLocal);
    var s5 := Apply(s4, net, RecordConnected);
    Arrived(net, s5);
    Prepend(net, s4, RecordConnected, []);
    Prepend(net, s3, AdmitLocal, [RecordConnected] + []);
  }

  lemma {:induction false} RunsJoin(net: Resolver, s: Wire, first: seq<Label>, second: seq<Label>)
    requires Runs(net, s, first) && Runs(net, After(net, s, first), second)
    ensures Runs(net, s, first + second) && After(net, s, first + second) == After(net, After(net, s, first), second)
    decreases |first|
  {
    hide Apply, Enabled;
    if first == [] {
      assert first + second == second;
    } else {
      RunsJoin(net, Apply(s, net, first[0]), first[1..], second);
      assert (first + second)[1..] == first[1..] + second;
    }
  }

  /** And it happens from the start, to any peer and any address: dialed, admitted, disconnected, and back
      before its old connection is gone. */
  lemma ReconnectedFromTheStart(net: Resolver, p: Peer, a: string)
    requires net(p) == Some(a) && IsCanonical(a)
    ensures Runs(net, START, Admission(p, a) + Reconnect(p, a))
    ensures var t := After(net, START, Admission(p, a) + Reconnect(p, a));
            && t.task == Top && a !in t.authorized && !Pending(t, a)
            && Live(t, p) == 1 && Closing(t, p) == 0 && Gated(t, p) && p in t.peerAddr && p !in t.unidentified
  {
    hide Runs, After, IsCanonical, Admission, Reconnect, AboutToGo;
    AdmissionLeads(net, p, a);
    ReconnectedIsNotHungUp(net, After(net, START, Admission(p, a)), p, a);
    RunsJoin(net, START, Admission(p, a), Reconnect(p, a));
  }

  // ---- which messages get through ----

  /** A message on the group's own topic, from a recorded peer whose address is authorized now, carrying a
      well-formed CID: `m` is that CID under that address. */
  predicate Passes(s: Wire, l: Label, m: MeshMessage) {
    && l.MessageRead? && l.ours && l.payload == Some(m.data) && IsValidCid(m.data)
    && l.source in s.peerAddr && s.peerAddr[l.source] == m.from && m.from in s.authorized
  }

  /** Exactly those messages are taken up; any other leaves everything as it was. */
  lemma MessageReadExactly(s: Wire, net: Resolver, l: Label)
    requires Enabled(s, l) && l.MessageRead?
    ensures forall m :: Apply(s, net, l).task == Accepting(m) <==> Passes(s, l, m)
    ensures (forall m :: !Passes(s, l, m)) ==> Apply(s, net, l) == s
    ensures forall m :: Passes(s, l, m) ==> Apply(s, net, l) == s.(task := Accepting(m))
  {
    hide IsValidCid;
  }

  /** The messages some steps take up, in order. */
  ghost function Taken(net: Resolver, s: Wire, labels: seq<Label>): seq<MeshMessage>
    requires Runs(net, s, labels)
    decreases |labels|
  {
    if labels == [] then []
    else
      var rest := Taken(net, Apply(s, net, labels[0]), labels[1..]);
      if m :| Passes(s, labels[0], m) then [m] + rest else rest
  }

  function Held(s: Wire): seq<MeshMessage> { if s.task.Accepting? then [s.task.message] else [] }

  lemma PassesOne(s: Wire, l: Label, m: MeshMessage, n: MeshMessage)
    requires Passes(s, l, m) && Passes(s, l, n)
    ensures m == n
  {
    hide IsValidCid;
  }

  lemma StepOffers(s: Wire, net: Resolver, l: Label)
    requires Enabled(s, l)
    ensures forall m :: Passes(s, l, m) ==> Apply(s, net, l).offered + Held(Apply(s, net, l)) == s.offered + Held(s) + [m]
    ensures (forall m :: !Passes(s, l, m)) ==> Apply(s, net, l).offered + Held(Apply(s, net, l)) == s.offered + Held(s)
  {
    hide IsValidCid, Live, Closing;
    if l.MessageRead? {
      hide Apply;
      MessageReadExactly(s, net, l);
    } else if !l.PushInbox? && !l.Drain? {
      hide Apply;
      OthersKeepMessages(s, net, l);
    }
  }

  /** In every run, what has been offered to the inbox, with the one message on its way to it, is exactly what
      the reads took up, in order: each once, and nothing else. */
  lemma {:induction false} OfferedIsTaken(net: Resolver, s: Wire, labels: seq<Label>)
    requires Runs(net, s, labels)
    ensures var t := After(net, s, labels); t.offered + Held(t) == s.offered + Held(s) + Taken(net, s, labels)
    decreases |labels|
  {
    hide Apply, Enabled, Passes, Held;
    if labels != [] {
      var l, t := labels[0], Apply(s, net, labels[0]);
      StepOffers(s, net, l);
      OfferedIsTaken(net, t, labels[1..]);
      if m :| Passes(s, l, m) {
        assert s.offered + Held(s) + ([m] + Taken(net, t, labels[1..])) == s.offered + Held(s) + [m] + Taken(net, t, labels[1..]);
      }
    }
  }

  // ---- messages ----

  ghost predicate Attributed(m: MeshMessage, net: Resolver) {
    IsValidCid(m.data) && exists p: Peer :: net(p) == Some(m.from)
  }

  /** The first 1024 of some messages. */
  function FirstOf(ms: seq<MeshMessage>): seq<MeshMessage> { if |ms| <= MAX_INBOX then ms else ms[..MAX_INBOX] }

  ghost predicate CutsInv(s: Wire) {
    && |s.cuts| == |s.drains| + 1 && s.cuts[0] == 0
    && (forall i :: 0 <= i < |s.drains| ==> s.cuts[i] <= s.cuts[i + 1])
    && forall i :: 0 <= i < |s.cuts| ==> s.cuts[i] <= |s.offered|
  }

  /** Each drain returned exactly the first 1024 messages offered since the one before it; the inbox holds
      exactly the first 1024 offered since the last. */
  ghost predicate Buffered(s: Wire) {
    && CutsInv(s)
    && (forall i :: 0 <= i < |s.drains| ==> s.drains[i] == FirstOf(s.offered[s.cuts[i]..s.cuts[i + 1]]))
    && s.inbox == FirstOf(s.offered[s.cuts[|s.drains|]..])
  }

  ghost predicate AllAttributed(s: Wire, net: Resolver) {
    && (s.task.Accepting? ==> Attributed(s.task.message, net))
    && forall i :: 0 <= i < |s.offered| ==> Attributed(s.offered[i], net)
  }

  ghost predicate InboxInv(s: Wire, net: Resolver) { Buffered(s) && AllAttributed(s, net) }

  lemma StepKeepsAttributed(s: Wire, net: Resolver, l: Label)
    requires Enabled(s, l) && Inv(s, net) && AllAttributed(s, net)
    ensures AllAttributed(Apply(s, net, l), net)
  {
    hide CanonicalAddress, IsValidCid, Live, Closing;
    if l.MessageRead? {
      assert PeerInv(s, net, l.source);
    }
  }

  lemma OfferKeepsBuffered(s: Wire, t: Wire, m: MeshMessage)
    requires Buffered(s) && t.offered == s.offered + [m] && t.cuts == s.cuts && t.drains == s.drains
    requires t.inbox == if |s.inbox| < MAX_INBOX then s.inbox + [m] else s.inbox
    ensures Buffered(t)
  {
    forall i | 0 <= i < |s.drains| ensures t.drains[i] == FirstOf(t.offered[t.cuts[i]..t.cuts[i + 1]]) {
      assert t.offered[t.cuts[i]..t.cuts[i + 1]] == s.offered[s.cuts[i]..s.cuts[i + 1]];
    }
    var k := s.cuts[|s.drains|];
    assert t.offered[k..] == s.offered[k..] + [m];
  }

  lemma DrainKeepsBuffered(s: Wire, t: Wire)
    requires Buffered(s) && t.offered == s.offered
    requires t.cuts == s.cuts + [|s.offered|] && t.drains == s.drains + [s.inbox] && t.inbox == []
    ensures Buffered(t)
  {
    var n := |s.drains|;
    forall i | 0 <= i <= n ensures t.cuts[i] <= t.cuts[i + 1] && t.drains[i] == FirstOf(t.offered[t.cuts[i]..t.cuts[i + 1]]) {
      if i == n {
        assert s.offered[s.cuts[n]..|s.offered|] == s.offered[s.cuts[n]..];
      } else {
        assert t.drains[i] == s.drains[i];
      }
    }
    assert t.offered[|s.offered|..] == [];
  }

  lemma StepKeepsBuffered(s: Wire, net: Resolver, l: Label)
    requires Enabled(s, l) && Buffered(s)
    ensures Buffered(Apply(s, net, l))
  {
    hide CanonicalAddress, IsValidCid, Live, Closing;
    if l.PushInbox? {
      hide Buffered;
      OfferKeepsBuffered(s, Apply(s, net, l), s.task.message);
    } else if l.Drain? {
      hide Buffered;
      DrainKeepsBuffered(s, Apply(s, net, l));
    } else {
      BufferUntouched(s, net, l);
    }
  }

  /** Everything but what concerns messages may differ. */
  predicate SameMessages(s: Wire, t: Wire) {
    && t.inbox == s.inbox && t.offered == s.offered && t.cuts == s.cuts && t.drains == s.drains
    && (t.task.Accepting? || s.task.Accepting? ==> t.task == s.task)
  }

  lemma HandlersKeepMessages(s: Wire, net: Resolver, p: Peer, keyMatches: bool)
    requires s.task == Top
    ensures s.queue != [] ==> SameMessages(s, Received(s))
    ensures SameMessages(s, Identified(s, net, p, keyMatches))
  {
  }

  lemma OthersKeepMessages(s: Wire, net: Resolver, l: Label)
    requires Enabled(s, l) && !l.PushInbox? && !l.Drain? && !l.MessageRead?
    ensures SameMessages(s, Apply(s, net, l))
  {
    hide CanonicalAddress, Live, Closing, Received, Identified;
    if l.Receive? {
      HandlersKeepMessages(s, net, 0, true);
    } else if l.IdentifyRead? {
      HandlersKeepMessages(s, net, l.peer, l.keyMatches);
    }
  }

  lemma BufferUntouched(s: Wire, net: Resolver, l: Label)
    requires Enabled(s, l) && !l.PushInbox? && !l.Drain?
    ensures var t := Apply(s, net, l);
            t.inbox == s.inbox && t.offered == s.offered && t.cuts == s.cuts && t.drains == s.drains
  {
    hide IsValidCid, Live, Closing, Received, Identified;
    if !l.MessageRead? {
      hide Apply;
      OthersKeepMessages(s, net, l);
    }
  }

  lemma {:induction false} RunsKeepInbox(net: Resolver, s: Wire, labels: seq<Label>)
    requires Runs(net, s, labels) && Inv(s, net) && InboxInv(s, net)
    ensures InboxInv(After(net, s, labels), net)
    decreases |labels|
  {
    hide Apply, Enabled, Inv, Buffered, AllAttributed;
    if labels != [] {
      StepKeepsInv(s, net, labels[0]);
      StepKeepsBuffered(s, net, labels[0]);
      StepKeepsAttributed(s, net, labels[0]);
      RunsKeepInbox(net, Apply(s, net, labels[0]), labels[1..]);
    }
  }

  lemma StartInbox(net: Resolver)
    ensures InboxInv(START, net)
  {
  }

  /** In every run: each drain hands over exactly the first 1024 messages offered since the drain before it,
      in order, so a message is dropped only when the inbox is full; the inbox is the same for the messages
      since the last drain; and every message offered carries a well-formed CID and an address some peer's
      key resolves to. */
  lemma InboxConserved(net: Resolver, labels: seq<Label>)
    requires Runs(net, START, labels)
    ensures InboxInv(After(net, START, labels), net)
  {
    hide Runs, After, Inv, InboxInv;
    StartInv(net);
    StartInbox(net);
    RunsKeepInbox(net, START, labels);
  }

  function Heard(offered: seq<MeshMessage>, a: string): nat {
    if offered == [] then 0
    else Heard(offered[..|offered| - 1], a) + if offered[|offered| - 1].from == a then 1 else 0
  }

  function InFlight(s: Wire, a: string): nat {
    if s.task.Accepting? && s.task.message.from == a then 1 else 0
  }

  lemma StepHeard(s: Wire, net: Resolver, l: Label, a: string)
    requires Enabled(s, l) && a !in s.authorized
    ensures Heard(Apply(s, net, l).offered, a) + InFlight(Apply(s, net, l), a) == Heard(s.offered, a) + InFlight(s, a)
  {
    hide IsValidCid, Received, Identified, Live, Closing;
    var t := Apply(s, net, l);
    if l.PushInbox? {
      assert t.offered[..|t.offered| - 1] == s.offered;
    } else if !l.MessageRead? && !l.Drain? {
      hide Apply;
      OthersKeepMessages(s, net, l);
    }
  }

  /** From the moment an address is not authorized until it is dialed again, the only message of its that
      can still reach the inbox is one already past its check. */
  lemma {:induction false} NoLateMessages(net: Resolver, s: Wire, labels: seq<Label>, a: string)
    requires Runs(net, s, labels) && a !in s.authorized && NoDials(labels, a)
    ensures var t := After(net, s, labels);
            Heard(t.offered, a) + InFlight(t, a) == Heard(s.offered, a) + InFlight(s, a)
    decreases |labels|
  {
    hide Apply, Enabled, Dials, Heard, InFlight;
    if labels != [] {
      StepKeepsOut(s, net, labels[0], a);
      StepHeard(s, net, labels[0], a);
      NoLateMessages(net, Apply(s, net, labels[0]), labels[1..], a);
    }
  }

  /** An address never dialed is never heard from, in any run. */
  lemma StrangersAreUnheard(net: Resolver, labels: seq<Label>, a: string)
    requires Runs(net, START, labels) && NoDials(labels, a)
    ensures Heard(After(net, START, labels).offered, a) == 0
  {
    hide After, Runs, NoDials;
    NoLateMessages(net, START, labels, a);
  }
}
