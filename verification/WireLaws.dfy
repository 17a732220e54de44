/** What holds of the wire admission protocol over every interleaving of the surface and the swarm task. */
module WireLaws {
  import opened Wrappers
  import opened Addresses
  import opened Session
  import opened Wire

  // ---- the invariant ----

  /** Authorized now, or already condemned: a disconnect for it is queued or about to be sent. */
  predicate Entitled(s: Wire, a: string) { a in s.authorized || Pending(s, a) }

  /** A recorded peer is recorded under its own address and, unless gated, entitled; an unrecorded one with a
      connection is gated. */
  predicate RecordInv(s: Wire, net: Resolver, p: Peer) {
    && (p in s.peerAddr ==>
          && net(p) == Some(s.peerAddr[p]) && p !in s.unidentified
          && (Gated(s, p) || Entitled(s, s.peerAddr[p])))
    && (p !in s.peerAddr && Live(s, p) > 0 ==> Gated(s, p))
  }

  /** A peer that is neither recorded, nor awaiting `identify`, nor being admitted is being closed. */
  predicate CloseInv(s: Wire, p: Peer) {
    && Closing(s, p) <= Live(s, p)
    && (p !in s.peerAddr && p !in s.unidentified && !(s.task.Admitting? && s.task.peer == p) ==> Closing(s, p) == Live(s, p))
  }

  predicate PeerInv(s: Wire, net: Resolver, p: Peer) { RecordInv(s, net, p) && CloseInv(s, p) }

  predicate TaskInv(s: Wire, net: Resolver) {
    match s.task
    case Admitting(p, a) => net(p) == Some(a) && Entitled(s, a) && p !in s.unidentified
    case Recording(a) => a in s.peerAddr.Values
    case _ => true
  }

  /** `connected` lags `peerAddr` only inside the handler of a closed connection. */
  ghost predicate ConnectedInv(s: Wire) {
    forall a :: a in s.connected ==> a in s.peerAddr.Values || s.task == Clearing(a)
  }

  ghost predicate Inv(s: Wire, net: Resolver) {
    TaskInv(s, net) && ConnectedInv(s) && forall p: Peer :: PeerInv(s, net, p)
  }

  /** A peer's connections after a step. */
  function LiveAfter(s: Wire, l: Label, p: Peer): int {
    match l
    case Established(q) => Live(s, p) + if q == p then 1 else 0
    case ClosedOne(q, _) => Live(s, p) - if q == p then 1 else 0
    case ClosedLast(q) => if q == p then 0 else Live(s, p)
    case _ => Live(s, p)
  }

  /** Whether a step asks all of a peer's connections to close. */
  predicate Closes(s: Wire, net: Resolver, l: Label, p: Peer) {
    match l
    case Sweep(q) => q == p
    case Receive => s.queue != [] && s.queue[0].Evict? && p in s.peerAddr && s.peerAddr[p] == s.queue[0].address
    case IdentifyRead(q, keyMatches) => q == p && !(keyMatches && net(p).Some? && net(p).value in s.authorized)
    case _ => false
  }

  function ClosingAfter(s: Wire, net: Resolver, l: Label, p: Peer): int {
    match l
    case ClosedOne(q, wasClosing) => Closing(s, p) - if q == p && wasClosing then 1 else 0
    case ClosedLast(q) => if q == p then 0 else Closing(s, p)
    case _ => if Closes(s, net, l, p) then Live(s, p) else Closing(s, p)
  }

  lemma CloseCounts(s: Wire, peers: set<Peer>, p: Peer)
    ensures Live(Close(s, peers), p) == Live(s, p)
    ensures Closing(Close(s, peers), p) == if p in peers then Live(s, p) else Closing(s, p)
  {
  }

  lemma GateCounts(s: Wire, peers: set<Peer>, p: Peer)
    ensures Live(GatePeers(s, peers), p) == Live(s, p) && Closing(GatePeers(s, peers), p) == Closing(s, p)
  {
  }

  lemma TaskCounts(s: Wire, net: Resolver, l: Label, p: Peer)
    requires Enabled(s, l) && (l.Sweep? || l.Receive? || l.IdentifyRead?)
    ensures Live(Apply(s, net, l), p) == Live(s, p)
    ensures Closing(Apply(s, net, l), p) == if Closes(s, net, l, p) then Live(s, p) else Closing(s, p)
  {
    hide Close, GatePeers;
    match l {
      case Sweep(q) =>
        var t := s.(unidentified := s.unidentified - {q});
        GateCounts(t, {q}, p);
        CloseCounts(GatePeers(t, {q}), {q}, p);
      case Receive =>
        if s.queue[0].Evict? {
          var t, targets := s.(queue := s.queue[1..]), Targets(s, s.queue[0].address);
          GateCounts(t, targets, p);
          CloseCounts(GatePeers(t, targets), targets, p);
        }
      case IdentifyRead(q, _) =>
        var t := s.(unidentified := s.unidentified - {q});
        CloseCounts(t, {q}, p);
        GateCounts(t, {q}, p);
        CloseCounts(GatePeers(t, {q}), {q}, p);
    }
  }

  lemma StepCounts(s: Wire, net: Resolver, l: Label, p: Peer)
    requires Enabled(s, l)
    ensures Live(Apply(s, net, l), p) == LiveAfter(s, l, p)
    ensures Closing(Apply(s, net, l), p) == ClosingAfter(s, net, l, p)
  {
    hide CanonicalAddress, IsValidCid;
    if l.Sweep? || l.Receive? || l.IdentifyRead? {
      hide Apply;
      TaskCounts(s, net, l, p);
    } else {
      hide Close, Identified, Received;
    }
  }

  lemma StepKeepsRecord(s: Wire, net: Resolver, l: Label, p: Peer)
    requires Enabled(s, l) && TaskInv(s, net) && PeerInv(s, net, p)
    ensures RecordInv(Apply(s, net, l), net, p)
  {
    hide CanonicalAddress, IsValidCid, Live, Closing, CloseInv;
    StepCounts(s, net, l, p);
  }

  lemma StepKeepsClosing(s: Wire, net: Resolver, l: Label, p: Peer)
    requires Enabled(s, l) && TaskInv(s, net) && PeerInv(s, net, p)
    ensures CloseInv(Apply(s, net, l), p)
  {
    hide CanonicalAddress, IsValidCid, Live, Closing, Gated, Entitled;
    StepCounts(s, net, l, p);
  }

  lemma StepKeepsPeer(s: Wire, net: Resolver, l: Label, p: Peer)
    requires Enabled(s, l) && TaskInv(s, net) && PeerInv(s, net, p)
    ensures PeerInv(Apply(s, net, l), net, p)
  {
    hide Apply, Enabled, TaskInv, RecordInv, CloseInv;
    StepKeepsRecord(s, net, l, p);
    StepKeepsClosing(s, net, l, p);
  }

  lemma StepKeepsTask(s: Wire, net: Resolver, l: Label)
    requires Enabled(s, l) && TaskInv(s, net)
    ensures TaskInv(Apply(s, net, l), net)
  {
    hide CanonicalAddress, IsValidCid;
    if l.AdmitLocal? {
      assert s.task.peer in Apply(s, net, l).peerAddr;
    }
  }

  lemma StepKeepsConnected(s: Wire, net: Resolver, l: Label)
    requires Enabled(s, l) && Inv(s, net)
    ensures ConnectedInv(Apply(s, net, l))
  {
    hide CanonicalAddress, IsValidCid;
    var t := Apply(s, net, l);
    if l.AdmitLocal? {
      assert PeerInv(s, net, s.task.peer);
      forall a | a in s.peerAddr.Values ensures a in t.peerAddr.Values {
        var p :| p in s.peerAddr && s.peerAddr[p] == a;
        assert p in t.peerAddr && t.peerAddr[p] == a;
      }
    } else if l.ClosedLast? {
      forall a | a in s.peerAddr.Values && t.task != Clearing(a) ensures a in t.peerAddr.Values {
        var p :| p in s.peerAddr && s.peerAddr[p] == a;
        assert p in t.peerAddr && t.peerAddr[p] == a;
      }
    }
  }

  lemma StepKeepsInv(s: Wire, net: Resolver, l: Label)
    requires Enabled(s, l) && Inv(s, net)
    ensures Inv(Apply(s, net, l), net)
  {
    hide Apply, Enabled, TaskInv, ConnectedInv, PeerInv;
    StepKeepsTask(s, net, l);
    StepKeepsConnected(s, net, l);
    forall p: Peer ensures PeerInv(Apply(s, net, l), net, p) { StepKeepsPeer(s, net, l, p); }
  }

  /** Every interleaving, from any state that has it, keeps the invariant. */
  lemma {:induction false} RunsKeepInv(net: Resolver, s: Wire, labels: seq<Label>)
    requires Inv(s, net) && Runs(net, s, labels)
    ensures Inv(After(net, s, labels), net)
    decreases |labels|
  {
    hide Apply, Enabled, Inv;
    if labels != [] {
      StepKeepsInv(s, net, labels[0]);
      RunsKeepInv(net, Apply(s, net, labels[0]), labels[1..]);
    }
  }

  lemma StartInv(net: Resolver)
    ensures Inv(START, net)
  {
  }

  // ---- what it says of every run ----

  /** After any run, every peer with a live connection that is not gated is recorded under the address its
      key resolves to, and that address is authorized or already condemned. */
  lemma LiveIsRecorded(net: Resolver, labels: seq<Label>, p: Peer)
    requires Runs(net, START, labels)
    ensures var s := After(net, START, labels);
            Live(s, p) > 0 && !Gated(s, p) ==>
              p in s.peerAddr && net(p) == Some(s.peerAddr[p]) && Entitled(s, s.peerAddr[p])
  {
    hide After, Gated, Entitled, Runs;
    StartInv(net);
    RunsKeepInv(net, START, labels);
    assert PeerInv(After(net, START, labels), net, p);
  }

  /** A peer neither waiting for `identify` nor recorded, nor just being admitted, has had the close of
      every one of its connections requested. */
  lemma StrangersAreClosing(net: Resolver, labels: seq<Label>, p: Peer)
    requires Runs(net, START, labels)
    ensures var s := After(net, START, labels);
            p !in s.peerAddr && p !in s.unidentified && s.task == Top ==> Closing(s, p) == Live(s, p)
  {
    hide After, Gated, Entitled, Runs;
    StartInv(net);
    RunsKeepInv(net, START, labels);
    assert PeerInv(After(net, START, labels), net, p);
  }

  /** Between iterations of the loop, a connected address is one some recorded peer resolves to, and is
      authorized, or condemned, or only held by gated peers. */
  lemma ConnectedIsRecorded(net: Resolver, labels: seq<Label>, a: string) returns (p: Peer)
    requires Runs(net, START, labels)
    requires After(net, START, labels).task == Top && a in After(net, START, labels).connected
    ensures var s := After(net, START, labels);
            && p in s.peerAddr && s.peerAddr[p] == a && net(p) == Some(a)
            && (Gated(s, p) || Entitled(s, a))
  {
    hide After, Gated, Entitled, Runs;
    StartInv(net);
    RunsKeepInv(net, START, labels);
    var s := After(net, START, labels);
    p :| p in s.peerAddr && s.peerAddr[p] == a;
    assert PeerInv(s, net, p);
  }

  // ---- `connected` against `authorized` ----

  lemma Prepend(net: Resolver, s: Wire, l: Label, rest: seq<Label>)
    requires Enabled(s, l) && Runs(net, Apply(s, net, l), rest)
    ensures Runs(net, s, [l] + rest) && After(net, s, [l] + rest) == After(net, Apply(s, net, l), rest)
  {
    hide Apply, Enabled;
    assert ([l] + rest)[1..] == rest;
  }

  /** The member is dialed, connects, passes its check, and is disconnected before it is recorded. */
  function Race(p: Peer, a: string): seq<Label> {
    [DialLock(a)] + ([Established(p)] + ([IdentifyRead(p, true)] + ([DisconnectLock(a)] + ([AdmitLocal] + ([RecordConnected] + [])))))
  }

  lemma RaceStates(net: Resolver, p: Peer, a: string)
    requires net(p) == Some(a) && CanonicalAddress(a) == Some(a)
    ensures var s3 := RacedTo(net, p, a);
            && s3.task == Admitting(p, a) && s3.surface == Idle && s3.connected == {} && s3.authorized == {a}
  {
    hide CanonicalAddress;
  }

  lemma RaceEnds(net: Resolver, s: Wire, p: Peer, a: string)
    requires s.task == Admitting(p, a) && s.surface == Idle && s.connected == {} && s.authorized == {a}
    requires CanonicalAddress(a) == Some(a)
    ensures var tail := [DisconnectLock(a)] + ([AdmitLocal] + ([RecordConnected] + []));
            && Runs(net, s, tail)
            && After(net, s, tail).task == Top && After(net, s, tail).connected == {a} && After(net, s, tail).authorized == {}
  {
    hide CanonicalAddress, Runs, After;
    var s4 := Apply(s, net, DisconnectLock(a));
    var s5 := Apply(s4, net, AdmitLocal);
    var s6 := Apply(s5, net, RecordConnected);
    Arrived(net, s6);
    Prepend(net, s5, RecordConnected, []);
    Prepend(net, s4, AdmitLocal, [RecordConnected] + []);
    Prepend(net, s, DisconnectLock(a), [AdmitLocal] + ([RecordConnected] + []));
  }

  function RacedTo(net: Resolver, p: Peer, a: string): Wire {
    Apply(Apply(Apply(START, net, DialLock(a)), net, Established(p)), net, IdentifyRead(p, true))
  }

  /** The listed connections are not always authorized ones: whoever is disconnected while its `identify`
      is being handled is listed all the same, until the queued disconnect takes hold. */
  lemma ConnectedCanOutrunAuthorized(net: Resolver, p: Peer, a: string)
    requires net(p) == Some(a) && IsCanonical(a)
    ensures Runs(net, START, Race(p, a))
    ensures var s := After(net, START, Race(p, a)); s.task == Top && s.connected == {a} && s.authorized == {}
  {
    hide CanonicalAddress, IsCanonical, Runs, After, Apply;
    CanonicalFixpoint(a);
    RaceStates(net, p, a);
    RaceEnabled(net, p, a);
    var s1 := Apply(START, net, DialLock(a));
    var s2 := Apply(s1, net, Established(p));
    var tail := [DisconnectLock(a)] + ([AdmitLocal] + ([RecordConnected] + []));
    RaceEnds(net, RacedTo(net, p, a), p, a);
    Prepend(net, s2, IdentifyRead(p, true), tail);
    Prepend(net, s1, Established(p), [IdentifyRead(p, true)] + tail);
    Prepend(net, START, DialLock(a), [Established(p)] + ([IdentifyRead(p, true)] + tail));
  }

  lemma RaceEnabled(net: Resolver, p: Peer, a: string)
    ensures Enabled(START, DialLock(a))
    ensures var s1 := Apply(START, net, DialLock(a));
            Enabled(s1, Established(p)) && Enabled(Apply(s1, net, Established(p)), IdentifyRead(p, true))
  {
    hide CanonicalAddress;
  }

  lemma Arrived(net: Resolver, s: Wire)
    ensures Runs(net, s, []) && After(net, s, []) == s
  {
  }

  /** And that is the only way: a step takes the list outside the authorized set exactly when it records
      an address deauthorized since its `identify` was checked. */
  lemma ConnectedEscapesExactly(s: Wire, net: Resolver, l: Label)
    requires Enabled(s, l) && s.connected <= s.authorized
    ensures Apply(s, net, l).connected <= Apply(s, net, l).authorized
            <==> !(l.RecordConnected? && s.task.address !in s.authorized)
  {
    hide CanonicalAddress, IsValidCid;
  }

  // ---- refinement of the atomic admission machine ----

  /** An atomic machine, where admission and eviction take effect at once. Its connecting and falling are
      those of `formal/ClusterWireAdmission.tla`; it authorizes one address at a time, and `RosterStepInParts`
      shows what that makes of the whole-roster step there. It has no allowed set: `EndToEnd` compares with
      the session's. */
  datatype Atomic = Atomic(authorized: set<string>, wire: iset<string>)

  datatype Action = Authorize(a: string) | Deauthorize(a: string) | Connect(a: string) | Fall(a: string) | Stutter

  ghost predicate Can(x: Atomic, act: Action) {
    match act
    case Connect(a) => a in x.authorized
    case Fall(a) => a in x.wire
    case _ => true
  }

  ghost function Do(x: Atomic, act: Action): Atomic {
    match act
    case Authorize(a) => Atomic(x.authorized + {a}, x.wire)
    case Deauthorize(a) => Atomic(x.authorized - {a}, x.wire - iset{a})
    case Connect(a) => Atomic(x.authorized, x.wire + iset{a})
    case Fall(a) => Atomic(x.authorized, x.wire - iset{a})
    case Stutter => x
  }

  ghost predicate CanAll(x: Atomic, acts: seq<Action>)
    decreases |acts|
  {
    acts == [] || (Can(x, acts[0]) && CanAll(Do(x, acts[0]), acts[1..]))
  }

  ghost function DoAll(x: Atomic, acts: seq<Action>): Atomic
    decreases |acts|
  {
    if acts == [] then x else DoAll(Do(x, acts[0]), acts[1..])
  }

  function Deauthorizes(addrs: seq<string>): seq<Action> { seq(|addrs|, i requires 0 <= i < |addrs| => Deauthorize(addrs[i])) }

  function Authorizes(addrs: seq<string>): seq<Action> { seq(|addrs|, i requires 0 <= i < |addrs| => Authorize(addrs[i])) }

  /** The whole-roster step: exactly the new set is authorized, and the wire keeps what of it was there. */
  ghost function RosterStep(x: Atomic, allowed: set<string>): Atomic {
    Atomic(allowed, iset a | a in x.wire && a in allowed)
  }

  lemma {:induction false} DeauthorizeAll(x: Atomic, addrs: seq<string>, rest: seq<Action>)
    ensures DoAll(x, Deauthorizes(addrs) + rest)
            == DoAll(Atomic(x.authorized - (set a | a in addrs), iset a | a in x.wire && a !in addrs), rest)
    ensures CanAll(x, Deauthorizes(addrs) + rest)
            <==> CanAll(Atomic(x.authorized - (set a | a in addrs), iset a | a in x.wire && a !in addrs), rest)
    decreases |addrs|
  {
    var acts := Deauthorizes(addrs) + rest;
    if addrs == [] {
      assert acts == rest;
      assert x.authorized - (set a | a in addrs) == x.authorized && (iset a | a in x.wire && a !in addrs) == x.wire;
    } else {
      var y := Do(x, Deauthorize(addrs[0]));
      assert acts[0] == Deauthorize(addrs[0]) && acts[1..] == Deauthorizes(addrs[1..]) + rest;
      DeauthorizeAll(y, addrs[1..], rest);
      assert forall a :: a in addrs <==> a == addrs[0] || a in addrs[1..];
      assert y.authorized - (set a | a in addrs[1..]) == x.authorized - (set a | a in addrs);
      assert (iset a | a in y.wire && a !in addrs[1..]) == (iset a | a in x.wire && a !in addrs);
    }
  }

  lemma {:induction false} AuthorizeAll(x: Atomic, addrs: seq<string>)
    ensures DoAll(x, Authorizes(addrs)) == Atomic(x.authorized + (set a | a in addrs), x.wire)
    ensures CanAll(x, Authorizes(addrs))
    decreases |addrs|
  {
    var acts := Authorizes(addrs);
    if addrs == [] {
      assert x.authorized + (set a | a in addrs) == x.authorized;
    } else {
      var y := Do(x, Authorize(addrs[0]));
      assert acts[0] == Authorize(addrs[0]) && acts[1..] == Authorizes(addrs[1..]);
      AuthorizeAll(y, addrs[1..]);
      assert forall a :: a in addrs <==> a == addrs[0] || a in addrs[1..];
      assert y.authorized + (set a | a in addrs[1..]) == x.authorized + (set a | a in addrs);
    }
  }

  /** Deauthorizing whoever is to go and then authorizing whoever is to stay or come is the whole-roster
      step, from any state whose wire is authorized. */
  lemma RosterStepInParts(x: Atomic, gone: seq<string>, allowed: seq<string>)
    requires forall a :: a in x.wire ==> a in x.authorized
    requires forall a :: a in x.authorized ==> a in gone || a in allowed
    requires forall a :: a in gone ==> a !in allowed
    ensures CanAll(x, Deauthorizes(gone) + Authorizes(allowed))
    ensures DoAll(x, Deauthorizes(gone) + Authorizes(allowed)) == RosterStep(x, set a | a in allowed)
  {
    var y := Atomic(x.authorized - (set a | a in gone), iset a | a in x.wire && a !in gone);
    DeauthorizeAll(x, gone, Authorizes(allowed));
    AuthorizeAll(y, allowed);
    assert y.authorized + (set a | a in allowed) == (set a | a in allowed);
    assert y.wire == (iset a | a in x.wire && a in allowed);
  }

  /** Who can exchange group messages: the addresses of live ungated peers, but for the condemned. */
  predicate Meshed(s: Wire, net: Resolver, p: Peer, a: string) { Live(s, p) > 0 && !Gated(s, p) && net(p) == Some(a) }

  ghost predicate OnWire(s: Wire, net: Resolver, a: string) {
    !Pending(s, a) && exists p: Peer :: Meshed(s, net, p, a)
  }

  ghost function Abstract(s: Wire, net: Resolver): Atomic {
    Atomic(s.authorized, iset a: string | OnWire(s, net, a))
  }

  /** The atomic action a step performs. */
  ghost function ActionOf(s: Wire, net: Resolver, l: Label): Action
    requires Enabled(s, l)
  {
    match l
    case DialLock(raw) => (match CanonicalAddress(raw) case Some(a) => Authorize(a) case None => Stutter)
    case DisconnectLock(raw) => (match CanonicalAddress(raw) case Some(a) => Deauthorize(a) case None => Stutter)
    case AdmitLocal =>
      if Live(s, s.task.peer) > 0 && !Pending(s, s.task.address) then Connect(s.task.address) else Stutter
    case Established(p) =>
      if p in s.peerAddr && !Gated(s, p) && !Pending(s, s.peerAddr[p]) then Connect(s.peerAddr[p]) else Stutter
    case ClosedLast(p) =>
      if p in s.peerAddr && OnWire(s, net, s.peerAddr[p]) && !OnWire(Apply(s, net, l), net, s.peerAddr[p])
      then Fall(s.peerAddr[p]) else Stutter
    case _ => Stutter
  }

  lemma WireIsAuthorized(s: Wire, net: Resolver, a: string)
    requires Inv(s, net) && OnWire(s, net, a)
    ensures a in s.authorized
  {
    var p: Peer :| Meshed(s, net, p, a);
    assert PeerInv(s, net, p);
  }

  /** A step that leaves a peer meshed and its address uncondemned leaves the address on the wire. */
  lemma StaysMeshed(s: Wire, net: Resolver, l: Label, p: Peer, a: string)
    requires Enabled(s, l) && PeerInv(s, net, p) && Meshed(s, net, p, a) && !Pending(s, a)
    requires l != ClosedLast(p)
    ensures Meshed(Apply(s, net, l), net, p, a)
    ensures Pending(Apply(s, net, l), a) <==> l.DisconnectLock? && CanonicalAddress(l.raw) == Some(a)
  {
    hide CanonicalAddress, IsValidCid, Live, Closing;
    StepCounts(s, net, l, p);
  }

  /** A step that makes a peer meshed, or lifts the condemnation of one that was, is one of two. */
  lemma BecomesMeshed(s: Wire, net: Resolver, l: Label, p: Peer, a: string)
    requires Enabled(s, l) && TaskInv(s, net) && PeerInv(s, net, p)
    requires Meshed(Apply(s, net, l), net, p, a) && !Pending(Apply(s, net, l), a)
    requires !Meshed(s, net, p, a) || Pending(s, a)
    ensures (l == AdmitLocal && p == s.task.peer) || (l == Established(p) && p in s.peerAddr && !Gated(s, p))
  {
    hide CanonicalAddress, IsValidCid, Live, Closing;
    StepCounts(s, net, l, p);
  }

  /** Whoever was on the wire stays there, but for the address deauthorized or the peer that fell. */
  lemma StaysOnWire(s: Wire, net: Resolver, l: Label, a: string)
    requires Enabled(s, l) && Inv(s, net) && OnWire(s, net, a)
    requires !(l.DisconnectLock? && CanonicalAddress(l.raw) == Some(a))
    requires !(l.ClosedLast? && l.peer in s.peerAddr && s.peerAddr[l.peer] == a)
    ensures OnWire(Apply(s, net, l), net, a)
  {
    hide CanonicalAddress, Apply, Pending, Enabled;
    var p: Peer :| Meshed(s, net, p, a);
    assert PeerInv(s, net, p);
    assert p in s.peerAddr && s.peerAddr[p] == a;
    StaysMeshed(s, net, l, p, a);
  }

  /** How one step changes who is on the wire, address by address. */
  lemma StepOnWire(s: Wire, net: Resolver, l: Label, b: string)
    requires Enabled(s, l) && Inv(s, net)
    ensures OnWire(Apply(s, net, l), net, b) <==> b in Do(Abstract(s, net), ActionOf(s, net, l)).wire
  {
    hide CanonicalAddress, IsValidCid, Live, Closing;
    var t := Apply(s, net, l);
    if l.AdmitLocal? {
      StepCounts(s, net, l, s.task.peer);
      assert Live(s, s.task.peer) > 0 ==> Meshed(t, net, s.task.peer, s.task.address);
    } else if l.Established? || l.ClosedLast? {
      StepCounts(s, net, l, l.peer);
      assert PeerInv(s, net, l.peer);
      assert l.Established? && l.peer in s.peerAddr && !Gated(s, l.peer) ==> Meshed(t, net, l.peer, s.peerAddr[l.peer]);
    }
    if OnWire(t, net, b) {
      var p: Peer :| Meshed(t, net, p, b);
      assert PeerInv(s, net, p);
      if !Meshed(s, net, p, b) || Pending(s, b) {
        BecomesMeshed(s, net, l, p, b);
      }
    }
    if OnWire(s, net, b) && !(l.DisconnectLock? && CanonicalAddress(l.raw) == Some(b))
       && !(l.ClosedLast? && l.peer in s.peerAddr && s.peerAddr[l.peer] == b) {
      StaysOnWire(s, net, l, b);
    }
  }

  /** Each step of the protocol is one step of the atomic machine, or none. */
  lemma StepRefines(s: Wire, net: Resolver, l: Label)
    requires Enabled(s, l) && Inv(s, net)
    ensures Can(Abstract(s, net), ActionOf(s, net, l))
    ensures Do(Abstract(s, net), ActionOf(s, net, l)) == Abstract(Apply(s, net, l), net)
  {
    hide OnWire;
    var x, act, y := Abstract(s, net), ActionOf(s, net, l), Abstract(Apply(s, net, l), net);
    StepActs(s, net, l);
    forall b: string ensures b in Do(x, act).wire <==> b in y.wire { StepOnWire(s, net, l, b); }
    assert Do(x, act).wire == y.wire;
  }

  lemma StepActs(s: Wire, net: Resolver, l: Label)
    requires Enabled(s, l) && Inv(s, net)
    ensures Can(Abstract(s, net), ActionOf(s, net, l))
    ensures Do(Abstract(s, net), ActionOf(s, net, l)).authorized == Apply(s, net, l).authorized
  {
    hide CanonicalAddress, IsValidCid, OnWire;
    if l.Established? {
      assert PeerInv(s, net, l.peer);
    }
  }

  ghost function ActionsOf(net: Resolver, s: Wire, labels: seq<Label>): seq<Action>
    requires Runs(net, s, labels)
    decreases |labels|
  {
    if labels == [] then [] else [ActionOf(s, net, labels[0])] + ActionsOf(net, Apply(s, net, labels[0]), labels[1..])
  }

  /** Every run of the protocol is, step for step, a run of the atomic machine. */
  lemma {:induction false} RunRefines(net: Resolver, s: Wire, labels: seq<Label>)
    requires Inv(s, net) && Runs(net, s, labels)
    ensures CanAll(Abstract(s, net), ActionsOf(net, s, labels))
    ensures DoAll(Abstract(s, net), ActionsOf(net, s, labels)) == Abstract(After(net, s, labels), net)
    decreases |labels|
  {
    hide Apply, Enabled, Inv, Abstract, ActionOf, Can, Do;
    if labels != [] {
      var t := Apply(s, net, labels[0]);
      StepKeepsInv(s, net, labels[0]);
      StepRefines(s, net, labels[0]);
      RunRefines(net, t, labels[1..]);
      assert ActionsOf(net, s, labels)[1..] == ActionsOf(net, t, labels[1..]);
    }
  }

  /** From the start: the atomic machine starts empty, follows, and no unauthorized address is ever on
      the wire. */
  lemma WireWithinAuthorized(net: Resolver, labels: seq<Label>)
    requires Runs(net, START, labels)
    ensures Abstract(START, net) == Atomic({}, iset{})
    ensures CanAll(Atomic({}, iset{}), ActionsOf(net, START, labels))
    ensures DoAll(Atomic({}, iset{}), ActionsOf(net, START, labels)) == Abstract(After(net, START, labels), net)
    ensures forall a :: OnWire(After(net, START, labels), net, a) ==> a in After(net, START, labels).authorized
  {
    hide Runs, After, ActionsOf, CanAll, DoAll, Inv, OnWire;
    StartInv(net);
    RunsKeepInv(net, START, labels);
    RunRefines(net, START, labels);
    NobodyAtStart(net);
    var s := After(net, START, labels);
    forall a | OnWire(s, net, a) ensures a in s.authorized { WireIsAuthorized(s, net, a); }
  }

  lemma NobodyAtStart(net: Resolver)
    ensures Abstract(START, net) == Atomic({}, iset{})
  {
    assert Abstract(START, net).wire == iset{};
  }
}
