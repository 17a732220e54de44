/** The surface methods and the arms of the swarm loop as code over the state they change, each shown to be
    a run of the protocol when nothing interleaves with it. */
module WireObject {
  import opened Wrappers
  import opened Addresses
  import opened Session
  import opened Protocol = Wire
  import opened WireLaws

  /** The steps of one `identify`: refused in one, or admitted in three. */
  function IdentifySteps(s: Protocol.Wire, net: Resolver, p: Peer, keyMatches: bool): seq<Label> {
    if keyMatches && net(p).Some? && net(p).value in s.authorized
    then [IdentifyRead(p, true)] + ([AdmitLocal] + ([RecordConnected] + []))
    else [IdentifyRead(p, keyMatches)] + []
  }

  /** The steps of one message: looked at and left, or looked at and offered to the inbox. */
  function MessageSteps(s: Protocol.Wire, source: Peer, ours: bool, payload: Option<string>): seq<Label> {
    if MessageChecked(s, source, ours, payload).task.Accepting?
    then [MessageRead(source, ours, payload)] + ([PushInbox] + [])
    else [MessageRead(source, ours, payload)] + []
  }

  /** The steps of a connection closing, `wasClosing` telling which of several it was. */
  function ClosedSteps(s: Protocol.Wire, p: Peer, wasClosing: bool): seq<Label> {
    if Live(s, p) >= 2 then [ClosedOne(p, wasClosing)] + []
    else if p in s.peerAddr then [ClosedLast(p)] + ([ClearConnected] + [])
    else [ClosedLast(p)] + []
  }

  function DisconnectSteps(raw: string): seq<Label> {
    if CanonicalAddress(raw).Some? then [DisconnectLock(raw)] + ([DisconnectSend] + []) else [DisconnectLock(raw)] + []
  }

  function Sweeps(peers: seq<Peer>): seq<Label> {
    if peers == [] then [] else [Sweep(peers[0])] + Sweeps(peers[1..])
  }

  /** `t` is where `labels` lead from `s`. */
  predicate Leads(net: Resolver, s: Protocol.Wire, labels: seq<Label>, t: Protocol.Wire) {
    Runs(net, s, labels) && After(net, s, labels) == t
  }

  lemma NoSteps(net: Resolver, s: Protocol.Wire)
    ensures Leads(net, s, [], s)
  {
  }

  lemma OneStep(net: Resolver, s: Protocol.Wire, l: Label)
    requires Enabled(s, l)
    ensures Leads(net, s, [l] + [], Apply(s, net, l))
  {
    hide Apply, Enabled;
    NoSteps(net, Apply(s, net, l));
    Prepend(net, s, l, []);
  }

  lemma TwoSteps(net: Resolver, s: Protocol.Wire, l: Label, m: Label)
    requires Enabled(s, l) && Enabled(Apply(s, net, l), m)
    ensures Leads(net, s, [l] + ([m] + []), Apply(Apply(s, net, l), net, m))
  {
    hide Apply, Enabled;
    OneStep(net, Apply(s, net, l), m);
    Prepend(net, s, l, [m] + []);
  }

  lemma ThreeSteps(net: Resolver, s: Protocol.Wire, l: Label, m: Label, n: Label)
    requires Enabled(s, l) && Enabled(Apply(s, net, l), m) && Enabled(Apply(Apply(s, net, l), net, m), n)
    ensures Leads(net, s, [l] + ([m] + ([n] + [])), Apply(Apply(Apply(s, net, l), net, m), net, n))
  {
    hide Apply, Enabled;
    TwoSteps(net, Apply(s, net, l), m, n);
    Prepend(net, s, l, [m] + ([n] + []));
  }

  class Libp2pMesh {
    // shared under the mutex
    var authorized: set<string>
    var connected: set<string>
    var inbox: seq<MeshMessage>
    // the command channel
    var queue: seq<Cmd>
    // the swarm task's own
    var peerAddr: map<Peer, string>
    var unidentified: set<Peer>
    // the swarm's
    var blacklisted: set<Peer>
    var lowScored: set<Peer>
    var live: map<Peer, nat>
    var closing: map<Peer, nat>
    ghost var offered: seq<MeshMessage>
    ghost var cuts: seq<nat>
    ghost var drains: seq<seq<MeshMessage>>

    ghost function Value(): Protocol.Wire
      reads this
    {
      Protocol.Wire(authorized, connected, inbox, queue, Idle, Top, peerAddr, unidentified, blacklisted, lowScored,
                    live, closing, offered, cuts, drains)
    }

    constructor ()
      ensures Value() == START
    {
      authorized, connected, inbox, queue := {}, {}, [], [];
      peerAddr, unidentified, blacklisted, lowScored := map[], {}, {}, {};
      live, closing, offered, cuts, drains := map[], map[], [], [0], [];
    }

    // ---- the surface ----

    method Dial(net: Resolver, raw: string)
      modifies this
      ensures Leads(net, old(Value()), [DialLock(raw)] + [], Value())
      ensures Value() == old(Value()).(authorized := old(authorized) + (match CanonicalAddress(raw) case Some(a) => {a} case None => {}))
    {
      hide CanonicalAddress;
      OneStep(net, Value(), DialLock(raw));
      match CanonicalAddress(raw) {
        case Some(a) => authorized := authorized + {a};
        case None =>
      }
    }

    method Disconnect(net: Resolver, raw: string)
      modifies this
      ensures Leads(net, old(Value()), DisconnectSteps(raw), Value())
      ensures match CanonicalAddress(raw)
              case Some(a) => Value() == old(Value()).(authorized := old(authorized) - {a}, connected := old(connected) - {a},
                                                       queue := old(queue) + [Evict(a)])
              case None => Value() == old(Value())
    {
      hide CanonicalAddress;
      match CanonicalAddress(raw) {
        case Some(a) =>
          TwoSteps(net, Value(), DisconnectLock(raw), DisconnectSend);
          authorized := authorized - {a};
          connected := connected - {a};
          queue := queue + [Evict(a)];
        case None =>
          OneStep(net, Value(), DisconnectLock(raw));
      }
    }

    method TakeInbox(net: Resolver) returns (messages: seq<MeshMessage>)
      modifies this
      ensures messages == old(inbox)
      ensures Leads(net, old(Value()), [Drain] + [], Value())
      ensures inbox == [] && authorized == old(authorized) && connected == old(connected) && queue == old(queue)
    {
      OneStep(net, Value(), Drain);
      messages := inbox;
      cuts, drains := cuts + [|offered|], drains + [inbox];
      inbox := [];
    }

    // ---- gating and closing one peer ----

    method ShutOut(p: Peer)
      modifies this`blacklisted, this`lowScored
      ensures Value() == GatePeers(old(Value()), {p})
    {
      blacklisted := blacklisted + {p};
      lowScored := lowScored + {p};
    }

    method Hangup(p: Peer)
      modifies this`closing
      ensures Value() == Close(old(Value()), {p})
    {
      var n := if p in live then live[p] else 0;
      closing := closing[p := n];
      assert closing == old(closing) + map q | q in {p} :: Live(old(Value()), q);
    }

    /** What the task does to a peer it wants gone. */
    method GateAndClose(p: Peer)
      modifies this`blacklisted, this`lowScored, this`closing
      ensures Value() == Close(GatePeers(old(Value()), {p}), {p})
    {
      hide Close, GatePeers, Value;
      ShutOut(p);
      Hangup(p);
    }

    // ---- the arms of the loop ----

    /** The sweep: every connection past its time is gated and closed. */
    method SweepExpired(net: Resolver, expired: set<Peer>) returns (ghost order: seq<Peer>)
      requires expired <= unidentified
      modifies this
      ensures |order| == |expired| && forall p :: p in order <==> p in expired
      ensures Leads(net, old(Value()), Sweeps(order), Value())
      ensures unidentified == old(unidentified) - expired && live == old(live)
      ensures forall p :: p in expired ==> Gated(Value(), p) && Closing(Value(), p) == Live(Value(), p)
    {
      hide Runs, After, Sweeps, Leads, Close, GatePeers;
      order := [];
      var left := expired;
      NoSweeps(net, Value());
      while left != {}
        invariant left <= expired && left <= unidentified
        invariant forall p :: p in order <==> p in expired && p !in left
        invariant |order| + |left| == |expired|
        invariant Leads(net, old(Value()), Sweeps(order), Value())
        invariant unidentified == old(unidentified) - (expired - left) && live == old(live)
        invariant forall p :: p in expired - left ==> Gated(Value(), p) && Closing(Value(), p) == Live(Value(), p)
        decreases |left|
      {
        var p :| p in left;
        ghost var before := Value();
        unidentified := unidentified - {p};
        GateAndClose(p);
        ShutsOut(before.(unidentified := unidentified), {p});
        OneMoreSweep(net, old(Value()), order, before, p);
        order, left := order + [p], left - {p};
      }
    }

    /** Gate and close each of some peers. */
    method GateAndCloseAll(targets: set<Peer>)
      modifies this`blacklisted, this`lowScored, this`closing
      ensures Value() == Close(GatePeers(old(Value()), targets), targets)
    {
      hide Close, GatePeers, Value;
      ghost var start := Value();
      var left, done: set<Peer> := targets, {};
      NothingDone(start);
      while left != {}
        invariant done + left == targets && done !! left
        invariant Value() == Close(GatePeers(start, done), done)
        decreases |left|
      {
        var p :| p in left;
        OneMoreDone(start, done, p);
        GateAndClose(p);
        left, done := left - {p}, done + {p};
      }
      assert done == targets;
    }

    /** Gate and close each peer recorded under the address. */
    method EvictPeers(address: string)
      modifies this`blacklisted, this`lowScored, this`closing
      ensures Value() == Close(GatePeers(old(Value()), Targets(old(Value()), address)), Targets(old(Value()), address))
      ensures forall p :: p in peerAddr && peerAddr[p] == address ==> Gated(Value(), p) && Closing(Value(), p) == Live(Value(), p)
    {
      hide Close, GatePeers;
      var targets := set p | p in peerAddr && peerAddr[p] == address;
      assert targets == Targets(Value(), address);
      ShutsOut(Value(), targets);
      GateAndCloseAll(targets);
    }

    /** One command received. */
    method ReceiveCommand(net: Resolver)
      requires queue != []
      modifies this
      ensures Leads(net, old(Value()), [Receive] + [], Value())
      ensures queue == old(queue)[1..]
      ensures forall p :: p in peerAddr && old(queue)[0] == Evict(peerAddr[p]) ==>
                Gated(Value(), p) && Closing(Value(), p) == Live(Value(), p)
    {
      hide Runs, After, Leads, Close, GatePeers, Targets;
      OneStep(net, Value(), Receive);
      var command := queue[0];
      queue := queue[1..];
      match command {
        case Other =>
        case Evict(address) =>
          TargetsOf(old(Value()), Value(), address);
          EvictPeers(address);
      }
    }

    method OnEstablished(net: Resolver, p: Peer)
      modifies this
      ensures Leads(net, old(Value()), [Established(p)] + [], Value())
      ensures Live(Value(), p) == Live(old(Value()), p) + 1 && peerAddr == old(peerAddr) && closing == old(closing)
      ensures p !in peerAddr ==> p in unidentified && Gated(Value(), p)
    {
      hide Runs, After, Leads, Close, Gated, Closing;
      OneStep(net, Value(), Established(p));
      EstablishedEnds(net, Value(), p);
      live := live[p := (if p in live then live[p] else 0) + 1];
      if p !in peerAddr {
        unidentified := unidentified + {p};
        ShutOut(p);
      }
    }

    method OnIdentify(net: Resolver, p: Peer, keyMatches: bool)
      modifies this
      ensures Leads(net, old(Value()), IdentifySteps(old(Value()), net, p, keyMatches), Value())
      ensures p !in unidentified && authorized == old(authorized) && live == old(live)
      ensures keyMatches && net(p).Some? && net(p).value in authorized ==>
                && peerAddr == old(peerAddr)[p := net(p).value] && connected == old(connected) + {net(p).value}
                && p !in blacklisted && p !in lowScored && closing == old(closing)
      ensures !(keyMatches && net(p).Some? && net(p).value in authorized) ==>
                && peerAddr == old(peerAddr) && connected == old(connected) && Closing(Value(), p) == Live(Value(), p)
                && (keyMatches && net(p).Some? ==> Gated(Value(), p))
    {
      hide Runs, After, Leads, Close, GatePeers, IdentifySteps, Apply, Enabled, Gated, Closing, Live;
      IdentifyLeads(net, Value(), p, keyMatches);
      if !(keyMatches && net(p).Some? && net(p).value in authorized) { IdentifyEnds(net, Value(), p, keyMatches); }
      unidentified := unidentified - {p};
      if !keyMatches {
        Hangup(p);
        return;
      }
      match net(p) {
        case None =>
          Hangup(p);
        case Some(address) =>
          if address in authorized {
            peerAddr := peerAddr[p := address];
            blacklisted := blacklisted - {p};
            lowScored := lowScored - {p};
            connected := connected + {address};
          } else {
            GateAndClose(p);
          }
      }
    }

    method OnMessage(net: Resolver, source: Peer, ours: bool, payload: Option<string>)
      modifies this
      ensures Leads(net, old(Value()), MessageSteps(old(Value()), source, ours, payload), Value())
      ensures ours && source in old(peerAddr) && old(peerAddr)[source] in old(authorized) && payload.Some? && IsValidCid(payload.value)
              ==> var m := MeshMessage(old(peerAddr)[source], payload.value);
                  Value() == old(Value()).(offered := old(offered) + [m],
                                           inbox := if |old(inbox)| < MAX_INBOX then old(inbox) + [m] else old(inbox))
      ensures !(ours && source in old(peerAddr) && old(peerAddr)[source] in old(authorized) && payload.Some? && IsValidCid(payload.value))
              ==> Value() == old(Value())
    {
      hide IsValidCid, Runs, After, Leads, MessageSteps;
      MessageLeads(net, Value(), source, ours, payload);
      if !ours || source !in peerAddr { return; }
      var address := peerAddr[source];
      if address !in authorized { return; }
      match payload {
        case Some(text) =>
          if IsValidCid(text) {
            offered := offered + [MeshMessage(address, text)];
            if |inbox| < MAX_INBOX {
              inbox := inbox + [MeshMessage(address, text)];
            }
          }
        case None =>
      }
    }

    /** A connection of `p` closed. */
    method OnClosed(net: Resolver, p: Peer, wasClosing: bool)
      requires Live(Value(), p) >= 1
      requires Live(Value(), p) >= 2 ==>
        if wasClosing then Closing(Value(), p) > 0 else Closing(Value(), p) < Live(Value(), p)
      modifies this
      ensures Leads(net, old(Value()), ClosedSteps(old(Value()), p, wasClosing), Value())
      ensures Live(Value(), p) == Live(old(Value()), p) - 1
      ensures Live(Value(), p) > 0 ==>
                peerAddr == old(peerAddr) && connected == old(connected) && Closing(Value(), p) == Closing(old(Value()), p) - if wasClosing then 1 else 0
      ensures Live(Value(), p) == 0 ==>
                && peerAddr == old(peerAddr) - {p} && p !in unidentified && p !in blacklisted && Closing(Value(), p) == 0
                && connected == (if p in old(peerAddr) then old(connected) - {old(peerAddr)[p]} else old(connected))
    {
      hide Runs, After, Leads, Close, GatePeers, ClosedSteps, Apply, Enabled;
      ClosedLeads(net, Value(), p, wasClosing);
      if live[p] >= 2 {
        live := live[p := live[p] - 1];
        if wasClosing { closing := closing[p := closing[p] - 1]; }
        return;
      }
      live, closing := live - {p}, closing - {p};
      unidentified := unidentified - {p};
      blacklisted := blacklisted - {p};
      var removed := if p in peerAddr then Some(peerAddr[p]) else None;
      peerAddr := peerAddr - {p};
      match removed {
        case Some(address) => connected := connected - {address};
        case None =>
      }
    }
  }

  lemma ShutsOut(s: Protocol.Wire, peers: set<Peer>)
    ensures var t := Close(GatePeers(s, peers), peers);
            && t.live == s.live && t.unidentified == s.unidentified
            && (forall p :: Live(t, p) == Live(s, p))
            && (forall p :: p in peers ==> Gated(t, p) && Closing(t, p) == Live(t, p))
            && (forall p :: p !in peers ==> (Gated(t, p) <==> Gated(s, p)) && Closing(t, p) == Closing(s, p))
  {
  }

  lemma NoSweeps(net: Resolver, s: Protocol.Wire)
    ensures Leads(net, s, Sweeps([]), s)
  {
  }

  lemma TargetsOf(s: Protocol.Wire, t: Protocol.Wire, a: string)
    requires s.peerAddr == t.peerAddr
    ensures Targets(s, a) == Targets(t, a)
  {
  }

  lemma NothingDone(s: Protocol.Wire)
    ensures Close(GatePeers(s, {}), {}) == s
  {
    var none: set<Peer> := {};
    assert s.closing + (map p | p in none :: Live(s, p)) == s.closing;
    assert s.blacklisted + none == s.blacklisted && s.lowScored + none == s.lowScored;
  }

  lemma CloseMore(s: Protocol.Wire, done: set<Peer>, p: Peer)
    ensures Close(Close(s, done), {p}) == Close(s, done + {p})
  {
    var a, b := Close(Close(s, done), {p}), Close(s, done + {p});
    assert a.closing == b.closing;
  }

  lemma GateMore(s: Protocol.Wire, done: set<Peer>, p: Peer)
    ensures GatePeers(Close(s, done), {p}) == Close(GatePeers(s, {p}), done)
    ensures GatePeers(GatePeers(s, done), {p}) == GatePeers(s, done + {p})
  {
    assert s.blacklisted + done + {p} == s.blacklisted + (done + {p});
    assert s.lowScored + done + {p} == s.lowScored + (done + {p});
  }

  lemma OneMoreDone(s: Protocol.Wire, done: set<Peer>, p: Peer)
    ensures Close(GatePeers(Close(GatePeers(s, done), done), {p}), {p}) == Close(GatePeers(s, done + {p}), done + {p})
  {
    hide Close, GatePeers;
    GateMore(GatePeers(s, done), done, p);
    GateMore(s, done, p);
    CloseMore(GatePeers(s, done + {p}), done, p);
  }

  lemma {:induction false} OneMoreSweep(net: Resolver, s: Protocol.Wire, order: seq<Peer>, t: Protocol.Wire, p: Peer)
    requires Leads(net, s, Sweeps(order), t) && Enabled(t, Sweep(p))
    ensures Leads(net, s, Sweeps(order + [p]), Apply(t, net, Sweep(p)))
    decreases |order|
  {
    hide Apply, Enabled;
    if order == [] {
      OneStep(net, s, Sweep(p));
      assert [p][1..] == [];
    } else {
      var u := Apply(s, net, Sweep(order[0]));
      assert Sweeps(order)[1..] == Sweeps(order[1..]);
      OneMoreSweep(net, u, order[1..], t, p);
      assert (order + [p])[1..] == order[1..] + [p];
      Prepend(net, s, Sweep(order[0]), Sweeps(order[1..] + [p]));
    }
  }

  /** Where an uninterrupted `identify` ends. */
  function IdentifyEnd(s: Protocol.Wire, net: Resolver, p: Peer, keyMatches: bool): Protocol.Wire {
    var t := s.(unidentified := s.unidentified - {p});
    if !keyMatches || net(p).None? then Close(t, {p})
    else if net(p).value in s.authorized then
      t.(peerAddr := s.peerAddr[p := net(p).value], connected := s.connected + {net(p).value},
         blacklisted := s.blacklisted - {p}, lowScored := s.lowScored - {p})
    else Close(GatePeers(t, {p}), {p})
  }

  lemma IdentifyEnds(net: Resolver, s: Protocol.Wire, p: Peer, keyMatches: bool)
    requires !(keyMatches && net(p).Some? && net(p).value in s.authorized)
    ensures var t := IdentifyEnd(s, net, p, keyMatches);
            && Closing(t, p) == Live(t, p) && (keyMatches && net(p).Some? ==> Gated(t, p))
  {
    var t := s.(unidentified := s.unidentified - {p});
    CloseCounts(t, {p}, p);
    ShutsOut(t, {p});
  }

  lemma EstablishedEnds(net: Resolver, s: Protocol.Wire, p: Peer)
    requires s.task == Top
    ensures var t := Apply(s, net, Established(p));
            && Live(t, p) == Live(s, p) + 1 && (p !in s.peerAddr ==> Gated(t, p))
  {
    hide CanonicalAddress, IsValidCid;
  }

  lemma IdentifyLeads(net: Resolver, s: Protocol.Wire, p: Peer, keyMatches: bool)
    requires s.task == Top
    ensures Leads(net, s, IdentifySteps(s, net, p, keyMatches), IdentifyEnd(s, net, p, keyMatches))
  {
    hide Runs, After, Leads, Close, GatePeers;
    if keyMatches && net(p).Some? && net(p).value in s.authorized {
      ThreeSteps(net, s, IdentifyRead(p, true), AdmitLocal, RecordConnected);
    } else {
      OneStep(net, s, IdentifyRead(p, keyMatches));
    }
  }

  lemma MessageLeads(net: Resolver, s: Protocol.Wire, source: Peer, ours: bool, payload: Option<string>)
    requires s.task == Top
    ensures var t := MessageChecked(s, source, ours, payload);
            var end := if t.task.Accepting? then Apply(t, net, PushInbox) else t;
            Leads(net, s, MessageSteps(s, source, ours, payload), end)
  {
    hide Runs, After, Leads, IsValidCid;
    if MessageChecked(s, source, ours, payload).task.Accepting? {
      TwoSteps(net, s, MessageRead(source, ours, payload), PushInbox);
    } else {
      OneStep(net, s, MessageRead(source, ours, payload));
    }
  }

  /** Where an uninterrupted close ends. */
  function ClosedEnd(s: Protocol.Wire, p: Peer, wasClosing: bool): Protocol.Wire {
    if Live(s, p) >= 2 then
      s.(live := s.live[p := Live(s, p) - 1],
         closing := if wasClosing && p in s.closing && s.closing[p] > 0 then s.closing[p := s.closing[p] - 1] else s.closing)
    else
      s.(live := s.live - {p}, closing := s.closing - {p}, unidentified := s.unidentified - {p},
         blacklisted := s.blacklisted - {p}, peerAddr := s.peerAddr - {p},
         connected := if p in s.peerAddr then s.connected - {s.peerAddr[p]} else s.connected)
  }

  lemma ClosedLeads(net: Resolver, s: Protocol.Wire, p: Peer, wasClosing: bool)
    requires s.task == Top && Live(s, p) >= 1
    requires Live(s, p) >= 2 ==> if wasClosing then Closing(s, p) > 0 else Closing(s, p) < Live(s, p)
    ensures Leads(net, s, ClosedSteps(s, p, wasClosing), ClosedEnd(s, p, wasClosing))
  {
    hide Runs, After, Leads;
    if Live(s, p) >= 2 {
      OneStep(net, s, ClosedOne(p, wasClosing));
    } else if p in s.peerAddr {
      TwoSteps(net, s, ClosedLast(p), ClearConnected);
    } else {
      assert s.peerAddr - {p} == s.peerAddr;
      OneStep(net, s, ClosedLast(p));
    }
  }
}
