/** From signed input to the wire: any run of the daemon, whose transport calls interleave in any way with
    the swarm task, only ever meshes addresses its gate allows. */
module EndToEnd {
  import opened Wrappers
  import opened Addresses
  import opened Devices
  import opened EffectiveRoster
  import opened Membership
  import opened Session
  import Seed
  import opened Daemon
  import opened RegistryLaws
  import opened GateLaws
  import Laws = DaemonLaws
  import opened Protocol = Wire
  import opened WireLaws
  import Lex

  // ---- the transport surface as a sequence of calls ----

  datatype Call = Allow(a: string) | Drop(a: string)

  function Performed(n: Net, c: Call): Net {
    match c
    case Allow(a) => Dialed(n, a)
    case Drop(a) => Dropped(n, a)
  }

  function Called(n: Net, calls: seq<Call>): Net {
    if calls == [] then n else Performed(Called(n, calls[..|calls| - 1]), calls[|calls| - 1])
  }

  function CallOf(l: Label): seq<Call> {
    match l
    case DialLock(raw) => [Allow(raw)]
    case DisconnectLock(raw) => [Drop(raw)]
    case _ => []
  }

  /** The authorizing and disconnecting calls among the steps of a run, in order. */
  function CallsIn(labels: seq<Label>): seq<Call> {
    if labels == [] then [] else CallOf(labels[0]) + CallsIn(labels[1..])
  }

  lemma {:induction false} CalledConcat(n: Net, first: seq<Call>, second: seq<Call>)
    ensures Called(n, first + second) == Called(Called(n, first), second)
  {
    hide Performed;
    if second == [] {
      assert first + second == first;
    } else {
      var all := first + second;
      assert all[..|all| - 1] == first + second[..|second| - 1];
      CalledConcat(n, first, second[..|second| - 1]);
    }
  }

  lemma {:induction false} CalledKeepsKind(n: Net, calls: seq<Call>)
    ensures Called(n, calls).kind == n.kind
  {
    hide CanonicalAddress;
    if calls != [] { CalledKeepsKind(n, calls[..|calls| - 1]); }
  }

  /** What a call does to the authorized set depends on nothing but that set. */
  lemma {:induction false} CalledAuthorized(m: Net, n: Net, calls: seq<Call>)
    requires m.kind == n.kind == Networked && m.authorized == n.authorized
    ensures Called(m, calls).authorized == Called(n, calls).authorized
  {
    hide CanonicalAddress;
    if calls != [] {
      var front := calls[..|calls| - 1];
      CalledAuthorized(m, n, front);
      CalledKeepsKind(m, front);
      CalledKeepsKind(n, front);
    }
  }

  lemma StepMirrors(net: Resolver, s: Protocol.Wire, l: Label, n: Net)
    requires Enabled(s, l) && n.kind == Networked && n.authorized == s.authorized
    ensures Apply(s, net, l).authorized == Called(n, CallOf(l)).authorized
  {
    hide CanonicalAddress, IsValidCid;
    if CallOf(l) != [] {
      assert CallOf(l)[..0] == [];
      assert Called(n, CallOf(l)) == Performed(Called(n, []), CallOf(l)[0]);
    }
  }

  /** Whatever the swarm task does in between, the concurrent authorized set is the one the calls alone
      would give. */
  lemma {:induction false} SurfaceMirrors(net: Resolver, s: Protocol.Wire, labels: seq<Label>, n: Net)
    requires Runs(net, s, labels) && n.kind == Networked && n.authorized == s.authorized
    ensures After(net, s, labels).authorized == Called(n, CallsIn(labels)).authorized
    decreases |labels|
  {
    hide Apply, Enabled, CallOf, Performed, Called;
    if labels != [] {
      var first := CallOf(labels[0]);
      StepMirrors(net, s, labels[0], n);
      CalledKeepsKind(n, first);
      SurfaceMirrors(net, Apply(s, net, labels[0]), labels[1..], Called(n, first));
      CalledConcat(n, first, CallsIn(labels[1..]));
    } else {
      NoCalls(n);
    }
  }

  lemma NoCalls(n: Net)
    ensures Called(n, []) == n
  {
  }

  // ---- and what of them reaches the swarm task ----

  /** The addresses a transport has queued disconnects of, in order. */
  function DisconnectsIn(commands: seq<Command>): seq<string> {
    if commands == [] then []
    else
      var rest, last := DisconnectsIn(commands[..|commands| - 1]), commands[|commands| - 1];
      if last.Disconnect? then rest + [last.address] else rest
  }

  lemma {:induction false} DisconnectsAppend(a: seq<Command>, b: seq<Command>)
    ensures DisconnectsIn(a + b) == DisconnectsIn(a) + DisconnectsIn(b)
  {
    if b == [] {
      assert a + b == a;
    } else {
      var ab := a + b;
      assert ab[..|ab| - 1] == a + b[..|b| - 1];
      DisconnectsAppend(a, b[..|b| - 1]);
    }
  }

  function DroppedBy(c: Call): seq<string> {
    match c
    case Allow(_) => []
    case Drop(raw) => (match CanonicalAddress(raw) case Some(a) => [a] case None => [])
  }

  /** The addresses some calls drop, in order. */
  function DroppedIn(calls: seq<Call>): seq<string> {
    if calls == [] then [] else DroppedBy(calls[0]) + DroppedIn(calls[1..])
  }

  lemma {:induction false} DroppedInAppend(a: seq<Call>, b: seq<Call>)
    ensures DroppedIn(a + b) == DroppedIn(a) + DroppedIn(b)
  {
    hide DroppedBy;
    if a == [] {
      assert a + b == b;
    } else {
      assert (a + b)[1..] == a[1..] + b;
      DroppedInAppend(a[1..], b);
    }
  }

  /** Every call that drops an address, and no other, queues its disconnect. */
  lemma {:induction false} CallsQueue(n: Net, calls: seq<Call>)
    requires n.kind == Networked
    ensures DisconnectsIn(Called(n, calls).commands) == DisconnectsIn(n.commands) + DroppedIn(calls)
  {
    hide CanonicalAddress;
    if calls == [] {
      assert DroppedIn(calls) == [];
    } else {
      var front, last := calls[..|calls| - 1], calls[|calls| - 1];
      assert calls == front + [last];
      CallsQueue(n, front);
      CalledKeepsKind(n, front);
      DroppedInAppend(front, [last]);
      OneCallQueues(Called(n, front), last);
    }
  }

  lemma OneCallQueues(n: Net, c: Call)
    requires n.kind == Networked
    ensures DisconnectsIn(Performed(n, c).commands) == DisconnectsIn(n.commands) + DroppedIn([c])
  {
    hide CanonicalAddress;
    var one := [c];
    assert one[1..] == [] && DroppedIn([]) == [];
    assert DroppedIn(one) == DroppedBy(c);
    if DroppedBy(c) != [] {
      var more := Performed(n, c).commands;
      assert more[..|more| - 1] == n.commands;
    }
  }

  function EvictedBy(s: Protocol.Wire, l: Label): seq<string> {
    if l.DisconnectSend? && s.surface.Sending? then [s.surface.address] else []
  }

  /** The disconnects some steps send to the swarm task, in order. */
  function Evictions(net: Resolver, s: Protocol.Wire, labels: seq<Label>): seq<string>
    requires Runs(net, s, labels)
    decreases |labels|
  {
    if labels == [] then [] else EvictedBy(s, labels[0]) + Evictions(net, Apply(s, net, labels[0]), labels[1..])
  }

  /** The one about to be sent, if any. */
  function Outgoing(s: Protocol.Wire): seq<string> { if s.surface.Sending? then [s.surface.address] else [] }

  lemma StepSends(s: Protocol.Wire, net: Resolver, l: Label)
    requires Enabled(s, l)
    ensures EvictedBy(s, l) + Outgoing(Apply(s, net, l)) == Outgoing(s) + DroppedIn(CallOf(l))
  {
    hide CanonicalAddress, IsValidCid, Live, Closing;
    if CallOf(l) != [] {
      var one := CallOf(l);
      assert one[1..] == [] && DroppedIn([]) == [];
    }
  }

  /** In every interleaving, each address the calls drop is sent to the swarm task as a disconnect, once per
      call, in order, but for the last which may still be about to be; and nothing else is. */
  lemma {:induction false} EvictionsAreSent(net: Resolver, s: Protocol.Wire, labels: seq<Label>)
    requires Runs(net, s, labels)
    ensures Evictions(net, s, labels) + Outgoing(After(net, s, labels)) == Outgoing(s) + DroppedIn(CallsIn(labels))
    decreases |labels|
  {
    hide Apply, Enabled, CallOf, Outgoing, DroppedBy, EvictedBy;
    if labels == [] {
      assert DroppedIn(CallsIn(labels)) == [];
      assert Outgoing(s) + [] == Outgoing(s);
    } else {
      var t, first := Apply(s, net, labels[0]), CallOf(labels[0]);
      StepSends(s, net, labels[0]);
      EvictionsAreSent(net, t, labels[1..]);
      DroppedInAppend(first, CallsIn(labels[1..]));
      assert CallsIn(labels) == first + CallsIn(labels[1..]);
      SendsChain(EvictedBy(s, labels[0]), Evictions(net, t, labels[1..]), Outgoing(After(net, t, labels[1..])), Outgoing(t),
                 DroppedIn(CallsIn(labels[1..])), Outgoing(s), DroppedIn(first));
    }
  }

  lemma SendsChain(x: seq<string>, ev: seq<string>, end: seq<string>, mid: seq<string>, rest: seq<string>,
                   start: seq<string>, first: seq<string>)
    requires x + mid == start + first && ev + end == mid + rest
    ensures (x + ev) + end == start + (first + rest)
  {
    assert (x + ev) + end == x + (ev + end);
    assert x + (mid + rest) == (x + mid) + rest;
    assert (start + first) + rest == start + (first + rest);
  }

  // ---- the calls a daemon makes ----

  function Allows(addrs: seq<string>): seq<Call> { seq(|addrs|, i requires 0 <= i < |addrs| => Allow(addrs[i])) }

  function Drops(addrs: seq<string>): seq<Call> { seq(|addrs|, i requires 0 <= i < |addrs| => Drop(addrs[i])) }

  /** Applying a roster: drop the evicted, drop whatever left the allowed set, allow the allowed. */
  function RosterCalls(x: SessionState, eff: Roster): seq<Call> {
    var allowed := Reconciled(x, eff).members.allowed;
    Drops(Evicted(x, eff)) + Drops(Lex.Sorted(x.members.allowed - allowed)) + Allows(Lex.Sorted(allowed))
  }

  lemma {:induction false} DropsAre(n: Net, addrs: seq<string>)
    ensures Called(n, Drops(addrs)) == DroppedAll(n, addrs)
  {
    hide Dropped;
    if addrs != [] {
      DropsAre(n, addrs[..|addrs| - 1]);
      assert Drops(addrs)[..|addrs| - 1] == Drops(addrs[..|addrs| - 1]);
    }
  }

  lemma {:induction false} AllowsAre(n: Net, addrs: seq<string>)
    requires n.kind == Networked
    ensures Called(n, Allows(addrs)) == AuthorizedAll(n, addrs)
  {
    hide Dialed;
    if addrs != [] {
      var front := addrs[..|addrs| - 1];
      AllowsAre(n, front);
      CalledKeepsKind(n, Allows(front));
      assert Allows(addrs)[..|addrs| - 1] == Allows(front);
    }
  }

  lemma RosterCallsApply(x: SessionState, eff: Roster)
    requires x.net.kind == Networked
    ensures Called(x.net, RosterCalls(x, eff)) == Applied(x, eff).net
  {
    hide Called, DroppedAll, AuthorizedAll, AllowedSet, Drops, Allows;
    var y := Reconciled(x, eff);
    var gone, allowed := Lex.Sorted(x.members.allowed - y.members.allowed), Lex.Sorted(y.members.allowed);
    var n1 := Called(x.net, Drops(Evicted(x, eff)));
    var n2 := Called(n1, Drops(gone));
    DropsAre(x.net, Evicted(x, eff));
    DropsAre(n1, gone);
    CalledKeepsKind(x.net, Drops(Evicted(x, eff)));
    CalledKeepsKind(n1, Drops(gone));
    AllowsAre(n2, allowed);
    CalledConcat(x.net, Drops(Evicted(x, eff)), Drops(gone));
    CalledConcat(x.net, Drops(Evicted(x, eff)) + Drops(gone), Allows(allowed));
  }

  /** The calls one event makes on the transport of group `g`. */
  function EventCalls(cfg: Config, s: State, e: Event, g: Seed.Bytes): seq<Call> {
    match e
    case Ask(SetRoster(h, roster, links, revocations), starts) =>
      if h == g && EntryFailure(cfg, s, g, starts).None? then
        RosterCalls(Opened(cfg, s, g).groups[g],
          EffectiveRosterOf(roster, Updated(DevicesAt(s, g).registry, Batch(links, revocations), cfg.recover)))
      else []
    case AdmitPeer(h, address, role, starts) =>
      if h == g && EntryFailure(cfg, s, g, starts).None? && Joins(Opened(cfg, s, g).groups[g].members, address, role)
      then [Allow(CanonicalAddress(address).value)] else []
    case DropPeer(h, address) =>
      if h == g && g in s.groups && CanonicalAddress(address).Some? then [Drop(CanonicalAddress(address).value)] else []
    case _ => []
  }

  /** The calls made on `g`'s present transport since it was started. */
  function CallsSince(cfg: Config, events: seq<Event>, g: Seed.Bytes): seq<Call> {
    if events == [] || g !in Run(cfg, events).groups then []
    else
      var front, e := events[..|events| - 1], events[|events| - 1];
      CallsSince(cfg, front, g) + EventCalls(cfg, Run(cfg, front), e, g)
  }

  /** The transport `g` has, or would be given. */
  function NetAt(cfg: Config, s: State, g: Seed.Bytes): Net {
    if g in s.groups then s.groups[g].net else NewNet(cfg.kind)
  }

  lemma RosterEventCalls(cfg: Config, s: State, g: Seed.Bytes, roster: Roster, b: Batch)
    requires cfg.kind == Networked && Laws.GroupInv(cfg, s, g)
    ensures var eff := EffectiveRosterOf(roster, Updated(DevicesAt(s, g).registry, b, cfg.recover));
            RosterSet(cfg, s, g, roster, b).groups[g].net == Called(NetAt(cfg, s, g), RosterCalls(Opened(cfg, s, g).groups[g], eff))
  {
    hide EffectiveRosterOf, Updated, Applied, RosterCalls, Called;
    hide Laws.Sound, Laws.AllowedByGate, WellFormed, IsValidCid;
    var eff := EffectiveRosterOf(roster, Updated(DevicesAt(s, g).registry, b, cfg.recover));
    RosterCallsApply(Opened(cfg, s, g).groups[g], eff);
  }

  lemma EventCallsAuthorize(cfg: Config, s: State, e: Event, g: Seed.Bytes)
    requires cfg.kind == Networked && Laws.GroupInv(cfg, s, g) && g in Step(cfg, s, e).groups
    ensures Step(cfg, s, e).groups[g].net.authorized == Called(NetAt(cfg, s, g), EventCalls(cfg, s, e, g)).authorized
  {
    hide EntryFailure, Updated, EffectiveRosterOf, Applied, RosterCalls, RosterSet, Absorbed, ValidMessages, IsValidCid;
    hide Seed.Decode, DialPeers, CanonicalAddress, Joins, WellFormed, Gate, Laws.Sound, Laws.AllowedByGate, Called;
    NoCalls(NetAt(cfg, s, g));
    if g != Laws.GroupOf(e) {
      Laws.GroupsAreIsolated(cfg, s, e, g);
    } else if e.Ask? && e.request.SetRoster? {
      RosterEventCalls(cfg, s, g, e.request.roster, Batch(e.request.links, e.request.revocations));
    } else if EventCalls(cfg, s, e, g) != [] {
      OneCall(NetAt(cfg, s, g), EventCalls(cfg, s, e, g)[0]);
    }
  }

  lemma OneCall(n: Net, c: Call)
    ensures Called(n, [c]) == Performed(n, c)
  {
    assert [c][..0] == [];
    assert Called(n, []) == n;
  }

  /** Along every run, a session's authorized set is what the calls since its start amount to. */
  lemma {:induction false} CallsSinceAuthorize(cfg: Config, events: seq<Event>, g: Seed.Bytes)
    requires cfg.kind == Networked && g in Run(cfg, events).groups
    ensures Run(cfg, events).groups[g].net.authorized == Called(NewNet(Networked), CallsSince(cfg, events, g)).authorized
  {
    hide Step, EventCalls, Called, Laws.GroupInv;
    var front, e := events[..|events| - 1], events[|events| - 1];
    var s, started := Run(cfg, front), NewNet(Networked);
    var before, now := CallsSince(cfg, front, g), EventCalls(cfg, Run(cfg, front), e, g);
    Laws.RunsKeepInv(cfg, front);
    EventCallsAuthorize(cfg, s, e, g);
    CalledConcat(started, before, now);
    NoCalls(started);
    if g in s.groups {
      CallsSinceAuthorize(cfg, front, g);
      KindAt(cfg, s, g);
    }
    CalledKeepsKind(started, before);
    CalledAuthorized(NetAt(cfg, s, g), Called(started, before), now);
  }

  lemma KindAt(cfg: Config, s: State, g: Seed.Bytes)
    requires Laws.GroupInv(cfg, s, g) && g in s.groups
    ensures s.groups[g].net.kind == cfg.kind
  {
  }

  lemma PublishedQueues(n: Net, data: string, addrs: seq<Seed.Bytes>)
    ensures DisconnectsIn(Published(n, data).commands) == DisconnectsIn(n.commands)
    ensures DisconnectsIn(n.commands + DialPeers(addrs)) == DisconnectsIn(n.commands)
  {
    DisconnectsAppend(n.commands, [Publish(data)]);
    var one := [Publish(data)];
    assert one[..0] == [];
    DisconnectsAppend(n.commands, DialPeers(addrs));
    NoneInDials(addrs);
  }

  lemma {:induction false} NoneInDials(addrs: seq<Seed.Bytes>)
    ensures DisconnectsIn(DialPeers(addrs)) == []
  {
    if addrs != [] {
      NoneInDials(addrs[..|addrs| - 1]);
      var all := DialPeers(addrs);
      assert all[..|all| - 1] == DialPeers(addrs[..|addrs| - 1]);
    }
  }

  /** An event queues the disconnects of exactly the addresses its calls drop. */
  lemma EventCallsQueue(cfg: Config, s: State, e: Event, g: Seed.Bytes)
    requires cfg.kind == Networked && Laws.GroupInv(cfg, s, g) && g in Step(cfg, s, e).groups
    ensures DisconnectsIn(Step(cfg, s, e).groups[g].net.commands)
            == DisconnectsIn(NetAt(cfg, s, g).commands) + DroppedIn(EventCalls(cfg, s, e, g))
  {
    hide EntryFailure, Updated, EffectiveRosterOf, Applied, RosterCalls, RosterSet, Absorbed, ValidMessages, IsValidCid;
    hide Seed.Decode, DialPeers, CanonicalAddress, Joins, WellFormed, Gate, Laws.Sound, Laws.AllowedByGate, Called, DisconnectsIn;
    hide Published, TakesPeers;
    NoneDropped(NetAt(cfg, s, g).commands);
    if g != Laws.GroupOf(e) {
      Laws.GroupsAreIsolated(cfg, s, e, g);
    } else if e.Ask? && e.request.SetRoster? {
      var b := Batch(e.request.links, e.request.revocations);
      RosterEventCalls(cfg, s, g, e.request.roster, b);
      CallsQueue(NetAt(cfg, s, g), EventCalls(cfg, s, e, g));
      NoCalls(NetAt(cfg, s, g));
    } else if e.Ask? && e.request.ShareFile? {
      PublishedQueues(NetAt(cfg, s, g), e.request.cid, []);
    } else if e.Ask? && e.request.AddSeed? && Seed.Decode(e.request.text).Ok? {
      PublishedQueues(NetAt(cfg, s, g), "", Seed.Decode(e.request.text).value.addrs);
    } else if e.AdmitPeer? || e.DropPeer? {
      HookQueues(cfg, s, e, g);
    }
  }

  lemma NoneDropped(commands: seq<Command>)
    ensures DisconnectsIn(commands) + DroppedIn([]) == DisconnectsIn(commands)
  {
  }

  lemma HookQueues(cfg: Config, s: State, e: Event, g: Seed.Bytes)
    requires cfg.kind == Networked && Laws.GroupInv(cfg, s, g) && g in Step(cfg, s, e).groups
    requires (e.AdmitPeer? || e.DropPeer?) && e.group == g
    ensures DisconnectsIn(Step(cfg, s, e).groups[g].net.commands)
            == DisconnectsIn(NetAt(cfg, s, g).commands) + DroppedIn(EventCalls(cfg, s, e, g))
  {
    hide EntryFailure, CanonicalAddress, RoleRank, WellFormed, Gate, Laws.Sound, Laws.AllowedByGate, IsCanonical;
    var n, calls := NetAt(cfg, s, g), EventCalls(cfg, s, e, g);
    CanonicalFixpoint(e.address);
    if calls != [] {
      assert calls == [calls[0]];
      OneCallQueues(n, calls[0]);
      CanonicalFixpoint(CanonicalAddress(e.address).value);
    }
  }

  /** Along every run, a session's transport has queued disconnects of exactly the addresses the calls since
      its start dropped, in order. */
  lemma {:induction false} CallsSinceQueue(cfg: Config, events: seq<Event>, g: Seed.Bytes)
    requires cfg.kind == Networked && g in Run(cfg, events).groups
    ensures DisconnectsIn(Run(cfg, events).groups[g].net.commands) == DroppedIn(CallsSince(cfg, events, g))
  {
    hide Step, EventCalls, Laws.GroupInv, DisconnectsIn, DroppedIn;
    var front, e := events[..|events| - 1], events[|events| - 1];
    var s := Run(cfg, front);
    Laws.RunsKeepInv(cfg, front);
    EventCallsQueue(cfg, s, e, g);
    DroppedInAppend(CallsSince(cfg, front, g), EventCalls(cfg, s, e, g));
    NothingQueued();
    if g in s.groups { CallsSinceQueue(cfg, front, g); }
  }

  lemma NothingQueued()
    ensures DisconnectsIn(NewNet(Networked).commands) == [] == DroppedIn([])
  {
  }

  /** So for any run of the daemon and any interleaving: the disconnects sent to the group's swarm task, with
      the one about to be, are exactly those the session queued, in order. */
  lemma EvictionsReachTheTask(cfg: Config, events: seq<Event>, g: Seed.Bytes, net: Resolver, labels: seq<Label>)
    requires cfg.kind == Networked && g in Run(cfg, events).groups
    requires Runs(net, START, labels) && CallsIn(labels) == CallsSince(cfg, events, g)
    ensures Evictions(net, START, labels) + Outgoing(After(net, START, labels))
            == DisconnectsIn(Run(cfg, events).groups[g].net.commands)
  {
    hide Runs, After, CallsIn, CallsSince, Run, Evictions, DroppedIn, DisconnectsIn;
    EvictionsAreSent(net, START, labels);
    CallsSinceQueue(cfg, events, g);
    assert Outgoing(START) + DroppedIn(CallsIn(labels)) == DroppedIn(CallsIn(labels));
  }

  // ---- the whole-roster step ----

  /** The atomic action a call performs. */
  function CallAction(c: Call): Action {
    match c
    case Allow(raw) => (match CanonicalAddress(raw) case Some(a) => Authorize(a) case None => Stutter)
    case Drop(raw) => (match CanonicalAddress(raw) case Some(a) => Deauthorize(a) case None => Stutter)
  }

  function CallActions(calls: seq<Call>): seq<Action> { seq(|calls|, i requires 0 <= i < |calls| => CallAction(calls[i])) }

  /** It is the action of the step that makes the call. */
  lemma CallIsAction(s: Protocol.Wire, net: Resolver, l: Label)
    requires Enabled(s, l) && CallOf(l) != []
    ensures [ActionOf(s, net, l)] == CallActions(CallOf(l))
  {
    hide CanonicalAddress;
  }

  lemma CanonicalCalls(addrs: seq<string>)
    requires Laws.AllCanonical(addrs)
    ensures CallActions(Drops(addrs)) == Deauthorizes(addrs) && CallActions(Allows(addrs)) == Authorizes(addrs)
  {
    hide CanonicalAddress, IsCanonical;
    forall i | 0 <= i < |addrs|
      ensures CallAction(Drop(addrs[i])) == Deauthorize(addrs[i]) && CallAction(Allow(addrs[i])) == Authorize(addrs[i])
    {
      CanonicalFixpoint(addrs[i]);
    }
  }

  /** The calls that apply a roster can all be taken by the atomic machine, and are its whole-roster step. */
  lemma RosterIsOneStep(x: SessionState, eff: Roster, at: Atomic)
    requires Laws.Sound(x) && x.net.kind == Networked
    requires at.authorized == x.net.authorized && forall a :: a in at.wire ==> a in at.authorized
    ensures CanAll(at, CallActions(RosterCalls(x, eff)))
    ensures DoAll(at, CallActions(RosterCalls(x, eff))) == RosterStep(at, AllowedSet(eff))
  {
    hide AllowedSet, Lex.Sorted, DoAll, CanAll, Drops, Allows, CallAction, IsCanonical;
    var allowed := AllowedSet(eff);
    var out, left, stay := Evicted(x, eff), Lex.Sorted(x.members.allowed - allowed), Lex.Sorted(allowed);
    SortedHolds(x.members.admitted - allowed);
    SortedHolds(x.members.allowed - allowed);
    SortedHolds(allowed);
    Laws.AllowedIsCanonical(eff);
    Laws.SortedCanonical(x.members.admitted - allowed);
    Laws.SortedCanonical(x.members.allowed - allowed);
    Laws.SortedCanonical(allowed);
    CanonicalCalls(out);
    CanonicalCalls(left);
    CanonicalCalls(stay);
    var calls := RosterCalls(x, eff);
    assert calls == Drops(out) + Drops(left) + Allows(stay);
    assert CallActions(calls) == CallActions(Drops(out)) + CallActions(Drops(left)) + CallActions(Allows(stay));
    assert Deauthorizes(out) + Deauthorizes(left) == Deauthorizes(out + left);
    RosterStepInParts(at, out + left, stay);
    assert (set a | a in stay) == allowed;
  }

  lemma SortedHolds(s: set<string>)
    ensures forall a :: a in Lex.Sorted(s) <==> a in s
  {
    Lex.ElementsOfSorted(s);
    Lex.ElementsAre(Lex.Sorted(s));
    assert forall a :: a in Lex.Sorted(s) <==> a in Lex.Elements(Lex.Sorted(s));
  }

  // ---- the theorems ----

  /** For any run of the daemon and any interleaving of the calls it made on a group's transport with that
      group's swarm task: the concurrent authorized set is the session's, which is the allowed set unless a
      peer of the group was dropped; and a live ungated peer, unless its disconnect is on its way, has an
      address the gate of the stored roster and registry lets in. */
  lemma MeshWithinGate(cfg: Config, events: seq<Event>, g: Seed.Bytes, net: Resolver, labels: seq<Label>)
    requires cfg.kind == Networked && g in Run(cfg, events).groups
    requires Runs(net, START, labels) && CallsIn(labels) == CallsSince(cfg, events, g)
    ensures After(net, START, labels).authorized == Run(cfg, events).groups[g].net.authorized
    ensures (forall i :: 0 <= i < |events| ==> !(events[i].DropPeer? && events[i].group == g))
            ==> After(net, START, labels).authorized == Run(cfg, events).groups[g].members.allowed
    ensures forall a :: OnWire(After(net, START, labels), net, a)
                        ==> a in Gate(DevicesAt(Run(cfg, events), g).roster, DevicesAt(Run(cfg, events), g).registry)
  {
    hide Runs, After, OnWire, Gate, CallsSince, CallsIn, Called, ActionsOf, Run;
    var s, w := Run(cfg, events), After(net, START, labels);
    SurfaceMirrors(net, START, labels, NewNet(Networked));
    CallsSinceAuthorize(cfg, events, g);
    Laws.EveryRunIsSound(cfg, events, g);
    WireWithinAuthorized(net, labels);
    if forall i :: 0 <= i < |events| ==> !(events[i].DropPeer? && events[i].group == g) {
      Laws.AlignedWithoutDrops(cfg, events, g);
    }
  }

  /** A call never authorizes anyone but the address it allows. */
  lemma {:induction false} CalledWithin(n: Net, calls: seq<Call>, bound: set<string>)
    requires n.kind == Networked && n.authorized <= bound
    requires forall i :: 0 <= i < |calls| && calls[i].Allow? ==> Named(calls[i].a) <= bound
    ensures Called(n, calls).authorized <= bound
  {
    hide CanonicalAddress;
    if calls != [] {
      var front := calls[..|calls| - 1];
      CalledWithin(n, front, bound);
      CalledKeepsKind(n, front);
    }
  }

  /** The calls that apply a roster, cut off anywhere, leave the authorized set wholly within the old allowed
      set or wholly within the new one: everything is dropped before anything is allowed. */
  lemma RosterCallsWhole(x: SessionState, eff: Roster, n: Net, made: seq<Call>)
    requires Laws.Sound(x) && x.net.kind == n.kind == Networked && n.authorized == x.net.authorized
    requires made <= RosterCalls(x, eff)
    ensures Called(n, made).authorized <= x.members.allowed || Called(n, made).authorized <= AllowedSet(eff)
  {
    hide AllowedSet, Lex.Sorted, IsCanonical, CanonicalAddress, Called, Laws.AllCanonical, Laws.CanonicalSet;
    var allowed := AllowedSet(eff);
    var out, left, stay := Evicted(x, eff), Lex.Sorted(x.members.allowed - allowed), Lex.Sorted(allowed);
    var drops := Drops(out) + Drops(left);
    if |made| <= |drops| {
      assert forall i :: 0 <= i < |made| ==> made[i] == drops[i];
      CalledWithin(n, made, x.members.allowed);
    } else {
      var allows := made[|drops|..];
      assert made == drops + allows;
      DropsLeaveNew(x, eff, n);
      CalledConcat(n, drops, allows);
      CalledKeepsKind(n, drops);
      forall i | 0 <= i < |allows| ensures allows[i].Allow? && Named(allows[i].a) <= allowed {
        assert allows[i] == made[|drops| + i] == Allows(stay)[i];
        AllowedNamed(eff, stay[i]);
      }
      CalledWithin(Called(n, drops), allows, allowed);
    }
  }

  lemma AllowedNamed(eff: Roster, a: string)
    requires a in Lex.Sorted(AllowedSet(eff))
    ensures Named(a) <= AllowedSet(eff)
  {
    hide AllowedSet, Lex.Sorted, IsCanonical;
    Laws.AllowedIsCanonical(eff);
    SortedHolds(AllowedSet(eff));
    CanonicalFixpoint(a);
  }

  /** Once everything is dropped, what is authorized is allowed by the new roster. */
  lemma DropsLeaveNew(x: SessionState, eff: Roster, n: Net)
    requires Laws.Sound(x) && x.net.kind == n.kind == Networked && n.authorized == x.net.authorized
    ensures Called(n, Drops(Evicted(x, eff)) + Drops(Lex.Sorted(x.members.allowed - AllowedSet(eff)))).authorized <= AllowedSet(eff)
  {
    hide AllowedSet, Lex.Sorted, IsCanonical, Called, Laws.AllCanonical, Drops, DroppedAll, Lex.Elements;
    var allowed := AllowedSet(eff);
    var out, left := Evicted(x, eff), Lex.Sorted(x.members.allowed - allowed);
    SoundIsCanonical(x, allowed);
    Laws.SortedCanonical(x.members.admitted - allowed);
    Laws.SortedCanonical(x.members.allowed - allowed);
    CalledConcat(n, Drops(out), Drops(left));
    DropsAre(n, out);
    Laws.DroppedAllIs(n, out);
    DropsAre(DroppedAll(n, out), left);
    Laws.DroppedAllIs(DroppedAll(n, out), left);
  }

  lemma SoundIsCanonical(x: SessionState, allowed: set<string>)
    requires Laws.Sound(x)
    ensures Laws.CanonicalSet(x.members.admitted - allowed) && Laws.CanonicalSet(x.members.allowed - allowed)
  {
    hide IsCanonical;
  }

  /** The same for any event: some of its calls made, the authorized set is within what was allowed before it
      or within what is allowed after it. */
  lemma EventCallsWhole(cfg: Config, s: State, e: Event, g: Seed.Bytes, n: Net, made: seq<Call>)
    requires cfg.kind == n.kind == Networked && Laws.GroupInv(cfg, s, g) && n.authorized == NetAt(cfg, s, g).authorized
    requires made <= EventCalls(cfg, s, e, g)
    ensures Called(n, made).authorized <= Laws.AllowedAt(s, g)
            || Called(n, made).authorized <= Laws.AllowedAt(Step(cfg, s, e), g)
  {
    hide EntryFailure, Updated, EffectiveRosterOf, RosterCalls, Called, Absorbed, ValidMessages, IsValidCid, Step;
    hide Seed.Decode, DialPeers, CanonicalAddress, RoleRank, WellFormed, Gate, Laws.AllowedByGate, AllowedSet, IsCanonical;
    assert n.authorized <= Laws.AllowedAt(s, g);
    if e.Ask? && e.request.SetRoster? && e.request.group == g && EntryFailure(cfg, s, g, e.starts).None? {
      var b := Batch(e.request.links, e.request.revocations);
      var eff := EffectiveRosterOf(e.request.roster, Updated(DevicesAt(s, g).registry, b, cfg.recover));
      var x := Opened(cfg, s, g).groups[g];
      RosterCallsWhole(x, eff, n, made);
      RosterEventAllows(cfg, s, e, g);
    } else {
      forall i | 0 <= i < |made| && made[i].Allow? ensures Named(made[i].a) <= Laws.AllowedAt(s, g) {
        assert made[i] == EventCalls(cfg, s, e, g)[i];
        CanonicalFixpoint(e.address);
        CanonicalFixpoint(CanonicalAddress(e.address).value);
      }
      CalledWithin(n, made, Laws.AllowedAt(s, g));
    }
  }

  lemma RosterEventAllows(cfg: Config, s: State, e: Event, g: Seed.Bytes)
    requires e.Ask? && e.request.SetRoster? && e.request.group == g && EntryFailure(cfg, s, g, e.starts).None?
    ensures var b := Batch(e.request.links, e.request.revocations);
            Laws.AllowedAt(Step(cfg, s, e), g)
            == AllowedSet(EffectiveRosterOf(e.request.roster, Updated(DevicesAt(s, g).registry, b, cfg.recover)))
  {
    hide EntryFailure, Updated, EffectiveRosterOf, AllowedSet, DroppedAll, AuthorizedAll;
  }

  function GateAt(s: State, g: Seed.Bytes): set<string> { Gate(DevicesAt(s, g).roster, DevicesAt(s, g).registry) }

  /** In the middle of an event, some of its calls made and the others not: nobody unauthorized is on the
      wire, and whoever is authorized was allowed before the event, or else is allowed after it, all alike. */
  lemma MidEvent(cfg: Config, events: seq<Event>, e: Event, g: Seed.Bytes, made: seq<Call>, net: Resolver, labels: seq<Label>)
    requires cfg.kind == Networked && made <= EventCalls(cfg, Run(cfg, events), e, g)
    requires Runs(net, START, labels) && CallsIn(labels) == CallsSince(cfg, events, g) + made
    ensures var now := After(net, START, labels).authorized;
            now <= Laws.AllowedAt(Run(cfg, events), g) || now <= Laws.AllowedAt(Run(cfg, events + [e]), g)
    ensures forall a :: OnWire(After(net, START, labels), net, a) ==> a in After(net, START, labels).authorized
  {
    hide Runs, After, OnWire, CallsIn, Called, ActionsOf, EventCalls, Step, Laws.GroupInv;
    var s, all := Run(cfg, events), events + [e];
    assert all[..|all| - 1] == events;
    var before, started := CallsSince(cfg, events, g), NewNet(Networked);
    WireWithinAuthorized(net, labels);
    SurfaceMirrors(net, START, labels, started);
    CalledConcat(started, before, made);
    CalledKeepsKind(started, before);
    NoCalls(started);
    if g in s.groups {
      CallsSinceAuthorize(cfg, events, g);
    }
    Laws.RunsKeepInv(cfg, events);
    EventCallsWhole(cfg, s, e, g, Called(started, before), made);
  }

  /** So at every moment, between events and inside them, the wire is wholly within the gate before the event
      or wholly within the gate after it. */
  lemma MeshWithinGates(cfg: Config, events: seq<Event>, e: Event, g: Seed.Bytes, made: seq<Call>,
                        net: Resolver, labels: seq<Label>)
    requires cfg.kind == Networked && made <= EventCalls(cfg, Run(cfg, events), e, g)
    requires Runs(net, START, labels) && CallsIn(labels) == CallsSince(cfg, events, g) + made
    ensures var w := After(net, START, labels);
            || (forall a :: OnWire(w, net, a) ==> a in GateAt(Run(cfg, events), g))
            || (forall a :: OnWire(w, net, a) ==> a in GateAt(Run(cfg, events + [e]), g))
  {
    hide Runs, After, OnWire, CallsIn, CallsSince, EventCalls, Gate, Run, Laws.Rostered;
    MidEvent(cfg, events, e, g, made, net, labels);
    Laws.EveryRunIsSound(cfg, events, g);
    Laws.EveryRunIsSound(cfg, events + [e], g);
  }

  /** And every message that passes its check, at whatever moment, is from an address in the one gate or the
      other. */
  lemma MessagesAreFromTheGate(cfg: Config, events: seq<Event>, e: Event, g: Seed.Bytes, made: seq<Call>,
                               net: Resolver, labels: seq<Label>, l: Label)
    requires cfg.kind == Networked && made <= EventCalls(cfg, Run(cfg, events), e, g)
    requires Runs(net, START, labels) && CallsIn(labels) == CallsSince(cfg, events, g) + made
    requires Enabled(After(net, START, labels), l) && l.MessageRead? && Apply(After(net, START, labels), net, l).task.Accepting?
    ensures var m := Apply(After(net, START, labels), net, l).task.message;
            && net(l.source) == Some(m.from) && IsValidCid(m.data)
            && (m.from in GateAt(Run(cfg, events), g) || m.from in GateAt(Run(cfg, events + [e]), g))
  {
    hide Runs, After, CallsIn, CallsSince, EventCalls, Gate, Run, IsValidCid, Laws.Rostered, RecordInv, CloseInv;
    MidEvent(cfg, events, e, g, made, net, labels);
    Laws.EveryRunIsSound(cfg, events, g);
    Laws.EveryRunIsSound(cfg, events + [e], g);
    StartInv(net);
    WireLaws.RunsKeepInv(net, START, labels);
    CheckedMessage(After(net, START, labels), net, l);
  }

  lemma CheckedMessage(s: Protocol.Wire, net: Resolver, l: Label)
    requires Enabled(s, l) && l.MessageRead? && Apply(s, net, l).task.Accepting? && PeerInv(s, net, l.source)
    ensures var m := Apply(s, net, l).task.message;
            m.from in s.authorized && net(l.source) == Some(m.from) && IsValidCid(m.data)
  {
    hide IsValidCid;
  }

  /** A member with an accepted revocation in the group is never meshed under its own address while it is on
      the roster, whatever happens after and in the middle of what happens next, with only a disconnect on
      its way as exception. */
  lemma RevokedNeverMeshed(cfg: Config, events: seq<Event>, more: seq<Event>, e: Event, g: Seed.Bytes, m: string, d: string,
                           made: seq<Call>, net: Resolver, labels: seq<Label>)
    requires cfg.kind == Networked && made <= EventCalls(cfg, Run(cfg, events + more), e, g)
    requires EverRevoked(Laws.Batches(Laws.Updates(cfg, events, g)), cfg.recover, (m, d))
    requires OnRoster(DevicesAt(Run(cfg, events + more), g).roster, m)
    requires OnRoster(DevicesAt(Run(cfg, events + more + [e]), g).roster, m)
    requires Runs(net, START, labels) && CallsIn(labels) == CallsSince(cfg, events + more, g) + made
    ensures !OnWire(After(net, START, labels), net, m)
  {
    hide Runs, After, OnWire, CallsSince, CallsIn, EventCalls, EverRevoked, OnRoster, Run, Laws.Batches, Laws.Updates;
    MidEvent(cfg, events + more, e, g, made, net, labels);
    assert events + more + [e] == events + (more + [e]);
    if g in Run(cfg, events + more).groups {
      Laws.RevocationIsForever(cfg, events, more, g, m, d);
    }
    if g in Run(cfg, events + more + [e]).groups {
      Laws.RevocationIsForever(cfg, events, more + [e], g, m, d);
    }
  }
}
