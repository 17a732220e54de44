/** What holds of a daemon over every run: requests of every kind, transport hooks, and a network that
    may report anything. */
module DaemonLaws {
  import opened Wrappers
  import opened Addresses
  import opened Links
  import opened Devices
  import opened EffectiveRoster
  import opened Membership
  import opened Session
  import opened Seed
  import opened Daemon
  import opened RegistryLaws
  import opened GateLaws
  import opened SeedLaws
  import Lex

  // ---- dropping and authorizing whole lists ----

  predicate AllCanonical(s: seq<string>) { forall i :: 0 <= i < |s| ==> IsCanonical(s[i]) }

  ghost predicate CanonicalSet(s: set<string>) { forall a :: a in s ==> IsCanonical(a) }

  lemma {:induction false} DroppedAllIs(n: Net, peers: seq<string>)
    requires AllCanonical(peers)
    ensures var t := DroppedAll(n, peers);
            && t.kind == n.kind && t.inbox == n.inbox && t.listening == n.listening
            && t.connected == n.connected - Lex.Elements(peers)
            && t.authorized == (if n.kind == Networked then n.authorized - Lex.Elements(peers) else n.authorized)
            && t.commands == (if n.kind == Networked then n.commands + Disconnects(peers) else n.commands)
  {
    hide CanonicalAddress, IsCanonical, Disconnects;
    if peers != [] {
      var front, last := peers[..|peers| - 1], peers[|peers| - 1];
      assert peers == front + [last];
      DroppedAllIs(n, front);
      CanonicalFixpoint(last);
      DisconnectsLast(n.commands, front, last);
    } else {
      NoDisconnects(n.commands);
    }
  }

  lemma DisconnectsLast(commands: seq<Command>, front: seq<string>, last: string)
    ensures commands + Disconnects(front + [last]) == commands + Disconnects(front) + [Disconnect(last)]
  {
    assert Disconnects(front + [last]) == Disconnects(front) + [Disconnect(last)];
  }

  lemma NoDisconnects(commands: seq<Command>)
    ensures commands + Disconnects([]) == commands
  {
  }

  lemma {:induction false} AuthorizedAllIs(n: Net, addrs: seq<string>)
    requires AllCanonical(addrs)
    ensures var t := AuthorizedAll(n, addrs);
            && t.kind == n.kind && t.inbox == n.inbox && t.listening == n.listening && t.connected == n.connected
            && t.commands == n.commands
            && t.authorized == (if n.kind == Networked then n.authorized + Lex.Elements(addrs) else n.authorized)
  {
    hide CanonicalAddress, IsCanonical;
    if addrs != [] {
      AuthorizedAllIs(n, addrs[..|addrs| - 1]);
      CanonicalFixpoint(addrs[|addrs| - 1]);
    }
  }

  lemma SortedCanonical(s: set<string>)
    requires CanonicalSet(s)
    ensures AllCanonical(Lex.Sorted(s)) && Lex.Elements(Lex.Sorted(s)) == s
  {
    hide IsCanonical;
    Lex.SortedLists(s);
    Lex.ElementsOfSorted(s);
    forall i | 0 <= i < |Lex.Sorted(s)| ensures IsCanonical(Lex.Sorted(s)[i]) {
      assert Lex.Sorted(s)[i] in Lex.Sorted(s);
    }
  }

  lemma {:induction false} AllowedIsCanonical(roster: Roster)
    ensures CanonicalSet(AllowedSet(roster))
  {
    hide CanonicalAddress, IsCanonical, RoleRank;
    if roster != [] {
      AllowedIsCanonical(roster[..|roster| - 1]);
      CanonicalFixpoint(roster[|roster| - 1].0);
    }
  }

  // ---- one session ----

  /** Admitted within allowed; on one node the wire is exactly the admitted set; on the network nobody is
      authorized beyond the allowed set. */
  ghost predicate Sound(x: SessionState) {
    && x.members.admitted <= x.members.allowed && CanonicalSet(x.members.allowed)
    && (x.net.kind == InProcess ==> x.net.connected == x.members.admitted)
    && (x.net.kind == Networked ==> x.net.authorized <= x.members.allowed)
  }

  /** Applying a roster: the session ends sound, allows exactly the roster's gate, keeps of the admitted
      exactly those still allowed, and on the network authorizes exactly the allowed set, whatever
      drops came before, and sends the swarm task a disconnect for each evicted address and then for each
      that left the allowed set, in order. */
  lemma AppliedIsSound(x: SessionState, eff: Roster)
    requires Sound(x)
    ensures var y := Applied(x, eff);
            && Sound(y) && y.net.kind == x.net.kind && y.net.inbox == x.net.inbox
            && y.members == Members(AllowedSet(eff), x.members.admitted * AllowedSet(eff))
            && (x.net.kind == Networked ==> y.net.authorized == y.members.allowed)
            && (x.net.kind == Networked ==> y.net.connected == x.net.connected - (x.members.allowed - AllowedSet(eff)))
            && (x.net.kind == Networked ==>
                  y.net.commands == x.net.commands + Disconnects(Lex.Sorted(x.members.admitted - AllowedSet(eff)))
                                    + Disconnects(Lex.Sorted(x.members.allowed - AllowedSet(eff))))
  {
    hide IsCanonical, AllowedSet;
    var after := AllowedSet(eff);
    AllowedIsCanonical(eff);
    SortedCanonical(x.members.admitted - after);
    SortedCanonical(x.members.allowed - after);
    SortedCanonical(after);
    var n1 := DroppedAll(x.net, Evicted(x, eff));
    var n2 := DroppedAll(n1, Lex.Sorted(x.members.allowed - after));
    DroppedAllIs(x.net, Evicted(x, eff));
    DroppedAllIs(n1, Lex.Sorted(x.members.allowed - after));
    AuthorizedAllIs(n2, Lex.Sorted(after));
  }

  lemma JoinedIsSound(x: SessionState, address: string, role: string)
    requires Sound(x)
    ensures Sound(Joined(x, address, role)) && Joined(x, address, role).members.allowed == x.members.allowed
    ensures Joined(x, address, role).net.kind == x.net.kind
    ensures x.net.kind == Networked && x.net.authorized == x.members.allowed
            ==> Joined(x, address, role).net.authorized == x.members.allowed
  {
    hide CanonicalAddress, IsCanonical, RoleRank;
    if Joins(x.members, address, role) { CanonicalFixpoint(CanonicalAddress(address).value); }
  }

  lemma LeftIsSound(x: SessionState, address: string)
    requires Sound(x)
    ensures Sound(Left(x, address)) && Left(x, address).members.allowed == x.members.allowed
    ensures Left(x, address).net.kind == x.net.kind
    ensures Left(x, address).members.admitted == x.members.admitted - Named(address)
    ensures Left(x, address).net.connected == x.net.connected - Named(address)
    ensures x.net.kind == Networked ==> Left(x, address).net.authorized == x.net.authorized - Named(address)
    ensures x.net.kind == Networked ==>
              Left(x, address).net.commands
              == match CanonicalAddress(address)
                 case Some(a) => x.net.commands + [Disconnect(a)]
                 case None => x.net.commands
  {
    hide CanonicalAddress, IsCanonical;
    if CanonicalAddress(address).Some? {
      CanonicalFixpoint(address);
      CanonicalFixpoint(CanonicalAddress(address).value);
    }
  }

  // ---- the run invariant ----

  /** A session's allowed set is empty, or is the gate of the roster and registry stored for its group. */
  ghost predicate AllowedByGate(s: State, g: Bytes)
    requires g in s.groups
  {
    s.groups[g].members.allowed == {}
    || (g in s.devices && s.groups[g].members.allowed == Gate(s.devices[g].roster, s.devices[g].registry))
  }

  ghost predicate GroupInv(cfg: Config, s: State, g: Bytes) {
    && (g in s.groups ==> s.groups[g].net.kind == cfg.kind && Sound(s.groups[g]) && AllowedByGate(s, g))
    && (g in s.devices ==> WellFormed(s.devices[g].registry))
    && (g in s.shared ==> g in s.groups && |s.shared[g]| <= MAX_SHARED_FILES && forall c :: c in s.shared[g] ==> IsValidCid(c))
  }

  ghost predicate Inv(cfg: Config, s: State) {
    && |s.groups| <= MAX_GROUPS
    && forall g :: GroupInv(cfg, s, g)
  }

  function GroupOf(e: Event): Bytes {
    match e
    case Ask(request, _) => request.group
    case AdmitPeer(g, _, _, _) => g
    case DropPeer(g, _) => g
    case Wire(g, _, _, _) => g
  }

  /** Everything the daemon holds for `h` is the same in both states. */
  ghost predicate SameAt(s: State, t: State, h: Bytes) {
    && (h in s.groups <==> h in t.groups) && (h in s.groups ==> s.groups[h] == t.groups[h])
    && (h in s.shared <==> h in t.shared) && (h in s.shared ==> s.shared[h] == t.shared[h])
    && (h in s.devices <==> h in t.devices) && (h in s.devices ==> s.devices[h] == t.devices[h])
  }

  lemma DrainIsIsolated(s: State, g: Bytes, h: Bytes)
    requires h != g
    ensures SameAt(s, Drained(s, g), h) && SameAt(s, AdmissionSynced(s, g), h)
  {
    hide Absorbed, ValidMessages, Synced;
  }

  lemma RequestIsIsolated(cfg: Config, s: State, req: Request, starts: bool, h: Bytes)
    requires h != req.group
    ensures SameAt(s, Next(cfg, s, req, starts), h)
  {
    hide EntryFailure, Applied, Updated, EffectiveRosterOf, ShareFailure, SeedFailure, Drained, AdmissionSynced;
    hide Published, Decode, DialPeers;
    var g := req.group;
    DrainIsIsolated(s, g, h);
    DrainIsIsolated(AdmissionSynced(s, g), g, h);
  }

  /** An event for one group leaves everything held for every other group alone. */
  lemma GroupsAreIsolated(cfg: Config, s: State, e: Event, h: Bytes)
    requires h != GroupOf(e)
    ensures SameAt(s, Step(cfg, s, e), h)
  {
    hide EntryFailure, Next, Joined, Left;
    if e.Ask? { RequestIsIsolated(cfg, s, e.request, e.starts, h); }
  }

  /** A request answered with an error changed nothing at all. */
  lemma ErrorsChangeNothing(cfg: Config, s: State, req: Request, starts: bool)
    requires Answer(cfg, s, req, starts).Error?
    ensures Next(cfg, s, req, starts) == s
  {
    hide EntryFailure, ShareFailure, SeedFailure, Evicted, Updated, EffectiveRosterOf, Refusals, Drained, AdmissionSynced;
  }

  // ---- the shared set ----

  function CidsOf(messages: seq<MeshMessage>): set<string> { set m | m in messages :: m.data }

  /** Absorbing keeps every old file, adds only received ones, and fills the set up to its cap and no
      further: it ends with as many as both together hold, or the cap. */
  lemma {:induction false} AbsorbedFills(files: set<string>, messages: seq<MeshMessage>)
    requires |files| <= MAX_SHARED_FILES
    ensures var t, all := Absorbed(files, messages), files + CidsOf(messages);
            && files <= t <= all
            && |t| == (if |all| < MAX_SHARED_FILES then |all| else MAX_SHARED_FILES)
            && (|all| <= MAX_SHARED_FILES ==> t == all)
  {
    if messages == [] {
      assert files + CidsOf(messages) == files;
    } else {
      var front, m := messages[..|messages| - 1], messages[|messages| - 1];
      assert messages == front + [m];
      AbsorbedFills(files, front);
      var before, all := Absorbed(files, front), files + CidsOf(front);
      assert files + CidsOf(messages) == all + {m.data};
      CardinalityMonotone(all, all + {m.data});
      if |before| == |all| { SubsetSameSize(before, all); }
    }
  }

  lemma SubsetSameSize<T>(a: set<T>, b: set<T>)
    requires a <= b && |a| == |b|
    ensures a == b
  {
    assert b == a + (b - a);
  }

  lemma {:induction false} ValidMessagesAre(inbox: seq<MeshMessage>)
    ensures forall m :: m in ValidMessages(inbox) <==> m in inbox && IsValidCid(m.data)
  {
    hide IsValidCid;
    if inbox != [] {
      var front := inbox[..|inbox| - 1];
      assert inbox == front + [inbox[|inbox| - 1]];
      ValidMessagesAre(front);
    }
  }

  /** One drain: the inbox is emptied, its well-formed messages are handed over in order, and the shared
      set grows to hold their CIDs, up to the cap. */
  lemma DrainFills(cfg: Config, s: State, g: Bytes)
    requires GroupInv(cfg, s, g) && g in s.groups
    ensures var t, had, got := Drained(s, g), SharedAt(s, g), CidsOf(DrainedMessages(s, g));
            && t.groups[g].net.inbox == []
            && had <= SharedAt(t, g) <= had + got
            && |SharedAt(t, g)| == (if |had + got| < MAX_SHARED_FILES then |had + got| else MAX_SHARED_FILES)
            && forall c :: c in SharedAt(t, g) ==> IsValidCid(c)
  {
    hide IsValidCid, Absorbed, ValidMessages, AllowedByGate, Sound;
    var messages := DrainedMessages(s, g);
    AbsorbedFills(SharedAt(s, g), messages);
    ValidMessagesAre(s.groups[g].net.inbox);
    if messages == [] { assert SharedAt(s, g) + CidsOf(messages) == SharedAt(s, g); }
  }

  /** Pages asked for one after another, each starting where the last one ended, until one comes back
      empty. */
  function Walk(files: seq<string>, offset: nat, limit: nat): seq<string>
    decreases if offset < |files| then |files| - offset else 0
  {
    var page := Page(files, offset, limit);
    if page == [] then [] else page + Walk(files, offset + |page|, limit)
  }

  /** With a limit of at least one, the pages from the start are the whole sorted listing, each file
      exactly once. */
  lemma {:induction false} PagesTile(files: seq<string>, offset: nat, limit: nat)
    requires limit >= 1
    ensures Walk(files, offset, limit) == if offset <= |files| then files[offset..] else []
    decreases if offset < |files| then |files| - offset else 0
  {
    var page := Page(files, offset, limit);
    if page != [] {
      hide Page;
      var next := offset + |page|;
      PageIs(files, offset, limit);
      PagesTile(files, next, limit);
      assert files[offset..next] + files[next..] == files[offset..];
    }
  }

  lemma PageIs(files: seq<string>, offset: nat, limit: nat)
    requires Page(files, offset, limit) != []
    ensures var next := offset + |Page(files, offset, limit)|; next <= |files| && Page(files, offset, limit) == files[offset..next]
  {
  }

  /** A page request leaves nothing for the next to drain, whatever page that asks for. */
  lemma PagesSeeOneListing(cfg: Config, s: State, g: Bytes, offset: nat, limit: Option<nat>, starts: bool,
                           other: nat, otherLimit: Option<nat>)
    ensures var t := Next(cfg, s, SharedFiles(g, offset, limit), starts);
            Next(cfg, t, SharedFiles(g, other, otherLimit), starts) == t
  {
    hide IsValidCid, Absorbed;
    if g in s.groups {
      var t := Drained(s, g);
      assert t.groups[g := t.groups[g].(net := t.groups[g].net.(inbox := []))] == t.groups;
    }
  }

  function FilesOf(r: Response): seq<string> { if r.FilePage? then r.files else [] }

  /** The files a client collects by asking for page after page, with nothing in between, until one is
      empty; at most `asks` times. */
  function Browse(cfg: Config, s: State, g: Bytes, offset: nat, limit: nat, starts: bool, asks: nat): seq<string>
    decreases asks
  {
    var page := FilesOf(Answer(cfg, s, SharedFiles(g, offset, Some(limit)), starts));
    if asks == 0 || page == [] then []
    else page + Browse(cfg, Next(cfg, s, SharedFiles(g, offset, Some(limit)), starts), g, offset + |page|, limit, starts, asks - 1)
  }

  lemma PageOfDrained(cfg: Config, s: State, g: Bytes, offset: nat, limit: nat, starts: bool)
    ensures FilesOf(Answer(cfg, s, SharedFiles(g, offset, Some(limit)), starts)) == Page(Lex.Sorted(SharedAt(Drained(s, g), g)), offset, limit)
    ensures Next(cfg, s, SharedFiles(g, offset, Some(limit)), starts) == Drained(s, g)
  {
    hide Drained;
    assert Lex.Sorted({}) == [];
  }

  lemma DrainTwice(cfg: Config, s: State, g: Bytes)
    ensures Drained(Drained(s, g), g) == Drained(s, g)
  {
    PagesSeeOneListing(cfg, s, g, 0, None, true, 0, None);
  }

  /** Successive requests with a limit of at least one collect the whole sorted listing as it stood at the
      first, each file exactly once, if asked often enough. */
  lemma {:induction false} RequestsTile(cfg: Config, s: State, g: Bytes, offset: nat, limit: nat, starts: bool, asks: nat)
    requires limit >= 1
    requires var n := |Lex.Sorted(SharedAt(Drained(s, g), g))|; offset <= n && asks >= n - offset
    ensures Browse(cfg, s, g, offset, limit, starts, asks) == Lex.Sorted(SharedAt(Drained(s, g), g))[offset..]
    decreases asks
  {
    hide Drained, Answer, Next, FilesOf, Lex.Sorted;
    var t, files := Drained(s, g), Lex.Sorted(SharedAt(Drained(s, g), g));
    PageOfDrained(cfg, s, g, offset, limit, starts);
    var page := Page(files, offset, limit);
    if asks > 0 && page != [] {
      DrainTwice(cfg, s, g);
      RequestsTile(cfg, t, g, offset + |page|, limit, starts, asks - 1);
      assert page + files[offset + |page|..] == files[offset..];
    }
  }

  // ---- the invariant over every run ----

  lemma SameAtKeepsInv(cfg: Config, s: State, t: State, h: Bytes)
    requires GroupInv(cfg, s, h) && SameAt(s, t, h)
    ensures GroupInv(cfg, t, h)
  {
    hide Sound, WellFormed, IsValidCid, Gate;
  }

  lemma RosterSetKeepsInv(cfg: Config, s: State, g: Bytes, roster: Roster, b: Batch)
    requires GroupInv(cfg, s, g)
    ensures var t := RosterSet(cfg, s, g, roster, b);
            && GroupInv(cfg, t, g) && g in t.groups && g in t.devices
            && t.groups[g].members.allowed == Gate(roster, t.devices[g].registry)
            && t.groups[g].members.admitted <= Opened(cfg, s, g).groups[g].members.admitted
            && (cfg.kind == Networked ==> t.groups[g].net.authorized == t.groups[g].members.allowed)
  {
    hide IsValidCid, Updated, EffectiveRosterOf, Applied, IsCanonical;
    var reg := DevicesAt(s, g).registry;
    UpdateKeepsWellFormed(reg, b, cfg.recover);
    AppliedIsSound(Opened(cfg, s, g).groups[g], EffectiveRosterOf(roster, Updated(reg, b, cfg.recover)));
  }

  lemma DrainKeepsInv(cfg: Config, s: State, g: Bytes)
    requires GroupInv(cfg, s, g)
    ensures GroupInv(cfg, Drained(s, g), g)
  {
    hide IsValidCid, Absorbed, ValidMessages, WellFormed, Gate;
    if g in s.groups { DrainFills(cfg, s, g); }
  }

  lemma SyncKeepsInv(cfg: Config, s: State, g: Bytes)
    requires GroupInv(cfg, s, g)
    ensures GroupInv(cfg, AdmissionSynced(s, g), g)
  {
    hide IsValidCid, WellFormed, Gate;
  }

  lemma ShareKeepsInv(cfg: Config, s: State, g: Bytes, cid: string)
    requires GroupInv(cfg, s, g) && ShareFailure(s, g, cid).None?
    ensures GroupInv(cfg, Shared(s, g, cid), g)
  {
    hide IsValidCid, Gate, WellFormed, IsCanonical;
    var files := SharedAt(s, g);
    if cid in files { assert files + {cid} == files; }
  }

  lemma OpenKeepsInv(cfg: Config, s: State, g: Bytes, addrs: seq<Bytes>)
    requires GroupInv(cfg, s, g)
    ensures GroupInv(cfg, Opened(cfg, s, g), g)
    ensures GroupInv(cfg, Forgotten(s, g), g)
    ensures GroupInv(cfg, SeedAdded(s, g, addrs), g)
  {
    hide IsValidCid, Gate, WellFormed, IsCanonical, DialPeers;
  }

  lemma RequestKeepsInv(cfg: Config, s: State, req: Request, starts: bool)
    requires GroupInv(cfg, s, req.group)
    ensures GroupInv(cfg, Next(cfg, s, req, starts), req.group)
  {
    hide EntryFailure, ShareFailure, TakesPeers, Drained, AdmissionSynced, RosterSet, Shared, Opened, Forgotten, SeedAdded;
    hide Decode, GroupInv;
    var g := req.group;
    SyncKeepsInv(cfg, s, g);
    DrainKeepsInv(cfg, AdmissionSynced(s, g), g);
    DrainKeepsInv(cfg, s, g);
    OpenKeepsInv(cfg, s, g, []);
    if req.SetRoster? {
      RosterSetKeepsInv(cfg, s, g, req.roster, Batch(req.links, req.revocations));
    } else if req.ShareFile? && ShareFailure(s, g, req.cid).None? {
      ShareKeepsInv(cfg, s, g, req.cid);
    } else if req.AddSeed? && Decode(req.text).Ok? {
      OpenKeepsInv(cfg, s, g, Decode(req.text).value.addrs);
    }
  }

  lemma EventKeepsInv(cfg: Config, s: State, e: Event)
    requires GroupInv(cfg, s, GroupOf(e))
    ensures GroupInv(cfg, Step(cfg, s, e), GroupOf(e))
  {
    hide IsValidCid, EntryFailure, Gate, WellFormed, Next, Joined, Left;
    match e {
      case Ask(request, starts) => RequestKeepsInv(cfg, s, request, starts);
      case AdmitPeer(g, address, role, starts) => JoinedIsSound(Opened(cfg, s, g).groups[g], address, role);
      case DropPeer(g, address) => if g in s.groups { LeftIsSound(s.groups[g], address); }
      case Wire(_, _, _, _) =>
    }
  }

  /** Only joining opens a session, and only below the limit. */
  lemma OpenedBelowLimit(cfg: Config, s: State, e: Event)
    requires GroupOf(e) in Step(cfg, s, e).groups && GroupOf(e) !in s.groups
    ensures |s.groups| < MAX_GROUPS
  {
    hide Seed.Trim, RosterSet, Drained, AdmissionSynced, Joined, Left, Decode, IsValidCid;
    if e.Ask? {
      var g := e.request.group;
      SyncedKeys(s, g);
      DrainedKeys(s, g);
      DrainedKeys(AdmissionSynced(s, g), g);
    }
  }

  lemma SyncedKeys(s: State, g: Bytes)
    ensures AdmissionSynced(s, g).groups.Keys == s.groups.Keys
  {
  }

  lemma DrainedKeys(s: State, g: Bytes)
    ensures Drained(s, g).groups.Keys == s.groups.Keys
  {
    hide ValidMessages, Absorbed;
  }

  lemma GroupCountKept(cfg: Config, s: State, e: Event)
    requires |s.groups| <= MAX_GROUPS
    ensures |Step(cfg, s, e).groups| <= MAX_GROUPS
  {
    hide Step;
    var t, g := Step(cfg, s, e), GroupOf(e);
    forall h | h in t.groups && h != g ensures h in s.groups { GroupsAreIsolated(cfg, s, e, h); }
    if g in t.groups && g !in s.groups {
      OpenedBelowLimit(cfg, s, e);
      CardinalityMonotone(t.groups.Keys, s.groups.Keys + {g});
    } else {
      CardinalityMonotone(t.groups.Keys, s.groups.Keys);
    }
  }

  lemma {:induction false} RunsKeepInv(cfg: Config, events: seq<Event>)
    ensures Inv(cfg, Run(cfg, events))
  {
    hide GroupInv, Step;
    if events == [] {
      FreshInv(cfg);
    } else {
      var s, e := Run(cfg, events[..|events| - 1]), events[|events| - 1];
      RunsKeepInv(cfg, events[..|events| - 1]);
      GroupCountKept(cfg, s, e);
      EventKeepsInv(cfg, s, e);
      forall h ensures GroupInv(cfg, Step(cfg, s, e), h) {
        if h != GroupOf(e) {
          GroupsAreIsolated(cfg, s, e, h);
          SameAtKeepsInv(cfg, s, Step(cfg, s, e), h);
        }
      }
    }
  }

  lemma FreshInv(cfg: Config)
    ensures Inv(cfg, FRESH)
  {
  }

  // ---- what the allowed set is ----

  function AllowedAt(s: State, g: Bytes): set<string> { if g in s.groups then s.groups[g].members.allowed else {} }

  /** A roster has been applied to `g`'s session since it was created. */
  predicate Rostered(cfg: Config, events: seq<Event>, g: Bytes)
    decreases |events|
  {
    events != []
    && var front, e := events[..|events| - 1], events[|events| - 1];
       || Update(cfg, Run(cfg, front), e, g).Some?
       || (g in Run(cfg, front).groups && g in Run(cfg, events).groups && Rostered(cfg, front, g))
  }

  /** Nothing but a roster that is let through changes a session's allowed set, and a new session's is
      empty. */
  lemma OnlyRostersChangeAllowed(cfg: Config, s: State, e: Event, g: Bytes)
    requires Update(cfg, s, e, g).None? && g in Step(cfg, s, e).groups
    ensures AllowedAt(Step(cfg, s, e), g) == AllowedAt(s, g)
  {
    hide EntryFailure, RosterSet, ValidMessages, Absorbed, IsValidCid, Decode, DialPeers, ShareFailure, SeedFailure;
    hide CanonicalAddress, Joins, Dialed, Dropped, Published, TakesPeers;
    if g != GroupOf(e) {
      GroupsAreIsolated(cfg, s, e, g);
    }
  }

  /** So the allowed set is exactly empty until a roster is applied to the session, and exactly the gate of
      the stored roster and registry from then on. */
  lemma {:induction false} AllowedIsExactly(cfg: Config, events: seq<Event>, g: Bytes)
    requires g in Run(cfg, events).groups
    ensures Run(cfg, events).groups[g].members.allowed
            == if Rostered(cfg, events, g) then Gate(DevicesAt(Run(cfg, events), g).roster, DevicesAt(Run(cfg, events), g).registry)
               else {}
  {
    hide Step, Gate, GroupInv, Update;
    var front, e := events[..|events| - 1], events[|events| - 1];
    var s := Run(cfg, front);
    RunsKeepInv(cfg, front);
    OnlyUpdatesTouchDevices(cfg, s, e, g);
    if Update(cfg, s, e, g).Some? {
      UpdateAllowsGate(cfg, s, e, g);
    } else {
      OnlyRostersChangeAllowed(cfg, s, e, g);
      if g in s.groups { AllowedIsExactly(cfg, front, g); }
    }
  }

  lemma UpdateAllowsGate(cfg: Config, s: State, e: Event, g: Bytes)
    requires GroupInv(cfg, s, g) && Update(cfg, s, e, g).Some? && g in Step(cfg, s, e).groups
    ensures AllowedAt(Step(cfg, s, e), g) == Gate(DevicesAt(Step(cfg, s, e), g).roster, DevicesAt(Step(cfg, s, e), g).registry)
  {
    hide GroupInv, Gate, RosterSet, EntryFailure;
    var r := e.request;
    RosterSetKeepsInv(cfg, s, g, r.roster, Batch(r.links, r.revocations));
    StoredRoster(cfg, s, g, r.roster, Batch(r.links, r.revocations));
  }

  lemma StoredRoster(cfg: Config, s: State, g: Bytes, roster: Roster, b: Batch)
    ensures DevicesAt(RosterSet(cfg, s, g, roster, b), g).roster == roster
    ensures g in RosterSet(cfg, s, g, roster, b).devices
  {
    hide Updated, Applied, EffectiveRosterOf;
  }

  // ---- what the invariant says to a reader ----

  /** In every reachable state, for every group: nobody is admitted who is not allowed; the allowed set is the
      gate of the stored roster and registry if a roster has been applied since the session was created, and
      empty if not; the single-node wire is the admitted set; the networked transport authorizes nobody
      beyond the allowed set; and the limits hold. */
  lemma EveryRunIsSound(cfg: Config, events: seq<Event>, g: Bytes)
    ensures var s := Run(cfg, events);
            && |s.groups| <= MAX_GROUPS
            && |SharedAt(s, g)| <= MAX_SHARED_FILES
            && (g in s.groups ==>
                  var x := s.groups[g];
                  && x.members.admitted <= x.members.allowed
                  && x.members.allowed == (if Rostered(cfg, events, g) then Gate(DevicesAt(s, g).roster, DevicesAt(s, g).registry) else {})
                  && (cfg.kind == InProcess ==> x.net.connected == x.members.admitted)
                  && (cfg.kind == Networked ==> x.net.authorized <= x.members.allowed))
  {
    hide IsCanonical, IsValidCid, Gate, WellFormed, Rostered;
    RunsKeepInv(cfg, events);
    assert GroupInv(cfg, Run(cfg, events), g);
    if g in Run(cfg, events).groups { AllowedIsExactly(cfg, events, g); }
  }

  // ---- the networked authorized set ----

  ghost predicate Aligned(s: State, g: Bytes) {
    g in s.groups ==> s.groups[g].net.authorized == s.groups[g].members.allowed
  }

  /** Over the networked transport: every event but a dropped peer keeps the authorized set equal to the
      allowed set, and a roster request that is not refused makes it equal whatever happened before. */
  lemma AuthorizedTracksAllowed(cfg: Config, s: State, e: Event, g: Bytes)
    requires cfg.kind == Networked && GroupInv(cfg, s, g)
    ensures Aligned(s, g) && !(e.DropPeer? && e.group == g) ==> Aligned(Step(cfg, s, e), g)
    ensures e.Ask? && e.request.SetRoster? && e.request.group == g && EntryFailure(cfg, s, g, e.starts).None?
            ==> g in Step(cfg, s, e).groups && Aligned(Step(cfg, s, e), g)
  {
    hide EntryFailure, Applied, Updated, EffectiveRosterOf, Absorbed, ValidMessages, IsValidCid, Joined, Left;
    hide Gate, WellFormed, IsCanonical, Decode, DialPeers, RosterSet;
    if g != GroupOf(e) {
      GroupsAreIsolated(cfg, s, e, g);
    } else if e.AdmitPeer? {
      JoinedIsSound(Opened(cfg, s, g).groups[g], e.address, e.role);
    } else if e.Ask? && e.request.SetRoster? {
      RosterSetKeepsInv(cfg, s, g, e.request.roster, Batch(e.request.links, e.request.revocations));
    }
  }

  lemma RemovesNothing(a: set<string>, b: set<string>)
    ensures a - b == a <==> b * a == {}
  {
    if a - b == a {
      assert forall x :: x in b * a ==> x in a - b;
    }
    if b * a == {} {
      forall x | x in a ensures x in a - b { assert x !in b * a; }
    }
  }

  /** A dropped peer breaks the equality exactly when it names an allowed address. */
  lemma DropMisalignsExactly(cfg: Config, s: State, g: Bytes, address: string)
    requires cfg.kind == Networked && GroupInv(cfg, s, g) && g in s.groups && Aligned(s, g)
    ensures Aligned(Step(cfg, s, DropPeer(g, address)), g) <==> Named(address) * s.groups[g].members.allowed == {}
  {
    hide Gate, WellFormed, IsCanonical, IsValidCid, Left, CanonicalAddress;
    LeftIsSound(s.groups[g], address);
    RemovesNothing(s.groups[g].members.allowed, Named(address));
  }

  /** So along any run that drops no peer of the group the two sets are equal after every event. */
  lemma {:induction false} AlignedWithoutDrops(cfg: Config, events: seq<Event>, g: Bytes)
    requires cfg.kind == Networked && forall i :: 0 <= i < |events| ==> !(events[i].DropPeer? && events[i].group == g)
    ensures Aligned(Run(cfg, events), g)
  {
    hide Step, GroupInv;
    if events != [] {
      var front := events[..|events| - 1];
      AlignedWithoutDrops(cfg, front, g);
      RunsKeepInv(cfg, front);
      AuthorizedTracksAllowed(cfg, Run(cfg, front), events[|events| - 1], g);
    }
  }

  // ---- device state along a run ----

  /** The roster update event `e` carries for `g`, if `s` lets it through. */
  function Update(cfg: Config, s: State, e: Event, g: Bytes): Option<(Roster, Batch)> {
    if e.Ask? && e.request.SetRoster? && e.request.group == g && EntryFailure(cfg, s, g, e.starts).None?
    then Some((e.request.roster, Batch(e.request.links, e.request.revocations)))
    else None
  }

  /** The roster updates of group `g` that were let through, in order. */
  function Updates(cfg: Config, events: seq<Event>, g: Bytes): seq<(Roster, Batch)> {
    if events == [] then []
    else
      var rest := Updates(cfg, events[..|events| - 1], g);
      match Update(cfg, Run(cfg, events[..|events| - 1]), events[|events| - 1], g)
      case Some(u) => rest + [u]
      case None => rest
  }

  function Batches(us: seq<(Roster, Batch)>): seq<Batch> { seq(|us|, i requires 0 <= i < |us| => us[i].1) }

  /** Only roster updates touch a group's device state, leaving included. */
  lemma OnlyUpdatesTouchDevices(cfg: Config, s: State, e: Event, g: Bytes)
    ensures match Update(cfg, s, e, g)
            case None => DevicesAt(Step(cfg, s, e), g) == DevicesAt(s, g)
            case Some(u) => DevicesAt(Step(cfg, s, e), g)
                            == DeviceState(u.0, Updated(DevicesAt(s, g).registry, u.1, cfg.recover))
  {
    hide EntryFailure, Applied, Updated, EffectiveRosterOf, Absorbed, ValidMessages, IsValidCid, Joined, Left;
    hide Decode, DialPeers, ShareFailure, SeedFailure, Synced;
  }

  /** A group's stored roster is the last one let through, and its registry is the replay of every
      update let through, across any number of departures and returns. */
  lemma {:induction false} DeviceStateIsReplay(cfg: Config, events: seq<Event>, g: Bytes)
    ensures var us := Updates(cfg, events, g);
            && DevicesAt(Run(cfg, events), g).registry == Replay(Batches(us), cfg.recover)
            && DevicesAt(Run(cfg, events), g).roster == if us == [] then [] else us[|us| - 1].0
  {
    hide Step, Updated, Update;
    if events != [] {
      var front, e := events[..|events| - 1], events[|events| - 1];
      DeviceStateIsReplay(cfg, front, g);
      OnlyUpdatesTouchDevices(cfg, Run(cfg, front), e, g);
      var us, all := Updates(cfg, front, g), Updates(cfg, events, g);
      if |all| > |us| {
        assert Batches(all)[..|all| - 1] == Batches(us);
      }
    }
  }

  /** An address off the stored roster is allowed only on the strength of the last batch of links taken:
      a link in it for exactly that address, signed by the member, the device and the wallet it names,
      no other member claiming the device there, the member on the roster at rank, and the pair never
      revoked in any update of this group. */
  lemma OffRosterNeedsLink(cfg: Config, events: seq<Event>, g: Bytes, a: string)
    returns (b: Batch, signed: SignedDeviceLink, l: DeviceLink)
    requires g in Run(cfg, events).groups && a in Run(cfg, events).groups[g].members.allowed
    requires !OnRoster(DevicesAt(Run(cfg, events), g).roster, a)
    ensures LastTaken(Batches(Updates(cfg, events, g))) == Some(b)
    ensures signed in b.links && Attests(signed, l, cfg.recover) && l.device == a
    ensures SoleMember(Verified(b.links, cfg.recover), a, l.member)
    ensures ListedAtRank(DevicesAt(Run(cfg, events), g).roster, l.member)
    ensures !EverRevoked(Batches(Updates(cfg, events, g)), cfg.recover, (l.member, a))
  {
    hide CanonicalAddress, RoleRank, Attests, Revokes, Updated, Resolve;
    var s, history := Run(cfg, events), Batches(Updates(cfg, events, g));
    var reg, roster := DevicesAt(s, g).registry, DevicesAt(s, g).roster;
    EveryRunIsSound(cfg, events, g);
    RunsKeepInv(cfg, events);
    assert GroupInv(cfg, s, g);
    GateCharacterized(roster, reg, a);
    RosterOfListed(roster, a);
    l := reg.links[a];
    DeviceStateIsReplay(cfg, events, g);
    HistoryDetermines(history, cfg.recover);
    b := LastTaken(history).value;
    KeptLink(Verified(b.links, cfg.recover), reg.revoked, a);
    VerifiedIs(b.links, cfg.recover, l);
    signed :| signed in b.links && Attests(signed, l, cfg.recover);
  }

  /** And the other way: once a roster has been applied, an off-roster address is allowed exactly if the
      last batch of links taken names one sole member for it, that member is on the roster at rank, and the
      pair was never revoked in the group. */
  lemma OffRosterAllowedExactly(cfg: Config, events: seq<Event>, g: Bytes, a: string)
    requires g in Run(cfg, events).groups && !OnRoster(DevicesAt(Run(cfg, events), g).roster, a)
    ensures a in Run(cfg, events).groups[g].members.allowed
            <==> Rostered(cfg, events, g)
                 && exists m :: AdmittedUnder(Batches(Updates(cfg, events, g)), cfg.recover, DevicesAt(Run(cfg, events), g).roster, m, a)
  {
    hide CanonicalAddress, RoleRank, Attests, Revokes, Updated, Resolve, Rostered, Run, EverRevoked, Updates;
    var s, history := Run(cfg, events), Batches(Updates(cfg, events, g));
    var reg, roster := DevicesAt(s, g).registry, DevicesAt(s, g).roster;
    AllowedIsExactly(cfg, events, g);
    RunsKeepInv(cfg, events);
    assert GroupInv(cfg, s, g);
    GateCharacterized(roster, reg, a);
    RosterOfListed(roster, a);
    DeviceStateIsReplay(cfg, events, g);
    FiledExactly(history, cfg.recover, roster, a);
  }

  /** What the registry after a history files for a device, read off the history. */
  lemma FiledExactly(history: seq<Batch>, recover: Verifier, roster: Roster, a: string)
    ensures var links := Replay(history, recover).links;
            (a in links && ListedAtRank(roster, links[a].member)) <==> exists m :: AdmittedUnder(history, recover, roster, m, a)
  {
    hide EverRevoked, Resolve, Verified, SoleMember, ListedAtRank, Replay;
    var reg := Replay(history, recover);
    HistoryDetermines(history, recover);
    if a in reg.links && ListedAtRank(roster, reg.links[a].member) {
      MemberCharacterized(Verified(LastTaken(history).value.links, recover), reg.revoked, a, reg.links[a].member);
      assert AdmittedUnder(history, recover, roster, reg.links[a].member, a);
    }
    if m :| AdmittedUnder(history, recover, roster, m, a) {
      MemberCharacterized(Verified(LastTaken(history).value.links, recover), reg.revoked, a, m);
    }
  }

  ghost predicate AdmittedUnder(history: seq<Batch>, recover: Verifier, roster: Roster, m: string, a: string) {
    && LastTaken(history).Some? && SoleMember(Verified(LastTaken(history).value.links, recover), a, m)
    && ListedAtRank(roster, m) && !EverRevoked(history, recover, (m, a))
  }

  lemma RosterOfListed(roster: Roster, a: string)
    requires !OnRoster(roster, a)
    ensures !ListedAtRank(roster, a)
  {
    hide CanonicalAddress, RoleRank;
  }

  lemma {:induction false} UpdatesGrow(cfg: Config, events: seq<Event>, more: seq<Event>, g: Bytes)
    ensures var us, all := Updates(cfg, events, g), Updates(cfg, events + more, g);
            |us| <= |all| && all[..|us|] == us
  {
    hide Update, Run;
    if more == [] {
      assert events + more == events;
    } else {
      var both := events + more;
      assert both[..|both| - 1] == events + more[..|more| - 1];
      UpdatesGrow(cfg, events, more[..|more| - 1], g);
    }
  }

  /** A revocation the member itself signed counts from the first update let through that carries it. */
  lemma TakenRevocationCounts(cfg: Config, events: seq<Event>, e: Event, g: Bytes, r: SignedRevocation, p: (string, string))
    requires Update(cfg, Run(cfg, events), e, g).Some?
    requires var b := Update(cfg, Run(cfg, events), e, g).value.1;
             !Oversized(b) && r in b.revocations && Revokes(r, p, cfg.recover)
    ensures EverRevoked(Batches(Updates(cfg, events + [e], g)), cfg.recover, p)
  {
    hide Update, Revokes, Step;
    var all := events + [e];
    assert all[..|all| - 1] == events;
    var us := Updates(cfg, all, g);
    assert Batches(us)[|us| - 1] == Update(cfg, Run(cfg, events), e, g).value.1;
  }

  /** Once a member has an accepted revocation in a group, then after any further events, links dropped
      and the group left and rejoined included, a stored roster that lists the member never lets the
      member's own address in. */
  lemma RevocationIsForever(cfg: Config, events: seq<Event>, more: seq<Event>, g: Bytes, m: string, d: string)
    requires EverRevoked(Batches(Updates(cfg, events, g)), cfg.recover, (m, d))
    requires g in Run(cfg, events + more).groups && OnRoster(DevicesAt(Run(cfg, events + more), g).roster, m)
    ensures m !in Run(cfg, events + more).groups[g].members.allowed
    ensures m !in Run(cfg, events + more).groups[g].members.admitted
  {
    hide CanonicalAddress, RoleRank, Revokes, Updated, Resolve;
    var all := events + more;
    var s, history := Run(cfg, all), Batches(Updates(cfg, all, g));
    UpdatesGrow(cfg, events, more, g);
    var us := Updates(cfg, events, g);
    assert history[..|us|] == Batches(us);
    var b, r :| b in Batches(us) && !Oversized(b) && r in b.revocations && Revokes(r, (m, d), cfg.recover);
    assert b in history;
    assert EverRevoked(history, cfg.recover, (m, d));
    DeviceStateIsReplay(cfg, all, g);
    HistoryDetermines(history, cfg.recover);
    EveryRunIsSound(cfg, all, g);
    RunsKeepInv(cfg, all);
    assert GroupInv(cfg, s, g);
    assert HasRevoked(DevicesAt(s, g).registry, m);
    GateCharacterized(DevicesAt(s, g).roster, DevicesAt(s, g).registry, m);
  }

  // ---- seeds between daemons ----

  /** A seed one daemon prints for a group is taken by another daemon in that group, which dials exactly
      the printed addresses, as long as the text is short enough to be read. */
  lemma SeedsTransfer(cfg: Config, s: State, g: Bytes, text: Bytes, addrs: seq<Bytes>, there: Config, t: State, starts: bool)
    requires IsUtf8(g) && Answer(cfg, s, SeedOf(g), starts) == SeedText(text, addrs)
    requires g in t.groups && TakesPeers(t.groups[g].net, addrs, there.parses)
    ensures |text| <= MAX_SEED_LEN ==>
              && Answer(there, t, AddSeed(g, text), starts) == Seeded(|addrs|)
              && (var n := t.groups[g].net;
                  Next(there, t, AddSeed(g, text), starts)
                  == t.(groups := t.groups[g := t.groups[g].(net := n.(commands := n.commands + DialPeers(addrs)))]))
    ensures |text| > MAX_SEED_LEN ==>
              Answer(there, t, AddSeed(g, text), starts) == Error(BadSeed(TooLong))
              && Next(there, t, AddSeed(g, text), starts) == t
  {
    hide Encode, Decode, DialPeers, Validate, TakesPeers;
    RoundTripOf(GroupSeed(g, addrs));
  }

  lemma RoundTripOf(seed: GroupSeed)
    requires Validate(seed).None? && IsUtf8(seed.group)
    ensures Decode(Encode(seed)) == if |Encode(seed)| <= MAX_SEED_LEN then Ok(seed) else Err(TooLong)
  {
    hide Encode, Decode, Validate;
    RoundTrip(seed);
  }
}
