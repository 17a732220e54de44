/** What each request promises the client who makes it: its answer and what it does to the group, said of the
    state it meets and along runs. */
module AnswerLaws {
  import opened Wrappers
  import opened Addresses
  import opened Links
  import opened Devices
  import opened EffectiveRoster
  import opened DeviceRoster
  import opened Membership
  import opened Session
  import opened Seed
  import opened Daemon
  import opened RegistryLaws
  import opened GateLaws
  import opened DaemonLaws
  import opened DeviceRosterLaws
  import Lex

  /** The one list of a set in order, each element once. */
  ghost predicate IsListing(list: seq<string>, of: set<string>) {
    Lex.Increasing(list) && forall c :: c in list <==> c in of
  }

  lemma SortedIsListing(files: set<string>)
    ensures IsListing(Lex.Sorted(files), files) && |Lex.Sorted(files)| == |files|
  {
    Lex.SortedLists(files);
  }

  // ---- entering a group ----

  /** A group may be entered: the daemon is not pinned to another, and it has a session or can open one. */
  predicate MayEnter(cfg: Config, s: State, g: Bytes, starts: bool) {
    && (cfg.pinned == None || cfg.pinned == Some(g))
    && (g in s.groups || (Seed.Trim(g) != [] && |s.groups| < MAX_GROUPS && starts))
  }

  /** Joining succeeds exactly if the group may be entered; it opens an empty session if there was none and
      changes nothing else. The first reason that applies is given, in the code's order. */
  lemma JoinedExactly(cfg: Config, s: State, g: Bytes, starts: bool)
    ensures var r, t := Answer(cfg, s, Join(g), starts), Next(cfg, s, Join(g), starts);
            && (r == Done <==> MayEnter(cfg, s, g, starts))
            && (r == Error(PinnedElsewhere) <==> exists h :: cfg.pinned == Some(h) && h != g)
            && (r == Error(EmptyGroup) ==> g !in s.groups && Seed.Trim(g) == [])
            && (r == Error(TooManyGroups) ==> g !in s.groups && Seed.Trim(g) != [] && |s.groups| >= MAX_GROUPS)
            && (r == Error(TransportFailed) ==> g !in s.groups && Seed.Trim(g) != [] && |s.groups| < MAX_GROUPS && !starts)
            && r in {Done, Error(PinnedElsewhere), Error(EmptyGroup), Error(TooManyGroups), Error(TransportFailed)}
            && t.shared == s.shared && t.devices == s.devices
            && (r == Done && g !in s.groups ==>
                  t.groups == s.groups[g := SessionState(Members({}, {}), Net(cfg.kind, {}, {}, [], [], []))])
            && (r != Done || g in s.groups ==> t == s)
  {
    hide Seed.Trim;
    if cfg.pinned.Some? && cfg.pinned.value != g { assert cfg.pinned == Some(cfg.pinned.value); }
  }

  /** A roster is taken under the same condition, and by the same reasons refused. */
  lemma RosterTakenExactly(cfg: Config, s: State, g: Bytes, roster: Roster, b: Batch, starts: bool)
    ensures var r := Answer(cfg, s, SetRoster(g, roster, b.links, b.revocations), starts);
            && (r.Reconciliation? <==> MayEnter(cfg, s, g, starts))
            && (r.Error? ==> r == Answer(cfg, s, Join(g), starts))
            && (r.Reconciliation? || r.Error?)
  {
    hide Evicted, EffectiveRosterOf, Updated, Refusals, Seed.Trim;
  }

  /** A roster taken: the answer lists, in order, the admitted its gate leaves out, and what was refused of the batch;
      from then on the allowed are the gate, the admitted are those of before within it, and the roster and the
      updated registry are stored. */
  lemma RosterExactly(cfg: Config, s: State, g: Bytes, roster: Roster, b: Batch, starts: bool)
    requires GroupInv(cfg, s, g) && MayEnter(cfg, s, g, starts)
    ensures var r, t := Answer(cfg, s, SetRoster(g, roster, b.links, b.revocations), starts),
                        Next(cfg, s, SetRoster(g, roster, b.links, b.revocations), starts);
            var reg, admitted := Updated(DevicesAt(s, g).registry, b, cfg.recover),
                                 if g in s.groups then s.groups[g].members.admitted else {};
            && r.Reconciliation? && IsListing(r.evicted, admitted - Gate(roster, reg))
            && r.rejected == Refusals(DevicesAt(s, g).registry, b, cfg.recover)
            && g in t.groups && t.groups[g].members == Members(Gate(roster, reg), admitted * Gate(roster, reg))
            && g in t.devices && t.devices[g] == DeviceState(roster, reg) && SharedAt(t, g) == SharedAt(s, g)
            && (cfg.kind == InProcess ==> t.groups[g].net.connected == t.groups[g].members.admitted)
            && (cfg.kind == Networked ==> t.groups[g].net.authorized == t.groups[g].members.allowed)
  {
    hide Updated, EffectiveRosterOf, Refusals, Seed.Trim, Applied, Sound, WellFormed, IsValidCid, AllowedSet, IsListing, Lex.Sorted;
    var x, reg := Opened(cfg, s, g).groups[g], Updated(DevicesAt(s, g).registry, b, cfg.recover);
    OpenedIsSound(cfg, s, g);
    AppliedIsSound(x, EffectiveRosterOf(roster, reg));
    SoundOnOneNode(Applied(x, EffectiveRosterOf(roster, reg)));
    SortedIsListing(x.members.admitted - Gate(roster, reg));
  }

  lemma OpenedIsSound(cfg: Config, s: State, g: Bytes)
    requires GroupInv(cfg, s, g)
    ensures Sound(Opened(cfg, s, g).groups[g]) && Opened(cfg, s, g).groups[g].net.kind == cfg.kind
  {
    hide WellFormed, IsValidCid, IsCanonical, AllowedByGate;
  }

  lemma SoundOnOneNode(x: SessionState)
    requires Sound(x)
    ensures x.net.kind == InProcess ==> x.net.connected == x.members.admitted
  {
    hide IsCanonical;
  }

  /** In every run, a daemon pinned to a group has a session for no other, and none for a blank name. */
  lemma {:induction false} SessionsAreEnterable(cfg: Config, events: seq<Event>, g: Bytes)
    requires g in Run(cfg, events).groups
    ensures (cfg.pinned == None || cfg.pinned == Some(g)) && Seed.Trim(g) != []
  {
    hide Step, Seed.Trim;
    if events != [] {
      var front, e := events[..|events| - 1], events[|events| - 1];
      if g in Run(cfg, front).groups {
        SessionsAreEnterable(cfg, front, g);
      } else if g == GroupOf(e) {
        OpenedMeans(cfg, Run(cfg, front), e);
      } else {
        GroupsAreIsolated(cfg, Run(cfg, front), e, g);
      }
    }
  }

  lemma OpenedMeans(cfg: Config, s: State, e: Event)
    requires GroupOf(e) in Step(cfg, s, e).groups && GroupOf(e) !in s.groups
    ensures MayEnter(cfg, s, GroupOf(e), true)
  {
    hide Seed.Trim, RosterSet, Drained, AdmissionSynced, Joined, Left, Decode, IsValidCid;
    if e.Ask? {
      var g := e.request.group;
      SyncedKeys(s, g);
      DrainedKeys(s, g);
      DrainedKeys(AdmissionSynced(s, g), g);
    }
  }

  /** Leaving forgets the group's session and files, and nothing else: its device state stays. */
  lemma LeftExactly(cfg: Config, s: State, g: Bytes, starts: bool)
    ensures var t := Next(cfg, s, Leave(g), starts);
            && g !in t.groups && g !in t.shared && t.devices == s.devices
            && (forall h :: h != g ==> SameAt(s, t, h))
            && Answer(cfg, s, Leave(g), starts) == Done
  {
  }

  // ---- reads follow the wire ----

  predicate Reads(req: Request) { req.Status? || req.Peers? || req.Poll? || req.ListMembers? }

  /** A read makes the admitted exactly the connected among the allowed; what the transport reports, whom it
      authorizes and who is allowed stay as they were. */
  lemma ReadsFollowTheWire(cfg: Config, s: State, req: Request, starts: bool)
    requires Reads(req) && req.group in s.groups
    ensures req.group in Next(cfg, s, req, starts).groups
    ensures var x, y := s.groups[req.group], Next(cfg, s, req, starts).groups[req.group];
            && y.members.allowed == x.members.allowed
            && (forall a :: a in y.members.admitted <==> a in x.net.connected && a in x.members.allowed)
            && y.net.connected == x.net.connected && y.net.authorized == x.net.authorized
            && y.net.commands == x.net.commands && y.net.listening == x.net.listening && y.net.kind == x.net.kind
            && y.net.inbox == (if req.Status? || req.Poll? then [] else x.net.inbox)
    ensures DevicesAt(Next(cfg, s, req, starts), req.group) == DevicesAt(s, req.group)
  {
    hide ValidMessages, Absorbed;
  }

  /** In every run, a roster taken right after a read evicts exactly the connected and allowed addresses
      that its gate leaves out, in order. */
  lemma RosterAfterRead(cfg: Config, events: seq<Event>, req: Request, starts: bool, roster: Roster, b: Batch, again: bool)
    requires Reads(req) && req.group in Run(cfg, events).groups
    ensures var s, g := Run(cfg, events), req.group;
            var t, x, reg := Run(cfg, events + [Ask(req, starts)]), s.groups[g], DevicesAt(s, g).registry;
            Answer(cfg, t, SetRoster(g, roster, b.links, b.revocations), again)
            == Reconciliation(
                 Lex.Sorted((x.net.connected * x.members.allowed) - Gate(roster, Updated(reg, b, cfg.recover))),
                 Refusals(reg, b, cfg.recover))
  {
    hide Updated, Refusals, EffectiveRosterOf, Next, AllowedSet, Seed.Trim, DevicesAt, Run, Lex.Sorted;
    var s, g := Run(cfg, events), req.group;
    var t := Next(cfg, s, req, starts);
    RunOneMore(cfg, events, Ask(req, starts));
    ReadsFollowTheWire(cfg, s, req, starts);
    SessionsAreEnterable(cfg, events, g);
    assert t.groups[g].members.admitted == s.groups[g].net.connected * s.groups[g].members.allowed;
  }

  lemma RunOneMore(cfg: Config, events: seq<Event>, e: Event)
    ensures Run(cfg, events + [e]) == Step(cfg, Run(cfg, events), e)
  {
    var all := events + [e];
    assert all[..|all| - 1] == events;
  }

  /** So on the network the admitted are, after a read, exactly the allowed among those last reported, and
      those connected are the reported. */
  lemma ReportedThenRead(cfg: Config, events: seq<Event>, g: Bytes, connected: set<string>, inbox: seq<MeshMessage>,
                         listening: seq<Bytes>, req: Request, starts: bool)
    requires cfg.kind == Networked && Reads(req) && req.group == g && g in Run(cfg, events).groups
    ensures var all := events + [Event.Wire(g, connected, inbox, listening)] + [Ask(req, starts)];
            && g in Run(cfg, all).groups
            && var x, y := Run(cfg, events).groups[g], Run(cfg, all).groups[g];
               && y.members == Members(x.members.allowed, connected * x.members.allowed)
               && y.net.connected == connected && y.net.listening == listening && y.net.authorized == x.net.authorized
    ensures DrainedMessages(Run(cfg, events + [Event.Wire(g, connected, inbox, listening)]), g) == ValidMessages(inbox)
  {
    hide Next, Run, GroupInv, ValidMessages;
    var s, e := Run(cfg, events), Event.Wire(g, connected, inbox, listening);
    var t := Step(cfg, s, e);
    RunsKeepInv(cfg, events);
    KindIs(cfg, s, g);
    RunOneMore(cfg, events, e);
    RunOneMore(cfg, events + [e], Ask(req, starts));
    ReadsFollowTheWire(cfg, t, req, starts);
    assert Next(cfg, t, req, starts).groups[g].members.admitted == connected * s.groups[g].members.allowed;
  }

  lemma KindIs(cfg: Config, s: State, g: Bytes)
    requires Inv(cfg, s) && g in s.groups
    ensures s.groups[g].net.kind == cfg.kind && Sound(s.groups[g])
  {
    hide WellFormed, AllowedByGate, IsValidCid, Sound;
    assert GroupInv(cfg, s, g);
  }

  // ---- what the reads answer ----

  /** Status counts the connected and the allowed as they stood and lists the shared files, those just
      received included: none lost, only well-formed ones gained, up to the cap. */
  lemma StatusTells(cfg: Config, s: State, g: Bytes, starts: bool)
    requires GroupInv(cfg, s, g)
    ensures var r := Answer(cfg, s, Status(g), starts);
            var now, had, got := SharedAt(Next(cfg, s, Status(g), starts), g), SharedAt(s, g), CidsOf(DrainedMessages(s, g));
            && r.StatusIs? && IsListing(r.sharedFiles, now)
            && r.online == (if g in s.groups then |s.groups[g].net.connected| else 0)
            && r.total == (if g in s.groups then |s.groups[g].members.allowed| else 0)
            && had <= now <= had + got
            && |now| == (if |had + got| < MAX_SHARED_FILES then |had + got| else MAX_SHARED_FILES)
  {
    hide GroupInv, ValidMessages, Absorbed, IsValidCid;
    var t := AdmissionSynced(s, g);
    SyncKeepsInv(cfg, s, g);
    Lex.SortedLists(SharedAt(Drained(t, g), g));
    ReadsFollow(s, g);
    if g in s.groups { DrainFills(cfg, t, g); } else { NoFiles(cfg, s, g); }
  }

  lemma NoFiles(cfg: Config, s: State, g: Bytes)
    requires GroupInv(cfg, s, g) && g !in s.groups
    ensures SharedAt(s, g) == {} && CidsOf(DrainedMessages(s, g)) == {}
  {
  }

  lemma ReadsFollow(s: State, g: Bytes)
    ensures var t := AdmissionSynced(s, g);
            && SharedAt(t, g) == SharedAt(s, g) && DrainedMessages(t, g) == DrainedMessages(s, g)
            && (g in t.groups <==> g in s.groups)
            && (g in s.groups ==> && t.groups[g].net == s.groups[g].net && t.groups[g].members.allowed == s.groups[g].members.allowed)
            && (g in s.groups ==> g in Drained(t, g).groups
                                  && Drained(t, g).groups[g].net.connected == s.groups[g].net.connected
                                  && Drained(t, g).groups[g].members.allowed == s.groups[g].members.allowed)
  {
    hide ValidMessages, Absorbed;
  }

  /** Status, a poll and a page request take in what was received, each emptying the inbox and filling the shared set
      up to its cap; no other read touches the files, and a page request does not touch the admitted. */
  lemma ReadsTakeIn(cfg: Config, s: State, req: Request, starts: bool)
    requires Reads(req) || req.SharedFiles?
    requires GroupInv(cfg, s, req.group) && req.group in s.groups
    ensures var g, t := req.group, Next(cfg, s, req, starts);
            var now, had, got := SharedAt(t, g), SharedAt(s, g), CidsOf(ValidMessages(s.groups[g].net.inbox));
            && g in t.groups
            && (req.Status? || req.Poll? || req.SharedFiles? ==>
                  && t.groups[g].net.inbox == [] && had <= now <= had + got
                  && |now| == (if |had + got| < MAX_SHARED_FILES then |had + got| else MAX_SHARED_FILES))
            && (req.Peers? || req.ListMembers? ==> now == had && t.groups[g].net.inbox == s.groups[g].net.inbox)
            && (req.SharedFiles? ==> t.groups[g].members == s.groups[g].members)
  {
    hide GroupInv, ValidMessages, Absorbed, IsValidCid;
    var g := req.group;
    SyncKeepsInv(cfg, s, g);
    ReadsFollow(s, g);
    DrainFills(cfg, s, g);
    DrainFills(cfg, AdmissionSynced(s, g), g);
  }

  /** Peers lists exactly the allowed, in order; each is online exactly if connected, and under a member exactly
      if a link files it there. */
  lemma PeersTells(cfg: Config, s: State, g: Bytes, starts: bool)
    requires GroupInv(cfg, s, g)
    ensures var r := Answer(cfg, s, Peers(g), starts);
            && r.PeerList?
            && (g !in s.groups ==> r.peers == [])
            && (g in s.groups ==>
                  var x, links := s.groups[g], DevicesAt(s, g).registry.links;
                  && |r.peers| == |x.members.allowed|
                  && (forall i, j :: 0 <= i < j < |r.peers| ==> Lex.Less(r.peers[i].address, r.peers[j].address))
                  && (forall i :: 0 <= i < |r.peers| ==>
                        var p := r.peers[i];
                        && p.address in x.members.allowed
                        && (p.online <==> p.address in x.net.connected)
                        && (p.member.Some? <==> p.address in links)
                        && (p.member.Some? ==> p.member.value == links[p.address].member)))
  {
    hide GroupInv, IsCanonical, CanonicalAddress;
    if g in s.groups {
      var x, links := s.groups[g], DevicesAt(s, g).registry.links;
      var order := Lex.Sorted(x.members.allowed);
      Lex.SortedLists(x.members.allowed);
      AllowedCanonical(cfg, s, g);
      PeerViewsAre(links, order, x.net.connected);
      var r := Answer(cfg, s, Peers(g), starts).peers;
      assert r == PeerViews(links, order, x.net.connected);
      forall i | 0 <= i < |r| ensures order[i] in x.members.allowed && MemberOf(links, order[i]) == if order[i] in links then Some(links[order[i]].member) else None {
        assert order[i] in order;
        CanonicalFixpoint(order[i]);
      }
    }
  }

  lemma AllowedCanonical(cfg: Config, s: State, g: Bytes)
    requires GroupInv(cfg, s, g) && g in s.groups
    ensures CanonicalSet(s.groups[g].members.allowed)
  {
    hide IsCanonical, WellFormed, AllowedByGate, IsValidCid;
  }

  lemma {:induction false} PeerViewsAre(links: map<string, DeviceLink>, order: seq<string>, connected: set<string>)
    ensures |PeerViews(links, order, connected)| == |order|
    ensures forall i :: 0 <= i < |order| ==>
              PeerViews(links, order, connected)[i] == PeerView(order[i], order[i] in connected, MemberOf(links, order[i]))
  {
    hide MemberOf;
    if order != [] {
      var front := order[..|order| - 1];
      assert forall i :: 0 <= i < |front| ==> front[i] == order[i];
      PeerViewsAre(links, front, connected);
    }
  }

  /** The member list is that of the stored roster and links: the members at rank in address order, each with its
      role and the devices filed for it; it has nobody before a roster is stored. */
  lemma MembersTells(cfg: Config, s: State, g: Bytes, starts: bool)
    requires GroupInv(cfg, s, g)
    ensures var r, kept := Answer(cfg, s, ListMembers(g), starts), DevicesAt(s, g);
            && r.MemberList? && ByMember(r.members)
            && (forall m :: (exists e :: e in r.members && e.member == m) <==> ListedAtRank(kept.roster, m))
            && (forall e :: e in r.members ==> RoleIs(kept.roster, e.member, e.role) && ShowsFiled(e, kept.registry.links))
  {
    hide DeviceRosterOf, ListedAtRank, RoleIs, ShowsFiled, ByMember, GroupInv, WellFormed;
    var kept := DevicesAt(s, g);
    StoredWellFormed(cfg, s, g);
    ListedExactly(kept.roster, kept.registry);
    if g !in s.devices { NobodyListed(); }
  }

  lemma StoredWellFormed(cfg: Config, s: State, g: Bytes)
    requires GroupInv(cfg, s, g)
    ensures WellFormed(DevicesAt(s, g).registry)
  {
  }

  lemma NobodyListed()
    ensures DeviceRosterOf([], map[]) == []
  {
    assert Lex.Sorted({}) == [];
  }

  /** Keeping the well-formed messages goes message by message, in order. */
  lemma {:induction false} ValidMessagesAppend(a: seq<MeshMessage>, b: seq<MeshMessage>)
    ensures ValidMessages(a + b) == ValidMessages(a) + ValidMessages(b)
  {
    hide IsValidCid;
    if b == [] {
      assert a + b == a;
      assert ValidMessages(a) + [] == ValidMessages(a);
    } else {
      var front, last := b[..|b| - 1], b[|b| - 1];
      assert (a + b)[..|a + b| - 1] == a + front;
      ValidMessagesAppend(a, front);
    }
  }

  lemma ValidMessagesOne(m: MeshMessage)
    ensures ValidMessages([m]) == if IsValidCid(m.data) then [m] else []
  {
    var one := [m];
    assert one[..0] == [] && one[|one| - 1] == m;
  }

  /** A poll hands over the received messages with a well-formed CID, each once and in the order received,
      and the next poll starts after them. */
  lemma PollHandsOver(cfg: Config, s: State, g: Bytes, starts: bool, a: seq<MeshMessage>, m: MeshMessage, b: seq<MeshMessage>)
    requires g in s.groups && s.groups[g].net.inbox == a + [m] + b
    ensures Answer(cfg, s, Poll(g), starts)
            == Messages(ValidMessages(a) + (if IsValidCid(m.data) then [m] else []) + ValidMessages(b))
    ensures var t := Next(cfg, s, Poll(g), starts); g in t.groups && t.groups[g].net.inbox == []
  {
    hide ValidMessages, IsValidCid;
    ValidMessagesAppend(a + [m], b);
    ValidMessagesAppend(a, [m]);
    ValidMessagesOne(m);
    ReadsFollowTheWire(cfg, s, Poll(g), starts);
  }

  lemma PageExactly(list: seq<string>, offset: nat, limit: nat)
    ensures var page, size := Page(list, offset, limit), if limit < 1024 then limit else 1024;
            && |page| == (if offset + size <= |list| then size else if offset <= |list| then |list| - offset else 0)
            && forall i :: 0 <= i < |page| ==> page[i] == list[offset + i]
  {
  }

  lemma PageAnswered(cfg: Config, s: State, g: Bytes, offset: nat, limit: Option<nat>, starts: bool)
    ensures var files := SharedAt(Drained(s, g), g);
            Answer(cfg, s, SharedFiles(g, offset, limit), starts)
            == FilePage(Page(Lex.Sorted(files), offset, if limit.Some? then limit.value else MAX_SHARED_FILES_PAGE), offset, |files|)
  {
    hide Drained;
    assert Lex.Sorted({}) == [];
  }

  /** A page is the listing of the shared files from its offset on, as many as asked for, at most 1024, with how
      many there are in all. */
  lemma PageTells(cfg: Config, s: State, g: Bytes, offset: nat, limit: Option<nat>, starts: bool)
    ensures var r, files := Answer(cfg, s, SharedFiles(g, offset, limit), starts), SharedAt(Drained(s, g), g);
            var size := if limit.Some? && limit.value < MAX_SHARED_FILES_PAGE then limit.value else MAX_SHARED_FILES_PAGE;
            && r.FilePage? && r.offset == offset && r.total == |files|
            && |r.files| == (if offset + size <= |files| then size else if offset <= |files| then |files| - offset else 0)
            && exists list :: IsListing(list, files) && |list| == |files|
                              && forall i :: 0 <= i < |r.files| ==> r.files[i] == list[offset + i]
  {
    hide Drained, Page, Lex.Sorted, IsListing, Lex.Increasing;
    var files := SharedAt(Drained(s, g), g);
    var list := Lex.Sorted(files);
    SortedIsListing(files);
    PageExactly(list, offset, if limit.Some? then limit.value else MAX_SHARED_FILES_PAGE);
    PageAnswered(cfg, s, g, offset, limit, starts);
  }

  // ---- sharing a file ----

  /** A file is shared exactly if the group is joined, the CID well formed, and there is room or it is known;
      then it is in the set, and published to the network; if not, nothing changes. */
  lemma SharedExactly(cfg: Config, s: State, g: Bytes, cid: string, starts: bool)
    ensures var r, t, had := Answer(cfg, s, ShareFile(g, cid), starts), Next(cfg, s, ShareFile(g, cid), starts), SharedAt(s, g);
            && (r == Done <==> g in s.groups && IsValidCid(cid) && (cid in had || |had| < MAX_SHARED_FILES))
            && (r == Error(NotInGroup) <==> g !in s.groups)
            && (r == Error(BadCid) <==> g in s.groups && !IsValidCid(cid))
            && (r != Done ==> r.Error? && t == s)
            && (r == Error(SharedSetFull) ==> |had| >= MAX_SHARED_FILES && cid !in had)
            && r in {Done, Error(NotInGroup), Error(BadCid), Error(SharedSetFull)}
            && (r == Done ==>
                  && SharedAt(t, g) == had + {cid} && t.devices == s.devices && g in t.groups
                  && t.groups[g].members == s.groups[g].members
                  && t.groups[g].net == s.groups[g].net.(commands := t.groups[g].net.commands)
                  && t.groups[g].net.commands
                     == s.groups[g].net.commands + (if s.groups[g].net.kind == Networked then [Publish(cid)] else []))
  {
    hide IsValidCid;
  }

  // ---- seeds ----

  predicate Reaches(n: Net, addrs: seq<Bytes>, parses: Bytes -> bool) {
    n.kind == Networked && 1 <= |addrs| <= 8 && forall i :: 0 <= i < |addrs| ==> parses(addrs[i])
  }

  /** A seed text is taken exactly if it decodes to a seed for this very group, the group is joined over the
      network, and every address can be dialed; each then goes to the swarm task, in order. */
  lemma SeedTakenExactly(cfg: Config, s: State, g: Bytes, text: Bytes, starts: bool)
    ensures var r, t, d := Answer(cfg, s, AddSeed(g, text), starts), Next(cfg, s, AddSeed(g, text), starts), Decode(text);
            && (r.Seeded? <==> d.Ok? && d.value.group == g && g in s.groups && Reaches(s.groups[g].net, d.value.addrs, cfg.parses))
            && (r.Error? <==> !r.Seeded?)
            && (forall e :: r == Error(BadSeed(e)) <==> d == Err(e))
            && (r == Error(OtherGroup) <==> d.Ok? && d.value.group != g)
            && (r == Error(NotInGroup) <==> d.Ok? && d.value.group == g && g !in s.groups)
            && (r == Error(PeersRefused) <==>
                  d.Ok? && d.value.group == g && g in s.groups && !Reaches(s.groups[g].net, d.value.addrs, cfg.parses))
            && (r.Error? ==> t == s)
            && (r.Seeded? ==>
                  && r.dialing == |d.value.addrs| && t.shared == s.shared && t.devices == s.devices
                  && t.groups.Keys == s.groups.Keys && (forall h :: h in s.groups && h != g ==> t.groups[h] == s.groups[h])
                  && t.groups[g] == s.groups[g].(net := s.groups[g].net.(commands := t.groups[g].net.commands))
                  && t.groups[g].net.commands == s.groups[g].net.commands + seq(|d.value.addrs|, i requires 0 <= i < |d.value.addrs| => DialPeer(d.value.addrs[i])))
  {
    hide Decode, DialPeers;
    if Decode(text).Ok? { DialPeersIs(Decode(text).value.addrs); }
  }

  lemma {:induction false} DialPeersIs(addrs: seq<Bytes>)
    ensures DialPeers(addrs) == seq(|addrs|, i requires 0 <= i < |addrs| => DialPeer(addrs[i]))
  {
    if addrs != [] { DialPeersIs(addrs[..|addrs| - 1]); }
  }

  /** A seed is given exactly if the transport listens on addresses that make a valid seed for the group; it is
      that seed's text and those addresses. */
  lemma SeedGivenExactly(cfg: Config, s: State, g: Bytes, starts: bool)
    ensures var r := Answer(cfg, s, SeedOf(g), starts);
            && (r.SeedText? <==> g in s.groups && s.groups[g].net.kind == Networked && Validate(GroupSeed(g, s.groups[g].net.listening)).None?)
            && (r.SeedText? ==> r.addrs == s.groups[g].net.listening && r.text == Encode(GroupSeed(g, r.addrs)))
            && (r == Error(NotInGroup) <==> g !in s.groups)
            && (r == Error(NoMesh) <==> g in s.groups && s.groups[g].net.kind == InProcess)
            && (r == Error(NoAddress) <==> g in s.groups && s.groups[g].net.kind == Networked && s.groups[g].net.listening == [])
            && (r.SeedText? || r.Error?)
            && Next(cfg, s, SeedOf(g), starts) == s
  {
    hide Encode, ValidGroup, ValidAddr;
  }

  // ---- the two hooks ----

  /** The admit hook, where the group may be entered, admits exactly an allowed address offered at rank, and
      dials it; otherwise the session is as it was, or new and empty. */
  lemma AdmittedExactly(cfg: Config, s: State, g: Bytes, address: string, role: string, starts: bool, a: string)
    requires MayEnter(cfg, s, g, starts) && GroupInv(cfg, s, g)
    ensures var t := Step(cfg, s, AdmitPeer(g, address, role, starts));
            var x := if g in s.groups then s.groups[g] else SessionState(Members({}, {}), Net(cfg.kind, {}, {}, [], [], []));
            var lets := CanonicalAddress(address) == Some(a) && RoleRank(role) >= 2 && a in x.members.allowed;
            && g in t.groups && t.groups[g].members.allowed == x.members.allowed
            && (a in t.groups[g].members.admitted <==> a in x.members.admitted || lets)
            && (a in t.groups[g].net.connected <==> a in x.net.connected || (lets && cfg.kind == InProcess))
            && (a in t.groups[g].net.authorized <==> a in x.net.authorized || (lets && cfg.kind == Networked))
            && t.groups[g].net.commands == x.net.commands && t.groups[g].net.inbox == x.net.inbox
            && t.shared == s.shared && t.devices == s.devices
  {
    hide CanonicalAddress, RoleRank, Seed.Trim, IsCanonical, WellFormed, AllowedByGate, IsValidCid;
    if CanonicalAddress(address).Some? {
      CanonicalFixpoint(address);
      CanonicalFixpoint(CanonicalAddress(address).value);
    }
  }

  /** What the network reports of a joined group is what its transport then has: on one node only what was received,
      over the network also who is connected and where it listens; nothing else changes. */
  lemma ReportedExactly(cfg: Config, s: State, g: Bytes, connected: set<string>, inbox: seq<MeshMessage>, listening: seq<Bytes>)
    requires g in s.groups
    ensures var t := Step(cfg, s, Event.Wire(g, connected, inbox, listening));
            var x, y := s.groups[g], t.groups[g];
            && t.groups.Keys == s.groups.Keys && t.shared == s.shared && t.devices == s.devices
            && y.members == x.members && y.net.kind == x.net.kind
            && y.net.authorized == x.net.authorized && y.net.commands == x.net.commands && y.net.inbox == inbox
            && y.net.connected == (if x.net.kind == Networked then connected else x.net.connected)
            && y.net.listening == (if x.net.kind == Networked then listening else x.net.listening)
  {
  }

  /** The drop hook takes exactly the named address from the admitted, and the transport off it. */
  lemma DroppedExactly(cfg: Config, s: State, g: Bytes, address: string, a: string)
    requires GroupInv(cfg, s, g) && g in s.groups
    ensures var t := Step(cfg, s, DropPeer(g, address));
            var named := CanonicalAddress(address) == Some(a);
            && g in t.groups && t.groups[g].members.allowed == s.groups[g].members.allowed
            && (a in t.groups[g].members.admitted <==> a in s.groups[g].members.admitted && !named)
            && (a in t.groups[g].net.connected <==> a in s.groups[g].net.connected && !named)
            && (a in t.groups[g].net.authorized <==> a in s.groups[g].net.authorized && !(named && cfg.kind == Networked))
            && t.shared == s.shared && t.devices == s.devices
  {
    hide CanonicalAddress, RoleRank, Seed.Trim, IsCanonical, WellFormed, AllowedByGate, IsValidCid;
    if CanonicalAddress(address).Some? {
      CanonicalFixpoint(address);
      CanonicalFixpoint(CanonicalAddress(address).value);
    }
  }
}
