/** Groups do not interfere: what a daemon holds and answers for one group is what it would with that
    group's events alone, exactly as long as none of them is refused a session for want of room. */
module IsolationLaws {
  import opened Wrappers
  import opened Devices
  import opened Addresses
  import opened EffectiveRoster
  import DeviceRoster
  import opened Session
  import opened Daemon
  import opened DaemonLaws
  import Seed

  type Group = Seed.Bytes

  /** The events of one group, in order. */
  function OnlyOf(events: seq<Event>, g: Group): seq<Event> {
    if events == [] then []
    else
      var rest, e := OnlyOf(events[..|events| - 1], g), events[|events| - 1];
      if GroupOf(e) == g then rest + [e] else rest
  }

  function Mentioned(events: seq<Event>): set<Group> {
    if events == [] then {} else Mentioned(events[..|events| - 1]) + {GroupOf(events[|events| - 1])}
  }

  lemma DrainIsLocal(s: State, t: State, g: Group)
    requires SameAt(s, t, g)
    ensures SameAt(Drained(s, g), Drained(t, g), g) && SameAt(AdmissionSynced(s, g), AdmissionSynced(t, g), g)
    ensures DrainedMessages(s, g) == DrainedMessages(t, g)
  {
    hide ValidMessages, Absorbed, Synced;
  }

  lemma RosterIsLocal(cfg: Config, s: State, t: State, g: Group, roster: Roster, b: Batch)
    requires SameAt(s, t, g)
    ensures SameAt(RosterSet(cfg, s, g, roster, b), RosterSet(cfg, t, g, roster, b), g)
  {
    hide Updated, EffectiveRosterOf, Applied;
  }

  lemma WriteIsLocal(cfg: Config, s: State, t: State, g: Group, cid: string, addrs: seq<Group>)
    requires SameAt(s, t, g)
    ensures SameAt(Opened(cfg, s, g), Opened(cfg, t, g), g)
    ensures SameAt(Forgotten(s, g), Forgotten(t, g), g)
    ensures SameAt(Shared(s, g, cid), Shared(t, g, cid), g)
    ensures SameAt(SeedAdded(s, g, addrs), SeedAdded(t, g, addrs), g)
    ensures ShareFailure(s, g, cid) == ShareFailure(t, g, cid)
  {
    hide IsValidCid, Published, DialPeers, Shared, SeedAdded;
    ShareIsLocal(s, t, g, cid);
    SeedIsLocal(s, t, g, addrs);
  }

  lemma ShareIsLocal(s: State, t: State, g: Group, cid: string)
    requires SameAt(s, t, g)
    ensures SameAt(Shared(s, g, cid), Shared(t, g, cid), g)
  {
    hide Published;
  }

  lemma SeedIsLocal(s: State, t: State, g: Group, addrs: seq<Group>)
    requires SameAt(s, t, g)
    ensures SameAt(SeedAdded(s, g, addrs), SeedAdded(t, g, addrs), g)
  {
    hide DialPeers;
  }

  lemma SeedFailureIsLocal(cfg: Config, s: State, t: State, g: Group, text: Group)
    requires SameAt(s, t, g)
    ensures SeedFailure(cfg, s, g, text) == SeedFailure(cfg, t, g, text)
    ensures SeedFailure(cfg, s, g, text).None? ==> Seed.Decode(text).Ok?
  {
    hide Seed.Decode, TakesPeers;
  }

  /** The requests that may open a session. */
  predicate MayOpen(req: Request) { req.SetRoster? || req.Join? }

  /** What a request for `g` does to `g` depends on nothing held for other groups, but for whether a session
      may be opened. */
  lemma RequestIsLocal(cfg: Config, s: State, t: State, req: Request, starts: bool)
    requires SameAt(s, t, req.group)
    requires MayOpen(req) ==> (EntryFailure(cfg, s, req.group, starts).Some? <==> EntryFailure(cfg, t, req.group, starts).Some?)
    ensures SameAt(Next(cfg, s, req, starts), Next(cfg, t, req, starts), req.group)
  {
    hide EntryFailure, RosterSet, Drained, AdmissionSynced, Seed.Decode, SeedFailure, ShareFailure, SameAt;
    hide Opened, Forgotten, Shared, SeedAdded;
    var g := req.group;
    DrainIsLocal(s, t, g);
    DrainIsLocal(AdmissionSynced(s, g), AdmissionSynced(t, g), g);
    WriteIsLocal(cfg, s, t, g, "", []);
    match req {
      case SetRoster(_, roster, links, revocations) => RosterIsLocal(cfg, s, t, g, roster, Batch(links, revocations));
      case ShareFile(_, cid) => WriteIsLocal(cfg, s, t, g, cid, []);
      case AddSeed(_, text) =>
        SeedFailureIsLocal(cfg, s, t, g, text);
        if SeedFailure(cfg, s, g, text).None? { WriteIsLocal(cfg, s, t, g, "", Seed.Decode(text).value.addrs); }
      case _ =>
    }
  }

  lemma AnswerIsLocal(cfg: Config, s: State, t: State, req: Request, starts: bool)
    requires SameAt(s, t, req.group)
    requires MayOpen(req) ==> EntryFailure(cfg, s, req.group, starts) == EntryFailure(cfg, t, req.group, starts)
    ensures Answer(cfg, s, req, starts) == Answer(cfg, t, req, starts)
  {
    hide EntryFailure, Drained, AdmissionSynced, Seed.Decode, IsValidCid, DialPeers, TakesPeers, DrainedMessages;
    hide PeerViews, Evicted, Refusals, Updated, EffectiveRosterOf, DeviceRoster.DeviceRosterOf, Page;
    var g := req.group;
    DrainIsLocal(s, t, g);
    DrainIsLocal(AdmissionSynced(s, g), AdmissionSynced(t, g), g);
  }

  /** Some other groups' sessions are all that keeps `g` from having one. */
  predicate Limited(cfg: Config, s: State, g: Group) {
    !Pinned(cfg, g) && Seed.Trim(g) != [] && g !in s.groups && |s.groups| >= MAX_GROUPS
  }

  /** An event that would open a session for its group, were there room. */
  predicate Crowded(cfg: Config, s: State, e: Event) {
    Limited(cfg, s, GroupOf(e))
    && match e
       case Ask(request, starts) => MayOpen(request) && starts
       case AdmitPeer(_, _, _, starts) => starts
       case _ => false
  }

  /** With room in one daemon, and in the other unless the first is crowded, both let the event in or both
      refuse it. */
  lemma SameEntry(cfg: Config, s: State, t: State, g: Group, starts: bool)
    requires (g in s.groups <==> g in t.groups) && |t.groups| < MAX_GROUPS
    ensures !(Limited(cfg, s, g) && starts) ==> (EntryFailure(cfg, s, g, starts).Some? <==> EntryFailure(cfg, t, g, starts).Some?)
    ensures Limited(cfg, s, g) ==> EntryFailure(cfg, s, g, starts) == Some(TooManyGroups) != EntryFailure(cfg, t, g, starts)
    ensures !Limited(cfg, s, g) ==> EntryFailure(cfg, s, g, starts) == EntryFailure(cfg, t, g, starts)
    ensures Limited(cfg, s, g) && starts ==> EntryFailure(cfg, t, g, starts).None?
  {
    hide Seed.Trim;
  }

  lemma EventIsLocal(cfg: Config, s: State, t: State, e: Event)
    requires SameAt(s, t, GroupOf(e)) && |t.groups| < MAX_GROUPS && !Crowded(cfg, s, e)
    ensures SameAt(Step(cfg, s, e), Step(cfg, t, e), GroupOf(e))
  {
    hide EntryFailure, Next, Joined, Left, Limited;
    SameEntry(cfg, s, t, GroupOf(e), if e.Ask? || e.AdmitPeer? then e.starts else true);
    if e.Ask? { RequestIsLocal(cfg, s, t, e.request, e.starts); }
  }

  /** A crowded event is let in by a daemon with room and not by the other. */
  lemma CrowdedDiffers(cfg: Config, s: State, t: State, e: Event)
    requires SameAt(s, t, GroupOf(e)) && |t.groups| < MAX_GROUPS && Crowded(cfg, s, e)
    ensures GroupOf(e) !in Step(cfg, s, e).groups && GroupOf(e) in Step(cfg, t, e).groups
  {
    hide EntryFailure, Limited, Joined, Applied, Updated, EffectiveRosterOf;
    var g := GroupOf(e);
    SameEntry(cfg, s, t, g, true);
    assert g !in s.groups by { NotHeld(cfg, s, g); }
  }

  lemma NotHeld(cfg: Config, s: State, g: Group)
    requires Limited(cfg, s, g)
    ensures g !in s.groups
  {
  }

  /** Every session belongs to a group some event named. */
  lemma {:induction false} SessionsMentioned(cfg: Config, events: seq<Event>)
    ensures Run(cfg, events).groups.Keys <= Mentioned(events)
  {
    hide Step;
    if events != [] {
      var front, e := events[..|events| - 1], events[|events| - 1];
      SessionsMentioned(cfg, front);
      forall h | h in Run(cfg, events).groups && h != GroupOf(e) ensures h in Run(cfg, front).groups {
        GroupsAreIsolated(cfg, Run(cfg, front), e, h);
      }
    }
  }

  lemma {:induction false} OnlyOfMentions(events: seq<Event>, g: Group)
    ensures Mentioned(OnlyOf(events, g)) <= Mentioned(events) * {g}
  {
    if events != [] {
      var front, e := events[..|events| - 1], events[|events| - 1];
      OnlyOfMentions(front, g);
      if GroupOf(e) == g {
        assert OnlyOf(events, g)[..|OnlyOf(front, g)|] == OnlyOf(front, g);
      }
    }
  }

  /** A daemon that hears of one group only always has room. */
  lemma AloneHasRoom(cfg: Config, events: seq<Event>, g: Group)
    ensures |Run(cfg, OnlyOf(events, g)).groups| < MAX_GROUPS
  {
    hide Run;
    SessionsMentioned(cfg, OnlyOf(events, g));
    OnlyOfMentions(events, g);
    CardinalityMonotone(Run(cfg, OnlyOf(events, g)).groups.Keys, {g});
  }

  /** No event of `g` meets the session limit where it would open a session. */
  ghost predicate NeverCrowded(cfg: Config, events: seq<Event>, g: Group) {
    forall i :: 0 <= i < |events| && GroupOf(events[i]) == g ==> !Crowded(cfg, Run(cfg, events[..i]), events[i])
  }

  ghost predicate SameSoFar(cfg: Config, events: seq<Event>, g: Group) {
    SameAt(Run(cfg, events), Run(cfg, OnlyOf(events, g)), g)
  }

  /** After every event what the daemon holds for `g` is the same as if the other groups' events had never
      happened, if and only if no event of `g` met the limit where it would have opened a session. */
  lemma GroupsDoNotInterfere(cfg: Config, events: seq<Event>, g: Group)
    ensures NeverCrowded(cfg, events, g) <==> forall k :: 0 <= k <= |events| ==> SameSoFar(cfg, events[..k], g)
  {
    hide Run, Crowded, SameSoFar;
    if NeverCrowded(cfg, events, g) {
      forall k | 0 <= k <= |events| ensures SameSoFar(cfg, events[..k], g) {
        forall i | 0 <= i < k ensures events[..k][..i] == events[..i] {}
        SameRuns(cfg, events[..k], g);
      }
    } else {
      var i :| 0 <= i < |events| && GroupOf(events[i]) == g && Crowded(cfg, Run(cfg, events[..i]), events[i]);
      OnlyTheLimitInterferes(cfg, events[..i], events[i]);
      assert events[..i] + [events[i]] == events[..i + 1];
    }
  }

  /** The first event that meets the limit makes the difference. */
  lemma OnlyTheLimitInterferes(cfg: Config, events: seq<Event>, e: Event)
    requires Crowded(cfg, Run(cfg, events), e)
    ensures !(SameSoFar(cfg, events, GroupOf(e)) && SameSoFar(cfg, events + [e], GroupOf(e)))
  {
    hide Step, Crowded;
    var g, all := GroupOf(e), events + [e];
    assert all[..|all| - 1] == events;
    AloneHasRoom(cfg, events, g);
    if SameSoFar(cfg, events, g) {
      var only := OnlyOf(all, g);
      assert only[..|only| - 1] == OnlyOf(events, g);
      CrowdedDiffers(cfg, Run(cfg, events), Run(cfg, OnlyOf(events, g)), e);
    }
  }

  /** While nothing of `g` has met the limit, a request about `g` is answered as it would be had the other
      groups' events never happened, if and only if it does not itself meet the limit. */
  lemma AnswersDoNotInterfere(cfg: Config, events: seq<Event>, g: Group, req: Request, starts: bool)
    requires NeverCrowded(cfg, events, g) && req.group == g
    ensures Answer(cfg, Run(cfg, events), req, starts) == Answer(cfg, Run(cfg, OnlyOf(events, g)), req, starts)
            <==> !(Limited(cfg, Run(cfg, events), g) && MayOpen(req))
  {
    hide Run, Limited, EntryFailure, SameAt, Refusals, Evicted;
    SameRuns(cfg, events, g);
    AloneHasRoom(cfg, events, g);
    var s, t := Run(cfg, events), Run(cfg, OnlyOf(events, g));
    SameKeys(s, t, g);
    SameEntry(cfg, s, t, g, starts);
    if !(Limited(cfg, s, g) && MayOpen(req)) {
      AnswerIsLocal(cfg, s, t, req, starts);
    }
  }

  lemma SameKeys(s: State, t: State, g: Group)
    requires SameAt(s, t, g)
    ensures g in s.groups <==> g in t.groups
  {
  }

  lemma {:induction false} SameRuns(cfg: Config, events: seq<Event>, g: Group)
    requires NeverCrowded(cfg, events, g)
    ensures SameSoFar(cfg, events, g)
  {
    hide Step, SameAt, Crowded;
    if events == [] {
      SameStart(cfg, g);
    } else {
      var front, e := events[..|events| - 1], events[|events| - 1];
      forall i | 0 <= i < |front| ensures front[..i] == events[..i] {}
      SameRuns(cfg, front, g);
      var s, t := Run(cfg, front), Run(cfg, OnlyOf(front, g));
      if GroupOf(e) == g {
        var only := OnlyOf(events, g);
        assert only[..|only| - 1] == OnlyOf(front, g);
        AloneHasRoom(cfg, front, g);
        EventIsLocal(cfg, s, t, e);
      } else {
        GroupsAreIsolated(cfg, s, e, g);
        SameTwice(Step(cfg, s, e), s, t, g);
      }
    }
  }

  lemma SameStart(cfg: Config, g: Group)
    ensures SameAt(Run(cfg, []), Run(cfg, OnlyOf([], g)), g)
  {
  }

  lemma SameTwice(r: State, s: State, t: State, g: Group)
    requires SameAt(s, r, g) && SameAt(s, t, g)
    ensures SameAt(r, t, g)
  {
  }
}
