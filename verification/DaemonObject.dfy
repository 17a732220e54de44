/** The daemon as a mutable object, proved to follow the request semantics of `Daemon`. */
module DaemonObject {
  import opened Wrappers
  import opened Addresses
  import opened Links
  import opened Devices
  import opened EffectiveRoster
  import opened DeviceRoster
  import opened Membership
  import opened Session
  import opened Seed
  import opened Daemon
  import opened RegistryLaws
  import Lex

  class GroupDevices {
    var roster: Roster
    const registry: DeviceRegistry

    ghost function Value(): DeviceState
      reads this, registry
    {
      DeviceState(roster, registry.Value())
    }

    constructor ()
      ensures fresh(registry) && Value() == DeviceState([], EMPTY)
    {
      roster := [];
      registry := new DeviceRegistry();
    }
  }

  /** `apply_roster` on one session: reconcile, then drop what left the allowed set, then authorize it all. */
  method ReconcileSession(session: ClusterSession, eff: Roster) returns (evicted: seq<string>)
    modifies session.membership, session.transport
    ensures evicted == Evicted(old(session.Value()), eff)
    ensures session.Value() == Applied(old(session.Value()), eff)
  {
    var before := session.membership.allowed;
    evicted := session.Reconcile(eff);
    var allowed := session.membership.allowed;
    var gone := Lex.Sorted(before - allowed);
    ghost var mid := session.Value();
    for i := 0 to |gone|
      invariant session.membership.Value() == mid.members
      invariant session.transport.Value() == DroppedAll(mid.net, gone[..i])
    {
      assert gone[..i + 1][..i] == gone[..i];
      session.transport.Disconnect(gone[i]);
    }
    assert gone[..|gone|] == gone;
    var listed := Lex.Sorted(allowed);
    for i := 0 to |listed|
      invariant session.membership.Value() == mid.members
      invariant session.transport.Value() == AuthorizedAll(DroppedAll(mid.net, gone), listed[..i])
    {
      assert listed[..i + 1][..i] == listed[..i];
      session.transport.Authorize(listed[i]);
    }
    assert listed[..|listed|] == listed;
  }

  /** Storing the group's device state, updating it and applying the roster, one after another, is the whole
      roster step. */
  lemma RosterSetInSteps(cfg: Config, s: State, s1: State, s2: State, t: State, g: Bytes, roster: Roster, b: Batch)
    requires g in s.groups && s1 == s.(devices := s.devices[g := DevicesAt(s, g)])
    requires var reg := Updated(s1.devices[g].registry, b, cfg.recover);
             && s2 == s1.(devices := s1.devices[g := DeviceState(roster, reg)])
             && t == s2.(groups := s2.groups[g := Applied(s2.groups[g], EffectiveRosterOf(roster, reg))])
    ensures t == RosterSet(cfg, s, g, roster, b)
  {
    hide Updated, Applied, EffectiveRosterOf;
    var x := DeviceState(roster, Updated(DevicesAt(s, g).registry, b, cfg.recover));
    assert s.devices[g := DevicesAt(s, g)][g := x] == s.devices[g := x];
  }

  /** Opening the session first changes nothing about what a roster then does. */
  lemma OpenedFirst(cfg: Config, s: State, g: Bytes, roster: Roster, b: Batch)
    ensures g in Opened(cfg, s, g).groups && Opened(cfg, Opened(cfg, s, g), g) == Opened(cfg, s, g)
    ensures DevicesAt(Opened(cfg, s, g), g) == DevicesAt(s, g)
    ensures RosterSet(cfg, Opened(cfg, s, g), g, roster, b) == RosterSet(cfg, s, g, roster, b)
  {
    hide Updated, Applied, EffectiveRosterOf;
  }

  class ClusterDaemon {
    const cfg: Config
    var groups: map<Bytes, ClusterSession>
    var sharedFiles: map<Bytes, set<string>>
    var deviceState: map<Bytes, GroupDevices>

    /** The objects behind the maps; in the source they are values the maps own. */
    ghost function Objects(): set<object>
      reads this
    {
      (set g | g in groups :: groups[g].membership as object) + (set g | g in groups :: groups[g].transport as object)
      + (set g | g in deviceState :: deviceState[g] as object) + (set g | g in deviceState :: deviceState[g].registry as object)
    }

    /** No two groups share an object, and every registry files links under their own device. */
    ghost predicate Valid()
      reads this, Objects()
    {
      && (forall g, h :: g in groups && h in groups && g != h ==>
            groups[g].membership != groups[h].membership && groups[g].transport != groups[h].transport)
      && (forall g, h :: g in deviceState && h in deviceState && g != h ==>
            deviceState[g] != deviceState[h] && deviceState[g].registry != deviceState[h].registry)
      && (forall g :: g in groups ==> groups[g].transport.kind == cfg.kind)
      && (forall g :: g in deviceState ==> Filed(deviceState[g].registry.links))
    }

    ghost function Value(): (s: State)
      reads this, Objects()
      ensures s.groups.Keys == groups.Keys && s.shared == sharedFiles && s.devices.Keys == deviceState.Keys
    {
      State(map g | g in groups :: groups[g].Value(), sharedFiles, map g | g in deviceState :: deviceState[g].Value())
    }

    /** Every object behind the maps is one that was there before or a new one, so a caller that may change
        the daemon's objects still may. */
    twostate predicate OnlyNewObjects()
      reads this
    {
      forall o :: o in Objects() ==> o in old(Objects()) || fresh(o)
    }

    /** The objects of a group are among the daemon's. */
    lemma Owns(g: Bytes)
      ensures g in groups ==> {groups[g].membership as object, groups[g].transport as object} <= Objects()
      ensures g in deviceState ==> {deviceState[g] as object, deviceState[g].registry as object} <= Objects()
    {
    }

    constructor (cfg: Config)
      ensures this.cfg == cfg && Valid() && Objects() == {} && Value() == FRESH
    {
      this.cfg := cfg;
      groups, sharedFiles, deviceState := map[], map[], map[];
    }

    /** Only the objects of group `g`'s session changed. */
    twostate predicate OnlySession(g: Bytes)
      reads this, Objects()
    {
      && unchanged(this) && g in groups
      && (forall h :: h in groups && h != g ==> unchanged(groups[h].membership) && unchanged(groups[h].transport))
      && (forall h :: h in deviceState ==> unchanged(deviceState[h]) && unchanged(deviceState[h].registry))
    }

    twostate lemma SessionChangedValue(g: Bytes)
      requires old(Valid()) && OnlySession(g)
      ensures Value() == old(Value()).(groups := old(Value()).groups[g := groups[g].Value()])
    {
      hide ClusterSession.Value, GroupDevices.Value, Valid;
      assert Value().groups == old(Value()).groups[g := groups[g].Value()];
      assert Value().devices == old(Value()).devices;
    }

    twostate lemma SessionChanged(g: Bytes)
      requires old(Valid()) && OnlySession(g)
      ensures Valid() && Objects() == old(Objects())
      ensures Value() == old(Value()).(groups := old(Value()).groups[g := groups[g].Value()])
    {
      hide ClusterSession.Value, GroupDevices.Value, Value;
      SessionChangedValue(g);
    }

    /** Group `g` got a brand-new session and nothing else changed. */
    twostate predicate GotSession(g: Bytes, new session: ClusterSession)
      reads this, Objects(), session.membership, session.transport
    {
      && g !in old(groups) && groups == old(groups)[g := session]
      && sharedFiles == old(sharedFiles) && deviceState == old(deviceState)
      && fresh(session.membership) && fresh(session.transport) && session.transport.kind == cfg.kind
      && (forall h :: h in old(groups) ==> unchanged(groups[h].membership) && unchanged(groups[h].transport))
      && (forall h :: h in deviceState ==> unchanged(deviceState[h]) && unchanged(deviceState[h].registry))
    }

    twostate lemma SessionAddedValid(g: Bytes, new session: ClusterSession)
      requires old(Valid()) && GotSession(g, session)
      ensures Valid() && OnlyNewObjects()
    {
    }

    twostate lemma SessionAddedValue(g: Bytes, new session: ClusterSession)
      requires old(Valid()) && GotSession(g, session)
      ensures Value() == old(Value()).(groups := old(Value()).groups[g := session.Value()])
    {
      hide ClusterSession.Value, GroupDevices.Value;
      assert Value().groups == old(Value().groups)[g := session.Value()];
      assert Value().devices == old(Value().devices);
    }

    method OpenSession(g: Bytes)
      requires Valid() && g !in groups
      modifies this`groups
      ensures Valid() && OnlyNewObjects()
      ensures Value() == Opened(cfg, old(Value()), g)
    {
      var transport := new MeshTransport(cfg.kind);
      var session := new ClusterSession(transport);
      assert session.Value() == NewSession(cfg.kind);
      hide ClusterSession.Value, GroupDevices.Value;
      groups := groups[g := session];
      SessionAddedValid(g, session);
      SessionAddedValue(g, session);
    }

    method EnsureSession(g: Bytes, starts: bool) returns (refusal: Option<Failure>)
      requires Valid()
      modifies this`groups
      ensures Valid() && OnlyNewObjects()
      ensures refusal == Refusal(old(Value()), g, starts)
      ensures Value() == if refusal.None? then Opened(cfg, old(Value()), g) else old(Value())
      ensures refusal.None? ==> g in groups
    {
      hide Seed.Trim;
      assert Value().groups.Keys == groups.Keys;
      if g in groups {
        return None;
      }
      if Seed.Trim(g) == [] {
        return Some(EmptyGroup);
      }
      if |groups| >= MAX_GROUPS {
        return Some(TooManyGroups);
      }
      if !starts {
        return Some(TransportFailed);
      }
      OpenSession(g);
      assert g in Value().groups;
      return None;
    }

    method ApplyRoster(g: Bytes, eff: Roster) returns (evicted: seq<string>)
      requires Valid() && g in groups
      modifies groups[g].membership, groups[g].transport
      ensures Valid() && Objects() == old(Objects())
      ensures evicted == Evicted(old(Value()).groups[g], eff)
      ensures Value() == old(Value()).(groups := old(Value()).groups[g := Applied(old(Value()).groups[g], eff)])
    {
      hide Applied, Evicted;
      evicted := ReconcileSession(groups[g], eff);
      SessionChanged(g);
    }

    // ---- device state ----

    twostate predicate OnlyDevices(g: Bytes)
      reads this, Objects()
    {
      && unchanged(this) && g in deviceState
      && (forall h :: h in groups ==> unchanged(groups[h].membership) && unchanged(groups[h].transport))
      && (forall h :: h in deviceState && h != g ==> unchanged(deviceState[h]) && unchanged(deviceState[h].registry))
    }

    twostate lemma DevicesChangedValue(g: Bytes)
      requires old(Valid()) && OnlyDevices(g)
      ensures Value() == old(Value()).(devices := old(Value()).devices[g := deviceState[g].Value()])
    {
      hide ClusterSession.Value, GroupDevices.Value, Valid;
      assert Value().groups == old(Value()).groups;
      assert Value().devices == old(Value()).devices[g := deviceState[g].Value()];
    }

    twostate lemma DevicesChanged(g: Bytes)
      requires old(Valid()) && OnlyDevices(g) && Filed(deviceState[g].registry.links)
      ensures Valid() && Objects() == old(Objects())
      ensures Value() == old(Value()).(devices := old(Value()).devices[g := deviceState[g].Value()])
    {
      hide ClusterSession.Value, GroupDevices.Value, Value;
      DevicesChangedValue(g);
    }

    twostate predicate GotDevices(g: Bytes, new d: GroupDevices)
      reads this, Objects(), d, d.registry
    {
      && g !in old(deviceState) && deviceState == old(deviceState)[g := d]
      && sharedFiles == old(sharedFiles) && groups == old(groups)
      && fresh(d) && fresh(d.registry) && d.Value() == DeviceState([], EMPTY)
      && (forall h :: h in groups ==> unchanged(groups[h].membership) && unchanged(groups[h].transport))
      && (forall h :: h in old(deviceState) ==> unchanged(deviceState[h]) && unchanged(deviceState[h].registry))
    }

    twostate lemma DevicesAddedValid(g: Bytes, new d: GroupDevices)
      requires old(Valid()) && GotDevices(g, d)
      ensures Valid() && OnlyNewObjects()
    {
    }

    twostate lemma DevicesAddedValue(g: Bytes, new d: GroupDevices)
      requires old(Valid()) && GotDevices(g, d)
      ensures Value() == old(Value()).(devices := old(Value()).devices[g := DeviceState([], EMPTY)])
    {
      hide ClusterSession.Value, GroupDevices.Value;
      assert Value().groups == old(Value().groups);
      assert Value().devices == old(Value().devices)[g := d.Value()];
      assert d.Value() == DeviceState([], EMPTY);
    }

    /** `entry(group).or_default()` on the device state. */
    method EnsureDevices(g: Bytes)
      requires Valid()
      modifies this`deviceState
      ensures Valid() && OnlyNewObjects() && g in deviceState
      ensures Value() == old(Value()).(devices := old(Value()).devices[g := DevicesAt(old(Value()), g)])
    {
      hide ClusterSession.Value;
      if g !in deviceState {
        var d := new GroupDevices();
        deviceState := deviceState[g := d];
        DevicesAddedValid(g, d);
        DevicesAddedValue(g, d);
      } else {
        assert Value().devices == Value().devices[g := DevicesAt(Value(), g)];
      }
    }

    /** Feed one update to the group's registry, store the roster and derive the effective one; the roster
        is stored even when the update itself is refused as oversized. */
    method UpdateDevices(g: Bytes, roster: Roster, links: seq<SignedDeviceLink>, revocations: seq<SignedRevocation>)
      returns (rejected: seq<LinkRejection>, eff: Roster)
      requires Valid() && g in deviceState
      modifies deviceState[g], deviceState[g].registry
      ensures Valid() && Objects() == old(Objects())
      ensures var before, b := old(Value()).devices[g].registry, Batch(links, revocations);
              var reg := Updated(before, b, cfg.recover);
              && rejected == Refusals(before, b, cfg.recover)
              && eff == EffectiveRosterOf(roster, reg)
              && Value() == old(Value()).(devices := old(Value()).devices[g := DeviceState(roster, reg)])
    {
      hide Updated, Refusals, EffectiveRosterOf;
      var d := deviceState[g];
      rejected := d.registry.Update(links, revocations, cfg.recover);
      FiledByUpdate(old(d.registry.Value()), Batch(links, revocations), cfg.recover);
      eff := DeriveRoster(roster, Registry(d.registry.links, d.registry.revoked));
      d.roster := roster;
      DevicesChanged(g);
    }

    /** The body of `set_roster_with_devices` once the group has a session. */
    method TakeRoster(g: Bytes, roster: Roster, links: seq<SignedDeviceLink>, revocations: seq<SignedRevocation>)
      returns (evicted: seq<string>, rejected: seq<LinkRejection>)
      requires Valid() && g in groups
      modifies this`deviceState, Objects()
      ensures Valid() && OnlyNewObjects()
      ensures Value() == RosterSet(cfg, old(Value()), g, roster, Batch(links, revocations))
      ensures var reg := DevicesAt(old(Value()), g).registry;
              && rejected == Refusals(reg, Batch(links, revocations), cfg.recover)
              && evicted == Evicted(old(Value()).groups[g],
                                    EffectiveRosterOf(roster, Updated(reg, Batch(links, revocations), cfg.recover)))
    {
      hide Updated, Refusals, Applied, Evicted, EffectiveRosterOf, ClusterSession.Value, GroupDevices.Value, Value, Valid;
      hide RosterSet, Objects;
      ghost var s, b := Value(), Batch(links, revocations);
      EnsureDevices(g);
      ghost var s1 := Value();
      Owns(g);
      var eff;
      rejected, eff := UpdateDevices(g, roster, links, revocations);
      ghost var s2 := Value();
      assert groups == old(groups) && s2.groups == s.groups;
      Owns(g);
      evicted := ApplyRoster(g, eff);
      RosterSetInSteps(cfg, s, s1, s2, Value(), g, roster, b);
    }

    /** `set_roster_with_devices`. */
    method SetRosterWithDevices(
      g: Bytes, roster: Roster, links: seq<SignedDeviceLink>, revocations: seq<SignedRevocation>, starts: bool)
      returns (answer: Response)
      requires Valid()
      modifies this, Objects()
      ensures Valid() && OnlyNewObjects()
      ensures Value() == AfterRoster(cfg, old(Value()), g, roster, Batch(links, revocations), starts)
      ensures answer == RosterAnswer(cfg, old(Value()), g, roster, Batch(links, revocations), starts)
    {
      hide Refusal, Updated, Refusals, Evicted, EffectiveRosterOf, ClusterSession.Value, Value, Valid;
      hide RosterSet, Opened, DevicesAt, Objects;
      if Pinned(cfg, g) {
        return Error(PinnedElsewhere);
      }
      OpenedFirst(cfg, Value(), g, roster, Batch(links, revocations));
      var refusal := EnsureSession(g, starts);
      if refusal.Some? {
        return Error(refusal.value);
      }
      var evicted, rejected := TakeRoster(g, roster, links, revocations);
      answer := Reconciliation(evicted, rejected);
    }

    method JoinGroup(g: Bytes, starts: bool) returns (failure: Option<Failure>)
      requires Valid()
      modifies this
      ensures Valid() && OnlyNewObjects()
      ensures failure == EntryFailure(cfg, old(Value()), g, starts)
      ensures Value() == if failure.Some? then old(Value()) else Opened(cfg, old(Value()), g)
      ensures failure.None? ==> g in groups
    {
      hide Refusal;
      if Pinned(cfg, g) {
        return Some(PinnedElsewhere);
      }
      failure := EnsureSession(g, starts);
    }

    /** Drop the session and the shared set; device links and revocations stay. */
    method LeaveGroup(g: Bytes)
      requires Valid()
      modifies this
      ensures Valid() && Objects() <= old(Objects())
      ensures Value() == Forgotten(old(Value()), g)
    {
      groups := groups - {g};
      sharedFiles := sharedFiles - {g};
      hide ClusterSession.Value, GroupDevices.Value, Value;
      SessionGone(g);
    }

    twostate predicate LostSession(g: Bytes)
      reads this, Objects()
    {
      && groups == old(groups) - {g} && sharedFiles == old(sharedFiles) - {g} && deviceState == old(deviceState)
      && (forall h :: h in groups ==> unchanged(groups[h].membership) && unchanged(groups[h].transport))
      && (forall h :: h in deviceState ==> unchanged(deviceState[h]) && unchanged(deviceState[h].registry))
    }

    twostate lemma SessionGoneValue(g: Bytes)
      requires old(Valid()) && LostSession(g)
      ensures Value() == Forgotten(old(Value()), g)
    {
      hide ClusterSession.Value, GroupDevices.Value, Valid;
      assert Value().groups == old(Value()).groups - {g};
      assert Value().devices == old(Value()).devices;
    }

    twostate lemma SessionGone(g: Bytes)
      requires old(Valid()) && LostSession(g)
      ensures Valid() && Objects() <= old(Objects())
      ensures Value() == Forgotten(old(Value()), g)
    {
      hide ClusterSession.Value, GroupDevices.Value, Value;
      SessionGoneValue(g);
    }

    method SyncAdmission(g: Bytes)
      requires Valid()
      modifies Objects()
      ensures Valid() && Objects() == old(Objects()) && groups == old(groups)
      ensures Value() == AdmissionSynced(old(Value()), g)
    {
      if g in groups {
        groups[g].SyncAdmittedFromWire();
        hide Synced;
        SessionChanged(g);
      }
    }

    method SetShared(g: Bytes, files: set<string>)
      requires Valid()
      modifies this`sharedFiles
      ensures Valid() && Objects() == old(Objects())
      ensures Value() == old(Value()).(shared := old(Value()).shared[g := files])
    {
      hide ClusterSession.Value, GroupDevices.Value;
      sharedFiles := sharedFiles[g := files];
      assert Value().groups == old(Value()).groups;
      assert Value().devices == old(Value()).devices;
    }

    method DrainInbox(g: Bytes) returns (messages: seq<MeshMessage>)
      requires Valid() && g in groups
      modifies Objects()
      ensures Valid() && Objects() == old(Objects()) && groups == old(groups)
      ensures messages == old(Value()).groups[g].net.inbox
      ensures var x := old(Value()).groups[g];
              Value() == old(Value()).(groups := old(Value()).groups[g := x.(net := x.net.(inbox := []))])
    {
      messages := groups[g].transport.Drain();
      SessionChanged(g);
    }

    method AbsorbInto(g: Bytes, messages: seq<MeshMessage>)
      requires Valid()
      modifies this`sharedFiles
      ensures Valid() && Objects() == old(Objects())
      ensures Value() == old(Value()).(shared := old(Value()).shared[g := Absorbed(SharedAt(old(Value()), g), messages)])
    {
      hide ClusterSession.Value, GroupDevices.Value, Value, Valid;
      var files := if g in sharedFiles then sharedFiles[g] else {};
      for i := 0 to |messages|
        invariant files == Absorbed(SharedAt(Value(), g), messages[..i])
      {
        assert messages[..i + 1][..i] == messages[..i];
        if |files| < MAX_SHARED_FILES {
          files := files + {messages[i].data};
        }
      }
      assert messages[..|messages|] == messages;
      SetShared(g, files);
    }

    /** Drain the inbox into the shared set: only well-formed CIDs, and no new one past the cap. */
    method DrainIntoShared(g: Bytes) returns (messages: seq<MeshMessage>)
      requires Valid()
      modifies this`sharedFiles, Objects()
      ensures Valid() && Objects() == old(Objects()) && groups == old(groups)
      ensures Value() == Drained(old(Value()), g)
      ensures messages == DrainedMessages(old(Value()), g)
    {
      hide IsValidCid, ValidMessages, Absorbed, ClusterSession.Value, GroupDevices.Value, Value, Valid;
      messages := [];
      if g in groups {
        var inbox := DrainInbox(g);
        messages := ValidMessages(inbox);
        if messages != [] {
          AbsorbInto(g, messages);
        }
      }
    }

    method ShareOne(g: Bytes, cid: string) returns (failure: Option<Failure>)
      requires Valid()
      modifies this, Objects()
      ensures Valid() && Objects() == old(Objects())
      ensures failure == ShareFailure(old(Value()), g, cid)
      ensures Value() == if failure.Some? then old(Value()) else Shared(old(Value()), g, cid)
    {
      hide IsValidCid, Published, Value;
      if g !in groups {
        return Some(NotInGroup);
      }
      if !IsValidCid(cid) {
        return Some(BadCid);
      }
      var files := if g in sharedFiles then sharedFiles[g] else {};
      if cid !in files && |files| >= MAX_SHARED_FILES {
        return Some(SharedSetFull);
      }
      PublishTo(g, cid);
      SetShared(g, files + {cid});
      return None;
    }

    method PublishTo(g: Bytes, cid: string)
      requires Valid() && g in groups
      modifies Objects()
      ensures Valid() && Objects() == old(Objects())
      ensures var x := old(Value()).groups[g];
              Value() == old(Value()).(groups := old(Value()).groups[g := x.(net := Published(x.net, cid))])
    {
      groups[g].transport.Publish(cid);
      hide Published;
      SessionChanged(g);
    }

    method DialSeeds(g: Bytes, addrs: seq<Bytes>) returns (taken: bool)
      requires Valid() && g in groups
      modifies Objects()
      ensures Valid() && Objects() == old(Objects())
      ensures taken == TakesPeers(old(Value()).groups[g].net, addrs, cfg.parses)
      ensures Value() == if taken then SeedAdded(old(Value()), g, addrs) else old(Value())
    {
      hide DialPeers, TakesPeers;
      var dialing := groups[g].transport.AddPeers(addrs, cfg.parses);
      SessionChanged(g);
      taken := dialing.Some?;
      assert !taken ==> Value().groups == old(Value()).groups;
    }

    /** Dial the peers a seed names, if it is for this group and the group is joined. */
    method AddSeedPeers(g: Bytes, text: Bytes) returns (failure: Option<Failure>, dialing: nat)
      requires Valid()
      modifies Objects()
      ensures Valid() && Objects() == old(Objects())
      ensures failure == SeedFailure(cfg, old(Value()), g, text)
      ensures Value() == if failure.Some? then old(Value()) else SeedAdded(old(Value()), g, Decode(text).value.addrs)
      ensures failure.None? ==> dialing == |Decode(text).value.addrs|
    {
      hide Decode, TakesPeers, SeedAdded, Value, Valid;
      var seed := DecodeSeed(text);
      if seed.Err? {
        return Some(BadSeed(seed.error)), 0;
      }
      if seed.value.group != g {
        return Some(OtherGroup), 0;
      }
      if g !in groups {
        return Some(NotInGroup), 0;
      }
      var taken := DialSeeds(g, seed.value.addrs);
      if !taken {
        return Some(PeersRefused), 0;
      }
      return None, |seed.value.addrs|;
    }

    /** A transport hook: the peer is admitted if the membership allows it. */
    method AdmitOne(g: Bytes, address: string, role: string, starts: bool) returns (ok: bool)
      requires Valid()
      modifies this, Objects()
      ensures Valid() && OnlyNewObjects()
      ensures Value() == PeerAdmitted(cfg, old(Value()), g, address, role, starts)
      ensures ok <==> EntryFailure(cfg, old(Value()), g, starts).None?
                      && Joins(Opened(cfg, old(Value()), g).groups[g].members, address, role)
    {
      hide EntryFailure, Joins, Joined, ClusterSession.Value;
      var failure := JoinGroup(g, starts);
      if failure.Some? {
        return false;
      }
      ok := AdmitInto(g, address, role);
    }

    method AdmitInto(g: Bytes, address: string, role: string) returns (ok: bool)
      requires Valid() && g in groups
      modifies Objects()
      ensures Valid() && Objects() == old(Objects())
      ensures ok == Joins(old(Value()).groups[g].members, address, role)
      ensures Value() == old(Value()).(groups := old(Value()).groups[g := Joined(old(Value()).groups[g], address, role)])
    {
      hide Joins, Joined;
      ok := groups[g].Join(address, role);
      SessionChanged(g);
    }

    // ---- answers ----

    method StatusOf(g: Bytes) returns (answer: Response)
      requires Valid()
      modifies this`sharedFiles, Objects()
      ensures Valid() && Objects() == old(Objects())
      ensures Value() == Drained(AdmissionSynced(old(Value()), g), g)
      ensures answer == StatusAnswer(Value(), g)
    {
      hide Drained, AdmissionSynced;
      SyncAdmission(g);
      var messages := DrainIntoShared(g);
      if g !in groups {
        return StatusIs(0, 0, []);
      }
      var session := groups[g];
      assert Value().groups[g] == session.Value();
      answer := StatusIs(|session.transport.connected|, |session.membership.allowed|,
                         Lex.Sorted(if g in sharedFiles then sharedFiles[g] else {}));
    }

    method PollGroup(g: Bytes) returns (messages: seq<MeshMessage>)
      requires Valid()
      modifies this`sharedFiles, Objects()
      ensures Valid() && Objects() == old(Objects())
      ensures Value() == Drained(AdmissionSynced(old(Value()), g), g)
      ensures messages == DrainedMessages(old(Value()), g)
    {
      hide Drained, ValidMessages, Value, Valid;
      SyncAdmission(g);
      messages := DrainIntoShared(g);
    }

    method PageOf(g: Bytes, offset: nat, limit: nat) returns (answer: Response)
      requires Valid()
      modifies this`sharedFiles, Objects()
      ensures Valid() && Objects() == old(Objects())
      ensures Value() == Drained(old(Value()), g)
      ensures answer == PageAnswer(Value(), g, offset, limit)
    {
      hide Drained, Page;
      var messages := DrainIntoShared(g);
      if g !in sharedFiles {
        return FilePage([], offset, 0);
      }
      answer := FilePage(Page(Lex.Sorted(sharedFiles[g]), offset, limit), offset, |sharedFiles[g]|);
    }

    method PeersOf(g: Bytes) returns (answer: Response)
      requires Valid()
      modifies Objects()
      ensures Valid() && Objects() == old(Objects())
      ensures Value() == AdmissionSynced(old(Value()), g)
      ensures answer == PeersAnswer(Value(), g)
    {
      hide AdmissionSynced, PeerViews;
      SyncAdmission(g);
      if g !in groups {
        return PeerList([]);
      }
      var session := groups[g];
      assert Value().groups[g] == session.Value();
      var links := if g in deviceState then deviceState[g].registry.links else map[];
      assert links == DevicesAt(Value(), g).registry.links by {
        assert g in deviceState ==> Value().devices[g] == deviceState[g].Value();
      }
      answer := PeerList(PeerViews(links, Lex.Sorted(session.membership.allowed), session.transport.connected));
    }

    method MembersNow(g: Bytes) returns (answer: Response)
      requires Valid()
      ensures answer == MembersAnswer(Value(), g) && Value() == old(Value())
    {
      hide DeviceRosterOf;
      if g !in deviceState {
        return MemberList([]);
      }
      assert Value().devices[g] == deviceState[g].Value();
      var members := ListDevices(deviceState[g].roster, deviceState[g].registry.links);
      answer := MemberList(members);
    }

    method MembersOf(g: Bytes) returns (answer: Response)
      requires Valid()
      modifies Objects()
      ensures Valid() && Objects() == old(Objects())
      ensures Value() == AdmissionSynced(old(Value()), g)
      ensures answer == MembersAnswer(old(Value()), g)
    {
      hide Synced, DeviceRosterOf, Value, Valid;
      SyncAdmission(g);
      answer := MembersNow(g);
    }

    /** This node's seed for a joined group: read-only. */
    method SeedFor(g: Bytes) returns (answer: Response)
      requires Valid()
      ensures answer == SeedAnswer(Value(), g)
    {
      hide Validate, Encode;
      if g !in groups {
        return Error(NotInGroup);
      }
      assert Value().groups[g] == groups[g].Value();
      if groups[g].transport.kind == InProcess {
        return Error(NoMesh);
      }
      var seed := GroupSeed(g, groups[g].transport.listening);
      if seed.addrs == [] {
        return Error(NoAddress);
      }
      match Validate(seed) {
        case Some(e) => return Error(BadSeed(e));
        case None =>
          var text := EncodeSeed(seed);
          return SeedText(text, seed.addrs);
      }
    }

    /** `handle_request`: one request, its whole effect and its answer. */
    method HandleRequest(req: Request, starts: bool) returns (answer: Response)
      requires Valid()
      modifies this, Objects()
      ensures Valid() && OnlyNewObjects()
      ensures Value() == Next(cfg, old(Value()), req, starts)
      ensures answer == Answer(cfg, old(Value()), req, starts)
    {
      hide AfterRoster, RosterAnswer, EntryFailure, ShareFailure, SeedFailure, StatusAnswer, PeersAnswer, MembersAnswer;
      hide PageAnswer, SeedAnswer, Drained, DrainedMessages, AdmissionSynced, Shared, SeedAdded, Forgotten, Opened;
      hide Value, Valid, Decode;
      match req {
        case SetRoster(g, roster, links, revocations) =>
          answer := SetRosterWithDevices(g, roster, links, revocations, starts);
        case ListMembers(g) =>
          answer := MembersOf(g);
        case Join(g) =>
          var failure := JoinGroup(g, starts);
          answer := match failure case Some(e) => Error(e) case None => Done;
        case Leave(g) =>
          LeaveGroup(g);
          answer := Done;
        case Status(g) =>
          answer := StatusOf(g);
        case Peers(g) =>
          answer := PeersOf(g);
        case ShareFile(g, cid) =>
          var failure := ShareOne(g, cid);
          answer := match failure case Some(e) => Error(e) case None => Done;
        case Poll(g) =>
          var messages := PollGroup(g);
          answer := Messages(messages);
        case SharedFiles(g, offset, limit) =>
          answer := PageOf(g, offset, if limit.Some? then limit.value else MAX_SHARED_FILES_PAGE);
        case SeedOf(g) =>
          answer := SeedFor(g);
        case AddSeed(g, text) =>
          var failure, dialing := AddSeedPeers(g, text);
          answer := match failure case Some(e) => Error(e) case None => Seeded(dialing);
      }
    }

    /** A transport hook: the peer is gone. */
    method DropOne(g: Bytes, address: string)
      requires Valid()
      modifies Objects()
      ensures Valid() && Objects() == old(Objects())
      ensures Value() == PeerDropped(old(Value()), g, address)
    {
      if g in groups {
        DropFrom(g, address);
      } else {
        hide Value, Valid, Objects;
      }
    }

    method DropFrom(g: Bytes, address: string)
      requires Valid() && g in groups
      modifies Objects()
      ensures Valid() && Objects() == old(Objects())
      ensures Value() == old(Value()).(groups := old(Value()).groups[g := Left(old(Value()).groups[g], address)])
    {
      hide Left;
      groups[g].Leave(address);
      SessionChanged(g);
    }

    /** The network changed what the group's transport reports; the single-node one only receives. */
    method NetworkChanges(g: Bytes, connected: set<string>, inbox: seq<MeshMessage>, listening: seq<Bytes>)
      requires Valid()
      modifies Objects()
      ensures Valid() && Objects() == old(Objects())
      ensures Value() == Wired(old(Value()), g, connected, inbox, listening)
    {
      if g in groups {
        groups[g].transport.Reports(connected, inbox, listening);
        SessionChanged(g);
      } else {
        hide Value, Valid, Objects;
      }
    }

    // ---- whole runs ----

    /** Anything that can happen to a daemon, happening. */
    method HandleEvent(e: Event) returns (answer: Response)
      requires Valid()
      modifies this, Objects()
      ensures Valid() && OnlyNewObjects()
      ensures Value() == Step(cfg, old(Value()), e)
      ensures e.Ask? ==> answer == Answer(cfg, old(Value()), e.request, e.starts)
    {
      hide Value, Valid, Objects, Next, Answer, PeerAdmitted, PeerDropped, Wired, EntryFailure, Opened, Joins;
      answer := Done;
      match e {
        case Ask(request, starts) =>
          answer := HandleRequest(request, starts);
        case AdmitPeer(g, address, role, starts) =>
          var ok := AdmitOne(g, address, role, starts);
        case DropPeer(g, address) =>
          DropOne(g, address);
        case Wire(g, connected, inbox, listening) =>
          NetworkChanges(g, connected, inbox, listening);
      }
    }

    /** One event after another: the object ends where the run does, and each request was answered as the
        run says. */
    method HandleEvents(ghost past: seq<Event>, events: seq<Event>) returns (answers: seq<Response>)
      requires Valid() && Value() == Run(cfg, past)
      modifies this, Objects()
      ensures Valid() && OnlyNewObjects()
      ensures Value() == Run(cfg, past + events) && Answered(cfg, past, events, answers)
      decreases |events|
    {
      hide Value, Valid, Objects, Run, Step, Answered;
      if events == [] {
        NoneAnswered(cfg, past);
        return [];
      }
      var n := |events| - 1;
      answers := HandleEvents(past, events[..n]);
      var answer := HandleEvent(events[n]);
      OneMoreAnswered(cfg, past, events, answers, answer);
      answers := answers + [answer];
    }
  }

  /** Each request among some events was answered as the state it met says. */
  ghost predicate Answered(cfg: Config, past: seq<Event>, events: seq<Event>, answers: seq<Response>) {
    && |answers| == |events|
    && forall i :: 0 <= i < |events| && events[i].Ask? ==>
         answers[i] == Answer(cfg, Run(cfg, past + events[..i]), events[i].request, events[i].starts)
  }

  lemma NoneAnswered(cfg: Config, past: seq<Event>)
    ensures Answered(cfg, past, [], []) && past + [] == past
  {
  }

  lemma OneMoreAnswered(cfg: Config, past: seq<Event>, events: seq<Event>, answers: seq<Response>, answer: Response)
    requires events != []
    requires var n := |events| - 1;
             Answered(cfg, past, events[..n], answers)
             && (events[n].Ask? ==> answer == Answer(cfg, Run(cfg, past + events[..n]), events[n].request, events[n].starts))
    ensures Answered(cfg, past, events, answers + [answer])
    ensures var n := |events| - 1; Run(cfg, past + events) == Step(cfg, Run(cfg, past + events[..n]), events[n])
  {
    hide Step, Answer;
    var n, all := |events| - 1, past + events;
    assert all[..|all| - 1] == past + events[..n] && all[|all| - 1] == events[n];
    hide Run;
    forall i | 0 <= i < n ensures events[..n][..i] == events[..i] {}
  }

  /** A daemon started and given any events holds what `Run` says, so every law about runs is one about it. */
  method Serve(cfg: Config, events: seq<Event>) returns (daemon: ClusterDaemon, answers: seq<Response>)
    ensures fresh(daemon) && daemon.cfg == cfg && daemon.Valid() && daemon.Value() == Run(cfg, events)
    ensures Answered(cfg, [], events, answers)
  {
    hide Answered, Step;
    FreshRun(cfg, events);
    hide Run;
    daemon := new ClusterDaemon(cfg);
    answers := daemon.HandleEvents([], events);
  }

  lemma FreshRun(cfg: Config, events: seq<Event>)
    ensures Run(cfg, []) == FRESH && [] + events == events
  {
  }
}
