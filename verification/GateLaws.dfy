/** What the gate admits: `allowed_set(effective_roster(..))` characterised by the raw roster lines, the
    filed links and the revocations, and what follows for order, revocation and provenance. */
module GateLaws {
  import opened Wrappers
  import opened Addresses
  import opened Links
  import opened Devices
  import opened EffectiveRoster
  import opened Membership
  import opened RegistryLaws
  import Lex

  /** The admission gate: who may mesh, given a member roster and a registry. */
  function Gate(roster: Roster, reg: Registry): set<string> {
    AllowedSet(EffectiveRosterOf(roster, reg))
  }

  predicate OnRoster(roster: Roster, a: string) {
    exists i :: 0 <= i < |roster| && CanonicalAddress(roster[i].0) == Some(a)
  }

  ghost predicate HasRevoked(reg: Registry, member: string) {
    exists d :: (member, d) in reg.revoked
  }

  /** Some device that is not itself on the roster is linked to `member`. */
  ghost predicate LinkedOffRoster(roster: Roster, reg: Registry, member: string) {
    exists d :: d in reg.links && !OnRoster(roster, d) && reg.links[d].member == member
  }

  /** Filed under their own device, and in canonical form. */
  ghost predicate WellFormed(reg: Registry) {
    && Filed(reg.links)
    && forall d :: d in reg.links ==> IsCanonical(d)
  }

  lemma UpdateKeepsWellFormed(reg: Registry, b: Batch, recover: Verifier)
    requires WellFormed(reg)
    ensures WellFormed(Updated(reg, b, recover))
  {
    FiledByUpdate(reg, b, recover);
    if !Oversized(b) {
      var v, revoked := Verified(b.links, recover), reg.revoked + AcceptedPairs(b.revocations, recover);
      forall d | d in Resolve(v, revoked) ensures IsCanonical(d) {
        KeptLink(v, revoked, d);
        VerifiedIs(b.links, recover, Resolve(v, revoked)[d]);
        var s :| s in b.links && Attests(s, Resolve(v, revoked)[d], recover);
        CanonicalFixpoint(s.link.device);
      }
    }
  }

  /** Line `i` gives `a` its role: of all lines for `a` it has the highest rank, and is the first such. */
  ghost predicate DecidesRole(roster: Roster, a: string, i: int) {
    && 0 <= i < |roster| && CanonicalAddress(roster[i].0) == Some(a)
    && (forall j :: 0 <= j < |roster| && CanonicalAddress(roster[j].0) == Some(a)
                    ==> RoleRank(roster[j].1) <= RoleRank(roster[i].1))
    && (forall j :: 0 <= j < i && CanonicalAddress(roster[j].0) == Some(a)
                    ==> RoleRank(roster[j].1) < RoleRank(roster[i].1))
  }

  lemma {:induction false} RoleDecided(roster: Roster, a: string)
    ensures a in RoleOf(roster) <==> OnRoster(roster, a)
    ensures a in RoleOf(roster) ==> exists i :: DecidesRole(roster, a, i) && roster[i].1 == RoleOf(roster)[a]
  {
    hide CanonicalAddress, RoleRank;
    if roster != [] {
      var front, n := roster[..|roster| - 1], |roster| - 1;
      RoleDecided(front, a);
      assert forall i :: 0 <= i < |front| ==> front[i] == roster[i];
      if CanonicalAddress(roster[n].0) == Some(a) {
        if a in RoleOf(front) {
          var k :| DecidesRole(front, a, k) && front[k].1 == RoleOf(front)[a];
          var at := if RoleRank(roster[n].1) > RoleRank(front[k].1) then n else k;
          assert DecidesRole(roster, a, at);
        } else {
          assert forall j :: 0 <= j < |front| ==> CanonicalAddress(front[j].0) != Some(a);
          assert DecidesRole(roster, a, n);
        }
      } else if a in RoleOf(front) {
        var k :| DecidesRole(front, a, k) && front[k].1 == RoleOf(front)[a];
        assert DecidesRole(roster, a, k);
      }
    }
  }

  lemma RankDecided(roster: Roster, a: string)
    ensures (a in RoleOf(roster) && RoleRank(RoleOf(roster)[a]) >= MIN_CLUSTER_RANK) <==> ListedAtRank(roster, a)
    ensures a in RoleOf(roster) ==> IsCanonical(a)
  {
    hide CanonicalAddress, RoleRank;
    RoleDecided(roster, a);
    if a in RoleOf(roster) {
      var i :| DecidesRole(roster, a, i) && roster[i].1 == RoleOf(roster)[a];
      CanonicalFixpoint(roster[i].0);
    }
  }

  lemma ListingGates(m: map<string, string>, a: string)
    requires forall x :: x in m ==> IsCanonical(x)
    ensures a in AllowedSet(Listing(m)) <==> a in m && RoleRank(m[a]) >= MIN_CLUSTER_RANK
  {
    hide CanonicalAddress, RoleRank;
    var s := Listing(m);
    ListingLists(m);
    AllowedSetGates(s, a);
    if ListedAtRank(s, a) {
      var i :| 0 <= i < |s| && CanonicalAddress(s[i].0) == Some(a) && RoleRank(s[i].1) >= MIN_CLUSTER_RANK;
      assert (s[i].0, s[i].1) in s;
      CanonicalFixpoint(s[i].0);
    }
    if a in m && RoleRank(m[a]) >= MIN_CLUSTER_RANK {
      assert (a, m[a]) in s;
      var i :| 0 <= i < |s| && s[i] == (a, m[a]);
      CanonicalFixpoint(a);
    }
  }

  lemma ActiveMeans(roster: Roster, reg: Registry, d: string)
    requires WellFormed(reg)
    ensures ActiveDevice(RoleOf(roster), reg.links, d)
            <==> d in reg.links && !OnRoster(roster, d) && ListedAtRank(roster, reg.links[d].member)
  {
    hide CanonicalAddress, RoleRank;
    if d in reg.links {
      RoleDecided(roster, d);
      RankDecided(roster, reg.links[d].member);
    }
  }

  lemma OnKeysMeans(roster: Roster, reg: Registry, a: string)
    requires WellFormed(reg) && ListedAtRank(roster, a)
    ensures a in OnDeviceKeys(RoleOf(roster), reg) <==> HasRevoked(reg, a) || LinkedOffRoster(roster, reg, a)
  {
    hide CanonicalAddress, RoleRank;
    var roles := RoleOf(roster);
    if a in RevokingMembers(reg.revoked) {
      var p :| p in reg.revoked && p.0 == a;
      assert (a, p.1) in reg.revoked;
    }
    if d :| (a, d) in reg.revoked {
      assert (a, d).0 in RevokingMembers(reg.revoked);
    }
    if a in LinkedMembers(roles, reg.links) {
      var d :| d in reg.links && ActiveDevice(roles, reg.links, d) && reg.links[d].member == a;
      ActiveMeans(roster, reg, d);
    }
    if LinkedOffRoster(roster, reg, a) {
      var d :| d in reg.links && !OnRoster(roster, d) && reg.links[d].member == a;
      ActiveMeans(roster, reg, d);
    }
  }

  /** An address may mesh exactly if it is a roster member of sufficient rank that is not on device keys,
      or it is a device, not itself on the roster, linked to a roster member of sufficient rank. */
  lemma GateCharacterized(roster: Roster, reg: Registry, a: string)
    requires WellFormed(reg)
    ensures a in Gate(roster, reg)
            <==> (ListedAtRank(roster, a) && !HasRevoked(reg, a) && !LinkedOffRoster(roster, reg, a))
                 || (a in reg.links && !OnRoster(roster, a) && ListedAtRank(roster, reg.links[a].member))
  {
    hide CanonicalAddress, RoleRank;
    var roles := RoleOf(roster);
    var m := Effective(roles, reg);
    forall x | x in m ensures IsCanonical(x) {
      if x in roles { RankDecided(roster, x); }
    }
    ListingGates(m, a);
    RankDecided(roster, a);
    RoleDecided(roster, a);
    ActiveMeans(roster, reg, a);
    if ListedAtRank(roster, a) { OnKeysMeans(roster, reg, a); }
    if a in reg.links { RankDecided(roster, reg.links[a].member); }
  }

  /** `r` is the role the roster gives `a`: that of its deciding line. */
  ghost predicate RoleIs(roster: Roster, a: string, r: string) {
    exists i :: DecidesRole(roster, a, i) && roster[i].1 == r
  }

  lemma RoleIsRoleOf(roster: Roster, a: string, r: string)
    ensures RoleIs(roster, a, r) <==> a in RoleOf(roster) && RoleOf(roster)[a] == r
  {
    hide CanonicalAddress, RoleRank, RoleOf;
    RoleDecided(roster, a);
    if RoleIs(roster, a, r) {
      var i :| DecidesRole(roster, a, i) && roster[i].1 == r;
      var j :| DecidesRole(roster, a, j) && roster[j].1 == RoleOf(roster)[a];
      assert i == j;
    }
  }

  /** Exactly who is in the effective roster, and as what: a roster member not on device keys with its own
      role, whatever its rank; and a device, itself off the roster, linked to a member at rank, with that
      member's role. */
  lemma EffectiveExactly(roster: Roster, reg: Registry, a: string, r: string)
    requires WellFormed(reg)
    ensures (a, r) in EffectiveRosterOf(roster, reg)
            <==> (RoleIs(roster, a, r) && !HasRevoked(reg, a) && !(ListedAtRank(roster, a) && LinkedOffRoster(roster, reg, a)))
                 || (a in reg.links && !OnRoster(roster, a) && ListedAtRank(roster, reg.links[a].member)
                     && RoleIs(roster, reg.links[a].member, r))
  {
    hide CanonicalAddress, RoleRank, RoleIs, RoleOf, ListedAtRank, OnRoster, OnDeviceKeys;
    var roles := RoleOf(roster);
    ListingLists(Effective(roles, reg));
    RoleIsRoleOf(roster, a, r);
    RoleDecided(roster, a);
    ActiveMeans(roster, reg, a);
    AnyOnKeysMeans(roster, reg, a);
    if a in reg.links { RoleIsRoleOf(roster, reg.links[a].member, r); }
  }

  lemma AnyOnKeysMeans(roster: Roster, reg: Registry, a: string)
    requires WellFormed(reg)
    ensures a in OnDeviceKeys(RoleOf(roster), reg) <==> HasRevoked(reg, a) || (ListedAtRank(roster, a) && LinkedOffRoster(roster, reg, a))
  {
    hide CanonicalAddress, RoleRank, RoleOf, ListedAtRank, OnRoster;
    if ListedAtRank(roster, a) {
      OnKeysMeans(roster, reg, a);
    } else {
      if d :| d in reg.links && ActiveDevice(RoleOf(roster), reg.links, d) && reg.links[d].member == a { ActiveMeans(roster, reg, d); }
      if d :| (a, d) in reg.revoked { assert (a, d).0 in RevokingMembers(reg.revoked); }
    }
  }

  /** The effective roster is strictly increasing by address, so it names nobody twice. */
  lemma EffectiveRosterIncreases(roster: Roster, reg: Registry)
    ensures ByAddress(EffectiveRosterOf(roster, reg)) && DistinctAddresses(EffectiveRosterOf(roster, reg))
  {
    var s := EffectiveRosterOf(roster, reg);
    ListingLists(Effective(RoleOf(roster), reg));
    forall i, j | 0 <= i < j < |s| ensures s[i].0 != s[j].0 {
      Lex.Trichotomy(s[i].0, s[j].0);
    }
  }

  // ---- order ----

  lemma RosterOrderIrrelevant(r: Roster, t: Roster, a: string)
    requires forall e :: e in r <==> e in t
    ensures OnRoster(r, a) <==> OnRoster(t, a)
    ensures ListedAtRank(r, a) <==> ListedAtRank(t, a)
  {
    hide CanonicalAddress, RoleRank;
    if OnRoster(r, a) { var i :| 0 <= i < |r| && CanonicalAddress(r[i].0) == Some(a); assert r[i] in t; }
    if OnRoster(t, a) { var i :| 0 <= i < |t| && CanonicalAddress(t[i].0) == Some(a); assert t[i] in r; }
    if ListedAtRank(r, a) {
      var i :| 0 <= i < |r| && CanonicalAddress(r[i].0) == Some(a) && RoleRank(r[i].1) >= MIN_CLUSTER_RANK;
      assert r[i] in t;
    }
    if ListedAtRank(t, a) {
      var i :| 0 <= i < |t| && CanonicalAddress(t[i].0) == Some(a) && RoleRank(t[i].1) >= MIN_CLUSTER_RANK;
      assert t[i] in r;
    }
  }

  /** Two nodes that see the same roster lines, links and revocations, each in its own order, let the
      same addresses mesh. */
  lemma GateConverges(r: Roster, t: Roster, reg: Registry, b: Batch, c: Batch, recover: Verifier)
    requires WellFormed(reg)
    requires multiset(r) == multiset(t) && Shuffled(b, c)
    ensures Gate(r, Updated(reg, b, recover)) == Gate(t, Updated(reg, c, recover))
  {
    var x, y := Updated(reg, b, recover), Updated(reg, c, recover);
    SameElements(r, t);
    UpdateConverges(reg, b, c, recover);
    UpdateKeepsWellFormed(reg, b, recover);
    UpdateKeepsWellFormed(reg, c, recover);
    forall a ensures a in Gate(r, x) <==> a in Gate(t, y) {
      GateDependsOnMembers(r, x, t, y, a);
    }
  }

  lemma GateDependsOnMembers(r: Roster, x: Registry, t: Roster, y: Registry, a: string)
    requires WellFormed(x) && WellFormed(y)
    requires forall e :: e in r <==> e in t
    requires x.revoked == y.revoked && x.links.Keys == y.links.Keys
    requires forall d :: d in x.links ==> x.links[d].member == y.links[d].member
    ensures a in Gate(r, x) <==> a in Gate(t, y)
  {
    hide CanonicalAddress, RoleRank;
    GateCharacterized(r, x, a);
    GateCharacterized(t, y, a);
    RosterOrderIrrelevant(r, t, a);
    forall d ensures OnRoster(r, d) <==> OnRoster(t, d) { RosterOrderIrrelevant(r, t, d); }
    if a in x.links { RosterOrderIrrelevant(r, t, x.links[a].member); }
    assert LinkedOffRoster(r, x, a) <==> LinkedOffRoster(t, y, a);
  }

  // ---- revocation ----

  /** Revoking more never lets in anyone new, although it drops links that kept a member off its own
      identity: the revocation that drops such a link keeps the member off as well. */
  lemma RevocationAntitone(roster: Roster, verified: seq<DeviceLink>, few: set<(string, string)>, many: set<(string, string)>)
    requires few <= many
    requires WellFormed(Registry(Resolve(verified, few), few))
    ensures Gate(roster, Registry(Resolve(verified, many), many)) <= Gate(roster, Registry(Resolve(verified, few), few))
  {
    hide CanonicalAddress, RoleRank;
    var x, y := Registry(Resolve(verified, few), few), Registry(Resolve(verified, many), many);
    forall d | d in y.links ensures d in x.links && x.links[d] == y.links[d] && d in DevicesIn(verified) {
    }
    assert WellFormed(y);
    forall a | a in Gate(roster, y) ensures a in Gate(roster, x) {
      GateCharacterized(roster, x, a);
      GateCharacterized(roster, y, a);
      if ListedAtRank(roster, a) && !HasRevoked(y, a) && !LinkedOffRoster(roster, y, a) {
        assert forall d :: (a, d) in few ==> (a, d) in many;
        if LinkedOffRoster(roster, x, a) {
          var d :| d in x.links && !OnRoster(roster, d) && x.links[d].member == a;
          KeptLink(verified, few, d);
          MemberCharacterized(verified, many, d, a);
          assert false;
        }
      }
    }
  }

  /** The same batch of links with more revocations in the update. */
  lemma MoreRevocationsNeverAdmit(roster: Roster, reg: Registry, b: Batch, c: Batch, recover: Verifier)
    requires WellFormed(reg) && !Oversized(b) && !Oversized(c)
    requires b.links == c.links && forall r :: r in b.revocations ==> r in c.revocations
    ensures Gate(roster, Updated(reg, c, recover)) <= Gate(roster, Updated(reg, b, recover))
  {
    UpdateKeepsWellFormed(reg, b, recover);
    var few, many := AcceptedPairs(b.revocations, recover), AcceptedPairs(c.revocations, recover);
    forall p | p in few ensures p in many {
      AcceptedPairsIs(b.revocations, recover, p);
      AcceptedPairsIs(c.revocations, recover, p);
    }
    RevocationAntitone(roster, Verified(b.links, recover), reg.revoked + few, reg.revoked + many);
  }

  /** Both updates must be within the size limit: an oversized one, however many revocations it carries,
      keeps a device that the small one, carrying no link, drops. */
  lemma OversizedAdmitsMore(roster: Roster, reg: Registry, c: Batch, d: string, recover: Verifier)
    requires WellFormed(reg) && d in Gate(roster, reg) && !OnRoster(roster, d)
    requires c.links == [] && Oversized(c)
    ensures d in Gate(roster, Updated(reg, c, recover)) && d !in Gate(roster, Updated(reg, Batch([], []), recover))
  {
    hide CanonicalAddress, RoleRank, Gate;
    var none := Batch([], []);
    UpdateKeepsWellFormed(reg, none, recover);
    GateCharacterized(roster, reg, d);
    GateCharacterized(roster, Updated(reg, none, recover), d);
    assert Updated(reg, none, recover).links == map[];
    assert ListedAtRank(roster, d) ==> OnRoster(roster, d);
  }

  // ---- revocation is per member and device ----

  /** A verifier that takes a signature to be the signer's address. */
  function ByName(m: Message, sig: string): Option<string> { Some(sig) }

  /** One member's link and another member's revocation of the same device, in one update. */
  function TwoMembers(m: string, n: string, d: string, w: string, name: string): Batch {
    Batch([SignedDeviceLink(DeviceLink(n, d, w, 0, name, 0), n, d, w)], [SignedRevocation(DeviceRevocation(m, d, 0), m)])
  }

  /** A device one member has revoked is admitted all the same under another that links it. */
  lemma RevokedByOneLinkedByAnother(m: string, n: string, d: string, w: string, name: string)
    requires IsCanonical(m) && IsCanonical(n) && IsCanonical(d) && IsCanonical(w)
    requires m != n && d != n && d != w && LabelIsValid(name)
    ensures var reg := Updated(EMPTY, TwoMembers(m, n, d, w, name), ByName);
            && (m, d) in reg.revoked && d in reg.links && reg.links[d].member == n
            && d in Gate([(n, "member")], reg)
  {
    hide CanonicalAddress, IsCanonical, LabelIsValid, Resolve, Gate;
    CanonicalFixpoint(m);
    CanonicalFixpoint(n);
    CanonicalFixpoint(d);
    CanonicalFixpoint(w);
    var b, roster := TwoMembers(m, n, d, w, name), [(n, "member")];
    var l, reg := DeviceLink(n, d, w, 0, name, 0), Updated(EMPTY, b, ByName);
    OneOfEach(b, l, m);
    assert reg.revoked == {(m, d)};
    assert SoleMember(Verified(b.links, ByName), d, n);
    MemberCharacterized(Verified(b.links, ByName), reg.revoked, d, n);
    EmptyIsWellFormed();
    UpdateKeepsWellFormed(EMPTY, b, ByName);
    GateCharacterized(roster, reg, d);
    assert CanonicalAddress(roster[0].0) == Some(n);
    assert ListedAtRank(roster, n);
    assert !OnRoster(roster, d);
  }

  lemma OneOfEach(b: Batch, l: DeviceLink, m: string)
    requires |b.links| == 1 && b.links[0].link == l && NewLink(l) == Some(l)
    requires b.links[0] == SignedDeviceLink(l, l.member, l.device, l.wallet)
    requires IsCanonical(m) && IsCanonical(l.device)
    requires b.revocations == [SignedRevocation(DeviceRevocation(m, l.device, 0), m)]
    ensures forall k :: k in Verified(b.links, ByName) <==> k == l
    ensures AcceptedPairs(b.revocations, ByName) == {(m, l.device)} && !Oversized(b)
  {
    hide NewLink, CanonicalAddress, IsCanonical, VerifyLink;
    CanonicalFixpoint(m);
    CanonicalFixpoint(l.device);
    forall k ensures k in Verified(b.links, ByName) <==> k == l {
      VerifiedIs(b.links, ByName, k);
      BodyExactly(l, l);
      assert Attests(b.links[0], l, ByName);
    }
    assert b.revocations[..0] == [];
    AcceptedMeansRevokes(b.revocations[0], ByName, (m, l.device));
  }

  lemma EmptyIsWellFormed()
    ensures WellFormed(EMPTY)
  {
  }
}
