/** What the registry promises: how one batch resolves, how far that depends on order, and what any
    history of updates leaves behind. */
module RegistryLaws {
  import opened Wrappers
  import opened Addresses
  import opened Links
  import opened Devices
  import Lex

  // ---- reading a batch ----

  /** What a submitted body is taken as: exactly what it stands for, or nothing if there is no such thing. */
  lemma BodyExactly(b: DeviceLink, l: DeviceLink)
    ensures NewLink(b) == Some(l) <==> Canonicalises(b, l)
  {
    hide CanonicalAddress, LabelIsValid;
  }

  /** A canonical body is taken as it stands, whatever its time and its index within the limit. */
  lemma CanonicalBodyTaken(l: DeviceLink)
    requires IsCanonical(l.member) && IsCanonical(l.device) && IsCanonical(l.wallet)
    requires l.device != l.member && l.device != l.wallet && l.index <= MAX_DEVICE_INDEX && LabelIsValid(l.name)
    ensures NewLink(l) == Some(l)
  {
    hide CanonicalAddress, LabelIsValid, IsCanonical;
    CanonicalFixpoint(l.member);
    CanonicalFixpoint(l.device);
    CanonicalFixpoint(l.wallet);
  }

  lemma VerifyMeansAttests(s: SignedDeviceLink, recover: Verifier)
    ensures VerifyLink(s, recover).Pass? ==> NewLink(s.link).Some? && Attests(s, NewLink(s.link).value, recover)
    ensures forall l :: Attests(s, l, recover) ==> VerifyLink(s, recover).Pass? && NewLink(s.link) == Some(l)
  {
    hide NewLink, Canonicalises;
    if NewLink(s.link).Some? { BodyExactly(s.link, NewLink(s.link).value); }
    forall l | Attests(s, l, recover) ensures NewLink(s.link) == Some(l) { BodyExactly(s.link, l); }
  }

  /** The signature that is reported, if any: the first that is wrong of member, device and wallet. */
  predicate WrongSignature(s: SignedDeviceLink, l: DeviceLink, which: string, recover: Verifier) {
    var byMember := recover(OfLink(l), s.memberSig) == Some(l.member);
    var byDevice := recover(OfLink(l), s.deviceSig) == Some(l.device);
    var byWallet := recover(OfLink(l), s.walletSig) == Some(l.wallet);
    || (which == "member" && !byMember)
    || (which == "device" && byMember && !byDevice)
    || (which == "wallet" && byMember && byDevice && !byWallet)
  }

  /** Why a link is refused: as malformed, under the device it was submitted with, exactly if it stands for
      nothing; else under its canonical device, for the first wrong signature. */
  lemma LinkRefusedExactly(s: SignedDeviceLink, recover: Verifier, why: LinkRejection)
    ensures VerifyLink(s, recover) == Fail(why)
            <==> (why == Malformed(s.link.device) && !exists l :: Canonicalises(s.link, l))
                 || (why.BadSignature? && exists l :: Canonicalises(s.link, l) && why.device == l.device && WrongSignature(s, l, why.which, recover))
  {
    hide NewLink, Canonicalises;
    if NewLink(s.link).Some? { BodyExactly(s.link, NewLink(s.link).value); }
    forall l | Canonicalises(s.link, l) ensures NewLink(s.link) == Some(l) { BodyExactly(s.link, l); }
  }

  lemma {:induction false} VerifiedIs(links: seq<SignedDeviceLink>, recover: Verifier, l: DeviceLink)
    ensures l in Verified(links, recover) <==> exists s :: s in links && Attests(s, l, recover)
  {
    hide VerifyLink, NewLink, Attests;
    if links != [] {
      var front, s := links[..|links| - 1], links[|links| - 1];
      assert links == front + [s];
      VerifiedIs(front, recover, l);
      VerifyMeansAttests(s, recover);
    }
  }

  /** The pairs revoked after an update: those revoked before, and, unless the update is oversized, those its
      members themselves signed away in it. Nobody else's signature revokes anything. */
  lemma RevokedExactly(reg: Registry, b: Batch, recover: Verifier, p: (string, string))
    ensures p in Updated(reg, b, recover).revoked
            <==> p in reg.revoked || (!Oversized(b) && exists r :: r in b.revocations && Revokes(r, p, recover))
  {
    hide Resolve, Verified, Revokes;
    AcceptedPairsIs(b.revocations, recover, p);
  }

  /** Every link kept by an update comes from one of the batch, taken as exactly what it stands for and signed
      by the three keys it names. */
  lemma KeptIsSubmitted(reg: Registry, b: Batch, recover: Verifier, d: string) returns (s: SignedDeviceLink)
    requires !Oversized(b) && d in Updated(reg, b, recover).links
    ensures s in b.links && Attests(s, Updated(reg, b, recover).links[d], recover)
    ensures Updated(reg, b, recover).links[d].device == d
  {
    hide Resolve, Verified, Attests, AcceptedPairs;
    var revoked := reg.revoked + AcceptedPairs(b.revocations, recover);
    KeptLink(Verified(b.links, recover), revoked, d);
    VerifiedIs(b.links, recover, Resolve(Verified(b.links, recover), revoked)[d]);
    s :| s in b.links && Attests(s, Updated(reg, b, recover).links[d], recover);
  }

  // ---- what is reported back ----

  /** One link is reported exactly if it fails, and as what it fails. */
  lemma OneLinkReported(s: SignedDeviceLink, recover: Verifier)
    ensures LinkRefusals([s], recover) == match VerifyLink(s, recover) case Fail(why) => [why] case Pass => []
  {
    hide VerifyLink;
    var one := [s];
    assert one[..0] == [] && LinkRefusals([], recover) == [];
  }

  lemma {:induction false} LinkReportsAppend(a: seq<SignedDeviceLink>, b: seq<SignedDeviceLink>, recover: Verifier)
    ensures LinkRefusals(a + b, recover) == LinkRefusals(a, recover) + LinkRefusals(b, recover)
  {
    hide VerifyLink;
    if b == [] {
      assert a + b == a;
    } else {
      var ab := a + b;
      assert ab[..|ab| - 1] == a + b[..|b| - 1];
      LinkReportsAppend(a, b[..|b| - 1], recover);
    }
  }

  /** One revocation is reported exactly if nothing is revoked by it, under its device in canonical form if
      both addresses have one, and as submitted if not. */
  lemma OneRevocationReported(r: SignedRevocation, recover: Verifier)
    ensures (exists p :: Revokes(r, p, recover)) ==> RevocationRefusals([r], recover) == []
    ensures (forall p :: !Revokes(r, p, recover)) ==>
              RevocationRefusals([r], recover)
              == [BadRevocation(match (CanonicalAddress(r.revocation.member), CanonicalAddress(r.revocation.device))
                                case (Some(_), Some(d)) => d
                                case _ => r.revocation.device)]
  {
    hide CanonicalAddress, Revokes;
    var one := [r];
    assert one[..0] == [] && RevocationRefusals([], recover) == [];
    if p :| Revokes(r, p, recover) {
      AcceptedMeansRevokes(r, recover, p);
    } else if AcceptedPair(r, recover).Some? {
      AcceptedMeansRevokes(r, recover, AcceptedPair(r, recover).value);
      assert false;
    }
  }

  lemma {:induction false} RevocationReportsAppend(a: seq<SignedRevocation>, b: seq<SignedRevocation>, recover: Verifier)
    ensures RevocationRefusals(a + b, recover) == RevocationRefusals(a, recover) + RevocationRefusals(b, recover)
  {
    hide AcceptedPair, RevocationRefusal;
    if b == [] {
      assert a + b == a;
    } else {
      var ab := a + b;
      assert ab[..|ab| - 1] == a + b[..|b| - 1];
      RevocationReportsAppend(a, b[..|b| - 1], recover);
    }
  }

  /** Of the devices some verified link names, those not kept are each reported once, in order: as contested
      if more than one member claims it, else as revoked. */
  lemma UnkeptReported(reg: Registry, b: Batch, recover: Verifier)
    requires !Oversized(b)
    ensures var v, t := Verified(b.links, recover), Updated(reg, b, recover);
            Refusals(reg, b, recover)
            == RevocationRefusals(b.revocations, recover) + LinkRefusals(b.links, recover)
               + Unkept(Lex.Sorted(DevicesIn(v) - t.links.Keys), v)
  {
    hide Lex.Sorted, RevocationRefusals, LinkRefusals, AcceptedPairs, Verified, Contested, Newest;
    var v, revoked := Verified(b.links, recover), reg.revoked + AcceptedPairs(b.revocations, recover);
    Lex.SortedLists(DevicesIn(v));
    FatesReport(Lex.Sorted(DevicesIn(v)), v, revoked);
    Lex.FilterSorted(DevicesIn(v), Updated(reg, b, recover).links.Keys);
  }

  ghost predicate ManyClaim(v: seq<DeviceLink>, d: string) {
    exists l, k :: l in v && k in v && l.device == d && k.device == d && l.member != k.member
  }

  ghost function Unkept(order: seq<string>, v: seq<DeviceLink>): seq<LinkRejection> {
    seq(|order|, i requires 0 <= i < |order| => if ManyClaim(v, order[i]) then Conflict(order[i]) else Revoked(order[i]))
  }

  lemma ContestedMeansMany(v: seq<DeviceLink>, d: string)
    requires d in DevicesIn(v)
    ensures Contested(LinksOf(v, d)) <==> ManyClaim(v, d)
  {
    LinksOfSelects(v, d);
    SomeLinkOf(v);
    var ls := LinksOf(v, d);
    if ManyClaim(v, d) {
      var l, k :| l in v && k in v && l.device == d && k.device == d && l.member != k.member;
      ContestedMeans(ls, l.member);
      assert l in ls && k in ls;
    } else {
      assert ls[0] in ls;
      forall i | 0 <= i < |ls| ensures ls[i].member == ls[0].member { assert ls[i] in ls; }
    }
  }

  lemma {:induction false} NoTooMany(b: Batch, recover: Verifier)
    ensures TooMany !in RevocationRefusals(b.revocations, recover) && TooMany !in LinkRefusals(b.links, recover)
    decreases |b.links| + |b.revocations|
  {
    hide AcceptedPair, VerifyLink;
    if b.links != [] {
      var s := b.links[|b.links| - 1];
      NoTooMany(Batch(b.links[..|b.links| - 1], b.revocations), recover);
      if VerifyLink(s, recover).Fail? { LinkRefusedExactly(s, recover, VerifyLink(s, recover).error); }
    }
    if b.revocations != [] { NoTooMany(Batch(b.links, b.revocations[..|b.revocations| - 1]), recover); }
  }

  /** An update with more than 64 links, or more than 64 revocations, changes nothing and reports just that;
      no other reports it. */
  lemma OversizedExactly(reg: Registry, b: Batch, recover: Verifier)
    ensures TooMany in Refusals(reg, b, recover) <==> |b.links| > 64 || |b.revocations| > 64
    ensures |b.links| > 64 || |b.revocations| > 64 ==>
              Refusals(reg, b, recover) == [TooMany] && Updated(reg, b, recover) == reg
  {
    hide Resolve, RevocationRefusals, LinkRefusals, Contested, Verified;
    if !Oversized(b) {
      NoTooMany(b, recover);
      UnkeptReported(reg, b, recover);
    }
  }

  lemma {:induction false} FatesReport(order: seq<string>, v: seq<DeviceLink>, revoked: set<(string, string)>)
    requires forall d :: d in order ==> d in DevicesIn(v)
    ensures FateRefusals(order, Fates(v, revoked)) == Unkept(Lex.Without(order, Resolve(v, revoked).Keys), v)
  {
    hide Contested, Newest, LinksOf, ManyClaim;
    if order != [] {
      var front, d := order[..|order| - 1], order[|order| - 1];
      assert order == front + [d];
      FatesReport(front, v, revoked);
      ContestedMeansMany(v, d);
      SomeLinkOf(v);
    }
  }

  lemma {:induction false} VerifiedAppends(a: seq<SignedDeviceLink>, b: seq<SignedDeviceLink>, recover: Verifier)
    ensures Verified(a + b, recover) == Verified(a, recover) + Verified(b, recover)
  {
    hide VerifyLink, NewLink;
    if b == [] {
      assert a + b == a;
    } else {
      var ab := a + b;
      assert ab[..|ab| - 1] == a + b[..|b| - 1];
      VerifiedAppends(a, b[..|b| - 1], recover);
    }
  }

  lemma {:induction false} LinksOfAppends(a: seq<DeviceLink>, b: seq<DeviceLink>, d: string)
    ensures LinksOf(a + b, d) == LinksOf(a, d) + LinksOf(b, d)
  {
    if b == [] {
      assert a + b == a;
    } else {
      var ab := a + b;
      assert ab[..|ab| - 1] == a + b[..|b| - 1];
      LinksOfAppends(a, b[..|b| - 1], d);
    }
  }

  // ---- newest wins ----

  lemma OlderIsStrictWeak(a: DeviceLink, b: DeviceLink, c: DeviceLink)
    ensures !(Older(a, b) && Older(b, a)) && !Older(a, a)
    ensures Older(a, b) && Older(b, c) ==> Older(a, c)
    ensures !Older(a, b) && !Older(b, c) ==> !Older(a, c)
    ensures Older(a, b) && !Older(c, b) ==> Older(a, c)
  {
    Lex.Trichotomy(a.name, b.name);
    Lex.Trichotomy(b.name, c.name);
    Lex.Trichotomy(a.name, c.name);
    Lex.Trichotomy(a.name, a.name);
    if Lex.Less(a.name, b.name) && Lex.Less(b.name, c.name) { Lex.Transitive(a.name, b.name, c.name); }
    if Lex.Less(a.name, c.name) && Lex.Less(c.name, b.name) { Lex.Transitive(a.name, c.name, b.name); }
    if Lex.Less(c.name, a.name) && Lex.Less(a.name, b.name) { Lex.Transitive(c.name, a.name, b.name); }
  }

  /** The chosen link: no other is newer, and every later one in the batch is strictly older. */
  lemma {:induction false} NewestIsNewest(ls: seq<DeviceLink>) returns (at: nat)
    requires ls != []
    ensures at < |ls| && ls[at] == Newest(ls)
    ensures forall j :: 0 <= j < |ls| ==> !Older(Newest(ls), ls[j])
    ensures forall j :: at < j < |ls| ==> Older(ls[j], Newest(ls))
  {
    var front, x := ls[..|ls| - 1], ls[|ls| - 1];
    OlderIsStrictWeak(x, x, x);
    at := |ls| - 1;
    if |ls| > 1 {
      var k := NewestIsNewest(front);
      var n := Newest(front);
      assert forall j :: 0 <= j < |front| ==> ls[j] == front[j];
      if Older(x, n) {
        at := k;
        OlderIsStrictWeak(x, n, n);
      } else {
        forall j | 0 <= j < |ls| ensures !Older(x, ls[j]) {
          if j < |front| { OlderIsStrictWeak(x, n, front[j]); }
        }
      }
    }
  }

  lemma ContestedMeans(ls: seq<DeviceLink>, m: string)
    requires exists l :: l in ls && l.member == m
    ensures !Contested(ls) <==> forall l :: l in ls ==> l.member == m
  {
    var l :| l in ls && l.member == m;
    var i :| 0 <= i < |ls| && ls[i] == l;
    if !Contested(ls) {
      assert ls[i].member == ls[0].member;
    } else {
      var j :| 0 <= j < |ls| && ls[j].member != ls[0].member;
      assert ls[j] in ls && ls[0] in ls;
    }
  }

  /** Member `m` is the only member any verified link names for device `d`. */
  ghost predicate SoleMember(verified: seq<DeviceLink>, d: string, m: string) {
    && (exists l :: l in verified && l.device == d && l.member == m)
    && (forall l :: l in verified && l.device == d ==> l.member == m)
  }

  /** A kept link is one of the batch, signed by the only member its device has there, at least as new
      as every other link of that device, and its pair was never revoked. */
  lemma KeptLink(verified: seq<DeviceLink>, revoked: set<(string, string)>, d: string)
    requires d in Resolve(verified, revoked)
    ensures var l := Resolve(verified, revoked)[d];
            && l in verified && l.device == d
            && SoleMember(verified, d, l.member)
            && (l.member, d) !in revoked
            && (forall k :: k in verified && k.device == d ==> !Older(l, k))
            && forall k :: k in verified && k.device == d ==>
                 k.issuedAt < l.issuedAt || (k.issuedAt == l.issuedAt && (k.name == l.name || Lex.Less(k.name, l.name)))
  {
    SomeLinkOf(verified);
    LinksOfSelects(verified, d);
    var ls := LinksOf(verified, d);
    var l := Resolve(verified, revoked)[d];
    var at := NewestIsNewest(ls);
    assert ls[at] in ls && ls[at] == l;
    ContestedMeans(ls, l.member);
    forall k | k in verified && k.device == d ensures !Older(l, k) && k.member == l.member {
      assert k in ls;
      var j :| 0 <= j < |ls| && ls[j] == k;
    }
    forall k | k in verified && k.device == d
      ensures k.issuedAt < l.issuedAt || (k.issuedAt == l.issuedAt && (k.name == l.name || Lex.Less(k.name, l.name)))
    {
      Lex.Trichotomy(k.name, l.name);
    }
  }

  /** Which member a device ends up under depends only on which links verified, not on their order. */
  lemma MemberCharacterized(verified: seq<DeviceLink>, revoked: set<(string, string)>, d: string, m: string)
    ensures (d in Resolve(verified, revoked) && Resolve(verified, revoked)[d].member == m)
            <==> (SoleMember(verified, d, m) && (m, d) !in revoked)
  {
    if d in Resolve(verified, revoked) {
      KeptLink(verified, revoked, d);
    }
    if SoleMember(verified, d, m) && (m, d) !in revoked {
      LinksOfSelects(verified, d);
      SomeLinkOf(verified);
      var ls := LinksOf(verified, d);
      var l :| l in verified && l.device == d && l.member == m;
      assert l in ls;
      ContestedMeans(ls, m);
      var at := NewestIsNewest(ls);
      assert ls[at] in ls;
    }
  }

  lemma FiledByUpdate(reg: Registry, b: Batch, recover: Verifier)
    requires Filed(reg.links)
    ensures Filed(Updated(reg, b, recover).links)
  {
    if !Oversized(b) {
      var verified, revoked := Verified(b.links, recover), reg.revoked + AcceptedPairs(b.revocations, recover);
      forall d | d in Resolve(verified, revoked) ensures Resolve(verified, revoked)[d].device == d {
        KeptLink(verified, revoked, d);
      }
    }
  }

  // ---- order ----

  lemma SameElements<T>(a: seq<T>, b: seq<T>)
    requires multiset(a) == multiset(b)
    ensures |a| == |b|
    ensures forall x :: x in a <==> x in b
  {
    assert |a| == |multiset(a)| && |b| == |multiset(b)|;
    forall x ensures x in a <==> x in b {
      assert x in a <==> x in multiset(a);
      assert x in b <==> x in multiset(b);
    }
  }

  ghost predicate Shuffled(b: Batch, c: Batch) {
    multiset(b.links) == multiset(c.links) && multiset(b.revocations) == multiset(c.revocations)
  }

  /** Two nodes that receive the same links and revocations in any order end with the same revocations
      and file every device under the same member. */
  lemma UpdateConverges(reg: Registry, b: Batch, c: Batch, recover: Verifier)
    requires Shuffled(b, c)
    ensures Updated(reg, b, recover).revoked == Updated(reg, c, recover).revoked
    ensures Updated(reg, b, recover).links.Keys == Updated(reg, c, recover).links.Keys
    ensures forall d :: d in Updated(reg, b, recover).links
                        ==> Updated(reg, b, recover).links[d].member == Updated(reg, c, recover).links[d].member
  {
    SameElements(b.links, c.links);
    SameElements(b.revocations, c.revocations);
    if !Oversized(b) {
      var v, w := Verified(b.links, recover), Verified(c.links, recover);
      SameBodies(b.links, c.links, recover);
      forall p ensures p in AcceptedPairs(b.revocations, recover) <==> p in AcceptedPairs(c.revocations, recover) {
        AcceptedPairsIs(b.revocations, recover, p);
        AcceptedPairsIs(c.revocations, recover, p);
      }
      assert AcceptedPairs(b.revocations, recover) == AcceptedPairs(c.revocations, recover);
      MembersConverge(v, w, reg.revoked + AcceptedPairs(b.revocations, recover));
    }
  }

  lemma MembersConverge(v: seq<DeviceLink>, w: seq<DeviceLink>, revoked: set<(string, string)>)
    requires forall l :: l in v <==> l in w
    ensures Resolve(v, revoked).Keys == Resolve(w, revoked).Keys
    ensures forall d :: d in Resolve(v, revoked) ==> Resolve(v, revoked)[d].member == Resolve(w, revoked)[d].member
  {
    var x, y := Resolve(v, revoked), Resolve(w, revoked);
    forall d ensures (d in x <==> d in y) && (d in x ==> x[d].member == y[d].member) {
      if d in x {
        MemberCharacterized(v, revoked, d, x[d].member);
        MemberCharacterized(w, revoked, d, x[d].member);
      }
      if d in y {
        MemberCharacterized(v, revoked, d, y[d].member);
        MemberCharacterized(w, revoked, d, y[d].member);
      }
    }
  }

  /** `k` is another verified link of the same device, equal to the kept one in (issued_at, label). */
  predicate Ties(verified: seq<DeviceLink>, kept: DeviceLink, k: DeviceLink) {
    k in verified && k.device == kept.device && k != kept && !Older(k, kept) && !Older(kept, k)
  }

  /** The link filed for a device is the same for every arrival order exactly when no other verified
      link ties with it; `TieFollowsOrder` gives the order that files the other one. */
  lemma UntiedLinkConverges(v: seq<DeviceLink>, w: seq<DeviceLink>, revoked: set<(string, string)>, d: string)
    requires forall l :: l in v <==> l in w
    requires d in Resolve(v, revoked)
    requires forall k :: !Ties(v, Resolve(v, revoked)[d], k)
    ensures d in Resolve(w, revoked) && Resolve(w, revoked)[d] == Resolve(v, revoked)[d]
  {
    MembersConverge(v, w, revoked);
    KeptLink(v, revoked, d);
    KeptLink(w, revoked, d);
    assert !Ties(v, Resolve(v, revoked)[d], Resolve(w, revoked)[d]);
  }

  lemma SameBodies(a: seq<SignedDeviceLink>, b: seq<SignedDeviceLink>, recover: Verifier)
    requires multiset(a) == multiset(b)
    ensures forall l :: l in Verified(a, recover) <==> l in Verified(b, recover)
  {
    SameElements(a, b);
    forall l ensures l in Verified(a, recover) <==> l in Verified(b, recover) {
      VerifiedIs(a, recover, l);
      VerifiedIs(b, recover, l);
    }
  }

  /** The batch with one attestation of `k` moved to its end. */
  lemma MoveLast(links: seq<SignedDeviceLink>, recover: Verifier, k: DeviceLink)
    returns (front: seq<SignedDeviceLink>, s: SignedDeviceLink)
    requires k in Verified(links, recover)
    ensures multiset(front + [s]) == multiset(links)
    ensures Verified(front + [s], recover) == Verified(front, recover) + [k]
  {
    hide VerifyLink, NewLink;
    VerifiedIs(links, recover, k);
    s :| s in links && Attests(s, k, recover);
    var i :| 0 <= i < |links| && links[i] == s;
    front := links[..i] + links[i + 1..];
    MoveToEnd(links, i);
    VerifiedAppends(front, [s], recover);
    assert Verified([s], recover) == [k] by {
      VerifyMeansAttests(s, recover);
      assert [s][..0] == [];
    }
  }

  lemma MoveToEnd<T>(s: seq<T>, i: nat)
    requires i < |s|
    ensures multiset(s[..i] + s[i + 1..] + [s[i]]) == multiset(s)
  {
    assert s == s[..i] + [s[i]] + s[i + 1..];
  }

  lemma TieFollowsOrder(links: seq<SignedDeviceLink>, recover: Verifier, revoked: set<(string, string)>, d: string, k: DeviceLink)
    returns (reordered: seq<SignedDeviceLink>)
    requires d in Resolve(Verified(links, recover), revoked)
    requires Ties(Verified(links, recover), Resolve(Verified(links, recover), revoked)[d], k)
    ensures multiset(reordered) == multiset(links)
    ensures d in Resolve(Verified(reordered, recover), revoked)
    ensures Resolve(Verified(reordered, recover), revoked)[d] == k
  {
    var front, s := MoveLast(links, recover, k);
    reordered := front + [s];
    SameBodies(links, reordered, recover);
    MembersConverge(Verified(links, recover), Verified(reordered, recover), revoked);
    LastTieWins(Verified(links, recover), Verified(front, recover), revoked, d, k);
  }

  /** Whether the filed link survives every reordering of the batch, decided by the batch alone. */
  lemma OrderMattersExactlyOnTies(links: seq<SignedDeviceLink>, recover: Verifier, revoked: set<(string, string)>, d: string)
    requires d in Resolve(Verified(links, recover), revoked)
    ensures (forall other: seq<SignedDeviceLink> :: multiset(other) == multiset(links) ==>
               d in Resolve(Verified(other, recover), revoked)
               && Resolve(Verified(other, recover), revoked)[d] == Resolve(Verified(links, recover), revoked)[d])
            <==> (forall k :: !Ties(Verified(links, recover), Resolve(Verified(links, recover), revoked)[d], k))
  {
    var kept := Resolve(Verified(links, recover), revoked)[d];
    if k :| Ties(Verified(links, recover), kept, k) {
      KeptLink(Verified(links, recover), revoked, d);
      var other := TieFollowsOrder(links, recover, revoked, d, k);
    } else {
      forall other: seq<SignedDeviceLink> | multiset(other) == multiset(links)
        ensures d in Resolve(Verified(other, recover), revoked) && Resolve(Verified(other, recover), revoked)[d] == kept
      {
        SameBodies(links, other, recover);
        UntiedLinkConverges(Verified(links, recover), Verified(other, recover), revoked, d);
      }
    }
  }

  lemma LinksOfLast(front: seq<DeviceLink>, k: DeviceLink)
    ensures LinksOf(front + [k], k.device) == LinksOf(front, k.device) + [k]
  {
    var w := front + [k];
    assert w[..|w| - 1] == front;
  }

  lemma NewestOfLast(ls: seq<DeviceLink>, k: DeviceLink)
    requires ls != [] ==> !Older(k, Newest(ls))
    ensures Newest(ls + [k]) == k
  {
    var all := ls + [k];
    assert all[..|all| - 1] == ls;
  }

  lemma ResolvesToNewest(verified: seq<DeviceLink>, revoked: set<(string, string)>, d: string)
    requires d in Resolve(verified, revoked)
    ensures LinksOf(verified, d) != [] && Resolve(verified, revoked)[d] == Newest(LinksOf(verified, d))
  {
    SomeLinkOf(verified);
  }

  lemma LastTieWins(v: seq<DeviceLink>, front: seq<DeviceLink>, revoked: set<(string, string)>, d: string, k: DeviceLink)
    requires d in Resolve(v, revoked) && d in Resolve(front + [k], revoked)
    requires forall l :: l in front + [k] <==> l in v
    requires Ties(v, Resolve(v, revoked)[d], k)
    ensures Resolve(front + [k], revoked)[d] == k
  {
    hide Resolve, Newest, Older, LinksOf;
    KeptLink(v, revoked, d);
    ResolvesToNewest(front + [k], revoked, d);
    LinksOfLast(front, k);
    var ls := LinksOf(front, d);
    if ls != [] {
      var at := NewestIsNewest(ls);
      LinksOfSelects(front, d);
      assert ls[at] in ls;
      assert Newest(ls) in front + [k];
      OlderIsStrictWeak(k, Resolve(v, revoked)[d], Newest(ls));
    }
    NewestOfLast(ls, k);
  }

  // ---- histories ----

  function Replay(history: seq<Batch>, recover: Verifier): Registry {
    if history == [] then EMPTY
    else Updated(Replay(history[..|history| - 1], recover), history[|history| - 1], recover)
  }

  /** The last batch small enough to be taken, if any. */
  function LastTaken(history: seq<Batch>): Option<Batch> {
    if history == [] then None
    else
      var b := history[|history| - 1];
      if Oversized(b) then LastTaken(history[..|history| - 1]) else Some(b)
  }

  /** Some batch that was not refused as oversized carried an accepted revocation of the pair. */
  ghost predicate EverRevoked(history: seq<Batch>, recover: Verifier, p: (string, string)) {
    exists b, r :: b in history && !Oversized(b) && r in b.revocations && Revokes(r, p, recover)
  }

  /** After any history, oversized updates included: the revocations are all that were ever accepted,
      and the links are the resolution of the last batch taken, under all of those revocations. */
  lemma {:induction false} HistoryDetermines(history: seq<Batch>, recover: Verifier)
    ensures forall p :: p in Replay(history, recover).revoked <==> EverRevoked(history, recover, p)
    ensures LastTaken(history).None? ==> Replay(history, recover).links == map[]
    ensures LastTaken(history).Some? ==>
              Replay(history, recover).links
              == Resolve(Verified(LastTaken(history).value.links, recover), Replay(history, recover).revoked)
  {
    if history != [] {
      var front, b := history[..|history| - 1], history[|history| - 1];
      assert history == front + [b];
      HistoryDetermines(front, recover);
      forall p ensures p in Replay(history, recover).revoked <==> EverRevoked(history, recover, p) {
        assert EverRevoked(history, recover, p)
          <==> EverRevoked(front, recover, p)
               || (!Oversized(b) && exists r :: r in b.revocations && Revokes(r, p, recover)) by {
          if EverRevoked(history, recover, p) && !EverRevoked(front, recover, p) {
            var c, r :| c in history && !Oversized(c) && r in c.revocations && Revokes(r, p, recover);
            assert c in front || c == b;
          }
        }
        AcceptedPairsIs(b.revocations, recover, p);
      }
    }
  }

  /** The last batches taken are the same up to order, or there is none in either history. */
  ghost predicate SameLast(h: seq<Batch>, k: seq<Batch>) {
    match (LastTaken(h), LastTaken(k))
    case (Some(b), Some(c)) => Shuffled(b, c)
    case (None, None) => true
    case _ => false
  }

  /** Two nodes that took the same updates in different orders, the last of them alike, agree on every
      revocation and on the member of every device, whatever the orders. */
  lemma HistoriesConverge(h: seq<Batch>, k: seq<Batch>, recover: Verifier)
    requires multiset(h) == multiset(k) && SameLast(h, k)
    ensures var x, y := Replay(h, recover), Replay(k, recover);
            && x.revoked == y.revoked && x.links.Keys == y.links.Keys
            && forall d :: d in x.links ==> x.links[d].member == y.links[d].member
  {
    hide Resolve, Verified, Replay, AcceptedPair, LastTaken;
    var x, y := Replay(h, recover), Replay(k, recover);
    SameElements(h, k);
    HistoryDetermines(h, recover);
    HistoryDetermines(k, recover);
    forall p ensures p in x.revoked <==> p in y.revoked {
      assert EverRevoked(h, recover, p) <==> EverRevoked(k, recover, p);
    }
    assert x.revoked == y.revoked;
    if LastTaken(h).Some? {
      var b, c := LastTaken(h).value, LastTaken(k).value;
      SameBodies(b.links, c.links, recover);
      MembersConverge(Verified(b.links, recover), Verified(c.links, recover), x.revoked);
    }
  }
}
