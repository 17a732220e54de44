/** The device registry (`cluster-core/src/device.rs`): a batch of signed links and revocations is
    verified, grouped by device, and resolved. */
module Devices {
  import opened Wrappers
  import opened Links
  import opened Addresses
  import Lex

  const MAX_LINKS_PER_UPDATE: nat := 64

  // ---- a whole batch ----

  function AcceptedPairs(revs: seq<SignedRevocation>, recover: Verifier): set<(string, string)> {
    if revs == [] then {}
    else
      var s := revs[|revs| - 1];
      var rest := AcceptedPairs(revs[..|revs| - 1], recover);
      match AcceptedPair(s, recover) case Some(p) => rest + {p} case None => rest
  }

  lemma AcceptedMeansRevokes(r: SignedRevocation, recover: Verifier, p: (string, string))
    ensures AcceptedPair(r, recover) == Some(p) <==> Revokes(r, p, recover)
  {
    hide CanonicalAddress;
  }

  lemma {:induction false} AcceptedPairsIs(revs: seq<SignedRevocation>, recover: Verifier, p: (string, string))
    ensures p in AcceptedPairs(revs, recover) <==> exists r :: r in revs && Revokes(r, p, recover)
  {
    hide AcceptedPair, Revokes;
    if revs != [] {
      var front, last := revs[..|revs| - 1], revs[|revs| - 1];
      assert revs == front + [last];
      AcceptedPairsIs(front, recover, p);
      AcceptedMeansRevokes(last, recover, p);
    }
  }

  function RevocationRefusals(revs: seq<SignedRevocation>, recover: Verifier): seq<LinkRejection> {
    if revs == [] then []
    else
      var s := revs[|revs| - 1];
      var rest := RevocationRefusals(revs[..|revs| - 1], recover);
      if AcceptedPair(s, recover).Some? then rest else rest + [RevocationRefusal(s)]
  }

  /** The canonical bodies of the links that verify, in batch order. */
  function Verified(links: seq<SignedDeviceLink>, recover: Verifier): seq<DeviceLink> {
    if links == [] then []
    else
      var s := links[|links| - 1];
      var rest := Verified(links[..|links| - 1], recover);
      if VerifyLink(s, recover).Pass? then rest + [NewLink(s.link).value] else rest
  }

  function LinkRefusals(links: seq<SignedDeviceLink>, recover: Verifier): seq<LinkRejection> {
    if links == [] then []
    else
      var s := links[|links| - 1];
      var rest := LinkRefusals(links[..|links| - 1], recover);
      match VerifyLink(s, recover) case Fail(e) => rest + [e] case Pass => rest
  }

  function LinksOf(ls: seq<DeviceLink>, device: string): seq<DeviceLink> {
    if ls == [] then []
    else
      var l := ls[|ls| - 1];
      var rest := LinksOf(ls[..|ls| - 1], device);
      if l.device == device then rest + [l] else rest
  }

  lemma {:induction false} LinksOfSelects(ls: seq<DeviceLink>, device: string)
    ensures forall l :: l in LinksOf(ls, device) <==> l in ls && l.device == device
  {
    if ls != [] {
      var front := ls[..|ls| - 1];
      LinksOfSelects(front, device);
      assert ls == front + [ls[|ls| - 1]];
    }
  }

  function DevicesIn(ls: seq<DeviceLink>): set<string> { set l | l in ls :: l.device }

  predicate Contested(ls: seq<DeviceLink>) {
    exists i :: 0 <= i < |ls| && ls[i].member != ls[0].member
  }

  // ---- newest wins: a stable sort on (issued_at, label), last element taken ----

  predicate Older(a: DeviceLink, b: DeviceLink) {
    a.issuedAt < b.issuedAt || (a.issuedAt == b.issuedAt && Lex.Less(a.name, b.name))
  }

  function InsertLink(s: seq<DeviceLink>, x: DeviceLink): (r: seq<DeviceLink>)
    ensures |r| == |s| + 1
  {
    if s == [] || !Older(x, s[|s| - 1]) then s + [x]
    else InsertLink(s[..|s| - 1], x) + [s[|s| - 1]]
  }

  /** `sort_by` on (issued_at, label): insertion keeps links with equal keys in batch order. */
  function StableSort(ls: seq<DeviceLink>): (r: seq<DeviceLink>)
    ensures |r| == |ls|
  {
    if ls == [] then [] else InsertLink(StableSort(ls[..|ls| - 1]), ls[|ls| - 1])
  }

  /** The link the sort leaves last: of the links no other is newer than, the latest in the batch. */
  function Newest(ls: seq<DeviceLink>): DeviceLink
    requires ls != []
  {
    var x := ls[|ls| - 1];
    if |ls| == 1 then x
    else
      var n := Newest(ls[..|ls| - 1]);
      if Older(x, n) then n else x
  }

  lemma {:induction false} SortThenPop(ls: seq<DeviceLink>)
    requires ls != []
    ensures StableSort(ls)[|ls| - 1] == Newest(ls)
  {
    if |ls| > 1 { SortThenPop(ls[..|ls| - 1]); }
  }

  // ---- the registry ----

  datatype Registry = Registry(links: map<string, DeviceLink>, revoked: set<(string, string)>)

  const EMPTY: Registry := Registry(map[], {})

  /** Every link is filed under its own device. */
  ghost predicate Filed(links: map<string, DeviceLink>) {
    forall d :: d in links ==> links[d].device == d
  }

  datatype Fate = Keep(link: DeviceLink) | Refuse(why: LinkRejection)

  function FateOf(device: string, ls: seq<DeviceLink>, revoked: set<(string, string)>): Fate
    requires ls != []
  {
    var n := Newest(ls);
    if Contested(ls) then Refuse(Conflict(device))
    else if (n.member, n.device) in revoked then Refuse(Revoked(device))
    else Keep(n)
  }

  lemma SomeLinkOf(ls: seq<DeviceLink>)
    ensures forall d :: d in DevicesIn(ls) ==> LinksOf(ls, d) != []
  {
    forall d | d in DevicesIn(ls) ensures LinksOf(ls, d) != [] {
      var l :| l in ls && l.device == d;
      LinksOfSelects(ls, d);
      assert l in LinksOf(ls, d);
    }
  }

  /** What becomes of each device some verified link names. */
  function Fates(verified: seq<DeviceLink>, revoked: set<(string, string)>): map<string, Fate> {
    SomeLinkOf(verified);
    map d | d in DevicesIn(verified) :: FateOf(d, LinksOf(verified, d), revoked)
  }

  function KeptLinks(fates: map<string, Fate>): map<string, DeviceLink> {
    map d | d in fates && fates[d].Keep? :: fates[d].link
  }

  function FateRefusals(order: seq<string>, fates: map<string, Fate>): seq<LinkRejection>
  {
    if order == [] then []
    else
      var d := order[|order| - 1];
      var rest := FateRefusals(order[..|order| - 1], fates);
      if d in fates && fates[d].Refuse? then rest + [fates[d].why] else rest
  }

  function Resolve(verified: seq<DeviceLink>, revoked: set<(string, string)>): map<string, DeviceLink> {
    KeptLinks(Fates(verified, revoked))
  }

  datatype Batch = Batch(links: seq<SignedDeviceLink>, revocations: seq<SignedRevocation>)

  predicate Oversized(b: Batch) {
    |b.links| > MAX_LINKS_PER_UPDATE || |b.revocations| > MAX_LINKS_PER_UPDATE
  }

  /** The registry after one `update`. */
  function Updated(reg: Registry, b: Batch, recover: Verifier): Registry {
    if Oversized(b) then reg
    else
      var revoked := reg.revoked + AcceptedPairs(b.revocations, recover);
      Registry(Resolve(Verified(b.links, recover), revoked), revoked)
  }

  /** What one `update` reports back, in the order it reports it. */
  function Refusals(reg: Registry, b: Batch, recover: Verifier): seq<LinkRejection> {
    if Oversized(b) then [TooMany]
    else
      var verified := Verified(b.links, recover);
      var fates := Fates(verified, reg.revoked + AcceptedPairs(b.revocations, recover));
      RevocationRefusals(b.revocations, recover) + LinkRefusals(b.links, recover)
      + FateRefusals(Lex.Sorted(DevicesIn(verified)), fates)
  }

  function KeptIn(order: seq<string>, fates: map<string, Fate>): map<string, DeviceLink> {
    if order == [] then map[]
    else
      var rest := KeptIn(order[..|order| - 1], fates);
      var d := order[|order| - 1];
      if d in fates && fates[d].Keep? then rest[d := fates[d].link] else rest
  }

  lemma {:induction false} KeptInCollects(order: seq<string>, fates: map<string, Fate>)
    ensures forall d :: d in KeptIn(order, fates) <==> d in order && d in fates && fates[d].Keep?
    ensures forall d :: d in KeptIn(order, fates) ==> fates[d] == Keep(KeptIn(order, fates)[d])
  {
    if order != [] {
      var front := order[..|order| - 1];
      KeptInCollects(front, fates);
      assert order == front + [order[|order| - 1]];
    }
  }

  lemma KeptInOrder(fates: map<string, Fate>)
    ensures KeptIn(Lex.Sorted(fates.Keys), fates) == KeptLinks(fates)
  {
    Lex.SortedLists(fates.Keys);
    KeptInCollects(Lex.Sorted(fates.Keys), fates);
  }

  ghost predicate FiledByDevice(byDevice: map<string, seq<DeviceLink>>, ls: seq<DeviceLink>) {
    && byDevice.Keys == DevicesIn(ls)
    && forall d :: d in byDevice ==> byDevice[d] == LinksOf(ls, d)
  }

  lemma FileOne(byDevice: map<string, seq<DeviceLink>>, ls: seq<DeviceLink>, c: DeviceLink)
    requires FiledByDevice(byDevice, ls)
    ensures FiledByDevice(
              byDevice[c.device := (if c.device in byDevice then byDevice[c.device] else []) + [c]], ls + [c])
  {
    var more := ls + [c];
    assert more[..|more| - 1] == ls;
    assert DevicesIn(more) == DevicesIn(ls) + {c.device};
    assert c.device !in DevicesIn(ls) ==> LinksOf(ls, c.device) == [] by {
      LinksOfSelects(ls, c.device);
      if LinksOf(ls, c.device) != [] { assert LinksOf(ls, c.device)[0] in ls; }
    }
  }

  class DeviceRegistry {
    var links: map<string, DeviceLink>
    var revoked: set<(string, string)>

    ghost function Value(): Registry
      reads this
    {
      Registry(links, revoked)
    }

    constructor ()
      ensures Value() == EMPTY
    {
      links := map[];
      revoked := {};
    }

    method RecordRevocations(revs: seq<SignedRevocation>, recover: Verifier) returns (rejected: seq<LinkRejection>)
      modifies this`revoked
      ensures revoked == old(revoked) + AcceptedPairs(revs, recover)
      ensures forall p :: p in revoked <==> p in old(revoked) || exists r :: r in revs && Revokes(r, p, recover)
      ensures rejected == RevocationRefusals(revs, recover)
    {
      forall p ensures p in AcceptedPairs(revs, recover) <==> exists r :: r in revs && Revokes(r, p, recover) {
        AcceptedPairsIs(revs, recover, p);
      }
      hide Revokes, CanonicalAddress;
      rejected := [];
      for i := 0 to |revs|
        invariant revoked == old(revoked) + AcceptedPairs(revs[..i], recover)
        invariant rejected == RevocationRefusals(revs[..i], recover)
      {
        assert revs[..i + 1][..i] == revs[..i];
        match NewRevocation(revs[i].revocation) {
          case None => rejected := rejected + [BadRevocation(revs[i].revocation.device)];
          case Some(rev) =>
            if recover(OfRevocation(rev), revs[i].memberSig) == Some(rev.member) {
              revoked := revoked + {(rev.member, rev.device)};
            } else {
              rejected := rejected + [BadRevocation(rev.device)];
            }
        }
      }
      assert revs[..|revs|] == revs;
    }

    method VerifyAll(links: seq<SignedDeviceLink>, recover: Verifier)
      returns (byDevice: map<string, seq<DeviceLink>>, rejected: seq<LinkRejection>)
      ensures FiledByDevice(byDevice, Verified(links, recover))
      ensures rejected == LinkRefusals(links, recover)
    {
      hide CanonicalAddress, LabelIsValid;
      byDevice, rejected := map[], [];
      for i := 0 to |links|
        invariant FiledByDevice(byDevice, Verified(links[..i], recover))
        invariant rejected == LinkRefusals(links[..i], recover)
      {
        assert links[..i + 1][..i] == links[..i];
        match VerifyLink(links[i], recover) {
          case Pass =>
            var c := NewLink(links[i].link).value;
            FileOne(byDevice, Verified(links[..i], recover), c);
            byDevice := byDevice[c.device := (if c.device in byDevice then byDevice[c.device] else []) + [c]];
          case Fail(e) =>
            rejected := rejected + [e];
        }
      }
      assert links[..|links|] == links;
    }

    /** One device: refused on a conflict, else its newest link, unless that pair is revoked. */
    method ResolveOne(device: string, ls: seq<DeviceLink>, ghost fates: map<string, Fate>) returns (fate: Fate)
      requires ls != [] && device in fates && fates[device] == FateOf(device, ls, revoked)
      ensures fate == fates[device]
    {
      var members := set l | l in ls :: l.member;
      ManyMembers(ls);
      if |members| > 1 {
        return Refuse(Conflict(device));
      }
      SortThenPop(ls);
      var newest := StableSort(ls)[|ls| - 1];
      if (newest.member, newest.device) in revoked {
        return Refuse(Revoked(device));
      }
      return Keep(newest);
    }

    /** Every device, in key order. */
    method ResolveAll(byDevice: map<string, seq<DeviceLink>>, ghost fates: map<string, Fate>)
      returns (candidates: map<string, DeviceLink>, rejected: seq<LinkRejection>)
      requires byDevice.Keys == fates.Keys
      requires forall d :: d in byDevice ==> byDevice[d] != [] && fates[d] == FateOf(d, byDevice[d], revoked)
      ensures candidates == KeptIn(Lex.Sorted(fates.Keys), fates)
      ensures rejected == FateRefusals(Lex.Sorted(fates.Keys), fates)
    {
      hide FateOf;
      candidates, rejected := map[], [];
      var order := Lex.Sorted(byDevice.Keys);
      for i := 0 to |order|
        invariant candidates == KeptIn(order[..i], fates)
        invariant rejected == FateRefusals(order[..i], fates)
      {
        assert order[..i + 1][..i] == order[..i];
        assert order[i] in byDevice by { Lex.SortedLists(byDevice.Keys); assert order[i] in order; }
        var fate := ResolveOne(order[i], byDevice[order[i]], fates);
        match fate {
          case Keep(link) => candidates := candidates[order[i] := link];
          case Refuse(why) => rejected := rejected + [why];
        }
      }
      assert order[..|order|] == order;
    }

    method Update(links: seq<SignedDeviceLink>, revocations: seq<SignedRevocation>, recover: Verifier)
      returns (rejected: seq<LinkRejection>)
      modifies this
      ensures Value() == Updated(old(Value()), Batch(links, revocations), recover)
      ensures rejected == Refusals(old(Value()), Batch(links, revocations), recover)
    {
      hide VerifyLink, AcceptedPair, FateOf;
      if |links| > MAX_LINKS_PER_UPDATE || |revocations| > MAX_LINKS_PER_UPDATE {
        return [TooMany];
      }
      var badRevocations := RecordRevocations(revocations, recover);
      var byDevice, badLinks := VerifyAll(links, recover);
      ghost var fates := Fates(Verified(links, recover), revoked);
      SomeLinkOf(Verified(links, recover));
      var candidates, refused := ResolveAll(byDevice, fates);
      KeptInOrder(fates);
      this.links := candidates;
      rejected := badRevocations + badLinks + refused;
    }
  }

  lemma ManyMembers(ls: seq<DeviceLink>)
    ensures |set l | l in ls :: l.member| > 1 <==> Contested(ls)
  {
    var members := set l | l in ls :: l.member;
    if Contested(ls) {
      var i :| 0 <= i < |ls| && ls[i].member != ls[0].member;
      assert ls[0] in ls && ls[i] in ls;
      assert {ls[0].member, ls[i].member} <= members;
      CardinalityMonotone({ls[0].member, ls[i].member}, members);
    } else if ls != [] {
      assert ls[0] in ls;
      assert members == {ls[0].member};
    } else {
      assert members == {};
    }
  }

  lemma {:induction false} CardinalityMonotone<T>(a: set<T>, b: set<T>)
    requires a <= b
    ensures |a| <= |b|
  {
    assert b == a + (b - a);
  }
}
