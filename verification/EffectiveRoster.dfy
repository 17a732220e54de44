/** The roster the admission gate runs on (`effective_roster` in `cluster-core/src/device.rs`): the
    member roster, widened with each allowed member's active devices and narrowed by the members that
    are on device keys. */
module EffectiveRoster {
  import opened Wrappers
  import opened Addresses
  import opened Links
  import opened Devices
  import Lex

  type Roster = seq<(string, string)>

  // ---- one role per address: the highest, the first seen among equals ----

  function Ranked(roles: map<string, string>, entry: (string, string)): map<string, string> {
    match CanonicalAddress(entry.0)
    case None => roles
    case Some(a) =>
      if a !in roles || RoleRank(entry.1) > RoleRank(roles[a]) then roles[a := entry.1] else roles
  }

  function RoleOf(roster: Roster): map<string, string> {
    if roster == [] then map[]
    else Ranked(RoleOf(roster[..|roster| - 1]), roster[|roster| - 1])
  }

  // ---- devices and the members they stand in for ----

  predicate ActiveDevice(roles: map<string, string>, links: map<string, DeviceLink>, d: string) {
    && d in links && links[d].device !in roles
    && links[d].member in roles && RoleRank(roles[links[d].member]) >= MIN_CLUSTER_RANK
  }

  function RevokingMembers(revoked: set<(string, string)>): set<string> { set p | p in revoked :: p.0 }

  function LinkedMembers(roles: map<string, string>, links: map<string, DeviceLink>): set<string> {
    set d | d in links && ActiveDevice(roles, links, d) :: links[d].member
  }

  function OnDeviceKeys(roles: map<string, string>, reg: Registry): set<string> {
    RevokingMembers(reg.revoked) + LinkedMembers(roles, reg.links)
  }

  function MemberEntries(roles: map<string, string>, onKeys: set<string>): map<string, string> {
    map a | a in roles && a !in onKeys :: roles[a]
  }

  function DeviceEntries(roles: map<string, string>, links: map<string, DeviceLink>): map<string, string> {
    map d | d in links && ActiveDevice(roles, links, d) :: roles[links[d].member]
  }

  /** Who is in the effective roster, and with which role. */
  function Effective(roles: map<string, string>, reg: Registry): map<string, string> {
    MemberEntries(roles, OnDeviceKeys(roles, reg)) + DeviceEntries(roles, reg.links)
  }

  // ---- as a list, in address order ----

  predicate PairLess(p: (string, string), q: (string, string)) {
    Lex.Less(p.0, q.0) || (p.0 == q.0 && Lex.Less(p.1, q.1))
  }

  function InsertPair(s: Roster, x: (string, string)): Roster {
    if s == [] || !PairLess(x, s[|s| - 1]) then s + [x]
    else InsertPair(s[..|s| - 1], x) + [s[|s| - 1]]
  }

  /** `sort()` of (address, role) pairs. */
  function SortPairs(s: Roster): Roster {
    if s == [] then [] else InsertPair(SortPairs(s[..|s| - 1]), s[|s| - 1])
  }

  /** The addresses strictly increase. */
  predicate ByAddress(s: Roster) {
    forall i, j :: 0 <= i < j < |s| ==> Lex.Less(s[i].0, s[j].0)
  }

  /** `s` lists `m`, each address once and in order; there is only one such list (`ListingIsUnique`). */
  ghost predicate Lists(s: Roster, m: map<string, string>) {
    && ByAddress(s)
    && forall a, r :: (a, r) in s <==> a in m && m[a] == r
  }

  lemma {:induction false} InsertKeepsOrder(s: Roster, x: (string, string))
    requires ByAddress(s) && forall i :: 0 <= i < |s| ==> s[i].0 != x.0
    ensures ByAddress(InsertPair(s, x))
    ensures forall p :: p in InsertPair(s, x) <==> p in s || p == x
  {
    if s != [] {
      var front, last := s[..|s| - 1], s[|s| - 1];
      assert s == front + [last];
      Lex.Trichotomy(x.0, last.0);
      if PairLess(x, last) {
        InsertKeepsOrder(front, x);
        var r := InsertPair(front, x);
        forall i | 0 <= i < |r| ensures Lex.Less(r[i].0, last.0) {
          assert r[i] in r;
        }
      } else {
        forall i | 0 <= i < |s| ensures Lex.Less(s[i].0, x.0) {
          if i < |s| - 1 { Lex.Transitive(s[i].0, last.0, x.0); }
        }
      }
    }
  }

  predicate DistinctAddresses(s: Roster) {
    forall i, j :: 0 <= i < j < |s| ==> s[i].0 != s[j].0
  }

  lemma {:induction false} SortPairsSorts(s: Roster)
    requires DistinctAddresses(s)
    ensures ByAddress(SortPairs(s))
    ensures forall p :: p in SortPairs(s) <==> p in s
  {
    if s != [] {
      var front, last := s[..|s| - 1], s[|s| - 1];
      assert s == front + [last];
      SortPairsSorts(front);
      var r := SortPairs(front);
      forall i | 0 <= i < |r| ensures r[i].0 != last.0 {
        assert r[i] in r;
        var j :| 0 <= j < |front| && front[j] == r[i];
        assert s[j].0 != s[|s| - 1].0;
      }
      InsertKeepsOrder(r, last);
    }
  }

  lemma {:induction false} ListingIsUnique(s: Roster, t: Roster, m: map<string, string>)
    requires Lists(s, m) && Lists(t, m)
    ensures s == t
  {
    var a := seq(|s|, i requires 0 <= i < |s| => s[i].0);
    var b := seq(|t|, i requires 0 <= i < |t| => t[i].0);
    forall x ensures x in a <==> x in b {
      if x in a { var i :| 0 <= i < |a| && a[i] == x; assert s[i] in s; assert (x, m[x]) in t; var j :| 0 <= j < |t| && t[j] == (x, m[x]); assert b[j] == x; }
      if x in b { var i :| 0 <= i < |b| && b[i] == x; assert t[i] in t; assert (x, m[x]) in s; var j :| 0 <= j < |s| && s[j] == (x, m[x]); assert a[j] == x; }
    }
    Lex.IncreasingIsUnique(a, b);
    forall i | 0 <= i < |s| ensures s[i] == t[i] {
      assert s[i] in s && t[i] in t && a[i] == b[i];
    }
  }

  function Pick(order: seq<string>, m: map<string, string>): Roster {
    if order == [] then []
    else
      var rest := Pick(order[..|order| - 1], m);
      var k := order[|order| - 1];
      if k in m then rest + [(k, m[k])] else rest
  }

  lemma {:induction false} PickPicks(order: seq<string>, m: map<string, string>)
    requires Lex.Increasing(order)
    ensures ByAddress(Pick(order, m))
    ensures forall a, r :: (a, r) in Pick(order, m) <==> a in order && a in m && m[a] == r
  {
    if order != [] {
      var front, k := order[..|order| - 1], order[|order| - 1];
      assert order == front + [k];
      PickPicks(front, m);
      var rest := Pick(front, m);
      forall i | 0 <= i < |rest| ensures Lex.Less(rest[i].0, k) {
        assert (rest[i].0, rest[i].1) in rest;
        var j :| 0 <= j < |front| && front[j] == rest[i].0;
        assert order[j] == front[j];
      }
    }
  }

  /** The list of a map: what `effective_roster` returns for `Effective`. */
  function Listing(m: map<string, string>): Roster { Pick(Lex.Sorted(m.Keys), m) }

  lemma ListingLists(m: map<string, string>)
    ensures Lists(Listing(m), m)
  {
    Lex.SortedLists(m.Keys);
    PickPicks(Lex.Sorted(m.Keys), m);
  }

  /** `effective_roster`, as a value. */
  function EffectiveRosterOf(roster: Roster, reg: Registry): Roster {
    Listing(Effective(RoleOf(roster), reg))
  }

  /** Filtering members and devices separately and sorting the two lists together gives the listing. */
  lemma SortedEntries(roles: map<string, string>, reg: Registry)
    requires Filed(reg.links)
    ensures SortPairs(Pick(Lex.Sorted(roles.Keys), MemberEntries(roles, OnDeviceKeys(roles, reg)))
                      + Pick(Lex.Sorted(reg.links.Keys), DeviceEntries(roles, reg.links)))
            == Listing(Effective(roles, reg))
  {
    var ms, ds := MemberEntries(roles, OnDeviceKeys(roles, reg)), DeviceEntries(roles, reg.links);
    Lex.SortedLists(roles.Keys);
    Lex.SortedLists(reg.links.Keys);
    PickPicks(Lex.Sorted(roles.Keys), ms);
    PickPicks(Lex.Sorted(reg.links.Keys), ds);
    var a, b := Pick(Lex.Sorted(roles.Keys), ms), Pick(Lex.Sorted(reg.links.Keys), ds);
    AppendDistinct(a, ms, b, ds);
    SortPairsSorts(a + b);
    ListingLists(Effective(roles, reg));
    ListingIsUnique(SortPairs(a + b), Listing(Effective(roles, reg)), Effective(roles, reg));
  }

  lemma AppendDistinct(a: Roster, ms: map<string, string>, b: Roster, ds: map<string, string>)
    requires Lists(a, ms) && Lists(b, ds) && ms.Keys !! ds.Keys
    ensures DistinctAddresses(a + b)
    ensures forall x, r :: (x, r) in a + b <==> x in ms + ds && (ms + ds)[x] == r
  {
    var c := a + b;
    forall i, j | 0 <= i < j < |c| ensures c[i].0 != c[j].0 {
      if j < |a| {
        Lex.Trichotomy(a[i].0, a[j].0);
      } else if |a| <= i {
        Lex.Trichotomy(b[i - |a|].0, b[j - |a|].0);
      } else {
        assert (a[i].0, a[i].1) in a && (b[j - |a|].0, b[j - |a|].1) in b;
      }
    }
  }

  method RankRoles(roster: Roster) returns (roles: map<string, string>)
    ensures roles == RoleOf(roster)
  {
    roles := map[];
    for i := 0 to |roster|
      invariant roles == RoleOf(roster[..i])
    {
      assert roster[..i + 1][..i] == roster[..i];
      match CanonicalAddress(roster[i].0) {
        case Some(a) =>
          if a !in roles || RoleRank(roster[i].1) > RoleRank(roles[a]) {
            roles := roles[a := roster[i].1];
          }
        case None =>
      }
    }
    assert roster[..|roster|] == roster;
  }

  function LinkedIn(order: seq<string>, roles: map<string, string>, links: map<string, DeviceLink>): set<string> {
    if order == [] then {}
    else
      var rest := LinkedIn(order[..|order| - 1], roles, links);
      var d := order[|order| - 1];
      if ActiveDevice(roles, links, d) then rest + {links[d].member} else rest
  }

  lemma {:induction false} LinkedInCollects(order: seq<string>, roles: map<string, string>, links: map<string, DeviceLink>)
    ensures forall m :: m in LinkedIn(order, roles, links)
                        <==> exists d :: d in order && ActiveDevice(roles, links, d) && links[d].member == m
  {
    if order != [] {
      var front := order[..|order| - 1];
      LinkedInCollects(front, roles, links);
      assert order == front + [order[|order| - 1]];
    }
  }

  /** The active devices with their members' roles, and the members on device keys. */
  method CollectDevices(roles: map<string, string>, reg: Registry) returns (devices: Roster, onKeys: set<string>)
    requires Filed(reg.links)
    ensures devices == Pick(Lex.Sorted(reg.links.Keys), DeviceEntries(roles, reg.links))
    ensures onKeys == RevokingMembers(reg.revoked) + LinkedIn(Lex.Sorted(reg.links.Keys), roles, reg.links)
  {
    devices := [];
    onKeys := RevokingMembers(reg.revoked);
    var order := Lex.Sorted(reg.links.Keys);
    for i := 0 to |order|
      invariant devices == Pick(order[..i], DeviceEntries(roles, reg.links))
      invariant onKeys == RevokingMembers(reg.revoked) + LinkedIn(order[..i], roles, reg.links)
    {
      assert order[..i + 1][..i] == order[..i];
      assert order[i] in reg.links by { Lex.SortedLists(reg.links.Keys); assert order[i] in order; }
      var l := reg.links[order[i]];
      if l.device !in roles && l.member in roles && RoleRank(roles[l.member]) >= MIN_CLUSTER_RANK {
        devices := devices + [(l.device, roles[l.member])];
        onKeys := onKeys + {l.member};
      }
    }
    assert order[..|order|] == order;
  }

  /** The members still admitted as themselves, in address order. */
  method PickMembers(roles: map<string, string>, onKeys: set<string>) returns (out: Roster)
    ensures out == Pick(Lex.Sorted(roles.Keys), MemberEntries(roles, onKeys))
  {
    out := [];
    var order := Lex.Sorted(roles.Keys);
    assert forall a :: a in order <==> a in roles by { Lex.SortedLists(roles.Keys); }
    for i := 0 to |order|
      invariant out == Pick(order[..i], MemberEntries(roles, onKeys))
    {
      assert order[..i + 1][..i] == order[..i];
      assert order[i] in order;
      if order[i] !in onKeys {
        out := out + [(order[i], roles[order[i]])];
      }
    }
    assert order[..|order|] == order;
  }

  /** `effective_roster`. */
  method DeriveRoster(roster: Roster, reg: Registry) returns (out: Roster)
    requires Filed(reg.links)
    ensures out == EffectiveRosterOf(roster, reg)
  {
    var roles := RankRoles(roster);
    var devices, onKeys := CollectDevices(roles, reg);
    out := PickMembers(roles, onKeys);
    assert onKeys == OnDeviceKeys(roles, reg) by {
      Lex.SortedLists(reg.links.Keys);
      LinkedInCollects(Lex.Sorted(reg.links.Keys), roles, reg.links);
    }
    SortedEntries(roles, reg);
    out := SortPairs(out + devices);
  }
}
