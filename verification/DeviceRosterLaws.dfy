/** The member list shown to clients agrees with the gate. */
module DeviceRosterLaws {
  import opened Wrappers
  import opened Addresses
  import opened Links
  import opened Devices
  import opened EffectiveRoster
  import opened DeviceRoster
  import opened Membership
  import opened GateLaws
  import Lex

  /** Reading only the lines above the threshold gives the same members and roles as reading them all and
      then dropping whoever ends below it. */
  lemma {:induction false} GatedRolesAgree(roster: Roster, a: string)
    ensures a in GatedRoles(roster) <==> a in RoleOf(roster) && RoleRank(RoleOf(roster)[a]) >= MIN_CLUSTER_RANK
    ensures a in GatedRoles(roster) ==> GatedRoles(roster)[a] == RoleOf(roster)[a]
  {
    hide CanonicalAddress, RoleRank;
    if roster != [] {
      GatedRolesAgree(roster[..|roster| - 1], a);
    }
  }

  predicate ByIndex(s: seq<DeviceView>) { forall i, j :: 0 <= i < j < |s| ==> s[i].index <= s[j].index }

  lemma {:induction false} InsertByIndexIs(s: seq<DeviceView>, x: DeviceView)
    requires ByIndex(s)
    ensures ByIndex(InsertByIndex(s, x))
    ensures forall v :: v in InsertByIndex(s, x) <==> v in s || v == x
    ensures |InsertByIndex(s, x)| == |s| + 1
  {
    if s != [] && x.index < s[|s| - 1].index {
      var front, last := s[..|s| - 1], s[|s| - 1];
      assert s == front + [last];
      InsertByIndexIs(front, x);
      var r := InsertByIndex(front, x);
      forall i | 0 <= i < |r| ensures r[i].index <= last.index { assert r[i] in r; }
    }
  }

  lemma {:induction false} ViewsInAre(order: seq<string>, links: map<string, DeviceLink>, member: string)
    ensures ByIndex(ViewsIn(order, links, member))
    ensures forall v :: v in ViewsIn(order, links, member)
              <==> exists d :: d in order && d in links && links[d].member == member && v == View(links[d])
  {
    hide View;
    if order != [] {
      var front, last := order[..|order| - 1], order[|order| - 1];
      assert order == front + [last];
      ViewsInAre(front, links, member);
      if last in links && links[last].member == member {
        InsertByIndexIs(ViewsIn(front, links, member), View(links[last]));
      }
    }
  }

  ghost predicate ListedUnder(list: seq<MemberDevices>, m: string, d: string) {
    exists e, v :: e in list && v in e.devices && e.member == m && v.device == d
  }

  lemma {:induction false} EntriesAre(order: seq<string>, roles: map<string, string>, links: map<string, DeviceLink>)
    ensures forall e :: e in Entries(order, roles, links)
              <==> e.member in order && e.member in roles && e == MemberDevices(e.member, roles[e.member], DevicesOf(links, e.member))
  {
    hide DevicesOf;
    if order != [] {
      var front, last := order[..|order| - 1], order[|order| - 1];
      assert order == front + [last];
      EntriesAre(front, roles, links);
    }
  }

  lemma DevicesOfAre(links: map<string, DeviceLink>, m: string, d: string)
    requires Filed(links)
    ensures ByIndex(DevicesOf(links, m))
    ensures (exists v :: v in DevicesOf(links, m) && v.device == d) <==> d in links && links[d].member == m
  {
    var order := Lex.Sorted(links.Keys);
    ViewsInAre(order, links, m);
    Lex.SortedLists(links.Keys);
    Lex.ElementsOfSorted(links.Keys);
    if d in links && links[d].member == m {
      assert d in Lex.Elements(order);
      assert d in order;
      assert View(links[d]) in DevicesOf(links, m);
    }
  }

  /** The list names a device under a member exactly if the link is filed and the member is on the roster
      at rank; members come with the role the gate gives them, devices in index order. */
  lemma ListedMeansLinked(roster: Roster, reg: Registry, m: string, d: string)
    requires WellFormed(reg)
    ensures ListedUnder(DeviceRosterOf(roster, reg.links), m, d)
            <==> d in reg.links && reg.links[d].member == m && ListedAtRank(roster, m)
    ensures forall e :: e in DeviceRosterOf(roster, reg.links) && e.member == m
              ==> ListedAtRank(roster, m) && m in RoleOf(roster) && e.role == RoleOf(roster)[m] && ByIndex(e.devices)
  {
    hide CanonicalAddress, RoleRank, DevicesOf, GatedRoles, RoleOf;
    var roles, list := GatedRoles(roster), DeviceRosterOf(roster, reg.links);
    var order := Lex.Sorted(roles.Keys);
    EntriesAre(order, roles, reg.links);
    Lex.SortedLists(roles.Keys);
    Lex.ElementsOfSorted(roles.Keys);
    GatedRolesAgree(roster, m);
    RankDecided(roster, m);
    DevicesOfAre(reg.links, m, d);
    if d in reg.links && reg.links[d].member == m && m in roles {
      assert m in Lex.Elements(order);
      var e := MemberDevices(m, roles[m], DevicesOf(reg.links, m));
      assert e in list;
      var v :| v in e.devices && v.device == d;
      assert ListedUnder(list, m, d);
    }
  }

  /** So a device that is not itself on the roster is shown under some member exactly if the gate lets it
      in. */
  lemma ShownExactlyIfAdmitted(roster: Roster, reg: Registry, d: string)
    requires WellFormed(reg) && !OnRoster(roster, d)
    ensures (exists m :: ListedUnder(DeviceRosterOf(roster, reg.links), m, d)) <==> d in Gate(roster, reg)
  {
    hide ListedUnder, CanonicalAddress, RoleRank;
    GateCharacterized(roster, reg, d);
    if d in reg.links { ListedMeansLinked(roster, reg, reg.links[d].member, d); }
    assert ListedAtRank(roster, d) ==> OnRoster(roster, d);
    forall m | ListedUnder(DeviceRosterOf(roster, reg.links), m, d) ensures d in Gate(roster, reg) {
      ListedMeansLinked(roster, reg, m, d);
    }
  }

  predicate Before(v: DeviceView, w: DeviceView) {
    v.index < w.index || (v.index == w.index && Lex.Less(v.device, w.device))
  }

  /** By index, and by device address within an index. */
  predicate ByIndexThenDevice(s: seq<DeviceView>) {
    forall i, j :: 0 <= i < j < |s| ==> Before(s[i], s[j])
  }

  lemma AppendsInOrder(s: seq<DeviceView>, x: DeviceView)
    requires ByIndexThenDevice(s) && forall v :: v in s ==> Before(v, x)
    ensures ByIndexThenDevice(s + [x])
  {
    hide Before;
    forall i, j | 0 <= i < j < |s + [x]| ensures Before((s + [x])[i], (s + [x])[j]) {
      if j == |s| { assert s[i] in s; }
    }
  }

  lemma {:induction false} InsertLaterDevice(s: seq<DeviceView>, x: DeviceView)
    requires ByIndexThenDevice(s) && forall v :: v in s ==> Lex.Less(v.device, x.device)
    ensures ByIndexThenDevice(InsertByIndex(s, x))
    ensures forall v :: v in InsertByIndex(s, x) <==> v in s || v == x
  {
    hide ByIndexThenDevice;
    if s == [] {
      AppendsInOrder(s, x);
    } else {
      var front, last := s[..|s| - 1], s[|s| - 1];
      assert s == front + [last];
      LastIsLast(front, last);
      if x.index < last.index {
        InsertLaterDevice(front, x);
        AppendsInOrder(InsertByIndex(front, x), last);
      } else {
        AppendsInOrder(s, x);
      }
    }
  }

  lemma LastIsLast(front: seq<DeviceView>, last: DeviceView)
    requires ByIndexThenDevice(front + [last])
    ensures ByIndexThenDevice(front) && forall v :: v in front ==> Before(v, last)
  {
    hide Before;
    var s := front + [last];
    forall v | v in front ensures Before(v, last) {
      var i :| 0 <= i < |front| && front[i] == v;
      assert Before(s[i], s[|front|]);
    }
    forall i, j | 0 <= i < j < |front| ensures Before(front[i], front[j]) { assert Before(s[i], s[j]); }
  }

  /** The links met for `member`, as filed, none twice. */
  lemma {:induction false} ViewsAreFiled(order: seq<string>, links: map<string, DeviceLink>, member: string)
    requires Filed(links) && Lex.Increasing(order)
    ensures ByIndexThenDevice(ViewsIn(order, links, member))
    ensures forall v :: v in ViewsIn(order, links, member)
              <==> v.device in order && v.device in links && links[v.device].member == member
                   && v.index == links[v.device].index && v.name == links[v.device].name && v.issuedAt == links[v.device].issuedAt
  {
    if order != [] {
      var front, last := order[..|order| - 1], order[|order| - 1];
      assert order == front + [last];
      assert forall i, j :: 0 <= i < j < |front| ==> Lex.Less(order[i], order[j]);
      ViewsAreFiled(front, links, member);
      var rest := ViewsIn(front, links, member);
      forall v | v in rest ensures Lex.Less(v.device, last) {
        var i :| 0 <= i < |front| && front[i] == v.device;
        assert order[i] == v.device;
      }
      if last in links && links[last].member == member { InsertLaterDevice(rest, View(links[last])); }
    }
  }

  predicate ByMember(s: seq<MemberDevices>) { forall i, j :: 0 <= i < j < |s| ==> Lex.Less(s[i].member, s[j].member) }

  lemma {:induction false} EntriesIncrease(order: seq<string>, roles: map<string, string>, links: map<string, DeviceLink>)
    requires Lex.Increasing(order)
    ensures ByMember(Entries(order, roles, links))
  {
    hide DevicesOf, Lex.Less;
    if order != [] {
      var front, last := order[..|order| - 1], order[|order| - 1];
      assert order == front + [last];
      assert forall i, j :: 0 <= i < j < |front| ==> Lex.Less(order[i], order[j]);
      EntriesIncrease(front, roles, links);
      EntriesAre(front, roles, links);
      var rest := Entries(front, roles, links);
      forall i | 0 <= i < |rest| ensures Lex.Less(rest[i].member, last) {
        assert rest[i] in rest;
        var j :| 0 <= j < |front| && front[j] == rest[i].member;
        assert Lex.Less(order[j], order[|front|]);
      }
    }
  }

  /** `e` shows exactly the devices filed for its member, by index and then by address, each with the index,
      label and issue time of its filed link. */
  ghost predicate ShowsFiled(e: MemberDevices, links: map<string, DeviceLink>) {
    && ByIndexThenDevice(e.devices)
    && forall v :: v in e.devices <==>
         v.device in links && links[v.device].member == e.member && v.index == links[v.device].index
         && v.name == links[v.device].name && v.issuedAt == links[v.device].issuedAt
  }

  lemma EntryExactly(roster: Roster, links: map<string, DeviceLink>, e: MemberDevices)
    requires Filed(links)
    ensures e in DeviceRosterOf(roster, links)
            ==> ListedAtRank(roster, e.member) && RoleIs(roster, e.member, e.role) && ShowsFiled(e, links)
  {
    hide CanonicalAddress, RoleRank, RoleOf, GatedRoles, ViewsIn, ListedAtRank, RoleIs, ByIndexThenDevice;
    var roles, devices := GatedRoles(roster), Lex.Sorted(links.Keys);
    Lex.SortedLists(links.Keys);
    EntriesAre(Lex.Sorted(roles.Keys), roles, links);
    ViewsAreFiled(devices, links, e.member);
    GatedRolesAgree(roster, e.member);
    RankDecided(roster, e.member);
    RoleIsRoleOf(roster, e.member, e.role);
  }

  lemma MemberListed(roster: Roster, links: map<string, DeviceLink>, m: string)
    requires ListedAtRank(roster, m)
    ensures exists e :: e in DeviceRosterOf(roster, links) && e.member == m
  {
    hide CanonicalAddress, RoleRank, RoleOf, GatedRoles, ListedAtRank, DevicesOf;
    var roles := GatedRoles(roster);
    GatedRolesAgree(roster, m);
    RankDecided(roster, m);
    Lex.SortedLists(roles.Keys);
    EntriesAre(Lex.Sorted(roles.Keys), roles, links);
    assert MemberDevices(m, roles[m], DevicesOf(links, m)) in DeviceRosterOf(roster, links);
  }

  /** The list, exactly: the members at rank, in address order, each with its role and the devices filed for
      it. */
  lemma ListedExactly(roster: Roster, reg: Registry)
    requires WellFormed(reg)
    ensures var list := DeviceRosterOf(roster, reg.links);
            && ByMember(list)
            && (forall m :: ListedAtRank(roster, m) <==> exists e :: e in list && e.member == m)
            && (forall e :: e in list ==> RoleIs(roster, e.member, e.role) && ShowsFiled(e, reg.links))
  {
    hide CanonicalAddress, RoleRank, Entries, GatedRoles, ListedAtRank, RoleIs, ShowsFiled, ByMember;
    var roles, list := GatedRoles(roster), DeviceRosterOf(roster, reg.links);
    Lex.SortedLists(roles.Keys);
    EntriesIncrease(Lex.Sorted(roles.Keys), roles, reg.links);
    forall e | e in list ensures ListedAtRank(roster, e.member) && RoleIs(roster, e.member, e.role) && ShowsFiled(e, reg.links) {
      EntryExactly(roster, reg.links, e);
    }
    forall m | ListedAtRank(roster, m) ensures exists e :: e in list && e.member == m { MemberListed(roster, reg.links, m); }
  }
}
