/** The member list with devices under each member (`devices_of`, `device_roster` in
    `cluster-core/src/device.rs`). */
module DeviceRoster {
  import opened Wrappers
  import opened Addresses
  import opened Links
  import opened Devices
  import opened EffectiveRoster
  import Lex

  datatype DeviceView = DeviceView(device: string, index: U32, name: string, issuedAt: U64)

  datatype MemberDevices = MemberDevices(member: string, role: string, devices: seq<DeviceView>)

  function View(l: DeviceLink): DeviceView { DeviceView(l.device, l.index, l.name, l.issuedAt) }

  function InsertByIndex(s: seq<DeviceView>, x: DeviceView): seq<DeviceView> {
    if s == [] || x.index >= s[|s| - 1].index then s + [x]
    else InsertByIndex(s[..|s| - 1], x) + [s[|s| - 1]]
  }

  /** The links of `member` met in `order`, sorted by index, in order within an index. */
  function ViewsIn(order: seq<string>, links: map<string, DeviceLink>, member: string): seq<DeviceView> {
    if order == [] then []
    else
      var rest := ViewsIn(order[..|order| - 1], links, member);
      var d := order[|order| - 1];
      if d in links && links[d].member == member then InsertByIndex(rest, View(links[d])) else rest
  }

  /** `devices_of`, for a canonical member. */
  function DevicesOf(links: map<string, DeviceLink>, member: string): seq<DeviceView> {
    ViewsIn(Lex.Sorted(links.Keys), links, member)
  }

  function RankedAtThreshold(roles: map<string, string>, entry: (string, string)): map<string, string> {
    if RoleRank(entry.1) < MIN_CLUSTER_RANK then roles else Ranked(roles, entry)
  }

  /** Roles of the members above the cluster threshold. */
  function GatedRoles(roster: Roster): map<string, string> {
    if roster == [] then map[]
    else RankedAtThreshold(GatedRoles(roster[..|roster| - 1]), roster[|roster| - 1])
  }

  function Entries(order: seq<string>, roles: map<string, string>, links: map<string, DeviceLink>): seq<MemberDevices> {
    if order == [] then []
    else
      var rest := Entries(order[..|order| - 1], roles, links);
      var m := order[|order| - 1];
      if m in roles then rest + [MemberDevices(m, roles[m], DevicesOf(links, m))] else rest
  }

  /** `device_roster`. */
  function DeviceRosterOf(roster: Roster, links: map<string, DeviceLink>): seq<MemberDevices> {
    var roles := GatedRoles(roster);
    Entries(Lex.Sorted(roles.Keys), roles, links)
  }

  method ListDevicesOf(links: map<string, DeviceLink>, member: string) returns (out: seq<DeviceView>)
    ensures out == DevicesOf(links, member)
  {
    out := [];
    var order := Lex.Sorted(links.Keys);
    for i := 0 to |order|
      invariant out == ViewsIn(order[..i], links, member)
    {
      assert order[..i + 1][..i] == order[..i];
      if order[i] in links && links[order[i]].member == member {
        out := InsertByIndex(out, View(links[order[i]]));
      }
    }
    assert order[..|order|] == order;
  }

  method ListDevices(roster: Roster, links: map<string, DeviceLink>) returns (out: seq<MemberDevices>)
    ensures out == DeviceRosterOf(roster, links)
  {
    var roles: map<string, string> := map[];
    for i := 0 to |roster|
      invariant roles == GatedRoles(roster[..i])
    {
      assert roster[..i + 1][..i] == roster[..i];
      if RoleRank(roster[i].1) >= MIN_CLUSTER_RANK {
        match CanonicalAddress(roster[i].0) {
          case Some(a) =>
            if a !in roles || RoleRank(roster[i].1) > RoleRank(roles[a]) {
              roles := roles[a := roster[i].1];
            }
          case None =>
        }
      }
    }
    assert roster[..|roster|] == roster;
    out := [];
    var order := Lex.Sorted(roles.Keys);
    for i := 0 to |order|
      invariant out == Entries(order[..i], roles, links)
    {
      assert order[..i + 1][..i] == order[..i];
      assert order[i] in roles by { Lex.SortedLists(roles.Keys); assert order[i] in order; }
      var devices := ListDevicesOf(links, order[i]);
      out := out + [MemberDevices(order[i], roles[order[i]], devices)];
    }
    assert order[..|order|] == order;
  }
}
