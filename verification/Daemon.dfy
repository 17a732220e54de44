/** The daemon (`cluster-daemon/src/lib.rs`) and the request dispatch over it (`ipc.rs`): a session per
    group, device state that outlives leaving, and a bounded shared-file set per group. */
module Daemon {
  import opened Wrappers
  import opened Addresses
  import opened Links
  import opened Devices
  import opened EffectiveRoster
  import opened DeviceRoster
  import opened Membership
  import opened Session
  import opened Seed
  import Lex

  const MAX_SHARED_FILES: nat := 4096
  const MAX_SHARED_FILES_PAGE: nat := 1024
  const MAX_GROUPS: nat := 32

  // ---- state ----

  datatype DeviceState = DeviceState(roster: Roster, registry: Registry)

  datatype State = State(
    groups: map<Bytes, SessionState>, shared: map<Bytes, set<string>>, devices: map<Bytes, DeviceState>)

  const FRESH: State := State(map[], map[], map[])

  /** What is fixed for a daemon: which transport its factory builds, the pinned group, the signature
      verifier, and which texts its transport parses as another peer's address. */
  datatype Config = Config(kind: Kind, pinned: Option<Bytes>, recover: Verifier, parses: Bytes -> bool)

  datatype Failure =
    | PinnedElsewhere | EmptyGroup | TooManyGroups | TransportFailed | NotInGroup
    | BadCid | SharedSetFull | NoMesh | NoAddress | BadSeed(error: SeedError) | OtherGroup | PeersRefused

  datatype Request =
    | SetRoster(group: Bytes, roster: Roster, links: seq<SignedDeviceLink>, revocations: seq<SignedRevocation>)
    | ListMembers(group: Bytes)
    | Join(group: Bytes)
    | Leave(group: Bytes)
    | Status(group: Bytes)
    | Peers(group: Bytes)
    | ShareFile(group: Bytes, cid: string)
    | Poll(group: Bytes)
    | SharedFiles(group: Bytes, offset: nat, limit: Option<nat>)
    | SeedOf(group: Bytes)
    | AddSeed(group: Bytes, text: Bytes)

  datatype PeerView = PeerView(address: string, online: bool, member: Option<string>)

  datatype Response =
    | Done
    | Reconciliation(evicted: seq<string>, rejected: seq<LinkRejection>)
    | MemberList(members: seq<MemberDevices>)
    | StatusIs(online: nat, total: nat, sharedFiles: seq<string>)
    | PeerList(peers: seq<PeerView>)
    | Messages(messages: seq<MeshMessage>)
    | FilePage(files: seq<string>, offset: nat, total: nat)
    | SeedText(text: Bytes, addrs: seq<Bytes>)
    | Seeded(dialing: nat)
    | Error(why: Failure)

  // ---- sessions and rosters ----

  predicate Pinned(cfg: Config, g: Bytes) { cfg.pinned.Some? && cfg.pinned.value != g }

  /** Why `ensure_session` fails, given whether the transport factory can start one. */
  function Refusal(s: State, g: Bytes, starts: bool): Option<Failure> {
    if g in s.groups then None
    else if Seed.Trim(g) == [] then Some(EmptyGroup)
    else if |s.groups| >= MAX_GROUPS then Some(TooManyGroups)
    else if !starts then Some(TransportFailed)
    else None
  }

  function Opened(cfg: Config, s: State, g: Bytes): State {
    if g in s.groups then s else s.(groups := s.groups[g := NewSession(cfg.kind)])
  }

  /** `apply_roster` on one session: reconcile, drop every address that left the allowed set, then
      authorize every allowed one. */
  function Applied(x: SessionState, eff: Roster): SessionState {
    var y := Reconciled(x, eff);
    var gone := Lex.Sorted(x.members.allowed - y.members.allowed);
    y.(net := AuthorizedAll(DroppedAll(y.net, gone), Lex.Sorted(y.members.allowed)))
  }

  function DevicesAt(s: State, g: Bytes): DeviceState {
    if g in s.devices then s.devices[g] else DeviceState([], EMPTY)
  }

  function RosterSet(cfg: Config, s: State, g: Bytes, roster: Roster, b: Batch): State {
    var reg := Updated(DevicesAt(s, g).registry, b, cfg.recover);
    var o := Opened(cfg, s, g);
    o.(devices := o.devices[g := DeviceState(roster, reg)],
       groups := o.groups[g := Applied(o.groups[g], EffectiveRosterOf(roster, reg))])
  }

  /** Why a request that may open a session fails: the pin first, then the session. */
  function EntryFailure(cfg: Config, s: State, g: Bytes, starts: bool): Option<Failure> {
    if Pinned(cfg, g) then Some(PinnedElsewhere) else Refusal(s, g, starts)
  }

  function AfterRoster(cfg: Config, s: State, g: Bytes, roster: Roster, b: Batch, starts: bool): State {
    if EntryFailure(cfg, s, g, starts).Some? then s else RosterSet(cfg, s, g, roster, b)
  }

  function RosterAnswer(cfg: Config, s: State, g: Bytes, roster: Roster, b: Batch, starts: bool): Response {
    match EntryFailure(cfg, s, g, starts)
    case Some(e) => Error(e)
    case None =>
      var reg := DevicesAt(s, g).registry;
      Reconciliation(
        Evicted(Opened(cfg, s, g).groups[g], EffectiveRosterOf(roster, Updated(reg, b, cfg.recover))),
        Refusals(reg, b, cfg.recover))
  }

  // ---- the shared set ----

  function SharedAt(s: State, g: Bytes): set<string> { if g in s.shared then s.shared[g] else {} }

  function ValidMessages(inbox: seq<MeshMessage>): seq<MeshMessage> {
    if inbox == [] then []
    else
      var rest := ValidMessages(inbox[..|inbox| - 1]);
      var m := inbox[|inbox| - 1];
      if IsValidCid(m.data) then rest + [m] else rest
  }

  /** Each message's CID is added while the set is below its cap. */
  function Absorbed(files: set<string>, messages: seq<MeshMessage>): set<string> {
    if messages == [] then files
    else
      var before := Absorbed(files, messages[..|messages| - 1]);
      if |before| < MAX_SHARED_FILES then before + {messages[|messages| - 1].data} else before
  }

  function Drained(s: State, g: Bytes): State {
    if g !in s.groups then s
    else
      var x := s.groups[g];
      var messages := ValidMessages(x.net.inbox);
      var t := s.(groups := s.groups[g := x.(net := x.net.(inbox := []))]);
      if messages == [] then t else t.(shared := t.shared[g := Absorbed(SharedAt(s, g), messages)])
  }

  function DrainedMessages(s: State, g: Bytes): seq<MeshMessage> {
    if g in s.groups then ValidMessages(s.groups[g].net.inbox) else []
  }

  function AdmissionSynced(s: State, g: Bytes): State {
    if g in s.groups then s.(groups := s.groups[g := Synced(s.groups[g])]) else s
  }

  function Page(files: seq<string>, offset: nat, limit: nat): seq<string> {
    var size := if limit < MAX_SHARED_FILES_PAGE then limit else MAX_SHARED_FILES_PAGE;
    if offset >= |files| then [] else if offset + size <= |files| then files[offset..offset + size] else files[offset..]
  }

  // ---- read answers ----

  /** `member_of`. */
  function MemberOf(links: map<string, DeviceLink>, address: string): Option<string> {
    match CanonicalAddress(address)
    case Some(a) => if a in links then Some(links[a].member) else None
    case None => None
  }

  function PeerViews(links: map<string, DeviceLink>, order: seq<string>, connected: set<string>): seq<PeerView> {
    if order == [] then []
    else
      var a := order[|order| - 1];
      PeerViews(links, order[..|order| - 1], connected) + [PeerView(a, a in connected, MemberOf(links, a))]
  }

  function StatusAnswer(s: State, g: Bytes): Response {
    if g !in s.groups then StatusIs(0, 0, [])
    else StatusIs(|s.groups[g].net.connected|, |s.groups[g].members.allowed|, Lex.Sorted(SharedAt(s, g)))
  }

  function PeersAnswer(s: State, g: Bytes): Response {
    if g !in s.groups then PeerList([])
    else
      PeerList(PeerViews(DevicesAt(s, g).registry.links, Lex.Sorted(s.groups[g].members.allowed), s.groups[g].net.connected))
  }

  function MembersAnswer(s: State, g: Bytes): Response {
    if g !in s.devices then MemberList([])
    else MemberList(DeviceRosterOf(s.devices[g].roster, s.devices[g].registry.links))
  }

  function PageAnswer(s: State, g: Bytes, offset: nat, limit: nat): Response {
    if g !in s.shared then FilePage([], offset, 0)
    else FilePage(Page(Lex.Sorted(s.shared[g]), offset, limit), offset, |s.shared[g]|)
  }

  function SeedAnswer(s: State, g: Bytes): Response {
    if g !in s.groups then Error(NotInGroup)
    else if s.groups[g].net.kind == InProcess then Error(NoMesh)
    else
      var seed := GroupSeed(g, s.groups[g].net.listening);
      if seed.addrs == [] then Error(NoAddress)
      else match Validate(seed) case Some(e) => Error(BadSeed(e)) case None => SeedText(Encode(seed), seed.addrs)
  }

  // ---- one request ----

  function ShareFailure(s: State, g: Bytes, cid: string): Option<Failure> {
    if g !in s.groups then Some(NotInGroup)
    else if !IsValidCid(cid) then Some(BadCid)
    else if cid !in SharedAt(s, g) && |SharedAt(s, g)| >= MAX_SHARED_FILES then Some(SharedSetFull)
    else None
  }

  function Shared(s: State, g: Bytes, cid: string): State {
    if g !in s.groups then s
    else
      s.(groups := s.groups[g := s.groups[g].(net := Published(s.groups[g].net, cid))],
         shared := s.shared[g := SharedAt(s, g) + {cid}])
  }

  function SeedFailure(cfg: Config, s: State, g: Bytes, text: Bytes): Option<Failure> {
    match Decode(text)
    case Err(e) => Some(BadSeed(e))
    case Ok(seed) =>
      if seed.group != g then Some(OtherGroup)
      else if g !in s.groups then Some(NotInGroup)
      else if !TakesPeers(s.groups[g].net, seed.addrs, cfg.parses) then Some(PeersRefused)
      else None
  }

  function SeedAdded(s: State, g: Bytes, addrs: seq<Bytes>): State {
    if g !in s.groups then s
    else
      var n := s.groups[g].net;
      s.(groups := s.groups[g := s.groups[g].(net := n.(commands := n.commands + DialPeers(addrs)))])
  }

  function Forgotten(s: State, g: Bytes): State {
    s.(groups := s.groups - {g}, shared := s.shared - {g})
  }

  /** The state after one request, given whether the factory could start a transport if asked to. */
  function Next(cfg: Config, s: State, req: Request, starts: bool): State {
    match req
    case SetRoster(g, roster, links, revocations) =>
      AfterRoster(cfg, s, g, roster, Batch(links, revocations), starts)
    case ListMembers(g) => AdmissionSynced(s, g)
    case Join(g) => if EntryFailure(cfg, s, g, starts).Some? then s else Opened(cfg, s, g)
    case Leave(g) => Forgotten(s, g)
    case Status(g) => Drained(AdmissionSynced(s, g), g)
    case Peers(g) => AdmissionSynced(s, g)
    case ShareFile(g, cid) => if ShareFailure(s, g, cid).Some? then s else Shared(s, g, cid)
    case Poll(g) => Drained(AdmissionSynced(s, g), g)
    case SharedFiles(g, offset, limit) => Drained(s, g)
    case SeedOf(g) => s
    case AddSeed(g, text) =>
      if SeedFailure(cfg, s, g, text).Some? then s else SeedAdded(s, g, Decode(text).value.addrs)
  }

  /** The answer to that request. */
  function Answer(cfg: Config, s: State, req: Request, starts: bool): Response {
    match req
    case SetRoster(g, roster, links, revocations) =>
      RosterAnswer(cfg, s, g, roster, Batch(links, revocations), starts)
    case ListMembers(g) => MembersAnswer(s, g)
    case Join(g) =>
      (match EntryFailure(cfg, s, g, starts) case Some(e) => Error(e) case None => Done)
    case Leave(g) => Done
    case Status(g) => StatusAnswer(Drained(AdmissionSynced(s, g), g), g)
    case Peers(g) => PeersAnswer(AdmissionSynced(s, g), g)
    case ShareFile(g, cid) => (match ShareFailure(s, g, cid) case Some(e) => Error(e) case None => Done)
    case Poll(g) => Messages(DrainedMessages(s, g))
    case SharedFiles(g, offset, limit) =>
      PageAnswer(Drained(s, g), g, offset, if limit.Some? then limit.value else MAX_SHARED_FILES_PAGE)
    case SeedOf(g) => SeedAnswer(s, g)
    case AddSeed(g, text) =>
      (match SeedFailure(cfg, s, g, text) case Some(e) => Error(e) case None => Seeded(|Decode(text).value.addrs|))
  }

  // ---- everything that can happen to a daemon ----

  /** A client request; the two transport hooks; or the network changing what a transport reports. */
  datatype Event =
    | Ask(request: Request, starts: bool)
    | AdmitPeer(group: Bytes, address: string, role: string, starts: bool)
    | DropPeer(group: Bytes, address: string)
    | Wire(group: Bytes, connected: set<string>, inbox: seq<MeshMessage>, listening: seq<Bytes>)

  function PeerAdmitted(cfg: Config, s: State, g: Bytes, address: string, role: string, starts: bool): State {
    if EntryFailure(cfg, s, g, starts).Some? then s
    else
      var o := Opened(cfg, s, g);
      o.(groups := o.groups[g := Joined(o.groups[g], address, role)])
  }

  function PeerDropped(s: State, g: Bytes, address: string): State {
    if g in s.groups then s.(groups := s.groups[g := Left(s.groups[g], address)]) else s
  }

  function Wired(s: State, g: Bytes, connected: set<string>, inbox: seq<MeshMessage>, listening: seq<Bytes>): State {
    if g !in s.groups then s
    else s.(groups := s.groups[g := s.groups[g].(net := Reported(s.groups[g].net, connected, inbox, listening))])
  }

  function Step(cfg: Config, s: State, e: Event): State {
    match e
    case Ask(request, starts) => Next(cfg, s, request, starts)
    case AdmitPeer(g, address, role, starts) => PeerAdmitted(cfg, s, g, address, role, starts)
    case DropPeer(g, address) => PeerDropped(s, g, address)
    case Wire(g, connected, inbox, listening) => Wired(s, g, connected, inbox, listening)
  }

  function Run(cfg: Config, events: seq<Event>): State {
    if events == [] then FRESH else Step(cfg, Run(cfg, events[..|events| - 1]), events[|events| - 1])
  }
}
