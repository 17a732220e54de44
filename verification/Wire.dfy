/** The wire admission protocol (`libp2p_transport.rs`): the synchronous surface and the swarm task as two
    threads over the mutex-held `Shared` state and a FIFO command queue. One step is one lock section,
    one send, or one stretch of task-local work between lock sections, so every interleaving the locks
    allow is a sequence of steps. */
module Wire {
  import opened Wrappers
  import opened Addresses
  import opened Session

  type Peer = nat

  /** The address a peer's own key resolves to, if its key is of the supported type. */
  type Resolver = Peer -> Option<string>

  const MAX_INBOX: nat := 1024

  /** Queue entries: a disconnect, or a command that touches no admission state (publish, dial, listing). */
  datatype Cmd = Evict(address: string) | Other

  /** Where the surface is: idle, or between `disconnect`'s lock section and its send. */
  datatype Surface = Idle | Sending(address: string)

  /** Where the swarm task is: at the top of its loop, or inside a handler between two lock sections. */
  datatype Task =
    | Top
    | Admitting(peer: Peer, address: string)   // identify read `authorized` as true
    | Recording(address: string)               // peer_addr set and gate lifted; `connected` not yet
    | Accepting(message: MeshMessage)          // message passed its checks; inbox not yet
    | Clearing(address: string)                // last connection closed; `connected` not yet

  datatype Wire = Wire(
    authorized: set<string>, connected: set<string>, inbox: seq<MeshMessage>,
    queue: seq<Cmd>, surface: Surface, task: Task,
    peerAddr: map<Peer, string>, unidentified: set<Peer>,
    blacklisted: set<Peer>, lowScored: set<Peer>,
    live: map<Peer, nat>, closing: map<Peer, nat>,
    offered: seq<MeshMessage>, cuts: seq<nat>, drains: seq<seq<MeshMessage>>)

  /** `live` counts a peer's connections, `closing` those of them asked to close. The last three fields only
      record history: every message offered to the inbox, how many had been when each drain took it (with a
      zero first), and what each drain returned. */
  const START: Wire :=
    Wire({}, {}, [], [], Idle, Top, map[], {}, {}, {}, map[], map[], [], [0], [])

  function Live(s: Wire, p: Peer): nat { if p in s.live then s.live[p] else 0 }

  function Closing(s: Wire, p: Peer): nat { if p in s.closing then s.closing[p] else 0 }

  // ---- helpers the handlers share ----

  /** `gate_peer`, on each of the peers. */
  function GatePeers(s: Wire, peers: set<Peer>): Wire {
    s.(blacklisted := s.blacklisted + peers, lowScored := s.lowScored + peers)
  }

  /** `ungate_peer`. */
  function UngatePeer(s: Wire, p: Peer): Wire {
    s.(blacklisted := s.blacklisted - {p}, lowScored := s.lowScored - {p})
  }

  /** `disconnect_peer_id`, on each of the peers: every current connection is asked to close. */
  function Close(s: Wire, peers: set<Peer>): Wire {
    s.(closing := s.closing + map p | p in peers :: Live(s, p))
  }

  /** A peer shut out of the topic: neither its messages nor ours pass. */
  predicate Gated(s: Wire, p: Peer) { p in s.blacklisted && p in s.lowScored }

  /** A disconnect of `a` is queued or about to be sent. */
  predicate Pending(s: Wire, a: string) { s.surface == Sending(a) || Evict(a) in s.queue }

  function Targets(s: Wire, a: string): set<Peer> { set p | p in s.peerAddr && s.peerAddr[p] == a }

  // ---- the steps ----

  datatype Label =
    | DialLock(raw: string)
    | DisconnectLock(raw: string)
    | DisconnectSend
    | SendOther
    | Drain
    | Sweep(expired: Peer)
    | Receive
    | Established(peer: Peer)
    | IdentifyRead(peer: Peer, keyMatches: bool)
    | AdmitLocal
    | RecordConnected
    | MessageRead(source: Peer, ours: bool, payload: Option<string>)
    | PushInbox
    | ClosedOne(peer: Peer, wasClosing: bool)
    | ClosedLast(peer: Peer)
    | ClearConnected

  predicate Enabled(s: Wire, l: Label) {
    match l
    case DialLock(_) => s.surface == Idle
    case DisconnectLock(_) => s.surface == Idle
    case DisconnectSend => s.surface.Sending?
    case SendOther => s.surface == Idle
    case Drain => s.surface == Idle
    case Sweep(expired) => s.task == Top && expired in s.unidentified
    case Receive => s.task == Top && s.queue != []
    case Established(_) => s.task == Top
    case IdentifyRead(_, _) => s.task == Top
    case AdmitLocal => s.task.Admitting?
    case RecordConnected => s.task.Recording?
    case MessageRead(_, _, _) => s.task == Top
    case PushInbox => s.task.Accepting?
    case ClosedOne(p, wasClosing) =>
      s.task == Top && Live(s, p) >= 2 && (if wasClosing then Closing(s, p) > 0 else Closing(s, p) < Live(s, p))
    case ClosedLast(p) => s.task == Top && Live(s, p) == 1
    case ClearConnected => s.task.Clearing?
  }

  /** One queued command handled: a disconnect gates and closes every peer admitted under the address. */
  function Received(s: Wire): Wire
    requires s.queue != []
  {
    var t := s.(queue := s.queue[1..]);
    match s.queue[0]
    case Other => t
    case Evict(a) => Close(GatePeers(t, Targets(s, a)), Targets(s, a))
  }

  /** The identify handler up to its first lock section. */
  function Identified(s: Wire, net: Resolver, p: Peer, keyMatches: bool): Wire {
    var t := s.(unidentified := s.unidentified - {p});
    if !keyMatches then Close(t, {p})
    else
      match net(p)
      case None => Close(t, {p})
      case Some(a) => if a in s.authorized then t.(task := Admitting(p, a)) else Close(GatePeers(t, {p}), {p})
  }

  /** The message handler up to its lock section: our topic, a source admitted under an address, and that
      address authorized now. The payload is then either a well-formed CID or dropped. */
  function MessageChecked(s: Wire, source: Peer, ours: bool, payload: Option<string>): Wire {
    if ours && source in s.peerAddr && s.peerAddr[source] in s.authorized && payload.Some? && IsValidCid(payload.value)
    then s.(task := Accepting(MeshMessage(s.peerAddr[source], payload.value)))
    else s
  }

  function Apply(s: Wire, net: Resolver, l: Label): Wire
    requires Enabled(s, l)
  {
    match l
    case DialLock(raw) =>
      (match CanonicalAddress(raw) case Some(a) => s.(authorized := s.authorized + {a}) case None => s)
    case DisconnectLock(raw) =>
      (match CanonicalAddress(raw)
       case Some(a) => s.(authorized := s.authorized - {a}, connected := s.connected - {a}, surface := Sending(a))
       case None => s)
    case DisconnectSend => s.(queue := s.queue + [Evict(s.surface.address)], surface := Idle)
    case SendOther => s.(queue := s.queue + [Other])
    case Drain => s.(inbox := [], cuts := s.cuts + [|s.offered|], drains := s.drains + [s.inbox])
    case Sweep(p) => Close(GatePeers(s.(unidentified := s.unidentified - {p}), {p}), {p})
    case Receive => Received(s)
    case Established(p) =>
      var t := s.(live := s.live[p := Live(s, p) + 1]);
      if p in s.peerAddr then t else GatePeers(t.(unidentified := s.unidentified + {p}), {p})
    case IdentifyRead(p, keyMatches) => Identified(s, net, p, keyMatches)
    case AdmitLocal =>
      UngatePeer(s.(peerAddr := s.peerAddr[s.task.peer := s.task.address], task := Recording(s.task.address)), s.task.peer)
    case RecordConnected => s.(connected := s.connected + {s.task.address}, task := Top)
    case MessageRead(source, ours, payload) => MessageChecked(s, source, ours, payload)
    case PushInbox =>
      s.(inbox := if |s.inbox| < MAX_INBOX then s.inbox + [s.task.message] else s.inbox,
         offered := s.offered + [s.task.message], task := Top)
    case ClosedOne(p, wasClosing) =>
      s.(live := s.live[p := Live(s, p) - 1],
         closing := if wasClosing then s.closing[p := Closing(s, p) - 1] else s.closing)
    case ClosedLast(p) =>
      var t := s.(live := s.live - {p}, closing := s.closing - {p},
                  unidentified := s.unidentified - {p}, blacklisted := s.blacklisted - {p});
      if p in s.peerAddr then t.(peerAddr := s.peerAddr - {p}, task := Clearing(s.peerAddr[p])) else t
    case ClearConnected => s.(connected := s.connected - {s.task.address}, task := Top)
  }

  /** A run takes only enabled steps. */
  predicate Runs(net: Resolver, from: Wire, labels: seq<Label>)
    decreases |labels|
  {
    labels == [] || (Enabled(from, labels[0]) && Runs(net, Apply(from, net, labels[0]), labels[1..]))
  }

  function After(net: Resolver, from: Wire, labels: seq<Label>): Wire
    requires Runs(net, from, labels)
    decreases |labels|
  {
    if labels == [] then from else After(net, Apply(from, net, labels[0]), labels[1..])
  }
}
