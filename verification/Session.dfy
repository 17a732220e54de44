/** The transport surface the daemon drives and its two implementations, and the session that binds the
    membership to it (`cluster-daemon/src/transport.rs`, `libp2p_transport.rs:414-484`,
    `cluster-core/src/lib.rs:213-297`). */
module Session {
  import opened Wrappers
  import opened Addresses
  import opened EffectiveRoster
  import opened Membership
  import opened Seed
  import Lex

  /** The single-node transport, and the one whose swarm task runs concurrently behind this surface. */
  datatype Kind = InProcess | Networked

  datatype MeshMessage = MeshMessage(from: string, data: string)

  /** What the networked surface hands to the swarm task. */
  datatype Command = Publish(data: string) | DialPeer(addr: Bytes) | Disconnect(address: string)

  /** One transport as the daemon sees it. `listening` is what `seed_addrs` would answer. */
  datatype Net = Net(
    kind: Kind, authorized: set<string>, connected: set<string>, inbox: seq<MeshMessage>,
    commands: seq<Command>, listening: seq<Bytes>)

  function NewNet(kind: Kind): Net { Net(kind, {}, {}, [], [], []) }

  function Dialed(n: Net, peer: string): Net {
    match n.kind
    case InProcess => n.(connected := n.connected + {peer})
    case Networked => n.(authorized := n.authorized + Named(peer))
  }

  function Dropped(n: Net, peer: string): Net {
    match n.kind
    case InProcess => n.(connected := n.connected - {peer})
    case Networked =>
      match CanonicalAddress(peer)
      case Some(a) => n.(authorized := n.authorized - {a}, connected := n.connected - {a},
                         commands := n.commands + [Disconnect(a)])
      case None => n
  }

  function Authorized(n: Net, addr: string): Net {
    if n.kind == Networked then Dialed(n, addr) else n
  }

  function Published(n: Net, data: string): Net {
    if n.kind == Networked then n.(commands := n.commands + [Publish(data)]) else n
  }

  /** The swarm task may change what is connected, received and listened on in any way at all; it never
      touches the authorized set or the queue of commands. The single-node transport only receives. */
  function Reported(n: Net, connected: set<string>, inbox: seq<MeshMessage>, listening: seq<Bytes>): Net {
    if n.kind == Networked then n.(connected := connected, inbox := inbox, listening := listening) else n.(inbox := inbox)
  }

  function DroppedAll(n: Net, peers: seq<string>): Net {
    if peers == [] then n else Dropped(DroppedAll(n, peers[..|peers| - 1]), peers[|peers| - 1])
  }

  function AuthorizedAll(n: Net, addrs: seq<string>): Net {
    if addrs == [] then n else Authorized(AuthorizedAll(n, addrs[..|addrs| - 1]), addrs[|addrs| - 1])
  }

  /** The disconnects of some addresses, in order. */
  function Disconnects(addrs: seq<string>): seq<Command> { seq(|addrs|, i requires 0 <= i < |addrs| => Disconnect(addrs[i])) }

  function DialPeers(addrs: seq<Bytes>): seq<Command> {
    if addrs == [] then [] else DialPeers(addrs[..|addrs| - 1]) + [DialPeer(addrs[|addrs| - 1])]
  }

  /** `parse_peer_addrs`: between 1 and 8 addresses, each a multiaddr naming a peer other than this one. */
  predicate Dialable(addrs: seq<Bytes>, parses: Bytes -> bool) {
    1 <= |addrs| <= MAX_SEED_ADDRS && forall i :: 0 <= i < |addrs| ==> parses(addrs[i])
  }

  predicate TakesPeers(n: Net, addrs: seq<Bytes>, parses: Bytes -> bool) {
    n.kind == Networked && Dialable(addrs, parses)
  }

  class MeshTransport {
    const kind: Kind
    var authorized: set<string>
    var connected: set<string>
    var inbox: seq<MeshMessage>
    var commands: seq<Command>
    var listening: seq<Bytes>

    ghost function Value(): Net
      reads this
    {
      Net(kind, authorized, connected, inbox, commands, listening)
    }

    constructor (kind: Kind)
      ensures Value() == NewNet(kind)
    {
      this.kind := kind;
      authorized, connected, inbox, commands, listening := {}, {}, [], [], [];
    }

    method Dial(peer: string)
      modifies this
      ensures Value() == Dialed(old(Value()), peer)
    {
      if kind == InProcess {
        connected := connected + {peer};
      } else {
        match CanonicalAddress(peer) {
          case Some(a) => authorized := authorized + {a};
          case None =>
        }
      }
    }

    method Disconnect(peer: string)
      modifies this
      ensures Value() == Dropped(old(Value()), peer)
    {
      if kind == InProcess {
        connected := connected - {peer};
      } else {
        match CanonicalAddress(peer) {
          case Some(a) =>
            authorized := authorized - {a};
            connected := connected - {a};
            commands := commands + [Command.Disconnect(a)];
          case None =>
        }
      }
    }

    method Authorize(addr: string)
      modifies this
      ensures Value() == Authorized(old(Value()), addr)
    {
      if kind == Networked { Dial(addr); }
    }

    method Publish(data: string)
      modifies this
      ensures Value() == Published(old(Value()), data)
    {
      if kind == Networked { commands := commands + [Command.Publish(data)]; }
    }

    /** Everything received since the last drain, exactly once. */
    method Drain() returns (messages: seq<MeshMessage>)
      modifies this
      ensures messages == old(inbox)
      ensures Value() == old(Value()).(inbox := [])
    {
      messages := inbox;
      inbox := [];
    }

    /** The network has its say; the single-node transport only receives. */
    method Reports(connected: set<string>, inbox: seq<MeshMessage>, listening: seq<Bytes>)
      modifies this
      ensures Value() == Reported(old(Value()), connected, inbox, listening)
    {
      this.inbox := inbox;
      if kind == Networked {
        this.connected := connected;
        this.listening := listening;
      }
    }

    /** Nothing is dialed unless every address is acceptable. */
    method AddPeers(addrs: seq<Bytes>, parses: Bytes -> bool) returns (taken: Option<nat>)
      modifies this
      ensures taken == if TakesPeers(old(Value()), addrs, parses) then Some(|addrs|) else None
      ensures Value() == if taken.Some? then old(Value()).(commands := old(commands) + DialPeers(addrs)) else old(Value())
    {
      if kind == InProcess || addrs == [] || |addrs| > MAX_SEED_ADDRS {
        return None;
      }
      for i := 0 to |addrs|
        invariant forall j :: 0 <= j < i ==> parses(addrs[j])
      {
        if !parses(addrs[i]) { return None; }
      }
      for i := 0 to |addrs|
        invariant Value() == old(Value()).(commands := old(commands) + DialPeers(addrs[..i]))
      {
        assert addrs[..i + 1][..i] == addrs[..i];
        commands := commands + [DialPeer(addrs[i])];
      }
      assert addrs[..|addrs|] == addrs;
      return Some(|addrs|);
    }
  }

  // ---- the session ----

  datatype SessionState = SessionState(members: Members, net: Net)

  function NewSession(kind: Kind): SessionState { SessionState(Members({}, {}), NewNet(kind)) }

  function Joined(s: SessionState, address: string, role: string): SessionState {
    if Joins(s.members, address, role) then
      var a := CanonicalAddress(address).value;
      SessionState(s.members.(admitted := s.members.admitted + {a}), Dialed(s.net, a))
    else s
  }

  function Left(s: SessionState, address: string): SessionState {
    match CanonicalAddress(address)
    case Some(a) => SessionState(s.members.(admitted := s.members.admitted - {a}), Dropped(s.net, a))
    case None => s
  }

  function Evicted(s: SessionState, roster: Roster): seq<string> {
    Lex.Sorted(s.members.admitted - AllowedSet(roster))
  }

  function Reconciled(s: SessionState, roster: Roster): SessionState {
    var allowed := AllowedSet(roster);
    SessionState(Members(allowed, s.members.admitted * allowed), DroppedAll(s.net, Evicted(s, roster)))
  }

  function Synced(s: SessionState): SessionState {
    s.(members := s.members.(admitted := s.net.connected * s.members.allowed))
  }

  class ClusterSession {
    const membership: ClusterMembership
    const transport: MeshTransport

    ghost function Value(): SessionState
      reads membership, transport
    {
      SessionState(membership.Value(), transport.Value())
    }

    constructor (transport: MeshTransport)
      ensures this.transport == transport && fresh(membership)
      ensures membership.Value() == Members({}, {})
    {
      this.transport := transport;
      this.membership := new ClusterMembership();
    }

    method Join(address: string, role: string) returns (admitted: bool)
      modifies membership, transport
      ensures admitted == Joins(old(membership.Value()), address, role)
      ensures Value() == Joined(old(Value()), address, role)
    {
      admitted := membership.Join(address, role);
      if admitted {
        match CanonicalAddress(address) {
          case Some(a) => transport.Dial(a);
          case None =>
        }
      }
    }

    method Leave(address: string)
      modifies membership, transport
      ensures Value() == Left(old(Value()), address)
    {
      membership.Leave(address);
      match CanonicalAddress(address) {
        case Some(a) => transport.Disconnect(a);
        case None =>
      }
    }

    /** Evict from the membership and disconnect every evicted peer in the same step. */
    method Reconcile(roster: Roster) returns (evicted: seq<string>)
      modifies membership, transport
      ensures evicted == Evicted(old(Value()), roster)
      ensures Value() == Reconciled(old(Value()), roster)
    {
      evicted := membership.Reconcile(roster);
      for i := 0 to |evicted|
        invariant membership.Value() == Reconciled(old(Value()), roster).members
        invariant transport.Value() == DroppedAll(old(transport.Value()), evicted[..i])
      {
        assert evicted[..i + 1][..i] == evicted[..i];
        transport.Disconnect(evicted[i]);
      }
      assert evicted[..|evicted|] == evicted;
    }

    /** Admitted becomes the connected among the allowed; who is allowed, and the transport, stay as they were. */
    method SyncAdmittedFromWire()
      modifies membership
      ensures membership.admitted == old(transport.connected) * old(membership.allowed)
      ensures membership.allowed == old(membership.allowed) && transport.Value() == old(transport.Value())
      ensures Value() == Synced(old(Value()))
    {
      membership.SyncAdmitted(transport.connected);
    }
  }
}
