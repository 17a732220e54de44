/** The protocol read field by field instead of step by step: for each thing the two threads remember, exactly
    which steps change it, and how. */
module StepLaws {
  import opened Wrappers
  import opened Addresses
  import opened Session
  import opened Wire

  predicate OfSurface(l: Label) { l.DialLock? || l.DisconnectLock? || l.DisconnectSend? || l.SendOther? || l.Drain? }

  predicate Allows(l: Label, a: string) { l.DialLock? && CanonicalAddress(l.raw) == Some(a) }

  predicate Forbids(l: Label, a: string) { l.DisconnectLock? && CanonicalAddress(l.raw) == Some(a) }

  /** A step that shuts `p` out of the topic: it is swept; a disconnect of the address it is recorded under is
      received; it connects unrecorded; or it identifies as an address not authorized now. */
  predicate ShutsOut(s: Wire, net: Resolver, l: Label, p: Peer) {
    match l
    case Sweep(q) => q == p
    case Receive => s.queue != [] && p in s.peerAddr && s.queue[0] == Evict(s.peerAddr[p])
    case Established(q) => q == p && p !in s.peerAddr
    case IdentifyRead(q, keyMatches) => q == p && keyMatches && net(p).Some? && net(p).value !in s.authorized
    case _ => false
  }

  /** The one step that lets `p` in: it is recorded under the address it identified as. */
  predicate LetsIn(s: Wire, l: Label, p: Peer) { l.AdmitLocal? && s.task.Admitting? && s.task.peer == p }

  /** Whom the router scores out, and whom it ignores. */
  lemma GateBits(s: Wire, net: Resolver, l: Label, p: Peer)
    requires Enabled(s, l)
    ensures var t := Apply(s, net, l);
            && (p in t.lowScored <==> ShutsOut(s, net, l, p) || (p in s.lowScored && !LetsIn(s, l, p)))
            && (p in t.blacklisted <==>
                  ShutsOut(s, net, l, p) || (p in s.blacklisted && l != ClosedLast(p) && !LetsIn(s, l, p)))
  {
    hide CanonicalAddress, IsValidCid, Live, Closing;
    if l.Receive? {
      hide Identified;
    } else if l.IdentifyRead? {
      hide Received;
    } else {
      hide Received, Identified;
    }
  }

  /** Who is awaited to identify. */
  lemma Awaits(s: Wire, net: Resolver, l: Label, p: Peer)
    requires Enabled(s, l)
    ensures var t := Apply(s, net, l);
            p in t.unidentified
            <==> (l == Established(p) && p !in s.peerAddr)
                 || (p in s.unidentified && l != Sweep(p) && l != ClosedLast(p) && !(l.IdentifyRead? && l.peer == p))
  {
    hide CanonicalAddress, IsValidCid, Live, Closing;
    if l.Receive? {
      hide Identified;
    } else if l.IdentifyRead? {
      hide Received;
    } else {
      hide Received, Identified;
    }
  }

  /** A peer is recorded under an address exactly from when it is let in under it until its last connection
      closes. */
  lemma Records(s: Wire, net: Resolver, l: Label, p: Peer, a: string)
    requires Enabled(s, l)
    ensures var t := Apply(s, net, l);
            (p in t.peerAddr && t.peerAddr[p] == a)
            <==> (LetsIn(s, l, p) && s.task.address == a)
                 || (p in s.peerAddr && s.peerAddr[p] == a && l != ClosedLast(p) && !LetsIn(s, l, p))
  {
    hide CanonicalAddress, IsValidCid, Live, Closing;
    if l.Receive? {
      hide Identified;
    } else if l.IdentifyRead? {
      hide Received;
    } else {
      hide Received, Identified, Close, GatePeers;
    }
  }

  /** An address is authorized from a dial that names it until a disconnect that does; it is connected from its
      recording until a disconnect or the end of a last connection recorded under it. */
  lemma SharedSets(s: Wire, net: Resolver, l: Label, a: string)
    requires Enabled(s, l)
    ensures var t := Apply(s, net, l);
            && (a in t.authorized <==> Allows(l, a) || (a in s.authorized && !Forbids(l, a)))
            && (a in t.connected <==>
                  (l.RecordConnected? && s.task == Recording(a))
                  || (a in s.connected && !Forbids(l, a) && !(l.ClearConnected? && s.task == Clearing(a))))
            && (t.surface == Sending(a) <==> Forbids(l, a) || (s.surface == Sending(a) && !l.DisconnectSend?))
  {
    hide CanonicalAddress, IsValidCid, Live, Closing;
    if l.Receive? {
      hide Identified;
    } else if l.IdentifyRead? {
      hide Received;
    } else {
      hide Received, Identified, Close, GatePeers;
    }
  }

  /** Where the loop is. A peer is being admitted exactly from an `identify` whose key is its own and resolves to
      an address authorized at that moment. */
  lemma LoopIs(s: Wire, net: Resolver, l: Label, p: Peer, a: string)
    requires Enabled(s, l)
    ensures var t := Apply(s, net, l);
            && (t.task == Admitting(p, a) <==>
                  (l == IdentifyRead(p, true) && net(p) == Some(a) && a in s.authorized) || (OfSurface(l) && s.task == Admitting(p, a)))
            && (t.task == Recording(a) <==>
                  (l.AdmitLocal? && s.task.Admitting? && s.task.address == a) || (OfSurface(l) && s.task == Recording(a)))
            && (t.task == Clearing(a) <==>
                  (l.ClosedLast? && l.peer in s.peerAddr && s.peerAddr[l.peer] == a) || (OfSurface(l) && s.task == Clearing(a)))
  {
    hide CanonicalAddress, IsValidCid, Live, Closing;
    if l.Receive? {
      hide Identified;
    } else if l.IdentifyRead? {
      hide Received;
    } else {
      hide Received, Identified, Close, GatePeers;
    }
  }
}
