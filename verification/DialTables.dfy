/** The swarm task's bounded dial tables: the re-dial list and the peers found on the local network. */
module DialTables {
  import opened Wrappers
  import opened Protocol = Wire

  const MAX_BOOTSTRAP: nat := 64
  const MAX_REDIAL_PER_TICK: nat := 16
  const MAX_DISCOVERED_PEERS: nat := 256
  const MAX_DISCOVERED_ADDRS: nat := 8

  /** A network address, and the peer its `/p2p/` part names if it has one. */
  datatype Multiaddr = Multiaddr(text: string, peer: Option<Peer>)

  type Found = map<Peer, seq<Multiaddr>>

  // ---- the tables as values ----

  function Truncated(addrs: seq<Multiaddr>, n: nat): seq<Multiaddr> { if |addrs| <= n then addrs else addrs[..n] }

  function Remembered(list: seq<Multiaddr>, addr: Multiaddr): seq<Multiaddr> {
    if addr in list then list
    else if |list| >= MAX_BOOTSTRAP then list[1..] + [addr]
    else list + [addr]
  }

  function RememberedAll(list: seq<Multiaddr>, addrs: seq<Multiaddr>): seq<Multiaddr> {
    if addrs == [] then list else Remembered(RememberedAll(list, addrs[..|addrs| - 1]), addrs[|addrs| - 1])
  }

  function AddrsOf(found: Found, p: Peer): seq<Multiaddr> { if p in found then found[p] else [] }

  /** Whether a sighting tells us anything we have room for and did not know. */
  predicate IsNews(found: Found, p: Peer, addr: Multiaddr) {
    (p in found || |found| < MAX_DISCOVERED_PEERS) && addr !in AddrsOf(found, p)
  }

  function Sighted(found: Found, p: Peer, addr: Multiaddr): Found {
    if !IsNews(found, p, addr) then found
    else
      var known := AddrsOf(found, p);
      found[p := (if |known| >= MAX_DISCOVERED_ADDRS then known[1..] else known) + [addr]]
  }

  function Without(addrs: seq<Multiaddr>, addr: Multiaddr): seq<Multiaddr> {
    if addrs == [] then []
    else
      var rest := Without(addrs[..|addrs| - 1], addr);
      if addrs[|addrs| - 1] == addr then rest else rest + [addrs[|addrs| - 1]]
  }

  function Expired(found: Found, p: Peer, addr: Multiaddr): Found {
    if p !in found then found
    else
      var left := Without(found[p], addr);
      if left == [] then found - {p} else found[p := left]
  }

  /** A batch of sightings, our own left out; with the peers it told us something of, in first-seen order. */
  function SightedAll(found: Found, local: Peer, seen: seq<(Peer, Multiaddr)>): (Found, seq<Peer>) {
    if seen == [] then (found, [])
    else
      var (before, news) := SightedAll(found, local, seen[..|seen| - 1]);
      var (p, addr) := seen[|seen| - 1];
      if p == local then (before, news)
      else (Sighted(before, p, addr), if IsNews(before, p, addr) && p !in news then news + [p] else news)
  }

  function ExpiredAll(found: Found, gone: seq<(Peer, Multiaddr)>): Found {
    if gone == [] then found
    else Expired(ExpiredAll(found, gone[..|gone| - 1]), gone[|gone| - 1].0, gone[|gone| - 1].1)
  }

  // ---- the tables as the swarm task holds them ----

  class SwarmTables {
    const local: Peer
    var bootstrap: seq<Multiaddr>
    var discovered: Found

    constructor (local: Peer, addrs: seq<Multiaddr>)
      ensures this.local == local && bootstrap == Truncated(addrs, MAX_BOOTSTRAP) && discovered == map[]
    {
      this.local := local;
      bootstrap := if |addrs| <= MAX_BOOTSTRAP then addrs else addrs[..MAX_BOOTSTRAP];
      discovered := map[];
    }

    method RememberBootstrap(addr: Multiaddr)
      modifies this`bootstrap
      ensures bootstrap == Remembered(old(bootstrap), addr)
    {
      if addr in bootstrap { return; }
      if |bootstrap| >= MAX_BOOTSTRAP { bootstrap := bootstrap[1..]; }
      bootstrap := bootstrap + [addr];
    }

    method RememberDiscovered(peer: Peer, addr: Multiaddr) returns (news: bool)
      modifies this`discovered
      ensures discovered == Sighted(old(discovered), peer, addr)
      ensures news <==> discovered != old(discovered)
    {
      if peer !in discovered && |discovered| >= MAX_DISCOVERED_PEERS { return false; }
      var addrs := if peer in discovered then discovered[peer] else [];
      if addr in addrs { return false; }
      if |addrs| >= MAX_DISCOVERED_ADDRS { addrs := addrs[1..]; }
      discovered := discovered[peer := addrs + [addr]];
      NewsChanges(old(discovered), peer, addr);
      return true;
    }

    method ForgetDiscovered(peer: Peer, addr: Multiaddr)
      modifies this`discovered
      ensures discovered == Expired(old(discovered), peer, addr)
    {
      if peer !in discovered { return; }
      var addrs, left := discovered[peer], [];
      for i := 0 to |addrs|
        invariant left == Without(addrs[..i], addr)
      {
        assert addrs[..i + 1][..i] == addrs[..i];
        if addrs[i] != addr { left := left + [addrs[i]]; }
      }
      assert addrs[..|addrs|] == addrs;
      discovered := if left == [] then discovered - {peer} else discovered[peer := left];
    }

    /** A discovery event: the table takes every sighting but our own, and the peers it learned of are
        reported once each. */
    method Discover(seen: seq<(Peer, Multiaddr)>) returns (learned: seq<Peer>)
      modifies this`discovered
      ensures (discovered, learned) == SightedAll(old(discovered), local, seen)
    {
      learned := [];
      for i := 0 to |seen|
        invariant (discovered, learned) == SightedAll(old(discovered), local, seen[..i])
      {
        assert seen[..i + 1][..i] == seen[..i];
        var (p, addr) := seen[i];
        if p != local {
          ghost var before := discovered;
          var news := RememberDiscovered(p, addr);
          NewsIffChanged(before, p, addr);
          if news && p !in learned { learned := learned + [p]; }
        }
      }
      assert seen[..|seen|] == seen;
    }

    method Expire(gone: seq<(Peer, Multiaddr)>)
      modifies this`discovered
      ensures discovered == ExpiredAll(old(discovered), gone)
    {
      for i := 0 to |gone|
        invariant discovered == ExpiredAll(old(discovered), gone[..i])
      {
        assert gone[..i + 1][..i] == gone[..i];
        ForgetDiscovered(gone[i].0, gone[i].1);
      }
      assert gone[..|gone|] == gone;
    }
  }

  lemma NewsChanges(found: Found, p: Peer, addr: Multiaddr)
    requires IsNews(found, p, addr)
    ensures Sighted(found, p, addr) != found
  {
    var t := Sighted(found, p, addr);
    assert t[p][|t[p]| - 1] == addr;
    assert p in found ==> addr !in found[p];
  }

  lemma NewsIffChanged(found: Found, p: Peer, addr: Multiaddr)
    ensures Sighted(found, p, addr) != found <==> IsNews(found, p, addr)
  {
    if IsNews(found, p, addr) { NewsChanges(found, p, addr); }
  }

  // ---- the bounds, over every sequence of events ----

  datatype Tables = Tables(bootstrap: seq<Multiaddr>, discovered: Found)

  datatype Event = Requested(addr: Multiaddr) | Discovered(seen: seq<(Peer, Multiaddr)>) | Gone(records: seq<(Peer, Multiaddr)>)

  function Step(t: Tables, local: Peer, e: Event): Tables {
    match e
    case Requested(addr) => t.(bootstrap := Remembered(t.bootstrap, addr))
    case Discovered(seen) => t.(discovered := SightedAll(t.discovered, local, seen).0)
    case Gone(records) => t.(discovered := ExpiredAll(t.discovered, records))
  }

  function Run(configured: seq<Multiaddr>, local: Peer, events: seq<Event>): Tables {
    if events == [] then Tables(Truncated(configured, MAX_BOOTSTRAP), map[])
    else Step(Run(configured, local, events[..|events| - 1]), local, events[|events| - 1])
  }

  predicate Distinct(addrs: seq<Multiaddr>) { forall i, j :: 0 <= i < j < |addrs| ==> addrs[i] != addrs[j] }

  ghost predicate FoundInv(found: Found, local: Peer) {
    && |found| <= MAX_DISCOVERED_PEERS && local !in found
    && forall p :: p in found ==> 1 <= |found[p]| <= MAX_DISCOVERED_ADDRS && Distinct(found[p])
  }

  lemma SightedKeepsInv(found: Found, local: Peer, p: Peer, addr: Multiaddr)
    requires FoundInv(found, local) && p != local
    ensures FoundInv(Sighted(found, p, addr), local)
  {
    if IsNews(found, p, addr) && p !in found {
      assert Sighted(found, p, addr).Keys == found.Keys + {p};
    }
    if IsNews(found, p, addr) && p in found {
      assert Sighted(found, p, addr).Keys == found.Keys;
    }
  }

  lemma {:induction false} WithoutIs(addrs: seq<Multiaddr>, addr: Multiaddr)
    ensures |Without(addrs, addr)| <= |addrs|
    ensures forall a :: a in Without(addrs, addr) <==> a in addrs && a != addr
    ensures Distinct(addrs) ==> Distinct(Without(addrs, addr))
  {
    hide Distinct;
    if addrs == [] {
      assert Without(addrs, addr) == addrs;
    } else {
      var front, last := addrs[..|addrs| - 1], addrs[|addrs| - 1];
      WithoutIs(front, addr);
      assert addrs == front + [last];
      DistinctEnds(front, last);
      DistinctEnds(Without(front, addr), last);
    }
  }

  lemma DistinctEnds(front: seq<Multiaddr>, last: Multiaddr)
    ensures Distinct(front + [last]) <==> Distinct(front) && last !in front
  {
    var all := front + [last];
    if Distinct(all) {
      assert forall i :: 0 <= i < |front| ==> front[i] == all[i];
      assert forall i :: 0 <= i < |front| ==> all[i] != all[|front|];
    }
  }

  lemma ExpiredKeepsInv(found: Found, local: Peer, p: Peer, addr: Multiaddr)
    requires FoundInv(found, local)
    ensures FoundInv(Expired(found, p, addr), local)
    ensures addr !in AddrsOf(Expired(found, p, addr), p)
  {
    if p in found {
      WithoutIs(found[p], addr);
      assert (found - {p}).Keys == found.Keys - {p};
      assert found[p := Without(found[p], addr)].Keys == found.Keys;
    }
  }

  /** A sighting, exactly: it is news if the peer is known or there is room for one more, and the address is not
      among the peer's; news goes last, of nine addresses the first goes; nothing else changes. */
  lemma SightedExactly(found: Found, local: Peer, p: Peer, addr: Multiaddr, q: Peer)
    requires FoundInv(found, local)
    ensures var t, all := Sighted(found, p, addr), AddrsOf(found, p) + [addr];
            && (q != p ==> (q in t <==> q in found) && AddrsOf(t, q) == AddrsOf(found, q))
            && (addr in AddrsOf(found, p) || (p !in found && |found| == 256) ==> t == found)
            && (addr !in AddrsOf(found, p) && (p in found || |found| < 256) ==>
                  p in t && t[p] == (if |all| <= 8 then all else all[1..]))
  {
  }

  lemma {:induction false} WithoutCuts(addrs: seq<Multiaddr>, addr: Multiaddr, k: nat)
    requires Distinct(addrs) && k < |addrs| && addrs[k] == addr
    ensures Without(addrs, addr) == addrs[..k] + addrs[k + 1..]
  {
    var front, last := addrs[..|addrs| - 1], addrs[|addrs| - 1];
    if k == |front| {
      WithoutNone(front, addr);
      assert addrs[k + 1..] == [] && addrs[..k] + [] == front;
    } else {
      WithoutCuts(front, addr, k);
      assert addrs[k + 1..] == front[k + 1..] + [last];
      assert front[..k] == addrs[..k];
    }
  }

  lemma {:induction false} WithoutNone(addrs: seq<Multiaddr>, addr: Multiaddr)
    requires addr !in addrs
    ensures Without(addrs, addr) == addrs
  {
    if addrs != [] {
      WithoutNone(addrs[..|addrs| - 1], addr);
      assert addrs == addrs[..|addrs| - 1] + [addrs[|addrs| - 1]];
    }
  }

  /** An expiry, exactly: the one address leaves its peer's list, the others keep their places; a peer goes with
      its last address; nothing else changes. */
  lemma ExpiredExactly(found: Found, local: Peer, p: Peer, addr: Multiaddr, q: Peer)
    requires FoundInv(found, local)
    ensures var t := Expired(found, p, addr);
            && (q in t <==> q in found && !(q == p && found[p] == [addr]))
            && (q != p ==> AddrsOf(t, q) == AddrsOf(found, q))
            && (addr !in AddrsOf(found, p) ==> t == found)
            && forall k :: 0 <= k < |AddrsOf(found, p)| && found[p][k] == addr ==> AddrsOf(t, p) == found[p][..k] + found[p][k + 1..]
  {
    hide Without;
    if p in found {
      WithoutIs(found[p], addr);
      if addr !in found[p] {
        WithoutNone(found[p], addr);
        assert found[p := found[p]] == found;
      } else {
        var k :| 0 <= k < |found[p]| && found[p][k] == addr;
        WithoutCuts(found[p], addr, k);
        assert Without(found[p], addr) == [] <==> found[p] == [addr];
      }
    }
  }

  /** Sighting `i` of a batch tells something new of `p` to the table as the ones before it left it. */
  predicate TellsOf(found: Found, local: Peer, seen: seq<(Peer, Multiaddr)>, i: nat, p: Peer)
    requires i < |seen|
  {
    seen[i].0 == p != local && IsNews(SightedAll(found, local, seen[..i]).0, p, seen[i].1)
  }

  /** A batch reports exactly the peers it told something new of, each once, in the order of their first. */
  lemma {:induction false} LearnedExactly(found: Found, local: Peer, seen: seq<(Peer, Multiaddr)>, p: Peer)
    ensures var learned := SightedAll(found, local, seen).1;
            && (p in learned <==> exists i :: 0 <= i < |seen| && TellsOf(found, local, seen, i, p))
            && (forall i, j :: 0 <= i < j < |learned| ==> learned[i] != learned[j])
    ensures seen != [] ==>
              var before, learned, q := SightedAll(found, local, seen[..|seen| - 1]).1, SightedAll(found, local, seen).1, seen[|seen| - 1].0;
              learned == (if q !in before && TellsOf(found, local, seen, |seen| - 1, q) then before + [q] else before)
  {
    hide IsNews, Sighted;
    if seen != [] {
      var n := |seen| - 1;
      var front := seen[..n];
      LearnedExactly(found, local, front, p);
      assert forall i :: 0 <= i < n ==> front[..i] == seen[..i] && front[i] == seen[i];
      forall i | 0 <= i < n ensures TellsOf(found, local, front, i, p) <==> TellsOf(found, local, seen, i, p) {}
      var learned := SightedAll(found, local, seen).1;
      if p in learned && !(exists i :: 0 <= i < n && TellsOf(found, local, front, i, p)) {
        assert TellsOf(found, local, seen, n, p);
      }
      if i :| 0 <= i < |seen| && TellsOf(found, local, seen, i, p) {
        if i < n { assert TellsOf(found, local, front, i, p); }
        assert p in learned;
      }
    }
  }

  lemma {:induction false} SightedAllKeepsInv(found: Found, local: Peer, seen: seq<(Peer, Multiaddr)>)
    requires FoundInv(found, local)
    ensures FoundInv(SightedAll(found, local, seen).0, local)
  {
    hide FoundInv, Sighted, IsNews;
    if seen != [] {
      SightedAllKeepsInv(found, local, seen[..|seen| - 1]);
      var (p, addr) := seen[|seen| - 1];
      if p != local { SightedKeepsInv(SightedAll(found, local, seen[..|seen| - 1]).0, local, p, addr); }
    }
  }

  lemma {:induction false} ExpiredAllKeepsInv(found: Found, local: Peer, gone: seq<(Peer, Multiaddr)>)
    requires FoundInv(found, local)
    ensures FoundInv(ExpiredAll(found, gone), local)
  {
    hide FoundInv, Expired;
    if gone != [] {
      var front := gone[..|gone| - 1];
      ExpiredAllKeepsInv(found, local, front);
      ExpiredKeepsInv(ExpiredAll(found, front), local, gone[|gone| - 1].0, gone[|gone| - 1].1);
    }
  }

  /** After any events, from any configured list: the re-dial list holds at most 64 addresses; the found
      table at most 256 peers, never ourselves, each with 1 to 8 distinct addresses. */
  lemma {:induction false} RunsStayBounded(configured: seq<Multiaddr>, local: Peer, events: seq<Event>)
    ensures |Run(configured, local, events).bootstrap| <= MAX_BOOTSTRAP
    ensures FoundInv(Run(configured, local, events).discovered, local)
  {
    hide SightedAll, ExpiredAll;
    if events != [] {
      var front, e := events[..|events| - 1], events[|events| - 1];
      RunsStayBounded(configured, local, front);
      if e.Discovered? { SightedAllKeepsInv(Run(configured, local, front).discovered, local, e.seen); }
      if e.Gone? { ExpiredAllKeepsInv(Run(configured, local, front).discovered, local, e.records); }
    }
  }

  // ---- what the re-dial list keeps ----

  predicate AllNew(list: seq<Multiaddr>, addrs: seq<Multiaddr>) {
    Distinct(addrs) && forall a :: a in addrs ==> a !in list
  }

  function Window(addrs: seq<Multiaddr>): seq<Multiaddr> {
    if |addrs| <= MAX_BOOTSTRAP then addrs else addrs[|addrs| - MAX_BOOTSTRAP..]
  }

  /** Requests for addresses not yet listed slide a window: the list is the newest 64 of all of them. */
  lemma {:induction false} RequestsSlide(list: seq<Multiaddr>, addrs: seq<Multiaddr>)
    requires |list| <= MAX_BOOTSTRAP && AllNew(list, addrs)
    ensures RememberedAll(list, addrs) == Window(list + addrs)
  {
    hide Remembered, Window;
    if addrs == [] {
      WindowOfFew(list);
      assert list + addrs == list;
    } else {
      var front, last := addrs[..|addrs| - 1], addrs[|addrs| - 1];
      RequestsSlide(list, front);
      assert list + addrs == (list + front) + [last];
      WindowSlides(list + front, last);
    }
  }

  lemma WindowOfFew(list: seq<Multiaddr>)
    requires |list| <= MAX_BOOTSTRAP
    ensures Window(list) == list
  {
  }

  lemma WindowSlides(all: seq<Multiaddr>, addr: Multiaddr)
    requires addr !in all
    ensures Remembered(Window(all), addr) == Window(all + [addr])
  {
    assert addr !in Window(all);
  }

  /** Of some requests, in order, those that name an address not listed when they come. */
  function Inserted(list: seq<Multiaddr>, addrs: seq<Multiaddr>): seq<Multiaddr> {
    if addrs == [] then []
    else
      var front, last := addrs[..|addrs| - 1], addrs[|addrs| - 1];
      if last in RememberedAll(list, front) then Inserted(list, front) else Inserted(list, front) + [last]
  }

  /** What insertions past the room that was left have pushed out. */
  function PushedOut(list: seq<Multiaddr>, addrs: seq<Multiaddr>): nat {
    var n := |list| + |Inserted(list, addrs)|;
    if n <= MAX_BOOTSTRAP then 0 else n - MAX_BOOTSTRAP
  }

  /** From any list, repeats included, and under any requests: the list is what it was, followed by what was
      inserted, less what is pushed out in front. Asking again for a listed address does nothing. */
  lemma {:induction false} Standing(list: seq<Multiaddr>, addrs: seq<Multiaddr>)
    requires |list| <= MAX_BOOTSTRAP
    ensures RememberedAll(list, addrs) == Window(list + Inserted(list, addrs))
    ensures RememberedAll(list, addrs) == (list + Inserted(list, addrs))[PushedOut(list, addrs)..]
  {
    hide Remembered;
    if addrs == [] {
      assert list + Inserted(list, addrs) == list;
    } else {
      var front, last := addrs[..|addrs| - 1], addrs[|addrs| - 1];
      Standing(list, front);
      var all := list + Inserted(list, front);
      if last in RememberedAll(list, front) {
        RememberedListed(RememberedAll(list, front), last);
      } else {
        SlidesBy(all, last);
        assert list + Inserted(list, addrs) == all + [last];
      }
    }
  }

  lemma RememberedListed(list: seq<Multiaddr>, addr: Multiaddr)
    requires addr in list
    ensures Remembered(list, addr) == list
  {
  }

  lemma SlidesBy(all: seq<Multiaddr>, addr: Multiaddr)
    requires addr !in Window(all)
    ensures Remembered(Window(all), addr) == Window(all + [addr])
  {
  }

  lemma {:induction false} InsertedGrows(list: seq<Multiaddr>, addrs: seq<Multiaddr>, k: nat)
    requires k <= |addrs|
    ensures |Inserted(list, addrs[..k])| <= |Inserted(list, addrs)|
    decreases |addrs|
  {
    if k < |addrs| {
      InsertedGrows(list, addrs[..|addrs| - 1], k);
      assert addrs[..|addrs| - 1][..k] == addrs[..k];
    } else {
      assert addrs[..k] == addrs;
    }
  }

  /** While an address has not been pushed out it is not inserted again. */
  lemma {:induction false} NotInsertedAgain(list: seq<Multiaddr>, i: nat, addrs: seq<Multiaddr>)
    requires |list| <= MAX_BOOTSTRAP && i < |list| && PushedOut(list, addrs) <= i + 1
    ensures list[i] !in Inserted(list, addrs)
  {
    if addrs != [] {
      var front, last := addrs[..|addrs| - 1], addrs[|addrs| - 1];
      NotInsertedAgain(list, i, front);
      if last !in RememberedAll(list, front) {
        StillThere(list, i, front);
      }
    }
  }

  lemma StillThere(list: seq<Multiaddr>, i: nat, addrs: seq<Multiaddr>)
    requires |list| <= MAX_BOOTSTRAP && i < |list| && PushedOut(list, addrs) <= i
    ensures i - PushedOut(list, addrs) < |RememberedAll(list, addrs)|
    ensures RememberedAll(list, addrs)[i - PushedOut(list, addrs)] == list[i]
  {
    Standing(list, addrs);
  }

  lemma {:induction false} PushedOutAt(list: seq<Multiaddr>, i: nat, addrs: seq<Multiaddr>) returns (k: nat)
    requires |list| <= MAX_BOOTSTRAP && i < |list| && list[i] !in list[i + 1..] && PushedOut(list, addrs) > i
    ensures k <= |addrs| && list[i] !in RememberedAll(list, addrs[..k])
    decreases |addrs|
  {
    if addrs == [] { assert false; }
    var front := addrs[..|addrs| - 1];
    if PushedOut(list, front) > i {
      k := PushedOutAt(list, i, front);
      assert front[..k] == addrs[..k];
    } else {
      k := |addrs|;
      assert addrs[..k] == addrs;
      Standing(list, addrs);
      NotInsertedAgain(list, i, addrs);
      assert (list + Inserted(list, addrs))[i + 1..] == list[i + 1..] + Inserted(list, addrs);
    }
  }

  /** From any list and under any requests at all, an address listed at `i` and not after stays listed
      throughout if and only if no more is pushed out than stood before it. */
  lemma ListedSurvivesExactly(list: seq<Multiaddr>, i: nat, addrs: seq<Multiaddr>)
    requires |list| <= MAX_BOOTSTRAP && i < |list| && list[i] !in list[i + 1..]
    ensures (forall k :: 0 <= k <= |addrs| ==> list[i] in RememberedAll(list, addrs[..k])) <==> PushedOut(list, addrs) <= i
  {
    if PushedOut(list, addrs) <= i {
      forall k | 0 <= k <= |addrs| ensures list[i] in RememberedAll(list, addrs[..k]) {
        InsertedGrows(list, addrs, k);
        StillThere(list, i, addrs[..k]);
      }
    } else {
      var k := PushedOutAt(list, i, addrs);
    }
  }

  /** An address newly listed is re-dialed until 64 more have been inserted. */
  lemma RequestedIsKept(list: seq<Multiaddr>, addr: Multiaddr, addrs: seq<Multiaddr>)
    requires |list| <= MAX_BOOTSTRAP && addr !in list
    requires |Inserted(Remembered(list, addr), addrs)| < MAX_BOOTSTRAP
    ensures addr in RememberedAll(Remembered(list, addr), addrs)
  {
    var now := Remembered(list, addr);
    assert now[|now| - 1] == addr;
    StillThere(now, |now| - 1, addrs);
  }

  /** But one dialed again keeps its old place: asked for late, the first of a full list is gone with the next
      new address. */
  lemma AskedAgainIsDropped(list: seq<Multiaddr>, addr: Multiaddr)
    requires |list| == MAX_BOOTSTRAP && list[0] !in list[1..] && addr !in list
    ensures RememberedAll(list, [list[0]]) == list && list[0] !in RememberedAll(list, [list[0], addr])
  {
    var first, both := [list[0]], [list[0], addr];
    assert first[..0] == [] && both[..1] == first;
    assert RememberedAll(list, first) == Remembered(RememberedAll(list, []), list[0]);
  }

  function LastRequest(events: seq<Event>): Option<Multiaddr> {
    if events == [] then None
    else
      match events[|events| - 1]
      case Requested(addr) => Some(addr)
      case _ => LastRequest(events[..|events| - 1])
  }

  /** In every run the newest request is listed. */
  lemma {:induction false} NewestRequestListed(configured: seq<Multiaddr>, local: Peer, events: seq<Event>)
    requires LastRequest(events).Some?
    ensures LastRequest(events).value in Run(configured, local, events).bootstrap
  {
    hide SightedAll, ExpiredAll;
    var front, e := events[..|events| - 1], events[|events| - 1];
    if e.Requested? {
      var before := Run(configured, local, front).bootstrap;
      assert e.addr !in before ==> Remembered(before, e.addr)[|Remembered(before, e.addr)| - 1] == e.addr;
    } else {
      NewestRequestListed(configured, local, front);
    }
  }

  // ---- what a tick dials ----

  /** An address is due while the peer it names is not connected; without one, while nobody is admitted. */
  predicate IsDue(addr: Multiaddr, connected: set<Peer>, anyAdmitted: bool) {
    match addr.peer
    case Some(p) => p !in connected
    case None => !anyAdmitted
  }

  function Due(list: seq<Multiaddr>, connected: set<Peer>, anyAdmitted: bool): seq<Multiaddr> {
    if list == [] then []
    else if IsDue(list[0], connected, anyAdmitted) then [list[0]] + Due(list[1..], connected, anyAdmitted)
    else Due(list[1..], connected, anyAdmitted)
  }

  function RedialTargets(list: seq<Multiaddr>, connected: set<Peer>, anyAdmitted: bool): seq<Multiaddr> {
    Truncated(Due(list, connected, anyAdmitted), MAX_REDIAL_PER_TICK)
  }

  lemma {:induction false} DueAre(list: seq<Multiaddr>, connected: set<Peer>, anyAdmitted: bool)
    ensures forall a :: a in Due(list, connected, anyAdmitted) <==> a in list && IsDue(a, connected, anyAdmitted)
    ensures |Due(list, connected, anyAdmitted)| <= |list|
  {
    if list != [] { DueAre(list[1..], connected, anyAdmitted); }
  }

  /** What is due is read off the list address by address, in its order. */
  lemma {:induction false} DueAppends(list: seq<Multiaddr>, more: seq<Multiaddr>, connected: set<Peer>, anyAdmitted: bool)
    ensures Due(list + more, connected, anyAdmitted) == Due(list, connected, anyAdmitted) + Due(more, connected, anyAdmitted)
  {
    hide IsDue;
    if list == [] {
      assert list + more == more;
    } else {
      assert (list + more)[1..] == list[1..] + more;
      DueAppends(list[1..], more, connected, anyAdmitted);
    }
  }

  lemma {:induction false} DueCut(list: seq<Multiaddr>, n: nat, connected: set<Peer>, anyAdmitted: bool) returns (k: nat)
    requires n <= |Due(list, connected, anyAdmitted)|
    ensures k <= |list| && Due(list[..k], connected, anyAdmitted) == Due(list, connected, anyAdmitted)[..n]
  {
    hide IsDue;
    if n == |Due(list, connected, anyAdmitted)| {
      k := |list|;
      assert list[..k] == list;
    } else {
      var front := list[..|list| - 1];
      var last := list[|list| - 1..];
      assert list == front + last;
      DueAppends(front, last, connected, anyAdmitted);
      assert last[1..] == [];
      k := DueCut(front, n, connected, anyAdmitted);
      assert front[..k] == list[..k];
    }
  }

  /** And in order: a tick's re-dials are all that is due of some beginning of the list, each as often and in
      the order it stands there, the whole list if 16 are not reached. */
  lemma RedialsInOrder(list: seq<Multiaddr>, connected: set<Peer>, anyAdmitted: bool) returns (k: nat)
    ensures k <= |list| && RedialTargets(list, connected, anyAdmitted) == Due(list[..k], connected, anyAdmitted)
    ensures |RedialTargets(list, connected, anyAdmitted)| < MAX_REDIAL_PER_TICK ==>
              RedialTargets(list, connected, anyAdmitted) == Due(list, connected, anyAdmitted)
  {
    var due := Due(list, connected, anyAdmitted);
    var n := if |due| <= MAX_REDIAL_PER_TICK then |due| else MAX_REDIAL_PER_TICK;
    assert due[..|due|] == due;
    k := DueCut(list, n, connected, anyAdmitted);
  }

  /** A tick re-dials only listed addresses, at most 16, and all of them when there are no more, whose peer is
      not connected, or that name no peer while nobody is admitted. */
  lemma RedialsWhatIsDue(list: seq<Multiaddr>, connected: set<Peer>, anyAdmitted: bool)
    ensures var r := RedialTargets(list, connected, anyAdmitted);
            && |r| <= MAX_REDIAL_PER_TICK
            && (forall a :: a in r ==> a in list && (if a.peer.Some? then a.peer.value !in connected else !anyAdmitted))
            && (|r| < MAX_REDIAL_PER_TICK ==>
                  forall a :: a in list && (if a.peer.Some? then a.peer.value !in connected else !anyAdmitted) ==> a in r)
  {
    var due, r := Due(list, connected, anyAdmitted), RedialTargets(list, connected, anyAdmitted);
    forall a | a in r ensures a in due { var i :| 0 <= i < |r| && r[i] == a; assert due[i] == a; }
    DueAre(list, connected, anyAdmitted);
  }

  /** The found peers worth a dial: authorized by the group and not connected. */
  function DuePeers(found: Found, connected: set<Peer>, net: Resolver, authorized: set<string>): set<Peer> {
    set p | p in found && p !in connected && net(p).Some? && net(p).value in authorized
  }

  function Least(s: set<Peer>): (m: Peer)
    requires s != {}
    ensures m in s && forall p :: p in s ==> m <= p
  {
    var x :| x in s;
    LeastExists(s, x);
    var m :| m in s && forall p :: p in s ==> m <= p;
    m
  }

  lemma {:induction false} LeastExists(s: set<Peer>, x: Peer)
    requires x in s
    ensures exists m :: m in s && forall p :: p in s ==> m <= p
    decreases x
  {
    if y :| y in s && y < x {
      LeastExists(s, y);
    }
  }

  /** The peers in order, at most `n` of them. */
  function LeastOf(s: set<Peer>, n: nat): seq<Peer>
    decreases n
  {
    if s == {} || n == 0 then [] else [Least(s)] + LeastOf(s - {Least(s)}, n - 1)
  }

  function DiscoveryTargets(found: Found, connected: set<Peer>, net: Resolver, authorized: set<string>): seq<(Peer, seq<Multiaddr>)> {
    var peers := LeastOf(DuePeers(found, connected, net, authorized), MAX_REDIAL_PER_TICK);
    seq(|peers|, i requires 0 <= i < |peers| => (peers[i], AddrsOf(found, peers[i])))
  }

  predicate Increasing(s: seq<Peer>) { forall i, j :: 0 <= i < j < |s| ==> s[i] < s[j] }

  /** `r` lists the `n` least of `s`, in order. */
  ghost predicate ListsLeast(r: seq<Peer>, s: set<Peer>, n: nat) {
    && Increasing(r) && (forall p :: p in r ==> p in s)
    && |r| == (if |s| < n then |s| else n)
    && (forall p, q :: p in r && q in s && q !in r ==> p < q)
  }

  lemma ListsLeastCons(m: Peer, rest: seq<Peer>, s: set<Peer>, n: nat)
    requires m in s && (forall p :: p in s ==> m <= p) && n > 0 && ListsLeast(rest, s - {m}, n - 1)
    ensures ListsLeast([m] + rest, s, n)
  {
    var r := [m] + rest;
    forall j | 0 <= j < |rest| ensures m < rest[j] { assert rest[j] in rest; }
    assert forall p :: p in r <==> p == m || p in rest;
  }

  lemma {:induction false} LeastOfIs(s: set<Peer>, n: nat)
    ensures ListsLeast(LeastOf(s, n), s, n)
    decreases n
  {
    hide ListsLeast;
    if s != {} && n != 0 {
      LeastOfIs(s - {Least(s)}, n - 1);
      ListsLeastCons(Least(s), LeastOf(s - {Least(s)}, n - 1), s, n);
    } else {
      NoneListed(s, n);
    }
  }

  lemma NoneListed(s: set<Peer>, n: nat)
    requires s == {} || n == 0
    ensures ListsLeast([], s, n)
  {
  }

  /** A tick dials found peers in increasing order, with the addresses known for them: all the authorized
      unconnected ones, or the 16 least. */
  lemma DialsTheLeast(found: Found, connected: set<Peer>, net: Resolver, authorized: set<string>, q: Peer)
    ensures var r, due := DiscoveryTargets(found, connected, net, authorized), DuePeers(found, connected, net, authorized);
            && |r| == (if |due| < MAX_REDIAL_PER_TICK then |due| else MAX_REDIAL_PER_TICK)
            && (q in due <==> q in found && q !in connected && exists a :: net(q) == Some(a) && a in authorized)
            && (forall i :: 0 <= i < |r| ==> r[i].0 in due && r[i].1 == found[r[i].0])
            && (forall i, j :: 0 <= i < j < |r| ==> r[i].0 < r[j].0)
            && (q in due ==> (exists i :: 0 <= i < |r| && r[i].0 == q) || (forall i :: 0 <= i < |r| ==> r[i].0 < q))
  {
    hide DuePeers, LeastOf;
    var due := DuePeers(found, connected, net, authorized);
    DueAreFound(found, connected, net, authorized, q);
    LeastOfIs(due, MAX_REDIAL_PER_TICK);
    var peers, r := LeastOf(due, MAX_REDIAL_PER_TICK), DiscoveryTargets(found, connected, net, authorized);
    forall i | 0 <= i < |r| ensures r[i].0 in due && r[i].0 in peers { assert peers[i] in peers; }
    if q in peers {
      var k :| 0 <= k < |peers| && peers[k] == q;
      assert r[k].0 == q;
    }
  }

  lemma DueAreFound(found: Found, connected: set<Peer>, net: Resolver, authorized: set<string>, q: Peer)
    ensures DuePeers(found, connected, net, authorized) <= found.Keys
    ensures q in DuePeers(found, connected, net, authorized)
            <==> q in found && q !in connected && exists a :: net(q) == Some(a) && a in authorized
  {
  }
}
