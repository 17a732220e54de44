/** The admission core (`cluster-core/src/lib.rs`): the role-gated allowed set, the membership state
    machine, and the session that binds it to a transport (`cluster-daemon/src/transport.rs`). */
module Membership {
  import opened Wrappers
  import opened Addresses
  import opened EffectiveRoster
  import Lex

  // ---- the role gate ----

  function AllowedSet(roster: Roster): set<string> {
    if roster == [] then {}
    else
      var rest := AllowedSet(roster[..|roster| - 1]);
      var e := roster[|roster| - 1];
      if RoleRank(e.1) >= MIN_CLUSTER_RANK && CanonicalAddress(e.0).Some? then rest + {CanonicalAddress(e.0).value}
      else rest
  }

  /** Some roster line names `a` at a role of at least Member. */
  predicate ListedAtRank(roster: Roster, a: string) {
    exists i :: 0 <= i < |roster| && CanonicalAddress(roster[i].0) == Some(a) && RoleRank(roster[i].1) >= MIN_CLUSTER_RANK
  }

  lemma {:induction false} AllowedSetGates(roster: Roster, a: string)
    ensures a in AllowedSet(roster) <==> ListedAtRank(roster, a)
  {
    if roster != [] {
      var front := roster[..|roster| - 1];
      AllowedSetGates(front, a);
      assert forall i :: 0 <= i < |front| ==> front[i] == roster[i];
      if ListedAtRank(roster, a) && !ListedAtRank(front, a) {
        var i :| 0 <= i < |roster| && CanonicalAddress(roster[i].0) == Some(a) && RoleRank(roster[i].1) >= MIN_CLUSTER_RANK;
        assert i == |front|;
      }
      if ListedAtRank(front, a) {
        var i :| 0 <= i < |front| && CanonicalAddress(front[i].0) == Some(a) && RoleRank(front[i].1) >= MIN_CLUSTER_RANK;
        assert CanonicalAddress(roster[i].0) == Some(a);
      }
    }
  }

  method GateRoster(roster: Roster) returns (allowed: set<string>)
    ensures allowed == AllowedSet(roster)
  {
    allowed := {};
    for i := 0 to |roster|
      invariant allowed == AllowedSet(roster[..i])
    {
      assert roster[..i + 1][..i] == roster[..i];
      if RoleRank(roster[i].1) >= MIN_CLUSTER_RANK {
        match CanonicalAddress(roster[i].0) {
          case Some(a) => allowed := allowed + {a};
          case None =>
        }
      }
    }
    assert roster[..|roster|] == roster;
  }

  // ---- membership ----

  datatype Members = Members(allowed: set<string>, admitted: set<string>)

  function Joins(m: Members, address: string, role: string): bool {
    && RoleRank(role) >= MIN_CLUSTER_RANK
    && CanonicalAddress(address).Some? && CanonicalAddress(address).value in m.allowed
  }

  /** The addresses a raw address stands for: itself in canonical form, or none. */
  function Named(address: string): set<string> {
    match CanonicalAddress(address) case Some(a) => {a} case None => {}
  }

  class ClusterMembership {
    var allowed: set<string>
    var admitted: set<string>

    ghost function Value(): Members
      reads this
    {
      Members(allowed, admitted)
    }

    /** Opened over an empty roster, as every daemon session is: nobody allowed, nobody admitted. */
    constructor ()
      ensures Value() == Members({}, {})
    {
      allowed := {};
      admitted := {};
    }

    method Join(address: string, role: string) returns (ok: bool)
      modifies this`admitted
      ensures ok == Joins(old(Value()), address, role)
      ensures admitted == old(admitted) + (if ok then Named(address) else {})
    {
      if RoleRank(role) < MIN_CLUSTER_RANK {
        return false;
      }
      match CanonicalAddress(address) {
        case Some(a) =>
          if a in allowed {
            admitted := admitted + {a};
            return true;
          }
        case None =>
      }
      return false;
    }

    method Leave(address: string)
      modifies this`admitted
      ensures admitted == old(admitted) - Named(address)
    {
      match CanonicalAddress(address) {
        case Some(a) => admitted := admitted - {a};
        case None =>
      }
    }

    /** Recompute the allowed set and evict in the same step; the evicted come back in order. */
    method Reconcile(roster: Roster) returns (evicted: seq<string>)
      modifies this
      ensures allowed == AllowedSet(roster)
      ensures admitted == old(admitted) * allowed
      ensures evicted == Lex.Sorted(old(admitted) - allowed)
    {
      allowed := GateRoster(roster);
      evicted := Lex.Sorted(admitted - allowed);
      Lex.ElementsOfSorted(admitted - allowed);
      for i := 0 to |evicted|
        invariant allowed == AllowedSet(roster)
        invariant admitted == old(admitted) - Lex.Elements(evicted[..i])
      {
        assert evicted[..i + 1][..i] == evicted[..i];
        admitted := admitted - {evicted[i]};
      }
      assert evicted[..|evicted|] == evicted;
    }

    method SyncAdmitted(candidates: set<string>)
      modifies this`admitted
      ensures admitted == candidates * allowed
    {
      admitted := set a | a in candidates && a in allowed;
    }
  }
}
