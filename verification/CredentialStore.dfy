// The credential table and its operations (credential.go, launcher_credential.go,
// credential_rotation.go), updated in place; the protocol they take part in is
// module Rotation.
module CredentialStore {
  import opened Policy
  import opened Rotation

  datatype Preparation = Ready(id: nat, expected: nat) | NotFound | AlreadyRevoked

  datatype Removal = Removed(id: nat) | NothingThere | Failed

  class Store {
    var creds: map<nat, Cred>

    /** At most one active credential per Principal and name, one per Launcher. */
    ghost predicate Unique()
      reads this
    {
      ActiveUnique(State(creds, map[], {}, map[], None))
    }

    constructor ()
      ensures creds == map[] && Unique()
    {
      creds := map[];
    }

    /** preparePrincipalCredentialRotation: the one active credential of that name. */
    method PreparePrincipal(principal: int, name: string) returns (r: Preparation)
      requires Unique()
      ensures r.Ready? <==> exists c | c in creds :: creds[c].owner == OfPrincipal(principal, name) && !creds[c].revoked
      ensures r.Ready? ==> r.id in creds && creds[r.id] == Cred(OfPrincipal(principal, name), r.expected, false)
      ensures r.Ready? ==>
              forall c | c in creds && creds[c].owner == OfPrincipal(principal, name) && !creds[c].revoked :: c == r.id
      ensures r.NotFound? <==> forall c | c in creds :: creds[c].owner != OfPrincipal(principal, name)
    {
      var owner := OfPrincipal(principal, name);
      if exists c | c in creds :: creds[c].owner == owner && !creds[c].revoked {
        var c :| c in creds && creds[c].owner == owner && !creds[c].revoked;
        return Ready(c, creds[c].hash);
      }
      return if exists c | c in creds :: creds[c].owner == owner then AlreadyRevoked else NotFound;
    }

    /** prepareLauncherCredentialRotation, optionally for one exact credential ID. */
    method PrepareLauncher(launcher: string, exact: Option<nat>) returns (r: Preparation)
      requires Unique()
      ensures !r.AlreadyRevoked?
      ensures r.Ready? <==>
              exists c | c in creds :: creds[c].owner == OfLauncher(launcher) && (exact.Some? ==> c == exact.value)
      ensures r.Ready? ==> r.id in creds && creds[r.id].owner == OfLauncher(launcher) && creds[r.id].hash == r.expected
      ensures r.Ready? ==> forall c | c in creds && creds[c].owner == OfLauncher(launcher) :: c == r.id
    {
      var owner := OfLauncher(launcher);
      if exists c | c in creds :: creds[c].owner == owner && (exact.Some? ==> c == exact.value) {
        var c :| c in creds && creds[c].owner == owner && (exact.Some? ==> c == exact.value);
        return Ready(c, creds[c].hash);
      }
      return NotFound;
    }

    /** The compare-and-swap UPDATE inside a transaction: zero rows is a conflict. */
    method Replace(x: Attempt) returns (replaced: bool)
      modifies this
      ensures replaced <==> Matches(old(creds), x)
      ensures creds == if replaced then old(creds)[x.cred := Cred(x.owner, x.replacement, false)] else old(creds)
    {
      if x.cred !in creds || creds[x.cred].owner != x.owner || creds[x.cred].revoked ||
          creds[x.cred].hash != x.expected {
        return false;
      }
      creds := creds[x.cred := creds[x.cred].(hash := x.replacement)];
      return true;
    }

    /** commitCredentialRotationAfterDelivery: the response goes out inside the
        transaction, and one commit attempt follows; every other end rolls back. */
    method CommitAfterDelivery(x: Attempt, begun: bool, delivered: bool, commit: CommitOutcome)
        returns (verdict: Verdict)
      requires Unique()
      modifies this
      ensures verdict == VerdictOf(begun, Matches(old(creds), x), delivered, commit)
      ensures creds == if verdict == Rotated || (verdict == CommitUnknown && commit == LostReply)
                       then old(creds)[x.cred := Cred(x.owner, x.replacement, false)] else old(creds)
      ensures Unique()
    {
      if !begun { return NotBegun; }
      var saved := creds;
      var replaced := Replace(x);
      if !replaced { return Conflict; }
      if !delivered {
        creds := saved;
        return DeliveryFailed;
      }
      if commit == NotCommitted { creds := saved; }
      return if commit == Committed then Rotated else CommitUnknown;
    }

    /** revokePrincipalCredential: once only, and never a Launcher's. */
    method Revoke(id: nat) returns (r: Option<bool>)
      requires Unique()
      modifies this
      ensures r.None? <==> !(id in old(creds) && old(creds)[id].owner.OfPrincipal?)
      ensures r == Some(true) <==> id in old(creds) && old(creds)[id].owner.OfPrincipal? && !old(creds)[id].revoked
      ensures creds == if r == Some(true) then old(creds)[id := old(creds)[id].(revoked := true)] else old(creds)
      ensures Unique()
    {
      if id in creds && !creds[id].revoked && creds[id].owner.OfPrincipal? {
        creds := creds[id := creds[id].(revoked := true)];
        return Some(true);
      }
      if !(id in creds && creds[id].owner.OfPrincipal?) { return None; }
      return Some(false);
    }

    /** issueLauncherCredentialInTx: the unique index refuses a second one. */
    method IssueLauncher(id: nat, launcher: string, hash: nat, commits: bool) returns (issued: bool)
      requires Unique() && id !in creds
      modifies this
      ensures issued <==> commits && forall c | c in old(creds) :: old(creds)[c].owner != OfLauncher(launcher)
      ensures creds == if issued then old(creds)[id := Cred(OfLauncher(launcher), hash, false)] else old(creds)
      ensures Unique()
    {
      if exists c | c in creds :: creds[c].owner == OfLauncher(launcher) { return false; }
      if !commits { return false; }
      creds := creds[id := Cred(OfLauncher(launcher), hash, false)];
      return true;
    }

    /** deleteLauncherCredential: a physical delete that names what it deleted. */
    method DeleteLauncherCredential(launcher: string, commits: bool) returns (r: Removal)
      requires Unique()
      modifies this
      ensures r.NothingThere? <==> forall c | c in old(creds) :: old(creds)[c].owner != OfLauncher(launcher)
      ensures r.Removed? ==> r.id in old(creds) && old(creds)[r.id].owner == OfLauncher(launcher)
      ensures creds == if r.Removed? then old(creds) - {r.id} else old(creds)
      ensures r.Removed? ==> forall c | c in creds :: creds[c].owner != OfLauncher(launcher)
      ensures Unique()
    {
      if !(exists c | c in creds :: creds[c].owner == OfLauncher(launcher)) { return NothingThere; }
      var c :| c in creds && creds[c].owner == OfLauncher(launcher);
      if !commits { return Failed; }
      creds := creds - {c};
      return Removed(c);
    }
  }

  /** How one delivery transaction ends; `owned`: the compare-and-swap finds its row. */
  function VerdictOf(begun: bool, owned: bool, delivered: bool, commit: CommitOutcome): Verdict {
    if !begun then NotBegun else if !owned then Conflict else if !delivered then DeliveryFailed
    else if commit == Committed then Rotated else CommitUnknown
  }

  /** The protocol steps of one undisturbed transaction. */
  function Steps(a: nat, begun: bool, owned: bool, delivered: bool, commit: CommitOutcome): seq<Event> {
    if !begun then [Enter(a, false)]
    else if !owned then [Enter(a, true), Event.Replace(a)]
    else if !delivered then [Enter(a, true), Event.Replace(a), Deliver(a, false)]
    else [Enter(a, true), Event.Replace(a), Deliver(a, true), Commit(a, commit)]
  }

  /** One run of CommitAfterDelivery is the protocol's steps for that attempt in a row:
      the same verdict and the same table, as that method states them. */
  lemma TransactionRefinesProtocol(s: State, a: nat, begun: bool, delivered: bool, commit: CommitOutcome)
      returns (t: State)
    requires Coherent(s) && At(s, a, Prepared) && s.holder.None?
    ensures var x := s.attempts[a];
            var verdict := VerdictOf(begun, Matches(s.creds, x), delivered, commit);
            && Runs(s, Steps(a, begun, Matches(s.creds, x), delivered, commit), t)
            && At(t, a, Done(verdict)) && t.holder.None?
            && t.creds == if verdict == Rotated || (verdict == CommitUnknown && commit == LostReply)
                          then s.creds[x.cred := Cred(x.owner, x.replacement, false)] else s.creds
  {
    hide Coherent, Runs;
    var owned := Matches(s.creds, s.attempts[a]);
    t := Next(s, Enter(a, begun));
    StepKeeps(s, Enter(a, begun));
    if !begun {
      RunOne(s, Enter(a, false), Steps(a, begun, owned, delivered, commit));
      return;
    }
    var s1 := t;
    t := Next(s1, Event.Replace(a));
    StepKeeps(s1, Event.Replace(a));
    RunOne(s1, Event.Replace(a), [Event.Replace(a)]);
    if !owned {
      RunMore(s, Enter(a, true), [Event.Replace(a)], t, Steps(a, begun, owned, delivered, commit));
      return;
    }
    var s2 := t;
    t := Next(s2, Deliver(a, delivered));
    StepKeeps(s2, Deliver(a, delivered));
    RunOne(s2, Deliver(a, delivered), [Deliver(a, delivered)]);
    if !delivered {
      RunMore(s1, Event.Replace(a), [Deliver(a, false)], t, [Event.Replace(a), Deliver(a, false)]);
      RunMore(s, Enter(a, true), [Event.Replace(a), Deliver(a, false)], t, Steps(a, begun, owned, delivered, commit));
      return;
    }
    var s3 := t;
    t := Next(s3, Commit(a, commit));
    RunOne(s3, Commit(a, commit), [Commit(a, commit)]);
    RunMore(s2, Deliver(a, true), [Commit(a, commit)], t, [Deliver(a, true), Commit(a, commit)]);
    RunMore(s1, Event.Replace(a), [Deliver(a, true), Commit(a, commit)], t,
        [Event.Replace(a), Deliver(a, true), Commit(a, commit)]);
    RunMore(s, Enter(a, true), [Event.Replace(a), Deliver(a, true), Commit(a, commit)], t,
        Steps(a, begun, owned, delivered, commit));
  }

  lemma RunOne(s: State, e: Event, run: seq<Event>)
    requires Coherent(s) && CanHappen(s, e) && |run| == 1 && run[0] == e
    ensures Runs(s, run, Next(s, e))
  {
    hide Coherent, CanHappen, Next;
    assert run[1..] == [];
    assert Runs(Next(s, e), [], Next(s, e));
  }

  lemma RunMore(s: State, e: Event, rest: seq<Event>, t: State, run: seq<Event>)
    requires Coherent(s) && CanHappen(s, e) && Runs(Next(s, e), rest, t)
    requires |run| == |rest| + 1 && run[0] == e && forall i | 0 <= i < |rest| :: run[i + 1] == rest[i]
    ensures Runs(s, run, t)
  {
    hide Coherent, CanHappen, Next;
    assert run[1..] == rest;
  }
}
