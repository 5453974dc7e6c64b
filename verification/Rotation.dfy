// Bearer rotation of stored credentials as a protocol (credential_rotation.go,
// credential.go, launcher_credential.go): any number of rotations prepare at
// any time; one at a time replaces, delivers and commits; credentials are
// issued, revoked and deleted in between. Hashes are abstract and fresh.
module Rotation {
  import opened Policy

  datatype Owner = OfPrincipal(principal: int, name: string) | OfLauncher(launcher: string)

  datatype Cred = Cred(owner: Owner, hash: nat, revoked: bool)

  datatype Verdict = Rotated | Conflict | NotBegun | DeliveryFailed | CommitUnknown

  datatype Stage = Prepared | Entered | Tentative | Delivered | Done(verdict: Verdict)

  /** One rotation: the credential, its owner and the hash it prepared against, and its replacement hash. */
  datatype Attempt = Attempt(cred: nat, owner: Owner, expected: nat, replacement: nat, stage: Stage)

  datatype State = State(
    creds: map<nat, Cred>,
    chains: map<nat, seq<nat>>,      // every hash a credential has had, in order
    minted: set<nat>,
    attempts: map<nat, Attempt>,
    holder: Option<nat>)             // credentialRotationMu

  datatype CommitOutcome = Committed | LostReply | NotCommitted

  datatype Event =
    | Issue(id: nat, owner: Owner, hash: nat)
    | Revoke(id: nat)
    | Delete(id: nat)
    | Prepare(attempt: nat, id: nat, hash: nat)
    | Enter(attempt: nat, begun: bool)
    | Replace(attempt: nat)
    | Deliver(attempt: nat, ok: bool)
    | Commit(attempt: nat, outcome: CommitOutcome)

  /** A transaction with a tentative update holds the database's only write lock. */
  ghost predicate WriteLocked(s: State) {
    exists a | a in s.attempts :: s.attempts[a].stage.Tentative? || s.attempts[a].stage.Delivered?
  }

  /** The unique indexes: one active credential per Principal and name, one per Launcher. */
  ghost predicate Conflicts(s: State, owner: Owner) {
    exists c | c in s.creds :: s.creds[c].owner == owner && (owner.OfPrincipal? ==> !s.creds[c].revoked)
  }

  /** What preparation resolves: an active Principal credential, or the Launcher's single one. */
  predicate Resolvable(s: State, id: nat) {
    id in s.creds && (s.creds[id].owner.OfPrincipal? ==> !s.creds[id].revoked)
  }

  predicate At(s: State, a: nat, stage: Stage) { a in s.attempts && s.attempts[a].stage == stage }

  ghost predicate CanHappen(s: State, e: Event) {
    match e
    case Issue(id, owner, hash) =>
        id !in s.chains && id !in s.creds && hash !in s.minted && !Conflicts(s, owner) && !WriteLocked(s)
    case Revoke(id) => id in s.creds && s.creds[id].owner.OfPrincipal? && !WriteLocked(s)
    case Delete(id) => id in s.creds && s.creds[id].owner.OfLauncher? && !WriteLocked(s)
    case Prepare(a, id, hash) => a !in s.attempts && Resolvable(s, id) && hash !in s.minted
    case Enter(a, _) => At(s, a, Prepared) && s.holder.None?
    case Replace(a) => At(s, a, Entered)
    case Deliver(a, _) => At(s, a, Tentative)
    case Commit(a, _) => At(s, a, Delivered)
  }

  /** The exact row the rotation prepared against. */
  predicate Matches(creds: map<nat, Cred>, x: Attempt) {
    x.cred in creds && creds[x.cred] == Cred(x.owner, x.expected, false)
  }

  function Move(s: State, a: nat, stage: Stage): State
    requires a in s.attempts
  {
    s.(attempts := s.attempts[a := s.attempts[a].(stage := stage)], holder := if stage.Done? then None else s.holder)
  }

  /** The committed update: the replacement becomes the credential's current hash. */
  function Activate(s: State, x: Attempt): State
    requires x.cred in s.creds && x.cred in s.chains
  {
    s.(creds := s.creds[x.cred := s.creds[x.cred].(hash := x.replacement)],
       chains := s.chains[x.cred := s.chains[x.cred] + [x.replacement]])
  }

  ghost function Next(s: State, e: Event): State
    requires CanHappen(s, e) && Coherent(s)
  {
    match e
    case Issue(id, owner, hash) =>
      s.(creds := s.creds[id := Cred(owner, hash, false)], chains := s.chains[id := [hash]],
          minted := s.minted + {hash})
    case Revoke(id) => s.(creds := s.creds[id := s.creds[id].(revoked := true)])
    case Delete(id) => s.(creds := s.creds - {id})
    case Prepare(a, id, hash) =>
      s.(attempts := s.attempts[a := Attempt(id, s.creds[id].owner, s.creds[id].hash, hash, Prepared)],
          minted := s.minted + {hash})
    case Enter(a, begun) => if begun then Move(s, a, Entered).(holder := Some(a))
        else Move(s, a, Done(NotBegun)).(holder := None)
    case Replace(a) => Move(s, a, if Matches(s.creds, s.attempts[a]) then Tentative else Done(Conflict))
    case Deliver(a, ok) => Move(s, a, if ok then Delivered else Done(DeliveryFailed))
    case Commit(a, outcome) =>
      var t := if outcome == NotCommitted then s else Activate(s, s.attempts[a]);
      Move(t, a, Done(if outcome == Committed then Rotated else CommitUnknown))
  }

  // ---------------------------------------------------------- invariants

  /** The replacement directly follows the expected hash. */
  ghost predicate Follows(chain: seq<nat>, expected: nat, replacement: nat) {
    exists k | 0 <= k < |chain| - 1 :: chain[k] == expected && chain[k + 1] == replacement
  }

  ghost predicate NeverActive(s: State, hash: nat) {
    forall c, k | c in s.chains && 0 <= k < |s.chains[c]| :: s.chains[c][k] != hash
  }

  /** The current hash ends the credential's chain, and no hash occurs twice anywhere. */
  ghost predicate Chains(s: State) {
    && (forall c | c in s.creds ::
       c in s.chains && s.chains[c] != [] && s.chains[c][|s.chains[c]| - 1] == s.creds[c].hash)
    && (forall c, k | c in s.chains && 0 <= k < |s.chains[c]| :: s.chains[c][k] in s.minted)
    && (forall c, k, d, m | c in s.chains && d in s.chains && 0 <= k < |s.chains[c]| && 0 <= m < |s.chains[d]| &&
                            s.chains[c][k] == s.chains[d][m] :: c == d && k == m)
  }

  ghost predicate Recorded(s: State, x: Attempt) {
    && x.replacement in s.minted && x.cred in s.chains
    && (match x.stage
        case Done(Rotated) => Follows(s.chains[x.cred], x.expected, x.replacement)
        case Done(CommitUnknown) =>
            Follows(s.chains[x.cred], x.expected, x.replacement) || NeverActive(s, x.replacement)
        case Tentative => NeverActive(s, x.replacement) && Matches(s.creds, x)
        case Delivered => NeverActive(s, x.replacement) && Matches(s.creds, x)
        case _ => NeverActive(s, x.replacement))
  }

  ghost predicate AllRecorded(s: State) {
    forall a | a in s.attempts :: Recorded(s, s.attempts[a])
  }

  ghost predicate DistinctReplacements(s: State) {
    forall a, b | a in s.attempts && b in s.attempts && s.attempts[a].replacement == s.attempts[b].replacement :: a == b
  }

  /** Only the mutex holder is past preparation. */
  ghost predicate OneAtWork(s: State) {
    forall a | a in s.attempts && !s.attempts[a].stage.Done? && !s.attempts[a].stage.Prepared? :: s.holder == Some(a)
  }

  ghost predicate ActiveUnique(s: State) {
    forall c, d | c in s.creds && d in s.creds && s.creds[c].owner == s.creds[d].owner &&
                  (s.creds[c].owner.OfPrincipal? ==> !s.creds[c].revoked && !s.creds[d].revoked) :: c == d
  }

  ghost predicate Coherent(s: State) {
    Chains(s) && AllRecorded(s) && DistinctReplacements(s) && OneAtWork(s) && ActiveUnique(s)
  }

  /** A change of the table while no update is tentative leaves every attempt as recorded. */
  lemma TableRecorded(s: State, t: State)
    requires AllRecorded(s) && !WriteLocked(s) && t.attempts == s.attempts && s.minted <= t.minted
    requires forall c | c in s.chains :: c in t.chains && t.chains[c] == s.chains[c]
    requires forall c, k | c in t.chains && c !in s.chains && 0 <= k < |t.chains[c]| :: t.chains[c][k] !in s.minted
    ensures AllRecorded(t)
  {
    forall a | a in t.attempts ensures Recorded(t, t.attempts[a]) {
      var x := s.attempts[a];
      assert Recorded(s, x) && !x.stage.Tentative? && !x.stage.Delivered?;
      if NeverActive(s, x.replacement) { StillInactive(s, t, x.replacement); }
    }
  }

  lemma StillInactive(s: State, t: State, hash: nat)
    requires NeverActive(s, hash) && hash in s.minted
    requires forall c | c in s.chains :: c in t.chains && t.chains[c] == s.chains[c]
    requires forall c, k | c in t.chains && c !in s.chains && 0 <= k < |t.chains[c]| :: t.chains[c][k] !in s.minted
    ensures NeverActive(t, hash)
  {
  }

  lemma IssueKeeps(s: State, e: Event)
    requires Coherent(s) && CanHappen(s, e) && e.Issue?
    ensures Coherent(Next(s, e))
  {
    hide AllRecorded, Recorded, WriteLocked;
    TableRecorded(s, Next(s, e));
  }

  lemma RemovalKeeps(s: State, e: Event)
    requires Coherent(s) && CanHappen(s, e) && (e.Revoke? || e.Delete?)
    ensures Coherent(Next(s, e))
  {
    hide AllRecorded, Recorded, WriteLocked;
    TableRecorded(s, Next(s, e));
  }

  lemma PrepareKeeps(s: State, e: Event)
    requires Coherent(s) && CanHappen(s, e) && e.Prepare?
    ensures Coherent(Next(s, e))
  {
    hide ActiveUnique, Follows;
    var t := Next(s, e);
    ActiveSame(s, t);
    forall a | a in t.attempts ensures Recorded(t, t.attempts[a]) {
      if a != e.attempt { RecordedSame(s, t, s.attempts[a]); }
    }
  }

  lemma ActiveSame(s: State, t: State)
    requires ActiveUnique(s) && t.creds == s.creds
    ensures ActiveUnique(t)
  {
  }

  lemma RecordedSame(s: State, t: State, x: Attempt)
    requires Recorded(s, x) && t.creds == s.creds && t.chains == s.chains && s.minted <= t.minted
    ensures Recorded(t, x)
  {
  }

  lemma MoveKeeps(s: State, e: Event)
    requires Coherent(s) && CanHappen(s, e) && (e.Enter? || e.Replace? || e.Deliver?)
    ensures Coherent(Next(s, e))
  {
    hide Chains, ActiveUnique, Recorded;
    var t := Next(s, e);
    SameTables(s, t);
    ActiveSame(s, t);
    forall a | a in t.attempts ensures Recorded(t, t.attempts[a]) {
      if a == e.attempt { MovedRecorded(s, e); } else { RecordedSame(s, t, s.attempts[a]); }
    }
  }

  lemma SameTables(s: State, t: State)
    requires Chains(s) && t.creds == s.creds && t.chains == s.chains && t.minted == s.minted
    ensures Chains(t)
  {
  }

  lemma MovedRecorded(s: State, e: Event)
    requires Coherent(s) && CanHappen(s, e) && (e.Enter? || e.Replace? || e.Deliver?)
    ensures Recorded(Next(s, e), Next(s, e).attempts[e.attempt])
  {
    hide Chains, ActiveUnique, OneAtWork, DistinctReplacements, Follows;
    assert Recorded(s, s.attempts[e.attempt]);
  }

  // ------------------------------------------------- the commit

  /** Activation extends one chain by a hash no chain has. */
  lemma ActivateKeepsChains(s: State, x: Attempt)
    requires Chains(s) && NeverActive(s, x.replacement) && Matches(s.creds, x) && x.cred in s.chains &&
             x.replacement in s.minted
    ensures Chains(Activate(s, x))
  {
    var t := Activate(s, x);
    var n := |s.chains[x.cred]|;
    forall c, k, d, m | c in t.chains && d in t.chains && 0 <= k < |t.chains[c]| && 0 <= m < |t.chains[d]| &&
                        t.chains[c][k] == t.chains[d][m] ensures c == d && k == m {
      assert t.chains[c][k] == if c == x.cred && k == n then x.replacement else s.chains[c][k];
      assert t.chains[d][m] == if d == x.cred && m == n then x.replacement else s.chains[d][m];
    }
  }

  lemma ActivateFollows(s: State, x: Attempt)
    requires Chains(s) && Matches(s.creds, x) && x.cred in s.chains
    ensures Follows(Activate(s, x).chains[x.cred], x.expected, x.replacement)
    ensures forall c, p, q | c in s.chains && Follows(s.chains[c], p, q) :: Follows(Activate(s, x).chains[c], p, q)
  {
    var t := Activate(s, x);
    var n := |s.chains[x.cred]| - 1;
    assert t.chains[x.cred][n] == x.expected && t.chains[x.cred][n + 1] == x.replacement;
    forall c, p, q | c in s.chains && Follows(s.chains[c], p, q) ensures Follows(t.chains[c], p, q) {
      var k :| 0 <= k < |s.chains[c]| - 1 && s.chains[c][k] == p && s.chains[c][k + 1] == q;
      assert t.chains[c][k] == p && t.chains[c][k + 1] == q;
    }
  }

  lemma ActivateInactive(s: State, x: Attempt)
    requires x.cred in s.creds && x.cred in s.chains
    ensures forall h | h != x.replacement && NeverActive(s, h) :: NeverActive(Activate(s, x), h)
  {
  }

  lemma CommitKeeps(s: State, e: Event)
    requires Coherent(s) && CanHappen(s, e) && e.Commit?
    ensures Coherent(Next(s, e))
  {
    hide Chains, ActiveUnique, Recorded, Follows, NeverActive;
    var x, t := s.attempts[e.attempt], Next(s, e);
    assert Recorded(s, x);
    DeliveredFacts(s, x);
    if e.outcome == NotCommitted {
      SameTables(s, t);
      ActiveSame(s, t);
      LostRecorded(s, t, x);
      forall a | a in t.attempts && a != e.attempt
          ensures Recorded(t, t.attempts[a]) { RecordedSame(s, t, s.attempts[a]); }
    } else {
      ActivateKeepsChains(s, x);
      ActivateFollows(s, x);
      ActivateInactive(s, x);
      var d := Activate(s, x);
      SameTables(d, t);
      ActiveAfter(s, t, x);
      WonRecorded(d, t, x, t.attempts[e.attempt].stage);
      forall a | a in t.attempts && a != e.attempt ensures Recorded(t, t.attempts[a]) {
        OthersRecorded(s, d, t, s.attempts[a], x);
      }
    }
  }

  lemma DeliveredFacts(s: State, x: Attempt)
    requires Recorded(s, x) && x.stage == Delivered
    ensures NeverActive(s, x.replacement) && Matches(s.creds, x) && x.cred in s.chains && x.replacement in s.minted
  {
  }

  lemma LostRecorded(s: State, t: State, x: Attempt)
    requires NeverActive(s, x.replacement) && x.cred in s.chains && x.replacement in s.minted
    requires t.chains == s.chains && t.minted == s.minted
    ensures Recorded(t, x.(stage := Done(CommitUnknown)))
  {
  }

  lemma WonRecorded(d: State, t: State, x: Attempt, stage: Stage)
    requires t.chains == d.chains && t.minted == d.minted && x.cred in d.chains && x.replacement in d.minted
    requires Follows(d.chains[x.cred], x.expected, x.replacement) &&
             (stage == Done(Rotated) || stage == Done(CommitUnknown))
    ensures Recorded(t, x.(stage := stage))
  {
  }

  lemma OthersRecorded(s: State, d: State, t: State, y: Attempt, x: Attempt)
    requires Recorded(s, y) && (y.stage.Done? || y.stage.Prepared?) && y.replacement != x.replacement
    requires t.chains == d.chains && t.minted == d.minted == s.minted && s.chains.Keys == d.chains.Keys
    requires forall h | h != x.replacement && NeverActive(s, h) :: NeverActive(d, h)
    requires forall c, p, q | c in s.chains && Follows(s.chains[c], p, q) :: Follows(d.chains[c], p, q)
    ensures Recorded(t, y)
  {
    if NeverActive(s, y.replacement) { assert NeverActive(d, y.replacement); assert NeverActive(t, y.replacement); }
  }

  lemma ActiveAfter(s: State, t: State, x: Attempt)
    requires ActiveUnique(s) && x.cred in s.creds
    requires t.creds == s.creds[x.cred := s.creds[x.cred].(hash := x.replacement)]
    ensures ActiveUnique(t)
  {
    forall c, d | c in t.creds && d in t.creds && t.creds[c].owner == t.creds[d].owner &&
                  (t.creds[c].owner.OfPrincipal? ==> !t.creds[c].revoked && !t.creds[d].revoked) ensures c == d {
      assert s.creds[c].owner == t.creds[c].owner && s.creds[d].owner == t.creds[d].owner;
    }
  }

  // ------------------------------------------------------------- theorems

  lemma StepKeeps(s: State, e: Event)
    requires Coherent(s) && CanHappen(s, e)
    ensures Coherent(Next(s, e))
  {
    hide Coherent, CanHappen, Next;
    match e
    case Issue(_, _, _) => IssueKeeps(s, e);
    case Revoke(_) => RemovalKeeps(s, e);
    case Delete(_) => RemovalKeeps(s, e);
    case Prepare(_, _, _) => PrepareKeeps(s, e);
    case Commit(_, _) => CommitKeeps(s, e);
    case _ => MoveKeeps(s, e);
  }

  const EMPTY: State := State(map[], map[], {}, map[], None)

  /** Some sequence of enabled events leads from s to t; each keeps coherence. */
  ghost predicate Runs(s: State, run: seq<Event>, t: State)
    decreases |run|
  {
    if run == [] then s == t else Coherent(s) && CanHappen(s, run[0]) && Runs(Next(s, run[0]), run[1..], t)
  }

  lemma {:induction false} RunsStayCoherent(s: State, run: seq<Event>, t: State)
    requires Coherent(s) && Runs(s, run, t)
    ensures Coherent(t)
    decreases |run|
  {
    hide Coherent, CanHappen, Next;
    if run != [] {
      StepKeeps(s, run[0]);
      RunsStayCoherent(Next(s, run[0]), run[1..], t);
    }
  }

  lemma EmptyIsCoherent()
    ensures Coherent(EMPTY)
  {
  }

  /** Whatever the interleaving: a success put its replacement directly after the
      hash it prepared against; a conflict, a failed begin and a failed delivery never
      activated theirs; only an unknown commit may or may not have; each credential
      has one current hash, and no hash is ever current twice. */
  lemma RotationsFormChains(run: seq<Event>, t: State)
    requires Runs(EMPTY, run, t)
    ensures forall a | a in t.attempts ::
              var x := t.attempts[a];
              && x.cred in t.chains
              && (x.stage == Done(Rotated) ==> Follows(t.chains[x.cred], x.expected, x.replacement))
              && (x.stage == Done(CommitUnknown) ==>
                 Follows(t.chains[x.cred], x.expected, x.replacement) || NeverActive(t, x.replacement))
              && (x.stage != Done(Rotated) && x.stage != Done(CommitUnknown) ==> NeverActive(t, x.replacement))
    ensures forall c | c in t.creds ::
            c in t.chains && t.chains[c] != [] && t.chains[c][|t.chains[c]| - 1] == t.creds[c].hash
    ensures forall c, k, d, m | c in t.chains && d in t.chains && 0 <= k < |t.chains[c]| && 0 <= m < |t.chains[d]| &&
                                t.chains[c][k] == t.chains[d][m] :: c == d && k == m
  {
    hide Follows, NeverActive, Runs, Matches, ActiveUnique, OneAtWork, DistinctReplacements;
    EmptyIsCoherent();
    RunsStayCoherent(EMPTY, run, t);
  }

  /** Of all rotations that prepared against one hash, at most one activates its replacement. */
  lemma OneWinnerPerHash(run: seq<Event>, t: State, a: nat, b: nat)
    requires Runs(EMPTY, run, t) && a in t.attempts && b in t.attempts
    requires t.attempts[a].expected == t.attempts[b].expected
    requires t.attempts[a].cred in t.chains &&
             Follows(t.chains[t.attempts[a].cred], t.attempts[a].expected, t.attempts[a].replacement)
    requires t.attempts[b].cred in t.chains &&
             Follows(t.chains[t.attempts[b].cred], t.attempts[b].expected, t.attempts[b].replacement)
    ensures a == b
  {
    RunsStayCoherent(EMPTY, run, t);
    var x, y := t.attempts[a], t.attempts[b];
    var k :| 0 <= k < |t.chains[x.cred]| - 1 && t.chains[x.cred][k] == x.expected &&
        t.chains[x.cred][k + 1] == x.replacement;
    var m :| 0 <= m < |t.chains[y.cred]| - 1 && t.chains[y.cred][m] == y.expected &&
        t.chains[y.cred][m + 1] == y.replacement;
    assert x.cred == y.cred && k == m;
  }

  /** A bearer authenticates by the current hash of a credential that is not revoked. */
  ghost predicate Authenticates(s: State, hash: nat) {
    exists c | c in s.creds :: s.creds[c].hash == hash && !s.creds[c].revoked
  }

  /** Once a rotation succeeded, the bearer it replaced never authenticates again. */
  lemma ReplacedBearerIsDead(run: seq<Event>, t: State, a: nat)
    requires Runs(EMPTY, run, t) && a in t.attempts && t.attempts[a].stage == Done(Rotated)
    ensures !Authenticates(t, t.attempts[a].expected)
  {
    RunsStayCoherent(EMPTY, run, t);
    var x := t.attempts[a];
    assert Recorded(t, x);
    var k :| 0 <= k < |t.chains[x.cred]| - 1 && t.chains[x.cred][k] == x.expected &&
        t.chains[x.cred][k + 1] == x.replacement;
    forall c | c in t.creds ensures t.creds[c].hash != x.expected {
      var n := |t.chains[c]| - 1;
      assert t.chains[c][n] == t.creds[c].hash;
    }
  }

  /** A revoked credential never becomes active again and keeps its hash. */
  lemma RevokedStays(s: State, e: Event, c: nat)
    requires Coherent(s) && CanHappen(s, e) && c in s.creds && s.creds[c].revoked
    ensures c in Next(s, e).creds ==> Next(s, e).creds[c] == s.creds[c]
  {
    hide Chains, ActiveUnique, DistinctReplacements, OneAtWork;
    if e.Commit? { assert Recorded(s, s.attempts[e.attempt]); }
  }
}
