// Admin token rotation (app.go, rotateAdminToken): a staged file, one atomic
// rename, then the hash in memory, under one lock. A crash can fall between any
// two changes of the disk.
module AdminToken {
  import opened Policy

  /** Distinct tokens have distinct hashes. */
  datatype Hash = HashOf(token: string)

  /** The token file and the fixed staging pathname. */
  datatype Disk = Disk(file: string, staging: Option<string>)

  /** The first step that fails; a failed write may leave a part behind. */
  datatype Fault =
    | NoFault | ResidueStuck | CreateFails | WriteFails(written: nat) | ChmodFails | SyncFails | CloseFails
    | RenameFails

  datatype Result = Rotated | StaleRotation | NotReplaced

  function FileOf(token: string): string { token + "\n" }

  /** The lock is free: the stored token's hash is the one in memory. */
  ghost predicate Settled(disk: Disk, memory: Hash) { exists t :: disk.file == FileOf(t) && memory == HashOf(t) }

  lemma FileOfInjective(a: string, b: string)
    requires FileOf(a) == FileOf(b)
    ensures a == b
  {
    assert a == FileOf(a)[..|a|] && b == FileOf(b)[..|b|];
  }

  /** How a rotation ends. */
  function Verdict(memory: Hash, authorizing: Hash, fault: Fault): Result {
    if memory != authorizing then StaleRotation else if fault == NoFault then Rotated else NotReplaced
  }

  /** The disk a finished rotation leaves; `stuck`: the staging file could not be removed again. */
  function After(disk: Disk, memory: Hash, authorizing: Hash, token: string, fault: Fault, stuck: bool): Disk {
    if memory != authorizing then disk
    else match fault
         case NoFault => Disk(FileOf(token), None)
         case ResidueStuck => disk
         case CreateFails => Disk(disk.file, None)
         case WriteFails(n) => Disk(disk.file, if stuck then Some(Written(token, n)) else None)
         case _ => Disk(disk.file, if stuck then Some(FileOf(token)) else None)
  }

  function Written(token: string, n: nat): string { if n <= |FileOf(token)| then FileOf(token)[..n] else FileOf(token) }

  class Tokens {
    var disk: Disk
    var memory: Hash
    ghost var trail: seq<Disk>   // every disk state since the last rotation began

    constructor (token: string)
      ensures disk == Disk(FileOf(token), None) && memory == HashOf(token) && Settled(disk, memory)
    {
      disk, memory, trail := Disk(FileOf(token), None), HashOf(token), [];
      assert Disk(FileOf(token), None).file == FileOf(token);
    }

    method Change(d: Disk)
      modifies this`disk, this`trail
      ensures disk == d && trail == old(trail) + [d]
    {
      disk := d;
      trail := trail + [d];
    }

    /** rotateAdminToken. */
    method Rotate(authorizing: Hash, token: string, fault: Fault, stuck: bool) returns (result: Result)
      requires Settled(disk, memory)
      modifies this
      ensures result == Verdict(old(memory), authorizing, fault)
      ensures result == Rotated <==> old(memory) == authorizing && fault == NoFault
      ensures result == StaleRotation <==> old(memory) != authorizing
      ensures if result == Rotated then disk.file == token + "\n" && disk.staging == None
              else disk.file == old(disk).file
      ensures disk == After(old(disk), old(memory), authorizing, token, fault, stuck)
      ensures memory == if result == Rotated then HashOf(token) else old(memory)
      ensures Settled(disk, memory)
      ensures forall d | d in trail :: WhollyOldOrNew(old(disk), token, d)
      ensures result == StaleRotation ==> trail == []
      ensures forall d | d in trail && d.file != old(disk).file :: old(memory) == authorizing
    {
      trail := [];
      var stored :| disk.file == FileOf(stored) && memory == HashOf(stored);
      if memory != authorizing { return StaleRotation; }
      if fault == ResidueStuck { return NotReplaced; }
      Change(Disk(disk.file, None));
      if fault == CreateFails { return NotReplaced; }
      Change(Disk(disk.file, Some("")));
      if fault.WriteFails? {
        Change(Disk(disk.file, Some(Written(token, fault.written))));
        if !stuck { Change(Disk(disk.file, None)); }
        return NotReplaced;
      }
      Change(Disk(disk.file, Some(FileOf(token))));
      if fault == ChmodFails || fault == SyncFails || fault == CloseFails || fault == RenameFails {
        if !stuck { Change(Disk(disk.file, None)); }
        return NotReplaced;
      }
      Change(Disk(disk.staging.value, None));
      memory := HashOf(token);
      return Rotated;
    }
  }

  /** A crash finds the old token file or the new one, never a mixture. */
  ghost predicate WhollyOldOrNew(before: Disk, token: string, d: Disk) {
    d.file == before.file || (d.file == FileOf(token) && d.staging.None?)
  }

  // ---------------------------------------------------------- whole runs

  /** A rotation that ran to its end, or one cut short by a crash at disk state `at`
      with the daemon restarted from the token file. */
  datatype Act =
    | Attempt(authorizing: Hash, token: string, fault: Fault, stuck: bool)
    | Crash(authorizing: Hash, token: string, at: Disk)

  datatype World = World(disk: Disk, memory: Hash, minted: set<string>)

  ghost predicate CanHappen(w: World, act: Act) {
    && act.token !in w.minted
    && (act.Crash? ==> act.at == w.disk || (w.memory == act.authorizing && WhollyOldOrNew(w.disk, act.token, act.at)))
  }

  /** The token the file holds. */
  function Stored(file: string): string { if file == "" then "" else file[..|file| - 1] }

  function Next(w: World, act: Act): World {
    var minted := w.minted + {act.token};
    match act
    case Attempt(auth, token, fault, stuck) =>
      World(After(w.disk, w.memory, auth, token, fault, stuck),
            if Verdict(w.memory, auth, fault) == Rotated then HashOf(token) else w.memory, minted)
    case Crash(auth, token, at) => World(at, HashOf(Stored(at.file)), minted)
  }

  /** The act replaced the token file. */
  predicate TookEffect(w: World, act: Act) { Next(w, act).disk.file != w.disk.file }

  ghost predicate Good(w: World) { Settled(w.disk, w.memory) && w.memory.token in w.minted }

  lemma StoredFile(t: string)
    ensures Stored(FileOf(t)) == t
  {
  }

  lemma ActKeepsGood(w: World, act: Act)
    requires Good(w) && CanHappen(w, act)
    ensures Good(Next(w, act))
    ensures TookEffect(w, act) <==> Next(w, act).memory != w.memory
    ensures TookEffect(w, act) ==> w.memory == act.authorizing && Next(w, act).memory == HashOf(act.token)
  {
    var stored :| w.disk.file == FileOf(stored) && w.memory == HashOf(stored);
    StoredFile(stored);
    StoredFile(act.token);
    assert stored in w.minted;
    if FileOf(act.token) == FileOf(stored) { FileOfInjective(act.token, stored); }
    var t := Next(w, act);
    assert t.disk.file == FileOf(stored) || t.disk.file == FileOf(act.token);
  }

  ghost predicate Runs(w: World, acts: seq<Act>, t: World)
    decreases |acts|
  {
    if acts == [] then w == t else CanHappen(w, acts[0]) && Runs(Next(w, acts[0]), acts[1..], t)
  }

  /** How many rotations authorized by `auth` replaced the token. */
  ghost function Effects(w: World, acts: seq<Act>, auth: Hash): nat
    decreases |acts|
  {
    if acts == [] then 0
    else
      var now := if acts[0].authorizing == auth && TookEffect(w, acts[0]) then 1 else 0;
      now + Effects(Next(w, acts[0]), acts[1..], auth)
  }

  /** Over any run with crashes and failures, the stored token's hash is the one in
      memory whenever the lock is free, and each token authorizes at most one replacement. */
  lemma {:induction false} OneReplacementPerToken(w: World, acts: seq<Act>, t: World, auth: Hash)
    requires Good(w) && Runs(w, acts, t) && auth.token in w.minted
    ensures Good(t)
    ensures Effects(w, acts, auth) <= if auth == w.memory then 1 else 0
    decreases |acts|
  {
    hide CanHappen, Next, Good;
    if acts != [] {
      ActKeepsGood(w, acts[0]);
      MintedGrows(w, acts[0]);
      OneReplacementPerToken(Next(w, acts[0]), acts[1..], t, auth);
      FreshIsOther(w, acts[0], auth);
    }
  }

  lemma MintedGrows(w: World, act: Act)
    ensures w.minted <= Next(w, act).minted
  {
  }

  lemma FreshIsOther(w: World, act: Act, auth: Hash)
    requires CanHappen(w, act) && auth.token in w.minted
    ensures HashOf(act.token) != auth
  {
  }

  /** Whatever a crash left at the staging pathname, the next rotation with the
      current token and no fault succeeds and leaves no residue. */
  lemma ResidueNeverBlocks(w: World, act: Act, token: string)
    requires Good(w) && CanHappen(w, act) && act.Crash? && token !in Next(w, act).minted
    ensures var c := Next(w, act);
            Next(c, Attempt(c.memory, token, NoFault, false)).disk == Disk(FileOf(token), None)
    ensures var c := Next(w, act);
            TookEffect(c, Attempt(c.memory, token, NoFault, false))
  {
    ActKeepsGood(w, act);
    var c := Next(w, act);
    ActKeepsGood(c, Attempt(c.memory, token, NoFault, false));
  }
}
