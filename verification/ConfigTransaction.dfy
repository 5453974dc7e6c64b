// The configuration mutation transaction (config_cli.go, executeConfigTransaction):
// read, migrate, mutate, validate, write, reload, and roll back a refused reload.
// The file is written atomically; the process lock keeps other mutations out.
module ConfigTransaction {
  import opened Policy

  /** Member names with their JSON values, each in one canonical spelling: the writer
      re-indents a raw value, so documents are compared by value. */
  type Doc = map<string, string>

  const LEGACY: string := "allowed_root"
  const ROOTS: string := "allowed_roots"
  const STARTUP_ONLY: string := "http_address"

  datatype Mutation = UserError | InternalError | Mutated(doc: Doc, skipWrite: bool, startupOnly: bool)

  /** The document codec, the validators and the operation; none of them has side effects. */
  datatype Rules = Rules(
    parse: string -> Option<Doc>,
    render: Doc -> string,
    grammar: Doc -> bool,              // validateConfigMemberGrammar
    valid: Doc -> bool,                // validateRawConfig
    caValid: Doc -> bool,              // validateCAConfig
    migrated: string -> Option<string>, // the legacy value as a roots list
    mutate: (Doc, bool) -> Mutation)

  ghost predicate Codec(rules: Rules) { forall d :: rules.parse(rules.render(d)) == Some(d) }

  /** A lost reply leaves open whether the daemon had loaded the file. */
  datatype Reload = Accepted | NotRunning | Rejected | LostReply(loaded: bool)

  /** What goes right or wrong outside the executor. */
  datatype World = World(lock: bool, read: bool, reread: bool, shown: bool, write: bool, reload: Reload, restore: bool,
      again: Reload)

  /** The mutated document about to be written, or how the transaction ends before that. */
  datatype Plan = Stop(code: int) | Keep | Write(doc: Doc, startupOnly: bool)

  function Migrate(rules: Rules, raw: Doc): Option<Doc> {
    if LEGACY !in raw then Some(raw)
    else if ROOTS in raw then None
    else match rules.migrated(raw[LEGACY]) case None => None case Some(v) => Some(raw[ROOTS := v] - {LEGACY})
  }

  function Planned(rules: Rules, file: string): Plan {
    match rules.parse(file)
    case None => Stop(1)
    case Some(raw) =>
      if !rules.grammar(raw) then Stop(1)
      else
        match Migrate(rules, raw)
        case None => Stop(1)
        case Some(doc) =>
          match rules.mutate(doc, LEGACY in raw)
          case UserError => Stop(2)
          case InternalError => Stop(1)
          case Mutated(result, skip, startupOnly) =>
            if !rules.valid(result) || !rules.caValid(result) then Stop(1)
            else if skip then Keep
            else Write(result, startupOnly)
  }

  /** The file a transaction leaves behind. */
  function FinalFile(rules: Rules, file: string, w: World): string {
    if !w.lock || !w.read || !Planned(rules, file).Write? || !w.reread || !w.write then file
    else
      var p := Planned(rules, file);
      if !p.startupOnly && (w.reload.Rejected? || w.reload.LostReply?) && w.restore then file
      else rules.render(p.doc)
  }

  /** When the command may report success: the plan needed no write, or its write
      stands and the daemon took it, was not running, or will see it at its next start. */
  predicate Succeeds(rules: Rules, file: string, w: World) {
    && w.lock && w.read && w.shown
    && match Planned(rules, file)
       case Stop(_) => false
       case Keep => true
       case Write(_, startupOnly) => w.reread && w.write && (startupOnly || w.reload.Accepted? || w.reload.NotRunning?)
  }

  /** The daemon takes a valid file, keeping its own startup-only member. */
  function Loaded(runtime: Doc, doc: Doc): Doc {
    if STARTUP_ONLY in runtime then doc[STARTUP_ONLY := runtime[STARTUP_ONLY]] else doc - {STARTUP_ONLY}
  }

  ghost predicate SameRuntime(a: Doc, b: Doc) { a - {STARTUP_ONLY} == b - {STARTUP_ONLY} }

  lemma LoadedIsSame(runtime: Doc, doc: Doc)
    ensures SameRuntime(Loaded(runtime, doc), doc)
  {
  }

  /** The daemon's configuration after a reload of this file with this answer. */
  function Reloaded(rules: Rules, file: string, daemon: Doc, answer: Reload): Doc {
    match rules.parse(file)
    case None => daemon
    case Some(doc) =>
      if answer.Accepted? || (answer.LostReply? && answer.loaded) then Loaded(daemon, doc) else daemon
  }

  /** The transaction writes its document. */
  predicate Writes(rules: Rules, file: string, w: World) {
    w.lock && w.read && Planned(rules, file).Write? && w.reread && w.write
  }

  /** The daemon's configuration after a transaction. */
  function FinalDaemon(rules: Rules, file: string, daemon: Doc, w: World): Doc {
    if !Writes(rules, file, w) || Planned(rules, file).startupOnly then daemon
    else
      var first := Reloaded(rules, rules.render(PlannedDoc(rules, file)), daemon, w.reload);
      if w.reload.Accepted? || w.reload.NotRunning? || !w.restore then first
      else Reloaded(rules, file, first, w.again)
  }

  function PlannedDoc(rules: Rules, file: string): Doc {
    match Planned(rules, file) case Write(doc, _) => doc case _ => map[]
  }

  // ------------------------------------ what a transaction does, outright

  /** The document the operation receives: the parsed file, or, if it has only the legacy
      member, the file with that member replaced by the roots it migrates to. */
  ghost predicate Received(rules: Rules, file: string, doc: Doc, migrated: bool) {
    && rules.parse(file).Some?
    && var raw := rules.parse(file).value;
    && rules.grammar(raw) && (migrated <==> "allowed_root" in raw)
    && if !migrated then doc == raw
       else
         && "allowed_roots" !in raw && "allowed_root" !in doc && "allowed_roots" in doc
         && rules.migrated(raw["allowed_root"]) == Some(doc["allowed_roots"])
         && forall k | k != "allowed_root" && k != "allowed_roots" ::
              (k in doc <==> k in raw) && (k in raw ==> doc[k] == raw[k])
  }

  /** The operation turns the file into document d, which passes both validators. */
  ghost predicate Asks(rules: Rules, file: string, d: Doc, skip: bool, startupOnly: bool) {
    && rules.valid(d) && rules.caValid(d)
    && exists doc, migrated ::
         Received(rules, file, doc, migrated) && rules.mutate(doc, migrated) == Mutated(d, skip, startupOnly)
  }

  /** The daemon runs on d, with the startup-only member it had. */
  ghost predicate RunsOn(daemon: Doc, d: Doc, before: Doc) {
    && (forall k | k != "http_address" :: (k in daemon <==> k in d) && (k in d ==> daemon[k] == d[k]))
    && ("http_address" in daemon <==> "http_address" in before)
    && ("http_address" in before ==> daemon["http_address"] == before["http_address"])
  }

  /** The write of a requested document took place and was not rolled back. */
  predicate Stands(w: World, startupOnly: bool) {
    && w.reread && w.write
    && (startupOnly || w.reload.Accepted? || w.reload.NotRunning? || !w.restore)
  }

  /** The write took place, and the daemon took it, was not running, or will see it at its next start. */
  predicate Taken(w: World, startupOnly: bool) {
    w.reread && w.write && (startupOnly || w.reload.Accepted? || w.reload.NotRunning?)
  }

  /** What becomes of file and daemon when the operation asks for d. */
  ghost predicate Follows(rules: Rules, w: World, d: Doc, skip: bool, startupOnly: bool,
                          was: string, file: string, before: Doc, daemon: Doc) {
    && file == (if !skip && Stands(w, startupOnly) then rules.render(d) else was)
    && (skip || startupOnly || !w.reread || !w.write ==> daemon == before)
    && (!skip && !startupOnly && w.reread && w.write && w.reload.Accepted? ==> RunsOn(daemon, d, before))
    && (w.reload.NotRunning? ==> daemon == before)
  }

  lemma ReceivedOnce(rules: Rules, file: string, doc: Doc, migrated: bool)
    requires Received(rules, file, doc, migrated)
    ensures var raw := rules.parse(file).value;
            migrated == (LEGACY in raw) && Migrate(rules, raw) == Some(doc)
  {
    var raw := rules.parse(file).value;
    if migrated {
      var m := Migrate(rules, raw).value;
      assert forall k :: k in m <==> k in doc;
      assert m == doc;
    }
  }

  lemma MigrateReceives(rules: Rules, file: string)
    requires rules.parse(file).Some? && rules.grammar(rules.parse(file).value)
    requires Migrate(rules, rules.parse(file).value).Some?
    ensures var raw := rules.parse(file).value; Received(rules, file, Migrate(rules, raw).value, LEGACY in raw)
  {
  }

  /** The plan is the request, and no other. */
  lemma PlannedIff(rules: Rules, file: string)
    ensures forall d, startupOnly ::
            Planned(rules, file) == Write(d, startupOnly) <==> Asks(rules, file, d, false, startupOnly)
    ensures Planned(rules, file).Keep? <==> exists d, startupOnly :: Asks(rules, file, d, true, startupOnly)
    ensures Planned(rules, file) == Stop(2) <==>
            exists doc, migrated :: Received(rules, file, doc, migrated) && rules.mutate(doc, migrated) == UserError
    ensures Planned(rules, file).Stop? ==> forall d, skip, startupOnly :: !Asks(rules, file, d, skip, startupOnly)
  {
    hide Received, Migrate;
    forall doc, migrated | Received(rules, file, doc, migrated)
      ensures rules.parse(file).Some? && rules.grammar(rules.parse(file).value)
      ensures migrated == (LEGACY in rules.parse(file).value) && Migrate(rules, rules.parse(file).value) == Some(doc)
    {
      ReceivedOnce(rules, file, doc, migrated);
      ReceivedParses(rules, file, doc, migrated);
    }
    if rules.parse(file).Some? && rules.grammar(rules.parse(file).value) &&
        Migrate(rules, rules.parse(file).value).Some? {
      MigrateReceives(rules, file);
      var raw := rules.parse(file).value;
      var result := rules.mutate(Migrate(rules, raw).value, LEGACY in raw);
      if result.Mutated? && rules.valid(result.doc) && rules.caValid(result.doc) {
        assert Asks(rules, file, result.doc, result.skipWrite, result.startupOnly);
      }
    }
  }

  lemma ReceivedParses(rules: Rules, file: string, doc: Doc, migrated: bool)
    requires Received(rules, file, doc, migrated)
    ensures rules.parse(file).Some? && rules.grammar(rules.parse(file).value)
  {
  }

  /** A requested document is written unless the operation skips it or the write fails,
      stays unless a refused reload is rolled back, and reaches the daemon at once unless
      it is startup-only. */
  lemma RequestFollows(rules: Rules, file: string, daemon: Doc, w: World, d: Doc, skip: bool, startupOnly: bool)
    requires Codec(rules) && w.lock && w.read && Asks(rules, file, d, skip, startupOnly)
    ensures Follows(rules, w, d, skip, startupOnly, file, FinalFile(rules, file, w), daemon,
            FinalDaemon(rules, file, daemon, w))
  {
    hide Planned, Asks, Codec;
    PlannedIff(rules, file);
    WrittenParses(rules, d);
    if skip { assert Planned(rules, file).Keep?; } else { assert Planned(rules, file) == Write(d, startupOnly); }
  }

  /** Without a requested document, lock or file, nothing changes. */
  lemma NothingFollows(rules: Rules, file: string, daemon: Doc, w: World)
    requires !w.lock || !w.read || forall d, skip, startupOnly :: !Asks(rules, file, d, skip, startupOnly)
    ensures FinalFile(rules, file, w) == file && FinalDaemon(rules, file, daemon, w) == daemon
  {
    hide Planned, Asks;
    PlannedIff(rules, file);
    forall d, startupOnly | !Asks(rules, file, d, false, startupOnly)
      ensures Planned(rules, file) != Write(d, startupOnly)
    {
    }
  }

  lemma FollowsAlways(rules: Rules, file: string, daemon: Doc, w: World)
    requires Codec(rules)
    ensures forall d, skip, startupOnly | w.lock && w.read && Asks(rules, file, d, skip, startupOnly) ::
              Follows(rules, w, d, skip, startupOnly, file, FinalFile(rules, file, w), daemon,
                  FinalDaemon(rules, file, daemon, w))
  {
    forall d, skip, startupOnly | w.lock && w.read && Asks(rules, file, d, skip, startupOnly)
      ensures Follows(rules, w, d, skip, startupOnly, file, FinalFile(rules, file, w), daemon,
              FinalDaemon(rules, file, daemon, w))
    {
      RequestFollows(rules, file, daemon, w, d, skip, startupOnly);
    }
  }

  class Host {
    var file: string
    var daemon: Doc
    ghost var lastReload: Option<Reload>

    constructor (file: string, daemon: Doc)
      ensures this.file == file && this.daemon == daemon && lastReload == None
    {
      this.file, this.daemon, lastReload := file, daemon, None;
    }

    /** Atomic: on failure the file is as before. */
    method WriteFile(data: string, ok: bool)
      modifies this`file
      ensures file == if ok then data else old(file)
    {
      if ok { file := data; }
    }

    /** attemptReload: the daemon loads the file as it is now, or refuses it. */
    method AttemptReload(rules: Rules, answer: Reload) returns (outcome: Reload)
      modifies this`daemon, this`lastReload
      ensures outcome == if answer.Accepted? && rules.parse(file).None? then Rejected else answer
      ensures lastReload == Some(outcome)
      ensures daemon == Reloaded(rules, file, old(daemon), answer)
      ensures outcome.Accepted? ==> rules.parse(file).Some?
    {
      var doc := rules.parse(file);
      outcome := if answer.Accepted? && doc.None? then Rejected else answer;
      if doc.Some? && (outcome.Accepted? || (outcome.LostReply? && outcome.loaded)) {
        daemon := Loaded(daemon, doc.value);
      }
      lastReload := Some(outcome);
    }

    /** The read, migrate, mutate and validate steps, under the lock. */
    method MakePlan(rules: Rules) returns (plan: Plan)
      ensures plan == Planned(rules, file)
    {
      var raw := rules.parse(file);
      if raw.None? { return Stop(1); }
      var doc := raw.value;
      if !rules.grammar(doc) { return Stop(1); }
      var hasLegacy, hasNew := LEGACY in doc, ROOTS in doc;
      if hasLegacy && hasNew { return Stop(1); }
      var migrated := false;
      if hasLegacy && !hasNew {
        var roots := rules.migrated(doc[LEGACY]);
        if roots.None? { return Stop(1); }
        doc := doc[ROOTS := roots.value];
        doc := doc - {LEGACY};
        migrated := true;
      }
      var result := rules.mutate(doc, migrated);
      if result.UserError? { return Stop(2); }
      if result.InternalError? { return Stop(1); }
      if !rules.valid(result.doc) { return Stop(1); }
      if !rules.caValid(result.doc) { return Stop(1); }
      if result.skipWrite { return Keep; }
      return Write(result.doc, result.startupOnly);
    }

    /** executeConfigTransaction. */
    method Execute(rules: Rules, w: World) returns (code: int)
      requires Codec(rules)
      modifies this
      ensures file == FinalFile(rules, old(file), w)
      ensures code == 0 ==>
              w.lock && w.read &&
              (Planned(rules, old(file)).Keep? || file == rules.render(PlannedDoc(rules, old(file))))
      ensures code == 0 <==> Succeeds(rules, old(file), w)
      ensures code == 2 <==> w.lock && w.read && Planned(rules, old(file)) == Stop(2)
      ensures daemon == FinalDaemon(rules, old(file), old(daemon), w)
      ensures code == 2 ==> daemon == old(daemon)
      ensures lastReload == Some(Accepted) ==> Agree(rules, file, daemon)
      ensures lastReload == None ==> daemon == old(daemon)
      ensures forall d, skip, startupOnly | w.lock && w.read && Asks(rules, old(file), d, skip, startupOnly) ::
                && Follows(rules, w, d, skip, startupOnly, old(file), file, old(daemon), daemon)
                && (lastReload != None <==> !skip && !startupOnly && w.reread && w.write)
                && (code == 0 <==> w.shown && (skip || Taken(w, startupOnly)))
      ensures code == 2 <==>
              w.lock && w.read && exists doc, migrated ::
                Received(rules, old(file), doc, migrated) && rules.mutate(doc, migrated) == UserError
      ensures !w.lock || !w.read || (forall d, skip, startupOnly :: !Asks(rules, old(file), d, skip, startupOnly)) ==>
                file == old(file) && daemon == old(daemon) && lastReload == None && code != 0
    {
      hide Asks, Received;
      PlannedIff(rules, file);
      FollowsAlways(rules, file, daemon, w);
      lastReload := None;
      if !w.lock { return 1; }
      if !w.read { return 1; }
      var plan := MakePlan(rules);
      if plan.Stop? {
        StopCodes(rules, file);
        return plan.code;
      }
      if plan.Keep? { return if w.shown then 0 else 1; }
      if !w.reread { return 1; }
      var original := file;
      var newData := rules.render(plan.doc);
      WriteFile(newData, w.write);
      if !w.write { return 1; }
      if plan.startupOnly { return if w.shown then 0 else 1; }
      ghost var running := daemon;
      var outcome := AttemptReload(rules, w.reload);
      assert rules.parse(file) == Some(plan.doc);
      match outcome {
        case Accepted =>
          LoadedIsSame(running, plan.doc);
          return if w.shown then 0 else 1;
        case NotRunning =>
          return if w.shown then 0 else 1;
        case _ =>
          WriteFile(original, w.restore);
          if !w.restore { return 1; }
          running := daemon;
          var second := AttemptReload(rules, w.again);
          if second.Accepted? { LoadedIsSame(running, rules.parse(file).value); }
          return 1;
      }
    }
  }

  lemma StopCodes(rules: Rules, file: string)
    ensures Planned(rules, file).Stop? ==> Planned(rules, file).code == 1 || Planned(rules, file).code == 2
  {
  }

  /** For every mutation and every pattern of failures the file ends untouched, or
      holding a document that passed both validators. */
  lemma FileStaysSound(rules: Rules, file: string, w: World)
    requires Codec(rules)
    ensures var f := FinalFile(rules, file, w);
            f == file ||
                (rules.parse(f).Some? && rules.valid(rules.parse(f).value) && rules.caValid(rules.parse(f).value))
  {
    var p := Planned(rules, file);
    if p.Write? { assert rules.parse(rules.render(p.doc)) == Some(p.doc); }
  }

  // ---------------------------------------------- file and daemon together

  /** The daemon runs on what the file says, up to its startup-only member. */
  ghost predicate Agree(rules: Rules, file: string, daemon: Doc) {
    rules.parse(file).Some? && SameRuntime(daemon, rules.parse(file).value)
  }

  /** The outcomes after which file and daemon stand on different sides of the mutation:
      a written file that the daemon did not load and that stayed, or a lost reply of a
      daemon that had loaded the new file and did not come back to the old one. */
  predicate Diverges(rules: Rules, file: string, w: World) {
    Writes(rules, file, w) &&
    if Planned(rules, file).startupOnly || w.reload.NotRunning? then true
    else if w.reload.Accepted? then false
    else
      var tookNew := w.reload.LostReply? && w.reload.loaded;
      if w.restore then tookNew && !(w.again.Accepted? || (w.again.LostReply? && w.again.loaded)) else !tookNew
  }

  /** If file and daemon agreed before, they agree afterwards exactly if the outcome does
      not divide them or the mutation changed only the startup-only member. */
  lemma AgreementIff(rules: Rules, file: string, daemon: Doc, w: World)
    requires Codec(rules) && Agree(rules, file, daemon)
    ensures Agree(rules, FinalFile(rules, file, w), FinalDaemon(rules, file, daemon, w)) <==>
            !Diverges(rules, file, w) || SameRuntime(PlannedDoc(rules, file), rules.parse(file).value)
  {
    hide Planned, Loaded, SameRuntime, Codec;
    SameRuntimeIsEquality();
    if Writes(rules, file, w) {
      var doc := Planned(rules, file).doc;
      WrittenParses(rules, doc);
      forall d, e ensures SameRuntime(Loaded(d, e), e) { LoadedIsSame(d, e); }
    }
  }

  lemma WrittenParses(rules: Rules, doc: Doc)
    requires Codec(rules)
    ensures rules.parse(rules.render(doc)) == Some(doc)
  {
  }

  lemma SameRuntimeIsEquality()
    ensures forall a, b, c | SameRuntime(a, b) && SameRuntime(b, c) :: SameRuntime(a, c)
    ensures forall a, b | SameRuntime(a, b) :: SameRuntime(b, a)
  {
  }

  ghost predicate Sound(rules: Rules, initial: string, f: string) {
    f == initial || (rules.parse(f).Some? && rules.valid(rules.parse(f).value) && rules.caValid(rules.parse(f).value))
  }

  function After(rules: seq<Rules>, file: string, ws: seq<World>): string
    requires |rules| == |ws|
    decreases |ws|
  {
    if ws == [] then file else After(rules[1..], FinalFile(rules[0], file, ws[0]), ws[1..])
  }

  /** The same over any sequence of transactions with the same codec and validators. */
  lemma {:induction false} SequenceStaysSound(base: Rules, rules: seq<Rules>, initial: string, file: string,
      ws: seq<World>)
    requires |rules| == |ws| && Codec(base) && Sound(base, initial, file)
    requires forall i | 0 <= i < |rules| :: rules[i] == base.(mutate := rules[i].mutate)
    ensures Sound(base, initial, After(rules, file, ws))
    decreases |ws|
  {
    hide Codec, FinalFile;
    if ws != [] {
      SameCodec(base, rules[0]);
      FileStaysSound(rules[0], file, ws[0]);
      SequenceStaysSound(base, rules[1..], initial, FinalFile(rules[0], file, ws[0]), ws[1..]);
    }
  }

  lemma SameCodec(a: Rules, b: Rules)
    requires Codec(a) && b == a.(mutate := b.mutate)
    ensures Codec(b)
  {
    forall d ensures b.parse(b.render(d)) == Some(d) { assert a.parse(a.render(d)) == Some(d); }
  }

  function DaemonAfter(rules: seq<Rules>, file: string, daemon: Doc, ws: seq<World>): Doc
    requires |rules| == |ws|
    decreases |ws|
  {
    if ws == [] then daemon
    else DaemonAfter(rules[1..], FinalFile(rules[0], file, ws[0]), FinalDaemon(rules[0], file, daemon, ws[0]), ws[1..])
  }

  /** No transaction of the sequence ends in a dividing outcome. */
  predicate NoneDiverges(rules: seq<Rules>, file: string, ws: seq<World>)
    requires |rules| == |ws|
    decreases |ws|
  {
    ws == [] ||
        (!Diverges(rules[0], file, ws[0]) && NoneDiverges(rules[1..], FinalFile(rules[0], file, ws[0]), ws[1..]))
  }

  /** Then file and daemon agree after any number of transactions, failed or not. */
  lemma {:induction false} SequenceKeepsAgreement(base: Rules, rules: seq<Rules>, file: string, daemon: Doc,
      ws: seq<World>)
    requires |rules| == |ws| && Codec(base) && Agree(base, file, daemon) && NoneDiverges(rules, file, ws)
    requires forall i | 0 <= i < |rules| :: rules[i] == base.(mutate := rules[i].mutate)
    ensures Agree(base, After(rules, file, ws), DaemonAfter(rules, file, daemon, ws))
    decreases |ws|
  {
    hide Codec, FinalFile, FinalDaemon, Diverges, SameRuntime;
    if ws != [] {
      SameCodec(base, rules[0]);
      AgreementIff(rules[0], file, daemon, ws[0]);
      SequenceKeepsAgreement(base, rules[1..], FinalFile(rules[0], file, ws[0]),
          FinalDaemon(rules[0], file, daemon, ws[0]), ws[1..]);
    }
  }
}
