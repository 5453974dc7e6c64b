# Verified model of docker-helper's policy, lifecycle and codecs

Dafny model of the parts of docker-helper that decide authority and keep it
consistent, with proofs of what those parts are for. `dafny verify
dfyconfig.toml` checks everything.

Allowed-root policy

- `Order`, `Paths`: byte order, sorting by a key, path containment.
- `Policy`: entries, validation, most-specific lookup. A scope's meaning is the
  function `Lookup` from a path to none, read-only or read-write.
- `Normalization`, `CanonicalForm`, `SecondPass`: the sorted stack pass against a
  definition without a stack; exactly when it keeps every lookup, when its result is
  the canonical form, and when one pass is enough. All hold under the ordering
  hypothesis `Contiguous`.
- `OrderingWitness`, `CeilingWitness`: concrete policies that show what fails without it.
- `Composition`, `SessionPolicy`: composition as the pointwise meet, issuance
  narrowing, snapshots, derivation, writable and boundary queries.
- `StoredRoots`, `StoredRootsStore`: the three-level stored roots as a state
  machine, and the tables updated in place by the cascade and by every mutation;
  `StoredRootEffects`: what each mutation does, row by row; `EffectivePolicy`: what
  the policy of a Launcher is in terms of the three levels.

Lifecycle and credentials

- `Lifecycle`: the lock holder's small steps interleaved with Session resolution,
  Operation admission and completion, and with restarts; `LifecycleStore`: the
  checked deletes and enabled-state changes run to their end.
- `Rotation`, `CredentialStore`: concurrent bearer rotations with delivery before
  commit, as a protocol and as operations on the table.
- `AdminToken`: staged replacement of the token file with crashes.
- `ConfigTransaction`: write, reload and rollback of the configuration file.

Codecs and scanners

- `Der`, `Utf8`, `CanonicalText`, `X509Name`, `X509Canonical`: DER lengths, string
  conversion, canonical attribute text, subject names; `X509Grammar`, `CanonicalWords`,
  `X509Attributes`: what is accepted, what the canonical text and attributes are.
- `SqlLexer`, `SqlScanner`, `SqlScannerLoops`: the CHECK scanner over tokens, and
  the byte loops that compute it; `SqlTokens`, `SqlChecks`, `SqlCapture`,
  `SqlNormalForm`: what the tokens, the CHECKs found and their expressions are of
  the source text.
- `JsonText`, `ManagedBoundaries`, `AppArmorFragment`, `FragmentRoundTrip`,
  `FragmentRules`, `AppArmorManager`: the managed AppArmor fragment.

Loops of the source are methods with loops proved equal to a definition that
does not share their structure; tables, files and maps the source updates in
place are fields of classes. Answers from outside (commits, Docker, the file
system, the daemon's reload) are parameters, so every theorem holds for every
pattern of failures.

Where the code differs from its own documentation, the model follows the code:

- `allowed_root_policy.go:89-95` promises one normal form in one pass. The sort at
  lines 37-39 compares bytes, and `-` and `.` come before `/`, so an entry can
  be compared with a farther ancestor than its nearest one. The exact conditions
  are `NormalizeFaithfulIff`, `NormalizeCanonicalIff` and `NormalizeIdempotentIff`;
  all hold whenever no entry interrupts a subtree (`ContiguousIff`).
- `allowed_root_policy.go:122-130` and `162-204` promise that composition never widens
  its ceiling and that a request only narrows it. The result is normalized the same
  way, and `NarrowingCanLeaveTheCeiling` shows a ceiling and a request the daemon can
  hold that fail. The exact conditions for narrowing, and for a requested root to get
  its access, are in `ComposeNarrowsIff` and `NarrowingExactIff`. They are local: no
  candidate is dropped while the innermost entry kept around it has another access.
- `allowed_root_policy.go:343-354` promises that a derived snapshot keeps every
  transition inside the workspace. `DerivationCanChangeAccess` and `DerivationCanFail`
  show policies where it does not, or where Session creation is refused;
  `DerivationFaithfulIff` and `DerivationAcceptedIff` say exactly when.
- `database.go:334` says that the newline after a line comment is kept. The outer
  loop's own step passes over it, so it is dropped; `StripComments` drops it.
- `database.go:385-394` promises that a CHECK is captured with its comments dropped.
  The bytes left over are normalized as a new text, so two code bytes a comment kept
  apart can open a comment and lose the code behind them (`SplitOperatorLosesCode`);
  `ExpressionIsCodeIff` says exactly when nothing is lost.
- `launcher_lifecycle.go:432-442` describes admission as the mirror of the durable
  authorities. A starting daemon quiesces nothing (operation.go:256-264) and creation
  does not touch admission (launcher_lifecycle.go:259-267), so Launchers closed at a
  start or created under a disabled Principal are closed without being quiesced; failed
  re-reads and unreported enables leave open ones quiesced.
  `AdmissionMirrorsAuthorities` names exactly these, and `OnlyOpenLaunchersAdmit`
  shows that no Operation is admitted for a closed Launcher in spite of them.

## Model

| member | source | states |
|---|---|---|
| `Paths.RelWithinIsWithin` | path_containment.go:10-19 | On canonical paths the source's relative-path test (equal, or filepath.Rel does not go up) is the textual containment used everywhere in the model |
| `Paths.WithinIsComponentPrefix` | path_containment.go:10-32 | On canonical paths, containment is exactly the prefix relation on path components |
| `Paths.BetweenStartsWith` | allowed_root_policy.go:34-39 | A path sorting between an ancestor and its descendant is under the ancestor unless it continues the ancestor's text with a byte below `/` |
| `Paths.CanonicalIff` | allowed_root_policy.go:48-55 | The canonical paths are exactly the absolute ones that lexical cleaning (empty and `.` parts go, `..` takes the part before it) leaves alone |
| `Policy.ValidateCanonical` | allowed_root_policy.go:47-65 | Accepts exactly the valid scopes; otherwise names the first faulty entry and its fault (not canonical, unknown access, conflicting, duplicate) |
| `Policy.LookupAccess` | allowed_root_policy.go:71-87 | The loop's answer: none exactly when nothing contains the path, else the access of an entry that is under every other entry containing it |
| `Policy.LookupOrderFree` | allowed_root_policy.go:67-87 | With distinct paths, lookup depends on the entries alone and not on their order |
| `Policy.LookupGoverned` | allowed_root_policy.go:67-87 | With distinct paths, any most specific entry decides the lookup |
| `Normalization.NormalizeEntries` | allowed_root_policy.go:96-120 | The sort and the one stack pass keep exactly the entries that differ from their nearest visible ancestor, a definition without a stack |
| `Normalization.TopDecides` | allowed_root_policy.go:107-117 | After unwinding, the top of the stack has the access of the nearest visible ancestor, and the stack invariant carries to the next entry |
| `Normalization.NormalizeFaithfulIff` | allowed_root_policy.go:89-120 | One pass keeps the lookup of every path if and only if no entry is masked (dropped for a visible ancestor while a nearer, invisible one has the other access); no ordering hypothesis |
| `Normalization.KeepsAtIff` | allowed_root_policy.go:89-120 | One pass keeps the access at an entry's own path if and only if the entry is not overruled: dropped, although the innermost ancestor the pass retains has another access |
| `CanonicalForm.NormalizeCovers` | allowed_root_policy.go:89-120 | Normalization covers exactly the same paths, without any ordering hypothesis |
| `CanonicalForm.NormalizeSelects` | allowed_root_policy.go:89-120 | The result is a strictly sorted selection of the input, empty only for the empty input |
| `CanonicalForm.NormalizeFixedIff` | allowed_root_policy.go:89-120 | A list is its own normal form exactly when it is strictly sorted and no entry repeats its nearest visible ancestor |
| `CanonicalForm.ContiguousIff` | allowed_root_policy.go:34-39 | The ordering hypothesis fails exactly when some entry continues the text of an entry that has a descendant with a byte below `/` |
| `CanonicalForm.PlainPathsAreContiguous` | allowed_root_policy.go:34-39 | Paths written with bytes from `/` upwards always satisfy the ordering hypothesis |
| `CanonicalForm.NormalizeFaithful` | allowed_root_policy.go:89-120 | Under the ordering hypothesis normalization preserves the lookup of every path |
| `CanonicalForm.NormalizeReduces` | allowed_root_policy.go:89-120 | Under the hypothesis every retained entry changes the access of its innermost retained ancestor |
| `CanonicalForm.NormalizeIdempotent` | allowed_root_policy.go:89-120 | Under the hypothesis a second pass changes nothing |
| `CanonicalForm.CanonicalFormUnique` | allowed_root_policy.go:89-120 | Two lists whose innermost ancestors decide (the condition of `NormalizeCanonicalIff`) have equal normal forms exactly when their lookups agree at every path |
| `CanonicalForm.NormalizeCanonicalIff` | allowed_root_policy.go:89-120 | One pass keeps every lookup and leaves no entry with the access of its innermost retained ancestor if and only if it drops exactly the entries that have the access of their innermost proper ancestor; no ordering hypothesis |
| `CanonicalForm.ContiguousDecides` | allowed_root_policy.go:89-120 | Under the ordering hypothesis the nearest visible ancestor is the innermost one, so that condition holds |
| `SecondPass.NormalizeIdempotentIff` | allowed_root_policy.go:89-120 | Without the hypothesis: a second pass changes nothing if and only if no retained entry has the access of an ancestor that only dropped entries hid from it |
| `OrderingWitness.NormalizationCanChangeAccess` | allowed_root_policy.go:96-120 | With entries at `/a`, `/a/w/b`, `/a/w/b-x`, `/a/w/b/c` whose first and last accesses are equal and differ from the second's, one pass gives `/a/w/b/c` the access of `/a/w/b`, in either direction |
| `OrderingWitness.NormalizationCanNeedASecondPass` | allowed_root_policy.go:96-120 | With the last access equal to the second's and the third to the first's, a second pass drops an entry the first kept, although both lists give every path the same access; the snapshot constructor refuses the first pass's result, and equal lookups have two normal forms |
| `CeilingWitness.NarrowingCanLeaveTheCeiling` | allowed_root_policy.go:205-245 | A ceiling that composition yields, a workspace properly inside one of its roots and a grantable request, whose grant is read-write at a path where the ceiling is read-only |
| `CeilingWitness.DerivationCanChangeAccess` | allowed_root_policy.go:359-382 | For every two accesses a policy that composition yields and a workspace properly inside one of its roots, where the derived list gives a path inside the workspace the other access |
| `CeilingWitness.DerivationCanFail` | allowed_root_policy.go:359-382 | Likewise a policy and a workspace whose derived list the snapshot constructor refuses |
| `Composition.ComposeScopes` | allowed_root_policy.go:130-160 | The map-driven composition, iterated in any order, yields one determined list: the normal form of the candidates of two valid scopes, else nothing |
| `Composition.CandidatesMeet` | allowed_root_policy.go:140-158 | Before normalization the candidates look up, at every path, to the access meet of both scopes |
| `Composition.ComposeIsMeetIff` | allowed_root_policy.go:122-160 | Composition is the pointwise meet at every path if and only if no candidate is masked |
| `Composition.ComposeSelf` | allowed_root_policy.go:122-160 | A scope composed with itself is its normal form |
| `Composition.ComposeIsMeet` | allowed_root_policy.go:122-160 | Under the ordering hypothesis for the paths of both scopes, the composed lookup is none if either scope gives none and otherwise the access meet |
| `Composition.ComposeCovers` | allowed_root_policy.go:122-160 | Composition covers exactly what both scopes cover, without the hypothesis |
| `Composition.ComposeValid` | allowed_root_policy.go:122-160 | The result is a valid sorted scope whose paths come from the two inputs |
| `Composition.ComposeOrderFree` | allowed_root_policy.go:122-160 | The result does not depend on the order of either input, without the hypothesis |
| `Composition.ComposeCommutes` | allowed_root_policy.go:122-160 | Which scope is the ceiling does not matter, without the hypothesis |
| `Composition.ComposeAssociates` | allowed_root_policy.go:122-160 | Under the hypothesis the three-level composition does not depend on its bracketing |
| `SessionPolicy.NarrowSession` | allowed_root_policy.go:205-245 | Grants exactly the well-formed requests whose every root stays within the ceiling's authority and mode; every refusal is justified by its reason |
| `SessionPolicy.ScopeElements` | allowed_root_policy.go:227-239 | The composed scope is the requested roots plus the implicit workspace grant unless a root stands at the workspace |
| `SessionPolicy.NarrowingIsExact` | allowed_root_policy.go:205-245 | Under the hypothesis the granted policy is nowhere above the ceiling, gives each requested root exactly its requested access, authorizes the workspace, reaches nothing outside the requested scope, and is accepted by the snapshot constructor |
| `SessionPolicy.ComposeNarrowsIff` | allowed_root_policy.go:122-130 | A composition is pointwise at or below its ceiling if and only if no candidate under a read-only ceiling is dropped while its innermost retained ancestor is read-write; no ordering hypothesis |
| `SessionPolicy.NarrowingExactIff` | allowed_root_policy.go:205-245 | Without the hypothesis, each if and only if: the grant stays at or below the ceiling at every path exactly if no candidate under a read-only ceiling is overruled; a requested root or the implicit workspace grant gets exactly its access exactly if its candidate is not overruled; the grant is the meet at every path exactly if no candidate is masked; the constructor accepts it exactly if one pass is enough |
| `SessionPolicy.NewSnapshot` | allowed_root_policy.go:324-341 | Accepts exactly the valid, non-empty, workspace-authorizing lists that are their own normal form |
| `SessionPolicy.IssuableIff` | allowed_root_policy.go:324-341 | The accepted lists are exactly the strictly sorted ones without repeats of a nearest visible ancestor |
| `SessionPolicy.DeriveSnapshot` | allowed_root_policy.go:359-382 | Succeeds exactly when the inputs are valid and the derived candidates normalize to an accepted list, and returns it |
| `SessionPolicy.DerivationFaithfulIff` | allowed_root_policy.go:343-382 | The derived list restricts the effective policy to the workspace at every path if and only if no candidate is masked |
| `SessionPolicy.DerivationAcceptedIff` | allowed_root_policy.go:343-382 | The derivation passes the constructor's canonical-form check if and only if one normalization pass is enough |
| `SessionPolicy.DerivationIsExact` | allowed_root_policy.go:343-382 | Under the hypothesis the derived snapshot is always accepted, agrees with the effective policy inside the workspace and gives none outside |
| `SessionPolicy.CanExposeWritable` | allowed_root_policy.go:432-443 | True exactly when every path at or below the source looks up read-write |
| `SessionPolicy.MacBoundaries` | allowed_root_policy.go:407-422 | Returns pairwise non-nested entry paths covering exactly the authorized paths, the workspace among them, without the hypothesis |
| `StoredRoots.CeilingCovers` | allowed_root_policy.go:261-263 | The effective Principal ceiling covers a path exactly when both scopes are valid and both cover it |
| `EffectivePolicy.EffectiveCovers` | allowed_root_policy.go:282-299 | A Launcher is unavailable exactly if it is restricted and one of its roots is not under both the global and its Principal's roots; an available policy covers exactly the paths under both and, for a restricted Launcher, under its own roots |
| `EffectivePolicy.EffectiveIsMeet` | allowed_root_policy.go:257-299 | Under the ordering hypothesis for all three levels the effective policy looks up to the meet of the global, the Principal's and, for a restricted Launcher, the Launcher's rows at every path |
| `EffectivePolicy.ComposeIsMeetAtIff` | allowed_root_policy.go:122-160 | Without the hypothesis: a composition gives a path the meet if and only if the candidate governing that path is not overruled |
| `EffectivePolicy.EffectiveIsMeetAtIff` | allowed_root_policy.go:257-299 | Without the hypothesis, the exact condition for the three-level meet at a path: both compositions are right there, or the first one's error is hidden by a read-only own root or undone by the second |
| `StoredRoots.CascadeDeletesExactlyUncovered` | allowed_root_cascade.go:57-189 | The cascade deletes exactly the rows it is scoped to that the resulting parent ceiling does not contain; scope modes, owners and everything else stay |
| `StoredRoots.CascadeIdempotent` | allowed_root_cascade.go:57-189 | A second cascade deletes nothing |
| `StoredRoots.CascadeContains` | allowed_root_cascade.go:57-189 | Afterwards every restricted root in scope lies in its Principal's effective ceiling |
| `StoredRoots.CoherentIsFixed` | allowed_root_cascade.go:57-189 | In a coherent state no cascade deletes a row |
| `StoredRoots.AccessChangeDeletesNothing` | allowed_root_cascade.go:81-84 | A transition that changes only access modes of the global ceiling deletes no stored row |
| `StoredRoots.CanonicalRowsElements` | launcher.go:425-453 | The validated rows are exactly the distinct requested roots in path order, all inside the ceiling |
| `StoredRootEffects.TransitionDoes` | allowed_root_cascade.go:57-115 | A global transition publishes the ceiling and keeps exactly the Principal rows it covers, and of a restricted Launcher's rows exactly those under the ceiling and the kept Principal rows |
| `StoredRootEffects.RemoveDoes` | allowed_root_cascade.go:121-189 | Removing a root takes exactly that path out of the rows; a Principal's removal then leaves its restricted Launchers exactly the rows still under both levels above, and nobody else loses a row |
| `StoredRootEffects.AddDoes` | launcher.go:692-765 | An added entry joins the rows unless its path is stored, and makes an inherit Launcher restricted; every other row and mode stays |
| `StoredRootEffects.SetAccessDoes` | principal.go:566-622 | Exactly the entry at the path has the new access; every other entry stays |
| `StoredRootEffects.CreateDoes` | launcher.go:501-674 | Created rows and replaced scopes hold exactly the requested roots, a new Principal its home root read-write and one inherit Launcher |
| `StoredRootEffects.DeleteDoes` | principal.go:662-727 | A deleted Principal goes with exactly its own Launchers, a deleted Launcher alone |
| `StoredRoots.TransitionEstablishes` | allowed_root_cascade.go:216-236 | Startup and reload establish coherence from any schema-valid tables in which inherit Launchers store no roots |
| `StoredRoots.StepKeepsCoherence` | lifecycle_owner.go:11-131 | Every global, Principal and Launcher mutation keeps the stored roots coherent |
| `StoredRoots.EveryRunIsCoherent` | lifecycle_owner.go:11-131 | After any sequence of mutations inherit Launchers store no roots, every stored root lies under its parent, and the effective policy of every Launcher is available |
| `StoredRootsStore.ValidateLauncherRoots` | launcher.go:425-453 | Accepts exactly the admissible requests, returns their distinct rows in path order, and justifies every refusal |
| `StoredRootsStore.PruneStep` | allowed_root_cascade.go:131-143 | Looking at one row keeps it in place or deletes and reports it, so the loop's table is always the kept prefix and the unread rest |
| `StoredRootsStore.Store.PruneStored` | allowed_root_cascade.go:85-115 | The nested deletion loops leave the tables exactly as the cascade function says and report exactly the deleted rows |
| `StoredRootsStore.Store.PrunePrincipal` | allowed_root_cascade.go:121-189 | One Principal's rows and its restricted Launchers' rows are pruned, and no other row changes |
| `StoredRootsStore.Store.TransitionGlobal` | reload.go:126-156 | Rows and published ceiling change together or not at all; success is coherent |
| `StoredRootsStore.Store.RemovePrincipalRoot` | allowed_root_cascade.go:255-309 | Deletes the exact row and the Launcher rows it no longer carries in one commit; a root that was not stored runs no cascade |
| `StoredRootsStore.Store.AddPrincipalRoot` | principal.go:493-540 | Adds a root under the global ceiling once, never changing a stored access, and reports the stored entry |
| `StoredRootsStore.Store.SetPrincipalAccess` | principal.go:566-622 | Changes exactly one stored access, refuses a missing row, reports a change exactly when there is one |
| `StoredRootsStore.Store.CreatePrincipal` | principal.go:186-278 | Creates the Principal with its home root and an inherit Launcher, or nothing |
| `StoredRootsStore.Store.CreateLauncher` | launcher.go:501-597 | Creates a Launcher exactly for an admissible scope and stores its canonical rows |
| `StoredRootsStore.Store.ReplaceScope` | launcher.go:616-674 | Replaces scope and rows together, or leaves both as they were |
| `StoredRootsStore.Store.AddLauncherRoot` | launcher.go:692-765 | A new root inside the ceiling narrows an inherit Launcher; a stored root keeps its row |
| `StoredRootsStore.Store.RemoveLauncherRoot` | launcher.go:775-799 | Removes one row and never the scope mode |
| `StoredRootsStore.Store.SetLauncherAccess` | launcher.go:813-862 | Changes exactly one stored access and never the scope mode |
| `StoredRootsStore.Store.DeleteLauncher` | launcher_lifecycle.go:535-552 | Removes the Launcher with its rows, or nothing |
| `StoredRootsStore.Store.DeletePrincipal` | principal.go:662-727 | Removes the Principal with its rows and Launchers, or nothing |
| `StoredRootsStore.Store.EffectiveLauncherRoots` | allowed_root_policy.go:282-299 | Computes the three-level policy: it covers exactly the paths under the global and the Principal's rows and, if restricted, the Launcher's; in a coherent store it never refuses |
| `Der.ParseLength` | ca.go:231-256 | The shifting loop in 64-bit arithmetic reads the definite-form length, refusing an indefinite, oversized, truncated or wrapped one |
| `Der.EncodeLength` | ca.go:412-425 | The prepending loop yields the length octets |
| `Der.LengthRoundTrip` | ca.go:230-256 | For every length in 0..2^63-1 parsing undoes encoding at every offset and whatever follows |
| `Der.LengthOctetsShortest` | ca.go:411-425 | Among the accepted encodings of a length the encoder's is the shortest and the only one that short (X.690 section 10.1) |
| `Utf8.EncodeDecodes` | ca.go:295-366 | The written bytes of scalar values are well-formed UTF-8 (RFC 3629) that decodes to exactly those values |
| `Utf8.Convert` | ca.go:297-366 | The three conversion loops produce the encoding of the declared code points, or refuse exactly the inconvertible input |
| `Utf8.ConversionIsExact` | ca.go:295-366 | T61, BMP and Universal strings: accepted exactly when made of whole units that are scalar values, and then decoding to exactly them; T61 is always accepted |
| `CanonicalText.CanonicalizeText` | ca.go:379-408 | The strip and collapse passes compute the lower-case words of the text joined by single spaces |
| `CanonicalText.CanonicalizedIsIdempotent` | ca.go:368-409 | Canonicalizing twice is canonicalizing once |
| `CanonicalText.SameCanonicalFormIff` | ca.go:368-409 | Two texts have one canonical form exactly when they have the same words up to ASCII case |
| `CanonicalText.CanonicalizedFixedIff` | ca.go:368-409 | The fixed points are exactly the texts without surrounding, doubled or unusual whitespace and without capitals |
| `CanonicalText.CanonicalValueIdempotent` | ca.go:371-409 | The canonical value of any string type, taken as UTF8String, is its own canonical value |
| `CanonicalWords.CanonicalizedSpells` | ca.go:373-389 | For every division of a text into words by literal blank bytes, its canonical text is those words in small letters with single 0x20 between them |
| `CanonicalWords.CanonicalizedEqualIff` | ca.go:373-389 | Two texts have one canonical text if and only if they have the same words up to ASCII case |
| `X509Name.ParseRawSubject` | ca.go:144-228 | The nested offset loops parse exactly the SEQUENCE of SETs of attribute SEQUENCEs, refusing every item that does not fit |
| `X509Grammar.ReadNameIff` | ca.go:145-256 | The parser reads a name from a text if and only if the text starts with an encoding of it: SEQUENCE, SETs, SEQUENCEs of an OID and a value, each in any definite length form below 2^63, nothing left over in a SET or the name, anything behind a value or the name |
| `X509Name.BuildCanonicalName` | ca.go:433-493 | The buffer loops build, for each RDN, the SET of its canonicalized attributes sorted by their DER; `NameHoldsCanonicalAttributes` and `EncodingShape` say what those are |
| `X509Canonical.ReadAttrBack` | ca.go:186-223 | Reading an encoded attribute gives back its OID, tag and value |
| `X509Canonical.ParseUndoesEncoding` | ca.go:144-228 | Parsing any encoded name gives back its RDNs and attributes in order, whatever follows the outer SEQUENCE |
| `X509Canonical.RdnBack` | ca.go:476-490 | The SET of a canonicalized RDN parses to canonical attributes in DER order |
| `X509Canonical.CanonicalNameIsProjection` | ca.go:427-493 | Wrapping the canonical encoding in a SEQUENCE, parsing it and building again gives the same bytes |
| `X509Canonical.SameCanonicalNameIff` | ca.go:427-493 | Two names have one canonical encoding exactly when their RDNs pairwise have the same canonicalized attributes, in whatever order (X.690 section 11.6) |
| `X509Canonical.CanonicalNameExistsIff` | ca.go:433-493 | The canonical name exists exactly when every string attribute converts to UTF-8 |
| `X509Attributes.TextIff` | ca.go:295-366 | The conversion yields a text exactly if its bytes encode the code points the declared string type gives the data: bytes, big-endian pairs or big-endian quads |
| `X509Attributes.NameHoldsCanonicalAttributes` | ca.go:433-493 | Parsing the canonical name in a SEQUENCE gives, for every RDN, its attributes in ascending DER order: those with tag 0x0c, 0x13, 0x16, 0x14, 0x1e, 0x1c or 0x1a as 0x0c with the words of their text in small letters and single spaces, every other one unchanged |
| `X509Attributes.EncodingShape` | ca.go:411-425 | The literal octets of lengths, attributes and RDNs: 0x30 for a SEQUENCE, 0x31 for a SET, 0x06 for an object identifier (X.690 sections 8.1.3, 8.9, 8.12 and 8.19) |
| `X509Attributes.CanonicalAttrSameIff` | ca.go:258-273 | Two convertible attributes have one canonical form if and only if they are equal, or have the same object identifier and string types of the seven and the same words up to ASCII case |
| `X509Attributes.SameAttributesSameName` | ca.go:433-493 | Names whose attributes are the same one by one in that sense have one canonical encoding |
| `X509Attributes.NameHasTextsIff` | ca.go:433-493 | A name has a canonical encoding if and only if every attribute of the seven string types has a text |
| `SqlLexer.UnlexLex` | database.go:385-394 | The tokens of a schema text spell the text |
| `SqlTokens.TokensAre` | database.go:400-480 | The tokens are the one way to cut the text, in literal delimiters, into comments that end at their first closer, quoted texts whose closers are doubled inside, and code bytes that open neither |
| `SqlLexer.ReplaceBody` | database.go:385-394 | Replacing the body of one comment or quoted text by another that does not end it earlier leaves every other token in place |
| `SqlScanner.ScanSeesOnlyCode` | database.go:395-534 | Two scans of texts that differ only in comments and in quoted texts outside every CHECK proceed alike and find the same expressions |
| `SqlScanner.OnlyCodeIsSeen` | database.go:385-394 | Hence such texts have the same CHECK expressions |
| `SqlScanner.ReplacedBodyIsUnseen` | database.go:385-394 | Replacing the body of any comment, or of any quoted text opened outside a CHECK, never changes the CHECK expressions |
| `SqlScanner.NormalFormSeesNoComment` | database.go:349-355 | Replacing the body of a comment never changes the normal form of a schema text |
| `SqlCapture.ScanGathers` | database.go:385-394 | The expressions are the normal forms of the CHECK bodies without their comments, body by body |
| `SqlCapture.BodiesAreSlices` | database.go:395-534 | Every body is a run of source tokens, in which no two code bytes that stand side by side open a comment |
| `SqlChecks.ChecksAre` | database.go:484-534 | The bodies are exactly what the CHECK keywords enclose, by position: the keyword in any case, no part of a longer name, then only blanks and comments, then a parenthesis up to the one that balances it; every such keyword lies in one of these CHECKs or behind one that is never closed |
| `SqlCapture.JoinedLex` | database.go:353-355 | Code tokens put side by side read back without a comment exactly when no two neighbours are `--` or `/*`, also where neighbouring quoted texts merge |
| `SqlCapture.ExpressionIsCodeIff` | database.go:385-394 | An expression holds all the code of its CHECK if and only if no two code bytes with only comments between them are `--` or `/*` |
| `SqlCapture.SplitOperatorLosesCode` | database.go:385-394 | `CHECK(a-/**/-b)` yields the expression of `CHECK(a)`, while `CHECK(a- -b)` yields `a--b` |
| `SqlScannerLoops.SkipBlanks` | database.go:359-383 | The skip loop stops exactly after the blanks and comments |
| `SqlScannerLoops.StripComments` | database.go:267-347 | The byte loop writes exactly the text of the tokens that are not comments |
| `SqlNormalForm.NormalFormIs` | database.go:353-355 | The normal form keeps, in order, exactly the bytes of the comment-free text that are no blanks, with A-Z as a-z and every other byte unchanged |
| `SqlNormalForm.ExpressionIs` | database.go:505 | Every CHECK expression is that form of the code of its CHECK, read as a text of its own |
| `SqlNormalForm.NormalFormsEqualIff` | database.go:349-355 | Two schema texts have one normal form if and only if, without their comments, they differ in ASCII case and blanks only |
| `SqlNormalForm.ChecksIgnoreCase` | database.go:395-534 | Schema texts that differ in ASCII case only have the same CHECK expressions |
| `SqlScannerLoops.NormalizeSchema` | database.go:353-355 | The result is the text without its comments, with exactly the blanks removed, in order, every capital made small and every other byte as it is |
| `SqlScannerLoops.CheckExpressions` | database.go:395-534 | The byte loop with its context, depth and buffer computes the token-level scan, whose expressions `ChecksAre`, `ScanGathers` and `ExpressionIs` describe |
| `SqlScannerLoops.KeywordIff` | database.go:511-515 | The byte test for the keyword agrees with the token-level keyword |
| `Lifecycle.AdmitKeeps` | operation.go:420-435 | Admission, refused for a quiesced Launcher, keeps every invariant between any two steps of a lock holder |
| `Lifecycle.CheckKeeps` | launcher_lifecycle.go:351-372 | The per-Operation polling of the runtime check keeps the invariants while Operations end around it |
| `Lifecycle.RemoveKeeps` | launcher_lifecycle.go:535-552 | Removing the rows after the check takes no row a running Operation needs |
| `Lifecycle.RemoveDoes` | launcher_lifecycle.go:535-552 | A removal that took effect takes exactly the Launcher, or exactly the Principal with its Launchers and their Sessions |
| `Lifecycle.CommitDoes` | launcher_lifecycle.go:286-346 | A change that took effect sets exactly that enabled state; a disable ends exactly the Sessions below it, an enable none |
| `Lifecycle.EveryStepIsSafe` | launcher_lifecycle.go:627-947 | Every step of every actor, and a restart at any point, keeps the invariants |
| `Lifecycle.OperationsKeepTheirLauncher` | launcher_lifecycle.go:627-720 | From any just started daemon, in every interleaving of admissions, completions, failures, checked deletes and restarts, each running Operation's Launcher row exists and every Session belongs to an open Launcher |
| `Lifecycle.AdmissionMirrorsAuthorities` | launcher_lifecycle.go:286-346 | Whenever the lock is free, a Launcher is closed and not quiesced exactly if it was closed at a start or born closed and not settled since, and open and quiesced exactly if a failed re-read or an unreported enable left it so and nothing settled it since |
| `Lifecycle.OnlyOpenLaunchersAdmit` | operation.go:420-435 | An Operation is admitted only for a Launcher that is open at that moment, also where admission misses closed Launchers |
| `Lifecycle.ClosedAreQuiesced` | launcher_lifecycle.go:432-442 | Over runs whose daemons start with every Launcher open and that create Launchers under enabled Principals only, every closed Launcher is quiesced |
| `Lifecycle.QuiescedAreClosed` | launcher_lifecycle.go:432-442 | Over runs without a failed re-read and an unreported enable every quiesced Launcher is closed, whatever was created or restarted |
| `Lifecycle.BornClosedIsMissed` | launcher_lifecycle.go:259-267 | In every safe state, a Launcher created under a disabled Principal is closed and not quiesced |
| `Lifecycle.RestartMisses` | operation.go:256-264 | In every state, a restart leaves every closed Launcher unquiesced |
| `Lifecycle.UnreportedEnableSticks` | launcher_lifecycle.go:308-334 | In every safe state, an enable that commits although an error came back leaves the opened Launcher quiesced |
| `Lifecycle.FailedRereadSticks` | launcher_lifecycle.go:308-325 | In every safe state, a disable that fails and whose re-read fails leaves an open Launcher quiesced |
| `LifecycleStore.InspectedIff` | launcher_lifecycle.go:571-588 | Quiet exactly when the listing succeeded and every container is created, exited or dead; otherwise the first other container decides: running, paused, restarting and removing are active, any other state fails the inspection |
| `LifecycleStore.FirstRefusalIff` | launcher_lifecycle.go:771-800 | The check of a Principal's children passes exactly if no Operation of any of them runs and every container is created, exited or dead; otherwise the first other child decides the refusal |
| `LifecycleStore.Store.LauncherVerdictIff` | launcher_lifecycle.go:678-720 | Every verdict of a Launcher delete exactly in terms of the Operations, the container states and the answers of cleanup, disable and removal |
| `LifecycleStore.Store.PrincipalVerdictIff` | launcher_lifecycle.go:771-847 | Every verdict of a Principal delete likewise, over all children; a failed disable names the first child whose disable failed |
| `LifecycleStore.Store.InspectRuntime` | launcher_lifecycle.go:571-588 | Quiet exactly if no Operation of the Launcher runs, the listing succeeded and every container is created, exited or dead; the loop stops at the first container that decides |
| `LifecycleStore.Store.RestoreAdmission` | launcher_lifecycle.go:853-857 | Every re-read Launcher is quiesced exactly if closed, every other one stays as it was, and no closed one is reopened |
| `LifecycleStore.Store.DisableLauncher` | launcher_lifecycle.go:608-625 | Disables the row and removes its Sessions together, or changes no row and re-reads admission |
| `LifecycleStore.Store.SetLauncherEnabled` | launcher_lifecycle.go:298-346 | A committed enable opens admission exactly if the authorities are open, a committed disable closes it and ends its Sessions |
| `LifecycleStore.Store.DisablePrincipal` | launcher_lifecycle.go:889-915 | Closes every child before the commit and re-reads each if it fails; Sessions go exactly if the Principal was enabled |
| `LifecycleStore.Store.EnablePrincipal` | launcher_lifecycle.go:938-947 | Opens exactly the children that are enabled themselves |
| `LifecycleStore.Store.DeleteLauncherChecked` | launcher_lifecycle.go:678-720 | The result is the verdict of the check, and a deleted Launcher had no running Operation and only created, exited or dead containers; a refusal before the disable changes no row, one after it leaves a disabled Launcher without Sessions |
| `LifecycleStore.Store.DeletePrincipalChecked` | launcher_lifecycle.go:771-847 | The verdict for every failure pattern; a deletion means every child's runtime was gone; a refused check changes no row; a failed disable leaves a prefix of the Launchers disabled, quiesced and without Sessions and the rest as before; the returned IDs are exactly the Sessions removed, each once |
| `Rotation.StepKeeps` | credential_rotation.go:43-84 | Every step of concurrent rotations, issues, revokes and deletes keeps the invariants |
| `Rotation.RotationsFormChains` | credential_rotation.go:43-84 | In every run a success put its replacement directly after the hash it prepared against, a conflict or failed delivery never activated its own, only an unknown commit is undetermined, and no hash is current twice |
| `Rotation.OneWinnerPerHash` | credential_rotation.go:38-52 | Of all rotations prepared against one hash at most one activates its replacement |
| `Rotation.ReplacedBearerIsDead` | credential_rotation.go:38-52 | After a successful rotation the replaced bearer never authenticates again |
| `Rotation.RevokedStays` | credential.go:226-266 | No step reactivates a revoked credential or changes its hash |
| `CredentialStore.Store.PreparePrincipal` | credential.go:272-319 | Finds the one active credential of that name and its hash; tells a revoked name from an unknown one |
| `CredentialStore.Store.PrepareLauncher` | launcher_credential.go:118-163 | Finds the Launcher's single credential, optionally only an exact one |
| `CredentialStore.Store.Replace` | credential.go:325-349 | The compare-and-swap changes exactly the row with the prepared owner, hash and state, else reports a conflict |
| `CredentialStore.Store.CommitAfterDelivery` | credential_rotation.go:53-84 | The verdict of each failure pattern, and the new hash exactly after a commit that took effect |
| `CredentialStore.Store.Revoke` | credential.go:226-266 | Revokes an active Principal credential once, never a Launcher's |
| `CredentialStore.Store.IssueLauncher` | launcher_credential.go:29-54 | Issues exactly if the Launcher has no credential |
| `CredentialStore.Store.DeleteLauncherCredential` | launcher_credential.go:251-281 | Deletes the Launcher's single credential and names it |
| `CredentialStore.TransactionRefinesProtocol` | credential_rotation.go:53-84 | One run of CommitAfterDelivery is a run of the protocol's steps with the verdict and the table that method states |
| `AdminToken.Tokens.Rotate` | app.go:138-218 | Every failure keeps token file and hash; success replaces both; at every intermediate disk state the token file is wholly old or wholly new; a stale authorization touches nothing |
| `AdminToken.OneReplacementPerToken` | app.go:121-218 | Over any run with failures and crashes the stored token's hash is the one in memory whenever the lock is free, and each token authorizes at most one replacement |
| `AdminToken.ResidueNeverBlocks` | app.go:134-171 | Whatever a crash left at the staging pathname, the next rotation with the current token succeeds and leaves none |
| `ConfigTransaction.Host.Execute` | config_cli.go:1339-1531 | For what the operation asks for and every failure pattern: the final file, the daemon's configuration, and that a reload is attempted exactly for a written document that is not startup-only; exit code 0 exactly when the request was met, 2 exactly for a user error; a final accepted reload means the daemon's configuration equals the file's |
| `ConfigTransaction.PlannedIff` | config_cli.go:1380-1455 | The plan is to write d if and only if the file, with a legacy member replaced by its migrated roots, passes the grammar, the operation turns it into d without asking to skip, and both validators accept d; likewise for skipped writes and user errors |
| `ConfigTransaction.RequestFollows` | config_cli.go:1456-1531 | For every failure pattern: a requested document is the file exactly if it is not skipped, the write succeeds and no refused reload is rolled back; the daemon runs on it after an accepted reload, and a skipped or startup-only request leaves the daemon alone |
| `ConfigTransaction.NothingFollows` | config_cli.go:1339-1455 | Without a requested document, the lock or the file, neither file nor daemon changes |
| `ConfigTransaction.FileStaysSound` | config_cli.go:1314-1531 | For every mutation and failure pattern the file ends untouched or holding a document that passed both validators |
| `ConfigTransaction.SequenceStaysSound` | config_cli.go:1314-1531 | The same over any sequence of transactions |
| `ConfigTransaction.AgreementIff` | config_cli.go:1456-1531 | A file and daemon that agreed still agree afterwards exactly if the mutation changed only the startup-only member or the outcome does not divide them: a written document that was not reloaded or could not be rolled back, or a lost reply of a daemon that had loaded it and did not come back |
| `ConfigTransaction.SequenceKeepsAgreement` | config_cli.go:1314-1531 | Over any number of transactions, failed or not, without such an outcome file and daemon keep agreeing |
| `ManagedBoundaries.SortManaged` | apparmor.go:256-273 | The sort and dedupe loop computes the canonical boundary list |
| `ManagedBoundaries.ManagedIs` | apparmor.go:256-273 | The canonical list is strictly sorted by path and holds, for each path, its directory entry if it has one and else its file entry |
| `ManagedBoundaries.ManagedIdempotent` | apparmor.go:256-273 | Canonicalizing twice is canonicalizing once |
| `ManagedBoundaries.ManagedOrderFree` | apparmor.go:256-273 | The canonical list depends on the boundaries and not on their order |
| `JsonText.QuoteRoundTrip` | apparmor.go:205-208 | A JSON string reader recovers every quoted text, whatever follows it (RFC 8259 section 7) |
| `JsonText.EscapeHides` | apparmor.go:205-208 | The encoder leaves alone every character but quote, backslash, control characters, `<`, `>`, `&` and the two line separators, and no control character, `<`, `>`, `&` or line separator appears in its output |
| `AppArmorFragment.ValidateBoundaryPath` | apparmor.go:108-134 | Accepts exactly the clean absolute paths other than the root without a pattern character and without a control character (C0, DEL, C1), and otherwise names a fault the path has |
| `AppArmorFragment.RenderFragment` | apparmor.go:275-303 | The buffer loop prints headers, metadata and rules of the canonical list |
| `AppArmorFragment.ParseFragment` | apparmor.go:305-351 | The line loop with its re-rendering check computes the parse function |
| `FragmentRules.EscapeReads` | apparmor.go:211-215 | An escaped path between quotes reads back as the path, whatever plain text follows it inside: no quote inside is unescaped |
| `FragmentRules.RulesGrant` | apparmor.go:275-303 | A regular file's rule grants reading exactly that file; a directory's two rules grant the directory and everything below it |
| `FragmentRoundTrip.DecodeMetaText` | apparmor.go:358-371 | The metadata of a boundary decodes to that boundary |
| `FragmentRoundTrip.RoundTrip` | apparmor.go:275-351 | Parsing a print of lexically valid boundaries, under either heading, gives their canonical list |
| `FragmentRoundTrip.AcceptedIff` | apparmor.go:305-351 | A text is accepted exactly when it is such a print, and then equals the print of its own parse up to the older heading |
| `FragmentRoundTrip.PrintsAlikeIff` | apparmor.go:275-303 | Valid lists print alike exactly when their canonical lists are equal |
| `AppArmorManager.Manager.Add` | apparmor.go:590-648 | A new boundary is listed, printed and loaded; a known one changes nothing, one of another kind is refused; a failed reload restores the bytes |
| `AppArmorManager.Manager.Remove` | apparmor.go:650-698 | Exactly the boundary at the path goes; a failed reload restores the bytes |
| `AppArmorManager.Manager.Rewrite` | apparmor.go:576-648 | Every pattern of write, reload and rollback failures ends in the new fragment or the snapshot's bytes, and a proven rollback has them loaded |
| `AppArmorManager.RemoveUndoesAdd` | apparmor.go:590-698 | Removing a boundary just added restores list and printed text |
| `AppArmorManager.AddUndoesRemove` | apparmor.go:590-698 | Adding back a boundary just removed restores the list |

## Left out

- CanonicalFormUnique: for lists whose innermost ancestors decide, which the ordering hypothesis implies; `NormalizationCanNeedASecondPass` shows two lists with equal lookups and different normal forms.
- ComposeAssociates: stated under the ordering hypothesis for the union of the paths; `ComposeIsMeetIff` gives the exact condition for each single composition.
- EffectiveIsMeet: stated under the ordering hypothesis for the paths of all three levels; `EffectiveIsMeetAtIff` gives the exact condition at each path without it.
- NarrowingIsExact: stated under the ordering hypothesis for the union of the ceiling's and the requested paths; `NarrowingExactIff` gives the exact conditions without it.
- RelWithinIsWithin: for canonical paths only; on other text `filepath.Rel` would clean the operands first, while the model compares them as written.
- LengthRoundTrip: a Go `int` is taken to have 64 bits.
- Paths in the policy modules are character strings compared by code; a Go string is the same with characters below 256.
- Symlink resolution, `stat` and the forbidden-tree policy: a path arrives resolved or refused. The resolved global ceiling is taken to be stable between transitions.
- Usernames, Launcher names and their uniqueness, and renames: rows are addressed by their IDs, and fresh IDs are parameters.
- SQL text and the driver: tables are maps or ordered rows, a transaction is a saved copy restored on failure, a failed statement is one failure outcome.
- ParseRawSubject: error texts are one refusal. The SHA-1 step of the subject hash and PEM handling are not modelled.
- NormalizeSchema: `strings.Fields`, `strings.ToLower` and `strings.EqualFold` also know non-ASCII blanks and letters; the model knows the ASCII ones.
- OnlyCodeIsSeen: texts are related token by token; inserting or deleting whole comments is not covered.
- ParseFragment: the JSON reader accepts the object form only as the printer writes it and no escaped surrogate halves; other spellings fail the re-rendering comparison in any case. File modes, the lock file and the parser process are not modelled.
- QuoteRoundTrip: backspace and form feed are written as `\u` escapes; which escape the encoder picks for them depends on the Go release, and boundary paths contain neither.
- Rotate: token generation and hashing are fresh distinct tokens whose hashes are distinct; the confinement labels of the staging file are not modelled.
- Execute: the document codec, both validators, path canonicalization and the mutations are parameters, and documents are compared by value; the lock keeps out other configuration commands but not an editor.
- CommitAfterDelivery: a failing UPDATE statement is treated like a failed begin.
- DeletePrincipalChecked: Sessions ending by themselves while the delete runs appear in `Lifecycle`, not here. MAC bindings and runtime directories of removed Sessions are not modelled.
- Operation capacity, the shutdown gate and the retention of completed Operations are not modelled; a pruned Operation is one that has completed.
- InspectRuntime: the listing is a sequence of container states; splitting the command's output into lines and fields is not modelled.
- HTTP handlers, clients, commands, completion, schema migrations, Docker mount serialization and build staging are not part of this model.
