// Adding and removing managed boundaries (apparmor.go): snapshot, rewrite,
// reload the profile, and restore the snapshot's bytes if the reload fails.
module AppArmorManager {
  import opened Order
  import opened Paths
  import opened Policy
  import opened ManagedBoundaries
  import opened AppArmorFragment
  import opened FragmentRoundTrip

  /** A profile reload: a failed one may or may not have loaded the fragment. */
  datatype Reload = Reloaded | ReloadFailed(loadedAnyway: bool)

  datatype World = World(prerequisites: bool, write: bool, reload: Reload, restore: bool, again: Reload)

  datatype Outcome =
    | Changed | Unchanged
    | InvalidPath | NoPrerequisites | BadFragment | OtherKind(existing: Kind) | NotWritten
    | RolledBack | RollbackFailed

  /** How writing, reloading and rolling back end. */
  function RewriteVerdict(w: World): Outcome {
    if !w.write then NotWritten
    else if w.reload.Reloaded? then Changed
    else if w.restore && w.again.Reloaded? then RolledBack
    else RollbackFailed
  }

  ghost predicate HasBoundary(bs: seq<Boundary>, p: Path) { exists b | b in bs :: b.path == p }

  /** The list without the boundary at path p. */
  function Dropped(bs: seq<Boundary>, p: Path): seq<Boundary> {
    if bs == [] then []
    else
      var n := |bs| - 1;
      if bs[n].path == p then Dropped(bs[..n], p) else Dropped(bs[..n], p) + [bs[n]]
  }

  lemma {:induction false} DroppedIs(bs: seq<Boundary>, p: Path)
    ensures forall b :: b in Dropped(bs, p) <==> b in bs && b.path != p
    ensures StrictlyAscending(PathOf, bs) ==> StrictlyAscending(PathOf, Dropped(bs, p))
  {
    hide LexLess;
    if bs != [] {
      var n := |bs| - 1;
      DroppedIs(bs[..n], p);
      assert bs == bs[..n] + [bs[n]];
      var d := Dropped(bs[..n], p);
      if StrictlyAscending(PathOf, bs) {
        forall i | 0 <= i < |d| ensures LexLess(PathOf(d[i]), PathOf(bs[n])) {
          assert d[i] in bs[..n];
        }
      }
    }
  }

  /** What the fragment file stands for: no file, no boundaries; an unparsable file, none at all. */
  function Listed(fragment: Option<string>): Option<seq<Boundary>> {
    if fragment.None? then Some([]) else Parse(fragment.value)
  }

  lemma ListedIsCanonical(fragment: Option<string>)
    requires Listed(fragment).Some?
    ensures AllValid(Listed(fragment).value) && Managed(Listed(fragment).value) == Listed(fragment).value
  {
    if fragment.Some? { AcceptedIff(fragment.value); } else { ManagedFixed([]); }
  }

  class Manager {
    var fragment: Option<string>
    var loaded: Option<string>     // the fragment of the profile in the kernel

    constructor ()
      ensures fragment == None && loaded == None
    {
      fragment, loaded := None, None;
    }

    method ReloadProfile(answer: Reload) returns (ok: bool)
      modifies this`loaded
      ensures ok == answer.Reloaded?
      ensures loaded == if ok || answer.loadedAnyway then fragment else old(loaded)
    {
      ok := answer.Reloaded?;
      if ok || answer.loadedAnyway { loaded := fragment; }
    }

    /** rollbackFragment: the snapshot's bytes, or no file if there was none. */
    method Rollback(snapshot: Option<string>, restore: bool, again: Reload) returns (ok: bool)
      modifies this
      ensures ok <==> restore && again.Reloaded?
      ensures fragment == if restore then snapshot else old(fragment)
      ensures ok ==> loaded == snapshot
    {
      if !restore { return false; }
      fragment := snapshot;
      ok := ReloadProfile(again);
    }

    /** The shared tail of both operations. */
    method Rewrite(bs: seq<Boundary>, w: World) returns (outcome: Outcome)
      requires AllValid(bs)
      modifies this
      ensures outcome == RewriteVerdict(w)
      ensures outcome.Changed? ==>
              fragment == Some(Render(bs)) && Listed(fragment) == Some(Managed(bs)) && loaded == fragment
      ensures outcome.NotWritten? ==> fragment == old(fragment) && loaded == old(loaded)
      ensures outcome.RolledBack? ==> fragment == old(fragment) && loaded == fragment
      ensures outcome.RollbackFailed? ==> fragment == if w.restore then old(fragment) else Some(Render(bs))
    {
      hide RenderWith, Parse;
      var snapshot := fragment;
      var data := RenderFragment(bs);
      if !w.write { return NotWritten; }
      fragment := Some(data);
      RoundTrip(bs);
      var ok := ReloadProfile(w.reload);
      if ok { return Changed; }
      var back := Rollback(snapshot, w.restore, w.again);
      return if back then RolledBack else RollbackFailed;
    }

    /** addManagedBoundary. */
    method Add(target: Option<Boundary>, w: World) returns (outcome: Outcome)
      requires target.Some? ==> LexicallyValid(target.value.path)
      modifies this
      ensures outcome.Changed? ==>
                && target.Some? && old(Listed(fragment)).Some? &&
                   !HasBoundary(old(Listed(fragment)).value, target.value.path)
                && Listed(fragment) == Some(Managed(old(Listed(fragment)).value + [target.value])) && loaded == fragment
      ensures outcome.InvalidPath? <==> target.None?
      ensures outcome.NoPrerequisites? <==> target.Some? && !w.prerequisites
      ensures outcome.BadFragment? <==> target.Some? && w.prerequisites && old(Listed(fragment)).None?
      ensures target.Some? && w.prerequisites && old(Listed(fragment)).Some? ==>
                var bs, b := old(Listed(fragment)).value, target.value;
                if b in bs then outcome == Unchanged
                else if HasBoundary(bs, b.path) then outcome.OtherKind? && Boundary(b.path, outcome.existing) in bs
                else outcome == RewriteVerdict(w)
      ensures !outcome.Changed? && !outcome.RollbackFailed? ==> fragment == old(fragment)
      ensures outcome.RolledBack? ==> loaded == fragment
      ensures !outcome.Changed? && !outcome.RolledBack? && !outcome.RollbackFailed? ==> loaded == old(loaded)
    {
      hide RenderWith, Parse, LexicallyValid, Managed;
      if target.None? { return InvalidPath; }
      if !w.prerequisites { return NoPrerequisites; }
      var snapshot := Listed(fragment);
      if snapshot.None? { return BadFragment; }
      ListedIsCanonical(fragment);
      var b, bs := target.value, snapshot.value;
      for i := 0 to |bs|
        invariant forall k | 0 <= k < i :: bs[k].path != b.path
      {
        if bs[i].path == b.path {
          assert bs[i] in bs;
          OnePerPath(bs, bs[i], b);
          return if bs[i].kind != b.kind then OtherKind(bs[i].kind) else Unchanged;
        }
      }
      assert forall k | 0 <= k < |bs| :: bs[k].path != b.path;
      NotListed(bs, b.path);
      outcome := Rewrite(bs + [b], w);
    }

    /** removeManagedBoundary. */
    method Remove(target: Option<Path>, w: World) returns (outcome: Outcome)
      modifies this
      ensures outcome.Changed? ==>
                && target.Some? && old(Listed(fragment)).Some? && HasBoundary(old(Listed(fragment)).value, target.value)
                && Listed(fragment) == Some(Dropped(old(Listed(fragment)).value, target.value)) && loaded == fragment
      ensures outcome.InvalidPath? <==> target.None?
      ensures outcome.NoPrerequisites? <==> target.Some? && !w.prerequisites
      ensures outcome.BadFragment? <==> target.Some? && w.prerequisites && old(Listed(fragment)).None?
      ensures target.Some? && w.prerequisites && old(Listed(fragment)).Some? ==>
                outcome == if HasBoundary(old(Listed(fragment)).value, target.value) then RewriteVerdict(w)
                    else Unchanged
      ensures !outcome.Changed? && !outcome.RollbackFailed? ==> fragment == old(fragment)
      ensures outcome.RolledBack? ==> loaded == fragment
      ensures !outcome.Changed? && !outcome.RolledBack? && !outcome.RollbackFailed? ==> loaded == old(loaded)
    {
      hide RenderWith, Parse, LexicallyValid, Managed, Dropped;
      if target.None? { return InvalidPath; }
      if !w.prerequisites { return NoPrerequisites; }
      var snapshot := Listed(fragment);
      if snapshot.None? { return BadFragment; }
      ListedIsCanonical(fragment);
      var p, bs := target.value, snapshot.value;
      var kept: seq<Boundary> := [];
      var found := false;
      DroppedStart(p);
      for i := 0 to |bs|
        invariant fragment == old(fragment) && loaded == old(loaded)
        invariant kept == Dropped(bs[..i], p)
        invariant found <==> exists k | 0 <= k < i :: bs[k].path == p
      {
        DroppedStep(bs, i, p);
        if bs[i].path == p { found := true; } else { kept := kept + [bs[i]]; }
      }
      assert bs[..|bs|] == bs;
      if !found { NotListed(bs, p); return Unchanged; }
      assert HasBoundary(bs, p) by { var k :| 0 <= k < |bs| && bs[k].path == p; assert bs[k] in bs; }
      DroppedIs(bs, p);
      DroppedCanonical(bs, p);
      outcome := Rewrite(kept, w);
    }
  }

  /** A canonical list has one boundary for a path. */
  lemma OnePerPath(bs: seq<Boundary>, c: Boundary, b: Boundary)
    requires Managed(bs) == bs && c in bs && c.path == b.path
    ensures b in bs <==> c.kind == b.kind
    ensures HasBoundary(bs, b.path)
  {
    hide LexLess, Managed;
    ManagedIs(bs);
    StrictlyAscendingKeyed(PathOf, bs);
    if b in bs {
      var i :| 0 <= i < |bs| && bs[i] == b;
      var j :| 0 <= j < |bs| && bs[j] == c;
      assert PathOf(bs[i]) == PathOf(bs[j]);
    }
  }

  lemma NotListed(bs: seq<Boundary>, p: Path)
    requires forall k | 0 <= k < |bs| :: bs[k].path != p
    ensures !HasBoundary(bs, p)
  {
  }

  lemma DroppedStart(p: Path)
    ensures Dropped([], p) == []
  {
  }

  lemma DroppedStep(bs: seq<Boundary>, i: nat, p: Path)
    requires i < |bs|
    ensures Dropped(bs[..i + 1], p) == if bs[i].path == p then Dropped(bs[..i], p) else Dropped(bs[..i], p) + [bs[i]]
  {
    assert bs[..i + 1][..i] == bs[..i];
  }

  lemma DroppedCanonical(bs: seq<Boundary>, p: Path)
    requires AllValid(bs) && Managed(bs) == bs
    ensures AllValid(Dropped(bs, p)) && Managed(Dropped(bs, p)) == Dropped(bs, p)
  {
    hide LexLess, LexicallyValid, Managed;
    ManagedIs(bs);
    DroppedIs(bs, p);
    ManagedFixed(Dropped(bs, p));
  }

  /** Removing a boundary that was just added restores the list, and the printed text. */
  lemma RemoveUndoesAdd(bs: seq<Boundary>, b: Boundary)
    requires AllValid(bs) && Managed(bs) == bs && LexicallyValid(b.path) && !HasBoundary(bs, b.path)
    ensures Dropped(Managed(bs + [b]), b.path) == bs
    ensures Render(Dropped(Managed(bs + [b]), b.path)) == Render(bs)
  {
    hide LexLess, LexicallyValid, Managed;
    ManagedIs(bs);
    var more := Managed(bs + [b]);
    ManagedIs(bs + [b]);
    DroppedIs(more, b.path);
    forall x ensures x in Dropped(more, b.path) <==> x in bs { AddedChosen(bs, b, x); }
    StrictlyAscendingSet(PathOf, Dropped(more, b.path), bs);
  }

  lemma AddedChosen(bs: seq<Boundary>, b: Boundary, x: Boundary)
    requires !HasBoundary(bs, b.path) && forall y | y in bs :: Chosen(bs, y)
    ensures Chosen(bs + [b], x) && x.path != b.path <==> x in bs
  {
    if x in bs { assert Chosen(bs, x); }
  }

  /** Adding back a boundary that was just removed restores the list. */
  lemma AddUndoesRemove(bs: seq<Boundary>, b: Boundary)
    requires AllValid(bs) && Managed(bs) == bs && b in bs
    ensures Managed(Dropped(bs, b.path) + [b]) == bs
  {
    hide LexLess, LexicallyValid, Managed;
    ManagedIs(bs);
    DroppedIs(bs, b.path);
    var again := Dropped(bs, b.path) + [b];
    StrictlyAscendingKeyed(PathOf, bs);
    forall x ensures x in again <==> x in bs {}
    ManagedOrderFree(again, bs);
  }
}
