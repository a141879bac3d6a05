/** tools/bootstrap/main.go: executing a plan over a file tree whose calls may fail, with rollback. */
module Bootstrap {
  import opened FileTree
  import opened BootstrapPlan
  import opened BootstrapRun
  import opened RenameRun

  /** BackupLeft: a backup could not be removed after everything else was done. */
  datatype Outcome = Done | BackupLeft | Aborted(rolledBack: bool)

  // ----- staging

  /** The temporary exists: fill it and set its mode. */
  method FillTemporary(fs: FileSystem, update: ContentUpdate) returns (ok: bool)
    requires IsFile(fs.tree, update.temporary)
    modifies fs
    ensures fs.faults >= old(fs.faults) && (WellFormed(old(fs.tree)) ==> WellFormed(fs.tree))
    ensures IsFile(fs.tree, update.temporary) && fs.tree == old(fs.tree)[update.temporary := fs.tree[update.temporary]]
    ensures ok ==> fs.tree[update.temporary] == File(update.updated, update.mode)
    ensures !ok ==> fs.faults > old(fs.faults)
  {
    var temporary := update.temporary;
    var written, writeFailed := fs.Write(temporary, update.updated);
    var closeFailed := fs.Fails();
    if writeFailed || written != |update.updated| || closeFailed {
      return false;
    }
    assert update.updated[..written] == update.updated;
    ok := fs.Chmod(temporary, update.mode);
  }

  /** clean: a temporary that could not be completed was removed again. */
  method StageContentUpdate(fs: FileSystem, update: ContentUpdate) returns (ok: bool, ghost clean: bool)
    requires Beside(update.path, update.temporary)
    modifies fs
    ensures fs.faults >= old(fs.faults) && (WellFormed(old(fs.tree)) ==> WellFormed(fs.tree))
    ensures ok ==> clean && update.temporary !in old(fs.tree)
                   && fs.tree == old(fs.tree)[update.temporary := File(update.updated, update.mode)]
    ensures !ok && clean ==> fs.tree == old(fs.tree)
    ensures !clean && WellFormed(old(fs.tree)) ==> fs.faults > old(fs.faults) + 1
    ensures !ok && fs.faults == old(fs.faults) ==>
              update.temporary in old(fs.tree) || !IsDir(old(fs.tree), Parent(update.path))
  {
    var temporary := update.temporary;
    ok := fs.CreateExclusive(temporary, update.mode);
    clean := true;
    if ok {
      ok := FillTemporary(fs, update);
      if !ok {
        if WellFormed(fs.tree) {
          NothingBelow(fs.tree, temporary);
        }
        var removal := fs.Remove(temporary);
        clean := removal == Removed;
        assert old(fs.tree) == fs.tree - {temporary};
      }
    }
  }

  method StageAll(fs: FileSystem, updates: seq<ContentUpdate>) returns (ok: bool, staged: nat, ghost clean: bool)
    requires Planned(updates)
    modifies fs
    ensures fs.faults >= old(fs.faults) && (WellFormed(old(fs.tree)) ==> WellFormed(fs.tree))
    ensures staged <= |updates| && (ok ==> staged == |updates| && clean)
    ensures clean ==> Staged(fs.tree, old(fs.tree), updates, staged)
    ensures !clean && WellFormed(old(fs.tree)) ==> fs.faults > old(fs.faults) + 1
    ensures !ok && fs.faults == old(fs.faults) && WellFormed(old(fs.tree)) ==> !UpdatesApply(old(fs.tree), updates)
  {
    staged, clean, ok := 0, true, true;
    assert TemporaryNames(updates, 0) == {};
    while staged < |updates|
      invariant staged <= |updates| && clean && fs.faults >= old(fs.faults)
      invariant WellFormed(old(fs.tree)) ==> WellFormed(fs.tree)
      invariant Staged(fs.tree, old(fs.tree), updates, staged)
    {
      ghost var before := fs.tree;
      ok, clean := StageContentUpdate(fs, updates[staged]);
      if !ok {
        if fs.faults == old(fs.faults) && WellFormed(old(fs.tree)) && UpdatesApply(old(fs.tree), updates) {
          StagingPossible(before, old(fs.tree), updates, staged);
          assert false;
        }
        return;
      }
      StageOne(before, old(fs.tree), updates, staged);
      staged := staged + 1;
    }
  }

  lemma StagingPossible(s: Tree, t: Tree, updates: seq<ContentUpdate>, k: nat)
    requires Planned(updates) && k < |updates| && Staged(s, t, updates, k) && WellFormed(s) && UpdatesApply(t, updates)
    ensures updates[k].temporary !in s && IsDir(s, Parent(updates[k].path))
  {
    assert UpdateApplies(t, updates[k]);
    assert updates[k].temporary !in TemporaryNames(updates, k);
    assert updates[k].path in s;
  }

  /** The deferred clean-up of executePlan. */
  method RemoveStaged(fs: FileSystem, updates: seq<ContentUpdate>, staged: nat) returns (ghost clean: bool)
    requires Planned(updates) && staged <= |updates|
    modifies fs
    ensures fs.faults >= old(fs.faults)
    ensures clean ==> fs.tree == old(fs.tree) - TemporaryNames(updates, staged)
    ensures !clean && WellFormed(old(fs.tree)) && NoTemporaryDir(old(fs.tree), updates, staged) ==> fs.faults > old(fs.faults)
    ensures (forall i :: 0 <= i < staged ==> updates[i].temporary !in old(fs.tree)) ==> fs.tree == old(fs.tree)
  {
    clean := true;
    assert fs.tree == fs.tree - TemporaryNames(updates, 0);
    ghost var removable := WellFormed(fs.tree) && NoTemporaryDir(fs.tree, updates, staged);
    ghost var absent := forall i :: 0 <= i < staged ==> updates[i].temporary !in fs.tree;
    for k := 0 to staged
      invariant fs.faults >= old(fs.faults)
      invariant clean ==> fs.tree == old(fs.tree) - TemporaryNames(updates, k)
      invariant removable ==> WellFormed(fs.tree) && NoTemporaryDir(fs.tree, updates, staged) && (clean || fs.faults > old(fs.faults))
      invariant absent ==> fs.tree == old(fs.tree)
    {
      var removed := RemoveTemporary(fs, updates, k, staged);
      OneNameLess(old(fs.tree), updates, k);
      clean := clean && removed;
    }
  }

  method RemoveTemporary(fs: FileSystem, updates: seq<ContentUpdate>, k: nat, ghost staged: nat) returns (ghost removed: bool)
    requires k < staged <= |updates|
    modifies fs
    ensures fs.faults >= old(fs.faults)
    ensures removed ==> fs.tree == old(fs.tree) - {updates[k].temporary}
    ensures updates[k].temporary !in old(fs.tree) ==> fs.tree == old(fs.tree)
    ensures WellFormed(old(fs.tree)) && NoTemporaryDir(old(fs.tree), updates, staged) ==>
              WellFormed(fs.tree) && NoTemporaryDir(fs.tree, updates, staged) && (removed || fs.faults > old(fs.faults))
  {
    var temporary := updates[k].temporary;
    if WellFormed(fs.tree) && !IsDir(fs.tree, temporary) {
      NothingBelow(fs.tree, temporary);
    }
    assert temporary !in fs.tree ==> fs.tree - {temporary} == fs.tree;
    var removal := fs.Remove(temporary);
    removed := removal != NotRemoved;
  }

  lemma OneNameLess(s: Tree, updates: seq<ContentUpdate>, k: nat)
    requires k < |updates|
    ensures (s - TemporaryNames(updates, k)) - {updates[k].temporary} == s - TemporaryNames(updates, k + 1)
  {
    assert TemporaryNames(updates, k + 1) == TemporaryNames(updates, k) + {updates[k].temporary};
  }

  // ----- revalidation

  method ValidatePlanCurrent(fs: FileSystem, plan: Plan) returns (ok: bool)
    requires Planned(plan.updates)
    modifies fs
    ensures fs.tree == old(fs.tree) && fs.faults >= old(fs.faults)
    ensures ok ==> Current(fs.tree, plan)
    ensures !ok && fs.faults == old(fs.faults) ==> !Current(fs.tree, plan)
  {
    var walkFailed := fs.Fails(); // rejectRepositorySymlinks: in a tree without links the walk can only fail
    if walkFailed {
      return false;
    }
    for k := 0 to |plan.updates|
      invariant fs.tree == old(fs.tree) && fs.faults >= old(fs.faults)
      invariant forall u :: 0 <= u < k ==> UpdateApplies(fs.tree, plan.updates[u]) && IsFile(fs.tree, plan.updates[u].temporary)
    {
      var unreadable := fs.Fails();
      if unreadable || !UpdateApplies(fs.tree, plan.updates[k]) || !IsFile(fs.tree, plan.updates[k].temporary) {
        return false;
      }
    }
    for k := 0 to |plan.renames|
      invariant fs.tree == old(fs.tree) && fs.faults >= old(fs.faults)
      invariant forall r :: 0 <= r < k ==> RenameApplies(fs.tree, plan.renames[r])
    {
      var unreadable := fs.Fails();
      if unreadable || !RenameApplies(fs.tree, plan.renames[k]) {
        return false;
      }
    }
    return true;
  }

  // ----- committing

  /** begun: the file has moved to its backup name. */
  method CommitUpdate(fs: FileSystem, updates: seq<ContentUpdate>, index: nat, ghost t: Tree) returns (begun: bool, ok: bool)
    requires Planned(updates) && UpdatesApply(t, updates) && index < |updates|
    requires WellFormed(fs.tree) && Between(fs.tree, t, updates, index)
    modifies fs
    ensures fs.faults >= old(fs.faults) && WellFormed(fs.tree)
    ensures ok ==> begun && Between(fs.tree, t, updates, index + 1)
    ensures !ok ==> fs.faults > old(fs.faults) && Undoable(fs.tree, t, updates, if begun then index + 1 else index)
  {
    var update := updates[index];
    BackUp(fs.tree, t, updates, index);
    BetweenIsUndoable(fs.tree, t, updates, index);
    begun := fs.Rename(update.path, update.backup);
    ok := begun;
    if begun {
      PutInPlace(fs.tree, t, updates, index);
      HalfIsUndoable(fs.tree, t, updates, index);
      ok := fs.Rename(update.temporary, update.path);
    }
  }

  lemma BetweenIsUndoable(s: Tree, t: Tree, updates: seq<ContentUpdate>, c: nat)
    requires c <= |updates| && Between(s, t, updates, c)
    ensures Undoable(s, t, updates, c)
  {
  }

  lemma HalfIsUndoable(s: Tree, t: Tree, updates: seq<ContentUpdate>, c: nat)
    requires c < |updates| && HalfBetween(s, t, updates, c)
    ensures Undoable(s, t, updates, c + 1)
  {
  }

  /** The loop over the updates, from any of them on. */
  method CommitFrom(fs: FileSystem, updates: seq<ContentUpdate>, start: nat, ghost t: Tree) returns (ok: bool, committed: nat)
    requires Planned(updates) && UpdatesApply(t, updates) && start <= |updates|
    requires WellFormed(fs.tree) && Between(fs.tree, t, updates, start)
    modifies fs
    ensures fs.faults >= old(fs.faults) && WellFormed(fs.tree) && committed <= |updates|
    ensures ok ==> committed == |updates| && Between(fs.tree, t, updates, |updates|)
    ensures !ok ==> fs.faults > old(fs.faults) && Undoable(fs.tree, t, updates, committed)
  {
    committed, ok := start, true;
    while committed < |updates|
      invariant fs.faults >= old(fs.faults) && WellFormed(fs.tree) && committed <= |updates|
      invariant Between(fs.tree, t, updates, committed)
    {
      var begun;
      begun, ok := CommitUpdate(fs, updates, committed, t);
      if !ok {
        committed := if begun then committed + 1 else committed;
        return;
      }
      committed := committed + 1;
    }
  }

  method CommitUpdates(fs: FileSystem, updates: seq<ContentUpdate>, ghost t: Tree) returns (ok: bool, committed: nat)
    requires Planned(updates) && UpdatesApply(t, updates) && WellFormed(fs.tree) && Staged(fs.tree, t, updates, |updates|)
    modifies fs
    ensures fs.faults >= old(fs.faults) && WellFormed(fs.tree) && committed <= |updates|
    ensures Undoable(fs.tree, t, updates, committed)
    ensures if ok then committed == |updates| && fs.tree == Committed(t, updates, |updates|) else fs.faults > old(fs.faults)
  {
    StagedIsBetween(fs.tree, t, updates);
    ok, committed := CommitFrom(fs, updates, 0, t);
    if ok {
      AllTemporariesUsed(fs.tree, t, updates);
    }
  }

  lemma StagedIsBetween(s: Tree, t: Tree, updates: seq<ContentUpdate>)
    requires Staged(s, t, updates, |updates|)
    ensures Between(s, t, updates, 0)
  {
  }

  lemma AllTemporariesUsed(s: Tree, t: Tree, updates: seq<ContentUpdate>)
    requires Planned(updates) && Between(s, t, updates, |updates|)
    ensures s == Committed(t, updates, |updates|) && Undoable(s, t, updates, |updates|)
  {
    assert s - TemporaryNames(updates, |updates|) == s;
  }

  /** Whenever the earlier renames have been made, the next one can be. */
  ghost predicate AlwaysPossible(done: Tree, renames: seq<PathRename>) {
    forall s: Tree, n: nat {:trigger RenamesMade(s, done, renames, n)} ::
      n < |renames| && RenamesMade(s, done, renames, n) ==> CanRename(s, renames[n].source, renames[n].target)
  }

  lemma RenamesPossible(t: Tree, plan: Plan)
    requires WellPlanned(plan) && Applicable(t, plan) && ReservedDisjoint(plan)
    ensures AlwaysPossible(Committed(t, plan.updates, |plan.updates|), plan.renames)
  {
    var done := Committed(t, plan.updates, |plan.updates|);
    forall s: Tree, n: nat | n < |plan.renames| && RenamesMade(s, done, plan.renames, n)
      ensures CanRename(s, plan.renames[n].source, plan.renames[n].target)
    {
      RenamePossible(s, t, plan, n);
    }
  }

  lemma RenamePossible(s: Tree, t: Tree, plan: Plan, n: nat)
    requires WellPlanned(plan) && Applicable(t, plan) && ReservedDisjoint(plan) && n < |plan.renames|
    requires RenamesMade(s, Committed(t, plan.updates, |plan.updates|), plan.renames, n)
    ensures CanRename(s, plan.renames[n].source, plan.renames[n].target)
  {
    DisjointMeansFree(t, plan);
    NextIsGood(Committed(t, plan.updates, |plan.updates|), plan.renames, n);
  }

  lemma RenameMade(s: Tree, done: Tree, renames: seq<PathRename>, n: nat)
    requires n < |renames| && RenamesMade(s, done, renames, n) && CanRename(s, renames[n].source, renames[n].target)
    ensures RenamesMade(Renamed(s, renames[n].source, renames[n].target), done, renames, n + 1)
  {
    RenamedWellFormed(s, renames[n].source, renames[n].target);
  }

  method CommitRename(fs: FileSystem, renames: seq<PathRename>, index: nat, ghost done: Tree) returns (ok: bool)
    requires index < |renames| && RenamesMade(fs.tree, done, renames, index)
    modifies fs
    ensures fs.faults >= old(fs.faults) && RenamesMade(fs.tree, done, renames, if ok then index + 1 else index)
    ensures !ok && AlwaysPossible(done, renames) ==> fs.faults > old(fs.faults)
  {
    ghost var before := fs.tree;
    ok := fs.Rename(renames[index].source, renames[index].target);
    if ok {
      RenameMade(before, done, renames, index);
    }
  }

  method CommitRenames(fs: FileSystem, renames: seq<PathRename>, ghost done: Tree) returns (ok: bool, renamed: nat)
    requires RenamesMade(fs.tree, done, renames, 0)
    modifies fs
    ensures fs.faults >= old(fs.faults) && renamed <= |renames| && RenamesMade(fs.tree, done, renames, renamed)
    ensures ok ==> renamed == |renames|
    ensures !ok && AlwaysPossible(done, renames) ==> fs.faults > old(fs.faults)
  {
    renamed, ok := 0, true;
    while renamed < |renames|
      invariant fs.faults >= old(fs.faults) && renamed <= |renames| && RenamesMade(fs.tree, done, renames, renamed)
    {
      ok := CommitRename(fs, renames, renamed, done);
      if !ok {
        return;
      }
      renamed := renamed + 1;
    }
  }

  // ----- rollback

  /** Undoing the last rename of a state that can be undone leads to such a state again. */
  ghost predicate AlwaysUndoable(done: Tree, plan: Plan) {
    forall s: Tree, n: nat {:trigger Renamed(s, plan.renames[n].target, plan.renames[n].source)} ::
      n < |plan.renames| && RenamesUndoable(s, done, plan, n + 1) ==>
        RenamesUndoable(Renamed(s, plan.renames[n].target, plan.renames[n].source), done, plan, n)
  }

  lemma RenamesCanBeUndone(t: Tree, plan: Plan)
    requires WellPlanned(plan) && WellFormed(t) && Applicable(t, plan)
    ensures AlwaysUndoable(Committed(t, plan.updates, |plan.updates|), plan)
  {
    var done := Committed(t, plan.updates, |plan.updates|);
    forall s: Tree, n: nat | n < |plan.renames| && RenamesUndoable(s, done, plan, n + 1)
      ensures RenamesUndoable(Renamed(s, plan.renames[n].target, plan.renames[n].source), done, plan, n)
    {
      UndoneRename(s, t, plan, n);
    }
  }

  lemma UndoneRename(s: Tree, t: Tree, plan: Plan, n: nat)
    requires WellPlanned(plan) && WellFormed(t) && Applicable(t, plan) && n < |plan.renames|
    requires RenamesUndoable(s, Committed(t, plan.updates, |plan.updates|), plan, n + 1)
    ensures RenamesUndoable(Renamed(s, plan.renames[n].target, plan.renames[n].source), Committed(t, plan.updates, |plan.updates|), plan, n)
  {
    if RenamesMade(s, Committed(t, plan.updates, |plan.updates|), plan.renames, n + 1) {
      UndoRename(s, t, plan, n);
    } else {
      StaysLost(s, t, plan, n);
    }
  }

  /** Whenever the last rename is in force it can be undone, which leads back to the state before it. */
  ghost predicate AlwaysReversible(done: Tree, renames: seq<PathRename>) {
    forall s: Tree, n: nat {:trigger CanRename(s, renames[n].target, renames[n].source)} {:trigger Renamed(s, renames[n].target, renames[n].source)} ::
      n < |renames| && RenamesMade(s, done, renames, n + 1) ==>
        CanRename(s, renames[n].target, renames[n].source)
        && RenamesMade(Renamed(s, renames[n].target, renames[n].source), done, renames, n)
  }

  lemma RenamesReversible(t: Tree, plan: Plan)
    requires WellPlanned(plan) && Applicable(t, plan) && ReservedDisjoint(plan)
    ensures AlwaysReversible(Committed(t, plan.updates, |plan.updates|), plan.renames)
  {
    var done := Committed(t, plan.updates, |plan.updates|);
    DisjointMeansFree(t, plan);
    forall s: Tree, n: nat | n < |plan.renames| && RenamesMade(s, done, plan.renames, n + 1)
      ensures CanRename(s, plan.renames[n].target, plan.renames[n].source)
      ensures RenamesMade(Renamed(s, plan.renames[n].target, plan.renames[n].source), done, plan.renames, n)
    {
      ReverseOne(s, done, plan.renames, n);
    }
  }

  method RollbackRenames(fs: FileSystem, plan: Plan, renamed: nat, ghost done: Tree) returns (ok: bool)
    requires AlwaysUndoable(done, plan) && renamed <= |plan.renames| && WellFormed(fs.tree)
    modifies fs
    ensures fs.faults >= old(fs.faults) && WellFormed(fs.tree)
    ensures ok && RenamesUndoable(old(fs.tree), done, plan, renamed) ==> RenamesUndoable(fs.tree, done, plan, 0)
    ensures fs.faults == old(fs.faults) && AlwaysReversible(done, plan.renames) && RenamesMade(old(fs.tree), done, plan.renames, renamed)
            ==> ok && RenamesMade(fs.tree, done, plan.renames, 0)
    ensures renamed == 0 ==> ok && fs.tree == old(fs.tree)
  {
    ok := true;
    var index: nat := renamed;
    ghost var good := RenamesUndoable(fs.tree, done, plan, renamed);
    ghost var reversible := AlwaysReversible(done, plan.renames) && RenamesMade(fs.tree, done, plan.renames, renamed);
    while index > 0
      invariant index <= renamed && fs.faults >= old(fs.faults) && WellFormed(fs.tree)
      invariant ok && good ==> RenamesUndoable(fs.tree, done, plan, index)
      invariant reversible && fs.faults == old(fs.faults) ==> ok && RenamesMade(fs.tree, done, plan.renames, index)
      invariant renamed == 0 ==> ok && fs.tree == old(fs.tree)
    {
      index := index - 1;
      var restored := fs.Rename(plan.renames[index].target, plan.renames[index].source);
      ok := ok && restored;
    }
  }

  /** Among the first j updates one has no backup left. */
  ghost predicate BackupMissing(s: Tree, updates: seq<ContentUpdate>, j: nat)
    requires j <= |updates|
  {
    exists i :: 0 <= i < j && updates[i].backup !in s
  }

  /** A missing backup makes the rollback report failure; otherwise only a fault does. */
  method RollbackUpdates(fs: FileSystem, updates: seq<ContentUpdate>, committed: nat, ghost t: Tree) returns (ok: bool)
    requires Planned(updates) && WellFormed(t) && UpdatesApply(t, updates) && committed <= |updates| && WellFormed(fs.tree)
    modifies fs
    ensures fs.faults >= old(fs.faults) && WellFormed(fs.tree)
    ensures ok && Undoable(old(fs.tree), t, updates, committed) ==> Undoable(fs.tree, t, updates, 0)
    ensures BackupMissing(old(fs.tree), updates, committed) ==> !ok
    ensures !ok && Undoable(old(fs.tree), t, updates, committed) ==> fs.faults > old(fs.faults)
  {
    ok := true;
    var index: nat := committed;
    ghost var undoable, missing := Undoable(fs.tree, t, updates, committed), BackupMissing(fs.tree, updates, committed);
    while index > 0
      invariant index <= committed && fs.faults >= old(fs.faults) && WellFormed(fs.tree)
      invariant ok && undoable ==> Undoable(fs.tree, t, updates, index)
      invariant ok && missing ==> BackupMissing(fs.tree, updates, index)
      invariant !ok && undoable ==> fs.faults > old(fs.faults)
    {
      index := index - 1;
      var restored := RestoreUpdate(fs, updates, index, t);
      ok := ok && restored;
    }
  }

  lemma UpdateRestored(s: Tree, t: Tree, updates: seq<ContentUpdate>, j: nat)
    requires Planned(updates) && WellFormed(t) && UpdatesApply(t, updates) && j < |updates|
    requires WellFormed(s - {updates[j].path}) && CanRename(s - {updates[j].path}, updates[j].backup, updates[j].path)
    ensures var r := Renamed(s - {updates[j].path}, updates[j].backup, updates[j].path);
            (Undoable(s, t, updates, j + 1) ==> Undoable(r, t, updates, j))
            && (BackupMissing(s, updates, j + 1) ==> BackupMissing(r, updates, j))
  {
    if Undoable(s, t, updates, j + 1) {
      UndoOne(s, t, updates, j);
    }
    if BackupMissing(s, updates, j + 1) {
      var i: nat :| i < j + 1 && updates[i].backup !in s;
      BackupStaysMissing(s, t, updates, j, i);
    }
  }

  method RestoreUpdate(fs: FileSystem, updates: seq<ContentUpdate>, index: nat, ghost t: Tree) returns (ok: bool)
    requires Planned(updates) && WellFormed(t) && UpdatesApply(t, updates) && index < |updates| && WellFormed(fs.tree)
    modifies fs
    ensures fs.faults >= old(fs.faults) && WellFormed(fs.tree)
    ensures ok && Undoable(old(fs.tree), t, updates, index + 1) ==> Undoable(fs.tree, t, updates, index)
    ensures ok && BackupMissing(old(fs.tree), updates, index + 1) ==> BackupMissing(fs.tree, updates, index)
    ensures !ok && Undoable(old(fs.tree), t, updates, index + 1) ==> fs.faults > old(fs.faults)
  {
    var update := updates[index];
    ghost var before := fs.tree;
    if Undoable(before, t, updates, index + 1) {
      RestorePossible(before, t, updates, index);
    }
    var removal := fs.Remove(update.path);
    assert removal != NotRemoved ==> fs.tree == before - {update.path};
    var restored := fs.Rename(update.backup, update.path);
    ok := removal != NotRemoved && restored;
    if ok {
      UpdateRestored(before, t, updates, index);
    }
  }

  // ----- the end

  lemma BackupStillRemovable(s: Tree, t: Tree, plan: Plan, u: nat)
    requires WellPlanned(plan) && Applicable(t, plan) && ReservedDisjoint(plan) && u < |plan.updates|
    requires WellFormed(Committed(t, plan.updates, |plan.updates|)) && WellFormed(AllDone(t, plan))
    requires s == AllDone(t, plan) - BackupsNow(plan, u)
    ensures var q := PathAfter(plan.updates[u].backup, plan.renames); q != [] && q in s && !HasChild(s, q)
  {
    BackupRemovable(t, plan, u);
  }

  lemma OneBackupLess(s: Tree, plan: Plan, u: nat)
    requires WellPlanned(plan) && u < |plan.updates|
    ensures (s - BackupsNow(plan, u)) - {PathAfter(plan.updates[u].backup, plan.renames)} == s - BackupsNow(plan, u + 1)
  {
    assert BackupsNow(plan, u + 1) == BackupsNow(plan, u) + {PathAfter(plan.updates[u].backup, plan.renames)};
  }

  method RemoveBackup(fs: FileSystem, plan: Plan, u: nat, ghost t: Tree) returns (ok: bool)
    requires WellPlanned(plan) && Applicable(t, plan) && u < |plan.updates|
    requires WellFormed(Committed(t, plan.updates, |plan.updates|)) && WellFormed(AllDone(t, plan))
    requires fs.tree == AllDone(t, plan) - BackupsNow(plan, u)
    modifies fs
    ensures fs.faults >= old(fs.faults)
    ensures fs.tree == if ok then old(fs.tree) - {PathAfter(plan.updates[u].backup, plan.renames)} else old(fs.tree)
    ensures !ok && ReservedDisjoint(plan) ==> fs.faults > old(fs.faults)
  {
    var backup := PathAfterRenames(plan.updates[u].backup, plan.renames);
    if ReservedDisjoint(plan) {
      BackupStillRemovable(fs.tree, t, plan, u);
    }
    var removal := fs.Remove(backup);
    ok := removal == Removed;
  }

  method RemoveBackups(fs: FileSystem, plan: Plan, ghost t: Tree) returns (ok: bool, ghost removed: nat)
    requires WellPlanned(plan) && Applicable(t, plan) && WellFormed(Committed(t, plan.updates, |plan.updates|))
    requires fs.tree == AllDone(t, plan) && WellFormed(fs.tree)
    modifies fs
    ensures fs.faults >= old(fs.faults)
    ensures removed <= |plan.updates| && (ok ==> removed == |plan.updates|)
    ensures fs.tree == old(fs.tree) - BackupsNow(plan, removed)
    ensures !ok && ReservedDisjoint(plan) ==> fs.faults > old(fs.faults)
  {
    assert fs.tree == fs.tree - BackupsNow(plan, 0);
    removed := 0;
    for k := 0 to |plan.updates|
      invariant fs.faults >= old(fs.faults) && removed == k
      invariant fs.tree == old(fs.tree) - BackupsNow(plan, k)
    {
      ok := RemoveBackup(fs, plan, k, t);
      if !ok {
        return;
      }
      OneBackupLess(old(fs.tree), plan, k);
      removed := k + 1;
    }
    ok := true;
  }

  // ----- the whole run

  /** Whichever phase failed, the steps to undo lead back to t. */
  ghost predicate Recoverable(s: Tree, t: Tree, plan: Plan, committed: nat, renamed: nat)
    requires committed <= |plan.updates| && renamed <= |plan.renames|
  {
    (renamed == 0 && Undoable(s, t, plan.updates, committed))
    || (committed == |plan.updates| && RenamesMade(s, Committed(t, plan.updates, |plan.updates|), plan.renames, renamed))
  }

  lemma CommittedUndoable(t: Tree, updates: seq<ContentUpdate>)
    requires Planned(updates) && UpdatesApply(t, updates)
    ensures Undoable(Committed(t, updates, |updates|), t, updates, |updates|)
  {
    var done := Committed(t, updates, |updates|);
    forall u | 0 <= u < |updates| ensures updates[u].temporary !in done {
      TemporaryNotCommitted(t, updates, u);
    }
    assert done - TemporaryNames(updates, |updates|) == done;
  }

  lemma TemporaryNotCommitted(t: Tree, updates: seq<ContentUpdate>, u: nat)
    requires Planned(updates) && UpdatesApply(t, updates) && u < |updates|
    ensures updates[u].temporary !in Committed(t, updates, |updates|)
  {
    assert updates[u].temporary !in t by { assert UpdateApplies(t, updates[u]); }
    if updates[u].temporary in Committed(t, updates, |updates|) {
      CommittedKeys(t, updates, updates[u].temporary);
    }
  }

  /** The rollback closure of executePlan: if it reports no error the tree is back, and only a fault makes it report one. */
  method RollBack(fs: FileSystem, plan: Plan, committed: nat, renamed: nat, ghost t: Tree) returns (ok: bool)
    requires WellPlanned(plan) && WellFormed(t) && Applicable(t, plan) && WellFormed(fs.tree)
    requires committed <= |plan.updates| && renamed <= |plan.renames| && Recoverable(fs.tree, t, plan, committed, renamed)
    modifies fs
    ensures fs.faults >= old(fs.faults) && WellFormed(fs.tree)
    ensures ok ==> Undoable(fs.tree, t, plan.updates, 0)
    ensures !ok && ReservedDisjoint(plan) ==> fs.faults > old(fs.faults)
  {
    ApplicableSourcesFree(t, plan);
    RenamesCanBeUndone(t, plan);
    CommittedUndoable(t, plan.updates);
    if ReservedDisjoint(plan) {
      RenamesReversible(t, plan);
    }
    var namesBack := RollbackRenames(fs, plan, renamed, Committed(t, plan.updates, |plan.updates|));
    var filesBack := RollbackUpdates(fs, plan.updates, committed, t);
    ok := namesBack && filesBack;
  }

  lemma Landing(t: Tree, plan: Plan, f: Tree, removed: nat)
    requires WellPlanned(plan) && WellFormed(t) && Applicable(t, plan) && removed <= |plan.updates|
    requires WellFormed(Committed(t, plan.updates, |plan.updates|)) && f == AllDone(t, plan) - BackupsNow(plan, removed)
    ensures removed == |plan.updates| ==> (Lands(t, plan, f) <==> ReservedDisjoint(plan))
    ensures ReservedDisjoint(plan) ==> LandsBesideBackups(t, plan, f)
    ensures forall u :: 0 <= u < |plan.updates| ==> plan.updates[u].temporary !in f
  {
    if ReservedDisjoint(plan) {
      LandsWithBackupsLeft(t, plan, f, removed);
    }
    if removed == |plan.updates| {
      if ReservedDisjoint(plan) {
        LandsIfDisjoint(t, plan, f);
      } else {
        LandsOnlyIfDisjoint(t, plan, f);
      }
    }
    forall u | 0 <= u < |plan.updates| ensures plan.updates[u].temporary !in f {
      NoTemporaryLeft(t, plan, u);
    }
  }

  /** Between the staging and the deferred clean-up. */
  method CommitPlan(fs: FileSystem, plan: Plan, ghost t: Tree) returns (outcome: Outcome)
    requires WellPlanned(plan) && WellFormed(t) && Applicable(t, plan) && WellFormed(fs.tree)
    requires Staged(fs.tree, t, plan.updates, |plan.updates|)
    modifies fs
    ensures fs.faults >= old(fs.faults)
    ensures outcome == Aborted(true) ==> WellFormed(fs.tree) && Undoable(fs.tree, t, plan.updates, 0)
    ensures outcome == Aborted(false) && ReservedDisjoint(plan) ==> fs.faults > old(fs.faults) + 1
    ensures outcome == Done ==> (Lands(t, plan, fs.tree) <==> ReservedDisjoint(plan))
    ensures !outcome.Aborted? && ReservedDisjoint(plan) ==> LandsBesideBackups(t, plan, fs.tree)
    ensures !outcome.Aborted? ==> forall u :: 0 <= u < |plan.updates| ==> plan.updates[u].temporary !in fs.tree
    ensures outcome != Done && ReservedDisjoint(plan) ==> fs.faults > old(fs.faults)
  {
    ApplicableSourcesFree(t, plan);
    var ok, committed := CommitUpdates(fs, plan.updates, t);
    if !ok {
      var rolledBack := RollBack(fs, plan, committed, 0, t);
      return Aborted(rolledBack);
    }
    if ReservedDisjoint(plan) {
      RenamesPossible(t, plan);
    }
    var allRenamed, renamed := CommitRenames(fs, plan.renames, Committed(t, plan.updates, |plan.updates|));
    if !allRenamed {
      var rolledBack := RollBack(fs, plan, committed, renamed, t);
      return Aborted(rolledBack);
    }
    outcome := FinishPlan(fs, plan, t);
  }

  /** The removal of the backups, which ends a run that has committed everything. */
  method FinishPlan(fs: FileSystem, plan: Plan, ghost t: Tree) returns (outcome: Outcome)
    requires WellPlanned(plan) && WellFormed(t) && Applicable(t, plan)
    requires WellFormed(Committed(t, plan.updates, |plan.updates|)) && fs.tree == AllDone(t, plan) && WellFormed(fs.tree)
    modifies fs
    ensures fs.faults >= old(fs.faults) && !outcome.Aborted?
    ensures outcome == Done ==> (Lands(t, plan, fs.tree) <==> ReservedDisjoint(plan))
    ensures ReservedDisjoint(plan) ==> LandsBesideBackups(t, plan, fs.tree) && (outcome == Done || fs.faults > old(fs.faults))
    ensures forall u :: 0 <= u < |plan.updates| ==> plan.updates[u].temporary !in fs.tree
  {
    var cleared, removed := RemoveBackups(fs, plan, t);
    Landing(t, plan, fs.tree, removed);
    outcome := if cleared then Done else BackupLeft;
  }

  /** Staging and revalidation: everything executePlan does before it touches an entry of the repository. */
  method Prepare(fs: FileSystem, plan: Plan) returns (ok: bool, staged: nat, ghost clean: bool)
    requires WellPlanned(plan) && WellFormed(fs.tree)
    modifies fs
    ensures fs.faults >= old(fs.faults) && WellFormed(fs.tree) && staged <= |plan.updates|
    ensures clean ==> Staged(fs.tree, old(fs.tree), plan.updates, staged)
    ensures !clean ==> fs.faults > old(fs.faults) + 1
    ensures ok ==> clean && staged == |plan.updates| && Applicable(old(fs.tree), plan)
    ensures !ok && Applicable(old(fs.tree), plan) ==> fs.faults > old(fs.faults)
  {
    ok, staged, clean := StageAll(fs, plan.updates);
    if Applicable(old(fs.tree), plan) {
      ApplicableSourcesFree(old(fs.tree), plan);
    }
    if ok {
      CurrentMeansApplicable(fs.tree, old(fs.tree), plan);
      ok := ValidatePlanCurrent(fs, plan);
    }
  }

  /**
   * All or nothing: an abort whose rollback and clean-up succeed leaves the tree as it was, wherever the failure was.
   * A success lands every entry in its place, with its content updated and nothing left over, exactly when no rename
   * targets a backup name. For such plans nothing but a fault stands between an applicable plan and success, and a
   * rollback or clean-up fails only by another fault.
   */
  method ExecutePlan(fs: FileSystem, plan: Plan) returns (outcome: Outcome, ghost clean: bool)
    requires WellPlanned(plan) && WellFormed(fs.tree)
    modifies fs
    ensures fs.faults >= old(fs.faults)
    ensures outcome == Aborted(true) && clean ==> fs.tree == old(fs.tree)
    ensures !Applicable(old(fs.tree), plan) ==> outcome == Aborted(true) && (clean || fs.faults > old(fs.faults))
    ensures !outcome.Aborted? ==> forall u :: 0 <= u < |plan.updates| ==>
              plan.updates[u].path in old(fs.tree)
              && old(fs.tree)[plan.updates[u].path] == File(plan.updates[u].original, plan.updates[u].mode)
    ensures !outcome.Aborted? && ReservedDisjoint(plan) ==> forall u :: 0 <= u < |plan.updates| ==>
              var q := Landed(plan.updates[u].path, plan.renames);
              q in fs.tree && fs.tree[q] == File(plan.updates[u].updated, plan.updates[u].mode)
    ensures outcome == Done ==> (Lands(old(fs.tree), plan, fs.tree) <==> ReservedDisjoint(plan))
    ensures !outcome.Aborted? && ReservedDisjoint(plan) ==> LandsBesideBackups(old(fs.tree), plan, fs.tree)
    ensures Applicable(old(fs.tree), plan) && ReservedDisjoint(plan) && outcome != Done ==> fs.faults > old(fs.faults)
    ensures outcome == Aborted(false) && ReservedDisjoint(plan) ==> fs.faults > old(fs.faults) + 1
    ensures outcome == Aborted(true) && !clean && Applicable(old(fs.tree), plan) && ReservedDisjoint(plan)
            ==> fs.faults > old(fs.faults) + 1
    ensures Applicable(old(fs.tree), plan) && ReservedDisjoint(plan) && fs.faults <= old(fs.faults) + 1
            ==> fs.tree == old(fs.tree) || LandsBesideBackups(old(fs.tree), plan, fs.tree)
  {
    ghost var t := fs.tree;
    var ok, staged, stagedClean := Prepare(fs, plan);
    if !ok {
      clean := RemoveStaged(fs, plan.updates, staged);
      clean := clean && stagedClean;
      return Aborted(true), clean;
    }
    outcome := CommitPlan(fs, plan, t);
    clean := RemoveStaged(fs, plan.updates, staged);
  }

  /** A file renamed onto the backup name of an updated file, all in the root directory. */
  lemma RenameOntoBackup(update: ContentUpdate, source: Path, t: Tree) returns (plan: Plan)
    requires Planned([update]) && |update.path| == 1 && |source| == 1 && Parent(source) == Parent(update.path)
    requires update.path != source && update.path != update.backup && source != update.temporary && source != update.backup
    requires t == map[[] := Dir(0), update.path := Old(update), source := File([], 0)]
    ensures WellFormed(t) && WellPlanned(plan) && Applicable(t, plan) && !ReservedDisjoint(plan)
    ensures plan == Plan([update], [PathRename(source, update.backup, false, 0)])
  {
    var rename := PathRename(source, update.backup, false, 0);
    plan := Plan([update], [rename]);
    assert plan.renames[0].target == plan.updates[0].backup;
    FlatTree(t);
  }

  lemma FlatTree(t: Tree)
    requires IsDir(t, []) && forall p :: p in t ==> |p| <= 1
    ensures WellFormed(t)
  {
    forall p | p in t && p != [] ensures IsDir(t, Parent(p)) {
      assert Parent(p) == [];
    }
  }

  /** The names newContentUpdate gives to a file in the root, and a sibling that carries a backup name itself. */
  lemma NamesInRoot(e: Edit, other: Path) returns (update: ContentUpdate, source: Path)
    requires |e.path| == 1 && |other| == 1 && e.path != other && e.path != Suffixed(other, BACKUP_SUFFIX)
    ensures NamedAfter(update, e) && source == Suffixed(other, BACKUP_SUFFIX)
    ensures Planned([update]) && update.path != source && update.path != update.backup
    ensures source != update.temporary && source != update.backup
  {
    source := Suffixed(other, BACKUP_SUFFIX);
    update := ContentUpdate(e.path, Suffixed(e.path, TEMPORARY_SUFFIX), Suffixed(e.path, BACKUP_SUFFIX), e.original, e.updated, e.mode);
    SuffixesDiffer(e.path, e.path);
    SuffixesDiffer(e.path, other);
    if source == update.backup {
      SuffixedInjective(e.path, other, BACKUP_SUFFIX);
    }
    assert |Base(update.temporary)| == |Base(e.path)| + 14 && |Base(update.backup)| == |Base(e.path)| + 15;
  }

  /**
   * The demands of buildPlan let a rename target a backup name: updating a file while renaming a sibling whose name
   * is another one and the backup ending, so that its new name is the updated file's and the backup ending. Then a
   * success does not land every entry.
   */
  lemma BackupCanBeTargeted(e: Edit, other: Path) returns (t: Tree, plan: Plan)
    requires |e.path| == 1 && |other| == 1 && e.path != other && e.path != Suffixed(other, BACKUP_SUFFIX)
    ensures WellFormed(t) && WellPlanned(plan) && Applicable(t, plan) && !ReservedDisjoint(plan)
    ensures |plan.updates| == 1 && NamedAfter(plan.updates[0], e)
    ensures |plan.renames| == 1 && plan.renames[0].source == Suffixed(other, BACKUP_SUFFIX)
            && plan.renames[0].target == Suffixed(e.path, BACKUP_SUFFIX)
    ensures ReservableIn(e, t) && e.path in t && TargetsFree(plan.renames, t)
            && DistinctTargets(plan.renames) && InPlace(plan.renames)
  {
    var update, source := NamesInRoot(e, other);
    t := map[[] := Dir(0), update.path := Old(update), source := File([], 0)];
    plan := RenameOntoBackup(update, source, t);
    assert RenameApplies(t, plan.renames[0]);
  }
}
