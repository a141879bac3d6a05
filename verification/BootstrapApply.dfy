/** tools/bootstrap/main.go, apply: from the edits and renames that the walk has found to the tree at the end. */
module BootstrapApply {
  import opened Bytes
  import opened Sorting
  import opened FileTree
  import opened BootstrapPlan
  import opened BootstrapRun
  import opened RenameRun
  import opened Bootstrap

  /** DryRun: the plan was made and nothing else. */
  datatype Applied = Refused | DryRun | Ran(outcome: Outcome)

  /** What the walk has read: the content and mode of each edited file, the kind and mode of each renamed entry. */
  ghost predicate ReadFrom(t: Tree, edits: seq<Edit>, found: seq<PathRename>) {
    && DistinctPaths(edits)
    && (forall i :: 0 <= i < |edits| ==>
          edits[i].path in t && t[edits[i].path] == File(edits[i].original, edits[i].mode))
    && DistinctSources(found) && InPlace(found)
    && (forall r :: 0 <= r < |found| ==>
          found[r].source in t && t[found[r].source].Dir? == found[r].dir && t[found[r].source].mode == found[r].mode)
  }

  /** Every edited file has its new content where the renames take its path, every other entry is there as it was. */
  ghost predicate EditsArrived(t: Tree, edits: seq<Edit>, found: seq<PathRename>, f: Tree)
    requires InPlace(found)
  {
    && (forall i :: 0 <= i < |edits| ==>
          var q := Landed(edits[i].path, found); q in f && f[q] == File(edits[i].updated, edits[i].mode))
    && (forall p :: p in t && (forall i :: 0 <= i < |edits| ==> edits[i].path != p) ==>
          Landed(p, found) in f && f[Landed(p, found)] == t[p])
  }

  ghost predicate NothingElse(t: Tree, found: seq<PathRename>, f: Tree)
    requires InPlace(found)
  {
    forall q :: q in f ==> exists p :: p in t && q == Landed(p, found)
  }

  /** No rename ends at a name with the given ending of an edited file. */
  ghost predicate TargetsApart(edits: seq<Edit>, found: seq<PathRename>, suffix: text)
    requires DistinctPaths(edits)
  {
    forall i, r :: 0 <= i < |edits| && 0 <= r < |found| ==> found[r].target != Suffixed(edits[i].path, suffix)
  }

  /** How buildPlan relates a plan to its edits and renames. */
  ghost predicate MadeOf(plan: Plan, made: seq<ContentUpdate>, edits: seq<Edit>, found: seq<PathRename>)
    requires DistinctPaths(edits)
  {
    && multiset(plan.renames) == multiset(found) && multiset(plan.updates) == multiset(made)
    && |made| == |edits| && forall i :: 0 <= i < |edits| ==> NamedAfter(made[i], edits[i])
  }

  lemma EditOfUpdate(plan: Plan, made: seq<ContentUpdate>, edits: seq<Edit>, found: seq<PathRename>, u: nat) returns (i: nat)
    requires DistinctPaths(edits) && MadeOf(plan, made, edits, found) && u < |plan.updates|
    ensures i < |edits| && NamedAfter(plan.updates[u], edits[i])
  {
    MemberOfBoth(made, plan.updates, plan.updates[u]);
    i :| 0 <= i < |made| && made[i] == plan.updates[u];
  }

  lemma UpdateOfEdit(plan: Plan, made: seq<ContentUpdate>, edits: seq<Edit>, found: seq<PathRename>, i: nat) returns (u: nat)
    requires DistinctPaths(edits) && MadeOf(plan, made, edits, found) && i < |edits|
    ensures u < |plan.updates| && NamedAfter(plan.updates[u], edits[i])
  {
    MemberOfBoth(made, plan.updates, made[i]);
    u :| 0 <= u < |plan.updates| && plan.updates[u] == made[i];
  }

  lemma RenameOf(plan: Plan, found: seq<PathRename>, r: nat) returns (k: nat)
    requires multiset(plan.renames) == multiset(found) && r < |found|
    ensures k < |plan.renames| && plan.renames[k] == found[r]
  {
    MemberOfBoth(plan.renames, found, found[r]);
    k :| 0 <= k < |plan.renames| && plan.renames[k] == found[r];
  }

  /** The plan's own conditions are conditions on edits and renames. */
  lemma DisjointByEdits(plan: Plan, made: seq<ContentUpdate>, edits: seq<Edit>, found: seq<PathRename>)
    requires DistinctPaths(edits) && MadeOf(plan, made, edits, found)
    ensures ReservedDisjoint(plan) <==> TargetsApart(edits, found, BACKUP_SUFFIX)
  {
    if ReservedDisjoint(plan) {
      forall i, r | 0 <= i < |edits| && 0 <= r < |found| ensures found[r].target != Suffixed(edits[i].path, BACKUP_SUFFIX) {
        var u := UpdateOfEdit(plan, made, edits, found, i);
        var k := RenameOf(plan, found, r);
      }
    }
    if TargetsApart(edits, found, BACKUP_SUFFIX) {
      forall u, r | 0 <= u < |plan.updates| && 0 <= r < |plan.renames|
        ensures plan.renames[r].target != plan.updates[u].backup
      {
        var i := EditOfUpdate(plan, made, edits, found, u);
        MemberOfBoth(found, plan.renames, plan.renames[r]);
      }
    }
  }

  lemma ApplicableByEdits(t: Tree, plan: Plan, made: seq<ContentUpdate>, edits: seq<Edit>, found: seq<PathRename>)
    requires ReadFrom(t, edits, found) && MadeOf(plan, made, edits, found) && TargetsFree(found, t)
    requires forall i :: 0 <= i < |edits| ==> ReservableIn(edits[i], t)
    ensures Applicable(t, plan) <==> TargetsApart(edits, found, TEMPORARY_SUFFIX)
  {
    forall u | 0 <= u < |plan.updates| ensures UpdateApplies(t, plan.updates[u]) && plan.updates[u].temporary !in t {
      var i := EditOfUpdate(plan, made, edits, found, u);
      assert ReservableIn(edits[i], t);
    }
    forall r | 0 <= r < |plan.renames| ensures RenameApplies(t, plan.renames[r]) {
      MemberOfBoth(found, plan.renames, plan.renames[r]);
    }
    if Applicable(t, plan) {
      forall i, r | 0 <= i < |edits| && 0 <= r < |found| ensures found[r].target != Suffixed(edits[i].path, TEMPORARY_SUFFIX) {
        var u := UpdateOfEdit(plan, made, edits, found, i);
        var k := RenameOf(plan, found, r);
      }
    }
    if TargetsApart(edits, found, TEMPORARY_SUFFIX) {
      forall u, r | 0 <= u < |plan.updates| && 0 <= r < |plan.renames|
        ensures plan.renames[r].target != plan.updates[u].temporary
      {
        var i := EditOfUpdate(plan, made, edits, found, u);
        MemberOfBoth(found, plan.renames, plan.renames[r]);
      }
    }
  }

  lemma PathsByEdits(plan: Plan, made: seq<ContentUpdate>, edits: seq<Edit>, found: seq<PathRename>, p: Path)
    requires DistinctPaths(edits) && MadeOf(plan, made, edits, found)
    ensures (forall u :: 0 <= u < |plan.updates| ==> plan.updates[u].path != p)
       <==> (forall i :: 0 <= i < |edits| ==> edits[i].path != p)
  {
    if u :| 0 <= u < |plan.updates| && plan.updates[u].path == p {
      var i := EditOfUpdate(plan, made, edits, found, u);
    }
    if i :| 0 <= i < |edits| && edits[i].path == p {
      var u := UpdateOfEdit(plan, made, edits, found, i);
    }
  }

  lemma OthersByEdits(t: Tree, plan: Plan, made: seq<ContentUpdate>, edits: seq<Edit>, found: seq<PathRename>, f: Tree, p: Path)
    requires DistinctPaths(edits) && MadeOf(plan, made, edits, found)
    requires InPlace(found) && DistinctSources(found) && OrderedRenames(plan.renames)
    requires Arrived(t, plan, f) && p in t && forall i :: 0 <= i < |edits| ==> edits[i].path != p
    ensures Landed(p, found) in f && f[Landed(p, found)] == t[p]
  {
    PathsByEdits(plan, made, edits, found, p);
    LandedOrderFree(p, plan.renames, found);
  }

  lemma ArrivedByEdits(t: Tree, plan: Plan, made: seq<ContentUpdate>, edits: seq<Edit>, found: seq<PathRename>, f: Tree)
    requires DistinctPaths(edits) && MadeOf(plan, made, edits, found)
    requires InPlace(found) && DistinctSources(found) && OrderedRenames(plan.renames)
    requires Arrived(t, plan, f)
    ensures EditsArrived(t, edits, found, f)
  {
    forall i | 0 <= i < |edits|
      ensures var q := Landed(edits[i].path, found); q in f && f[q] == File(edits[i].updated, edits[i].mode)
    {
      var u := UpdateOfEdit(plan, made, edits, found, i);
      LandedOrderFree(edits[i].path, plan.renames, found);
    }
    forall p | p in t && (forall i :: 0 <= i < |edits| ==> edits[i].path != p)
      ensures Landed(p, found) in f && f[Landed(p, found)] == t[p]
    {
      OthersByEdits(t, plan, made, edits, found, f, p);
    }
  }

  lemma EditsByPlan(t: Tree, plan: Plan, made: seq<ContentUpdate>, edits: seq<Edit>, found: seq<PathRename>, f: Tree)
    requires DistinctPaths(edits) && MadeOf(plan, made, edits, found)
    requires InPlace(found) && DistinctSources(found) && OrderedRenames(plan.renames)
    requires EditsArrived(t, edits, found, f)
    ensures Arrived(t, plan, f)
  {
    forall u | 0 <= u < |plan.updates|
      ensures var q := Landed(plan.updates[u].path, plan.renames);
              q in f && f[q] == File(plan.updates[u].updated, plan.updates[u].mode)
    {
      var i := EditOfUpdate(plan, made, edits, found, u);
      LandedOrderFree(edits[i].path, plan.renames, found);
    }
    forall p | p in t && (forall u :: 0 <= u < |plan.updates| ==> plan.updates[u].path != p)
      ensures Landed(p, plan.renames) in f && f[Landed(p, plan.renames)] == t[p]
    {
      PathsByEdits(plan, made, edits, found, p);
      LandedOrderFree(p, plan.renames, found);
    }
  }

  lemma LandsByEdits(t: Tree, plan: Plan, made: seq<ContentUpdate>, edits: seq<Edit>, found: seq<PathRename>, f: Tree)
    requires DistinctPaths(edits) && MadeOf(plan, made, edits, found)
    requires InPlace(found) && DistinctSources(found) && OrderedRenames(plan.renames)
    ensures Lands(t, plan, f) <==> EditsArrived(t, edits, found, f) && NothingElse(t, found, f)
    ensures LandsBesideBackups(t, plan, f) ==> EditsArrived(t, edits, found, f)
  {
    if Arrived(t, plan, f) {
      ArrivedByEdits(t, plan, made, edits, found, f);
    }
    if EditsArrived(t, edits, found, f) {
      EditsByPlan(t, plan, made, edits, found, f);
    }
    forall p ensures Landed(p, plan.renames) == Landed(p, found) {
      LandedOrderFree(p, plan.renames, found);
    }
  }

  /**
   * apply, from what the walk has read to the tree at the end. Without a fault, and with no target on a reserved
   * name, every edited file holds its new content at the path that the renames give it and every other entry is there
   * as it was, and nothing else is.
   */
  method Apply(fs: FileSystem, edits: seq<Edit>, found: seq<PathRename>, dryRun: bool) returns (result: Applied, ghost clean: bool)
    requires WellFormed(fs.tree) && ReadFrom(fs.tree, edits, found)
    modifies fs
    ensures fs.faults >= old(fs.faults)
    ensures result != Refused <==> DistinctTargets(found) && TargetsFree(found, old(fs.tree))
                                   && forall i :: 0 <= i < |edits| ==> ReservableIn(edits[i], old(fs.tree))
    ensures result == DryRun <==> result != Refused && dryRun
    ensures !result.Ran? ==> fs.tree == old(fs.tree)
    ensures result == Ran(Aborted(true)) && clean ==> fs.tree == old(fs.tree)
    ensures result == Ran(Done) ==>
              (EditsArrived(old(fs.tree), edits, found, fs.tree) && NothingElse(old(fs.tree), found, fs.tree)
               <==> TargetsApart(edits, found, BACKUP_SUFFIX))
    ensures result == Ran(BackupLeft) && TargetsApart(edits, found, BACKUP_SUFFIX) ==>
              EditsArrived(old(fs.tree), edits, found, fs.tree)
    ensures result.Ran? && !TargetsApart(edits, found, TEMPORARY_SUFFIX) ==> result == Ran(Aborted(true))
    ensures result.Ran? && TargetsApart(edits, found, BACKUP_SUFFIX) && TargetsApart(edits, found, TEMPORARY_SUFFIX) ==>
              result == Ran(Done) || fs.faults > old(fs.faults)
  {
    clean := true;
    ghost var t := fs.tree;
    var built, made := BuildPlan(edits, found, fs.tree);
    if built.None? {
      return Refused, clean;
    }
    if dryRun {
      return DryRun, clean;
    }
    var plan := built.value;
    DisjointByEdits(plan, made, edits, found);
    ApplicableByEdits(t, plan, made, edits, found);
    var outcome;
    outcome, clean := ExecutePlan(fs, plan);
    LandsByEdits(t, plan, made, edits, found, fs.tree);
    result := Ran(outcome);
  }
}
