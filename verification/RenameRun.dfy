/** A run of the renames of a plan: what each step finds, where everything ends, and what undoing it can miss. */
module RenameRun {
  import opened Bytes
  import opened FileTree
  import opened BootstrapPlan
  import opened BootstrapRun

  /** The tree after the first n renames. */
  ghost function TreeAfter(t: Tree, renames: seq<PathRename>, n: nat): Tree
    requires n <= |renames|
  {
    if n == 0 then t
    else Renamed(TreeAfter(t, renames, n - 1), renames[n - 1].source, renames[n - 1].target)
  }

  ghost predicate Possible(t: Tree, renames: seq<PathRename>, i: nat)
    requires i < |renames|
  {
    CanRename(TreeAfter(t, renames, i), renames[i].source, renames[i].target)
  }

  /** Each of the first n renames was possible when its turn came. */
  ghost predicate Ran(t: Tree, renames: seq<PathRename>, n: nat)
    requires n <= |renames|
  {
    n == 0 || (Ran(t, renames, n - 1) && Possible(t, renames, n - 1))
  }

  lemma StepWellFormed(t: Tree, renames: seq<PathRename>, n: nat)
    requires n < |renames| && WellFormed(TreeAfter(t, renames, n))
    requires Possible(t, renames, n)
    ensures WellFormed(TreeAfter(t, renames, n + 1))
  {
    RenamedWellFormed(TreeAfter(t, renames, n), renames[n].source, renames[n].target);
  }

  lemma {:induction false} RanWellFormed(t: Tree, renames: seq<PathRename>, n: nat)
    requires n <= |renames| && WellFormed(t) && Ran(t, renames, n)
    ensures WellFormed(TreeAfter(t, renames, n))
  {
    if n > 0 {
      RanWellFormed(t, renames, n - 1);
      StepWellFormed(t, renames, n - 1);
    }
  }

  lemma MoveLast(p: Path, renames: seq<PathRename>, n: nat)
    requires InPlace(renames) && 0 < n <= |renames|
    ensures MoveAll(p, renames[..n]) == Move(MoveAll(p, renames[..n - 1]), renames[n - 1].source, renames[n - 1].target)
  {
    assert renames[..n][..n - 1] == renames[..n - 1];
  }

  /** Whatever is in the tree came from an entry that the renames moved there. */
  lemma {:induction false} ComesFrom(t: Tree, renames: seq<PathRename>, n: nat, q: Path) returns (p: Path)
    requires InPlace(renames) && n <= |renames| && q in TreeAfter(t, renames, n)
    ensures p in t && MoveAll(p, renames[..n]) == q && TreeAfter(t, renames, n)[q] == t[p]
  {
    if n == 0 {
      p := q;
    } else {
      var r := renames[n - 1];
      var origin := Origin(q, r.source, r.target);
      p := ComesFrom(t, renames, n - 1, origin);
      MoveLast(p, renames, n);
      if r.target <= q {
        assert origin[|r.source|..] == q[|r.target|..];
        assert q == r.target + q[|r.target|..];
      }
    }
  }

  /** If no target was taken, every entry arrives where the renames take it. */
  lemma {:induction false} GoesTo(t: Tree, renames: seq<PathRename>, n: nat, p: Path)
    requires OrderedRenames(renames) && SourcesFree(renames) && n <= |renames|
    requires WellFormed(t) && TargetsFree(renames, t) && p in t
    ensures var q := MoveAll(p, renames[..n]);
            q in TreeAfter(t, renames, n) && TreeAfter(t, renames, n)[q] == t[p]
  {
    if n > 0 {
      GoesTo(t, renames, n - 1, p);
      var r, q := renames[n - 1], MoveAll(p, renames[..n - 1]);
      PrefixPlan(renames, n - 1);
      MoveAllIsLanded(p, renames[..n - 1]);
      TargetFound(p, renames, n - 1);
      AncestorOf(t, r.target, p);
      assert !(r.target <= q);
      MoveLast(p, renames, n);
      MovedIsThere(TreeAfter(t, renames, n - 1), r.source, r.target, q);
    }
  }

  lemma MovedIsThere(t: Tree, source: Path, target: Path, q: Path)
    requires q in t && !(target <= q)
    ensures var m := Move(q, source, target); m in Renamed(t, source, target) && Renamed(t, source, target)[m] == t[q]
  {
    if source <= q {
      var m := target + q[|source|..];
      assert m[|target|..] == q[|source|..];
      assert source + q[|source|..] == q;
    }
  }

  /** A target that is taken when its turn comes was taken from the start. */
  lemma TakenFromTheStart(t: Tree, renames: seq<PathRename>, n: nat)
    requires OrderedRenames(renames) && SourcesFree(renames) && n < |renames|
    requires renames[n].target in TreeAfter(t, renames, n)
    ensures renames[n].target in t
  {
    var p := ComesFrom(t, renames, n, renames[n].target);
    PrefixPlan(renames, n);
    MoveAllIsLanded(p, renames[..n]);
    TargetFound(p, renames, n);
  }

  lemma NextIsValid(t: Tree, renames: seq<PathRename>, n: nat)
    requires OrderedRenames(renames) && SourcesFree(renames) && n < |renames|
    requires WellFormed(t) && TargetsFree(renames, t) && renames[n].source in t
    requires WellFormed(TreeAfter(t, renames, n))
    ensures Possible(t, renames, n)
    ensures renames[n].target !in TreeAfter(t, renames, n)
  {
    var r, now := renames[n], TreeAfter(t, renames, n);
    assert r.source in now by {
      GoesTo(t, renames, n, r.source);
      PrefixPlan(renames, n);
      MoveAllIsLanded(r.source, renames[..n]);
      SourceFound(r.source, renames, n);
    }
    assert r.target !in now by {
      if r.target in now {
        TakenFromTheStart(t, renames, n);
      }
    }
    assert SameDirectory(r);
    assert IsDir(now, Parent(r.source));
    assert r.source != r.target;
  }

  /** All the facts about names that let the renames of a plan go through from t. */
  ghost predicate Runnable(t: Tree, renames: seq<PathRename>) {
    OrderedRenames(renames) && SourcesFree(renames) && TargetsFree(renames, t)
    && forall i :: 0 <= i < |renames| ==> renames[i].source in t
  }

  /** Rename n can be done in a well-formed tree and leaves one. */
  ghost predicate StepGood(t: Tree, renames: seq<PathRename>, n: nat)
    requires n < |renames|
  {
    WellFormed(TreeAfter(t, renames, n)) ==> Possible(t, renames, n) && WellFormed(TreeAfter(t, renames, n + 1))
  }

  lemma NextIsGood(t: Tree, renames: seq<PathRename>, n: nat)
    requires n < |renames| && WellFormed(t) && Runnable(t, renames)
    ensures StepGood(t, renames, n)
  {
    if WellFormed(TreeAfter(t, renames, n)) {
      NextIsValid(t, renames, n);
      StepWellFormed(t, renames, n);
    }
  }

  lemma {:induction false} StepsAddUp(t: Tree, renames: seq<PathRename>, n: nat)
    requires n <= |renames| && WellFormed(t)
    requires forall k {:trigger StepGood(t, renames, k)} :: 0 <= k < n ==> StepGood(t, renames, k)
    ensures Ran(t, renames, n) && WellFormed(TreeAfter(t, renames, n))
  {
    if n > 0 {
      StepsAddUp(t, renames, n - 1);
      assert StepGood(t, renames, n - 1);
    }
  }

  /** Deepest first: every rename finds its source where the plan says and its target free. */
  lemma SourcesStayValid(t: Tree, renames: seq<PathRename>, n: nat)
    requires n <= |renames| && WellFormed(t) && Runnable(t, renames)
    ensures Ran(t, renames, n) && WellFormed(TreeAfter(t, renames, n))
  {
    forall k | 0 <= k < n ensures StepGood(t, renames, k) {
      NextIsGood(t, renames, k);
    }
    StepsAddUp(t, renames, n);
  }

  // ----- undoing the renames

  /** Some backup is gone, and no rename still to be undone can bring it back. */
  ghost predicate Lost(s: Tree, updates: seq<ContentUpdate>, renames: seq<PathRename>, j: nat)
    requires j <= |renames|
  {
    exists u :: 0 <= u < |updates| && updates[u].backup !in s && forall k :: 0 <= k < j ==> |updates[u].backup| <= |renames[k].source|
  }

  /** A taken target of an applicable plan is the backup of one of its updates. */
  lemma TakenByBackup(t: Tree, plan: Plan, n: nat) returns (u: nat)
    requires WellPlanned(plan) && Applicable(t, plan) && n < |plan.renames|
    requires plan.renames[n].target in Committed(t, plan.updates, |plan.updates|)
    ensures u < |plan.updates| && plan.updates[u].backup == plan.renames[n].target
  {
    var target, updates := plan.renames[n].target, plan.updates;
    assert RenameApplies(t, plan.renames[n]);
    if i :| 0 <= i < |updates| && updates[i].backup == target {
      u := i;
    } else {
      assert forall i :: 0 <= i < |updates| ==> target != updates[i].path by {
        assert forall i :: 0 <= i < |updates| ==> UpdateApplies(t, updates[i]);
      }
      CommittedElsewhere(t, updates, |updates|, target);
      assert false;
    }
  }

  lemma ApplicableSourcesFree(t: Tree, plan: Plan)
    requires WellPlanned(plan) && Applicable(t, plan)
    ensures SourcesFree(plan.renames) && UpdatesApply(t, plan.updates)
    ensures forall u, r :: 0 <= u < |plan.updates| && 0 <= r < |plan.renames| ==> plan.renames[r].source != plan.updates[u].backup
  {
    forall i, j | 0 <= i < |plan.renames| && 0 <= j < |plan.renames| ensures plan.renames[i].source != plan.renames[j].target {
      assert RenameApplies(t, plan.renames[i]) && RenameApplies(t, plan.renames[j]);
    }
    forall u, r | 0 <= u < |plan.updates| && 0 <= r < |plan.renames|
      ensures plan.renames[r].source != plan.updates[u].backup
    {
      assert RenameApplies(t, plan.renames[r]) && UpdateApplies(t, plan.updates[u]);
    }
  }

  /** The first n renames are in force on top of all updates. */
  ghost predicate RenamesMade(s: Tree, done: Tree, renames: seq<PathRename>, n: nat)
    requires n <= |renames|
  {
    WellFormed(done) && WellFormed(s) && Ran(done, renames, n) && s == TreeAfter(done, renames, n)
  }

  /** The first n renames are in force, or a backup has been lost to one of those undone. */
  ghost predicate RenamesUndoable(s: Tree, done: Tree, plan: Plan, n: nat)
    requires n <= |plan.renames|
  {
    RenamesMade(s, done, plan.renames, n) || Lost(s, plan.updates, plan.renames, n)
  }

  /** One rename undone: the tree before it is back, unless the rename had overwritten a backup, which is then lost. */
  lemma UndoRename(s: Tree, t: Tree, plan: Plan, n: nat)
    requires WellPlanned(plan) && WellFormed(t) && Applicable(t, plan) && n < |plan.renames|
    requires RenamesMade(s, Committed(t, plan.updates, |plan.updates|), plan.renames, n + 1)
    ensures var r := Renamed(s, plan.renames[n].target, plan.renames[n].source);
            RenamesMade(r, Committed(t, plan.updates, |plan.updates|), plan.renames, n) || Lost(r, plan.updates, plan.renames, n)
  {
    var done, r := Committed(t, plan.updates, |plan.updates|), plan.renames[n];
    var before := TreeAfter(done, plan.renames, n);
    ApplicableSourcesFree(t, plan);
    RanWellFormed(done, plan.renames, n);
    assert Possible(done, plan.renames, n);
    if r.target !in before {
      RenameBack(before, r.source, r.target);
    } else {
      TakenFromTheStart(done, plan.renames, n);
      var u := TakenByBackup(t, plan, n);
      assert SameDirectory(r);
      RenamedAbsent(s, r.target, r.source, r.target);
      assert plan.updates[u].backup !in Renamed(s, r.target, r.source);
    }
  }

  /** When no target was taken, every rename can be undone, the last one first. */
  lemma ReverseOne(s: Tree, done: Tree, renames: seq<PathRename>, n: nat)
    requires n < |renames| && Runnable(done, renames) && RenamesMade(s, done, renames, n + 1)
    ensures CanRename(s, renames[n].target, renames[n].source)
    ensures RenamesMade(Renamed(s, renames[n].target, renames[n].source), done, renames, n)
  {
    var r, before := renames[n], TreeAfter(done, renames, n);
    RanWellFormed(done, renames, n);
    NextIsValid(done, renames, n);
    RenameBack(before, r.source, r.target);
    assert SameDirectory(r);
    CanRenameBack(before, r.source, r.target);
  }

  lemma CanRenameBack(t: Tree, source: Path, target: Path)
    requires WellFormed(Renamed(t, source, target)) && source in t && source != [] && target != []
    requires source != target && |source| == |target| && Parent(source) == Parent(target)
    ensures CanRename(Renamed(t, source, target), target, source)
  {
    MovedIsThere(t, source, target, source);
    assert Move(source, source, target) == target;
    RenamedAbsent(t, source, target, source);
    assert IsDir(Renamed(t, source, target), Parent(target));
  }

  /** A lost backup stays lost. */
  lemma StaysLost(s: Tree, t: Tree, plan: Plan, n: nat)
    requires WellPlanned(plan) && Applicable(t, plan) && n < |plan.renames| && Lost(s, plan.updates, plan.renames, n + 1)
    ensures Lost(Renamed(s, plan.renames[n].target, plan.renames[n].source), plan.updates, plan.renames, n)
  {
    var u :| 0 <= u < |plan.updates| && plan.updates[u].backup !in s
             && forall k :: 0 <= k < n + 1 ==> |plan.updates[u].backup| <= |plan.renames[k].source|;
    var r, backup := plan.renames[n], plan.updates[u].backup;
    ApplicableSourcesFree(t, plan);
    assert !(r.source <= backup);
    RenamedAbsent(s, r.target, r.source, backup);
  }

  // ----- the result of a whole run

  ghost function BackupsNow(plan: Plan, k: nat): set<Path>
    requires InPlace(plan.renames) && k <= |plan.updates|
  {
    set u | 0 <= u < k :: PathAfter(plan.updates[u].backup, plan.renames)
  }

  /** What the entry at p holds once the updates are committed. */
  ghost function Expected(t: Tree, updates: seq<ContentUpdate>, p: Path): Node
    requires p in t
  {
    if u :| 0 <= u < |updates| && updates[u].path == p then New(updates[u]) else t[p]
  }

  /** Every updated file is where its renamed components put it with its new bytes, every other entry as it was. */
  ghost predicate Arrived(t: Tree, plan: Plan, f: Tree)
    requires InPlace(plan.renames)
  {
    && (forall u :: 0 <= u < |plan.updates| ==>
          var q := Landed(plan.updates[u].path, plan.renames);
          q in f && f[q] == File(plan.updates[u].updated, plan.updates[u].mode))
    && (forall p :: p in t && (forall u :: 0 <= u < |plan.updates| ==> plan.updates[u].path != p) ==>
          Landed(p, plan.renames) in f && f[Landed(p, plan.renames)] == t[p])
  }

  /** And nothing else is there. */
  ghost predicate Lands(t: Tree, plan: Plan, f: Tree)
    requires InPlace(plan.renames)
  {
    Arrived(t, plan, f) && forall q :: q in f ==> exists p :: p in t && q == Landed(p, plan.renames)
  }

  /** As Lands, but backups may still be there, each where its path has been renamed to. */
  ghost predicate LandsBesideBackups(t: Tree, plan: Plan, f: Tree)
    requires InPlace(plan.renames)
  {
    Arrived(t, plan, f)
    && forall q :: q in f ==> q in BackupsNow(plan, |plan.updates|) || exists p :: p in t && q == Landed(p, plan.renames)
  }

  lemma ExpectedArrives(t: Tree, plan: Plan, f: Tree)
    requires InPlace(plan.renames) && Planned(plan.updates) && UpdatesApply(t, plan.updates)
    requires forall p :: p in t ==> Landed(p, plan.renames) in f && f[Landed(p, plan.renames)] == Expected(t, plan.updates, p)
    ensures Arrived(t, plan, f)
  {
    forall u | 0 <= u < |plan.updates|
      ensures var q := Landed(plan.updates[u].path, plan.renames);
              q in f && f[q] == File(plan.updates[u].updated, plan.updates[u].mode)
    {
      assert UpdateApplies(t, plan.updates[u]);
    }
  }

  lemma ArrivedInTree(t: Tree, plan: Plan, f: Tree, p: Path)
    requires InPlace(plan.renames) && Arrived(t, plan, f) && p in t
    ensures Landed(p, plan.renames) in f
  {
  }

  lemma CommittedExpected(t: Tree, updates: seq<ContentUpdate>, p: Path)
    requires Planned(updates) && UpdatesApply(t, updates) && p in t
    ensures var r := Committed(t, updates, |updates|); p in r && r[p] == Expected(t, updates, p)
  {
    if u :| 0 <= u < |updates| && updates[u].path == p {
      CommittedHere(t, updates, |updates|, u);
    } else {
      forall i | 0 <= i < |updates| ensures p != updates[i].backup {
        assert UpdateApplies(t, updates[i]);
      }
      CommittedElsewhere(t, updates, |updates|, p);
    }
  }

  lemma CommittedKeys(t: Tree, updates: seq<ContentUpdate>, q: Path)
    requires Planned(updates) && UpdatesApply(t, updates) && q in Committed(t, updates, |updates|)
    ensures q in t || exists u :: 0 <= u < |updates| && q == updates[u].backup
  {
    if forall u :: 0 <= u < |updates| ==> q != updates[u].backup && q != updates[u].path {
      CommittedElsewhere(t, updates, |updates|, q);
    } else {
      forall u | 0 <= u < |updates| ensures updates[u].path in t {
        assert UpdateApplies(t, updates[u]);
      }
    }
  }

  /** The tree with all updates committed and all renames done. */
  ghost function AllDone(t: Tree, plan: Plan): Tree {
    TreeAfter(Committed(t, plan.updates, |plan.updates|), plan.renames, |plan.renames|)
  }

  lemma LandedFromCommitted(t: Tree, plan: Plan, q: Path) returns (p: Path)
    requires WellPlanned(plan) && Applicable(t, plan) && q in AllDone(t, plan)
    ensures var done := Committed(t, plan.updates, |plan.updates|);
            p in done && Landed(p, plan.renames) == q && AllDone(t, plan)[q] == done[p]
    ensures p in t || exists u :: 0 <= u < |plan.updates| && p == plan.updates[u].backup
  {
    var done, m := Committed(t, plan.updates, |plan.updates|), |plan.renames|;
    ApplicableSourcesFree(t, plan);
    p := ComesFrom(done, plan.renames, m, q);
    assert plan.renames[..m] == plan.renames;
    MoveAllIsLanded(p, plan.renames);
    CommittedKeys(t, plan.updates, p);
  }

  lemma TemporaryAncestors(t: Tree, u: ContentUpdate, k: nat)
    requires Beside(u.path, u.temporary) && WellFormed(t) && u.path in t && k < |u.path|
    ensures u.temporary[..k] in t
  {
    assert u.temporary[..k] == Parent(u.temporary)[..k] == Parent(u.path)[..k] == u.path[..k];
    AncestorExists(t, u.path, k);
  }

  /** No target lies on the way to a temporary name. */
  lemma NoTargetOnTheWay(t: Tree, plan: Plan, u: nat, r: nat, k: nat)
    requires WellPlanned(plan) && WellFormed(t) && Applicable(t, plan) && u < |plan.updates| && r < |plan.renames|
    requires k < |plan.updates[u].temporary|
    ensures plan.renames[r].target != plan.updates[u].temporary[..k + 1]
  {
    var q := plan.updates[u].temporary;
    assert RenameApplies(t, plan.renames[r]) && UpdateApplies(t, plan.updates[u]);
    if k + 1 < |q| {
      TemporaryAncestors(t, plan.updates[u], k + 1);
    } else {
      assert q[..k + 1] == q;
    }
  }

  lemma NotLandedOnTemporary(t: Tree, plan: Plan, u: nat, p: Path)
    requires WellPlanned(plan) && WellFormed(t) && Applicable(t, plan) && u < |plan.updates| && p != plan.updates[u].temporary
    ensures Landed(p, plan.renames) != plan.updates[u].temporary
  {
    var q := plan.updates[u].temporary;
    if |p| == |q| {
      var k := FirstDifference(p, q);
      assert q[..k + 1] == q[..k] + [q[k]];
      if NewBase(p[..k + 1], plan.renames) == q[k] {
        var r := RenamedTo(plan.renames, p, k, q[k]);
        NoTargetOnTheWay(t, plan, u, r, k);
        assert false;
      }
      assert Landed(p, plan.renames)[k] != q[k];
    }
  }

  /** No entry ends under a temporary name, so removing the staged names again touches nothing. */
  lemma NoTemporaryLeft(t: Tree, plan: Plan, u: nat)
    requires WellPlanned(plan) && WellFormed(t) && Applicable(t, plan) && u < |plan.updates|
    ensures plan.updates[u].temporary !in AllDone(t, plan)
  {
    var q := plan.updates[u].temporary;
    if q in AllDone(t, plan) {
      var p := LandedFromCommitted(t, plan, q);
      NotLandedOnTemporary(t, plan, u, p);
      assert false;
    }
  }

  /** Only a rename changes a component. */
  lemma RenamedTo(renames: seq<PathRename>, p: Path, k: nat, name: text) returns (r: nat)
    requires OrderedRenames(renames) && k < |p| && name != p[k] && NewBase(p[..k + 1], renames) == name
    ensures r < |renames| && renames[r].target == p[..k] + [name]
  {
    var here := p[..k + 1];
    if i :| 0 <= i < |renames| && renames[i].source == here {
      RenamedOnce(renames, i);
      assert here == p[..k] + [p[k]];
      SiblingTarget(renames[i], p[..k], p[k]);
      r := i;
    } else {
      NotRenamed(here, renames);
      assert false;
    }
  }

  lemma DisjointMeansFree(t: Tree, plan: Plan)
    requires WellPlanned(plan) && Applicable(t, plan) && ReservedDisjoint(plan)
    ensures Runnable(Committed(t, plan.updates, |plan.updates|), plan.renames)
  {
    ApplicableSourcesFree(t, plan);
    var done := Committed(t, plan.updates, |plan.updates|);
    forall r | 0 <= r < |plan.renames| ensures plan.renames[r].target !in done && plan.renames[r].source in done {
      assert RenameApplies(t, plan.renames[r]);
      CommittedExpected(t, plan.updates, plan.renames[r].source);
      if plan.renames[r].target in done {
        CommittedKeys(t, plan.updates, plan.renames[r].target);
      }
    }
  }

  /** Two entries of the committed tree never land on one path. */
  lemma CommittedStaysApart(t: Tree, plan: Plan, p: Path, q: Path)
    requires WellPlanned(plan) && Applicable(t, plan) && ReservedDisjoint(plan)
    requires var done := Committed(t, plan.updates, |plan.updates|); WellFormed(done) && p in done && q in done && p != q
    ensures Landed(p, plan.renames) != Landed(q, plan.renames)
  {
    var done := Committed(t, plan.updates, |plan.updates|);
    DisjointMeansFree(t, plan);
    forall k | 0 <= k <= |p| ensures p[..k] in done.Keys {
      AncestorExists(done, p, k);
    }
    forall k | 0 <= k <= |q| ensures q[..k] in done.Keys {
      AncestorExists(done, q, k);
    }
    LandedInjective(plan.renames, p, q, done.Keys);
  }

  lemma BackupFound(t: Tree, plan: Plan, u: nat)
    requires WellPlanned(plan) && Applicable(t, plan) && u < |plan.updates|
    ensures InPlace(plan.renames)
    ensures PathAfter(plan.updates[u].backup, plan.renames) == Landed(plan.updates[u].backup, plan.renames)
  {
    ApplicableSourcesFree(t, plan);
    PathAfterIsMoveAll(plan.updates[u].backup, plan.renames);
    MoveAllIsLanded(plan.updates[u].backup, plan.renames);
  }

  /** Every entry of the committed tree is found where its components land it. */
  lemma CommittedArrives(t: Tree, plan: Plan, p: Path)
    requires WellPlanned(plan) && Applicable(t, plan) && ReservedDisjoint(plan)
    requires var done := Committed(t, plan.updates, |plan.updates|); WellFormed(done) && p in done
    ensures var q := Landed(p, plan.renames);
            q in AllDone(t, plan) && AllDone(t, plan)[q] == Committed(t, plan.updates, |plan.updates|)[p]
  {
    DisjointMeansFree(t, plan);
    assert plan.renames[..|plan.renames|] == plan.renames;
    GoesTo(Committed(t, plan.updates, |plan.updates|), plan.renames, |plan.renames|, p);
    MoveAllIsLanded(p, plan.renames);
  }

  lemma LandsIfDisjoint(t: Tree, plan: Plan, f: Tree)
    requires WellPlanned(plan) && Applicable(t, plan) && ReservedDisjoint(plan)
    requires WellFormed(Committed(t, plan.updates, |plan.updates|))
    requires f == AllDone(t, plan) - BackupsNow(plan, |plan.updates|)
    ensures Lands(t, plan, f)
  {
    var backups := BackupsNow(plan, |plan.updates|);
    forall p | p in t
      ensures Landed(p, plan.renames) in f && f[Landed(p, plan.renames)] == Expected(t, plan.updates, p)
    {
      CommittedExpected(t, plan.updates, p);
      CommittedArrives(t, plan, p);
      forall u | 0 <= u < |plan.updates|
        ensures Landed(p, plan.renames) != PathAfter(plan.updates[u].backup, plan.renames)
      {
        BackupFound(t, plan, u);
        CommittedHere(t, plan.updates, |plan.updates|, u);
        assert UpdateApplies(t, plan.updates[u]);
        CommittedStaysApart(t, plan, p, plan.updates[u].backup);
      }
    }
    ExpectedArrives(t, plan, f);
    forall q | q in f ensures exists p :: p in t && q == Landed(p, plan.renames) {
      var p := LandedFromCommitted(t, plan, q);
      forall u | 0 <= u < |plan.updates| ensures p != plan.updates[u].backup {
        BackupFound(t, plan, u);
        assert PathAfter(plan.updates[u].backup, plan.renames) in backups;
      }
    }
  }

  /** A rename onto a backup name lands on the very path that the removal of that backup clears. */
  lemma LandsOnlyIfDisjoint(t: Tree, plan: Plan, f: Tree)
    requires WellPlanned(plan) && Applicable(t, plan) && !ReservedDisjoint(plan)
    requires f == AllDone(t, plan) - BackupsNow(plan, |plan.updates|)
    ensures !Lands(t, plan, f)
  {
    var u, r :| 0 <= u < |plan.updates| && 0 <= r < |plan.renames| && plan.renames[r].target == plan.updates[u].backup;
    var rename, backup := plan.renames[r], plan.updates[u].backup;
    assert RenameApplies(t, rename);
    BackupFound(t, plan, u);
    ApplicableSourcesFree(t, plan);
    TargetAndSourceLandTogether(plan.renames, r);
    assert PathAfter(backup, plan.renames) in BackupsNow(plan, |plan.updates|);
    if Arrived(t, plan, f) {
      ArrivedInTree(t, plan, f, rename.source);
      assert false;
    }
  }

  lemma TargetAndSourceLandTogether(renames: seq<PathRename>, r: nat)
    requires OrderedRenames(renames) && SourcesFree(renames) && r < |renames|
    ensures Landed(renames[r].source, renames) == Landed(renames[r].target, renames)
  {
    var a, b := renames[r].source, renames[r].target;
    assert SameDirectory(renames[r]);
    RenamedOnce(renames, r);
    NotRenamed(b, renames);
    forall k | 0 <= k < |a| ensures Landed(a, renames)[k] == Landed(b, renames)[k] {
      if k < |a| - 1 {
        assert a[..k + 1] == Parent(a)[..k + 1] == Parent(b)[..k + 1] == b[..k + 1];
      } else {
        assert a[..k + 1] == a && b[..k + 1] == b;
      }
    }
  }

  /** Backup u, the earlier ones already removed, is a file at the path where it is looked for. */
  lemma BackupRemovable(t: Tree, plan: Plan, u: nat)
    requires WellPlanned(plan) && Applicable(t, plan) && ReservedDisjoint(plan) && u < |plan.updates|
    requires WellFormed(Committed(t, plan.updates, |plan.updates|)) && WellFormed(AllDone(t, plan))
    ensures var q := PathAfter(plan.updates[u].backup, plan.renames);
            q != [] && IsFile(AllDone(t, plan), q) && q !in BackupsNow(plan, u) && !HasChild(AllDone(t, plan), q)
  {
    var backup := plan.updates[u].backup;
    var q := Landed(backup, plan.renames);
    ApplicableSourcesFree(t, plan);
    BackupFound(t, plan, u);
    CommittedHere(t, plan.updates, |plan.updates|, u);
    CommittedArrives(t, plan, backup);
    NothingBelow(AllDone(t, plan), q);
    forall v | 0 <= v < u ensures PathAfter(plan.updates[v].backup, plan.renames) != q {
      BackupFound(t, plan, v);
      CommittedHere(t, plan.updates, |plan.updates|, v);
      CommittedStaysApart(t, plan, plan.updates[v].backup, backup);
    }
  }

  lemma MoreArrived(t: Tree, plan: Plan, f: Tree, g: Tree)
    requires InPlace(plan.renames) && Arrived(t, plan, f) && forall q :: q in f ==> q in g && g[q] == f[q]
    ensures Arrived(t, plan, g)
  {
  }

  lemma LandsWithBackupsLeft(t: Tree, plan: Plan, f: Tree, k: nat)
    requires WellPlanned(plan) && Applicable(t, plan) && ReservedDisjoint(plan) && k <= |plan.updates|
    requires WellFormed(Committed(t, plan.updates, |plan.updates|)) && f == AllDone(t, plan) - BackupsNow(plan, k)
    ensures LandsBesideBackups(t, plan, f)
  {
    var all := BackupsNow(plan, |plan.updates|);
    var final := AllDone(t, plan) - all;
    LandsIfDisjoint(t, plan, final);
    assert BackupsNow(plan, k) <= all;
    MoreArrived(t, plan, final, f);
    assert forall q :: q in f && q !in all ==> q in final;
  }
}
