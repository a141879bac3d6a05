/** What a run of tools/bootstrap/main.go does to the tree, as functions of the tree it starts from. */
module BootstrapRun {
  import opened FileTree
  import opened BootstrapPlan

  function Old(u: ContentUpdate): Node {
    File(u.original, u.mode)
  }

  function New(u: ContentUpdate): Node {
    File(u.updated, u.mode)
  }

  // ----- when a plan applies

  predicate SameKind(node: Node, r: PathRename) {
    node.Dir? == r.dir && node.mode == r.mode
  }

  predicate UpdateApplies(t: Tree, u: ContentUpdate) {
    u.path in t && t[u.path] == Old(u) && u.backup !in t
  }

  predicate RenameApplies(t: Tree, r: PathRename) {
    r.source in t && SameKind(t[r.source], r) && r.target !in t
  }

  /** What validatePlanCurrent demands of the tree holding the staged temporaries. */
  predicate Current(t: Tree, plan: Plan)
  {
    (forall u :: 0 <= u < |plan.updates| ==> UpdateApplies(t, plan.updates[u]) && IsFile(t, plan.updates[u].temporary))
    && forall r :: 0 <= r < |plan.renames| ==> RenameApplies(t, plan.renames[r])
  }

  /** The same demand on the tree before anything is staged. */
  predicate Applicable(t: Tree, plan: Plan)
  {
    (forall u :: 0 <= u < |plan.updates| ==> UpdateApplies(t, plan.updates[u]) && plan.updates[u].temporary !in t)
    && (forall r :: 0 <= r < |plan.renames| ==> RenameApplies(t, plan.renames[r]))
    && forall u, r :: 0 <= u < |plan.updates| && 0 <= r < |plan.renames| ==> plan.renames[r].target != plan.updates[u].temporary
  }

  // ----- staging

  ghost function TemporaryNames(updates: seq<ContentUpdate>, k: nat): set<Path>
    requires k <= |updates|
  {
    set i | 0 <= i < k :: updates[i].temporary
  }

  /** The first k temporaries are staged on top of t. */
  ghost predicate Staged(s: Tree, t: Tree, updates: seq<ContentUpdate>, k: nat)
    requires k <= |updates|
  {
    s - TemporaryNames(updates, k) == t
    && forall i :: 0 <= i < k ==> updates[i].temporary !in t && updates[i].temporary in s && s[updates[i].temporary] == New(updates[i])
  }

  lemma StageOne(s: Tree, t: Tree, updates: seq<ContentUpdate>, k: nat)
    requires Planned(updates) && k < |updates| && Staged(s, t, updates, k) && updates[k].temporary !in s
    ensures Staged(s[updates[k].temporary := New(updates[k])], t, updates, k + 1)
  {
    var r := s[updates[k].temporary := New(updates[k])];
    assert TemporaryNames(updates, k + 1) == TemporaryNames(updates, k) + {updates[k].temporary};
    assert r - TemporaryNames(updates, k + 1) == s - TemporaryNames(updates, k);
    assert updates[k].temporary !in t;
  }

  lemma CurrentMeansApplicable(s: Tree, t: Tree, plan: Plan)
    requires WellPlanned(plan) && Staged(s, t, plan.updates, |plan.updates|)
    ensures Current(s, plan) <==> Applicable(t, plan)
  {
    var names := TemporaryNames(plan.updates, |plan.updates|);
    assert forall q :: q !in names ==> SameAt(s, t, q);
    forall u | 0 <= u < |plan.updates| ensures UpdateApplies(s, plan.updates[u]) <==> UpdateApplies(t, plan.updates[u]) {
      assert plan.updates[u].path !in names && plan.updates[u].backup !in names;
    }
    forall r | 0 <= r < |plan.renames|
      ensures RenameApplies(s, plan.renames[r]) <==> RenameApplies(t, plan.renames[r]) && plan.renames[r].target !in names
    {
      assert plan.renames[r].source !in names;
    }
  }

  // ----- the updates committed

  /** The first c updates are in place, each with its backup beside it. */
  ghost function Committed(t: Tree, updates: seq<ContentUpdate>, c: nat): Tree
    requires c <= |updates|
  {
    if c == 0 then t
    else Committed(t, updates, c - 1)[updates[c - 1].backup := Old(updates[c - 1])][updates[c - 1].path := New(updates[c - 1])]
  }

  ghost predicate UpdatesApply(t: Tree, updates: seq<ContentUpdate>)
  {
    forall u :: 0 <= u < |updates| ==> UpdateApplies(t, updates[u]) && updates[u].temporary !in t
  }

  lemma PathsAreNotBackups(t: Tree, updates: seq<ContentUpdate>)
    requires Planned(updates) && UpdatesApply(t, updates)
    ensures forall i, j :: 0 <= i < |updates| && 0 <= j < |updates| ==> updates[i].path != updates[j].backup
  {
    forall i, j | 0 <= i < |updates| && 0 <= j < |updates| ensures updates[i].path != updates[j].backup {
      assert UpdateApplies(t, updates[i]) && UpdateApplies(t, updates[j]);
    }
  }

  lemma {:induction false} CommittedElsewhere(t: Tree, updates: seq<ContentUpdate>, c: nat, q: Path)
    requires Planned(updates) && c <= |updates|
    requires forall i :: 0 <= i < c ==> q != updates[i].backup && q != updates[i].path
    ensures SameAt(Committed(t, updates, c), t, q)
  {
    if c > 0 {
      CommittedElsewhere(t, updates, c - 1, q);
    }
  }

  lemma {:induction false} CommittedHere(t: Tree, updates: seq<ContentUpdate>, c: nat, i: nat)
    requires Planned(updates) && i < c <= |updates| && UpdatesApply(t, updates)
    ensures var r := Committed(t, updates, c);
            updates[i].path in r && r[updates[i].path] == New(updates[i])
            && updates[i].backup in r && r[updates[i].backup] == Old(updates[i])
  {
    PathsAreNotBackups(t, updates);
    if i < c - 1 {
      CommittedHere(t, updates, c - 1, i);
    }
  }

  /** The next update still finds its original and a free backup name. */
  lemma NextStillApplies(t: Tree, updates: seq<ContentUpdate>, c: nat)
    requires Planned(updates) && c < |updates| && UpdatesApply(t, updates)
    ensures UpdateApplies(Committed(t, updates, c), updates[c])
  {
    assert UpdateApplies(t, updates[c]);
    PathsAreNotBackups(t, updates);
    CommittedElsewhere(t, updates, c, updates[c].path);
    CommittedElsewhere(t, updates, c, updates[c].backup);
  }

  /** The tree while updates are committed: apart from temporaries it is Committed, and those not used yet are there. */
  ghost predicate Between(s: Tree, t: Tree, updates: seq<ContentUpdate>, c: nat)
    requires c <= |updates|
  {
    s - TemporaryNames(updates, |updates|) == Committed(t, updates, c)
    && (forall i :: 0 <= i < c ==> updates[i].temporary !in s)
    && forall i :: c <= i < |updates| ==> updates[i].temporary in s && s[updates[i].temporary] == New(updates[i])
  }

  /** Its file moved to the backup name, the update of index c is not in place yet. */
  ghost function BackedUp(t: Tree, updates: seq<ContentUpdate>, c: nat): Tree
    requires c < |updates|
  {
    (Committed(t, updates, c) - {updates[c].path})[updates[c].backup := Old(updates[c])]
  }

  ghost predicate HalfBetween(s: Tree, t: Tree, updates: seq<ContentUpdate>, c: nat)
    requires c < |updates|
  {
    s - TemporaryNames(updates, |updates|) == BackedUp(t, updates, c)
    && (forall i :: 0 <= i < c ==> updates[i].temporary !in s)
    && forall i :: c <= i < |updates| ==> updates[i].temporary in s && s[updates[i].temporary] == New(updates[i])
  }

  lemma NotTemporary(t: Tree, updates: seq<ContentUpdate>, c: nat)
    requires Planned(updates) && c < |updates| && UpdatesApply(t, updates)
    ensures updates[c].path !in TemporaryNames(updates, |updates|) && updates[c].backup !in TemporaryNames(updates, |updates|)
  {
    assert UpdateApplies(t, updates[c]);
  }

  lemma MoveOutside(s: Tree, names: set<Path>, a: Path, b: Path, node: Node)
    requires b !in names
    ensures (s - {a})[b := node] - names == ((s - names) - {a})[b := node]
  {
  }

  lemma BackUp(s: Tree, t: Tree, updates: seq<ContentUpdate>, c: nat)
    requires Planned(updates) && c < |updates| && UpdatesApply(t, updates)
    requires WellFormed(s) && Between(s, t, updates, c)
    ensures CanRename(s, updates[c].path, updates[c].backup)
    ensures HalfBetween(Renamed(s, updates[c].path, updates[c].backup), t, updates, c)
  {
    var u, names := updates[c], TemporaryNames(updates, |updates|);
    NextStillApplies(t, updates, c);
    NotTemporary(t, updates, c);
    assert s[u.path] == Old(u) && u.backup !in s;
    assert IsDir(s, Parent(u.path));
    assert u.path != u.backup;
    RenamedFile(s, u.path, u.backup);
    MoveOutside(s, names, u.path, u.backup, Old(u));
    assert forall i :: 0 <= i < |updates| ==> updates[i].temporary in names;
  }

  lemma PutInPlace(s: Tree, t: Tree, updates: seq<ContentUpdate>, c: nat)
    requires Planned(updates) && c < |updates| && UpdatesApply(t, updates)
    requires WellFormed(s) && HalfBetween(s, t, updates, c)
    ensures CanRename(s, updates[c].temporary, updates[c].path)
    ensures Between(Renamed(s, updates[c].temporary, updates[c].path), t, updates, c + 1)
  {
    var u, names := updates[c], TemporaryNames(updates, |updates|);
    NotTemporary(t, updates, c);
    assert UpdateApplies(t, u);
    assert u.path !in s - names;
    assert IsDir(s, Parent(u.temporary));
    assert u.temporary in names;
    RenamedFile(s, u.temporary, u.path);
    MoveOutside(s, names, u.temporary, u.path, New(u));
    assert (s - names) - {u.temporary} == s - names;
    PlacedIsCommitted(t, updates, c);
    UsedTemporary(s, updates, c);
  }

  lemma PlacedIsCommitted(t: Tree, updates: seq<ContentUpdate>, c: nat)
    requires Planned(updates) && c < |updates| && updates[c].path != updates[c].backup
    ensures BackedUp(t, updates, c)[updates[c].path := New(updates[c])] == Committed(t, updates, c + 1)
  {
  }

  lemma UsedTemporary(s: Tree, updates: seq<ContentUpdate>, c: nat)
    requires Planned(updates) && c < |updates| && updates[c].path !in TemporaryNames(updates, |updates|)
    ensures var r := (s - {updates[c].temporary})[updates[c].path := New(updates[c])];
            updates[c].temporary !in r
            && forall i :: 0 <= i < |updates| && i != c ==> SameAt(r, s, updates[i].temporary)
  {
    assert forall i :: 0 <= i < |updates| ==> updates[i].temporary in TemporaryNames(updates, |updates|);
  }

  // ----- the updates rolled back

  /** Whatever stands under the first k temporary names can be removed. */
  ghost predicate NoTemporaryDir(s: Tree, updates: seq<ContentUpdate>, k: nat)
    requires k <= |updates|
  {
    forall i :: 0 <= i < k ==> !IsDir(s, updates[i].temporary)
  }

  /** Update j - 1 was the last one begun: either it is in place or only backed up. */
  ghost predicate Undoable(s: Tree, t: Tree, updates: seq<ContentUpdate>, j: nat)
    requires j <= |updates|
  {
    var rest := s - TemporaryNames(updates, |updates|);
    NoTemporaryDir(s, updates, |updates|) && (rest == Committed(t, updates, j) || (j > 0 && rest == BackedUp(t, updates, j - 1)))
  }

  /** Removing the update and renaming its backup restores the state before it. */
  lemma UndoOne(s: Tree, t: Tree, updates: seq<ContentUpdate>, j: nat)
    requires Planned(updates) && j < |updates| && UpdatesApply(t, updates) && Undoable(s, t, updates, j + 1)
    requires WellFormed(s - {updates[j].path})
    ensures CanRename(s - {updates[j].path}, updates[j].backup, updates[j].path) ==>
              Undoable(Renamed(s - {updates[j].path}, updates[j].backup, updates[j].path), t, updates, j)
  {
    var u, names := updates[j], TemporaryNames(updates, |updates|);
    var cleared := s - {u.path};
    NotTemporary(t, updates, j);
    NextStillApplies(t, updates, j);
    assert u.path != u.backup by { assert UpdateApplies(t, u); }
    assert u.backup in s - names && (s - names)[u.backup] == Old(u);
    if CanRename(cleared, u.backup, u.path) {
      RenamedFile(cleared, u.backup, u.path);
      MoveOutside(cleared, names, u.backup, u.path, Old(u));
      assert cleared - names == (s - names) - {u.path};
      UndoneIs(s - names, t, updates, j);
      OthersUntouched(s, updates, u.path, u.backup, Old(u));
    }
  }

  lemma OthersUntouched(s: Tree, updates: seq<ContentUpdate>, path: Path, backup: Path, node: Node)
    requires NoTemporaryDir(s, updates, |updates|) && path !in TemporaryNames(updates, |updates|)
    ensures NoTemporaryDir((s - {path} - {backup})[path := node], updates, |updates|)
  {
    assert forall i :: 0 <= i < |updates| ==> updates[i].temporary in TemporaryNames(updates, |updates|);
  }

  /** In such a state nothing but a fault keeps the last update from being undone. */
  lemma RestorePossible(s: Tree, t: Tree, updates: seq<ContentUpdate>, j: nat)
    requires Planned(updates) && j < |updates| && UpdatesApply(t, updates) && Undoable(s, t, updates, j + 1) && WellFormed(s)
    ensures updates[j].path != [] && !HasChild(s, updates[j].path)
    ensures CanRename(s - {updates[j].path}, updates[j].backup, updates[j].path)
  {
    var u, names := updates[j], TemporaryNames(updates, |updates|);
    NotTemporary(t, updates, j);
    assert Beside(u.path, u.backup);
    assert u.path != u.backup by { assert UpdateApplies(t, u); }
    LastBegun(s - names, t, updates, j);
    assert u.backup in s && s[u.backup] == Old(u) && !IsDir(s, u.path);
    NothingBelow(s, u.path);
    assert IsDir(s, Parent(u.backup));
  }

  lemma LastBegun(rest: Tree, t: Tree, updates: seq<ContentUpdate>, j: nat)
    requires j < |updates| && updates[j].path != updates[j].backup
    requires rest == Committed(t, updates, j + 1) || rest == BackedUp(t, updates, j)
    ensures updates[j].backup in rest && rest[updates[j].backup] == Old(updates[j]) && !IsDir(rest, updates[j].path)
  {
  }

  lemma UndoneIs(rest: Tree, t: Tree, updates: seq<ContentUpdate>, j: nat)
    requires Planned(updates) && j < |updates| && UpdateApplies(Committed(t, updates, j), updates[j])
    requires rest == Committed(t, updates, j + 1) || rest == BackedUp(t, updates, j)
    ensures (rest - {updates[j].path} - {updates[j].backup})[updates[j].path := Old(updates[j])] == Committed(t, updates, j)
  {
  }

  lemma AboveBeside(a: Path, p: Path, reserved: Path)
    requires Beside(p, reserved)
    ensures a <= reserved && a != reserved ==> a < p
  {
    if a <= reserved && a != reserved {
      assert a == Parent(reserved)[..|a|] == Parent(p)[..|a|];
    }
  }

  /** Restoring an update leaves a missing backup missing. */
  lemma BackupStaysMissing(s: Tree, t: Tree, updates: seq<ContentUpdate>, j: nat, i: nat)
    requires Planned(updates) && WellFormed(t) && UpdatesApply(t, updates) && i < |updates| && j < |updates|
    requires updates[i].backup !in s
    ensures updates[i].backup !in Renamed(s - {updates[j].path}, updates[j].backup, updates[j].path)
  {
    var path, backup := updates[j].path, updates[i].backup;
    assert UpdateApplies(t, updates[i]) && UpdateApplies(t, updates[j]);
    AncestorOf(t, path, updates[i].path);
    AboveBeside(path, updates[i].path, backup);
    RenamedAbsent(s - {path}, updates[j].backup, path, backup);
  }
}
