/** The plan of tools/bootstrap/main.go: reserved names, the order of the renames and where they land every path. */
module BootstrapPlan {
  import opened Bytes
  import opened FileTree
  import opened Sorting

  const TEMPORARY_SUFFIX: text := [46, 98, 111, 111, 116, 115, 116, 114, 97, 112, 46, 116, 109, 112] // .bootstrap.tmp
  const BACKUP_SUFFIX: text := [46, 98, 111, 111, 116, 115, 116, 114, 97, 112, 46, 111, 114, 105, 103] // .bootstrap.orig

  datatype ContentUpdate = ContentUpdate(path: Path, temporary: Path, backup: Path, original: text, updated: text, mode: nat)

  /** A file whose content is to change, before reserved names are given to it. */
  datatype Edit = Edit(path: Path, original: text, updated: text, mode: nat)

  /** The recorded kind and mode of the source stand for its file mode. */
  datatype PathRename = PathRename(source: Path, target: Path, dir: bool, mode: nat)

  datatype Plan = Plan(updates: seq<ContentUpdate>, renames: seq<PathRename>)

  function Suffixed(p: Path, suffix: text): (q: Path)
    requires p != []
    ensures |q| == |p| && Parent(q) == Parent(p)
  {
    Parent(p) + [Base(p) + suffix]
  }

  lemma SuffixedInjective(p: Path, q: Path, suffix: text)
    requires p != [] && q != [] && Suffixed(p, suffix) == Suffixed(q, suffix)
    ensures p == q
  {
    var a, b := Suffixed(p, suffix), Suffixed(q, suffix);
    assert Base(a) == Base(p) + suffix && Base(b) == Base(q) + suffix;
    assert |Base(p)| == |Base(q)|;
    assert Base(p) == Base(a)[..|Base(p)|] && Base(q) == Base(b)[..|Base(q)|];
    assert p == Parent(a) + [Base(p)] && q == Parent(b) + [Base(q)];
  }

  /** The two reserved endings differ in their last byte. */
  lemma SuffixesDiffer(p: Path, q: Path)
    requires p != [] && q != []
    ensures Suffixed(p, TEMPORARY_SUFFIX) != Suffixed(q, BACKUP_SUFFIX)
  {
    var a, b := Base(Suffixed(p, TEMPORARY_SUFFIX)), Base(Suffixed(q, BACKUP_SUFFIX));
    assert a == Base(p) + TEMPORARY_SUFFIX && b == Base(q) + BACKUP_SUFFIX;
    assert a[|a| - 1] == 112 && b[|b| - 1] == 103;
  }

  // ----- what buildPlan guarantees about the renames

  predicate SameDirectory(r: PathRename) {
    r.source != [] && r.target != [] && |r.source| == |r.target| && Parent(r.source) == Parent(r.target)
  }

  predicate InPlace(renames: seq<PathRename>) {
    forall i :: 0 <= i < |renames| ==> SameDirectory(renames[i])
  }

  predicate DeepestFirst(renames: seq<PathRename>) {
    forall i, j :: 0 <= i < j < |renames| ==> |renames[i].source| >= |renames[j].source|
  }

  predicate DistinctSources(renames: seq<PathRename>) {
    forall i, j :: 0 <= i < j < |renames| ==> renames[i].source != renames[j].source
  }

  predicate DistinctTargets(renames: seq<PathRename>) {
    forall i, j :: 0 <= i < j < |renames| ==> renames[i].target != renames[j].target
  }

  /** No rename starts where another ends: sources existed when targets did not. */
  predicate SourcesFree(renames: seq<PathRename>) {
    forall i, j :: 0 <= i < |renames| && 0 <= j < |renames| ==> renames[i].source != renames[j].target
  }

  predicate OrderedRenames(renames: seq<PathRename>) {
    InPlace(renames) && DeepestFirst(renames) && DistinctSources(renames) && DistinctTargets(renames)
  }

  predicate DistinctPaths(edits: seq<Edit>) {
    (forall i :: 0 <= i < |edits| ==> edits[i].path != [])
    && forall i, j :: 0 <= i < j < |edits| ==> edits[i].path != edits[j].path
  }

  /** A reserved name stands in the directory of its file. */
  predicate Beside(path: Path, reserved: Path) {
    path != [] && |reserved| == |path| && Parent(reserved) == Parent(path)
  }

  /** Every reserved name belongs to one update and one purpose, and no updated file has a temporary name. */
  predicate ReservedNamesDiffer(updates: seq<ContentUpdate>) {
    (forall i, j :: 0 <= i < j < |updates| ==> updates[i].temporary != updates[j].temporary && updates[i].backup != updates[j].backup)
    && forall i, j :: 0 <= i < |updates| && 0 <= j < |updates| ==>
         updates[i].temporary != updates[j].backup && updates[i].temporary != updates[j].path
  }

  predicate Planned(updates: seq<ContentUpdate>) {
    (forall i :: 0 <= i < |updates| ==> Beside(updates[i].path, updates[i].temporary) && Beside(updates[i].path, updates[i].backup))
    && (forall i, j :: 0 <= i < j < |updates| ==> updates[i].path != updates[j].path)
    && ReservedNamesDiffer(updates)
  }

  /** Rename sources existed, and temporary names did not, when the plan was made. */
  predicate WellPlanned(plan: Plan) {
    Planned(plan.updates) && OrderedRenames(plan.renames)
    && forall u, r :: 0 <= u < |plan.updates| && 0 <= r < |plan.renames| ==> plan.renames[r].source != plan.updates[u].temporary
  }

  /** No rename lands on a backup name. */
  predicate ReservedDisjoint(plan: Plan) {
    forall u, r :: 0 <= u < |plan.updates| && 0 <= r < |plan.renames| ==> plan.renames[r].target != plan.updates[u].backup
  }

  // ----- ordering

  const SEPARATOR: byte := 47

  function Relative(p: Path): text {
    if p == [] then [] else Join(p, SEPARATOR)
  }

  predicate DeeperThenName(a: PathRename, b: PathRename) {
    |a.source| > |b.source| || (|a.source| == |b.source| && Less(Relative(a.source), Relative(b.source)))
  }

  lemma DeeperThenNameIsStrictWeak()
    ensures StrictWeak(DeeperThenName)
  {
    TextLessIsStrictWeak();
    forall a: PathRename, b: PathRename ensures DeeperThenName(a, b) ==> !DeeperThenName(b, a) {
      LessTotal(Relative(a.source), Relative(b.source));
    }
    forall a: PathRename, b: PathRename, c: PathRename | DeeperThenName(a, c)
      ensures DeeperThenName(a, b) || DeeperThenName(b, c)
    {
      var x, y, z := Relative(a.source), Relative(b.source), Relative(c.source);
      assert Less(x, z) ==> Less(x, y) || Less(y, z);
    }
  }

  predicate TargetsFree(renames: seq<PathRename>, tree: Tree) {
    forall i :: 0 <= i < |renames| ==> renames[i].target !in tree
  }

  method CheckTargets(renames: seq<PathRename>, tree: Tree) returns (ok: bool)
    ensures ok <==> DistinctTargets(renames) && TargetsFree(renames, tree)
  {
    var seenTargets: set<Path> := {};
    for k := 0 to |renames|
      invariant forall i :: 0 <= i < k ==> renames[i].target in seenTargets && renames[i].target !in tree
      invariant forall t :: t in seenTargets ==> exists i :: 0 <= i < k && renames[i].target == t
      invariant forall i, j :: 0 <= i < j < k ==> renames[i].target != renames[j].target
    {
      if renames[k].target in seenTargets {
        return false;
      }
      seenTargets := seenTargets + {renames[k].target};
      if renames[k].target in tree {
        return false;
      }
    }
    return true;
  }

  /** The end of buildPlan: the renames of the visited entries are sorted, then refused when two share a target or one exists. */
  method OrderRenames(found: seq<PathRename>, tree: Tree) returns (result: Option<seq<PathRename>>)
    requires DistinctSources(found) && InPlace(found)
    ensures result.Some? <==> DistinctTargets(found) && TargetsFree(found, tree)
    ensures result.Some? ==> OrderedRenames(result.value) && multiset(result.value) == multiset(found)
  {
    DeeperThenNameIsStrictWeak();
    var renames := SortSlice(found, DeeperThenName);
    RearrangedRenames(found, renames, tree);
    RearrangedRenames(renames, found, tree);
    SortedIsDeepestFirst(renames);
    var ok := CheckTargets(renames, tree);
    result := if ok then Some(renames) else None;
  }

  lemma SortedIsDeepestFirst(renames: seq<PathRename>)
    requires forall i, j :: 0 <= i < j < |renames| ==> !DeeperThenName(renames[j], renames[i])
    ensures DeepestFirst(renames)
  {
  }

  lemma RearrangedRenames(a: seq<PathRename>, b: seq<PathRename>, tree: Tree)
    requires multiset(a) == multiset(b) && DistinctSources(a)
    ensures DistinctSources(b) && (DistinctTargets(a) ==> DistinctTargets(b))
    ensures InPlace(a) ==> InPlace(b)
    ensures TargetsFree(a, tree) ==> TargetsFree(b, tree)
  {
    forall i | 0 <= i < |b| ensures b[i] in a {
      MemberOfBoth(a, b, b[i]);
    }
    forall i, j | 0 <= i < j < |b|
      ensures b[i].source != b[j].source && (DistinctTargets(a) ==> b[i].target != b[j].target)
    {
      if b[i] == b[j] {
        RepeatedCount(b, i, j);
        var p, q := TwoPositions(a, b[i]);
      } else {
        var p :| 0 <= p < |a| && a[p] == b[i];
        var q :| 0 <= q < |a| && a[q] == b[j];
        assert p != q;
      }
    }
  }

  predicate UpdateBefore(a: ContentUpdate, b: ContentUpdate) {
    Less(Relative(a.path), Relative(b.path))
  }

  lemma UpdateBeforeIsStrictWeak()
    ensures StrictWeak(UpdateBefore)
  {
    TextLessIsStrictWeak();
    forall a: ContentUpdate, b: ContentUpdate ensures UpdateBefore(a, b) ==> !UpdateBefore(b, a) {
      LessTotal(Relative(a.path), Relative(b.path));
    }
    forall a: ContentUpdate, b: ContentUpdate, c: ContentUpdate | UpdateBefore(a, c)
      ensures UpdateBefore(a, b) || UpdateBefore(b, c)
    {
      var x, y, z := Relative(a.path), Relative(b.path), Relative(c.path);
      assert Less(x, z) ==> Less(x, y) || Less(y, z);
    }
  }

  /** newContentUpdate names the temporary and the backup after the file. */
  predicate NamedAfter(u: ContentUpdate, e: Edit)
    requires e.path != []
  {
    u == ContentUpdate(e.path, Suffixed(e.path, TEMPORARY_SUFFIX), Suffixed(e.path, BACKUP_SUFFIX), e.original, e.updated, e.mode)
  }

  predicate ReservedFree(u: ContentUpdate, tree: Tree) {
    u.temporary !in tree && u.backup !in tree
  }

  /** newContentUpdate: neither reserved name may exist. */
  method NewContentUpdate(e: Edit, tree: Tree) returns (update: Option<ContentUpdate>)
    requires e.path != []
    ensures update.Some? <==> Suffixed(e.path, TEMPORARY_SUFFIX) !in tree && Suffixed(e.path, BACKUP_SUFFIX) !in tree
    ensures update.Some? ==> NamedAfter(update.value, e) && ReservedFree(update.value, tree)
    ensures update.Some? ==>
              update.value == ContentUpdate(
                e.path,
                e.path[..|e.path| - 1]
                + [e.path[|e.path| - 1] + [46, 98, 111, 111, 116, 115, 116, 114, 97, 112, 46, 116, 109, 112]],
                e.path[..|e.path| - 1]
                + [e.path[|e.path| - 1] + [46, 98, 111, 111, 116, 115, 116, 114, 97, 112, 46, 111, 114, 105, 103]],
                e.original, e.updated, e.mode)
  {
    var u := ContentUpdate(e.path, Suffixed(e.path, TEMPORARY_SUFFIX), Suffixed(e.path, BACKUP_SUFFIX), e.original, e.updated, e.mode);
    update := if u.temporary in tree || u.backup in tree then None else Some(u);
  }

  predicate ReservableIn(e: Edit, tree: Tree)
    requires e.path != []
  {
    Suffixed(e.path, TEMPORARY_SUFFIX) !in tree && Suffixed(e.path, BACKUP_SUFFIX) !in tree
  }

  method NewContentUpdates(edits: seq<Edit>, tree: Tree) returns (updates: Option<seq<ContentUpdate>>)
    requires forall i :: 0 <= i < |edits| ==> edits[i].path != []
    ensures updates.Some? <==> forall i :: 0 <= i < |edits| ==> ReservableIn(edits[i], tree)
    ensures updates.Some? ==> |updates.value| == |edits| && forall i :: 0 <= i < |edits| ==>
              NamedAfter(updates.value[i], edits[i]) && ReservedFree(updates.value[i], tree)
  {
    var made: seq<ContentUpdate> := [];
    for k := 0 to |edits|
      invariant |made| == k && forall i :: 0 <= i < k ==>
                  ReservableIn(edits[i], tree) && NamedAfter(made[i], edits[i]) && ReservedFree(made[i], tree)
    {
      var update := NewContentUpdate(edits[k], tree);
      if update.None? {
        return None;
      }
      made := made + [update.value];
    }
    return Some(made);
  }

  lemma NamesOfTwo(a: Edit, b: Edit, u: ContentUpdate, v: ContentUpdate)
    requires a.path != [] && b.path != [] && NamedAfter(u, a) && NamedAfter(v, b)
    ensures u.temporary != v.backup
    ensures u.path != v.path ==> u.temporary != v.temporary && u.backup != v.backup
  {
    SuffixesDiffer(a.path, b.path);
    if u.temporary == v.temporary {
      SuffixedInjective(a.path, b.path, TEMPORARY_SUFFIX);
    }
    if u.backup == v.backup {
      SuffixedInjective(a.path, b.path, BACKUP_SUFFIX);
    }
  }

  /** What newContentUpdate established for every edit. */
  predicate MadeFrom(edits: seq<Edit>, made: seq<ContentUpdate>, tree: Tree)
    requires forall i :: 0 <= i < |edits| ==> edits[i].path != []
  {
    |made| == |edits|
    && forall i :: 0 <= i < |edits| ==> edits[i].path in tree && NamedAfter(made[i], edits[i]) && ReservedFree(made[i], tree)
  }

  /** Which edit each of the sorted updates was made from: no two from the same one. */
  lemma EditOf(edits: seq<Edit>, made: seq<ContentUpdate>, sorted: seq<ContentUpdate>, tree: Tree, i: nat) returns (p: nat)
    requires DistinctPaths(edits) && MadeFrom(edits, made, tree) && multiset(made) == multiset(sorted) && i < |sorted|
    ensures p < |edits| && NamedAfter(sorted[i], edits[p]) && edits[p].path in tree && ReservedFree(sorted[i], tree)
  {
    MemberOfBoth(made, sorted, sorted[i]);
    p :| 0 <= p < |made| && made[p] == sorted[i];
  }

  lemma SortedStayApart(edits: seq<Edit>, made: seq<ContentUpdate>, sorted: seq<ContentUpdate>, tree: Tree, i: nat, j: nat)
    requires DistinctPaths(edits) && MadeFrom(edits, made, tree) && multiset(made) == multiset(sorted) && i < j < |sorted|
    ensures sorted[i].path != sorted[j].path
  {
    if sorted[i] == sorted[j] {
      RepeatedCount(sorted, i, j);
      var x, y := TwoPositions(made, sorted[i]);
      assert false;
    } else {
      MemberOfBoth(made, sorted, sorted[i]);
      MemberOfBoth(made, sorted, sorted[j]);
      var p :| 0 <= p < |made| && made[p] == sorted[i];
      var q :| 0 <= q < |made| && made[q] == sorted[j];
      assert p != q;
    }
  }

  /** Sorting keeps what newContentUpdate established for every update. */
  lemma SortedUpdatesPlanned(edits: seq<Edit>, made: seq<ContentUpdate>, sorted: seq<ContentUpdate>, tree: Tree)
    requires DistinctPaths(edits) && MadeFrom(edits, made, tree) && multiset(made) == multiset(sorted)
    ensures Planned(sorted)
    ensures forall i :: 0 <= i < |sorted| ==> ReservedFree(sorted[i], tree)
  {
    forall i | 0 <= i < |sorted|
      ensures sorted[i].path in tree && ReservedFree(sorted[i], tree)
      ensures Beside(sorted[i].path, sorted[i].temporary) && Beside(sorted[i].path, sorted[i].backup)
    {
      var p := EditOf(edits, made, sorted, tree, i);
    }
    forall i, j | 0 <= i < |sorted| && 0 <= j < |sorted|
      ensures sorted[i].temporary != sorted[j].backup
      ensures i < j ==> sorted[i].path != sorted[j].path
      ensures i < j ==> sorted[i].temporary != sorted[j].temporary && sorted[i].backup != sorted[j].backup
    {
      var p := EditOf(edits, made, sorted, tree, i);
      var q := EditOf(edits, made, sorted, tree, j);
      if i < j {
        SortedStayApart(edits, made, sorted, tree, i, j);
      }
      NamesOfTwo(edits[p], edits[q], sorted[i], sorted[j]);
    }
  }

  /** A plan made from the entries that the walk of the tree visited. */
  method BuildPlan(edits: seq<Edit>, found: seq<PathRename>, tree: Tree)
    returns (result: Option<Plan>, ghost made: seq<ContentUpdate>)
    requires DistinctPaths(edits) && forall i :: 0 <= i < |edits| ==> edits[i].path in tree
    requires DistinctSources(found) && InPlace(found) && forall i :: 0 <= i < |found| ==> found[i].source in tree
    ensures result.Some? <==> DistinctTargets(found) && TargetsFree(found, tree)
                              && forall i :: 0 <= i < |edits| ==> ReservableIn(edits[i], tree)
    ensures result.Some? ==> WellPlanned(result.value) && SourcesFree(result.value.renames)
    ensures result.Some? ==> multiset(result.value.renames) == multiset(found)
    ensures result.Some? ==> |made| == |edits| && multiset(result.value.updates) == multiset(made)
                             && forall i :: 0 <= i < |edits| ==> NamedAfter(made[i], edits[i])
  {
    made := [];
    var updates := NewContentUpdates(edits, tree);
    if updates.None? {
      return None, made;
    }
    made := updates.value;
    var renames := OrderRenames(found, tree);
    if renames.None? {
      return None, made;
    }
    UpdateBeforeIsStrictWeak();
    var sorted := SortSlice(updates.value, UpdateBefore);
    SortedUpdatesPlanned(edits, updates.value, sorted, tree);
    var plan := Plan(sorted, renames.value);
    forall r | 0 <= r < |plan.renames| ensures plan.renames[r].source in tree && plan.renames[r].target !in tree {
      MemberOfBoth(found, plan.renames, plan.renames[r]);
    }
    forall u | 0 <= u < |sorted| ensures sorted[u].temporary !in tree {
      assert ReservedFree(sorted[u], tree);
    }
    return Some(plan), made;
  }

  // ----- where the executed renames land a path

  /** The renames executed one after the other. */
  function MoveAll(p: Path, renames: seq<PathRename>): (q: Path)
    requires InPlace(renames)
    ensures |q| == |p|
  {
    if renames == [] then p
    else
      var last := renames[|renames| - 1];
      Move(MoveAll(p, renames[..|renames| - 1]), last.source, last.target)
  }

  /** The new name of the entry at p: its target's base if it is renamed, its own base otherwise. */
  function NewBase(p: Path, renames: seq<PathRename>): text
    requires p != [] && InPlace(renames)
  {
    if renames == [] then Base(p)
    else if renames[|renames| - 1].source == p then Base(renames[|renames| - 1].target)
    else NewBase(p, renames[..|renames| - 1])
  }

  /** The original path with each component replaced by the new name of the entry it names. */
  function Landed(p: Path, renames: seq<PathRename>): (q: Path)
    requires InPlace(renames)
    ensures |q| == |p|
    ensures forall k :: 0 <= k < |p| ==> q[k] == NewBase(p[..k + 1], renames)
  {
    seq(|p|, k requires 0 <= k < |p| => NewBase(p[..k + 1], renames))
  }

  lemma PrefixPlan(renames: seq<PathRename>, n: nat)
    requires OrderedRenames(renames) && n <= |renames|
    ensures OrderedRenames(renames[..n]) && (SourcesFree(renames) ==> SourcesFree(renames[..n]))
  {
  }

  lemma {:induction false} NotRenamed(p: Path, renames: seq<PathRename>)
    requires p != [] && InPlace(renames) && forall i :: 0 <= i < |renames| ==> renames[i].source != p
    ensures NewBase(p, renames) == Base(p)
  {
    if renames != [] {
      NotRenamed(p, renames[..|renames| - 1]);
    }
  }

  lemma {:induction false} RenamedOnce(renames: seq<PathRename>, i: nat)
    requires InPlace(renames) && DistinctSources(renames) && i < |renames|
    ensures NewBase(renames[i].source, renames) == Base(renames[i].target)
  {
    if i < |renames| - 1 {
      RenamedOnce(renames[..|renames| - 1], i);
    }
  }

  /** name is the k-th component of the target if the entry at p[..k + 1] is renamed, and of p otherwise. */
  ghost predicate Exchanged(p: Path, k: nat, name: text, renames: seq<PathRename>)
    requires InPlace(renames) && k < |p|
  {
    && (forall i :: 0 <= i < |renames| && renames[i].source == p[..k + 1] ==> name == renames[i].target[k])
    && ((forall i :: 0 <= i < |renames| ==> renames[i].source != p[..k + 1]) ==> name == p[k])
  }

  /** q is p with each component exchanged whose entry, under its original path, is renamed. */
  ghost predicate ArrivesAt(p: Path, q: Path, renames: seq<PathRename>)
    requires InPlace(renames)
  {
    |q| == |p| && forall k :: 0 <= k < |p| ==> Exchanged(p, k, q[k], renames)
  }

  lemma ComponentLands(p: Path, k: nat, name: text, renames: seq<PathRename>)
    requires InPlace(renames) && DistinctSources(renames) && k < |p|
    ensures Exchanged(p, k, name, renames) <==> name == NewBase(p[..k + 1], renames)
  {
    if i :| 0 <= i < |renames| && renames[i].source == p[..k + 1] {
      RenamedOnce(renames, i);
      assert forall j :: 0 <= j < |renames| && renames[j].source == p[..k + 1] ==> j == i;
    } else {
      NotRenamed(p[..k + 1], renames);
    }
  }

  /** Where a path lands, component by component. */
  lemma LandedExactly(p: Path, q: Path, renames: seq<PathRename>)
    requires InPlace(renames) && DistinctSources(renames)
    ensures q == Landed(p, renames) <==> ArrivesAt(p, q, renames)
  {
    if |q| == |p| {
      forall k | 0 <= k < |p| ensures Exchanged(p, k, q[k], renames) <==> q[k] == Landed(p, renames)[k] {
        ComponentLands(p, k, q[k], renames);
      }
    }
  }

  /** The order of the renames does not matter. */
  lemma LandedOrderFree(p: Path, a: seq<PathRename>, b: seq<PathRename>)
    requires multiset(a) == multiset(b) && InPlace(a) && DistinctSources(a) && InPlace(b) && DistinctSources(b)
    ensures Landed(p, a) == Landed(p, b)
  {
    var q := Landed(p, b);
    LandedExactly(p, q, b);
    forall i | 0 <= i < |a| ensures a[i] in b {
      MemberOfBoth(a, b, a[i]);
    }
    forall i | 0 <= i < |b| ensures b[i] in a {
      MemberOfBoth(a, b, b[i]);
    }
    forall k | 0 <= k < |p| ensures Exchanged(p, k, q[k], a) {
      assert Exchanged(p, k, q[k], b);
    }
    LandedExactly(p, q, a);
  }

  /** Deepest first: above the depth of every rename so far nothing has changed yet. */
  lemma {:induction false} ShallowUnchanged(p: Path, renames: seq<PathRename>, k: nat)
    requires InPlace(renames) && k < |p| && forall i :: 0 <= i < |renames| ==> |renames[i].source| > k + 1
    ensures NewBase(p[..k + 1], renames) == p[k]
  {
    NotRenamed(p[..k + 1], renames);
  }

  /**
   * Deepest first: a path no deeper than the first n renames, which none of them starts from or ends at, lies above
   * exactly the entries that it lay above originally.
   */
  lemma StillAbove(x: Path, p: Path, renames: seq<PathRename>, n: nat)
    requires OrderedRenames(renames) && n <= |renames| && x != []
    requires forall i :: 0 <= i < n ==> |x| <= |renames[i].source| && x != renames[i].source && x != renames[i].target
    ensures x <= Landed(p, renames[..n]) <==> x <= p
  {
    var before, d := renames[..n], |x|;
    var q := Landed(p, before);
    if d <= |p| {
      forall k | 0 <= k < d - 1 ensures q[k] == p[k] {
        ShallowUnchanged(p, before, k);
      }
      assert q[..d - 1] == p[..d - 1];
      assert p[..d] == p[..d - 1] + [p[d - 1]] && q[..d] == q[..d - 1] + [q[d - 1]];
      assert q[d - 1] == NewBase(p[..d], before);
      if i :| 0 <= i < n && renames[i].source == p[..d] {
        assert before[i] == renames[i];
        RenamedOnce(before, i);
        SiblingTarget(renames[i], p[..d - 1], p[d - 1]);
        assert q[..d] == renames[i].target;
      } else {
        NotRenamed(p[..d], before);
        assert q[..d] == p[..d];
      }
    }
  }

  /** Rename n finds its source under its original path, exactly in the paths that had it as an ancestor. */
  lemma SourceFound(p: Path, renames: seq<PathRename>, n: nat)
    requires OrderedRenames(renames) && SourcesFree(renames) && n < |renames|
    ensures renames[n].source <= Landed(p, renames[..n]) <==> renames[n].source <= p
    ensures |renames[n].source| == |p| ==> (renames[n].source == Landed(p, renames[..n]) <==> renames[n].source == p)
  {
    StillAbove(renames[n].source, p, renames, n);
  }

  /** No earlier rename brings an entry to the target of rename n. */
  lemma TargetFound(p: Path, renames: seq<PathRename>, n: nat)
    requires OrderedRenames(renames) && SourcesFree(renames) && n < |renames|
    ensures renames[n].target <= Landed(p, renames[..n]) <==> renames[n].target <= p
    ensures |renames[n].target| == |p| ==> (renames[n].target == Landed(p, renames[..n]) <==> renames[n].target == p)
  {
    StillAbove(renames[n].target, p, renames, n);
  }

  /** Executing the renames in order lands every path with each component replaced. */
  lemma {:induction false} MoveAllIsLanded(p: Path, renames: seq<PathRename>)
    requires OrderedRenames(renames) && SourcesFree(renames)
    ensures MoveAll(p, renames) == Landed(p, renames)
  {
    if renames == [] {
      assert forall k :: 0 <= k < |p| ==> Base(p[..k + 1]) == p[k];
      return;
    }
    var n := |renames| - 1;
    PrefixPlan(renames, n);
    MoveAllIsLanded(p, renames[..n]);
    MoveReplacesOne(p, renames);
  }

  lemma MoveReplacesOne(p: Path, renames: seq<PathRename>)
    requires renames != [] && OrderedRenames(renames) && SourcesFree(renames)
    ensures var n := |renames| - 1;
            InPlace(renames[..n]) && Move(Landed(p, renames[..n]), renames[n].source, renames[n].target) == Landed(p, renames)
  {
    var n := |renames| - 1;
    var q, next := Landed(p, renames[..n]), renames[n];
    var moved := Move(q, next.source, next.target);
    SourceFound(p, renames, n);
    forall k | 0 <= k < |p| ensures moved[k] == Landed(p, renames)[k] {
      MovedComponent(q, next, k);
      if next.source <= p {
        assert next.source == p[..|next.source|];
      }
    }
  }

  /** A rename in place changes one component of the paths below its source. */
  lemma MovedComponent(q: Path, r: PathRename, k: nat)
    requires SameDirectory(r) && k < |q|
    ensures Move(q, r.source, r.target)[k] == if r.source <= q && k == |r.source| - 1 then Base(r.target) else q[k]
  {
    if r.source <= q && k < |r.source| - 1 {
      assert r.target[k] == Parent(r.target)[k] == Parent(r.source)[k] == q[k];
    }
  }

  /** Distinct entries stay distinct, as long as no target is among the entries. */
  lemma LandedInjective(renames: seq<PathRename>, p: Path, q: Path, entries: set<Path>)
    requires OrderedRenames(renames) && p != q
    requires forall k :: 0 <= k <= |p| ==> p[..k] in entries
    requires forall k :: 0 <= k <= |q| ==> q[..k] in entries
    requires forall i :: 0 <= i < |renames| ==> renames[i].target !in entries
    ensures Landed(p, renames) != Landed(q, renames)
  {
    if |p| == |q| {
      var k := FirstDifference(p, q);
      assert p[..k + 1] == p[..k] + [p[k]] && q[..k + 1] == p[..k] + [q[k]];
      SiblingsStayDistinct(renames, p[..k], p[k], q[k], entries);
      assert Landed(p, renames)[k] != Landed(q, renames)[k];
    }
  }

  lemma SiblingsStayDistinct(renames: seq<PathRename>, parent: Path, x: text, y: text, entries: set<Path>)
    requires OrderedRenames(renames) && x != y && parent + [x] in entries && parent + [y] in entries
    requires forall i :: 0 <= i < |renames| ==> renames[i].target !in entries
    ensures NewBase(parent + [x], renames) != NewBase(parent + [y], renames)
  {
    var a, b := parent + [x], parent + [y];
    if i :| 0 <= i < |renames| && renames[i].source == a {
      RenamedOnce(renames, i);
      SiblingTarget(renames[i], parent, x);
      if j :| 0 <= j < |renames| && renames[j].source == b {
        RenamedOnce(renames, j);
        SiblingTarget(renames[j], parent, y);
      } else {
        NotRenamed(b, renames);
      }
    } else {
      NotRenamed(a, renames);
      if j :| 0 <= j < |renames| && renames[j].source == b {
        RenamedOnce(renames, j);
        SiblingTarget(renames[j], parent, y);
      } else {
        NotRenamed(b, renames);
      }
    }
  }

  lemma SiblingTarget(r: PathRename, parent: Path, name: text)
    requires SameDirectory(r) && r.source == parent + [name]
    ensures r.target == parent + [Base(r.target)]
  {
    assert Parent(r.source) == parent;
    assert r.target == Parent(r.target) + [Base(r.target)];
  }

  lemma {:induction false} FirstDifference(p: Path, q: Path) returns (k: nat)
    requires p != q && |p| == |q|
    ensures k < |p| && p[..k] == q[..k] && p[k] != q[k]
  {
    k := 0;
    while p[k] == q[k]
      invariant k < |p| && p[..k] == q[..k]
      invariant p[k..] != q[k..]
      decreases |p| - k
    {
      assert p[k..] == [p[k]] + p[k + 1..] && q[k..] == [q[k]] + q[k + 1..];
      k := k + 1;
    }
  }

  // ----- pathAfterRenames

  /** The loop follows a path through renames of its ancestors. */
  function PathAfter(p: Path, renames: seq<PathRename>): (q: Path)
    requires InPlace(renames)
    ensures |q| == |p|
  {
    if renames == [] then p
    else
      var last, current := renames[|renames| - 1], PathAfter(p, renames[..|renames| - 1]);
      if last.source < current then last.target + current[|last.source|..] else current
  }

  method PathAfterRenames(path: Path, renames: seq<PathRename>) returns (current: Path)
    requires InPlace(renames)
    ensures current == PathAfter(path, renames)
  {
    current := path;
    for k := 0 to |renames|
      invariant current == PathAfter(path, renames[..k])
    {
      assert renames[..k + 1][..k] == renames[..k];
      var rename := renames[k];
      if rename.source < current {
        current := rename.target + current[|rename.source|..];
      }
    }
    assert renames[..|renames|] == renames;
  }

  /** A path that is not itself renamed is found exactly where the executed renames moved it. */
  lemma {:induction false} PathAfterIsMoveAll(p: Path, renames: seq<PathRename>)
    requires OrderedRenames(renames) && SourcesFree(renames)
    requires forall i :: 0 <= i < |renames| ==> renames[i].source != p
    ensures PathAfter(p, renames) == MoveAll(p, renames)
  {
    if renames != [] {
      var n := |renames| - 1;
      PrefixPlan(renames, n);
      PathAfterIsMoveAll(p, renames[..n]);
      MoveAllIsLanded(p, renames[..n]);
      SourceFound(p, renames, n);
    }
  }
}
