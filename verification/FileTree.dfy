/** A file tree and the file-system calls tools/bootstrap/main.go makes on it. Any call may fail without effect. */
module FileTree {
  import opened Bytes

  /** Path components below the repository root; the root itself is []. */
  type Path = seq<text>

  datatype Node = File(bytes: text, mode: nat) | Dir(mode: nat)

  type Tree = map<Path, Node>

  function Parent(p: Path): Path
    requires p != []
  {
    p[..|p| - 1]
  }

  function Base(p: Path): text
    requires p != []
  {
    p[|p| - 1]
  }

  predicate IsDir(t: Tree, p: Path) {
    p in t && t[p].Dir?
  }

  predicate IsFile(t: Tree, p: Path) {
    p in t && t[p].File?
  }

  /** Every entry lies in a directory. */
  ghost predicate WellFormed(t: Tree) {
    IsDir(t, []) && forall p {:trigger IsDir(t, Parent(p))} :: p in t && p != [] ==> IsDir(t, Parent(p))
  }

  lemma {:induction false} AncestorExists(t: Tree, p: Path, n: nat)
    requires WellFormed(t) && p in t && n <= |p|
    ensures p[..n] in t && (n < |p| ==> t[p[..n]].Dir?)
    decreases |p|
  {
    if n < |p| {
      assert IsDir(t, Parent(p));
      AncestorExists(t, Parent(p), n);
      assert Parent(p)[..n] == p[..n];
    } else {
      assert p[..n] == p;
    }
  }

  lemma AncestorOf(t: Tree, a: Path, p: Path)
    requires WellFormed(t)
    ensures p in t && a <= p ==> a in t && (a != p ==> IsDir(t, a) && HasChild(t, a))
  {
    if p in t && a <= p {
      AncestorExists(t, p, |a|);
      assert p[..|a|] == a;
    }
  }

  lemma NothingBelow(t: Tree, p: Path)
    requires WellFormed(t) && !IsDir(t, p)
    ensures forall q :: q in t && p <= q ==> q == p
  {
    forall q | q in t && p <= q ensures q == p {
      AncestorOf(t, p, q);
    }
  }

  // ----- rename

  /** Where a rename of one path to another takes an entry. */
  function Move(p: Path, source: Path, target: Path): Path {
    if source <= p then target + p[|source|..] else p
  }

  predicate HasChild(t: Tree, p: Path) {
    exists q :: q in t && p < q
  }

  /** When os.Rename can succeed: a file may replace a file; Go refuses every existing directory as the new name. */
  predicate CanRename(t: Tree, source: Path, target: Path) {
    source in t && source != [] && target != [] && !(source <= target) && IsDir(t, Parent(target))
    && (target in t ==> t[source].File? && t[target].File?)
  }

  predicate InRenamed(t: Tree, source: Path, target: Path, q: Path) {
    if target <= q then source + q[|target|..] in t else q in t && !(source <= q)
  }

  /** Where an entry of the renamed tree came from. */
  function Origin(q: Path, source: Path, target: Path): Path {
    if target <= q then source + q[|target|..] else q
  }

  /** The whole subtree moves; what stood at the target is gone. */
  ghost predicate IsRenamed(t: Tree, source: Path, target: Path, r: Tree) {
    (forall q :: q in r <==> InRenamed(t, source, target, q))
    && forall q :: q in r ==> Origin(q, source, target) in t && r[q] == t[Origin(q, source, target)]
  }

  function Relocated(t: Tree, source: Path, target: Path): (r: Tree)
    ensures IsRenamed(t, source, target, r)
  {
    var keys := set p | p in t :: Move(p, source, target);
    assert forall q :: InRenamed(t, source, target, q) ==> q in keys by {
      forall q | InRenamed(t, source, target, q) ensures q in keys {
        var p := Origin(q, source, target);
        assert Move(p, source, target) == q;
      }
    }
    map q | q in keys && InRenamed(t, source, target, q) :: t[Origin(q, source, target)]
  }

  ghost function Renamed(t: Tree, source: Path, target: Path): (r: Tree)
    ensures IsRenamed(t, source, target, r)
  {
    assert IsRenamed(t, source, target, Relocated(t, source, target));
    var r :| IsRenamed(t, source, target, r);
    r
  }

  lemma RelocatedIsRenamed(t: Tree, source: Path, target: Path)
    ensures Relocated(t, source, target) == Renamed(t, source, target)
  {
    var r, s := Relocated(t, source, target), Renamed(t, source, target);
    assert IsRenamed(t, source, target, r) && IsRenamed(t, source, target, s);
    assert forall q :: q in r <==> InRenamed(t, source, target, q);
  }

  lemma RenamedWellFormed(t: Tree, source: Path, target: Path)
    requires WellFormed(t) && CanRename(t, source, target)
    ensures WellFormed(Renamed(t, source, target))
  {
    var r := Renamed(t, source, target);
    TargetNotAbove(t, source, target);
    forall q | q in r && q != [] ensures IsDir(r, Parent(q)) {
      assert IsDir(t, Parent(Origin(q, source, target)));
      if target <= q {
        if q == target {
          assert !(source <= Parent(target)) by { assert source <= Parent(target) ==> source <= target; }
          assert !(target <= Parent(q));
        } else {
          var p := source + q[|target|..];
          assert Parent(p) == source + Parent(q)[|target|..];
          assert target <= Parent(q);
          assert IsDir(t, Parent(p));
        }
      } else {
        assert !(target <= Parent(q)) by { assert target <= Parent(q) ==> target <= q; }
        assert !(source <= Parent(q)) by { assert source <= Parent(q) ==> source <= q; }
      }
    }
  }

  lemma TargetNotAbove(t: Tree, source: Path, target: Path)
    requires WellFormed(t) && CanRename(t, source, target)
    ensures !(target <= source)
  {
    AncestorOf(t, target, source);
  }

  /** Renaming back after a rename onto a free path restores the tree. */
  lemma RenameBack(t: Tree, source: Path, target: Path)
    requires WellFormed(t) && CanRename(t, source, target) && target !in t
    ensures Renamed(Renamed(t, source, target), target, source) == t
  {
    var b := Renamed(Renamed(t, source, target), target, source);
    NothingBelow(t, target);
    forall q ensures SameAt(b, t, q) {
      RenameBackAt(t, source, target, q);
    }
    SameEverywhere(b, t);
  }

  ghost predicate SameAt(s: Tree, t: Tree, q: Path) {
    (q in s <==> q in t) && (q in t ==> q in s && s[q] == t[q])
  }

  lemma SameEverywhere(s: Tree, t: Tree)
    requires forall q :: SameAt(s, t, q)
    ensures s == t
  {
    assert forall q :: q in s ==> SameAt(s, t, q);
    assert forall q :: q in t ==> SameAt(s, t, q);
  }

  lemma RenameBackAt(t: Tree, source: Path, target: Path, q: Path)
    requires !(source <= target) && target !in t && forall p :: p in t ==> !(target <= p)
    ensures SameAt(Renamed(Renamed(t, source, target), target, source), t, q)
  {
    var r := Renamed(t, source, target);
    if source <= q {
      var there := target + q[|source|..];
      assert there[|target|..] == q[|source|..];
      assert source + q[|source|..] == q;
    }
  }

  /** Nothing appears outside the moved subtree, and the source is vacated. */
  lemma RenamedAbsent(t: Tree, source: Path, target: Path, x: Path)
    requires !(target <= x)
    ensures x !in t ==> x !in Renamed(t, source, target)
    ensures source <= x ==> x !in Renamed(t, source, target)
  {
  }

  /** Renaming a file changes two entries. */
  lemma RenamedFile(t: Tree, source: Path, target: Path)
    requires WellFormed(t) && CanRename(t, source, target) && IsFile(t, source)
    ensures Renamed(t, source, target) == (t - {source})[target := t[source]]
  {
    var r, e := Renamed(t, source, target), (t - {source})[target := t[source]];
    NothingBelow(t, source);
    NothingBelow(t, target);
    forall q ensures SameAt(r, e, q) {
      RenamedFileAt(t, source, target, q);
    }
    SameEverywhere(r, e);
  }

  lemma RenamedFileAt(t: Tree, source: Path, target: Path, q: Path)
    requires source in t && !(source <= target)
    requires forall p :: p in t && source <= p ==> p == source
    requires forall p :: p in t && target <= p ==> p == target
    ensures SameAt(Renamed(t, source, target), (t - {source})[target := t[source]], q)
  {
    if target <= q {
      var rest := q[|target|..];
      assert q == target + rest;
      assert source <= source + rest;
      if rest == [] {
        assert source + rest == source && q == target;
      } else {
        assert |source + rest| > |source| && |q| > |target|;
      }
    }
  }

  // ----- the calls

  lemma RemovedWellFormed(t: Tree, p: Path)
    requires WellFormed(t) && p != [] && !HasChild(t, p)
    ensures WellFormed(t - {p})
  {
    forall q | q in t - {p} && q != [] ensures IsDir(t - {p}, Parent(q)) {
      assert IsDir(t, Parent(q));
      assert Parent(q) < q;
    }
  }

  lemma FilePutWellFormed(t: Tree, p: Path, node: Node)
    requires WellFormed(t) && p != [] && !IsDir(t, p) && IsDir(t, Parent(p)) && node.File?
    ensures WellFormed(t[p := node])
  {
    var r := t[p := node];
    forall q | q in r && q != [] ensures IsDir(r, Parent(q)) {
      assert IsDir(t, Parent(q));
    }
  }

  datatype Removal = Removed | NotThere | NotRemoved

  class FileSystem {
    var tree: Tree
    ghost var faults: nat // failures that the state of the tree does not explain

    constructor (tree: Tree)
      ensures this.tree == tree && faults == 0
    {
      this.tree := tree;
      faults := 0;
    }

    /** Whether a call that changes nothing fails. */
    method Fails() returns (fault: bool)
      modifies this
      ensures tree == old(tree) && faults == old(faults) + if fault then 1 else 0
    {
      fault := *;
      if fault {
        faults := faults + 1;
      }
    }

    /** os.Rename. */
    method Rename(source: Path, target: Path) returns (ok: bool)
      modifies this
      ensures ok ==> CanRename(old(tree), source, target) && tree == Renamed(old(tree), source, target)
      ensures !ok ==> tree == old(tree) && (CanRename(tree, source, target) ==> faults > old(faults))
      ensures faults >= old(faults) && (WellFormed(old(tree)) ==> WellFormed(tree))
    {
      var fault := Fails();
      ok := !fault && CanRename(tree, source, target);
      if ok {
        ghost var before := tree;
        RelocatedIsRenamed(tree, source, target);
        tree := Relocated(tree, source, target);
        if WellFormed(before) {
          RenamedWellFormed(before, source, target);
        }
      }
    }

    /** os.Remove of a file or an empty directory. */
    method Remove(path: Path) returns (result: Removal)
      modifies this
      ensures result == Removed ==> path in old(tree) && tree == old(tree) - {path}
      ensures result == NotThere ==> path !in tree
      ensures result != Removed ==> tree == old(tree)
      ensures faults >= old(faults) && (WellFormed(old(tree)) ==> WellFormed(tree))
      ensures result == NotRemoved && faults == old(faults) ==> path == [] || HasChild(tree, path)
    {
      var fault := Fails();
      if fault {
        result := NotRemoved;
      } else if path !in tree {
        result := NotThere;
      } else if path == [] || HasChild(tree, path) {
        result := NotRemoved;
      } else {
        result := Removed;
        if WellFormed(tree) {
          RemovedWellFormed(tree, path);
        }
        tree := tree - {path};
      }
    }

    /** os.OpenFile with O_CREATE and O_EXCL: only a new name in a directory. */
    method CreateExclusive(path: Path, mode: nat) returns (ok: bool)
      modifies this
      ensures ok ==> path != [] && path !in old(tree) && path in tree && tree[path].File?
                     && tree == old(tree)[path := tree[path]]
      ensures !ok ==> tree == old(tree)
      ensures faults >= old(faults) && (WellFormed(old(tree)) ==> WellFormed(tree))
      ensures !ok && faults == old(faults) ==> path == [] || path in tree || !IsDir(tree, Parent(path))
    {
      var fault := Fails();
      ok := !fault && path != [] && path !in tree && IsDir(tree, Parent(path));
      if ok {
        var masked :| 0 <= masked <= mode;
        if WellFormed(tree) {
          FilePutWellFormed(tree, path, File([], masked));
        }
        tree := tree[path := File([], masked)];
      }
    }

    /** File.Write: without a fault everything is written, otherwise some prefix. */
    method Write(path: Path, data: text) returns (written: nat, failed: bool)
      requires IsFile(tree, path)
      modifies this
      ensures written <= |data| && tree == old(tree)[path := File(data[..written], old(tree)[path].mode)]
      ensures faults >= old(faults) && (WellFormed(old(tree)) ==> WellFormed(tree))
      ensures faults == old(faults) ==> written == |data| && !failed
    {
      var fault := Fails();
      written, failed := |data|, false;
      if fault {
        written :| 0 <= written <= |data|;
        failed := *;
      }
      if WellFormed(tree) {
        assert IsDir(tree, Parent(path));
        FilePutWellFormed(tree, path, File(data[..written], tree[path].mode));
      }
      tree := tree[path := File(data[..written], tree[path].mode)];
    }

    /** os.Chmod. */
    method Chmod(path: Path, mode: nat) returns (ok: bool)
      requires IsFile(tree, path)
      modifies this
      ensures tree == if ok then old(tree)[path := File(old(tree)[path].bytes, mode)] else old(tree)
      ensures faults >= old(faults) && (WellFormed(old(tree)) ==> WellFormed(tree))
      ensures !ok ==> faults > old(faults)
    {
      var fault := Fails();
      ok := !fault;
      if ok {
        if WellFormed(tree) {
          assert IsDir(tree, Parent(path));
          FilePutWellFormed(tree, path, File(tree[path].bytes, mode));
        }
        tree := tree[path := File(tree[path].bytes, mode)];
      }
    }
  }
}
