/** sort.Slice and sort.Strings as a specification: some sorted rearrangement, not a particular one. */
module Sorting {
  import opened Bytes

  /** A comparison sort.Slice accepts: equivalence of incomparable elements is transitive. */
  ghost predicate StrictWeak<T(!new)>(less: (T, T) -> bool) {
    (forall a, b :: less(a, b) ==> !less(b, a))
    && (forall a, b, c :: less(a, c) ==> less(a, b) || less(b, c))
  }

  ghost predicate Sorted<T>(s: seq<T>, less: (T, T) -> bool) {
    forall i, j :: 0 <= i < j < |s| ==> !less(s[j], s[i])
  }

  ghost predicate SortedPermutation<T>(s: seq<T>, t: seq<T>, less: (T, T) -> bool) {
    multiset(s) == multiset(t) && Sorted(t, less)
  }

  method Insert<T(!new)>(x: T, s: seq<T>, less: (T, T) -> bool) returns (t: seq<T>)
    requires StrictWeak(less) && Sorted(s, less)
    ensures Sorted(t, less) && multiset(t) == multiset(s) + multiset{x}
  {
    if s == [] || !less(s[0], x) {
      t := [x] + s;
      if s != [] {
        assert forall j :: 0 <= j < |s| ==> !less(s[j], x);
      }
    } else {
      var u := Insert(x, s[1..], less);
      t := [s[0]] + u;
      assert multiset(s) == multiset{s[0]} + multiset(s[1..]) by { assert s == [s[0]] + s[1..]; }
      forall j | 0 <= j < |u| ensures !less(u[j], s[0]) {
        assert u[j] in multiset(u);
        if u[j] != x {
          assert u[j] in multiset(s[1..]);
          assert u[j] in s[1..];
        }
      }
    }
  }

  /** Callers may rely on nothing but the result being a sorted rearrangement. */
  method SortSlice<T(!new)>(s: seq<T>, less: (T, T) -> bool) returns (t: seq<T>)
    requires StrictWeak(less)
    ensures SortedPermutation(s, t, less)
  {
    if s == [] {
      t := [];
    } else {
      t := SortSlice(s[1..], less);
      t := Insert(s[0], t, less);
      assert s == [s[0]] + s[1..];
    }
  }

  lemma TextLessIsStrictWeak()
    ensures StrictWeak(Less)
  {
    forall a: text, b: text ensures Less(a, b) ==> !Less(b, a) {
      LessTotal(a, b);
    }
    forall a: text, b: text, c: text | Less(a, c) ensures Less(a, b) || Less(b, c) {
      LessTotal(a, b);
      LessTotal(b, c);
      if Less(b, a) && Less(c, b) {
        LessTransitive(c, b, a);
        LessTotal(a, c);
      }
    }
  }

  lemma MemberOfBoth<T>(s: seq<T>, t: seq<T>, x: T)
    requires multiset(s) == multiset(t)
    ensures x in s <==> x in t
  {
    assert x in s <==> x in multiset(s);
    assert x in t <==> x in multiset(t);
  }

  /** A repeated element has two positions. */
  lemma {:induction false} TwoPositions<T>(s: seq<T>, x: T) returns (i: nat, j: nat)
    requires multiset(s)[x] >= 2
    ensures i < j < |s| && s[i] == x && s[j] == x
  {
    assert s == [s[0]] + s[1..];
    if s[0] == x {
      assert multiset(s[1..])[x] >= 1;
      assert x in s[1..];
      i, j := 0, 1;
      while s[j] != x
        invariant 1 <= j < |s| && x in s[j..]
        decreases |s| - j
      {
        assert s[j..] == [s[j]] + s[j + 1..];
        j := j + 1;
      }
    } else {
      i, j := TwoPositions(s[1..], x);
      i, j := i + 1, j + 1;
    }
  }

  lemma RepeatedCount<T>(s: seq<T>, i: nat, j: nat)
    requires i < j < |s| && s[i] == s[j]
    ensures multiset(s)[s[i]] >= 2
  {
    assert s == s[..i] + [s[i]] + s[i + 1..j] + [s[j]] + s[j + 1..];
  }

  lemma SortedDistinct(s: seq<text>, t: seq<text>)
    requires SortedPermutation(s, t, Less)
    requires forall i, j :: 0 <= i < j < |s| ==> s[i] != s[j]
    ensures forall i, j :: 0 <= i < j < |t| ==> Less(t[i], t[j])
  {
    forall i, j | 0 <= i < j < |t| ensures Less(t[i], t[j]) {
      LessTotal(t[i], t[j]);
      if t[i] == t[j] {
        RepeatedCount(t, i, j);
        var p, q := TwoPositions(s, t[i]);
      }
    }
  }

  /** The keys of a Go map, collected in whatever order the map yields them, then sorted. */
  method SortedKeys(keys: set<text>) returns (sorted: seq<text>)
    ensures forall s :: s in sorted <==> s in keys
    ensures forall i, j :: 0 <= i < j < |sorted| ==> Less(sorted[i], sorted[j])
    ensures |sorted| == |keys|
  {
    var listed: seq<text> := [];
    var remaining := keys;
    while remaining != {}
      invariant forall s :: s in keys <==> s in remaining || s in listed
      invariant forall s :: s in remaining ==> s !in listed
      invariant forall i, j :: 0 <= i < j < |listed| ==> listed[i] != listed[j]
      invariant |listed| + |remaining| == |keys|
      decreases |remaining|
    {
      var s :| s in remaining;
      remaining := remaining - {s};
      listed := listed + [s];
    }
    TextLessIsStrictWeak();
    sorted := SortSlice(listed, Less);
    SortedDistinct(listed, sorted);
    assert |listed| == |multiset(listed)| == |sorted|;
    forall s ensures s in sorted <==> s in listed {
      MemberOfBoth(listed, sorted, s);
    }
  }
}
