/** tools/archivepack/main.go: which entry names and modes an archive may hold, and the two duplicate checks. */
module Entries {
  import opened Bytes
  import opened Sorting
  import Utf8

  const EXECUTABLE_MODE: nat := 0x1ED // 0755
  const SUPPORTING_MODE: nat := 0x1A4 // 0644

  const DOT: byte := 46
  const UNSAFE: text := [47, 92, 58, 0, 60, 62, 34, 124, 63, 42] // /\:NUL<>"|?*
  const RESERVED: seq<text> := [[67, 79, 78], [80, 82, 78], [65, 85, 88], [78, 85, 76]] // CON PRN AUX NUL
  const NUMBERED: seq<text> := [[67, 79, 77], [76, 80, 84]] // COM LPT

  function UpperByte(b: byte): byte {
    if 97 <= b <= 122 then b - 32 else b
  }

  /** strings.ToUpper on an ASCII string. */
  function Upper(s: text): (u: text)
    ensures |u| == |s|
  {
    seq(|s|, i requires 0 <= i < |s| => UpperByte(s[i]))
  }

  predicate ReservedStem(name: text) {
    var stem := Upper(name[..IndexOf(name, DOT)]);
    stem in RESERVED
    || (|stem| == 4 && 49 <= stem[3] <= 57 && stem[..3] in NUMBERED)
  }

  /** validateEntryName. */
  predicate ValidEntryName(name: text) {
    Utf8.ValidString(name)
    && name != [] && name != [DOT] && name != [DOT, DOT]
    && (forall i :: 0 <= i < |name| ==> name[i] !in UNSAFE)
    && name[|name| - 1] != DOT && name[|name| - 1] != 32
    && |name| <= 100
    && (forall i :: 0 <= i < |name| ==> 0x21 <= name[i] <= 0x7E)
    && !ReservedStem(name)
  }

  predicate ValidEntryMode(mode: nat) {
    mode == EXECUTABLE_MODE || mode == SUPPORTING_MODE
  }

  datatype InputSpec = InputSpec(path: text, name: text, mode: nat)

  datatype ArchiveEntry = ArchiveEntry(input: Option<text>, name: text, size: int, mode: nat)

  /** A name with its mode. */
  type Named = (text, nat)

  predicate ValidEntry(n: Named) {
    ValidEntryName(n.0) && ValidEntryMode(n.1)
  }

  predicate ValidUpTo(named: seq<Named>, k: nat)
    requires k <= |named|
  {
    forall i :: 0 <= i < k ==> ValidEntry(named[i])
  }

  function Folded(named: seq<Named>): (keys: seq<text>)
    ensures |keys| == |named|
    ensures forall i :: 0 <= i < |keys| ==> keys[i] == Upper(named[i].0)
  {
    seq(|named|, i requires 0 <= i < |named| => Upper(named[i].0))
  }

  predicate DistinctUpTo(keys: seq<text>, k: nat)
    requires k <= |keys|
  {
    forall i, j :: 0 <= i < j < k ==> keys[i] != keys[j]
  }

  function KeysUpTo(keys: seq<text>, k: nat): set<text>
    requires k <= |keys|
  {
    set i | 0 <= i < k :: keys[i]
  }

  /** What both checks are for: safe names and modes, and no two names a case-insensitive file system confuses. */
  predicate AcceptableNames(named: seq<Named>) {
    named != [] && ValidUpTo(named, |named|) && DistinctUpTo(Folded(named), |named|)
  }

  // ----- names and modes, spelled out

  /** The same letters in either case. */
  predicate SameByte(a: byte, b: byte) {
    a == b || (65 <= a <= 90 && b == a + 32) || (65 <= b <= 90 && a == b + 32)
  }

  predicate SameIgnoringCase(a: text, b: text) {
    |a| == |b| && forall i :: 0 <= i < |a| ==> SameByte(a[i], b[i])
  }

  /** CON, PRN, AUX, NUL, COM1 to COM9 and LPT1 to LPT9, in any case. */
  predicate DeviceName(stem: text) {
    SameIgnoringCase(stem, [67, 79, 78]) || SameIgnoringCase(stem, [80, 82, 78])
    || SameIgnoringCase(stem, [65, 85, 88]) || SameIgnoringCase(stem, [78, 85, 76])
    || (|stem| == 4 && 49 <= stem[3] <= 57
        && (SameIgnoringCase(stem[..3], [67, 79, 77]) || SameIgnoringCase(stem[..3], [76, 80, 84])))
  }

  lemma UpperSame(a: text, b: text)
    ensures Upper(a) == Upper(b) <==> SameIgnoringCase(a, b)
  {
    if |a| == |b| {
      forall i | 0 <= i < |a| ensures Upper(a)[i] == Upper(b)[i] <==> SameByte(a[i], b[i]) {
      }
    }
  }

  lemma UpperIs(a: text, b: text)
    requires forall i :: 0 <= i < |b| ==> 65 <= b[i] <= 90
    ensures Upper(a) == b <==> SameIgnoringCase(a, b)
  {
    assert Upper(b) == b;
    UpperSame(a, b);
  }

  lemma ReservedExactly(name: text)
    ensures ReservedStem(name) <==> DeviceName(name[..IndexOf(name, 46)])
  {
    var stem := name[..IndexOf(name, 46)];
    UpperIs(stem, [67, 79, 78]);
    UpperIs(stem, [80, 82, 78]);
    UpperIs(stem, [65, 85, 88]);
    UpperIs(stem, [78, 85, 76]);
    assert RESERVED[0] == [67, 79, 78] && RESERVED[1] == [80, 82, 78] && RESERVED[2] == [65, 85, 88] && RESERVED[3] == [78, 85, 76];
    if |stem| == 4 {
      assert Upper(stem)[..3] == Upper(stem[..3]);
      UpperIs(stem[..3], [67, 79, 77]);
      UpperIs(stem[..3], [76, 80, 84]);
      assert NUMBERED[0] == [67, 79, 77] && NUMBERED[1] == [76, 80, 84];
    }
  }

  lemma {:induction false} AsciiIsValid(s: text)
    requires forall i :: 0 <= i < |s| ==> s[i] < 0x80
    ensures Utf8.ValidString(s)
  {
    if s != [] {
      AsciiIsValid(s[1..]);
    }
  }

  /** Ten of the checks on a name say this: 1 to 100 visible ASCII characters, nine of them excluded, no final dot, no device. */
  lemma NamesExactly(name: text)
    ensures ValidEntryName(name) <==>
              && 1 <= |name| <= 100
              && (forall i :: 0 <= i < |name| ==> 33 <= name[i] <= 126 && name[i] !in {34, 42, 47, 58, 60, 62, 63, 92, 124})
              && name[|name| - 1] != 46 && !DeviceName(name[..IndexOf(name, 46)])
  {
    ReservedExactly(name);
    if forall i :: 0 <= i < |name| ==> 33 <= name[i] <= 126 {
      AsciiIsValid(name);
    }
    forall b: byte ensures b in UNSAFE <==> b in {0, 34, 42, 47, 58, 60, 62, 63, 92, 124} {
      UnsafeBytes(b);
    }
  }

  lemma UnsafeBytes(b: byte)
    ensures b in UNSAFE <==> b in {0, 34, 42, 47, 58, 60, 62, 63, 92, 124}
  {
    assert UNSAFE[0] == 47 && UNSAFE[1] == 92 && UNSAFE[2] == 58 && UNSAFE[3] == 0 && UNSAFE[4] == 60;
    assert UNSAFE[5] == 62 && UNSAFE[6] == 34 && UNSAFE[7] == 124 && UNSAFE[8] == 63 && UNSAFE[9] == 42;
  }

  /** A list of names and modes is accepted exactly when each is usable and no two names differ in case only. */
  lemma AcceptableExactly(named: seq<Named>)
    ensures AcceptableNames(named) <==>
              && named != []
              && (forall i :: 0 <= i < |named| ==> ValidEntryName(named[i].0) && (named[i].1 == 493 || named[i].1 == 420))
              && (forall i, j :: 0 <= i < j < |named| ==> !SameIgnoringCase(named[i].0, named[j].0))
  {
    var keys := Folded(named);
    forall i, j | 0 <= i < j < |named| ensures keys[i] == keys[j] <==> SameIgnoringCase(named[i].0, named[j].0) {
      UpperSame(named[i].0, named[j].0);
    }
    assert ValidUpTo(named, |named|) <==>
      forall i :: 0 <= i < |named| ==> ValidEntryName(named[i].0) && (named[i].1 == 493 || named[i].1 == 420);
  }

  /** One more key against the set of earlier ones. */
  lemma OneMoreKey(keys: seq<text>, k: nat)
    requires k < |keys| && DistinctUpTo(keys, k)
    ensures keys[k] !in KeysUpTo(keys, k) ==> DistinctUpTo(keys, k + 1)
    ensures keys[k] in KeysUpTo(keys, k) ==> !DistinctUpTo(keys, |keys|)
    ensures KeysUpTo(keys, k + 1) == KeysUpTo(keys, k) + {keys[k]}
  {
  }

  function SpecNames(specs: seq<InputSpec>): (r: seq<Named>)
    ensures |r| == |specs|
    ensures forall i :: 0 <= i < |r| ==> r[i] == (specs[i].name, specs[i].mode)
  {
    seq(|specs|, i requires 0 <= i < |specs| => (specs[i].name, specs[i].mode))
  }

  function EntryNames(entries: seq<ArchiveEntry>): (r: seq<Named>)
    ensures |r| == |entries|
    ensures forall i :: 0 <= i < |r| ==> r[i] == (entries[i].name, entries[i].mode)
  {
    seq(|entries|, i requires 0 <= i < |entries| => (entries[i].name, entries[i].mode))
  }

  /** The hash-set check: exact names and folded names both go into sets. */
  method ValidateInputSpecs(specs: seq<InputSpec>) returns (ok: bool)
    ensures ok <==> AcceptableNames(SpecNames(specs))
  {
    if specs == [] {
      return false;
    }
    var seen: set<text>, seenFolded: set<text> := {}, {};
    ghost var named := SpecNames(specs);
    ghost var keys := Folded(named);
    for k := 0 to |specs|
      invariant ValidUpTo(named, k) && DistinctUpTo(keys, k)
      invariant seenFolded == KeysUpTo(keys, k)
      invariant forall n :: n in seen ==> Upper(n) in seenFolded
    {
      var spec := specs[k];
      assert named[k] == (spec.name, spec.mode);
      OneMoreKey(keys, k);
      if !ValidEntry((spec.name, spec.mode)) {
        return false;
      }
      var folded := Upper(spec.name);
      if spec.name in seen || folded in seenFolded {
        return false;
      }
      seen := seen + {spec.name};
      seenFolded := seenFolded + {folded};
    }
    return true;
  }

  predicate ByName(a: ArchiveEntry, b: ArchiveEntry) {
    Less(a.name, b.name)
  }

  predicate StrictlyIncreasing(entries: seq<ArchiveEntry>) {
    forall i, j :: 0 <= i < j < |entries| ==> Less(entries[i].name, entries[j].name)
  }

  predicate Usable(entries: seq<ArchiveEntry>) {
    forall i :: 0 <= i < |entries| ==> entries[i].input.Some? && entries[i].size >= 0
  }

  /** What canonicalEntries accepts and returns. */
  ghost predicate Canonical(entries: seq<ArchiveEntry>, result: Option<seq<ArchiveEntry>>) {
    (result.Some? <==> Usable(entries) && AcceptableNames(EntryNames(entries)))
    && (result.Some? ==> multiset(result.value) == multiset(entries) && StrictlyIncreasing(result.value))
  }

  /** The sorting check: exact duplicates are found next to each other, folded ones in a set. */
  method CanonicalEntries(entries: seq<ArchiveEntry>) returns (result: Option<seq<ArchiveEntry>>)
    ensures Canonical(entries, result)
  {
    if entries == [] {
      return None;
    }
    ByNameIsStrictWeak();
    var ordered := SortSlice(entries, ByName);
    RearrangedAcceptance(entries, ordered);
    var seenFolded: set<text> := {};
    ghost var named := EntryNames(ordered);
    ghost var keys := Folded(named);
    for k := 0 to |ordered|
      invariant forall i :: 0 <= i < k ==> ordered[i].input.Some? && ordered[i].size >= 0
      invariant ValidUpTo(named, k) && DistinctUpTo(keys, k)
      invariant seenFolded == KeysUpTo(keys, k)
    {
      var entry := ordered[k];
      assert named[k] == (entry.name, entry.mode);
      OneMoreKey(keys, k);
      if !ValidEntry((entry.name, entry.mode)) || entry.input.None? || entry.size < 0 {
        return None;
      }
      if k != 0 && entry.name == ordered[k - 1].name {
        assert keys[k - 1] == keys[k];
        return None;
      }
      var folded := Upper(entry.name);
      if folded in seenFolded {
        return None;
      }
      seenFolded := seenFolded + {folded};
    }
    SortedDistinctIncreases(ordered);
    return Some(ordered);
  }

  lemma SortedDistinctIncreases(s: seq<ArchiveEntry>)
    requires Sorted(s, ByName) && DistinctUpTo(Folded(EntryNames(s)), |s|)
    ensures StrictlyIncreasing(s)
  {
    forall i, j | 0 <= i < j < |s| ensures Less(s[i].name, s[j].name) {
      LessTotal(s[i].name, s[j].name);
      assert !ByName(s[j], s[i]);
      assert Folded(EntryNames(s))[i] != Folded(EntryNames(s))[j];
    }
  }

  lemma ByNameIsStrictWeak()
    ensures StrictWeak(ByName)
  {
    TextLessIsStrictWeak();
    forall a: ArchiveEntry, b: ArchiveEntry ensures ByName(a, b) ==> !ByName(b, a) {
      assert Less(a.name, b.name) ==> !Less(b.name, a.name);
    }
    forall a: ArchiveEntry, b: ArchiveEntry, c: ArchiveEntry | ByName(a, c) ensures ByName(a, b) || ByName(b, c) {
      assert Less(a.name, b.name) || Less(b.name, c.name);
    }
  }

  lemma FoldedDistinctRearranged(s: seq<ArchiveEntry>, t: seq<ArchiveEntry>)
    requires |s| == |t| && multiset(s) == multiset(t) && DistinctUpTo(Folded(EntryNames(s)), |s|)
    ensures DistinctUpTo(Folded(EntryNames(t)), |t|)
  {
    var ks, kt := Folded(EntryNames(s)), Folded(EntryNames(t));
    forall i, j | 0 <= i < j < |t| ensures kt[i] != kt[j] {
      var p: nat, q: nat;
      if t[i] == t[j] {
        RepeatedCount(t, i, j);
        p, q := TwoPositions(s, t[i]);
      } else {
        MemberOfBoth(s, t, t[i]);
        MemberOfBoth(s, t, t[j]);
        p :| 0 <= p < |s| && s[p] == t[i];
        q :| 0 <= q < |s| && s[q] == t[j];
      }
      assert ks[p] == kt[i] && ks[q] == kt[j];
    }
  }

  lemma UsableRearranged(s: seq<ArchiveEntry>, t: seq<ArchiveEntry>)
    requires multiset(s) == multiset(t)
    ensures Usable(s) ==> Usable(t)
    ensures |s| == |t|
    ensures ValidUpTo(EntryNames(s), |s|) ==> ValidUpTo(EntryNames(t), |t|)
  {
    assert |s| == |multiset(s)| == |t|;
    forall i | 0 <= i < |t|
      ensures exists j :: 0 <= j < |s| && s[j] == t[i] && EntryNames(s)[j] == EntryNames(t)[i]
    {
      MemberOfBoth(s, t, t[i]);
      var j :| 0 <= j < |s| && s[j] == t[i];
    }
  }

  /** Acceptance does not depend on the order of the entries. */
  lemma RearrangedAcceptance(s: seq<ArchiveEntry>, t: seq<ArchiveEntry>)
    requires multiset(s) == multiset(t)
    ensures Usable(s) <==> Usable(t)
    ensures AcceptableNames(EntryNames(s)) <==> AcceptableNames(EntryNames(t))
  {
    UsableRearranged(s, t);
    UsableRearranged(t, s);
    if DistinctUpTo(Folded(EntryNames(s)), |s|) {
      FoldedDistinctRearranged(s, t);
    }
    if DistinctUpTo(Folded(EntryNames(t)), |t|) {
      FoldedDistinctRearranged(t, s);
    }
  }

  lemma TailCount<T>(s: seq<T>)
    requires s != []
    ensures multiset(s[1..]) == multiset(s) - multiset{s[0]}
  {
    assert s == [s[0]] + s[1..];
  }

  lemma SameHead(s: seq<ArchiveEntry>, t: seq<ArchiveEntry>)
    requires multiset(s) == multiset(t) && StrictlyIncreasing(s) && StrictlyIncreasing(t) && s != []
    ensures t != [] && s[0] == t[0]
    ensures multiset(s[1..]) == multiset(t[1..])
  {
    assert s[0] in multiset(s);
    MemberOfBoth(s, t, s[0]);
    MemberOfBoth(s, t, t[0]);
    LessTotal(s[0].name, t[0].name);
    TailCount(s);
    TailCount(t);
  }

  lemma {:induction false} IncreasingUnique(s: seq<ArchiveEntry>, t: seq<ArchiveEntry>)
    requires multiset(s) == multiset(t) && StrictlyIncreasing(s) && StrictlyIncreasing(t)
    ensures s == t
  {
    if s == [] {
      assert |t| == |multiset(t)|;
    } else {
      SameHead(s, t);
      IncreasingUnique(s[1..], t[1..]);
      assert s == [s[0]] + s[1..] && t == [t[0]] + t[1..];
    }
  }

  /** Any rearrangement of the input gives the same result. */
  lemma CanonicalEntriesOrderFree(s: seq<ArchiveEntry>, t: seq<ArchiveEntry>,
                                  rs: Option<seq<ArchiveEntry>>, rt: Option<seq<ArchiveEntry>>)
    requires multiset(s) == multiset(t) && Canonical(s, rs) && Canonical(t, rt)
    ensures rs == rt
  {
    RearrangedAcceptance(s, t);
    if rs.Some? {
      IncreasingUnique(rs.value, rt.value);
    }
  }
}
