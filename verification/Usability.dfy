/** The catalog's static satisfiability check against the argv parser it speaks about. */
module Usability {
  import opened Bytes
  import opened Inputs
  import opened Invocations
  import opened Relations

  function ByName(inputs: seq<CommandInput>): (m: Declarations)
    requires DistinctNames(inputs)
    ensures forall k :: 0 <= k < |inputs| ==> inputs[k].name in m && m[inputs[k].name] == inputs[k]
    ensures forall n :: n in m ==> exists k :: 0 <= k < |inputs| && inputs[k].name == n && m[n] == inputs[k]
  {
    map k | 0 <= k < |inputs| :: inputs[k].name := inputs[k]
  }

  function CommandLineNames(inputs: seq<CommandInput>): set<text> {
    set k | 0 <= k < |inputs| && CommandLine(inputs[k]) :: inputs[k].name
  }

  /** Relations join command-line inputs only, as validateInputRelations demands. */
  ghost predicate RelationsOnCommandLine(inputs: seq<CommandInput>) {
    forall k :: 0 <= k < |inputs| ==>
      (!CommandLine(inputs[k]) ==> inputs[k].requires_ == [] && inputs[k].conflictsWith == [])
      && (forall r :: 0 <= r < |inputs[k].requires_| ==> inputs[k].requires_[r] in CommandLineNames(inputs))
      && (forall r :: 0 <= r < |inputs[k].conflictsWith| ==> inputs[k].conflictsWith[r] in CommandLineNames(inputs))
  }

  lemma ValidatedRelations(inputs: seq<CommandInput>)
    requires DistinctNames(inputs)
    requires forall k :: 0 <= k < |inputs| ==> RelationsValid(inputs[k], ByName(inputs))
    ensures RelationsOnCommandLine(inputs)
  {
    var m := ByName(inputs);
    forall n | n in m && CommandLine(m[n]) ensures n in CommandLineNames(inputs) {
      var k :| 0 <= k < |inputs| && inputs[k].name == n && m[n] == inputs[k];
    }
    forall k | 0 <= k < |inputs|
      ensures forall r :: 0 <= r < |inputs[k].requires_| ==> RequireOk(inputs[k], inputs[k].requires_[r], m)
      ensures forall r :: 0 <= r < |inputs[k].conflictsWith| ==> ConflictOk(inputs[k], inputs[k].conflictsWith[r], m)
      ensures !CommandLine(inputs[k]) ==> inputs[k].requires_ == [] && inputs[k].conflictsWith == []
    {
      if inputs[k].requires_ != [] {
        assert RequireOk(inputs[k], inputs[k].requires_[0], m);
      }
      if inputs[k].conflictsWith != [] {
        assert ConflictOk(inputs[k], inputs[k].conflictsWith[0], m);
      }
      assert RelationsValid(inputs[k], m);
    }
  }

  // ----- presence sets: the static check and the parser's last loops agree

  /** A presence set of the parser that contains the given names. */
  ghost predicate Presentable(inputs: seq<CommandInput>, names: set<text>) {
    exists s :: names <= s && s <= CommandLineNames(inputs) && PresenceOk(inputs, s)
  }

  lemma KnownExactly(inputs: seq<CommandInput>, s: set<text>)
    ensures KnownNames(inputs, s) <==> s <= CommandLineNames(inputs)
  {
  }

  lemma RestrictToCommandLine(inputs: seq<CommandInput>, s: set<text>)
    requires DistinctNames(inputs) && RelationsOnCommandLine(inputs)
    requires RequiredNames(ByName(inputs)) <= s && ClosedUnder(ByName(inputs), s) && ConflictFree(ByName(inputs), s)
    ensures PresenceOk(inputs, s * CommandLineNames(inputs))
  {
    var m, q := ByName(inputs), s * CommandLineNames(inputs);
    forall k | 0 <= k < |inputs| && CommandLine(inputs[k]) ensures InputPresenceOk(inputs[k], q) {
      var input := inputs[k];
      assert input.required ==> input.name in RequiredNames(m);
      if input.name in q {
        assert RequiresOf(m, input.name) == input.requires_ && ConflictsOf(m, input.name) == input.conflictsWith;
      }
    }
  }

  lemma ExtendByRequired(inputs: seq<CommandInput>, q: set<text>, more: set<text>)
    requires DistinctNames(inputs) && RelationsOnCommandLine(inputs)
    requires q <= CommandLineNames(inputs) && PresenceOk(inputs, q) && more !! CommandLineNames(inputs)
    ensures var s := q + RequiredNames(ByName(inputs)) + more;
            ClosedUnder(ByName(inputs), s) && ConflictFree(ByName(inputs), s)
  {
    var m := ByName(inputs);
    var s := q + RequiredNames(m) + more;
    forall n | n in s ensures Extended(inputs, q, n) {
      NameExtended(inputs, q, more, n);
    }
    forall n, i | n in s && 0 <= i < |RequiresOf(m, n)| ensures RequiresOf(m, n)[i] in s {
      RelationTargets(inputs, q, n);
    }
    forall n, i | n in s && 0 <= i < |ConflictsOf(m, n)| ensures ConflictsOf(m, n)[i] !in s {
      RelationTargets(inputs, q, n);
      assert ConflictsOf(m, n)[i] in CommandLineNames(inputs) && ConflictsOf(m, n)[i] !in q;
    }
  }

  /** A name of the extended set is either supplied on the command line or has no relations at all. */
  ghost predicate Extended(inputs: seq<CommandInput>, q: set<text>, n: text)
    requires DistinctNames(inputs)
  {
    (n in CommandLineNames(inputs) ==> n in q)
    && (n !in CommandLineNames(inputs) ==>
          RequiresOf(ByName(inputs), n) == [] && ConflictsOf(ByName(inputs), n) == [])
  }

  lemma NameExtended(inputs: seq<CommandInput>, q: set<text>, more: set<text>, n: text)
    requires DistinctNames(inputs) && RelationsOnCommandLine(inputs)
    requires PresenceOk(inputs, q) && more !! CommandLineNames(inputs)
    requires n in q + RequiredNames(ByName(inputs)) + more
    ensures Extended(inputs, q, n)
  {
    var m := ByName(inputs);
    if n in m {
      var k :| 0 <= k < |inputs| && inputs[k].name == n && m[n] == inputs[k];
      if CommandLine(inputs[k]) {
        assert InputPresenceOk(inputs[k], q);
      } else {
        NotCommandLine(inputs, k);
      }
    }
  }

  /** Where the relations of a supplied name lead. */
  lemma RelationTargets(inputs: seq<CommandInput>, q: set<text>, n: text)
    requires DistinctNames(inputs) && RelationsOnCommandLine(inputs)
    requires PresenceOk(inputs, q) && Extended(inputs, q, n)
    ensures forall i :: 0 <= i < |RequiresOf(ByName(inputs), n)| ==> RequiresOf(ByName(inputs), n)[i] in q
    ensures forall i :: 0 <= i < |ConflictsOf(ByName(inputs), n)| ==>
                          ConflictsOf(ByName(inputs), n)[i] in CommandLineNames(inputs) && ConflictsOf(ByName(inputs), n)[i] !in q
  {
    if n in CommandLineNames(inputs) {
      var k :| 0 <= k < |inputs| && CommandLine(inputs[k]) && inputs[k].name == n;
      assert InputPresenceOk(inputs[k], q);
    }
  }

  /** Around command-line names, satisfiable means some presence set passes the parser. */
  lemma SatisfiableIsPresentable(inputs: seq<CommandInput>, names: set<text>)
    requires DistinctNames(inputs) && RelationsOnCommandLine(inputs)
    ensures Satisfiable(ByName(inputs), RequiredNames(ByName(inputs)) + names)
       <==> Presentable(inputs, names * CommandLineNames(inputs))
  {
    var m, cli := ByName(inputs), CommandLineNames(inputs);
    if s :| RequiredNames(m) + names <= s && ClosedUnder(m, s) && ConflictFree(m, s) {
      PresentableFrom(inputs, names, s);
    }
    if q :| names * cli <= q && q <= cli && PresenceOk(inputs, q) {
      SatisfiableFrom(inputs, names, q);
    }
  }

  lemma PresentableFrom(inputs: seq<CommandInput>, names: set<text>, s: set<text>)
    requires DistinctNames(inputs) && RelationsOnCommandLine(inputs)
    requires RequiredNames(ByName(inputs)) + names <= s && ClosedUnder(ByName(inputs), s) && ConflictFree(ByName(inputs), s)
    ensures Presentable(inputs, names * CommandLineNames(inputs))
  {
    RestrictToCommandLine(inputs, s);
    var q := s * CommandLineNames(inputs);
    assert names * CommandLineNames(inputs) <= q && q <= CommandLineNames(inputs);
  }

  lemma SatisfiableFrom(inputs: seq<CommandInput>, names: set<text>, q: set<text>)
    requires DistinctNames(inputs) && RelationsOnCommandLine(inputs)
    requires names * CommandLineNames(inputs) <= q && q <= CommandLineNames(inputs) && PresenceOk(inputs, q)
    ensures Satisfiable(ByName(inputs), RequiredNames(ByName(inputs)) + names)
  {
    var more := names - CommandLineNames(inputs);
    ExtendByRequired(inputs, q, more);
    var s := q + RequiredNames(ByName(inputs)) + more;
    assert RequiredNames(ByName(inputs)) + names <= s;
  }

  /** The required inputs, and each input with them, can pass the parser's presence checks. */
  ghost predicate AllPresentable(inputs: seq<CommandInput>) {
    Presentable(inputs, {})
    && forall k :: 0 <= k < |inputs| && CommandLine(inputs[k]) ==> Presentable(inputs, {inputs[k].name})
  }

  /** The static check is exact about the parser's required, requires and conflicts checks. */
  lemma StaticCheckIsExact(inputs: seq<CommandInput>)
    requires DistinctNames(inputs) && RelationsOnCommandLine(inputs)
    ensures AllSatisfiable(ByName(inputs)) <==> AllPresentable(inputs)
  {
    var m, cli := ByName(inputs), CommandLineNames(inputs);
    SatisfiableIsPresentable(inputs, {});
    assert RequiredNames(m) + {} == RequiredNames(m) && {} * cli == {};
    forall k | 0 <= k < |inputs|
      ensures CommandLine(inputs[k]) ==>
                (Presentable(inputs, {inputs[k].name}) <==> Satisfiable(m, RequiredNames(m) + {inputs[k].name}))
      ensures !CommandLine(inputs[k]) ==>
                (Presentable(inputs, {}) <==> Satisfiable(m, RequiredNames(m) + {inputs[k].name}))
      ensures inputs[k].required ==> RequiredNames(m) + {inputs[k].name} == RequiredNames(m)
    {
      SatisfiableIsPresentable(inputs, {inputs[k].name});
      if CommandLine(inputs[k]) {
        assert {inputs[k].name} * cli == {inputs[k].name};
      } else {
        NotCommandLine(inputs, k);
        assert {inputs[k].name} * cli == {};
      }
    }
    forall n | n in m ensures exists k :: 0 <= k < |inputs| && inputs[k].name == n && m[n] == inputs[k] {}
  }

  lemma NotCommandLine(inputs: seq<CommandInput>, k: nat)
    requires DistinctNames(inputs) && k < |inputs| && !CommandLine(inputs[k])
    ensures inputs[k].name !in CommandLineNames(inputs)
  {
    forall j | 0 <= j < |inputs| && CommandLine(inputs[j]) ensures inputs[j].name != inputs[k].name {
      assert j != k;
      assert if j < k then inputs[j].name != inputs[k].name else inputs[k].name != inputs[j].name;
    }
  }
}
