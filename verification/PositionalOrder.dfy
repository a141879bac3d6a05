/** What the static check leaves out: a positional can only be supplied after the ones before it. */
module PositionalOrder {
  import opened Bytes
  import opened Inputs
  import opened Arguments
  import opened Invocations
  import opened Relations
  import opened Usability
  import Escaping

  // ----- which sets of inputs some argv supplies

  function SampleAssignment(inputs: seq<CommandInput>, names: set<text>): Assignment
    requires DistinctNames(inputs)
  {
    map n | n in names :: if n in ByName(inputs) then [SampleValue(ByName(inputs)[n])] else []
  }

  /** Exactly the gap-free presence sets are supplied by some argv: values never stand in the way. */
  lemma SuppliedExactly(command: Command, names: set<text>)
    requires Declared(command) && Escaping.GoCategoryC(command.category)
    ensures (exists args :: Parse(command, args).Ok? && Parse(command, args).value.provided == names)
       <==> names <= CommandLineNames(command.inputs) && PresenceOk(command.inputs, names)
            && GapFree(Of(command.inputs, Argument), names)
  {
    ArgvForAssignment(command, names);
    if names <= CommandLineNames(command.inputs) && PresenceOk(command.inputs, names)
       && GapFree(Of(command.inputs, Argument), names) {
      var a := SampleAssignment(command.inputs, names);
      assert a.Keys == names;
      SampleIsValid(command, names);
    }
    if a :| ValidAssignment(command, a) && a.Keys == names {
      KnownExactly(command.inputs, names);
    }
  }

  lemma SampleIsValid(command: Command, names: set<text>)
    requires Declared(command) && Escaping.GoCategoryC(command.category)
    requires names <= CommandLineNames(command.inputs) && PresenceOk(command.inputs, names)
    requires GapFree(Of(command.inputs, Argument), names)
    ensures ValidAssignment(command, SampleAssignment(command.inputs, names))
  {
    var a := SampleAssignment(command.inputs, names);
    assert a.Keys == names;
    KnownExactly(command.inputs, names);
    forall k | 0 <= k < |command.inputs| && CommandLine(command.inputs[k]) && command.inputs[k].name in a
      ensures ValidValues(command.inputs[k], a[command.inputs[k].name], command.category)
    {
      assert a[command.inputs[k].name] == [SampleValue(command.inputs[k])];
      SampleAccepted(command.inputs[k], command.category);
    }
  }

  /** Some argv parses and supplies at least these inputs. */
  ghost predicate Supplied(command: Command, names: set<text>) {
    exists args :: Parse(command, args).Ok? && names <= Parse(command, args).value.provided
  }

  /** The promise of the static check, taken to argv: some invocation is valid, and each input has one that supplies it. */
  ghost predicate EveryInputUsable(command: Command) {
    Supplied(command, {})
    && forall k :: 0 <= k < |command.inputs| && CommandLine(command.inputs[k]) ==> Supplied(command, {command.inputs[k].name})
  }

  // ----- the order of positionals as relations

  /** The inputs with each positional also requiring the one before it. */
  function Ordered(inputs: seq<CommandInput>, previous: Option<text>): (r: seq<CommandInput>)
    ensures |r| == |inputs|
    ensures forall k :: 0 <= k < |inputs| ==>
              r[k].name == inputs[k].name && r[k].source == inputs[k].source && r[k].required == inputs[k].required
              && r[k].conflictsWith == inputs[k].conflictsWith
    ensures DistinctNames(inputs) ==> DistinctNames(r)
  {
    if inputs == [] then []
    else if inputs[0].source != Argument then [inputs[0]] + Ordered(inputs[1..], previous)
    else
      var head := if previous.Some? then inputs[0].(requires_ := inputs[0].requires_ + [previous.value]) else inputs[0];
      [head] + Ordered(inputs[1..], Some(inputs[0].name))
  }

  /** Every supplied positional comes with the one before it. */
  predicate Chained(inputs: seq<CommandInput>, previous: Option<text>, names: set<text>) {
    inputs != [] ==>
      if inputs[0].source != Argument then Chained(inputs[1..], previous, names)
      else (previous.Some? && inputs[0].name in names ==> previous.value in names)
           && Chained(inputs[1..], Some(inputs[0].name), names)
  }

  lemma {:induction false} OrderedPresence(inputs: seq<CommandInput>, previous: Option<text>, names: set<text>)
    ensures PresenceOk(Ordered(inputs, previous), names) <==> PresenceOk(inputs, names) && Chained(inputs, previous, names)
  {
    if inputs != [] {
      var ordered := Ordered(inputs, previous);
      var next := if inputs[0].source == Argument then Some(inputs[0].name) else previous;
      OrderedPresence(inputs[1..], next, names);
      PresenceSplit(inputs, names);
      PresenceSplit(ordered, names);
      assert ordered[1..] == Ordered(inputs[1..], next);
      HeadPresence(inputs[0], ordered[0], previous, names);
    }
  }

  lemma PresenceSplit(inputs: seq<CommandInput>, names: set<text>)
    requires inputs != []
    ensures PresenceOk(inputs, names) <==>
              (CommandLine(inputs[0]) ==> InputPresenceOk(inputs[0], names)) && PresenceOk(inputs[1..], names)
  {
    assert forall k :: 1 <= k < |inputs| ==> inputs[k] == inputs[1..][k - 1];
  }

  lemma HeadPresence(input: CommandInput, ordered: CommandInput, previous: Option<text>, names: set<text>)
    requires ordered == if input.source == Argument && previous.Some?
                        then input.(requires_ := input.requires_ + [previous.value]) else input
    ensures CommandLine(ordered) == CommandLine(input)
    ensures CommandLine(input) ==>
              (InputPresenceOk(ordered, names) <==>
                 InputPresenceOk(input, names)
                 && (input.source == Argument && previous.Some? && input.name in names ==> previous.value in names))
  {
    if input.source == Argument && previous.Some? {
      var n := |input.requires_|;
      assert ordered.requires_[n] == previous.value;
      assert forall i :: 0 <= i < n ==> ordered.requires_[i] == input.requires_[i];
    }
  }

  predicate Unbroken(positionals: seq<CommandInput>, names: set<text>) {
    forall i, j :: 0 <= i < j < |positionals| && positionals[j].name in names ==> positionals[i].name in names
  }

  /** Whoever is present among the positionals needs the named input too. */
  predicate AllNeed(positionals: seq<CommandInput>, needed: text, names: set<text>) {
    forall j :: 0 <= j < |positionals| && positionals[j].name in names ==> needed in names
  }

  lemma AllNeedCons(first: CommandInput, rest: seq<CommandInput>, needed: text, names: set<text>)
    ensures AllNeed([first] + rest, needed, names) <==> (first.name in names ==> needed in names) && AllNeed(rest, needed, names)
  {
    var all := [first] + rest;
    assert all[0] == first;
    assert forall j :: 0 <= j < |rest| ==> all[j + 1] == rest[j];
  }

  lemma {:induction false} ChainedIsUnbroken(inputs: seq<CommandInput>, previous: Option<text>, names: set<text>)
    ensures Chained(inputs, previous, names) <==>
              Unbroken(Of(inputs, Argument), names)
              && (previous.Some? ==> AllNeed(Of(inputs, Argument), previous.value, names))
  {
    if inputs == [] {
      return;
    }
    var rest := Of(inputs[1..], Argument);
    if inputs[0].source != Argument {
      ChainedIsUnbroken(inputs[1..], previous, names);
      assert Of(inputs, Argument) == rest;
    } else {
      ChainedIsUnbroken(inputs[1..], Some(inputs[0].name), names);
      assert Of(inputs, Argument) == [inputs[0]] + rest;
      UnbrokenCons(inputs[0], rest, names);
      if previous.Some? {
        AllNeedCons(inputs[0], rest, previous.value, names);
      }
    }
  }

  lemma UnbrokenCons(first: CommandInput, rest: seq<CommandInput>, names: set<text>)
    ensures Unbroken([first] + rest, names) <==>
              Unbroken(rest, names) && AllNeed(rest, first.name, names)
  {
    var all := [first] + rest;
    assert all[0] == first;
    assert forall j :: 0 <= j < |rest| ==> all[j + 1] == rest[j];
    assert forall j :: 0 < j < |all| ==> all[j] == rest[j - 1];
  }

  /** With the order added, passing the presence checks is being supplied by some argv. */
  lemma OrderedPresenceIsSupplied(command: Command, names: set<text>)
    requires Declared(command) && Escaping.GoCategoryC(command.category) && names <= CommandLineNames(command.inputs)
    ensures PresenceOk(Ordered(command.inputs, None), names)
       <==> exists args :: Parse(command, args).Ok? && Parse(command, args).value.provided == names
  {
    var positionals := Of(command.inputs, Argument);
    OrderedPresence(command.inputs, None, names);
    ChainedIsUnbroken(command.inputs, None, names);
    SuppliedExactly(command, names);
    GapFreeIsUnbroken(positionals, names);
  }

  lemma GapFreeIsUnbroken(positionals: seq<CommandInput>, names: set<text>)
    requires OnlyLastRepeatable(positionals)
    ensures GapFree(positionals, names) <==> Unbroken(positionals, names)
  {
  }

  lemma {:induction false} OrderedRelations(inputs: seq<CommandInput>, previous: Option<text>, cli: set<text>)
    requires forall k :: 0 <= k < |inputs| ==>
      (!CommandLine(inputs[k]) ==> inputs[k].requires_ == [] && inputs[k].conflictsWith == [])
      && (forall r :: 0 <= r < |inputs[k].requires_| ==> inputs[k].requires_[r] in cli)
    requires previous.Some? ==> previous.value in cli
    requires forall k :: 0 <= k < |inputs| && CommandLine(inputs[k]) ==> inputs[k].name in cli
    ensures forall k :: 0 <= k < |inputs| ==>
      (!CommandLine(inputs[k]) ==> Ordered(inputs, previous)[k].requires_ == [])
      && (forall r :: 0 <= r < |Ordered(inputs, previous)[k].requires_| ==> Ordered(inputs, previous)[k].requires_[r] in cli)
  {
    if inputs != [] {
      var next := if inputs[0].source == Argument then Some(inputs[0].name) else previous;
      var rest, ordered := inputs[1..], Ordered(inputs, previous);
      assert forall k :: 0 <= k < |rest| ==> rest[k] == inputs[k + 1];
      OrderedRelations(rest, next, cli);
      assert ordered[1..] == Ordered(rest, next);
      assert forall k :: 1 <= k < |inputs| ==> ordered[k] == Ordered(rest, next)[k - 1];
    }
  }

  lemma OrderedStaysOnCommandLine(inputs: seq<CommandInput>)
    requires DistinctNames(inputs) && RelationsOnCommandLine(inputs)
    ensures DistinctNames(Ordered(inputs, None)) && RelationsOnCommandLine(Ordered(inputs, None))
    ensures CommandLineNames(Ordered(inputs, None)) == CommandLineNames(inputs)
  {
    var ordered := Ordered(inputs, None);
    OrderedRelations(inputs, None, CommandLineNames(inputs));
    assert forall k :: 0 <= k < |inputs| ==> CommandLine(ordered[k]) == CommandLine(inputs[k]);
  }

  // ----- the exact condition

  lemma PresentableIsSupplied(command: Command, names: set<text>)
    requires Declared(command) && RelationsOnCommandLine(command.inputs) && Escaping.GoCategoryC(command.category)
    ensures Presentable(Ordered(command.inputs, None), names) <==> Supplied(command, names)
  {
    var inputs, ordered := command.inputs, Ordered(command.inputs, None);
    OrderedStaysOnCommandLine(inputs);
    if s :| names <= s && s <= CommandLineNames(ordered) && PresenceOk(ordered, s) {
      OrderedPresenceIsSupplied(command, s);
    }
    if args :| Parse(command, args).Ok? && names <= Parse(command, args).value.provided {
      var s := Parse(command, args).value.provided;
      SuppliedExactly(command, s);
      OrderedPresenceIsSupplied(command, s);
    }
  }

  lemma AllPresentableIsUsable(command: Command)
    requires Declared(command) && RelationsOnCommandLine(command.inputs) && Escaping.GoCategoryC(command.category)
    ensures AllPresentable(Ordered(command.inputs, None)) <==> EveryInputUsable(command)
  {
    PresentableIsSupplied(command, {});
    forall k | 0 <= k < |command.inputs|
      ensures Presentable(Ordered(command.inputs, None), {command.inputs[k].name}) <==> Supplied(command, {command.inputs[k].name})
    {
      PresentableIsSupplied(command, {command.inputs[k].name});
    }
  }

  /** Every input can be supplied by some argv exactly when the static check accepts the declarations in which
      each positional also requires its predecessor. */
  lemma UsableExactly(command: Command)
    requires Declared(command) && RelationsOnCommandLine(command.inputs) && Escaping.GoCategoryC(command.category)
    ensures EveryInputUsable(command) <==> AllSatisfiable(ByName(Ordered(command.inputs, None)))
  {
    OrderedStaysOnCommandLine(command.inputs);
    StaticCheckIsExact(Ordered(command.inputs, None));
    AllPresentableIsUsable(command);
  }

  /** The static check never refuses a command whose inputs are all usable. */
  lemma UsableImpliesAccepted(command: Command)
    requires Declared(command) && RelationsOnCommandLine(command.inputs) && Escaping.GoCategoryC(command.category)
    requires EveryInputUsable(command)
    ensures AllSatisfiable(ByName(command.inputs))
  {
    StaticCheckIsExact(command.inputs);
    SuppliedIsPresentable(command, {});
    forall k | 0 <= k < |command.inputs| && CommandLine(command.inputs[k])
      ensures Presentable(command.inputs, {command.inputs[k].name})
    {
      SuppliedIsPresentable(command, {command.inputs[k].name});
    }
  }

  lemma SuppliedIsPresentable(command: Command, names: set<text>)
    requires Declared(command) && Escaping.GoCategoryC(command.category) && Supplied(command, names)
    ensures Presentable(command.inputs, names)
  {
    var args :| Parse(command, args).Ok? && names <= Parse(command, args).value.provided;
    SuppliedExactly(command, Parse(command, args).value.provided);
  }

  // ----- declarations that show the difference

  /** `[a] [b]`, both optional, where only b has a relation: it conflicts with a. */
  predicate SecondConflictsWithFirst(inputs: seq<CommandInput>) {
    |inputs| == 2 && inputs[0].name != inputs[1].name
    && (forall k :: 0 <= k < 2 ==> inputs[k].source == Argument && !inputs[k].required && inputs[k].requires_ == [])
    && inputs[0].conflictsWith == [] && inputs[1].conflictsWith == [inputs[0].name]
  }

  /** The relations are valid and the static check accepts them, and yet no argv ever supplies b. */
  lemma AcceptedButUnusable(command: Command)
    requires Declared(command) && SecondConflictsWithFirst(command.inputs)
    ensures forall k :: 0 <= k < 2 ==> RelationsValid(command.inputs[k], ByName(command.inputs))
    ensures AllSatisfiable(ByName(command.inputs))
    ensures !Supplied(command, {command.inputs[1].name})
  {
    var a, b, m := command.inputs[0], command.inputs[1], ByName(command.inputs);
    assert ConflictOk(b, a.name, m);
    TwoSatisfiable(command.inputs);
    forall args | Parse(command, args).Ok? ensures b.name !in Parse(command, args).value.provided {
      var v := ParseIsValid(command, args);
      TwoNeverTogether(command.inputs, v.Keys);
    }
  }

  lemma TwoSatisfiable(inputs: seq<CommandInput>)
    requires SecondConflictsWithFirst(inputs)
    ensures AllSatisfiable(ByName(inputs))
  {
    var m := ByName(inputs);
    assert RequiredNames(m) == {};
    forall n | n in m ensures Satisfiable(m, RequiredNames(m) + {n}) {
      var s := {n};
      assert RequiredNames(m) + {n} <= s && ClosedUnder(m, s) && ConflictFree(m, s);
    }
    var none: set<text> := {};
    assert RequiredNames(m) <= none && ClosedUnder(m, none) && ConflictFree(m, none);
  }

  lemma TwoNeverTogether(inputs: seq<CommandInput>, names: set<text>)
    requires SecondConflictsWithFirst(inputs) && PresenceOk(inputs, names) && GapFree(Of(inputs, Argument), names)
    ensures inputs[1].name !in names
  {
    var positionals := Of(inputs, Argument);
    assert Of(inputs[1..][1..], Argument) == [];
    assert Of(inputs[1..], Argument) == [inputs[1]];
    assert positionals[0] == inputs[0] && positionals[1] == inputs[1];
    assert InputPresenceOk(inputs[1], names);
    assert inputs[1].conflictsWith[0] == inputs[0].name;
  }

  /** Such declarations meet all the rules gathered in Declared. */
  lemma SuchDeclarationsExist(c: Escaping.Category) returns (command: Command)
    ensures Declared(command) && SecondConflictsWithFirst(command.inputs) && command.category == c
  {
    var a := CommandInput([97], Argument, false, TextKind, false, [], None, None, None, [], []);
    var b := CommandInput([98], Argument, false, TextKind, false, [], None, None, None, [], [[97]]);
    command := Command([a, b], c);
    assert a.name[0] != b.name[0];
    assert ValidName(a) && ValidName(b) && DeclaredInput(a, c) && DeclaredInput(b, c);
    assert forall i :: 0 <= i < |Of([a, b], Argument)| ==> Of([a, b], Argument)[i] in [a, b];
    assert forall x :: x in [a, b] ==> x == a || x == b;
  }
}
