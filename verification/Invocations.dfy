/** What the argv parser accepts: the valid assignments of values to inputs, each of them, and nothing else. */
module Invocations {
  import opened Bytes
  import opened Inputs
  import opened Arguments
  import Escaping

  /** The values an invocation supplies, by input name. */
  type Assignment = map<text, seq<text>>

  predicate ValidValues(input: CommandInput, values: seq<text>, c: Escaping.Category) {
    values != [] && (!input.repeatable ==> |values| == 1)
    && forall i :: 0 <= i < |values| ==> Accepts(input, values[i], c)
  }

  /** The presence rules of one input. */
  predicate InputPresenceOk(input: CommandInput, names: set<text>) {
    (input.required ==> input.name in names)
    && (input.name in names ==>
          (forall i :: 0 <= i < |input.requires_| ==> input.requires_[i] in names)
          && (forall i :: 0 <= i < |input.conflictsWith| ==> input.conflictsWith[i] !in names))
  }

  /** A set of supplied names the parser's required, requires and conflicts checks let through. */
  predicate PresenceOk(inputs: seq<CommandInput>, names: set<text>) {
    forall k :: 0 <= k < |inputs| && CommandLine(inputs[k]) ==> InputPresenceOk(inputs[k], names)
  }

  /** A positional can only be supplied after every earlier one, and none comes after a repeatable one. */
  predicate GapFree(positionals: seq<CommandInput>, names: set<text>) {
    forall i, j :: 0 <= i < j < |positionals| && positionals[j].name in names ==>
                     positionals[i].name in names && !positionals[i].repeatable
  }

  predicate KnownNames(inputs: seq<CommandInput>, names: set<text>) {
    forall n :: n in names ==> exists k :: 0 <= k < |inputs| && CommandLine(inputs[k]) && inputs[k].name == n
  }

  predicate ValuesOk(command: Command, a: Assignment) {
    forall k :: 0 <= k < |command.inputs| && CommandLine(command.inputs[k]) && command.inputs[k].name in a ==>
                  ValidValues(command.inputs[k], a[command.inputs[k].name], command.category)
  }

  predicate ValidAssignment(command: Command, a: Assignment) {
    KnownNames(command.inputs, a.Keys) && ValuesOk(command, a)
    && PresenceOk(command.inputs, a.Keys) && GapFree(Of(command.inputs, Argument), a.Keys)
  }

  // ----- the two loops after the scan

  /** The catalog defaults of the inputs that were not supplied. */
  function DefaultValues(inputs: seq<CommandInput>, provided: set<text>): Assignment {
    if inputs == [] then map[]
    else
      (if CommandLine(inputs[0]) && inputs[0].name !in provided && inputs[0].default.Some?
       then map[inputs[0].name := [inputs[0].default.value]] else map[])
      + DefaultValues(inputs[1..], provided)
  }

  function WithDefaults(inputs: seq<CommandInput>, p: Parsed): Parsed {
    var d := DefaultValues(inputs, p.provided);
    p.(values := p.values + d, defaults := p.defaults + d.Keys)
  }

  lemma DefaultsStep(inputs: seq<CommandInput>, p: Parsed)
    requires inputs != []
    ensures
      var input := inputs[0];
      var p' := if CommandLine(input) && input.name !in p.provided && input.default.Some? then Defaulted(p, input) else p;
      WithDefaults(inputs, p) == WithDefaults(inputs[1..], p')
  {
    var input, rest := inputs[0], DefaultValues(inputs[1..], p.provided);
    if CommandLine(input) && input.name !in p.provided && input.default.Some? {
      var one := map[input.name := [input.default.value]];
      assert p.values + (one + rest) == p.values[input.name := one[input.name]] + rest;
      assert p.defaults + (one + rest).Keys == p.defaults + {input.name} + rest.Keys;
    } else {
      assert map[] + rest == rest;
    }
  }

  predicate RequiredProvided(inputs: seq<CommandInput>, names: set<text>) {
    forall k :: 0 <= k < |inputs| && CommandLine(inputs[k]) && inputs[k].required ==> inputs[k].name in names
  }

  lemma {:induction false} FillExactly(inputs: seq<CommandInput>, p: Parsed)
    ensures FillDefaults(inputs, p).Ok? <==> RequiredProvided(inputs, p.provided)
    ensures FillDefaults(inputs, p).Ok? ==> FillDefaults(inputs, p).value == WithDefaults(inputs, p)
  {
    if inputs != [] {
      var input := inputs[0];
      var p' := if CommandLine(input) && input.name !in p.provided && input.default.Some? then Defaulted(p, input) else p;
      FillExactly(inputs[1..], p');
      DefaultsStep(inputs, p);
      assert forall k :: 1 <= k < |inputs| ==> inputs[k] == inputs[1..][k - 1];
    }
  }

  lemma {:induction false} AbsentExactly(names: seq<text>, provided: set<text>)
    ensures FirstAbsent(names, provided).None? <==> forall i :: 0 <= i < |names| ==> names[i] in provided
  {
    if names != [] {
      AbsentExactly(names[1..], provided);
      assert forall i :: 1 <= i < |names| ==> names[i] == names[1..][i - 1];
    }
  }

  lemma {:induction false} PresentExactly(names: seq<text>, provided: set<text>)
    ensures FirstPresent(names, provided).None? <==> forall i :: 0 <= i < |names| ==> names[i] !in provided
  {
    if names != [] {
      PresentExactly(names[1..], provided);
      assert forall i :: 1 <= i < |names| ==> names[i] == names[1..][i - 1];
    }
  }

  predicate RelationsMet(inputs: seq<CommandInput>, names: set<text>) {
    forall k :: 0 <= k < |inputs| && CommandLine(inputs[k]) && inputs[k].name in names ==>
                  RelationError(inputs[k], names).None?
  }

  lemma {:induction false} CheckExactly(inputs: seq<CommandInput>, p: Parsed)
    ensures CheckRelations(inputs, p).Ok? <==> RelationsMet(inputs, p.provided)
    ensures CheckRelations(inputs, p).Ok? ==> CheckRelations(inputs, p).value == p
  {
    if inputs != [] {
      CheckExactly(inputs[1..], p);
      assert forall k :: 1 <= k < |inputs| ==> inputs[k] == inputs[1..][k - 1];
    }
  }

  /** The presence checks pass exactly when the presence rules hold, and then only defaults are added. */
  lemma FinishExactly(command: Command, p: Parsed)
    ensures Finish(command, p).Ok? <==> PresenceOk(command.inputs, p.provided)
    ensures Finish(command, p).Ok? ==> Finish(command, p).value == WithDefaults(command.inputs, p)
  {
    FillExactly(command.inputs, p);
    CheckExactly(command.inputs, WithDefaults(command.inputs, p));
    forall k | 0 <= k < |command.inputs| && CommandLine(command.inputs[k])
      ensures InputPresenceOk(command.inputs[k], p.provided) <==>
                (command.inputs[k].required ==> command.inputs[k].name in p.provided)
                && (command.inputs[k].name in p.provided ==> RelationError(command.inputs[k], p.provided).None?)
    {
      AbsentExactly(command.inputs[k].requires_, p.provided);
      PresentExactly(command.inputs[k].conflictsWith, p.provided);
    }
  }

  /** What a valid assignment parses to: its values, marked as provided, and the remaining defaults, marked as such. */
  function Effective(command: Command, a: Assignment, marker: bool): Parsed {
    WithDefaults(command.inputs, Parsed(a, a.Keys, {}, marker))
  }

  /** What it means that p carries the values of a: nothing else is provided, and only catalog defaults are added. */
  ghost predicate Carries(inputs: seq<CommandInput>, p: Parsed, a: Assignment, marker: bool) {
    && p.provided == a.Keys && p.marker == marker
    && p.values.Keys == a.Keys + p.defaults
    && (forall n :: n in a ==> p.values[n] == a[n])
    && (forall n :: n in p.defaults ==> n !in a)
    && (forall n :: n in p.defaults ==>
          exists k :: 0 <= k < |inputs| && CommandLine(inputs[k]) && inputs[k].name == n && inputs[k].default.Some?)
    && (forall k :: 0 <= k < |inputs| && CommandLine(inputs[k]) && inputs[k].default.Some? && inputs[k].name !in a ==>
          inputs[k].name in p.defaults && p.values[inputs[k].name] == [inputs[k].default.value])
  }

  lemma {:induction false} DefaultsExactly(inputs: seq<CommandInput>, provided: set<text>)
    requires DistinctNames(inputs)
    ensures
      var d := DefaultValues(inputs, provided);
      && d.Keys !! provided
      && (forall n :: n in d ==>
            exists k :: 0 <= k < |inputs| && CommandLine(inputs[k]) && inputs[k].name == n && inputs[k].default.Some?)
      && (forall k :: 0 <= k < |inputs| && CommandLine(inputs[k]) && inputs[k].default.Some? && inputs[k].name !in provided ==>
            inputs[k].name in d && d[inputs[k].name] == [inputs[k].default.value])
  {
    if inputs != [] {
      DefaultsExactly(inputs[1..], provided);
      var rest := DefaultValues(inputs[1..], provided);
      assert forall k :: 1 <= k < |inputs| ==> inputs[k] == inputs[1..][k - 1];
      forall n | n in rest ensures n != inputs[0].name {
        var k :| 0 <= k < |inputs[1..]| && inputs[1..][k].name == n;
        assert inputs[k + 1].name == n;
      }
      forall n | n in DefaultValues(inputs, provided)
        ensures exists k :: 0 <= k < |inputs| && CommandLine(inputs[k]) && inputs[k].name == n && inputs[k].default.Some?
      {
        if n in rest {
          var k :| 0 <= k < |inputs[1..]| && CommandLine(inputs[1..][k]) && inputs[1..][k].name == n && inputs[1..][k].default.Some?;
          assert inputs[k + 1] == inputs[1..][k];
        }
      }
    }
  }

  lemma EffectiveCarries(command: Command, a: Assignment, marker: bool)
    requires DistinctNames(command.inputs)
    ensures Carries(command.inputs, Effective(command, a, marker), a, marker)
  {
    DefaultsExactly(command.inputs, a.Keys);
  }

  // ----- printing

  /** `--name=value`, `--name value`, or `--name` alone for a boolean. */
  datatype Writing = Joined | Spaced | Bare

  /** How to write each occurrence; only honoured where the parser reads it so. */
  type Style = (text, text) -> Writing

  predicate Separable(input: CommandInput, value: text) {
    input.kind != BooleanKind && !(value != [] && value[0] == 45)
  }

  function Occurrence(input: CommandInput, value: text, style: Style): seq<text> {
    if style(input.name, value) == Spaced && Separable(input, value) then [input.name, value]
    else if style(input.name, value) == Bare && input.kind == BooleanKind && value == [116, 114, 117, 101] then [input.name]
    else [input.name + [61] + value]
  }

  function Occurrences(input: CommandInput, values: seq<text>, style: Style): seq<text> {
    if values == [] then [] else Occurrence(input, values[0], style) + Occurrences(input, values[1..], style)
  }

  function PrintFlags(inputs: seq<CommandInput>, a: Assignment, style: Style): seq<text> {
    if inputs == [] then []
    else
      (if inputs[0].source == Flag then Occurrences(inputs[0], Get(a, inputs[0].name), style) else [])
      + PrintFlags(inputs[1..], a, style)
  }

  function PrintPositionals(positionals: seq<CommandInput>, a: Assignment): seq<text> {
    if positionals == [] then [] else Get(a, positionals[0].name) + PrintPositionals(positionals[1..], a)
  }

  /** Flags first, then `--`, then the positionals in order. */
  function Print(command: Command, a: Assignment, style: Style): seq<text> {
    PrintFlags(command.inputs, a, style) + ([[45, 45]] + PrintPositionals(Of(command.inputs, Argument), a))
  }

  // ----- parsing undoes printing

  lemma {:induction false} FlagTableHas(inputs: seq<CommandInput>, k: nat)
    requires DistinctNames(inputs) && k < |inputs| && inputs[k].source == Flag
    ensures inputs[k].name in FlagTable(inputs) && FlagTable(inputs)[inputs[k].name] == inputs[k]
  {
    if k < |inputs| - 1 {
      FlagTableHas(inputs[..|inputs| - 1], k);
      assert inputs[|inputs| - 1].name != inputs[k].name;
    }
  }

  lemma FlagNameShape(name: text, value: text)
    requires HasPrefix(name, DASHDASH) && ReferenceName(name[2..])
    ensures EQUALS !in name && name != DASHDASH
    ensures var token := name + [EQUALS] + value;
            IsFlagToken(token) && token != DASHDASH && FlagName(token) == name
            && HasInlineValue(token) && InlineValue(token) == value
    ensures IsFlagToken(name) && FlagName(name) == name && !HasInlineValue(name)
  {
    forall i | 0 <= i < |name| ensures name[i] != EQUALS {
      if i < 2 {
        assert name[i] == name[..2][i];
      } else {
        assert name[i] == name[2..][i - 2];
      }
    }
    IndexOfAfter(name, EQUALS, value);
    var token := name + [EQUALS] + value;
    assert token[..|name|] == name && token[|name| + 1..] == value;
    assert token[..2] == name[..2];
    assert |name| > 2;
  }

  /** Every way of writing an occurrence means the same at any point of the scan where flags are read. */
  lemma OccurrenceParsed(command: Command, k: nat, value: text, style: Style, st: State, rest: seq<text>)
    requires DistinctNames(command.inputs) && k < |command.inputs|
    requires command.inputs[k].source == Flag && ValidName(command.inputs[k]) && !st.positionalOnly
    ensures
      var input := command.inputs[k];
      var added := Add(st.parsed, input, value, command.category);
      Scan(command, st, Occurrence(input, value, style) + rest)
      == if added.Err? then Err(added.error) else Scan(command, st.(parsed := added.value), rest)
  {
    var input := command.inputs[k];
    var tokens := Occurrence(input, value, style);
    var args := tokens + rest;
    FlagTableHas(command.inputs, k);
    FlagNameShape(input.name, value);
    assert args[0] == tokens[0] && args[|tokens|..] == rest;
    if |tokens| == 2 {
      assert args[1] == value;
      assert FlagValue(input, args) == Ok((value, 2));
    } else if tokens[0] == input.name {
      assert FlagValue(input, args) == Ok((value, 1));
    } else {
      assert FlagValue(input, args) == Ok((value, 1));
    }
  }

  /** The state after all values of one input have been added. */
  function AppendedAll(p: Parsed, name: text, values: seq<text>): Parsed {
    p.(values := p.values[name := Get(p.values, name) + values], provided := p.provided + {name})
  }

  predicate CanAppend(p: Parsed, input: CommandInput, values: seq<text>, c: Escaping.Category) {
    values != [] && (forall i :: 0 <= i < |values| ==> Accepts(input, values[i], c))
    && (input.repeatable || (|values| == 1 && input.name !in p.provided))
  }

  lemma AppendOne(p: Parsed, input: CommandInput, values: seq<text>, c: Escaping.Category)
    requires CanAppend(p, input, values, c)
    ensures Add(p, input, values[0], c) == Ok(Appended(p, input.name, values[0]))
    ensures |values| == 1 ==> Appended(p, input.name, values[0]) == AppendedAll(p, input.name, values)
    ensures |values| > 1 ==>
              CanAppend(Appended(p, input.name, values[0]), input, values[1..], c)
              && AppendedAll(Appended(p, input.name, values[0]), input.name, values[1..]) == AppendedAll(p, input.name, values)
  {
    var name := input.name;
    if |values| == 1 {
      assert values == [values[0]];
    } else {
      assert Get(p.values, name) + values == Get(p.values, name) + [values[0]] + values[1..];
    }
  }

  lemma {:induction false} OccurrencesParsed(command: Command, k: nat, values: seq<text>, style: Style, st: State, rest: seq<text>)
    requires DistinctNames(command.inputs) && k < |command.inputs|
    requires command.inputs[k].source == Flag && ValidName(command.inputs[k]) && !st.positionalOnly
    requires CanAppend(st.parsed, command.inputs[k], values, command.category)
    ensures Scan(command, st, Occurrences(command.inputs[k], values, style) + rest)
         == Scan(command, st.(parsed := AppendedAll(st.parsed, command.inputs[k].name, values)), rest)
    decreases |values|
  {
    var input := command.inputs[k];
    var more := Occurrences(input, values[1..], style);
    Regroup(Occurrence(input, values[0], style), more, rest);
    OccurrenceParsed(command, k, values[0], style, st, more + rest);
    AppendOne(st.parsed, input, values, command.category);
    if |values| == 1 {
      assert more + rest == rest;
    } else {
      OccurrencesParsed(command, k, values[1..], style, st.(parsed := Appended(st.parsed, input.name, values[0])), rest);
    }
  }

  function NamesOf(inputs: seq<CommandInput>, source: InputSource, k: nat): set<text>
    requires k <= |inputs|
  {
    set i | 0 <= i < k && inputs[i].source == source :: inputs[i].name
  }

  /** The part of an assignment already scanned. */
  function Scanned(a: Assignment, names: set<text>, marker: bool): Parsed {
    Parsed(map n | n in a && n in names :: a[n], a.Keys * names, {}, marker)
  }

  lemma ScannedOneMore(a: Assignment, names: set<text>, name: text, marker: bool)
    requires name !in names
    ensures name in a ==> AppendedAll(Scanned(a, names, marker), name, a[name]) == Scanned(a, names + {name}, marker)
    ensures name !in a ==> Scanned(a, names, marker) == Scanned(a, names + {name}, marker)
  {
    if name in a {
      assert Get(Scanned(a, names, marker).values, name) + a[name] == a[name];
    }
  }

  lemma {:induction false} FlagsParsed(command: Command, a: Assignment, style: Style, k: nat, rest: seq<text>)
    requires Declared(command) && ValuesOk(command, a) && k <= |command.inputs|
    ensures Scan(command, State(Scanned(a, NamesOf(command.inputs, Flag, k), false), 0, false),
                 PrintFlags(command.inputs[k..], a, style) + rest)
         == Scan(command, State(Scanned(a, NamesOf(command.inputs, Flag, |command.inputs|), false), 0, false), rest)
    decreases |command.inputs| - k
  {
    if k == |command.inputs| {
      assert [] + rest == rest;
      return;
    }
    var more := PrintFlags(command.inputs[k + 1..], a, style);
    PrintFlagsNext(command.inputs, k, a, style, rest);
    FlagsParsed(command, a, style, k + 1, rest);
    FlagParsed(command, a, style, k, more + rest);
  }

  /** The tokens of one input, if it is a flag. */
  function PrintOne(input: CommandInput, a: Assignment, style: Style): seq<text> {
    if input.source == Flag then Occurrences(input, Get(a, input.name), style) else []
  }

  lemma PrintFlagsNext(inputs: seq<CommandInput>, k: nat, a: Assignment, style: Style, rest: seq<text>)
    requires k < |inputs|
    ensures PrintFlags(inputs[k..], a, style) + rest == PrintOne(inputs[k], a, style) + (PrintFlags(inputs[k + 1..], a, style) + rest)
  {
    assert inputs[k..][1..] == inputs[k + 1..] && inputs[k..][0] == inputs[k];
    Regroup(PrintOne(inputs[k], a, style), PrintFlags(inputs[k + 1..], a, style), rest);
  }

  lemma FlagParsed(command: Command, a: Assignment, style: Style, k: nat, rest: seq<text>)
    requires Declared(command) && ValuesOk(command, a) && k < |command.inputs|
    ensures Scan(command, State(Scanned(a, NamesOf(command.inputs, Flag, k), false), 0, false),
                 PrintOne(command.inputs[k], a, style) + rest)
         == Scan(command, State(Scanned(a, NamesOf(command.inputs, Flag, k + 1), false), 0, false), rest)
  {
    var names, input := NamesOf(command.inputs, Flag, k), command.inputs[k];
    if input.source == Flag {
      assert NamesOf(command.inputs, Flag, k + 1) == names + {input.name};
      assert input.name !in names;
      ScannedOneMore(a, names, input.name, false);
      if input.name in a {
        OccurrencesParsed(command, k, a[input.name], style, State(Scanned(a, names, false), 0, false), rest);
      } else {
        assert [] + rest == rest;
      }
    } else {
      assert NamesOf(command.inputs, Flag, k + 1) == names;
      assert [] + rest == rest;
    }
  }

  lemma ScanOneToken(command: Command, st: State, token: text, rest: seq<text>)
    ensures
      var step := Step(command, st, [token] + rest);
      Scan(command, st, [token] + rest)
      == if step.Err? then Err(step.error) else Scan(command, step.value.0, ([token] + rest)[step.value.1..])
  {
  }

  lemma PositionalValueParsed(command: Command, value: text, st: State, rest: seq<text>)
    requires st.positionalOnly && st.positionalIndex < |Of(command.inputs, Argument)|
    ensures
      var input := Of(command.inputs, Argument)[st.positionalIndex];
      var added := Add(st.parsed, input, value, command.category);
      Scan(command, st, [value] + rest)
      == if added.Err? then Err(added.error)
         else Scan(command, State(added.value, if input.repeatable then st.positionalIndex else st.positionalIndex + 1, true), rest)
  {
    var args := [value] + rest;
    assert args[0] == value && args[1..] == rest;
    ScanOneToken(command, st, value, rest);
    assert Step(command, st, args) == PositionalStep(command, st, value);
  }

  lemma {:induction false} PositionalValuesParsed(command: Command, values: seq<text>, st: State, rest: seq<text>)
    requires st.positionalOnly && st.positionalIndex < |Of(command.inputs, Argument)|
    requires CanAppend(st.parsed, Of(command.inputs, Argument)[st.positionalIndex], values, command.category)
    ensures
      var input := Of(command.inputs, Argument)[st.positionalIndex];
      Scan(command, st, values + rest)
      == Scan(command, State(AppendedAll(st.parsed, input.name, values),
                             if input.repeatable then st.positionalIndex else st.positionalIndex + 1, true), rest)
    decreases |values|
  {
    var input := Of(command.inputs, Argument)[st.positionalIndex];
    var tail := values[1..] + rest;
    ConsAppend(values, rest);
    PositionalValueParsed(command, values[0], st, tail);
    AppendOne(st.parsed, input, values, command.category);
    if |values| > 1 {
      PositionalValuesParsed(command, values[1..], st.(parsed := Appended(st.parsed, input.name, values[0])), rest);
    } else {
      assert tail == rest;
    }
  }

  /** The names scanned before positional i is read. */
  function Before(command: Command, i: nat): set<text>
    requires i <= |Of(command.inputs, Argument)|
  {
    NamesOf(command.inputs, Flag, |command.inputs|) + NamesOf(Of(command.inputs, Argument), Argument, i)
  }

  lemma {:induction false} PositionalsParsed(command: Command, a: Assignment, i: nat)
    requires Declared(command) && ValuesOk(command, a) && GapFree(Of(command.inputs, Argument), a.Keys)
    requires i <= |Of(command.inputs, Argument)|
    ensures
      var positionals := Of(command.inputs, Argument);
      var r := Scan(command, State(Scanned(a, Before(command, i), true), i, true), PrintPositionals(positionals[i..], a));
      r.Ok? && r.value.parsed == Scanned(a, Before(command, |positionals|), true)
    decreases |Of(command.inputs, Argument)| - i
  {
    var positionals := Of(command.inputs, Argument);
    if i == |positionals| {
      return;
    }
    var input := positionals[i];
    var tail := PrintPositionals(positionals[i + 1..], a);
    assert positionals[i..][1..] == positionals[i + 1..];
    assert input in command.inputs;
    NewPositional(command, i);
    ScannedOneMore(a, Before(command, i), input.name, true);
    if input.name !in a {
      NothingLater(command, a, i);
      assert Get(a, input.name) + tail == [];
    } else {
      PositionalValuesParsed(command, a[input.name], State(Scanned(a, Before(command, i), true), i, true), tail);
      if input.repeatable {
        NothingLater(command, a, i);
      } else {
        PositionalsParsed(command, a, i + 1);
      }
    }
  }

  lemma NewPositional(command: Command, i: nat)
    requires Declared(command) && i < |Of(command.inputs, Argument)|
    ensures var name := Of(command.inputs, Argument)[i].name;
            name !in Before(command, i) && Before(command, i + 1) == Before(command, i) + {name}
  {
    var positionals := Of(command.inputs, Argument);
    OfDistinct(command.inputs, Argument);
    var input := positionals[i];
    assert input in command.inputs;
    if input.name in NamesOf(command.inputs, Flag, |command.inputs|) {
      var k :| 0 <= k < |command.inputs| && command.inputs[k].source == Flag && command.inputs[k].name == input.name;
      SameNameSameInput(command.inputs, input, command.inputs[k]);
    }
  }

  /** When no later positional is supplied, nothing is left to print and the scanned part is complete. */
  lemma NothingLater(command: Command, a: Assignment, i: nat)
    requires Declared(command) && GapFree(Of(command.inputs, Argument), a.Keys)
    requires i < |Of(command.inputs, Argument)|
    requires Of(command.inputs, Argument)[i].name !in a || Of(command.inputs, Argument)[i].repeatable
    ensures
      var positionals := Of(command.inputs, Argument);
      PrintPositionals(positionals[i + 1..], a) == []
      && Scanned(a, Before(command, i + 1), true) == Scanned(a, Before(command, |positionals|), true)
  {
    var positionals := Of(command.inputs, Argument);
    assert forall j :: i < j < |positionals| ==> positionals[j].name !in a;
    NoneToPrint(positionals[i + 1..], a);
    NoLaterName(positionals, a, i);
    ScannedAlike(a, Before(command, i + 1), Before(command, |positionals|), true);
  }

  lemma NoLaterName(positionals: seq<CommandInput>, a: Assignment, i: nat)
    requires i < |positionals| && forall j :: i < j < |positionals| ==> positionals[j].name !in a
    ensures NamesOf(positionals, Argument, i + 1) <= NamesOf(positionals, Argument, |positionals|)
    ensures forall n :: n in a && n in NamesOf(positionals, Argument, |positionals|) ==> n in NamesOf(positionals, Argument, i + 1)
  {
  }

  lemma ScannedAlike(a: Assignment, now: set<text>, all: set<text>, marker: bool)
    requires now <= all && forall n :: n in a && n in all ==> n in now
    ensures Scanned(a, now, marker) == Scanned(a, all, marker)
  {
    assert a.Keys * now == a.Keys * all;
  }

  lemma {:induction false} NoneToPrint(positionals: seq<CommandInput>, a: Assignment)
    requires forall j :: 0 <= j < |positionals| ==> positionals[j].name !in a
    ensures PrintPositionals(positionals, a) == []
  {
    if positionals != [] {
      NoneToPrint(positionals[1..], a);
    }
  }

  lemma EverythingScanned(command: Command, a: Assignment)
    requires KnownNames(command.inputs, a.Keys)
    ensures Scanned(a, Before(command, |Of(command.inputs, Argument)|), true) == Parsed(a, a.Keys, {}, true)
  {
    var positionals := Of(command.inputs, Argument);
    forall n | n in a ensures n in Before(command, |positionals|) {
      var k :| 0 <= k < |command.inputs| && CommandLine(command.inputs[k]) && command.inputs[k].name == n;
      if command.inputs[k].source == Argument {
        OfComplete(command.inputs, Argument, command.inputs[k]);
        var j :| 0 <= j < |positionals| && positionals[j] == command.inputs[k];
      }
    }
  }

  /** Parsing undoes printing, in every style. */
  lemma ParsePrint(command: Command, a: Assignment, style: Style)
    requires Declared(command) && ValidAssignment(command, a)
    ensures Parse(command, Print(command, a, style)) == Ok(Effective(command, a, true))
    ensures Carries(command.inputs, Parse(command, Print(command, a, style)).value, a, true)
  {
    EffectiveCarries(command, a, true);
    var positionals := Of(command.inputs, Argument);
    var tail := [[45, 45]] + PrintPositionals(positionals, a);
    assert NamesOf(command.inputs, Flag, 0) == {};
    assert Scanned(a, {}, false) == NOTHING;
    assert command.inputs[0..] == command.inputs && positionals[0..] == positionals;
    FlagsParsed(command, a, style, 0, tail);
    var st := State(Scanned(a, NamesOf(command.inputs, Flag, |command.inputs|), false), 0, false);
    assert tail[1..] == PrintPositionals(positionals, a);
    assert Before(command, 0) == NamesOf(command.inputs, Flag, |command.inputs|);
    PositionalsParsed(command, a, 0);
    EverythingScanned(command, a);
    FinishExactly(command, Parsed(a, a.Keys, {}, true));
  }

  /** Anywhere flags are read, `--name v` and `--name=v` mean the same for a separable value. */
  lemma TwoTokensAsOne(command: Command, k: nat, value: text, st: State, rest: seq<text>)
    requires DistinctNames(command.inputs) && k < |command.inputs|
    requires command.inputs[k].source == Flag && ValidName(command.inputs[k]) && !st.positionalOnly
    requires Separable(command.inputs[k], value)
    ensures Scan(command, st, [command.inputs[k].name, value] + rest)
         == Scan(command, st, [command.inputs[k].name + [61] + value] + rest)
  {
    OccurrenceParsed(command, k, value, (_, _) => Spaced, st, rest);
    OccurrenceParsed(command, k, value, (_, _) => Joined, st, rest);
  }

  // ----- nothing else is accepted

  /** What every state of the scan keeps. */
  predicate GoodState(command: Command, st: State) {
    var positionals, p := Of(command.inputs, Argument), st.parsed;
    p.defaults == {} && p.values.Keys == p.provided
    && KnownNames(command.inputs, p.provided) && ValuesOk(command, p.values)
    && st.positionalIndex <= |positionals|
    && (forall j :: 0 <= j < st.positionalIndex ==> positionals[j].name in p.provided && !positionals[j].repeatable)
    && (forall j :: st.positionalIndex <= j < |positionals| && positionals[j].name in p.provided ==>
                      j == st.positionalIndex && positionals[j].repeatable)
  }

  lemma {:induction false} FlagTableOnlyHas(inputs: seq<CommandInput>, name: text)
    requires name in FlagTable(inputs)
    ensures var input := FlagTable(inputs)[name]; input in inputs && input.source == Flag && input.name == name
  {
    var last := inputs[|inputs| - 1];
    if last.source != Flag || last.name != name {
      FlagTableOnlyHas(inputs[..|inputs| - 1], name);
    }
  }

  lemma AddKeepsValues(command: Command, p: Parsed, input: CommandInput, value: text)
    requires Declared(command) && input in command.inputs && CommandLine(input)
    requires p.values.Keys == p.provided && KnownNames(command.inputs, p.provided) && ValuesOk(command, p.values)
    requires Add(p, input, value, command.category).Ok?
    ensures
      var p' := Appended(p, input.name, value);
      p'.values.Keys == p'.provided && KnownNames(command.inputs, p'.provided) && ValuesOk(command, p'.values)
  {
    var p' := Appended(p, input.name, value);
    var i :| 0 <= i < |command.inputs| && command.inputs[i] == input;
    forall k | 0 <= k < |command.inputs| && CommandLine(command.inputs[k]) && command.inputs[k].name in p'.values
      ensures ValidValues(command.inputs[k], p'.values[command.inputs[k].name], command.category)
    {
      if command.inputs[k].name == input.name {
        SameNameSameInput(command.inputs, command.inputs[k], input);
        assert input.name in p.provided ==> ValidValues(input, p.values[input.name], command.category);
      }
    }
    forall n | n in p'.provided
      ensures exists k :: 0 <= k < |command.inputs| && CommandLine(command.inputs[k]) && command.inputs[k].name == n
    {
      if n == input.name {
        assert CommandLine(command.inputs[i]);
      }
    }
  }

  lemma FlagStepKeepsGood(command: Command, st: State, args: seq<text>)
    requires Declared(command) && GoodState(command, st) && args != [] && FlagStep(command, st, args).Ok?
    ensures GoodState(command, FlagStep(command, st, args).value.0)
  {
    var positionals, name := Of(command.inputs, Argument), FlagName(args[0]);
    FlagTableOnlyHas(command.inputs, name);
    var input := FlagTable(command.inputs)[name];
    AddKeepsValues(command, st.parsed, input, FlagValue(input, args).value.0);
    forall j | 0 <= j < |positionals| ensures positionals[j].name != name {
      if positionals[j].name == name {
        SameNameSameInput(command.inputs, positionals[j], input);
      }
    }
  }

  lemma PositionalStepKeepsGood(command: Command, st: State, argument: text)
    requires Declared(command) && GoodState(command, st) && PositionalStep(command, st, argument).Ok?
    ensures GoodState(command, PositionalStep(command, st, argument).value.0)
  {
    var positionals := Of(command.inputs, Argument);
    OfDistinct(command.inputs, Argument);
    AddKeepsValues(command, st.parsed, positionals[st.positionalIndex], argument);
  }

  lemma StepKeepsGood(command: Command, st: State, args: seq<text>)
    requires Declared(command) && GoodState(command, st) && args != [] && Step(command, st, args).Ok?
    ensures GoodState(command, Step(command, st, args).value.0)
  {
    if !st.positionalOnly && args[0] == DASHDASH {
      return;
    }
    if !st.positionalOnly && IsFlagToken(args[0]) {
      FlagStepKeepsGood(command, st, args);
    } else {
      PositionalStepKeepsGood(command, st, args[0]);
    }
  }

  lemma {:induction false} ScanKeepsGood(command: Command, st: State, args: seq<text>)
    requires Declared(command) && GoodState(command, st) && Scan(command, st, args).Ok?
    ensures GoodState(command, Scan(command, st, args).value)
    decreases |args|
  {
    if args != [] {
      StepKeepsGood(command, st, args);
      var next := Step(command, st, args).value;
      ScanKeepsGood(command, next.0, args[next.1..]);
    }
  }

  /** Every successful parse is a valid assignment with the catalog defaults added. */
  lemma ParseIsValid(command: Command, args: seq<text>) returns (a: Assignment)
    requires Declared(command) && Parse(command, args).Ok?
    ensures ValidAssignment(command, a)
    ensures Parse(command, args).value == Effective(command, a, Parse(command, args).value.marker)
    ensures Carries(command.inputs, Parse(command, args).value, a, Parse(command, args).value.marker)
  {
    ScanKeepsGood(command, START, args);
    var p := Scan(command, START, args).value.parsed;
    a := p.values;
    FinishExactly(command, p);
    assert p == Parsed(a, a.Keys, {}, p.marker);
    EffectiveCarries(command, a, p.marker);
  }

  /** A set of inputs can be supplied together by some argv exactly when a valid assignment supplies it. */
  lemma ArgvForAssignment(command: Command, names: set<text>)
    requires Declared(command)
    ensures (exists args :: Parse(command, args).Ok? && Parse(command, args).value.provided == names)
       <==> (exists a :: ValidAssignment(command, a) && a.Keys == names)
  {
    if args :| Parse(command, args).Ok? && Parse(command, args).value.provided == names {
      var a := ParseIsValid(command, args);
      assert a.Keys == names;
    }
    if a :| ValidAssignment(command, a) && a.Keys == names {
      var style := (_: text, _: text) => Joined;
      ParsePrint(command, a, style);
      assert Parse(command, Print(command, a, style)).value.provided == names;
    }
  }

  // ----- positional tokens are conserved

  /** The tokens of argv that are positional values, read off the token shapes alone. */
  function PositionalTokens(flags: map<text, CommandInput>, args: seq<text>, positionalOnly: bool): seq<text>
    decreases |args|
  {
    if args == [] then []
    else if positionalOnly then args
    else if args[0] == DASHDASH then PositionalTokens(flags, args[1..], true)
    else if !IsFlagToken(args[0]) then [args[0]] + PositionalTokens(flags, args[1..], false)
    else
      var name := FlagName(args[0]);
      var takesNext := name in flags && flags[name].kind != BooleanKind && !HasInlineValue(args[0]) && |args| > 1;
      PositionalTokens(flags, args[if takesNext then 2 else 1..], false)
  }

  /** The supplied values of the positionals, in declared order. */
  function Given(positionals: seq<CommandInput>, p: Parsed): seq<text> {
    if positionals == [] then []
    else (if positionals[0].name in p.provided then Get(p.values, positionals[0].name) else []) + Given(positionals[1..], p)
  }

  lemma {:induction false} GivenUnchanged(positionals: seq<CommandInput>, p: Parsed, name: text, value: text)
    requires forall j :: 0 <= j < |positionals| ==> positionals[j].name != name
    ensures Given(positionals, Appended(p, name, value)) == Given(positionals, p)
  {
    if positionals != [] {
      GivenUnchanged(positionals[1..], p, name, value);
    }
  }

  lemma {:induction false} GivenNothing(positionals: seq<CommandInput>, p: Parsed)
    requires forall j :: 0 <= j < |positionals| ==> positionals[j].name !in p.provided
    ensures Given(positionals, p) == []
  {
    if positionals != [] {
      GivenNothing(positionals[1..], p);
    }
  }

  /** Adding to positional i while no later one has a value appends to the whole. */
  lemma {:induction false} GivenAppended(positionals: seq<CommandInput>, i: nat, p: Parsed, value: text)
    requires i < |positionals| && DistinctNames(positionals) && p.values.Keys == p.provided
    requires forall j :: i < j < |positionals| ==> positionals[j].name !in p.provided
    ensures Given(positionals, Appended(p, positionals[i].name, value)) == Given(positionals, p) + [value]
  {
    var name := positionals[i].name;
    var p' := Appended(p, name, value);
    if i == 0 {
      GivenNothing(positionals[1..], p);
      GivenUnchanged(positionals[1..], p, name, value);
    } else {
      GivenAppended(positionals[1..], i - 1, p, value);
      assert positionals[0].name != name;
      var first := if positionals[0].name in p.provided then Get(p.values, positionals[0].name) else [];
      Regroup(first, Given(positionals[1..], p), [value]);
    }
  }

  lemma {:induction false} ScanConserves(command: Command, st: State, args: seq<text>)
    requires Declared(command) && GoodState(command, st) && Scan(command, st, args).Ok?
    ensures Given(Of(command.inputs, Argument), Scan(command, st, args).value.parsed)
         == Given(Of(command.inputs, Argument), st.parsed) + PositionalTokens(FlagTable(command.inputs), args, st.positionalOnly)
    decreases |args|
  {
    var positionals, flags := Of(command.inputs, Argument), FlagTable(command.inputs);
    if args == [] {
      return;
    }
    StepKeepsGood(command, st, args);
    var next := Step(command, st, args).value;
    ScanConserves(command, next.0, args[next.1..]);
    StepConserves(command, st, args);
    Regroup(Given(positionals, st.parsed), Taken(st, args[0]), PositionalTokens(flags, args[next.1..], next.0.positionalOnly));
  }

  /** The first token, when it is a positional value. */
  function Taken(st: State, argument: text): seq<text> {
    if st.positionalOnly || !IsFlagToken(argument) then [argument] else []
  }

  /** One step takes its token into the values exactly when the token is positional. */
  lemma StepConserves(command: Command, st: State, args: seq<text>)
    requires Declared(command) && GoodState(command, st) && args != [] && Step(command, st, args).Ok?
    ensures
      var positionals, flags := Of(command.inputs, Argument), FlagTable(command.inputs);
      var next := Step(command, st, args).value;
      Given(positionals, next.0.parsed) == Given(positionals, st.parsed) + Taken(st, args[0])
      && PositionalTokens(flags, args, st.positionalOnly)
         == Taken(st, args[0]) + PositionalTokens(flags, args[next.1..], next.0.positionalOnly)
  {
    if !st.positionalOnly && args[0] == DASHDASH {
      MarkerIrrelevant(Of(command.inputs, Argument), st.parsed);
    } else if !st.positionalOnly && IsFlagToken(args[0]) {
      FlagStepConserves(command, st, args);
    } else {
      PositionalStepConserves(command, st, args);
    }
  }

  lemma FlagStepConserves(command: Command, st: State, args: seq<text>)
    requires Declared(command) && !st.positionalOnly && args != []
    requires IsFlagToken(args[0]) && args[0] != DASHDASH && FlagStep(command, st, args).Ok?
    ensures
      var positionals, flags := Of(command.inputs, Argument), FlagTable(command.inputs);
      var next := FlagStep(command, st, args).value;
      Given(positionals, next.0.parsed) == Given(positionals, st.parsed)
      && PositionalTokens(flags, args, false) == PositionalTokens(flags, args[next.1..], false)
  {
    var positionals, name := Of(command.inputs, Argument), FlagName(args[0]);
    FlagTableOnlyHas(command.inputs, name);
    var input := FlagTable(command.inputs)[name];
    forall j | 0 <= j < |positionals| ensures positionals[j].name != name {
      if positionals[j].name == name {
        SameNameSameInput(command.inputs, positionals[j], input);
      }
    }
    GivenUnchanged(positionals, st.parsed, name, FlagValue(input, args).value.0);
  }

  lemma PositionalStepConserves(command: Command, st: State, args: seq<text>)
    requires Declared(command) && GoodState(command, st) && args != []
    requires (st.positionalOnly || !IsFlagToken(args[0])) && PositionalStep(command, st, args[0]).Ok?
    ensures
      var positionals, flags := Of(command.inputs, Argument), FlagTable(command.inputs);
      var next := PositionalStep(command, st, args[0]).value.0;
      Given(positionals, next.parsed) == Given(positionals, st.parsed) + [args[0]]
      && PositionalTokens(flags, args, st.positionalOnly) == [args[0]] + PositionalTokens(flags, args[1..], next.positionalOnly)
  {
    OfDistinct(command.inputs, Argument);
    GivenAppended(Of(command.inputs, Argument), st.positionalIndex, st.parsed, args[0]);
    assert args == [args[0]] + args[1..];
  }

  lemma {:induction false} MarkerIrrelevant(positionals: seq<CommandInput>, p: Parsed)
    ensures Given(positionals, p.(marker := true)) == Given(positionals, p)
  {
    if positionals != [] {
      MarkerIrrelevant(positionals[1..], p);
    }
  }

  lemma {:induction false} DefaultsIrrelevant(positionals: seq<CommandInput>, inputs: seq<CommandInput>, p: Parsed)
    requires p.values.Keys == p.provided
    ensures Given(positionals, WithDefaults(inputs, p)) == Given(positionals, p)
  {
    if positionals != [] {
      DefaultsIrrelevant(positionals[1..], inputs, p);
      DefaultsAreAbsent(inputs, p.provided);
    }
  }

  lemma {:induction false} DefaultsAreAbsent(inputs: seq<CommandInput>, provided: set<text>)
    ensures DefaultValues(inputs, provided).Keys !! provided
  {
    if inputs != [] {
      DefaultsAreAbsent(inputs[1..], provided);
    }
  }

  /** The supplied positional values, in declared order, are the positional tokens of argv, unchanged and in order. */
  lemma PositionalsConserved(command: Command, args: seq<text>)
    requires Declared(command) && Parse(command, args).Ok?
    ensures Given(Of(command.inputs, Argument), Parse(command, args).value)
         == PositionalTokens(FlagTable(command.inputs), args, false)
  {
    var positionals := Of(command.inputs, Argument);
    ScanKeepsGood(command, START, args);
    ScanConserves(command, START, args);
    GivenNothing(positionals, NOTHING);
    var p := Scan(command, START, args).value.parsed;
    FinishExactly(command, p);
    DefaultsIrrelevant(positionals, command.inputs, p);
  }
}
