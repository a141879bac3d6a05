/** The one argv parser: internal/cli/arguments.go. */
module Arguments {
  import opened Bytes
  import opened Inputs
  import Escaping

  datatype ParseError =
    | UnknownFlag(token: text)
    | UnexpectedArgument(token: text)
    | ValueMissing(name: text)
    | DashValue(name: text)
    | OnlyOnce(name: text)
    | BadValue(name: text)
    | InputMissing(name: text)
    | Requires(name: text, other: text)
    | Conflicts(name: text, other: text)

  datatype Result<+T> = Ok(value: T) | Err(error: ParseError)

  /** The contents of ParsedInputs. */
  datatype Parsed = Parsed(values: map<text, seq<text>>, provided: set<text>, defaults: set<text>, marker: bool)

  const NOTHING := Parsed(map[], {}, {}, false)

  function Get(values: map<text, seq<text>>, name: text): seq<text> {
    if name in values then values[name] else []
  }

  /** addParsedInput. */
  function Add(p: Parsed, input: CommandInput, value: text, c: Escaping.Category): Result<Parsed> {
    if input.name in p.provided && !input.repeatable then Err(OnlyOnce(input.name))
    else if !Accepts(input, value, c) then Err(BadValue(input.name))
    else Ok(Appended(p, input.name, value))
  }

  function Appended(p: Parsed, name: text, value: text): Parsed {
    p.(values := p.values[name := Get(p.values, name) + [value]], provided := p.provided + {name})
  }

  /** The flag table; a later declaration of a name would replace an earlier one. */
  function FlagTable(inputs: seq<CommandInput>): map<text, CommandInput> {
    if inputs == [] then map[]
    else
      var last := inputs[|inputs| - 1];
      var table := FlagTable(inputs[..|inputs| - 1]);
      if last.source == Flag then table[last.name := last] else table
  }

  /** strings.Cut(argument, "="). */
  function FlagName(argument: text): text {
    argument[..IndexOf(argument, EQUALS)]
  }

  predicate HasInlineValue(argument: text) {
    IndexOf(argument, EQUALS) < |argument|
  }

  function InlineValue(argument: text): text {
    if HasInlineValue(argument) then argument[IndexOf(argument, EQUALS) + 1..] else []
  }

  predicate IsFlagToken(argument: text) {
    HasPrefix(argument, DASHDASH)
  }

  predicate Dashed(argument: text) {
    HasPrefix(argument, [DASH])
  }

  datatype State = State(parsed: Parsed, positionalIndex: nat, positionalOnly: bool)

  const START := State(NOTHING, 0, false)

  /** A flag token and, unless it is boolean or carries `=`, the token after it: the value and the tokens used. */
  function FlagValue(input: CommandInput, args: seq<text>): Result<(text, nat)>
    requires args != []
  {
    if HasInlineValue(args[0]) then Ok((InlineValue(args[0]), 1))
    else if input.kind == BooleanKind then Ok((TRUE, 1))
    else if |args| == 1 then Err(ValueMissing(FlagName(args[0])))
    else if Dashed(args[1]) then Err(DashValue(FlagName(args[0])))
    else Ok((args[1], 2))
  }

  /** One pass of the argv loop: the state after the first token and the number of tokens used. */
  function Step(command: Command, st: State, args: seq<text>): (r: Result<(State, nat)>)
    requires args != []
    ensures r.Ok? ==> 1 <= r.value.1 <= |args|
  {
    var argument := args[0];
    if !st.positionalOnly && argument == DASHDASH then
      Ok((st.(positionalOnly := true, parsed := st.parsed.(marker := true)), 1))
    else if !st.positionalOnly && IsFlagToken(argument) then
      FlagStep(command, st, args)
    else
      PositionalStep(command, st, argument)
  }

  function FlagStep(command: Command, st: State, args: seq<text>): (r: Result<(State, nat)>)
    requires args != []
    ensures r.Ok? ==> 1 <= r.value.1 <= |args|
  {
    var flags := FlagTable(command.inputs);
    var name := FlagName(args[0]);
    if name !in flags then Err(UnknownFlag(name))
    else
      match FlagValue(flags[name], args)
      case Err(e) => Err(e)
      case Ok(v) =>
        match Add(st.parsed, flags[name], v.0, command.category)
        case Err(e) => Err(e)
        case Ok(p) => Ok((st.(parsed := p), v.1))
  }

  function PositionalStep(command: Command, st: State, argument: text): (r: Result<(State, nat)>)
    ensures r.Ok? ==> r.value.1 == 1
  {
    var positionals := Of(command.inputs, Argument);
    if st.positionalIndex >= |positionals| then
      if Dashed(argument) then Err(UnknownFlag(argument)) else Err(UnexpectedArgument(argument))
    else
      var input := positionals[st.positionalIndex];
      if !st.positionalOnly && Dashed(argument) && input.kind != IntegerKind then Err(UnknownFlag(argument))
      else
        match Add(st.parsed, input, argument, command.category)
        case Err(e) => Err(e)
        case Ok(p) =>
          Ok((State(p, if input.repeatable then st.positionalIndex else st.positionalIndex + 1, st.positionalOnly), 1))
  }

  function Scan(command: Command, st: State, args: seq<text>): Result<State>
    decreases |args|
  {
    if args == [] then Ok(st)
    else
      match Step(command, st, args)
      case Err(e) => Err(e)
      case Ok(next) => Scan(command, next.0, args[next.1..])
  }

  /** The loop over the declared inputs that enforces `required` and fills defaults. */
  function FillDefaults(inputs: seq<CommandInput>, p: Parsed): Result<Parsed> {
    if inputs == [] then Ok(p)
    else
      var input := inputs[0];
      if !CommandLine(input) then FillDefaults(inputs[1..], p)
      else if input.required && input.name !in p.provided then Err(InputMissing(input.name))
      else if input.name !in p.provided && input.default.Some? then FillDefaults(inputs[1..], Defaulted(p, input))
      else FillDefaults(inputs[1..], p)
  }

  function Defaulted(p: Parsed, input: CommandInput): Parsed
    requires input.default.Some?
  {
    p.(values := p.values[input.name := [input.default.value]], defaults := p.defaults + {input.name})
  }

  function FirstAbsent(names: seq<text>, provided: set<text>): Option<text> {
    if names == [] then None else if names[0] !in provided then Some(names[0]) else FirstAbsent(names[1..], provided)
  }

  function FirstPresent(names: seq<text>, provided: set<text>): Option<text> {
    if names == [] then None else if names[0] in provided then Some(names[0]) else FirstPresent(names[1..], provided)
  }

  /** The relations of one provided input. */
  function RelationError(input: CommandInput, provided: set<text>): Option<ParseError> {
    var absent, present := FirstAbsent(input.requires_, provided), FirstPresent(input.conflictsWith, provided);
    if absent.Some? then Some(Requires(input.name, absent.value))
    else if present.Some? then Some(Conflicts(input.name, present.value))
    else None
  }

  /** The loop that enforces `requires` and `conflicts_with` among the provided inputs. */
  function CheckRelations(inputs: seq<CommandInput>, p: Parsed): Result<Parsed> {
    if inputs == [] then Ok(p)
    else
      var input := inputs[0];
      if !CommandLine(input) || input.name !in p.provided then CheckRelations(inputs[1..], p)
      else
        var e := RelationError(input, p.provided);
        if e.Some? then Err(e.value) else CheckRelations(inputs[1..], p)
  }

  function Finish(command: Command, p: Parsed): Result<Parsed> {
    match FillDefaults(command.inputs, p)
    case Err(e) => Err(e)
    case Ok(filled) => CheckRelations(command.inputs, filled)
  }

  /** What one invocation parses to. */
  function Parse(command: Command, args: seq<text>): Result<Parsed> {
    match Scan(command, START, args)
    case Err(e) => Err(e)
    case Ok(st) => Finish(command, st.parsed)
  }

  // ----- the parser with its mutable result

  class ParsedInputs {
    var values: map<text, seq<text>>
    var provided: set<text>
    var defaults: set<text>
    var positionalOnlyUsed: bool

    constructor ()
      ensures View() == NOTHING
    {
      values, provided, defaults, positionalOnlyUsed := map[], {}, {}, false;
    }

    ghost function View(): Parsed
      reads this
    {
      Parsed(values, provided, defaults, positionalOnlyUsed)
    }

    method AddParsedInput(input: CommandInput, value: text, c: Escaping.Category) returns (error: Option<ParseError>)
      modifies this
      ensures Add(old(View()), input, value, c) == if error.None? then Ok(View()) else Err(error.value)
      ensures error.Some? ==> View() == old(View())
    {
      if input.name in provided && !input.repeatable {
        return Some(OnlyOnce(input.name));
      }
      if !Accepts(input, value, c) {
        return Some(BadValue(input.name));
      }
      values := values[input.name := Get(values, input.name) + [value]];
      provided := provided + {input.name};
      return None;
    }
  }

  /** The two views of the declarations: flags by name, positionals in order. */
  method Classify(inputs: seq<CommandInput>) returns (flags: map<text, CommandInput>, positionals: seq<CommandInput>)
    ensures flags == FlagTable(inputs) && positionals == Of(inputs, Argument)
  {
    flags, positionals := map[], [];
    for k := 0 to |inputs|
      invariant flags == FlagTable(inputs[..k])
      invariant positionals + Of(inputs[k..], Argument) == Of(inputs, Argument)
    {
      ClassifyStep(inputs, k, positionals);
      match inputs[k].source
      case Flag => flags := flags[inputs[k].name := inputs[k]];
      case Argument => positionals := positionals + [inputs[k]];
      case _ =>
    }
    assert inputs[..|inputs|] == inputs;
    assert positionals + [] == positionals;
  }

  lemma ClassifyStep(inputs: seq<CommandInput>, k: nat, positionals: seq<CommandInput>)
    requires k < |inputs|
    ensures FlagTable(inputs[..k + 1])
         == if inputs[k].source == Flag then FlagTable(inputs[..k])[inputs[k].name := inputs[k]] else FlagTable(inputs[..k])
    ensures positionals + Of(inputs[k..], Argument)
         == (if inputs[k].source == Argument then positionals + [inputs[k]] else positionals) + Of(inputs[k + 1..], Argument)
  {
    assert inputs[..k + 1][..k] == inputs[..k] && inputs[k..][1..] == inputs[k + 1..];
    if inputs[k].source == Argument {
      Regroup(positionals, [inputs[k]], Of(inputs[k + 1..], Argument));
    }
  }

  /** parseCommandInputs. */
  method ParseCommandInputs(command: Command, args: seq<text>) returns (parsed: ParsedInputs, error: Option<ParseError>)
    ensures fresh(parsed)
    ensures Parse(command, args) == if error.None? then Ok(parsed.View()) else Err(error.value)
  {
    parsed := new ParsedInputs();
    error := ScanArguments(command, args, parsed);
    if error.Some? {
      return;
    }
    error := FillFrom(command.inputs, parsed);
    if error.Some? {
      return;
    }
    error := CheckFrom(command.inputs, parsed);
  }

  method ScanToken(command: Command, flags: map<text, CommandInput>, positionals: seq<CommandInput>, args: seq<text>,
                   index: nat, parsed: ParsedInputs, positionalIndex: nat, positionalOnly: bool)
    returns (error: Option<ParseError>, next: nat, nextIndex: nat, nextOnly: bool)
    requires flags == FlagTable(command.inputs) && positionals == Of(command.inputs, Argument) && index < |args|
    modifies parsed
    ensures error.None? ==> index < next <= |args|
    ensures Scan(command, State(old(parsed.View()), positionalIndex, positionalOnly), args[index..])
         == if error.None? then Scan(command, State(parsed.View(), nextIndex, nextOnly), args[next..]) else Err(error.value)
  {
    ghost var st := State(parsed.View(), positionalIndex, positionalOnly);
    var used: nat;
    error, used, nextIndex, nextOnly :=
      TakeToken(command, flags, positionals, args, index, parsed, positionalIndex, positionalOnly);
    ScanStep(command, st, args, index);
    next := index + used;
  }

  method ScanArguments(command: Command, args: seq<text>, parsed: ParsedInputs) returns (error: Option<ParseError>)
    requires parsed.View() == NOTHING
    modifies parsed
    ensures error.Some? ==> Scan(command, START, args) == Err(error.value)
    ensures error.None? ==> Scan(command, START, args).Ok? && Scan(command, START, args).value.parsed == parsed.View()
  {
    error := None;
    var flags, positionals := Classify(command.inputs);
    var positionalIndex: nat, positionalOnly := 0, false;
    var index: nat := 0;
    assert args[0..] == args;
    while index < |args|
      invariant index <= |args| && error.None?
      invariant Scan(command, START, args) == Scan(command, State(parsed.View(), positionalIndex, positionalOnly), args[index..])
      decreases |args| - index
    {
      error, index, positionalIndex, positionalOnly :=
        ScanToken(command, flags, positionals, args, index, parsed, positionalIndex, positionalOnly);
      if error.Some? {
        return;
      }
    }
  }

  lemma ScanStep(command: Command, st: State, args: seq<text>, index: nat)
    requires index < |args|
    ensures
      var step := Step(command, st, args[index..]);
      Scan(command, st, args[index..])
      == if step.Err? then Err(step.error) else Scan(command, step.value.0, args[index + step.value.1..])
  {
    var step := Step(command, st, args[index..]);
    if step.Ok? {
      assert args[index..][step.value.1..] == args[index + step.value.1..];
    }
  }

  /** One pass of the loop body. */
  method TakeToken(command: Command, flags: map<text, CommandInput>, positionals: seq<CommandInput>, args: seq<text>,
                   index: nat, parsed: ParsedInputs, positionalIndex: nat, positionalOnly: bool)
    returns (error: Option<ParseError>, used: nat, nextIndex: nat, nextOnly: bool)
    requires flags == FlagTable(command.inputs) && positionals == Of(command.inputs, Argument) && index < |args|
    modifies parsed
    ensures Step(command, State(old(parsed.View()), positionalIndex, positionalOnly), args[index..])
         == if error.None? then Ok((State(parsed.View(), nextIndex, nextOnly), used)) else Err(error.value)
  {
    error, used, nextIndex, nextOnly := None, 1, positionalIndex, positionalOnly;
    if !positionalOnly && args[index] == DASHDASH {
      nextOnly := true;
      parsed.positionalOnlyUsed := true;
    } else if !positionalOnly && IsFlagToken(args[index]) {
      error, used := TakeFlag(command, flags, args, index, parsed, State(parsed.View(), positionalIndex, positionalOnly));
    } else {
      error, nextIndex := TakePositional(command, positionals, args[index], parsed, positionalIndex, positionalOnly);
    }
  }

  /** A flag token, and the next token when it carries the value. */
  method TakeFlag(command: Command, flags: map<text, CommandInput>, args: seq<text>, index: nat, parsed: ParsedInputs, ghost st: State)
    returns (error: Option<ParseError>, used: nat)
    requires flags == FlagTable(command.inputs) && index < |args| && st.parsed == parsed.View()
    modifies parsed
    ensures FlagStep(command, st, args[index..])
         == if error.None? then Ok((st.(parsed := parsed.View()), used)) else Err(error.value)
    ensures error.None? ==> 1 <= used && index + used <= |args|
  {
    var name := FlagName(args[index]);
    used := 1;
    if name !in flags {
      error := Some(UnknownFlag(name));
      return;
    }
    var value;
    error, value, used := ReadFlagValue(flags[name], args, index);
    if error.Some? {
      return;
    }
    error := parsed.AddParsedInput(flags[name], value, command.category);
  }

  method TakePositional(command: Command, positionals: seq<CommandInput>, argument: text, parsed: ParsedInputs,
                        positionalIndex: nat, positionalOnly: bool)
    returns (error: Option<ParseError>, next: nat)
    requires positionals == Of(command.inputs, Argument)
    modifies parsed
    ensures PositionalStep(command, State(old(parsed.View()), positionalIndex, positionalOnly), argument)
         == if error.None? then Ok((State(parsed.View(), next, positionalOnly), 1)) else Err(error.value)
  {
    next := positionalIndex;
    if positionalIndex >= |positionals| {
      error := Some(if Dashed(argument) then UnknownFlag(argument) else UnexpectedArgument(argument));
      return;
    }
    var input := positionals[positionalIndex];
    if !positionalOnly && Dashed(argument) && input.kind != IntegerKind {
      error := Some(UnknownFlag(argument));
      return;
    }
    error := parsed.AddParsedInput(input, argument, command.category);
    if error.None? && !input.repeatable {
      next := positionalIndex + 1;
    }
  }

  /** The value of the flag token at index, and how many tokens it takes. */
  method ReadFlagValue(input: CommandInput, args: seq<text>, index: nat)
    returns (error: Option<ParseError>, value: text, used: nat)
    requires index < |args|
    ensures FlagValue(input, args[index..]) == if error.None? then Ok((value, used)) else Err(error.value)
    ensures error.None? ==> 1 <= used && index + used <= |args|
  {
    var argument := args[index];
    var name := FlagName(argument);
    error, value, used := None, InlineValue(argument), 1;
    if input.kind == BooleanKind {
      if !HasInlineValue(argument) {
        value := TRUE;
      }
    } else if !HasInlineValue(argument) {
      if index + 1 >= |args| {
        error := Some(ValueMissing(name));
        return;
      }
      if Dashed(args[index + 1]) {
        error := Some(DashValue(name));
        return;
      }
      value, used := args[index + 1], 2;
    }
  }

  method FillFrom(inputs: seq<CommandInput>, parsed: ParsedInputs) returns (error: Option<ParseError>)
    modifies parsed
    ensures FillDefaults(inputs, old(parsed.View())) == if error.None? then Ok(parsed.View()) else Err(error.value)
  {
    for k := 0 to |inputs|
      invariant FillDefaults(inputs, old(parsed.View())) == FillDefaults(inputs[k..], parsed.View())
    {
      var input := inputs[k];
      assert inputs[k..][1..] == inputs[k + 1..];
      if !CommandLine(input) {
        continue;
      }
      if input.required && input.name !in parsed.provided {
        return Some(InputMissing(input.name));
      }
      if input.name !in parsed.provided && input.default.Some? {
        parsed.values := parsed.values[input.name := [input.default.value]];
        parsed.defaults := parsed.defaults + {input.name};
      }
    }
    return None;
  }

  method CheckFrom(inputs: seq<CommandInput>, parsed: ParsedInputs) returns (error: Option<ParseError>)
    ensures CheckRelations(inputs, parsed.View()) == if error.None? then Ok(parsed.View()) else Err(error.value)
  {
    for k := 0 to |inputs|
      invariant CheckRelations(inputs, parsed.View()) == CheckRelations(inputs[k..], parsed.View())
    {
      var input := inputs[k];
      assert inputs[k..][1..] == inputs[k + 1..];
      if !CommandLine(input) || input.name !in parsed.provided {
        continue;
      }
      error := CheckOne(input, parsed.provided);
      if error.Some? {
        return;
      }
    }
    return None;
  }

  method CheckOne(input: CommandInput, provided: set<text>) returns (error: Option<ParseError>)
    ensures error == RelationError(input, provided)
  {
    for i := 0 to |input.requires_|
      invariant FirstAbsent(input.requires_, provided) == FirstAbsent(input.requires_[i..], provided)
    {
      assert input.requires_[i..][1..] == input.requires_[i + 1..];
      if input.requires_[i] !in provided {
        return Some(Requires(input.name, input.requires_[i]));
      }
    }
    for i := 0 to |input.conflictsWith|
      invariant FirstPresent(input.conflictsWith, provided) == FirstPresent(input.conflictsWith[i..], provided)
    {
      assert input.conflictsWith[i..][1..] == input.conflictsWith[i + 1..];
      if input.conflictsWith[i] in provided {
        return Some(Conflicts(input.name, input.conflictsWith[i]));
      }
    }
    return None;
  }
}
