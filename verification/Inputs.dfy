/** Declared inputs of a command (internal/cli/catalog.go) and the values they accept. */
module Inputs {
  import opened Bytes
  import Utf8
  import Escaping

  datatype InputSource = Argument | Flag | Stdin | Environment | Configuration

  datatype ValueKind = TextKind | IntegerKind | BooleanKind

  datatype CommandInput = CommandInput(
    name: text, source: InputSource, required: bool, kind: ValueKind, repeatable: bool,
    allowed: seq<text>, default: Option<text>, minimum: Option<int>, maximum: Option<int>,
    requires_: seq<text>, conflictsWith: seq<text>)

  /** A command's inputs, with the Unicode table its value checks consult. */
  datatype Command = Command(inputs: seq<CommandInput>, category: Escaping.Category)

  predicate CommandLine(input: CommandInput) {
    input.source == Argument || input.source == Flag
  }

  const TRUE: text := [116, 114, 117, 101]
  const FALSE: text := [102, 97, 108, 115, 101]

  // ----- values

  const MIN_INT64: int := -0x8000_0000_0000_0000
  const MAX_INT64: int := 0x7FFF_FFFF_FFFF_FFFF

  predicate Digits(s: text) {
    s != [] && forall i :: 0 <= i < |s| ==> 48 <= s[i] <= 57
  }

  function DecimalValue(s: text): nat
    requires forall i :: 0 <= i < |s| ==> 48 <= s[i] <= 57
  {
    if s == [] then 0 else DecimalValue(s[..|s| - 1]) * 10 + (s[|s| - 1] - 48)
  }

  /** strconv.ParseInt(s, 10, 64). */
  function ParseInt(s: text): Option<int> {
    var signed := s != [] && (s[0] == 43 || s[0] == 45);
    var digits := if signed then s[1..] else s;
    if !Digits(digits) then None
    else
      var magnitude := DecimalValue(digits);
      var v: int := if signed && s[0] == 45 then 0 - magnitude else magnitude;
      if MIN_INT64 <= v <= MAX_INT64 then Some(v) else None
  }

  /** strconv.FormatInt(v, 10). */
  function FormatNat(v: nat): text {
    if v < 10 then [48 + v] else FormatNat(v / 10) + [48 + v % 10]
  }

  function FormatInt(v: int): text {
    if v < 0 then [DASH] + FormatNat(-v) else FormatNat(v)
  }

  lemma {:induction false} FormatNatDigits(v: nat)
    ensures Digits(FormatNat(v)) && DecimalValue(FormatNat(v)) == v
  {
    var s := FormatNat(v);
    if v < 10 {
      assert s[..0] == [];
    } else {
      FormatNatDigits(v / 10);
      assert s[..|s| - 1] == FormatNat(v / 10);
    }
  }

  lemma ParseFormatInt(v: int)
    requires MIN_INT64 <= v <= MAX_INT64
    ensures ParseInt(FormatInt(v)) == Some(v)
  {
    FormatNatDigits(if v < 0 then -v else v);
    if v < 0 {
      assert FormatInt(v)[1..] == FormatNat(-v);
    }
  }

  /** A further digit multiplies by ten and adds; a sign in front negates or changes nothing. */
  lemma ParseDigitByDigit(s: text, d: nat)
    requires d < 10 && Digits(s) && ParseInt(s).Some?
    ensures ParseInt([48 + d]) == Some(d)
    ensures var v := 10 * ParseInt(s).value + d;
            ParseInt(s + [48 + d]) == if v <= 0x7FFF_FFFF_FFFF_FFFF then Some(v) else None
    ensures ParseInt([43] + s) == ParseInt(s) && ParseInt([45] + s) == Some(-ParseInt(s).value)
  {
    var digit: text := [48 + d];
    assert (s + digit)[..|s|] == s && digit[..0] == [];
    assert DecimalValue(digit[..0]) == 0 && DecimalValue(digit) == d;
    assert ([43] + s)[1..] == s && ([45] + s)[1..] == s;
  }

  predicate StructuralText(value: text, c: Escaping.Category) {
    Utf8.ValidString(value) && forall i :: 0 <= i < |Utf8.Runes(value)| ==> !Escaping.Structural(Utf8.Runes(value)[i], c)
  }

  predicate InBounds(v: int, input: CommandInput) {
    (input.minimum.Some? ==> input.minimum.value <= v) && (input.maximum.Some? ==> v <= input.maximum.value)
  }

  /** validateInputScalar. */
  predicate AcceptsScalar(input: CommandInput, value: text, c: Escaping.Category) {
    StructuralText(value, c)
    && match input.kind
       case TextKind => true
       case IntegerKind => ParseInt(value).Some? && InBounds(ParseInt(value).value, input)
       case BooleanKind => value == TRUE || value == FALSE
  }

  /** validateInputValue. */
  predicate Accepts(input: CommandInput, value: text, c: Escaping.Category) {
    (input.allowed != [] ==> value in input.allowed) && AcceptsScalar(input, value, c)
  }

  // ----- names

  predicate ReferenceName(s: text) {
    s != [] && 97 <= s[0] <= 122
    && forall i :: 0 <= i < |s| ==> 97 <= s[i] <= 122 || 48 <= s[i] <= 57 || s[i] == DASH
  }

  predicate ValidName(input: CommandInput) {
    match input.source
    case Flag => HasPrefix(input.name, DASHDASH) && ReferenceName(input.name[2..])
    case Argument => ReferenceName(input.name)
    case _ => true
  }

  predicate DistinctNames(inputs: seq<CommandInput>) {
    forall i, j :: 0 <= i < j < |inputs| ==> inputs[i].name != inputs[j].name
  }

  /** The inputs read from one source, in declared order. */
  function Of(inputs: seq<CommandInput>, source: InputSource): (r: seq<CommandInput>)
    ensures forall i :: 0 <= i < |r| ==> r[i] in inputs && r[i].source == source
  {
    if inputs == [] then []
    else (if inputs[0].source == source then [inputs[0]] else []) + Of(inputs[1..], source)
  }

  lemma {:induction false} OfComplete(inputs: seq<CommandInput>, source: InputSource, input: CommandInput)
    requires input in inputs && input.source == source
    ensures input in Of(inputs, source)
  {
    if inputs[0] != input {
      OfComplete(inputs[1..], source, input);
    }
  }

  lemma {:induction false} OfDistinct(inputs: seq<CommandInput>, source: InputSource)
    requires DistinctNames(inputs)
    ensures DistinctNames(Of(inputs, source))
  {
    if inputs != [] {
      OfDistinct(inputs[1..], source);
      var rest := Of(inputs[1..], source);
      forall j | 0 <= j < |rest| ensures rest[j].name != inputs[0].name {
        var k :| 0 <= k < |inputs[1..]| && inputs[1..][k] == rest[j];
        assert inputs[k + 1] == rest[j];
      }
    }
  }

  lemma SameNameSameInput(inputs: seq<CommandInput>, a: CommandInput, b: CommandInput)
    requires DistinctNames(inputs) && a in inputs && b in inputs && a.name == b.name
    ensures a == b
  {
  }

  predicate OnlyLastRepeatable(positionals: seq<CommandInput>) {
    forall i :: 0 <= i < |positionals| - 1 ==> !positionals[i].repeatable
  }

  /** What is still allowed to come: nothing after a repeatable positional. */
  predicate AllowedNext(positionals: seq<CommandInput>, seen: bool) {
    (seen ==> positionals == []) && OnlyLastRepeatable(positionals)
  }

  lemma AllowedStep(first: CommandInput, rest: seq<CommandInput>, seen: bool)
    ensures AllowedNext([first] + rest, seen) <==> !seen && AllowedNext(rest, first.repeatable)
  {
    var all := [first] + rest;
    assert all[0] == first;
    assert forall i :: 0 <= i < |rest| ==> all[i + 1] == rest[i];
    assert forall i :: 0 < i < |all| ==> all[i] == rest[i - 1];
  }

  lemma OfNext(inputs: seq<CommandInput>, k: nat, source: InputSource)
    requires k < |inputs|
    ensures Of(inputs[k..], source)
         == if inputs[k].source == source then [inputs[k]] + Of(inputs[k + 1..], source) else Of(inputs[k + 1..], source)
  {
    assert inputs[k..][1..] == inputs[k + 1..];
  }

  /** The flag that validateAgentContract carries along refuses exactly a repeatable positional that is not the last. */
  method CheckRepeatablePositionals(inputs: seq<CommandInput>) returns (ok: bool)
    ensures ok <==> OnlyLastRepeatable(Of(inputs, Argument))
  {
    var repeatableArgumentSeen := false;
    assert inputs[0..] == inputs;
    for k := 0 to |inputs|
      invariant OnlyLastRepeatable(Of(inputs, Argument)) <==> AllowedNext(Of(inputs[k..], Argument), repeatableArgumentSeen)
    {
      OfNext(inputs, k, Argument);
      if inputs[k].source == Argument {
        AllowedStep(inputs[k], Of(inputs[k + 1..], Argument), repeatableArgumentSeen);
        if repeatableArgumentSeen {
          return false;
        }
        repeatableArgumentSeen := inputs[k].repeatable;
      }
    }
    return true;
  }

  /** What validateAgentContract has established about the inputs before any argv is parsed. */
  ghost predicate Declared(command: Command) {
    DistinctNames(command.inputs)
    && (forall input :: input in command.inputs ==> ValidName(input) && DeclaredInput(input, command.category))
    && OnlyLastRepeatable(Of(command.inputs, Argument))
  }

  predicate DeclaredInput(input: CommandInput, c: Escaping.Category) {
    (input.required ==> input.default.None?)
    && (input.repeatable ==> input.default.None? && CommandLine(input) && input.kind != BooleanKind)
    && (input.kind == BooleanKind ==> input.allowed == [])
    && (input.kind != IntegerKind ==> input.minimum.None? && input.maximum.None?)
    && (input.minimum.Some? ==> MIN_INT64 <= input.minimum.value <= MAX_INT64)
    && (input.maximum.Some? ==> MIN_INT64 <= input.maximum.value <= MAX_INT64)
    && (input.minimum.Some? && input.maximum.Some? ==> input.minimum.value <= input.maximum.value)
    && (forall i :: 0 <= i < |input.allowed| ==> AcceptsScalar(input, input.allowed[i], c))
    && (input.default.Some? ==> Accepts(input, input.default.value, c))
  }

  /** Every declared input has a value it accepts. */
  function SampleValue(input: CommandInput): text {
    if input.allowed != [] then input.allowed[0]
    else match input.kind
      case TextKind => []
      case BooleanKind => TRUE
      case IntegerKind =>
        FormatInt(if input.minimum.Some? then input.minimum.value
                  else if input.maximum.Some? then input.maximum.value
                  else 0)
  }

  lemma SampleAccepted(input: CommandInput, c: Escaping.Category)
    requires DeclaredInput(input, c) && Escaping.GoCategoryC(c)
    ensures Accepts(input, SampleValue(input), c)
  {
    if input.allowed == [] {
      var v := SampleValue(input);
      match input.kind
      case TextKind =>
      case BooleanKind => PrintableIsStructuralText(TRUE, c);
      case IntegerKind =>
        var n := if input.minimum.Some? then input.minimum.value
                 else if input.maximum.Some? then input.maximum.value else 0;
        ParseFormatInt(n);
        FormatNatDigits(if n < 0 then -n else n);
        PrintableIsStructuralText(v, c);
    }
  }

  lemma {:induction false} PrintableIsStructuralText(s: text, c: Escaping.Category)
    requires Escaping.GoCategoryC(c) && forall i :: 0 <= i < |s| ==> 0x20 <= s[i] < 0x7F
    ensures StructuralText(s, c)
  {
    Escaping.CleanAscii(s, c, []);
    assert s + [] == s;
  }

  /** An integer in its decimal form is accepted exactly within the bounds. */
  lemma IntegersAccepted(input: CommandInput, v: int, c: Escaping.Category)
    requires Escaping.GoCategoryC(c) && MIN_INT64 <= v <= MAX_INT64
    requires input.kind == IntegerKind && input.allowed == []
    ensures Accepts(input, FormatInt(v), c)
       <==> (input.minimum.None? || input.minimum.value <= v) && (input.maximum.None? || v <= input.maximum.value)
  {
    ParseFormatInt(v);
    FormatNatDigits(if v < 0 then -v else v);
    PrintableIsStructuralText(FormatInt(v), c);
  }

  /** Booleans are the two words. */
  lemma BooleansAccepted(input: CommandInput, value: text, c: Escaping.Category)
    requires Escaping.GoCategoryC(c) && input.kind == BooleanKind && input.allowed == []
    ensures Accepts(input, value, c) <==> value == [116, 114, 117, 101] || value == [102, 97, 108, 115, 101]
  {
    if value == TRUE || value == FALSE {
      PrintableIsStructuralText(value, c);
    }
  }

  /** Text is well-formed and free of structural runes, and a closed list of values admits nothing else. */
  lemma TextsAccepted(input: CommandInput, value: text, c: Escaping.Category)
    requires input.kind == TextKind
    ensures Accepts(input, value, c) <==>
              && (input.allowed == [] || value in input.allowed)
              && Utf8.ValidString(value) && forall r :: r in Utf8.Runes(value) ==> !c(r) && r != 0x2028 && r != 0x2029
  {
  }
}
