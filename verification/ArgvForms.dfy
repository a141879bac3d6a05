/** Every argv the parser accepts, as a form: flags and words in any order, then perhaps `--` and more words. */
module ArgvForms {
  import opened Bytes
  import opened Inputs
  import opened Arguments
  import opened Invocations
  import Escaping

  /** One piece of an argv: a flag in one of its three spellings, or a positional word. */
  datatype Item =
    | JoinedFlag(input: CommandInput, text: text)
    | SpacedFlag(input: CommandInput, text: text)
    | BareFlag(input: CommandInput)
    | Word(word: text)

  function Tokens(item: Item): seq<text> {
    match item
    case JoinedFlag(input, value) => [input.name + [61] + value]
    case SpacedFlag(input, value) => [input.name, value]
    case BareFlag(input) => [input.name]
    case Word(word) => [word]
  }

  function AllTokens(items: seq<Item>): seq<text> {
    if items == [] then [] else Tokens(items[0]) + AllTokens(items[1..])
  }

  /** The words behind `--`, if it is there. */
  function Argv(items: seq<Item>, tail: Option<seq<text>>): seq<text> {
    AllTokens(items) + (if tail.Some? then [[45, 45]] + tail.value else [])
  }

  predicate StartsWithDash(s: text) {
    s != [] && s[0] == 45
  }

  predicate StartsWithTwoDashes(s: text) {
    |s| >= 2 && s[0] == 45 && s[1] == 45
  }

  /** The m-th word belongs to the m-th positional; the words beyond belong to the last one if it is repeatable. */
  function Owner(positionals: seq<CommandInput>, m: nat): Option<CommandInput> {
    if m < |positionals| then Some(positionals[m])
    else if positionals != [] && positionals[|positionals| - 1].repeatable then Some(positionals[|positionals| - 1])
    else None
  }

  /** How an item may be spelled after m words. Only an integer may start with a dash among the flags. */
  predicate Spelled(inputs: seq<CommandInput>, positionals: seq<CommandInput>, item: Item, m: nat) {
    match item
    case JoinedFlag(input, _) => input in inputs && input.source == Flag
    case SpacedFlag(input, value) =>
      input in inputs && input.source == Flag && input.kind != BooleanKind && !StartsWithDash(value)
    case BareFlag(input) => input in inputs && input.source == Flag && input.kind == BooleanKind
    case Word(word) =>
      !StartsWithTwoDashes(word)
      && (StartsWithDash(word) ==> Owner(positionals, m).Some? && Owner(positionals, m).value.kind == IntegerKind)
  }

  function WordsIn(item: Item): nat {
    if item.Word? then 1 else 0
  }

  predicate AllSpelled(inputs: seq<CommandInput>, positionals: seq<CommandInput>, items: seq<Item>, m: nat) {
    items == []
    || (Spelled(inputs, positionals, items[0], m) && AllSpelled(inputs, positionals, items[1..], m + WordsIn(items[0])))
  }

  /** One value for one input; None when there is no positional left for a word. */
  datatype Supply = Supply(owner: Option<CommandInput>, value: text)

  /** What an item supplies after m words: a bare flag supplies "true". */
  function SupplyOf(positionals: seq<CommandInput>, item: Item, m: nat): Supply {
    match item
    case JoinedFlag(input, value) => Supply(Some(input), value)
    case SpacedFlag(input, value) => Supply(Some(input), value)
    case BareFlag(input) => Supply(Some(input), [116, 114, 117, 101])
    case Word(word) => Supply(Owner(positionals, m), word)
  }

  function Supplies(positionals: seq<CommandInput>, items: seq<Item>, m: nat): seq<Supply> {
    if items == [] then []
    else [SupplyOf(positionals, items[0], m)] + Supplies(positionals, items[1..], m + WordsIn(items[0]))
  }

  function Words(words: seq<text>): (items: seq<Item>)
    ensures |items| == |words|
  {
    seq(|words|, i requires 0 <= i < |words| => Word(words[i]))
  }

  /** The values one name is given, in order. */
  function ValuesFor(s: seq<Supply>, name: text): seq<text> {
    if s == [] then []
    else (if s[0].owner.Some? && s[0].owner.value.name == name then [s[0].value] else []) + ValuesFor(s[1..], name)
  }

  function NamesIn(s: seq<Supply>): set<text> {
    set i | 0 <= i < |s| && s[i].owner.Some? :: s[i].owner.value.name
  }

  /** Every value has an input that accepts it, and only a repeatable input has more than one. */
  predicate SuppliesOk(s: seq<Supply>, c: Escaping.Category) {
    (forall i :: 0 <= i < |s| ==> s[i].owner.Some? && Accepts(s[i].owner.value, s[i].value, c))
    && (forall i, j | 0 <= i < j < |s| && s[i].owner.Some? && s[j].owner.Some? ::
          s[i].owner.value.name == s[j].owner.value.name ==> s[j].owner.value.repeatable)
  }

  // ----- adding supplies one by one

  function Fold(p: Parsed, s: seq<Supply>, c: Escaping.Category): Option<Parsed>
    decreases |s|
  {
    if s == [] then Some(p)
    else if s[0].owner.None? then None
    else
      match Add(p, s[0].owner.value, s[0].value, c)
      case Err(_) => None
      case Ok(q) => Fold(q, s[1..], c)
  }

  predicate Unclaimed(p: Parsed, s: seq<Supply>) {
    forall i :: 0 <= i < |s| && s[i].owner.Some? && s[i].owner.value.name in p.provided ==> s[i].owner.value.repeatable
  }

  lemma SuppliesStep(p: Parsed, s: seq<Supply>, c: Escaping.Category)
    requires s != [] && s[0].owner.Some?
    ensures
      var input := s[0].owner.value;
      SuppliesOk(s, c) && Unclaimed(p, s)
      <==> Add(p, input, s[0].value, c).Ok? && SuppliesOk(s[1..], c) && Unclaimed(Appended(p, input.name, s[0].value), s[1..])
  {
    var input, rest := s[0].owner.value, s[1..];
    assert forall i :: 0 <= i < |rest| ==> rest[i] == s[i + 1];
    assert forall i :: 1 <= i < |s| ==> s[i] == rest[i - 1];
  }

  lemma {:induction false} FoldSucceeds(p: Parsed, s: seq<Supply>, c: Escaping.Category)
    ensures Fold(p, s, c).Some? <==> SuppliesOk(s, c) && Unclaimed(p, s)
    decreases |s|
  {
    if s != [] && s[0].owner.Some? {
      SuppliesStep(p, s, c);
      if Add(p, s[0].owner.value, s[0].value, c).Ok? {
        FoldSucceeds(Appended(p, s[0].owner.value.name, s[0].value), s[1..], c);
      }
    }
  }

  /** After the fold each value is in its place. */
  lemma {:induction false} FoldHolds(p: Parsed, s: seq<Supply>, c: Escaping.Category)
    requires p.values.Keys == p.provided && Fold(p, s, c).Some?
    ensures
      var q := Fold(p, s, c).value;
      && q.provided == p.provided + NamesIn(s) && q.values.Keys == q.provided
      && q.defaults == p.defaults && q.marker == p.marker
      && forall n :: Get(q.values, n) == Get(p.values, n) + ValuesFor(s, n)
    decreases |s|
  {
    if s != [] {
      var next := Appended(p, s[0].owner.value.name, s[0].value);
      FoldHolds(next, s[1..], c);
      assert NamesIn(s) == {s[0].owner.value.name} + NamesIn(s[1..]);
      forall n ensures Get(next.values, n) + ValuesFor(s[1..], n) == Get(p.values, n) + ValuesFor(s, n) {
        ValuesStep(p, s, n);
      }
    }
  }

  lemma ValuesStep(p: Parsed, s: seq<Supply>, n: text)
    requires s != [] && s[0].owner.Some?
    ensures Get(Appended(p, s[0].owner.value.name, s[0].value).values, n) + ValuesFor(s[1..], n)
         == Get(p.values, n) + ValuesFor(s, n)
  {
    var one := if s[0].owner.value.name == n then [s[0].value] else [];
    Regroup(Get(p.values, n), one, ValuesFor(s[1..], n));
    AppendedValues(p, s[0].owner.value.name, s[0].value, n);
  }

  lemma AppendedValues(p: Parsed, name: text, value: text, n: text)
    ensures Get(Appended(p, name, value).values, n) == Get(p.values, n) + if name == n then [value] else []
  {
  }

  lemma {:induction false} FoldAppend(p: Parsed, s: seq<Supply>, t: seq<Supply>, c: Escaping.Category)
    ensures Fold(p, s + t, c) == if Fold(p, s, c).None? then None else Fold(Fold(p, s, c).value, t, c)
    decreases |s|
  {
    if s == [] {
      assert s + t == t;
    } else {
      assert (s + t)[1..] == s[1..] + t;
      if s[0].owner.Some? && Add(p, s[0].owner.value, s[0].value, c).Ok? {
        FoldAppend(Appended(p, s[0].owner.value.name, s[0].value), s[1..], t, c);
      }
    }
  }

  lemma {:induction false} FoldMarked(p: Parsed, s: seq<Supply>, c: Escaping.Category)
    ensures Fold(p.(marker := true), s, c)
         == if Fold(p, s, c).None? then None else Some(Fold(p, s, c).value.(marker := true))
    decreases |s|
  {
    if s != [] && s[0].owner.Some? && Add(p, s[0].owner.value, s[0].value, c).Ok? {
      FoldMarked(Appended(p, s[0].owner.value.name, s[0].value), s[1..], c);
    }
  }

  // ----- the scan follows the fold

  /** The parser's positional index after m words. */
  function IndexAfter(positionals: seq<CommandInput>, m: nat): nat {
    if m < |positionals| then m
    else if positionals != [] && positionals[|positionals| - 1].repeatable then |positionals| - 1
    else |positionals|
  }

  /** The parse after one more item, or None when its value is refused. */
  function After(positionals: seq<CommandInput>, item: Item, m: nat, p: Parsed, c: Escaping.Category): Option<Parsed> {
    var s := SupplyOf(positionals, item, m);
    if s.owner.None? then None
    else
      match Add(p, s.owner.value, s.value, c)
      case Err(_) => None
      case Ok(q) => Some(q)
  }

  function Next(positionals: seq<CommandInput>, item: Item, m: nat, st: State, p: Parsed): State {
    State(p, IndexAfter(positionals, m + WordsIn(item)), st.positionalOnly)
  }

  lemma FoldItem(positionals: seq<CommandInput>, items: seq<Item>, m: nat, p: Parsed, c: Escaping.Category)
    requires items != []
    ensures
      var first := After(positionals, items[0], m, p, c);
      Fold(p, Supplies(positionals, items, m), c)
      == if first.None? then None else Fold(first.value, Supplies(positionals, items[1..], m + WordsIn(items[0])), c)
  {
    assert Supplies(positionals, items, m)[1..] == Supplies(positionals, items[1..], m + WordsIn(items[0]));
  }

  /** Behind `--` there are only words, of any shape; before it every item must be spelled for its place. */
  predicate Readable(inputs: seq<CommandInput>, positionals: seq<CommandInput>, items: seq<Item>, m: nat, positionalOnly: bool) {
    if positionalOnly then forall i :: 0 <= i < |items| ==> items[i].Word? else AllSpelled(inputs, positionals, items, m)
  }

  function WordCount(items: seq<Item>): nat {
    if items == [] then 0 else WordsIn(items[0]) + WordCount(items[1..])
  }

  type Scanner = (State, seq<text>) -> Result<State>

  lemma OwnerAtIndex(positionals: seq<CommandInput>, m: nat)
    requires OnlyLastRepeatable(positionals)
    ensures var i := IndexAfter(positionals, m);
            && Owner(positionals, m) == (if i < |positionals| then Some(positionals[i]) else None)
            && (i < |positionals| ==> IndexAfter(positionals, m + 1) == if positionals[i].repeatable then i else i + 1)
  {
    assert m < |positionals| - 1 ==> !positionals[m].repeatable;
  }

  lemma WordStep(command: Command, positionals: seq<CommandInput>, word: text, m: nat, st: State)
    requires positionals == Of(command.inputs, Argument) && OnlyLastRepeatable(positionals)
    requires st.positionalIndex == IndexAfter(positionals, m)
    requires st.positionalOnly || Spelled(command.inputs, positionals, Word(word), m)
    ensures
      var after := After(positionals, Word(word), m, st.parsed, command.category);
      var step := PositionalStep(command, st, word);
      if after.None? then step.Err? else step == Ok((Next(positionals, Word(word), m, st, after.value), 1))
  {
    OwnerAtIndex(positionals, m);
    assert SupplyOf(positionals, Word(word), m) == Supply(Owner(positionals, m), word);
    if st.positionalIndex < |positionals| {
      var added := Add(st.parsed, positionals[st.positionalIndex], word, command.category);
    }
  }

  lemma WordsAreNoFlags(word: text)
    requires !StartsWithTwoDashes(word)
    ensures word != DASHDASH && !IsFlagToken(word)
  {
  }

  lemma WordParsed(command: Command, word: text, st: State, rest: seq<text>)
    requires st.positionalOnly || !StartsWithTwoDashes(word)
    ensures
      var step := PositionalStep(command, st, word);
      Scan(command, st, [word] + rest) == if step.Err? then Err(step.error) else Scan(command, step.value.0, rest)
  {
    var args := [word] + rest;
    assert args[0] == word && args[1..] == rest;
    if !st.positionalOnly {
      WordsAreNoFlags(word);
    }
    ScanOneToken(command, st, word, rest);
  }

  lemma FlagItemParsed(command: Command, positionals: seq<CommandInput>, item: Item, m: nat, st: State, rest: seq<text>)
    requires DistinctNames(command.inputs) && !item.Word? && ValidName(item.input)
    requires Spelled(command.inputs, positionals, item, m) && !st.positionalOnly
    ensures
      var after := After(positionals, item, m, st.parsed, command.category);
      var scan := Scan(command, st, Tokens(item) + rest);
      if after.None? then scan.Err? else scan == Scan(command, st.(parsed := after.value), rest)
  {
    var k :| 0 <= k < |command.inputs| && command.inputs[k] == item.input;
    var writing := if item.JoinedFlag? then Joined else if item.SpacedFlag? then Spaced else Bare;
    OccurrenceParsed(command, k, SupplyOf(positionals, item, m).value, (_, _) => writing, st, rest);
  }

  lemma ItemParsed(command: Command, positionals: seq<CommandInput>, item: Item, m: nat, st: State, rest: seq<text>)
    requires positionals == Of(command.inputs, Argument) && OnlyLastRepeatable(positionals)
    requires DistinctNames(command.inputs) && (item.Word? || ValidName(item.input))
    requires if st.positionalOnly then item.Word? else Spelled(command.inputs, positionals, item, m)
    requires st.positionalIndex == IndexAfter(positionals, m)
    ensures
      var after := After(positionals, item, m, st.parsed, command.category);
      var scan := Scan(command, st, Tokens(item) + rest);
      if after.None? then scan.Err? else scan == Scan(command, Next(positionals, item, m, st, after.value), rest)
  {
    if item.Word? {
      WordStep(command, positionals, item.word, m, st);
      WordParsed(command, item.word, st, rest);
    } else {
      FlagItemParsed(command, positionals, item, m, st, rest);
    }
  }

  /** One more item is scanned by adding what it supplies; `scan` stands for the scan of the command. */
  ghost predicate FollowsItems(inputs: seq<CommandInput>, positionals: seq<CommandInput>, c: Escaping.Category, scan: Scanner) {
    forall item: Item, m: nat, st: State, rest: seq<text>
      {:trigger scan(st, Tokens(item) + rest), After(positionals, item, m, st.parsed, c)} |
      && (if st.positionalOnly then item.Word? else Spelled(inputs, positionals, item, m))
      && st.positionalIndex == IndexAfter(positionals, m) ::
      var after := After(positionals, item, m, st.parsed, c);
      if after.None? then scan(st, Tokens(item) + rest).Err?
      else scan(st, Tokens(item) + rest) == scan(Next(positionals, item, m, st, after.value), rest)
  }

  lemma TokensStep(items: seq<Item>, rest: seq<text>)
    requires items != []
    ensures AllTokens(items) + rest == Tokens(items[0]) + (AllTokens(items[1..]) + rest)
  {
  }

  /** Scanning items adds what they supply, and the positional index follows their words. */
  ghost predicate Followed(positionals: seq<CommandInput>, c: Escaping.Category, scan: Scanner,
                           items: seq<Item>, m: nat, st: State, rest: seq<text>) {
    var folded := Fold(st.parsed, Supplies(positionals, items, m), c);
    var last := IndexAfter(positionals, m + WordCount(items));
    if folded.None? then scan(st, AllTokens(items) + rest).Err?
    else scan(st, AllTokens(items) + rest) == scan(State(folded.value, last, st.positionalOnly), rest)
  }

  lemma FirstFollowed(positionals: seq<CommandInput>, c: Escaping.Category, scan: Scanner,
                      items: seq<Item>, m: nat, st: State, rest: seq<text>, next: State, more: seq<text>)
    requires items != [] && After(positionals, items[0], m, st.parsed, c) == Some(next.parsed)
    requires scan(st, Tokens(items[0]) + more) == scan(next, more) && more == AllTokens(items[1..]) + rest
    requires next.positionalOnly == st.positionalOnly
    requires Followed(positionals, c, scan, items[1..], m + WordsIn(items[0]), next, rest)
    ensures Followed(positionals, c, scan, items, m, st, rest)
  {
    TokensStep(items, rest);
    FoldItem(positionals, items, m, st.parsed, c);
  }

  lemma FirstRefused(positionals: seq<CommandInput>, c: Escaping.Category, scan: Scanner,
                     items: seq<Item>, m: nat, st: State, rest: seq<text>)
    requires items != [] && After(positionals, items[0], m, st.parsed, c).None?
    requires scan(st, Tokens(items[0]) + (AllTokens(items[1..]) + rest)).Err?
    ensures Followed(positionals, c, scan, items, m, st, rest)
  {
    TokensStep(items, rest);
    FoldItem(positionals, items, m, st.parsed, c);
  }

  lemma {:induction false} ItemsFollowed(inputs: seq<CommandInput>, positionals: seq<CommandInput>, c: Escaping.Category,
                                         scan: Scanner, items: seq<Item>, m: nat, st: State, rest: seq<text>)
    requires FollowsItems(inputs, positionals, c, scan) && Readable(inputs, positionals, items, m, st.positionalOnly)
    requires st.positionalIndex == IndexAfter(positionals, m)
    ensures Followed(positionals, c, scan, items, m, st, rest)
    decreases |items|
  {
    if items == [] {
      assert AllTokens(items) + rest == rest;
    } else {
      var after := After(positionals, items[0], m, st.parsed, c);
      var more := AllTokens(items[1..]) + rest;
      if after.Some? {
        var next := Next(positionals, items[0], m, st, after.value);
        assert scan(st, Tokens(items[0]) + more) == scan(next, more);
        ItemsFollowed(inputs, positionals, c, scan, items[1..], m + WordsIn(items[0]), next, rest);
        FirstFollowed(positionals, c, scan, items, m, st, rest, next, more);
      } else {
        assert scan(st, Tokens(items[0]) + more).Err?;
        FirstRefused(positionals, c, scan, items, m, st, rest);
      }
    }
  }

  function Marked(st: State): State {
    State(st.parsed.(marker := true), st.positionalIndex, true)
  }

  /** All that the results below need to know of the scan. */
  ghost predicate ScansArgv(inputs: seq<CommandInput>, positionals: seq<CommandInput>, c: Escaping.Category, scan: Scanner) {
    && FollowsItems(inputs, positionals, c, scan)
    && (forall st: State, words: seq<text> {:trigger scan(st, [[45, 45]] + words)} :: !st.positionalOnly ==>
          scan(st, [[45, 45]] + words) == scan(Marked(st), words))
    && (forall st: State {:trigger scan(st, [])} :: scan(st, []) == Ok(st))
  }

  lemma ScanScansArgv(command: Command, positionals: seq<CommandInput>)
    requires Declared(command) && positionals == Of(command.inputs, Argument)
    ensures ScansArgv(command.inputs, positionals, command.category, (st, args) => Scan(command, st, args))
  {
    var scan := (st, args) => Scan(command, st, args);
    forall item: Item, m: nat, st: State, rest: seq<text>
      {:trigger scan(st, Tokens(item) + rest), After(positionals, item, m, st.parsed, command.category)} |
      && (if st.positionalOnly then item.Word? else Spelled(command.inputs, positionals, item, m))
      && st.positionalIndex == IndexAfter(positionals, m)
      ensures
        var after := After(positionals, item, m, st.parsed, command.category);
        if after.None? then scan(st, Tokens(item) + rest).Err?
        else scan(st, Tokens(item) + rest) == scan(Next(positionals, item, m, st, after.value), rest)
    {
      ItemParsed(command, positionals, item, m, st, rest);
    }
    forall st: State, words: seq<text> {:trigger scan(st, [[45, 45]] + words)} | !st.positionalOnly
      ensures scan(st, [[45, 45]] + words) == scan(Marked(st), words)
    {
      assert ([[45, 45]] + words)[0] == [45, 45] && ([[45, 45]] + words)[1..] == words;
    }
  }

  lemma {:induction false} TokensOfWords(words: seq<text>)
    ensures AllTokens(Words(words)) == words
  {
    if words != [] {
      TokensOfWords(words[1..]);
      assert Words(words)[1..] == Words(words[1..]);
    }
  }

  lemma {:induction false} SuppliesAppend(positionals: seq<CommandInput>, items: seq<Item>, more: seq<Item>, m: nat)
    ensures Supplies(positionals, items + more, m)
         == Supplies(positionals, items, m) + Supplies(positionals, more, m + WordCount(items))
    decreases |items|
  {
    if items == [] {
      assert items + more == more;
    } else {
      assert (items + more)[1..] == items[1..] + more;
      SuppliesAppend(positionals, items[1..], more, m + WordsIn(items[0]));
    }
  }

  lemma FoldSupplies(positionals: seq<CommandInput>, items: seq<Item>, more: seq<Item>, c: Escaping.Category)
    ensures
      var before := Fold(NOTHING, Supplies(positionals, items, 0), c);
      Fold(NOTHING, Supplies(positionals, items + more, 0), c)
      == if before.None? then None else Fold(before.value, Supplies(positionals, more, WordCount(items)), c)
  {
    var s, t := Supplies(positionals, items, 0), Supplies(positionals, more, WordCount(items));
    assert Supplies(positionals, items + more, 0) == s + t by { SuppliesAppend(positionals, items, more, 0); }
    FoldAppend(NOTHING, s, t, c);
  }

  lemma WordsBehindMarker(inputs: seq<CommandInput>, positionals: seq<CommandInput>, c: Escaping.Category, scan: Scanner,
                          words: seq<text>, m: nat, p: Parsed)
    requires ScansArgv(inputs, positionals, c, scan)
    ensures
      var folded := Fold(p, Supplies(positionals, Words(words), m), c);
      var end := scan(State(p, IndexAfter(positionals, m), false), [[45, 45]] + words);
      if folded.None? then end.Err? else end.Ok? && end.value.parsed == folded.value.(marker := true)
  {
    var st := State(p, IndexAfter(positionals, m), false);
    assert scan(st, [[45, 45]] + words) == scan(Marked(st), words);
    ItemsFollowed(inputs, positionals, c, scan, Words(words), m, Marked(st), []);
    TokensOfWords(words);
    assert words + [] == words;
    FoldMarked(p, Supplies(positionals, Words(words), m), c);
  }

  lemma ScanForm(inputs: seq<CommandInput>, positionals: seq<CommandInput>, c: Escaping.Category, scan: Scanner,
                 items: seq<Item>, tail: Option<seq<text>>)
    requires ScansArgv(inputs, positionals, c, scan) && AllSpelled(inputs, positionals, items, 0)
    ensures
      var folded := Fold(NOTHING, AllSupplies(positionals, items, tail), c);
      var end := scan(START, Argv(items, tail));
      if folded.None? then end.Err? else end.Ok? && end.value.parsed == folded.value.(marker := tail.Some?)
  {
    var words := if tail.Some? then tail.value else [];
    var rest := if tail.Some? then [[45, 45]] + tail.value else [];
    FoldSupplies(positionals, items, Words(words), c);
    ItemsFollowed(inputs, positionals, c, scan, items, 0, START, rest);
    var folded := Fold(NOTHING, Supplies(positionals, items, 0), c);
    if folded.Some? {
      FoldHolds(NOTHING, Supplies(positionals, items, 0), c);
      if tail.Some? {
        WordsBehindMarker(inputs, positionals, c, scan, words, WordCount(items), folded.value);
      }
    }
  }

  // ----- the two main results

  /** What an argv supplies, the words behind `--` like the ones before it. */
  function AllSupplies(positionals: seq<CommandInput>, items: seq<Item>, tail: Option<seq<text>>): seq<Supply> {
    Supplies(positionals, items + Words(if tail.Some? then tail.value else []), 0)
  }

  function Assigned(s: seq<Supply>): Assignment {
    map n | n in NamesIn(s) :: ValuesFor(s, n)
  }

  lemma Collected(p: Parsed, s: seq<Supply>)
    requires p.provided == NamesIn(s) && p.values.Keys == p.provided && p.defaults == {} && !p.marker
    requires forall n :: Get(p.values, n) == ValuesFor(s, n)
    ensures p == Parsed(Assigned(s), Assigned(s).Keys, {}, false)
  {
    forall n | n in p.values ensures p.values[n] == Assigned(s)[n] {
      assert Get(p.values, n) == ValuesFor(s, n);
    }
  }

  lemma FoldIsAssigned(s: seq<Supply>, c: Escaping.Category)
    ensures Fold(NOTHING, s, c).Some? <==> SuppliesOk(s, c)
    ensures Fold(NOTHING, s, c).Some? ==> Fold(NOTHING, s, c).value == Parsed(Assigned(s), Assigned(s).Keys, {}, false)
  {
    FoldSucceeds(NOTHING, s, c);
    if Fold(NOTHING, s, c).Some? {
      FoldHolds(NOTHING, s, c);
      var p := Fold(NOTHING, s, c).value;
      forall n ensures Get(p.values, n) == ValuesFor(s, n) {
        assert [] + ValuesFor(s, n) == ValuesFor(s, n);
      }
      Collected(p, s);
    }
  }

  lemma FormScanned(command: Command, items: seq<Item>, tail: Option<seq<text>>)
    requires Declared(command) && AllSpelled(command.inputs, Of(command.inputs, Argument), items, 0)
    ensures
      var s := AllSupplies(Of(command.inputs, Argument), items, tail);
      var end := Scan(command, START, Argv(items, tail));
      if SuppliesOk(s, command.category) then end.Ok? && end.value.parsed == Parsed(Assigned(s), Assigned(s).Keys, {}, tail.Some?)
      else end.Err?
  {
    var positionals := Of(command.inputs, Argument);
    ScanScansArgv(command, positionals);
    ScanForm(command.inputs, positionals, command.category, (st, args) => Scan(command, st, args), items, tail);
    FoldIsAssigned(AllSupplies(positionals, items, tail), command.category);
  }

  /** An argv of the form parses exactly when its supplies are in order and present together, and to just these. */
  lemma FormParsed(command: Command, items: seq<Item>, tail: Option<seq<text>>)
    requires Declared(command) && AllSpelled(command.inputs, Of(command.inputs, Argument), items, 0)
    ensures
      var s := AllSupplies(Of(command.inputs, Argument), items, tail);
      var parse := Parse(command, Argv(items, tail));
      && (parse.Ok? <==> SuppliesOk(s, command.category) && PresenceOk(command.inputs, NamesIn(s)))
      && (parse.Ok? ==> Carries(command.inputs, parse.value, Assigned(s), tail.Some?))
  {
    var s := AllSupplies(Of(command.inputs, Argument), items, tail);
    var p := Parsed(Assigned(s), Assigned(s).Keys, {}, tail.Some?);
    FormScanned(command, items, tail);
    FinishExactly(command, p);
    EffectiveCarries(command, Assigned(s), tail.Some?);
  }

  // ----- nothing else parses

  /** The first tokens of args are an item, and what follows it still scans. */
  ghost predicate StartsWithItem(inputs: seq<CommandInput>, positionals: seq<CommandInput>, scan: Scanner,
                                 m: nat, args: seq<text>, item: Item, next: State) {
    var n := |Tokens(item)|;
    && Spelled(inputs, positionals, item, m) && n <= |args| && Tokens(item) == args[..n]
    && scan(next, args[n..]).Ok? && !next.positionalOnly && next.positionalIndex == IndexAfter(positionals, m + WordsIn(item))
  }

  ghost predicate NeedsItems(inputs: seq<CommandInput>, positionals: seq<CommandInput>, scan: Scanner) {
    forall m: nat, st: State, args: seq<text> {:trigger scan(st, args), IndexAfter(positionals, m)} |
      && scan(st, args).Ok? && args != [] && args[0] != [45, 45]
      && !st.positionalOnly && st.positionalIndex == IndexAfter(positionals, m) ::
      exists item, next :: StartsWithItem(inputs, positionals, scan, m, args, item, next)
  }

  lemma ItemInFront(inputs: seq<CommandInput>, positionals: seq<CommandInput>, item: Item, items: seq<Item>,
                    tail: Option<seq<text>>, m: nat)
    requires Spelled(inputs, positionals, item, m) && AllSpelled(inputs, positionals, items, m + WordsIn(item))
    ensures AllSpelled(inputs, positionals, [item] + items, m)
    ensures Argv([item] + items, tail) == Tokens(item) + Argv(items, tail)
  {
    assert ([item] + items)[1..] == items;
    Regroup(Tokens(item), AllTokens(items), if tail.Some? then [[45, 45]] + tail.value else []);
  }

  lemma {:induction false} ScanIsForm(inputs: seq<CommandInput>, positionals: seq<CommandInput>, scan: Scanner,
                                      m: nat, st: State, args: seq<text>)
    returns (items: seq<Item>, tail: Option<seq<text>>)
    requires NeedsItems(inputs, positionals, scan) && scan(st, args).Ok?
    requires !st.positionalOnly && st.positionalIndex == IndexAfter(positionals, m)
    ensures AllSpelled(inputs, positionals, items, m) && Argv(items, tail) == args
    decreases |args|
  {
    items, tail := [], None;
    if args != [] {
      if args[0] == [45, 45] {
        tail := Some(args[1..]);
      } else {
        var item, next :| StartsWithItem(inputs, positionals, scan, m, args, item, next);
        var n := |Tokens(item)|;
        items, tail := ScanIsForm(inputs, positionals, scan, m + WordsIn(item), next, args[n..]);
        ItemInFront(inputs, positionals, item, items, tail, m);
        Halves(args, n);
        items := [item] + items;
      }
    }
  }

  lemma FlagTokenIsItem(command: Command, positionals: seq<CommandInput>, m: nat, st: State, args: seq<text>)
    returns (item: Item)
    requires args != [] && IsFlagToken(args[0]) && FlagStep(command, st, args).Ok?
    ensures !item.Word? && Spelled(command.inputs, positionals, item, m)
    ensures var next := FlagStep(command, st, args).value;
            && Tokens(item) == args[..next.1] && next.0.positionalOnly == st.positionalOnly
            && next.0.positionalIndex == st.positionalIndex
  {
    var name := FlagName(args[0]);
    var input := FlagTable(command.inputs)[name];
    FlagTableOnlyHas(command.inputs, name);
    if HasInlineValue(args[0]) {
      item := JoinedFlag(input, InlineValue(args[0]));
      assert args[0] == name + [61] + InlineValue(args[0]);
    } else {
      assert name == args[0];
      item := if input.kind == BooleanKind then BareFlag(input) else SpacedFlag(input, args[1]);
    }
  }

  lemma WordTokenIsItem(command: Command, positionals: seq<CommandInput>, m: nat, st: State, word: text)
    requires positionals == Of(command.inputs, Argument) && OnlyLastRepeatable(positionals)
    requires !IsFlagToken(word) && !st.positionalOnly && PositionalStep(command, st, word).Ok?
    requires st.positionalIndex == IndexAfter(positionals, m)
    ensures Spelled(command.inputs, positionals, Word(word), m)
    ensures var next := PositionalStep(command, st, word).value.0;
            !next.positionalOnly && next.positionalIndex == IndexAfter(positionals, m + 1)
  {
    assert m < |positionals| - 1 ==> !positionals[m].repeatable;
  }

  lemma ScanNeedsItem(command: Command, positionals: seq<CommandInput>, m: nat, st: State, args: seq<text>)
    returns (item: Item, next: State)
    requires positionals == Of(command.inputs, Argument) && OnlyLastRepeatable(positionals)
    requires Scan(command, st, args).Ok? && args != [] && args[0] != [45, 45]
    requires !st.positionalOnly && st.positionalIndex == IndexAfter(positionals, m)
    ensures StartsWithItem(command.inputs, positionals, (s, a) => Scan(command, s, a), m, args, item, next)
  {
    next := Step(command, st, args).value.0;
    if IsFlagToken(args[0]) {
      item := FlagTokenIsItem(command, positionals, m, st, args);
    } else {
      WordTokenIsItem(command, positionals, m, st, args[0]);
      item := Word(args[0]);
    }
  }

  /** An argv parses if and only if it is some spelling of supplies that are in order and present together. */
  lemma ParsesExactly(command: Command, args: seq<text>)
    requires Declared(command)
    ensures
      var positionals := Of(command.inputs, Argument);
      Parse(command, args).Ok? <==>
      exists items, tail :: Argv(items, tail) == args && AllSpelled(command.inputs, positionals, items, 0)
        && SuppliesOk(AllSupplies(positionals, items, tail), command.category)
        && PresenceOk(command.inputs, NamesIn(AllSupplies(positionals, items, tail)))
  {
    var positionals := Of(command.inputs, Argument);
    if Parse(command, args).Ok? {
      var items, tail := ParseIsForm(command, args);
      FormParsed(command, items, tail);
    }
    if items, tail :| Argv(items, tail) == args && AllSpelled(command.inputs, positionals, items, 0)
                      && SuppliesOk(AllSupplies(positionals, items, tail), command.category)
                      && PresenceOk(command.inputs, NamesIn(AllSupplies(positionals, items, tail))) {
      FormParsed(command, items, tail);
    }
  }

  lemma ParseIsForm(command: Command, args: seq<text>) returns (items: seq<Item>, tail: Option<seq<text>>)
    requires Declared(command) && Parse(command, args).Ok?
    ensures Argv(items, tail) == args && AllSpelled(command.inputs, Of(command.inputs, Argument), items, 0)
  {
    var positionals := Of(command.inputs, Argument);
    var scan := (st, args) => Scan(command, st, args);
    forall m: nat, st: State, args: seq<text> {:trigger scan(st, args), IndexAfter(positionals, m)} |
      && scan(st, args).Ok? && args != [] && args[0] != [45, 45]
      && !st.positionalOnly && st.positionalIndex == IndexAfter(positionals, m)
      ensures exists item, next :: StartsWithItem(command.inputs, positionals, scan, m, args, item, next)
    {
      var item, next := ScanNeedsItem(command, positionals, m, st, args);
    }
    assert scan(START, args).Ok?;
    items, tail := ScanIsForm(command.inputs, positionals, scan, 0, START, args);
  }
}
