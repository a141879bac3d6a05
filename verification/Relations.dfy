/** The catalog's static view of `requires` and `conflicts_with` (internal/cli/catalog.go). */
module Relations {
  import opened Bytes
  import opened Inputs
  import Sorting

  type Declarations = map<text, CommandInput>

  predicate NoRepeats(names: seq<text>) {
    forall i, j :: 0 <= i < j < |names| ==> names[i] != names[j]
  }

  predicate RequireOk(input: CommandInput, name: text, inputs: Declarations) {
    name != input.name && name in inputs && CommandLine(input) && CommandLine(inputs[name])
    && (input.required ==> inputs[name].required)
  }

  predicate ConflictOk(input: CommandInput, name: text, inputs: Declarations) {
    name != input.name && name in inputs && CommandLine(input) && CommandLine(inputs[name])
    && name !in input.requires_ && !(input.required && inputs[name].required)
  }

  /** What validateInputRelations demands of one input. */
  predicate RelationsValid(input: CommandInput, inputs: Declarations) {
    NoRepeats(input.requires_) && NoRepeats(input.conflictsWith)
    && (forall i :: 0 <= i < |input.requires_| ==> RequireOk(input, input.requires_[i], inputs))
    && (forall i :: 0 <= i < |input.conflictsWith| ==> ConflictOk(input, input.conflictsWith[i], inputs))
  }

  method ValidateInputRelations(input: CommandInput, inputs: Declarations) returns (ok: bool)
    ensures ok <==> RelationsValid(input, inputs)
  {
    var requires_: set<text> := {};
    for k := 0 to |input.requires_|
      invariant forall n :: n in requires_ <==> n in input.requires_[..k]
      invariant NoRepeats(input.requires_[..k])
      invariant forall i :: 0 <= i < k ==> RequireOk(input, input.requires_[i], inputs)
    {
      var name := input.requires_[k];
      assert input.requires_[..k + 1] == input.requires_[..k] + [name];
      if name == input.name {
        return false;
      }
      if name in requires_ {
        ghost var i :| 0 <= i < k && input.requires_[..k][i] == name;
        assert input.requires_[i] == input.requires_[k];
        return false;
      }
      if !RequireOk(input, name, inputs) {
        return false;
      }
      requires_ := requires_ + {name};
    }
    assert input.requires_[..|input.requires_|] == input.requires_;
    var conflicts: set<text> := {};
    for k := 0 to |input.conflictsWith|
      invariant forall n :: n in conflicts <==> n in input.conflictsWith[..k]
      invariant NoRepeats(input.conflictsWith[..k])
      invariant forall i :: 0 <= i < k ==> ConflictOk(input, input.conflictsWith[i], inputs)
    {
      var name := input.conflictsWith[k];
      assert input.conflictsWith[..k + 1] == input.conflictsWith[..k] + [name];
      if name == input.name {
        return false;
      }
      if name in conflicts {
        ghost var i :| 0 <= i < k && input.conflictsWith[..k][i] == name;
        assert input.conflictsWith[i] == input.conflictsWith[k];
        return false;
      }
      if name !in inputs || !CommandLine(input) || !CommandLine(inputs[name]) || name in requires_
         || (input.required && inputs[name].required) {
        return false;
      }
      conflicts := conflicts + {name};
    }
    assert input.conflictsWith[..|input.conflictsWith|] == input.conflictsWith;
    return true;
  }

  // ----- presence sets

  function RequiresOf(inputs: Declarations, name: text): seq<text> {
    if name in inputs then inputs[name].requires_ else []
  }

  function ConflictsOf(inputs: Declarations, name: text): seq<text> {
    if name in inputs then inputs[name].conflictsWith else []
  }

  ghost predicate ClosedUnder(inputs: Declarations, names: set<text>) {
    forall n, i :: n in names && 0 <= i < |RequiresOf(inputs, n)| ==> RequiresOf(inputs, n)[i] in names
  }

  ghost predicate ConflictFree(inputs: Declarations, names: set<text>) {
    forall n, i :: n in names && 0 <= i < |ConflictsOf(inputs, n)| ==> ConflictsOf(inputs, n)[i] !in names
  }

  /** The least closed superset. */
  ghost predicate IsClosure(inputs: Declarations, start: set<text>, closure: set<text>) {
    start <= closure && ClosedUnder(inputs, closure)
    && forall s :: start <= s && ClosedUnder(inputs, s) ==> closure <= s
  }

  /** Some presence set around these names satisfies every relation. */
  ghost predicate Satisfiable(inputs: Declarations, names: set<text>) {
    exists s :: names <= s && ClosedUnder(inputs, s) && ConflictFree(inputs, s)
  }

  /** The closure decides: if it has a conflict, so has every presence set around the start. */
  lemma ClosureDecides(inputs: Declarations, start: set<text>, closure: set<text>)
    requires IsClosure(inputs, start, closure)
    ensures ConflictFree(inputs, closure) <==> Satisfiable(inputs, start)
  {
    if s :| start <= s && ClosedUnder(inputs, s) && ConflictFree(inputs, s) {
      assert closure <= s;
    }
  }

  /** Starting from a closure instead of its start changes nothing: closing is idempotent and monotone. */
  lemma ClosedStartIsHarmless(inputs: Declarations, start: set<text>, closure: set<text>, more: set<text>)
    requires IsClosure(inputs, start, closure)
    ensures Satisfiable(inputs, closure + more) <==> Satisfiable(inputs, start + more)
  {
    if s :| start + more <= s && ClosedUnder(inputs, s) && ConflictFree(inputs, s) {
      assert closure + more <= s;
    }
    if s :| closure + more <= s && ClosedUnder(inputs, s) && ConflictFree(inputs, s) {
      assert start + more <= s;
    }
  }

  /** A Go map[string]bool: the callee's changes reach the caller. */
  class Presence {
    var names: set<text>

    constructor (names: set<text>)
      ensures this.names == names
    {
      this.names := names;
    }
  }

  function Universe(inputs: Declarations, start: set<text>): set<text> {
    start + set n, i | n in inputs && 0 <= i < |inputs[n].requires_| :: inputs[n].requires_[i]
  }

  /** inputPresenceConflict: closes the selected set in place, then looks for a conflict inside it. */
  method InputPresenceConflict(selected: Presence, inputs: Declarations) returns (conflict: Option<(text, text)>)
    modifies selected
    ensures IsClosure(inputs, old(selected.names), selected.names)
    ensures conflict.None? <==> ConflictFree(inputs, selected.names)
    ensures conflict.Some? ==> conflict.value.0 in selected.names && conflict.value.1 in selected.names
                               && conflict.value.1 in ConflictsOf(inputs, conflict.value.0)
  {
    CloseSelected(selected, inputs);
    var selectedNames := Sorting.SortedKeys(selected.names);
    for k := 0 to |selectedNames|
      invariant forall i, c :: 0 <= i < k && 0 <= c < |ConflictsOf(inputs, selectedNames[i])| ==>
                                 ConflictsOf(inputs, selectedNames[i])[c] !in selected.names
    {
      var name := selectedNames[k];
      var conflicts := ConflictsOf(inputs, name);
      for c := 0 to |conflicts|
        invariant forall d :: 0 <= d < c ==> conflicts[d] !in selected.names
      {
        if conflicts[c] in selected.names {
          assert selectedNames[k] in selected.names;
          return Some((name, conflicts[c]));
        }
      }
    }
    forall n, c | n in selected.names && 0 <= c < |ConflictsOf(inputs, n)|
      ensures ConflictsOf(inputs, n)[c] !in selected.names
    {
      var i :| 0 <= i < |selectedNames| && selectedNames[i] == n;
    }
    return None;
  }

  /** The worklist: everything before index has its requirements selected. */
  method CloseSelected(selected: Presence, inputs: Declarations)
    modifies selected
    ensures IsClosure(inputs, old(selected.names), selected.names)
  {
    ghost var start, universe := selected.names, Universe(inputs, selected.names);
    var queue := Sorting.SortedKeys(selected.names);
    var index := 0;
    while index < |queue|
      invariant 0 <= index <= |queue| && |queue| == |selected.names|
      invariant forall n :: n in queue <==> n in selected.names
      invariant start <= selected.names <= universe
      invariant forall s :: start <= s && ClosedUnder(inputs, s) ==> selected.names <= s
      invariant forall i, r :: 0 <= i < index && 0 <= r < |RequiresOf(inputs, queue[i])| ==>
                                 RequiresOf(inputs, queue[i])[r] in selected.names
      decreases |universe| - index
    {
      SubsetSize(selected.names, universe);
      var name := queue[index];
      queue := SelectRequired(selected, inputs, name, queue, start, universe);
      index := index + 1;
      SubsetSize(selected.names, universe);
    }
    forall n, r | n in selected.names && 0 <= r < |RequiresOf(inputs, n)|
      ensures RequiresOf(inputs, n)[r] in selected.names
    {
      var i :| 0 <= i < |queue| && queue[i] == n;
    }
  }

  /** The inner loop: unselected requirements of one name join the set and the queue. */
  method SelectRequired(selected: Presence, inputs: Declarations, name: text, before: seq<text>,
                        ghost start: set<text>, ghost universe: set<text>)
    returns (queue: seq<text>)
    requires |before| == |selected.names| && forall n :: n in before <==> n in selected.names
    requires name in selected.names && universe == Universe(inputs, start) && start <= selected.names <= universe
    requires forall s :: start <= s && ClosedUnder(inputs, s) ==> selected.names <= s
    modifies selected
    ensures before <= queue && |queue| == |selected.names|
    ensures forall n :: n in queue <==> n in selected.names
    ensures old(selected.names) <= selected.names <= universe
    ensures forall s :: start <= s && ClosedUnder(inputs, s) ==> selected.names <= s
    ensures forall r :: 0 <= r < |RequiresOf(inputs, name)| ==> RequiresOf(inputs, name)[r] in selected.names
  {
    queue := before;
    var required := RequiresOf(inputs, name);
    for r := 0 to |required|
      invariant before <= queue && |queue| == |selected.names|
      invariant forall n :: n in queue <==> n in selected.names
      invariant old(selected.names) <= selected.names <= universe
      invariant forall s :: start <= s && ClosedUnder(inputs, s) ==> selected.names <= s
      invariant forall q :: 0 <= q < r ==> required[q] in selected.names
    {
      if required[r] !in selected.names {
        forall s | start <= s && ClosedUnder(inputs, s) ensures required[r] in s {
          assert name in s;
        }
        selected.names := selected.names + {required[r]};
        queue := queue + [required[r]];
      }
    }
  }

  function RequiredNames(inputs: Declarations): set<text> {
    set n | n in inputs && inputs[n].required
  }

  /** The required inputs can be supplied together, and so can each optional input with them. */
  ghost predicate AllSatisfiable(inputs: Declarations) {
    Satisfiable(inputs, RequiredNames(inputs))
    && forall n :: n in inputs && !inputs[n].required ==> Satisfiable(inputs, RequiredNames(inputs) + {n})
  }

  /** validateInputRelationSatisfiability. The first call has already closed `required` when it is copied. */
  method ValidateSatisfiability(inputs: Declarations) returns (ok: bool)
    ensures ok <==> AllSatisfiable(inputs)
  {
    var names := Sorting.SortedKeys(inputs.Keys);
    var required := new Presence(RequiredNames(inputs));
    var conflict := InputPresenceConflict(required, inputs);
    ClosureDecides(inputs, RequiredNames(inputs), required.names);
    if conflict.Some? {
      return false;
    }
    ghost var closure := required.names;
    for k := 0 to |names|
      invariant required.names == closure
      invariant forall i :: 0 <= i < k && names[i] in inputs && !inputs[names[i]].required ==>
                              Satisfiable(inputs, RequiredNames(inputs) + {names[i]})
    {
      if inputs[names[k]].required {
        continue;
      }
      var selected := new Presence(required.names + {names[k]});
      conflict := InputPresenceConflict(selected, inputs);
      ClosureDecides(inputs, closure + {names[k]}, selected.names);
      ClosedStartIsHarmless(inputs, RequiredNames(inputs), closure, {names[k]});
      if conflict.Some? {
        return false;
      }
    }
    return true;
  }
}
