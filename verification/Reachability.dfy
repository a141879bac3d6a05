/** validateReferenceReachability (internal/cli/catalog.go): no reference kind may be trapped in a cycle of
    commands that need it before they can produce it. */
module Reachability {
  import opened Bytes

  /** The part of an input that matters: an empty kind is no reference. */
  datatype RefInput = RefInput(required: bool, kind: text)

  datatype Command = Command(inputs: seq<RefInput>, produced: seq<text>)

  predicate Ready(command: Command, kinds: set<text>) {
    forall i :: 0 <= i < |command.inputs| && command.inputs[i].required && command.inputs[i].kind != [] ==>
                  command.inputs[i].kind in kinds
  }

  function KindsOf(command: Command): set<text> {
    set i | 0 <= i < |command.produced| :: command.produced[i]
  }

  function KindsAfter(run: seq<Command>): set<text> {
    if run == [] then {} else KindsAfter(run[..|run| - 1]) + KindsOf(run[|run| - 1])
  }

  /** A command sequence in which every required reference was produced earlier. */
  predicate ValidRun(commands: seq<Command>, run: seq<Command>) {
    run == []
    || (run[|run| - 1] in commands && Ready(run[|run| - 1], KindsAfter(run[..|run| - 1]))
        && ValidRun(commands, run[..|run| - 1]))
  }

  ghost predicate Obtainable(commands: seq<Command>, kind: text) {
    exists run :: ValidRun(commands, run) && kind in KindsAfter(run)
  }

  /** A set that every ready command keeps. */
  predicate Closed(commands: seq<Command>, kinds: set<text>) {
    forall i :: 0 <= i < |commands| && Ready(commands[i], kinds) ==> KindsOf(commands[i]) <= kinds
  }

  /** No run leaves a closed set: what a valid run produces belongs to every fixpoint. */
  lemma {:induction false} RunsStayInside(commands: seq<Command>, kinds: set<text>, run: seq<Command>)
    requires Closed(commands, kinds) && ValidRun(commands, run)
    ensures KindsAfter(run) <= kinds
  {
    if run != [] {
      RunsStayInside(commands, kinds, run[..|run| - 1]);
      var last := run[|run| - 1];
      var i :| 0 <= i < |commands| && commands[i] == last;
      assert Ready(last, kinds);
    }
  }

  function AllKinds(commands: seq<Command>): set<text> {
    set i, j | 0 <= i < |commands| && 0 <= j < |commands[i].produced| :: commands[i].produced[j]
  }

  /** The loop computes the least fixpoint and accepts exactly when every produced kind is obtainable. */
  method ValidateReferenceReachability(commands: seq<Command>) returns (ok: bool, reachable: set<text>)
    ensures Closed(commands, reachable)
    ensures forall kind :: kind in reachable <==> Obtainable(commands, kind)
    ensures ok <==> forall i, j :: 0 <= i < |commands| && 0 <= j < |commands[i].produced| ==>
                                     Obtainable(commands, commands[i].produced[j])
  {
    reachable := {};
    ghost var run: seq<Command> := [];
    var progress := true;
    while progress
      invariant ValidRun(commands, run) && reachable == KindsAfter(run)
      invariant reachable <= AllKinds(commands)
      invariant !progress ==> Closed(commands, reachable)
      decreases |AllKinds(commands) - reachable|, progress
    {
      ghost var before := reachable;
      reachable, progress, run := OnePass(commands, reachable, run);
      if progress {
        Shrinks(AllKinds(commands), before, reachable);
      }
    }
    forall kind ensures kind in reachable <==> Obtainable(commands, kind) {
      if r :| ValidRun(commands, r) && kind in KindsAfter(r) {
        RunsStayInside(commands, reachable, r);
      }
    }
    ok := AllProducedIn(commands, reachable);
  }

  /** One pass over the commands; ready ones run at once, so later ones see what they produced. */
  method OnePass(commands: seq<Command>, start: set<text>, ghost startRun: seq<Command>)
    returns (reachable: set<text>, progress: bool, ghost run: seq<Command>)
    requires ValidRun(commands, startRun) && start == KindsAfter(startRun) && start <= AllKinds(commands)
    ensures ValidRun(commands, run) && reachable == KindsAfter(run)
    ensures start <= reachable <= AllKinds(commands)
    ensures progress <==> reachable != start
    ensures !progress ==> Closed(commands, reachable)
  {
    reachable, progress, run := start, false, startRun;
    for k := 0 to |commands|
      invariant ValidRun(commands, run) && reachable == KindsAfter(run)
      invariant start <= reachable <= AllKinds(commands)
      invariant progress <==> reachable != start
      invariant !progress ==> forall i :: 0 <= i < k && Ready(commands[i], start) ==> KindsOf(commands[i]) <= start
    {
      var ready := IsReady(commands[k], reachable);
      if !ready {
        continue;
      }
      RunOneMore(commands, run, k);
      run := run + [commands[k]];
      var added;
      reachable, added := AddProduced(commands[k], reachable);
      progress := progress || added;
    }
  }

  lemma RunOneMore(commands: seq<Command>, run: seq<Command>, k: nat)
    requires ValidRun(commands, run) && k < |commands| && Ready(commands[k], KindsAfter(run))
    ensures ValidRun(commands, run + [commands[k]])
    ensures KindsAfter(run + [commands[k]]) == KindsAfter(run) + KindsOf(commands[k])
    ensures KindsOf(commands[k]) <= AllKinds(commands)
  {
    var extended := run + [commands[k]];
    assert extended[..|extended| - 1] == run;
  }

  method AddProduced(command: Command, start: set<text>) returns (reachable: set<text>, added: bool)
    ensures reachable == start + KindsOf(command)
    ensures added <==> reachable != start
  {
    reachable, added := start, false;
    for j := 0 to |command.produced|
      invariant reachable == start + set i | 0 <= i < j :: command.produced[i]
      invariant added <==> reachable != start
    {
      if command.produced[j] in reachable {
        continue;
      }
      reachable := reachable + {command.produced[j]};
      added := true;
    }
  }

  method AllProducedIn(commands: seq<Command>, reachable: set<text>) returns (ok: bool)
    ensures ok <==> forall i, j :: 0 <= i < |commands| && 0 <= j < |commands[i].produced| ==>
                                     commands[i].produced[j] in reachable
  {
    for k := 0 to |commands|
      invariant forall i, j :: 0 <= i < k && 0 <= j < |commands[i].produced| ==> commands[i].produced[j] in reachable
    {
      for j := 0 to |commands[k].produced|
        invariant forall i :: 0 <= i < j ==> commands[k].produced[i] in reachable
      {
        if commands[k].produced[j] !in reachable {
          return false;
        }
      }
    }
    return true;
  }

  method IsReady(command: Command, reachable: set<text>) returns (ready: bool)
    ensures ready <==> Ready(command, reachable)
  {
    for i := 0 to |command.inputs|
      invariant forall h :: 0 <= h < i && command.inputs[h].required && command.inputs[h].kind != [] ==>
                              command.inputs[h].kind in reachable
    {
      var input := command.inputs[i];
      if !input.required || input.kind == [] {
        continue;
      }
      if input.kind !in reachable {
        return false;
      }
    }
    return true;
  }

  lemma Shrinks(all: set<text>, before: set<text>, after: set<text>)
    requires before <= after <= all && before != after
    ensures |all - after| < |all - before|
  {
    assert after - before != {};
    var x :| x in after - before;
    assert all - after <= all - before - {x};
    SubsetSize(all - after, all - before - {x});
    assert |all - before - {x}| == |all - before| - 1;
  }

  /** The verdict depends on which commands there are, not on their order or repetition. */
  lemma {:induction false} OrderDoesNotMatter(commands: seq<Command>, others: seq<Command>, kind: text)
    requires forall c :: c in commands <==> c in others
    ensures Obtainable(commands, kind) <==> Obtainable(others, kind)
  {
    if run :| ValidRun(commands, run) && kind in KindsAfter(run) {
      SameRuns(commands, others, run);
    }
    if run :| ValidRun(others, run) && kind in KindsAfter(run) {
      SameRuns(others, commands, run);
    }
  }

  lemma {:induction false} SameRuns(commands: seq<Command>, others: seq<Command>, run: seq<Command>)
    requires forall c :: c in commands ==> c in others
    requires ValidRun(commands, run)
    ensures ValidRun(others, run)
  {
    if run != [] {
      SameRuns(commands, others, run[..|run| - 1]);
    }
  }
}
