/** More steps never change a run that did not exhaust its budget. */
module ExecutorFuel {
  import opened Common
  import opened Jir
  import opened Execution

  function Richer<T>(r: Run<T>, extra: nat): Run<T> { Run(r.outcome, r.steps + extra) }

  lemma {:induction false} InstructionFuel(m: Module, instruction: Instruction, frame: Frame, steps: nat, extra: nat)
    requires RunInstruction(m, instruction, frame, steps).outcome != Err(StepLimit)
    ensures RunInstruction(m, instruction, frame, steps + extra)
         == Richer(RunInstruction(m, instruction, frame, steps), extra)
    decreases steps, 3
  {
    if instruction.kind.Call? {
      var arguments := CollectValues(frame, instruction.kind.arguments);
      if arguments.Ok? { FunctionFuel(m, instruction.kind.callee, arguments.value, steps, extra); }
    }
  }

  /** If a call with `steps` steps ends in a result, or in any error but the step limit, then with
      `extra` more steps it ends the same way and has exactly `extra` more steps left. */
  lemma {:induction false} FunctionFuel(m: Module, id: FunctionId, arguments: seq<Value>, steps: nat, extra: nat)
    requires RunFunction(m, id, arguments, steps).outcome != Err(StepLimit)
    ensures RunFunction(m, id, arguments, steps + extra) == Richer(RunFunction(m, id, arguments, steps), extra)
    decreases steps, 2
  {
    if id < |m.functions| {
      var f := m.functions[id];
      if !f.linkage.Import? && |f.parameters| == |arguments| {
        BlocksFuel(m, f, BindAll(Frame(map[], map[], []), f.parameters, arguments), 0, [], steps, extra);
      }
    }
  }

  lemma {:induction false} BlocksFuel(
    m: Module, f: Function, frame: Frame, current: BlockId, incoming: seq<Value>, steps: nat, extra: nat)
    requires RunBlocks(m, f, frame, current, incoming, steps).outcome != Err(StepLimit)
    ensures RunBlocks(m, f, frame, current, incoming, steps + extra)
         == Richer(RunBlocks(m, f, frame, current, incoming, steps), extra)
    decreases steps, 1
  {
    if current < |f.blocks| && |f.blocks[current].parameters| == |incoming| {
      var block := f.blocks[current];
      BlockFuel(m, f, block, BindAll(frame, block.parameters, incoming), steps - 1, extra);
      assert (steps + extra) - 1 == (steps - 1) + extra;
    }
  }

  lemma {:induction false} BlockFuel(m: Module, f: Function, block: Block, frame: Frame, steps: nat, extra: nat)
    requires RunBlock(m, f, block, frame, steps).outcome != Err(StepLimit)
    ensures RunBlock(m, f, block, frame, steps + extra) == Richer(RunBlock(m, f, block, frame, steps), extra)
    decreases steps, 4
  {
    InstructionsFuel(m, block.instructions, frame, steps, extra);
    var body := RunInstructions(m, block.instructions, frame, steps);
    if body.outcome.Ok? { TerminatorFuel(m, f, block.terminator, body.outcome.value, body.steps, extra); }
  }

  lemma {:induction false} TerminatorFuel(
    m: Module, f: Function, t: Terminator, frame: Frame, steps: nat, extra: nat)
    requires RunTerminator(m, f, t, frame, steps).outcome != Err(StepLimit)
    ensures RunTerminator(m, f, t, frame, steps + extra) == Richer(RunTerminator(m, f, t, frame, steps), extra)
    decreases steps, 2
  {
    var next := Transfer(m, frame, t);
    if next.Ok? && next.value.Enter? {
      BlocksFuel(m, f, frame, next.value.target, next.value.incoming, steps, extra);
    }
  }

  lemma {:induction false} InstructionsFuel(
    m: Module, instructions: seq<Instruction>, frame: Frame, steps: nat, extra: nat)
    requires RunInstructions(m, instructions, frame, steps).outcome != Err(StepLimit)
    ensures RunInstructions(m, instructions, frame, steps + extra)
         == Richer(RunInstructions(m, instructions, frame, steps), extra)
    decreases steps, 0
  {
    if instructions != [] {
      InstructionFuel(m, instructions[0], frame, steps - 1, extra);
      var produced := RunInstruction(m, instructions[0], frame, steps - 1);
      if produced.outcome.Ok? {
        var after := Record(instructions[0], produced.outcome.value, frame);
        if after.Ok? { InstructionsFuel(m, instructions[1..], after.value, produced.steps, extra); }
      }
    }
  }

  /** The observable result does not depend on the budget once the budget suffices. */
  lemma EntryFuel(m: Module, steps: nat, more: nat)
    requires steps <= more && RunEntry(m, steps).outcome != Err(StepLimit)
    ensures RunEntry(m, more) == Richer(RunEntry(m, steps), more - steps)
  {
    var entry := EntryIndex(m.functions);
    if entry < |m.functions| && m.functions[entry].parameters == []
       && IntegerShape(m, m.functions[entry].result) == Some((true, 32)) {
      FunctionFuel(m, entry, [], steps, more - steps);
    }
  }

  /** A run that exhausts its budget has used all of it. */
  lemma {:induction false} LimitLeavesNothing(m: Module, id: FunctionId, arguments: seq<Value>, steps: nat)
    requires RunFunction(m, id, arguments, steps).outcome == Err(StepLimit)
    ensures RunFunction(m, id, arguments, steps).steps == 0
    decreases steps, 2
  {
    var f := m.functions[id];
    BlocksLimit(m, f, BindAll(Frame(map[], map[], []), f.parameters, arguments), 0, [], steps);
  }

  lemma {:induction false} BlocksLimit(
    m: Module, f: Function, frame: Frame, current: BlockId, incoming: seq<Value>, steps: nat)
    requires RunBlocks(m, f, frame, current, incoming, steps).outcome == Err(StepLimit)
    ensures RunBlocks(m, f, frame, current, incoming, steps).steps == 0
    decreases steps, 1
  {
    if steps > 0 {
      var block := f.blocks[current];
      BlockLimit(m, f, block, BindAll(frame, block.parameters, incoming), steps - 1);
    }
  }

  lemma {:induction false} BlockLimit(m: Module, f: Function, block: Block, frame: Frame, steps: nat)
    requires RunBlock(m, f, block, frame, steps).outcome == Err(StepLimit)
    ensures RunBlock(m, f, block, frame, steps).steps == 0
    decreases steps, 4
  {
    var body := RunInstructions(m, block.instructions, frame, steps);
    if body.outcome.Ok? {
      TransferNeverLimits(m, body.outcome.value, block.terminator);
      var next := Transfer(m, body.outcome.value, block.terminator).value;
      BlocksLimit(m, f, body.outcome.value, next.target, next.incoming, body.steps);
    } else {
      InstructionsLimit(m, block.instructions, frame, steps);
    }
  }

  lemma {:induction false} InstructionsLimit(m: Module, instructions: seq<Instruction>, frame: Frame, steps: nat)
    requires RunInstructions(m, instructions, frame, steps).outcome == Err(StepLimit)
    ensures RunInstructions(m, instructions, frame, steps).steps == 0
    decreases steps, 0
  {
    if steps > 0 {
      var instruction := instructions[0];
      var produced := RunInstruction(m, instruction, frame, steps - 1);
      if produced.outcome.Ok? {
        var after := Record(instruction, produced.outcome.value, frame);
        InstructionsLimit(m, instructions[1..], after.value, produced.steps);
      } else if instruction.kind.Call? {
        OperandsNeverLimit(frame, instruction.kind.arguments);
        LimitLeavesNothing(m, instruction.kind.callee,
                           CollectValues(frame, instruction.kind.arguments).value, steps - 1);
      } else {
        EvaluationNeverLimits(m, instruction, frame);
      }
    }
  }

  lemma {:induction false} OperandsNeverLimit(frame: Frame, ids: seq<ValueId>)
    ensures CollectValues(frame, ids) != Err(StepLimit)
  {
    if ids != [] { OperandsNeverLimit(frame, ids[1..]); }
  }

  lemma TransferNeverLimits(m: Module, frame: Frame, t: Terminator)
    ensures Transfer(m, frame, t) != Err(StepLimit)
  {
    match t
    case Jump(_, arguments) => OperandsNeverLimit(frame, arguments);
    case Branch(_, _, thenArguments, _, elseArguments) =>
      OperandsNeverLimit(frame, thenArguments);
      OperandsNeverLimit(frame, elseArguments);
    case Switch(discriminant, cases, _, defaultArguments) =>
      OperandsNeverLimit(frame, defaultArguments);
      forall chosen: SwitchCase ensures CollectValues(frame, chosen.arguments) != Err(StepLimit) {
        OperandsNeverLimit(frame, chosen.arguments);
      }
    case _ =>
  }

  lemma EvaluationNeverLimits(m: Module, instruction: Instruction, frame: Frame)
    ensures EvaluateInstruction(m, instruction, frame) != Err(StepLimit)
  {
    if instruction.kind.Aggregate? { OperandsNeverLimit(frame, instruction.kind.elements); }
  }
}
