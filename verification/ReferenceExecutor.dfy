/** The reference executor itself: a step budget that calls, blocks and instructions draw on. */
module ReferenceExecutor {
  import opened Common
  import opened Jir
  import opened IntegerSemantics
  import opened Execution

  class Executor {
    const program: Module
    var remainingSteps: nat

    constructor (program: Module)
      ensures this.program == program && remainingSteps == STEP_LIMIT
    {
      this.program := program;
      remainingSteps := STEP_LIMIT;
    }

    method ExecuteEntry() returns (r: Outcome<int>)
      modifies this`remainingSteps
      ensures Run(r, remainingSteps) == RunEntry(program, old(remainingSteps))
    {
      var entry := 0;
      while entry < |program.functions| && !IsEntry(program.functions[entry])
        invariant entry <= |program.functions|
        invariant EntryIndex(program.functions) == entry + EntryIndex(program.functions[entry..])
        invariant remainingSteps == old(remainingSteps)
      {
        assert program.functions[entry..][1..] == program.functions[entry + 1..];
        entry := entry + 1;
      }
      if entry == |program.functions| { return Err(NoEntry); }
      var f := program.functions[entry];
      if f.parameters != [] { return Err(EntryHasParameters); }
      if IntegerShape(program, f.result) != Some((true, 32)) { return Err(EntryNotInt32); }
      var result := ExecuteFunction(entry, []);
      if result.Err? { return Err(result.error); }
      r := EntryResult(result.value);
    }

    method ExecuteFunction(id: FunctionId, arguments: seq<Value>) returns (r: Outcome<Option<Value>>)
      modifies this`remainingSteps
      ensures Run(r, remainingSteps) == RunFunction(program, id, arguments, old(remainingSteps))
      decreases remainingSteps, 2
    {
      if id >= |program.functions| { return Err(MissingFunction); }
      var f := program.functions[id];
      if f.linkage.Import? { return Err(ImportedFunction); }
      if |f.parameters| != |arguments| { return Err(ArgumentCountMismatch); }
      var frame := BindAll(Frame(map[], map[], []), f.parameters, arguments);
      var current: BlockId, incoming: seq<Value> := 0, [];
      while true
        invariant remainingSteps <= old(remainingSteps)
        invariant RunFunction(program, id, arguments, old(remainingSteps))
               == RunBlocks(program, f, frame, current, incoming, remainingSteps)
        decreases remainingSteps
      {
        if remainingSteps == 0 { return Err(StepLimit); }
        remainingSteps := remainingSteps - 1;
        if current >= |f.blocks| { return Err(MissingBlock); }
        var block := f.blocks[current];
        if |block.parameters| != |incoming| { return Err(IncomingMismatch); }
        frame := BindAll(frame, block.parameters, incoming);
        ghost var run := RunBlock(program, f, block, frame, remainingSteps);
        assert RunFunction(program, id, arguments, old(remainingSteps)) == run;
        var body := ExecuteBody(block.instructions, frame);
        if body.Err? { return Err(body.error); }
        frame := body.value;
        assert run == RunTerminator(program, f, block.terminator, frame, remainingSteps);
        var next := Transfer(program, frame, block.terminator);
        match next
        case Err(e) => return Err(e);
        case Ok(Leave(result)) => return Ok(result);
        case Ok(Enter(target, values)) => current, incoming := target, values;
      }
    }

    /** The instruction loop of one block. */
    method ExecuteBody(instructions: seq<Instruction>, start: Frame) returns (r: Outcome<Frame>)
      modifies this`remainingSteps
      ensures Run(r, remainingSteps) == RunInstructions(program, instructions, start, old(remainingSteps))
      decreases remainingSteps, 4
    {
      var frame := start;
      for i := 0 to |instructions|
        invariant remainingSteps <= old(remainingSteps)
        invariant RunInstructions(program, instructions, start, old(remainingSteps))
               == RunInstructions(program, instructions[i..], frame, remainingSteps)
      {
        assert instructions[i..][1..] == instructions[i + 1..];
        if remainingSteps == 0 { return Err(StepLimit); }
        remainingSteps := remainingSteps - 1;
        var produced := ExecuteInstruction(instructions[i], frame);
        if produced.Err? { return Err(produced.error); }
        var after := Record(instructions[i], produced.value, frame);
        if after.Err? { return after; }
        frame := after.value;
      }
      r := Ok(frame);
    }

    method ExecuteInstruction(instruction: Instruction, frame: Frame)
      returns (r: Outcome<(Option<Value>, seq<Option<Value>>)>)
      modifies this`remainingSteps
      ensures Run(r, remainingSteps) == RunInstruction(program, instruction, frame, old(remainingSteps))
      decreases remainingSteps, 3
    {
      if instruction.kind.Call? {
        var arguments := CollectValues(frame, instruction.kind.arguments);
        if arguments.Err? { return Err(arguments.error); }
        var result := ExecuteFunction(instruction.kind.callee, arguments.value);
        if result.Err? { return Err(result.error); }
        r := Ok((result.value, frame.memory));
      } else {
        r := EvaluateInstruction(program, instruction, frame);
      }
    }
  }
}
