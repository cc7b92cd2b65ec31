/** How values travel between activations: into parameters, out of returns, and out of the entry. */
module ExecutorReturns {
  import opened Common
  import opened Bits
  import opened Jir
  import opened IntegerSemantics
  import opened Execution
  import opened ExecutorArithmetic
  import opened ExecutorLaws

  // ----- the entry's answer -----

  /** The executor would run the module's entry point. */
  predicate EntryRuns(m: Module, entry: FunctionId) {
    && entry == EntryIndex(m.functions) < |m.functions|
    && m.functions[entry].parameters == [] && IntegerShape(m, m.functions[entry].result) == Some((true, 32))
  }

  /** An Int32 word that the entry returns is answered as the one integer of the Int32 range it stands
      for, with the steps the entry left. */
  lemma EntryAnswersWord(m: Module, entry: FunctionId, steps: nat, word: nat)
    requires EntryRuns(m, entry) && word < Pow2(32)
    requires RunFunction(m, entry, [], steps).outcome == Ok(Some(IntegerValue(word)))
    ensures var r := RunEntry(m, steps);
            && r.outcome.Ok? && -0x8000_0000 <= r.outcome.value < 0x8000_0000
            && r.outcome.value % Pow2(32) == word
            && r.steps == RunFunction(m, entry, [], steps).steps
  {
    WordIs32(word);
    SignedStaysInRange(word, 32);
  }

  /** Whatever the module, verified or not, an answer is in the Int32 range. */
  lemma AnswersAreInt32(m: Module, steps: nat)
    ensures RunEntry(m, steps).outcome.Ok? ==> -0x8000_0000 <= RunEntry(m, steps).outcome.value < 0x8000_0000
  {
  }

  lemma WordIs32(word: nat)
    ensures Pow2(32) == 0x1_0000_0000 && Pow2(31) == 0x8000_0000
  {
    assert Pow2(8) == 0x100;
    var width := Doubled(8, 0x100);
    width := Doubled(width, 0x1_0000);
  }

  /** Whatever goes wrong inside the entry is the answer. */
  lemma EntryReportsError(m: Module, entry: FunctionId, steps: nat)
    requires EntryRuns(m, entry) && RunFunction(m, entry, [], steps).outcome.Err?
    ensures RunEntry(m, steps).outcome == Err(RunFunction(m, entry, [], steps).outcome.error)
    ensures RunEntry(m, steps).steps == RunFunction(m, entry, [], steps).steps
  {
  }

  /** An entry that returns no integer is refused by name. */
  lemma EntryReportsShape(m: Module, entry: FunctionId, steps: nat)
    requires EntryRuns(m, entry) && RunFunction(m, entry, [], steps).outcome.Ok?
    ensures var result := RunFunction(m, entry, [], steps).outcome.value;
            && (RunEntry(m, steps).outcome == Err(EntryReturnedUnit) <==> result == None)
            && (RunEntry(m, steps).outcome == Err(EntryNotInteger) <==> result.Some? && !result.value.IntegerValue?)
  {
  }

  // ----- calls -----

  /** Running a function starts its first block with parameter i holding argument i, and nothing else. */
  lemma CallBindsArguments(m: Module, id: FunctionId, arguments: seq<Value>, steps: nat, i: nat)
    requires id < |m.functions| && !m.functions[id].linkage.Import?
    requires |arguments| == |m.functions[id].parameters| && DistinctIds(m.functions[id].parameters)
    requires i < |arguments|
    ensures var f := m.functions[id];
            var start := BindAll(Frame(map[], map[], []), f.parameters, arguments);
            && RunFunction(m, id, arguments, steps) == RunBlocks(m, f, start, 0, [], steps)
            && HoldsAt(start, f.parameters[i], arguments[i]) && start.memory == []
  {
    var f := m.functions[id];
    BoundByPosition(Frame(map[], map[], []), f.parameters, arguments, i);
    BindKeepsMemory(Frame(map[], map[], []), f.parameters, arguments);
  }

  lemma {:induction false} BindKeepsMemory(frame: Frame, targets: seq<TypedValue>, values: seq<Value>)
    requires |targets| == |values|
    ensures BindAll(frame, targets, values).memory == frame.memory
    decreases targets
  {
    if targets != [] { BindKeepsMemory(Bind(frame, targets[0], values[0]), targets[1..], values[1..]); }
  }

  /** A block that ends in a return hands back the value its instructions gave that id. */
  lemma ReturnHandsBack(m: Module, f: Function, block: Block, frame: Frame, steps: nat, v: ValueId)
    requires block.terminator == Return(Some(v))
    requires RunInstructions(m, block.instructions, frame, steps).outcome.Ok?
    requires v in RunInstructions(m, block.instructions, frame, steps).outcome.value.values
    ensures var body := RunInstructions(m, block.instructions, frame, steps);
            RunBlock(m, f, block, frame, steps) == Run(Ok(Some(body.outcome.value.values[v])), body.steps)
  {
  }

  /** The call that entered a one-block function receives exactly the value it returns, for one step of
      its own, one of the block and those of the body, and keeps its memory. */
  lemma CallReceivesReturn(m: Module, id: FunctionId, ids: seq<ValueId>, target: TypedValue, frame: Frame,
                           steps: nat, v: ValueId)
    requires id < |m.functions| && !m.functions[id].linkage.Import? && steps >= 2
    requires CollectValues(frame, ids).Ok? && |ids| == |m.functions[id].parameters|
    requires |CollectValues(frame, ids).value| == |ids|
    requires |m.functions[id].blocks| > 0 && m.functions[id].blocks[0].parameters == []
    requires m.functions[id].blocks[0].terminator == Return(Some(v))
    requires var start := BindAll(Frame(map[], map[], []), m.functions[id].parameters, CollectValues(frame, ids).value);
             var body := RunInstructions(m, m.functions[id].blocks[0].instructions, start, steps - 2);
             body.outcome.Ok? && v in body.outcome.value.values
    ensures var start := BindAll(Frame(map[], map[], []), m.functions[id].parameters, CollectValues(frame, ids).value);
            var body := RunInstructions(m, m.functions[id].blocks[0].instructions, start, steps - 2);
            RunInstructions(m, [Instruction(Some(target), Call(id, ids))], frame, steps)
            == Run(Ok(Bind(frame, target, body.outcome.value.values[v])), body.steps)
  {
    var f, arguments := m.functions[id], CollectValues(frame, ids).value;
    var start := BindAll(Frame(map[], map[], []), f.parameters, arguments);
    var body := RunInstructions(m, f.blocks[0].instructions, start, steps - 2);
    ReturnHandsBack(m, f, f.blocks[0], start, steps - 2, v);
    assert BindAll(start, [], []) == start;
    assert RunFunction(m, id, arguments, steps - 1) == Run(Ok(Some(body.outcome.value.values[v])), body.steps);
    var call := Instruction(Some(target), Call(id, ids));
    assert [call][1..] == [];
  }

  // ----- a whole program -----

  /** A module whose entry returns one constant. */
  function ConstantProgram(value: int): Module {
    Module([IntegerType(true, 32)],
           [Function(ENTRY_NAME, Export, [], 0,
              [Block([], [Instruction(Some(TypedValue(0, 0)), ConstantInstruction(IntegerConstant(value)))],
                     Return(Some(0)))])])
  }

  lemma ConstantBody(m: Module, value: int, steps: nat)
    requires m == ConstantProgram(value) && steps >= 2
    ensures RunFunction(m, 0, [], steps) == Run(Ok(Some(IntegerValue(value % Pow2(32)))), steps - 2)
  {
    var f, start := m.functions[0], Frame(map[], map[], []);
    var block := f.blocks[0];
    ConstantIsExact(m, value, 0, true, 32);
    var after := Bind(start, TypedValue(0, 0), IntegerValue(value % Pow2(32)));
    assert block.instructions[1..] == [];
    assert RunInstructions(m, block.instructions, start, steps - 1) == Run(Ok(after), steps - 2);
    ReturnHandsBack(m, f, block, start, steps - 1, 0);
    assert BindAll(start, [], []) == start;
    assert RunBlocks(m, f, start, 0, [], steps) == RunBlock(m, f, block, start, steps - 1);
  }

  /** It answers the constant, wrapped to 32 bits, two steps later. */
  lemma EntryAnswersConstant(m: Module, value: int, steps: nat)
    requires m == ConstantProgram(value) && steps >= 2
    ensures var r := RunEntry(m, steps);
            && r.outcome.Ok? && r.steps == steps - 2
            && -0x8000_0000 <= r.outcome.value < 0x8000_0000
            && r.outcome.value % Pow2(32) == value % Pow2(32)
  {
    ConstantBody(m, value, steps);
    assert EntryIndex(m.functions) == 0;
    EntryAnswersWord(m, 0, steps, value % Pow2(32));
  }
}
