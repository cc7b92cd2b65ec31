/** Why safety asks that no pointer crosses a call: each activation has its own memory, so a
    pointer argument indexes the memory of the callee. */
module ExecutorPointerCalls {
  import opened Common
  import opened Jir
  import opened Dominators
  import opened JirVerifier
  import opened Execution
  import opened ExecutorSafety

  function Caller(): Function {
    Function(ENTRY_NAME, Export, [], 0, [Block([], [
      Instruction(Some(TypedValue(0, 1)), StackAlloc(0, None)),
      Instruction(None, Call(1, [0])),
      Instruction(Some(TypedValue(1, 0)), ConstantInstruction(IntegerConstant(0)))
    ], Return(Some(1)))])
  }

  function Callee(): Function {
    Function("store_seven", Internal, [TypedValue(0, 1)], 2, [Block([], [
      Instruction(Some(TypedValue(1, 0)), ConstantInstruction(IntegerConstant(7))),
      Instruction(None, Store(0, 1))
    ], Return(None))])
  }

  /** A caller that passes the address of its own slot to a callee that writes through it. */
  function Program(): Module {
    Module([IntegerType(true, 32), PointerType(0, Stack), Unit], [Caller(), Callee()])
  }

  /** A one-block function with no successors has the one-row dominator table. */
  lemma SingleBlockTable(f: Function)
    requires |f.blocks| == 1 && f.blocks[0].terminator.Return?
    ensures IsDominatorTable([{0}], Predecessors(f))
  {
  }

  lemma CallerSingleAssignment()
    ensures SingleAssignment(Caller())
  {
    forall v, t, s | DefinesAt(Caller(), v, t, s)
      ensures s == InstructionResult(0, if v == 0 then 0 else 2) && t == if v == 0 then 1 else 0
    {
    }
  }

  lemma CalleeSingleAssignment()
    ensures SingleAssignment(Callee())
  {
    forall v, t, s | DefinesAt(Callee(), v, t, s)
      ensures (s == if v == 0 then FunctionParameter(0) else InstructionResult(0, 0)) && t == if v == 0 then 1 else 0
    {
    }
  }

  lemma CallerBlockVerified()
    ensures BlockVerified(Program(), Caller(), [{0}], 0)
  {
    var f, m, table := Caller(), Program(), [{0}];
    var instructions := f.blocks[0].instructions;
    assert DefinesAt(f, 0, 1, InstructionResult(0, 0)) && DefinesAt(f, 1, 0, InstructionResult(0, 2));
    assert Uses(f, table, 0, 1, UseSite(0, 1)) && Uses(f, table, 1, 0, UseSite(0, 3));
    assert Types(Callee().parameters) == [1];
    assert InstructionVerified(m, f, table, instructions[0], UseSite(0, 0));
    assert InstructionVerified(m, f, table, instructions[1], UseSite(0, 1));
    assert InstructionVerified(m, f, table, instructions[2], UseSite(0, 2));
    assert TerminatorVerified(m, f, table, f.blocks[0].terminator, UseSite(0, 3));
  }

  lemma CalleeBlockVerified()
    ensures BlockVerified(Program(), Callee(), [{0}], 0)
  {
    var f, m, table := Callee(), Program(), [{0}];
    var instructions := f.blocks[0].instructions;
    assert DefinesAt(f, 0, 1, FunctionParameter(0)) && DefinesAt(f, 1, 0, InstructionResult(0, 0));
    assert Uses(f, table, 0, 1, UseSite(0, 1)) && Uses(f, table, 1, 0, UseSite(0, 1));
    assert InstructionVerified(m, f, table, instructions[0], UseSite(0, 0));
    assert InstructionVerified(m, f, table, instructions[1], UseSite(0, 1)) by { assert PointsTo(m, 1, 0); }
    assert TerminatorVerified(m, f, table, f.blocks[0].terminator, UseSite(0, 2));
  }

  lemma ProgramVerified()
    ensures Verified(Program(), [[{0}], [{0}]])
  {
    SingleBlockTable(Caller());
    SingleBlockTable(Callee());
    CallerSingleAssignment();
    CalleeSingleAssignment();
    CallerBlockVerified();
    CalleeBlockVerified();
  }

  lemma CalleeFails(steps: nat)
    requires steps >= 3
    ensures RunFunction(Program(), 1, [PointerValue(0)], steps).outcome == Err(OutsideMemory)
  {
    var m, f := Program(), Callee();
    var start := Frame(map[0 := PointerValue(0)], map[0 := 1], []);
    assert BindAll(Frame(map[], map[], []), f.parameters, [PointerValue(0)]) == start by {
      assert BindAll(start, [], []) == start;
    }
    var instructions := f.blocks[0].instructions;
    var after := Bind(start, TypedValue(1, 0), EvaluateConstant(m, IntegerConstant(7), 0).value);
    assert RunInstructions(m, instructions[1..], after, steps - 2).outcome == Err(OutsideMemory) by {
      assert instructions[1..][0] == Instruction(None, Store(0, 1));
      assert RequiredValue(after, 0) == Ok(PointerValue(0));
    }
    assert RunInstructions(m, instructions, start, steps - 1).outcome == Err(OutsideMemory);
    assert RunBlocks(m, f, start, 0, [], steps).outcome == Err(OutsideMemory);
  }

  /** The module is verified, yet for every sufficient budget the run ends in a memory confusion
      that is not among the tolerated errors. */
  lemma PointerArgumentsConfuseMemory(steps: nat)
    requires steps >= 6
    ensures Verified(Program(), [[{0}], [{0}]])
    ensures RunEntry(Program(), steps).outcome == Err(OutsideMemory)
    ensures forall reach :: !Tolerated(Program(), reach, OutsideMemory)
  {
    ProgramVerified();
    var m, f := Program(), Caller();
    var start := Frame(map[], map[], []);
    var instructions := f.blocks[0].instructions;
    var after := Frame(map[0 := PointerValue(0)], map[0 := 1], [None]);
    assert RunInstructions(m, instructions[1..], after, steps - 2).outcome == Err(OutsideMemory) by {
      assert instructions[1..][0] == Instruction(None, Call(1, [0]));
      var ids: seq<ValueId> := [0];
      assert ids[1..] == [];
      assert CollectValues(after, ids[1..]) == Ok([]) && RequiredValue(after, ids[0]) == Ok(PointerValue(0));
      assert [PointerValue(0)] + [] == [PointerValue(0)];
      assert CollectValues(after, ids) == Ok([PointerValue(0)]);
      CalleeFails(steps - 3);
    }
    assert start.memory + [None] == [None];
    assert RunInstruction(m, instructions[0], start, steps - 2).outcome == Ok((Some(PointerValue(0)), [None]));
    assert Record(instructions[0], (Some(PointerValue(0)), [None]), start) == Ok(after);
    assert RunInstructions(m, instructions, start, steps - 1).outcome == Err(OutsideMemory);
    assert RunBlocks(m, f, start, 0, [], steps).outcome == Err(OutsideMemory);
    assert EntryIndex(m.functions) == 0;
  }
}
