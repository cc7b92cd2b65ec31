/** Verified modules never confuse types: preservation and progress for the reference executor. */
module ExecutorSafety {
  import opened Common
  import opened Bits
  import opened Jir
  import opened Dominators
  import opened JirVerifier
  import opened IntegerSemantics
  import opened Execution
  import opened ExecutorArithmetic
  import opened ExecutorTyping

  /** Errors a verified module can still meet: the step limit, arithmetic, uninitialized memory,
      `unreachable`, imports, and operations outside the executor's subset. An incoming-value
      mismatch needs a function in `reach` whose entry block declares parameters. */
  ghost predicate Tolerated(m: Module, reach: set<FunctionId>, e: ExecError) {
    match e
    case StepLimit => true
    case ImportedFunction => true
    case ReachedUnreachable => true
    case UninitializedLoad => true
    case UnsupportedInstruction => true
    case UnsupportedConstant => true
    case DivisionByZero => true
    case RemainderByZero => true
    case UnsupportedShift => true
    case ArithmeticPanic => true
    case OrderedBool => true
    case ComparisonKinds => true
    case IncomingMismatch => exists i :: i in reach && EntryBlockTakesParameters(m, i)
    case _ => false
  }

  /** Nothing supplies the entry block's parameters, so such a function cannot start. */
  predicate EntryBlockTakesParameters(m: Module, id: FunctionId) {
    && id < |m.functions| && !m.functions[id].linkage.Import?
    && |m.functions[id].blocks| > 0 && m.functions[id].blocks[0].parameters != []
  }

  ghost predicate ResultTyped(m: Module, store: Store, result: Option<TypedValue>, produced: Option<Value>) {
    match (result, produced)
    case (Some(target), Some(value)) => HasType(m, store, value, target.ty)
    case (None, None) => true
    case _ => false
  }

  ghost predicate Safe(
    m: Module, reach: set<FunctionId>, store: Store, result: Option<TypedValue>,
    r: Outcome<(Option<Value>, seq<Option<Value>>)>)
  {
    match r
    case Err(e) => Tolerated(m, reach, e)
    case Ok((produced, memory)) => MemoryTyped(m, memory, store) && ResultTyped(m, store, result, produced)
  }

  ghost predicate ValueSafe(m: Module, store: Store, ty: TypeId, r: Outcome<Value>) {
    if r.Ok? then HasType(m, store, r.value, ty) else Tolerated(m, {}, r.error)
  }

  // ----- one instruction -----

  lemma ConstantSafe(m: Module, constant: Constant, ty: TypeId, store: Store)
    requires ConstantFits(m, constant, ty)
    ensures ValueSafe(m, store, ty, EvaluateConstant(m, constant, ty))
  {
    if constant.IntegerConstant? {
      var (signed, bits) := IntegerShape(m, ty).value;
      ConstantIsExact(m, constant.value, ty, signed, bits);
    }
  }

  lemma UnarySafe(m: Module, op: UnaryOp, value: Value, ty: TypeId, store: Store)
    requires UnaryFits(m, op, ty) && HasType(m, store, value, ty)
    ensures EvaluateUnary(m, op, value, ty).Ok?
    ensures HasType(m, store, EvaluateUnary(m, op, value, ty).value, ty)
  {
    if value.IntegerValue? {
      var (signed, bits) := IntegerShape(m, ty).value;
      UnaryIsExact(m, value.word, ty, signed, bits);
    }
  }

  lemma ArithmeticSafe(m: Module, op: BinaryOp, l: nat, r: nat, ty: TypeId, signed: bool, bits: Width, store: Store)
    requires IsArithmetic(op) && IntegerShape(m, ty) == Some((signed, bits)) && l < Pow2(bits) && r < Pow2(bits)
    ensures ValueSafe(m, store, ty, EvaluateBinary(m, op, IntegerValue(l), IntegerValue(r), ty))
  {
    BinaryIsExact(m, op, l, r, ty, signed, bits);
  }

  lemma BitwiseSafe(m: Module, op: BinaryOp, l: nat, r: nat, ty: TypeId, signed: bool, bits: Width, store: Store)
    requires !IsArithmetic(op) && IntegerShape(m, ty) == Some((signed, bits)) && l < Pow2(bits) && r < Pow2(bits)
    ensures ValueSafe(m, store, ty, EvaluateBinary(m, op, IntegerValue(l), IntegerValue(r), ty))
  {
    if op.BitAnd? || op.BitOr? || op.BitXor? {
      BitwiseIsExact(m, op, l, r, ty, signed, bits, 0);
    }
  }

  lemma BinarySafe(m: Module, op: BinaryOp, left: Value, right: Value, ty: TypeId, store: Store)
    requires BinaryFits(m, op, ty) && HasType(m, store, left, ty) && HasType(m, store, right, ty)
    ensures ValueSafe(m, store, ty, EvaluateBinary(m, op, left, right, ty))
  {
    NumericValueIsInteger(m, store, left, ty);
    NumericValueIsInteger(m, store, right, ty);
    var (signed, bits) := IntegerShape(m, ty).value;
    if IsArithmetic(op) {
      ArithmeticSafe(m, op, left.word, right.word, ty, signed, bits, store);
    } else {
      BitwiseSafe(m, op, left.word, right.word, ty, signed, bits, store);
    }
  }

  lemma NumericValueIsInteger(m: Module, store: Store, v: Value, ty: TypeId)
    requires IsNumeric(m, ty) && HasType(m, store, v, ty)
    ensures v.IntegerValue? && IntegerShape(m, ty).Some?
  {
  }

  lemma CompareSafe(m: Module, comparison: ComparePredicate, left: Value, right: Value, ty: TypeId, store: Store)
    requires HasType(m, store, left, ty) && HasType(m, store, right, ty)
    ensures EvaluateCompare(m, comparison, left, right, ty).Err? ==>
              Tolerated(m, {}, EvaluateCompare(m, comparison, left, right, ty).error)
  {
  }

  lemma ScalarSafe(
    m: Module, f: Function, table: Table, frame: Frame, store: Store, finished: set<BlockId>, at: UseSite,
    instruction: Instruction)
    requires Reached(m, f, table, frame, store, finished, at)
    requires InstructionVerified(m, f, table, instruction, at)
    requires instruction.kind.ConstantInstruction? || instruction.kind.Unary? || instruction.kind.Binary?
    ensures Safe(m, {}, store, instruction.result, EvaluateInstruction(m, instruction, frame))
  {
    var ty := instruction.result.value.ty;
    match instruction.kind
    case ConstantInstruction(constant) => ConstantSafe(m, constant, ty, store);
    case Unary(op, operand) =>
      UseIsTyped(m, f, table, frame, store, finished, at, operand, ty);
      UnarySafe(m, op, frame.values[operand], ty, store);
    case Binary(op, left, right) =>
      UseIsTyped(m, f, table, frame, store, finished, at, left, ty);
      UseIsTyped(m, f, table, frame, store, finished, at, right, ty);
      BinarySafe(m, op, frame.values[left], frame.values[right], ty, store);
  }

  lemma ChoiceSafe(
    m: Module, f: Function, table: Table, frame: Frame, store: Store, finished: set<BlockId>, at: UseSite,
    instruction: Instruction)
    requires Reached(m, f, table, frame, store, finished, at)
    requires InstructionVerified(m, f, table, instruction, at)
    requires instruction.kind.Compare? || instruction.kind.Select?
    ensures Safe(m, {}, store, instruction.result, EvaluateInstruction(m, instruction, frame))
  {
    match instruction.kind
    case Compare(comparison, left, right) =>
      var ty :| Uses(f, table, left, ty, at) && Uses(f, table, right, ty, at);
      UseIsTyped(m, f, table, frame, store, finished, at, left, ty);
      UseIsTyped(m, f, table, frame, store, finished, at, right, ty);
      CompareSafe(m, comparison, frame.values[left], frame.values[right], ty, store);
    case Select(condition, whenTrue, whenFalse) =>
      var flag :| Uses(f, table, condition, flag, at) && TypeAt(m, flag) == Some(BoolType);
      UseIsTyped(m, f, table, frame, store, finished, at, condition, flag);
      UseIsTyped(m, f, table, frame, store, finished, at, whenTrue, instruction.result.value.ty);
      UseIsTyped(m, f, table, frame, store, finished, at, whenFalse, instruction.result.value.ty);
  }

  lemma AggregateSafe(
    m: Module, f: Function, table: Table, frame: Frame, store: Store, finished: set<BlockId>, at: UseSite,
    instruction: Instruction)
    requires Reached(m, f, table, frame, store, finished, at)
    requires InstructionVerified(m, f, table, instruction, at)
    requires instruction.kind.Aggregate? || instruction.kind.ExtractValue?
    ensures Safe(m, {}, store, instruction.result, EvaluateInstruction(m, instruction, frame))
  {
    var ty := instruction.result.value.ty;
    match instruction.kind
    case Aggregate(elements) =>
      UsesAreTyped(m, f, table, frame, store, finished, at, elements, FieldTypes(m, ty).value);
    case ExtractValue(aggregate, index) =>
      var source :| Uses(f, table, aggregate, source, at) && FieldTypes(m, source).Some?
                    && index < |FieldTypes(m, source).value| && FieldTypes(m, source).value[index] == ty;
      UseIsTyped(m, f, table, frame, store, finished, at, aggregate, source);
  }

  lemma MemorySafe(
    m: Module, f: Function, table: Table, frame: Frame, store: Store, finished: set<BlockId>, at: UseSite,
    instruction: Instruction)
    requires Reached(m, f, table, frame, store, finished, at)
    requires InstructionVerified(m, f, table, instruction, at)
    requires instruction.kind.Load? || instruction.kind.Store?
    ensures Safe(m, {}, store, instruction.result, EvaluateInstruction(m, instruction, frame))
  {
    match instruction.kind
    case Load(pointer) =>
      var p :| Uses(f, table, pointer, p, at) && PointsTo(m, p, instruction.result.value.ty);
      UseIsTyped(m, f, table, frame, store, finished, at, pointer, p);
    case Store(pointer, stored) =>
      var p, ty :| Uses(f, table, pointer, p, at) && Uses(f, table, stored, ty, at) && PointsTo(m, p, ty);
      UseIsTyped(m, f, table, frame, store, finished, at, pointer, p);
      UseIsTyped(m, f, table, frame, store, finished, at, stored, ty);
  }

  /** Memory typing after one more slot. */
  lemma AllocationTyped(m: Module, memory: seq<Option<Value>>, store: Store, ty: TypeId)
    requires MemoryTyped(m, memory, store)
    ensures MemoryTyped(m, memory + [None], store + [ty])
  {
    forall p | 0 <= p < |memory| && memory[p].Some? ensures HasType(m, store + [ty], memory[p].value, store[p]) {
      TypeSurvivesAllocation(m, store, store + [ty], memory[p].value, store[p]);
    }
  }

  /** The slot types after an instruction: a stack allocation adds one. */
  function StoreAfter(store: Store, instruction: Instruction): (larger: Store)
    ensures store <= larger
  {
    if instruction.kind.StackAlloc? && instruction.kind.count.None? then store + [instruction.kind.slotType] else store
  }

  lemma EvaluationSafe(
    m: Module, f: Function, table: Table, frame: Frame, store: Store, finished: set<BlockId>, at: UseSite,
    instruction: Instruction)
    requires Reached(m, f, table, frame, store, finished, at)
    requires InstructionVerified(m, f, table, instruction, at) && !instruction.kind.Call?
    ensures Safe(m, {}, StoreAfter(store, instruction), instruction.result, EvaluateInstruction(m, instruction, frame))
  {
    match instruction.kind
    case ConstantInstruction(_) => ScalarSafe(m, f, table, frame, store, finished, at, instruction);
    case Unary(_, _) => ScalarSafe(m, f, table, frame, store, finished, at, instruction);
    case Binary(_, _, _) => ScalarSafe(m, f, table, frame, store, finished, at, instruction);
    case Compare(_, _, _) => ChoiceSafe(m, f, table, frame, store, finished, at, instruction);
    case Select(_, _, _) => ChoiceSafe(m, f, table, frame, store, finished, at, instruction);
    case Aggregate(_) => AggregateSafe(m, f, table, frame, store, finished, at, instruction);
    case ExtractValue(_, _) => AggregateSafe(m, f, table, frame, store, finished, at, instruction);
    case Load(_) => MemorySafe(m, f, table, frame, store, finished, at, instruction);
    case Store(_, _) => MemorySafe(m, f, table, frame, store, finished, at, instruction);
    case StackAlloc(ty, None) => AllocationTyped(m, frame.memory, store, ty);
    case _ =>
  }

  /** Recording a typed result moves the activation to the next instruction. */
  lemma RecordReaches(
    m: Module, f: Function, table: Table, frame: Frame, store: Store, larger: Store, finished: set<BlockId>,
    at: UseSite, produced: (Option<Value>, seq<Option<Value>>))
    requires Reached(m, f, table, frame, store, finished, at) && SingleAssignment(f) && store <= larger
    requires at.block < |f.blocks| && at.position < |f.blocks[at.block].instructions|
    requires MemoryTyped(m, produced.1, larger)
    requires ResultTyped(m, larger, f.blocks[at.block].instructions[at.position].result, produced.0)
    ensures var after := Record(f.blocks[at.block].instructions[at.position], produced, frame);
            && after.Ok?
            && Reached(m, f, table, after.value, larger, finished, UseSite(at.block, at.position + 1))
  {
    var instruction := f.blocks[at.block].instructions[at.position];
    var moved := frame.(memory := produced.1);
    forall v | v in moved.values ensures HasType(m, larger, moved.values[v], moved.types[v]) {
      TypeSurvivesAllocation(m, store, larger, frame.values[v], frame.types[v]);
    }
    var after := Record(instruction, produced, frame).value;
    var here := InstructionResult(at.block, at.position);
    if instruction.result.Some? {
      BindTyped(m, f, moved, larger, instruction.result.value, produced.0.value, here);
    }
    forall v, ty, site | DefinesAt(f, v, ty, site)
                         && Executed(site, finished, Some(UseSite(at.block, at.position + 1)))
      ensures v in after.values
    {
      if !Executed(site, finished, Some(at)) { assert site == here; }
    }
  }

  // ----- whole activations -----

  ghost predicate CallSafe(m: Module, c: Certificate, f: Function, r: Outcome<Option<Value>>) {
    match r
    case Err(e) => Tolerated(m, c.reach, e)
    case Ok(None) => IsUnit(m, f.result)
    case Ok(Some(value)) => !IsUnit(m, f.result) && HasType(m, [], value, f.result)
  }

  /** A module the verifier accepts and in which the functions in reach exchange no pointers. */
  ghost predicate Accepted(m: Module, c: Certificate) {
    Verified(m, c.tables) && NoPointersCrossCalls(m, c)
  }

  /** The function may be entered, and what it returns is free of pointers. */
  ghost predicate Entered(m: Module, c: Certificate, id: FunctionId) {
    id in c.reach && id < |m.functions| && !m.functions[id].linkage.Import? && m.functions[id].result in c.free
  }

  lemma ValuesIgnoreStore(m: Module, free: set<TypeId>, store: Store, values: seq<Value>, types: seq<TypeId>)
    requires PointerFree(m, free) && HaveTypes(m, store, values, types) && forall t :: t in types ==> t in free
    ensures HaveTypes(m, [], values, types)
  {
    forall i | 0 <= i < |values| ensures HasType(m, [], values[i], types[i]) {
      assert types[i] in types;
      TypeIgnoresStore(m, free, store, [], values[i], types[i]);
    }
  }

  lemma {:induction false} InstructionSafe(
    m: Module, c: Certificate, f: Function, table: Table, frame: Frame, store: Store,
    finished: set<BlockId>, at: UseSite, instruction: Instruction, steps: nat)
    requires Accepted(m, c) && Reached(m, f, table, frame, store, finished, at)
    requires InstructionVerified(m, f, table, instruction, at) && InstructionAllowed(m, c, instruction)
    ensures Safe(m, c.reach, StoreAfter(store, instruction), instruction.result,
                 RunInstruction(m, instruction, frame, steps).outcome)
    decreases steps, 3
  {
    if instruction.kind.Call? {
      var callee := m.functions[instruction.kind.callee];
      var types := Types(callee.parameters);
      UsesAreTyped(m, f, table, frame, store, finished, at, instruction.kind.arguments, types);
      if callee.linkage.Import? { return; }
      var arguments := CollectValues(frame, instruction.kind.arguments).value;
      ValuesIgnoreStore(m, c.free, store, arguments, types);
      FunctionSafe(m, c, instruction.kind.callee, arguments, steps);
      var called := RunFunction(m, instruction.kind.callee, arguments, steps).outcome;
      if called.Ok? && called.value.Some? {
        TypeSurvivesAllocation(m, [], store, called.value.value, callee.result);
      }
    } else {
      EvaluationSafe(m, f, table, frame, store, finished, at, instruction);
    }
  }

  /** A call with well-typed arguments returns a value of the declared type, or a tolerated error. */
  lemma {:induction false} FunctionSafe(
    m: Module, c: Certificate, id: FunctionId, arguments: seq<Value>, steps: nat)
    requires Accepted(m, c) && id in c.reach && id < |m.functions| && m.functions[id].result in c.free
    requires HaveTypes(m, [], arguments, Types(m.functions[id].parameters))
    ensures CallSafe(m, c, m.functions[id], RunFunction(m, id, arguments, steps).outcome)
    decreases steps, 2
  {
    var f := m.functions[id];
    if !f.linkage.Import? {
      assert FunctionVerified(m, f, c.tables[id]);
      var start := BindAll(Frame(map[], map[], []), f.parameters, arguments);
      ParametersBound(m, f, arguments);
      if f.blocks[0].parameters != [] {
        if steps > 0 { assert RunBlocks(m, f, start, 0, [], steps).outcome == Err(IncomingMismatch); }
      } else {
        BlocksSafe(m, c, id, start, [], {}, 0, [], steps);
      }
    }
  }

  lemma ParametersBound(m: Module, f: Function, arguments: seq<Value>)
    requires SingleAssignment(f) && HaveTypes(m, [], arguments, Types(f.parameters))
    ensures var start := BindAll(Frame(map[], map[], []), f.parameters, arguments);
            Typed(m, f, start, []) && Live(f, start, {}, None)
  {
    forall i | 0 <= i < |f.parameters| ensures IsDefinition(f, f.parameters[i]) {
      assert DefinesAt(f, f.parameters[i].id, f.parameters[i].ty, FunctionParameter(i));
    }
    BindAllTyped(m, f, Frame(map[], map[], []), [], f.parameters, arguments);
  }

  /** Preservation over every block an activation enters. */
  lemma {:induction false} BlocksSafe(
    m: Module, c: Certificate, id: FunctionId, frame: Frame, store: Store,
    finished: set<BlockId>, b: BlockId, incoming: seq<Value>, steps: nat)
    requires Accepted(m, c) && Entered(m, c, id)
    requires Typed(m, m.functions[id], frame, store) && Live(m.functions[id], frame, finished, None)
    requires b < |m.functions[id].blocks| == |c.tables[id]| && c.tables[id][b] <= finished + {b}
    requires HaveTypes(m, store, incoming, Types(m.functions[id].blocks[b].parameters))
    ensures CallSafe(m, c, m.functions[id], RunBlocks(m, m.functions[id], frame, b, incoming, steps).outcome)
    decreases steps, 1
  {
    var f := m.functions[id];
    if steps > 0 {
      assert FunctionVerified(m, f, c.tables[id]);
      var block := f.blocks[b];
      EnterBlock(m, f, c.tables[id], frame, store, finished, b, incoming);
      var entered := BindAll(frame, block.parameters, incoming);
      BlockSafe(m, c, id, entered, store, finished, b, steps - 1);
    }
  }

  lemma {:induction false} BlockSafe(
    m: Module, c: Certificate, id: FunctionId, entered: Frame, store: Store,
    finished: set<BlockId>, b: BlockId, steps: nat)
    requires Accepted(m, c) && Entered(m, c, id)
    requires b < |m.functions[id].blocks| == |c.tables[id]|
    requires Reached(m, m.functions[id], c.tables[id], entered, store, finished, UseSite(b, 0))
    ensures CallSafe(m, c, m.functions[id],
                     RunBlock(m, m.functions[id], m.functions[id].blocks[b], entered, steps).outcome)
    decreases steps, 4
  {
    var block := m.functions[id].blocks[b];
    assert block.instructions[0..] == block.instructions;
    var larger := BodySafe(m, c, id, entered, store, finished, UseSite(b, 0), steps);
    var body := RunInstructions(m, block.instructions, entered, steps);
    if body.outcome.Ok? {
      TerminatorSafe(m, c, id, body.outcome.value, larger, finished, b, body.steps);
    }
  }

  /** Preservation over the instructions of a block: the state before the terminator is reached. */
  lemma {:induction false} BodySafe(
    m: Module, c: Certificate, id: FunctionId, frame: Frame, store: Store,
    finished: set<BlockId>, at: UseSite, steps: nat) returns (larger: Store)
    requires Accepted(m, c) && Entered(m, c, id)
    requires at.block < |m.functions[id].blocks| == |c.tables[id]|
    requires at.position <= |m.functions[id].blocks[at.block].instructions|
    requires Reached(m, m.functions[id], c.tables[id], frame, store, finished, at)
    ensures var instructions := m.functions[id].blocks[at.block].instructions;
            var r := RunInstructions(m, instructions[at.position..], frame, steps).outcome;
            if r.Err? then Tolerated(m, c.reach, r.error)
            else Reached(m, m.functions[id], c.tables[id], r.value, larger, finished,
                         UseSite(at.block, |instructions|))
    decreases steps, 0
  {
    var f, table := m.functions[id], c.tables[id];
    assert FunctionVerified(m, f, table) && BlockVerified(m, f, table, at.block);
    assert BodyAllowed(m, c, f.blocks[at.block].instructions);
    var instructions := f.blocks[at.block].instructions;
    larger := store;
    if at.position < |instructions| && steps > 0 {
      var instruction := instructions[at.position];
      assert instructions[at.position..][0] == instruction;
      assert instructions[at.position..][1..] == instructions[at.position + 1..];
      InstructionSafe(m, c, f, table, frame, store, finished, at, instruction, steps - 1);
      var produced := RunInstruction(m, instruction, frame, steps - 1);
      if produced.outcome.Ok? {
        var next := StoreAfter(store, instruction);
        RecordReaches(m, f, table, frame, store, next, finished, at, produced.outcome.value);
        var after := Record(instruction, produced.outcome.value, frame).value;
        larger := BodySafe(m, c, id, after, next, finished,
                           UseSite(at.block, at.position + 1), produced.steps);
      }
    }
  }

  ghost predicate NextSafe(
    m: Module, f: Function, table: Table, store: Store, finished: set<BlockId>, b: BlockId, next: Outcome<Next>)
  {
    match next
    case Err(e) => Tolerated(m, {}, e)
    case Ok(Leave(None)) => IsUnit(m, f.result)
    case Ok(Leave(Some(value))) => !IsUnit(m, f.result) && HasType(m, store, value, f.result)
    case Ok(Enter(target, incoming)) =>
      && target < |f.blocks| == |table| && table[target] <= (finished + {b}) + {target}
      && HaveTypes(m, store, incoming, Types(f.blocks[target].parameters))
  }

  lemma EdgeSafe(
    m: Module, f: Function, table: Table, frame: Frame, store: Store, finished: set<BlockId>, at: UseSite,
    target: BlockId, arguments: seq<ValueId>)
    requires FunctionVerified(m, f, table) && Reached(m, f, table, frame, store, finished, at)
    requires target in SuccessorIds(f.blocks[at.block].terminator)
    requires EdgeVerified(f, table, target, arguments, at)
    ensures CollectValues(frame, arguments).Ok?
    ensures NextSafe(m, f, table, store, finished, at.block, Ok(Enter(target, CollectValues(frame, arguments).value)))
  {
    UsesAreTyped(m, f, table, frame, store, finished, at, arguments, Types(f.blocks[target].parameters));
    assert at.block in Sources(f.blocks, target, |f.blocks|);
    EdgeShrinks(table, Predecessors(f), at.block, target);
  }

  lemma TransferSafe(
    m: Module, f: Function, table: Table, frame: Frame, store: Store, finished: set<BlockId>, at: UseSite)
    requires FunctionVerified(m, f, table) && Reached(m, f, table, frame, store, finished, at)
    requires TerminatorVerified(m, f, table, f.blocks[at.block].terminator, at)
    ensures NextSafe(m, f, table, store, finished, at.block, Transfer(m, frame, f.blocks[at.block].terminator))
  {
    var t := f.blocks[at.block].terminator;
    match t
    case Return(value) =>
      if value.Some? { UseIsTyped(m, f, table, frame, store, finished, at, value.value, f.result); }
    case Jump(target, arguments) => EdgeSafe(m, f, table, frame, store, finished, at, target, arguments);
    case Branch(condition, thenTarget, thenArguments, elseTarget, elseArguments) =>
      var flag :| Uses(f, table, condition, flag, at) && TypeAt(m, flag) == Some(BoolType);
      UseIsTyped(m, f, table, frame, store, finished, at, condition, flag);
      EdgeSafe(m, f, table, frame, store, finished, at, thenTarget, thenArguments);
      EdgeSafe(m, f, table, frame, store, finished, at, elseTarget, elseArguments);
    case Switch(_, _, _, _) => SwitchSafe(m, f, table, frame, store, finished, at);
    case Unreachable =>
  }

  lemma SwitchSafe(
    m: Module, f: Function, table: Table, frame: Frame, store: Store, finished: set<BlockId>, at: UseSite)
    requires FunctionVerified(m, f, table) && Reached(m, f, table, frame, store, finished, at)
    requires f.blocks[at.block].terminator.Switch?
    requires TerminatorVerified(m, f, table, f.blocks[at.block].terminator, at)
    ensures NextSafe(m, f, table, store, finished, at.block, Transfer(m, frame, f.blocks[at.block].terminator))
  {
    var t := f.blocks[at.block].terminator;
    var ty :| Uses(f, table, t.discriminant, ty, at) && IntegerShape(m, ty).Some?;
    UseIsTyped(m, f, table, frame, store, finished, at, t.discriminant, ty);
    var word, bits := frame.values[t.discriminant].word, IntegerShape(m, ty).value.1;
    SwitchTakesFirstMatch(t.cases, word, bits);
    var ids := SuccessorIds(t);
    match FindCase(t.cases, word, bits)
    case Some(chosen) =>
      var i :| 0 <= i < |t.cases| && t.cases[i] == chosen;
      assert ids[i] == chosen.target;
      EdgeSafe(m, f, table, frame, store, finished, at, chosen.target, chosen.arguments);
    case None =>
      assert ids[|t.cases|] == t.defaultTarget;
      EdgeSafe(m, f, table, frame, store, finished, at, t.defaultTarget, t.defaultArguments);
  }

  lemma {:induction false} TerminatorSafe(
    m: Module, c: Certificate, id: FunctionId, frame: Frame, store: Store,
    finished: set<BlockId>, b: BlockId, steps: nat)
    requires Accepted(m, c) && Entered(m, c, id)
    requires b < |m.functions[id].blocks| == |c.tables[id]|
    requires Reached(m, m.functions[id], c.tables[id], frame, store, finished,
                     UseSite(b, |m.functions[id].blocks[b].instructions|))
    ensures CallSafe(m, c, m.functions[id],
                     RunTerminator(m, m.functions[id], m.functions[id].blocks[b].terminator, frame, steps).outcome)
    decreases steps, 2
  {
    var f, table := m.functions[id], c.tables[id];
    assert FunctionVerified(m, f, table) && BlockVerified(m, f, table, b);
    var at := UseSite(b, |f.blocks[b].instructions|);
    TransferSafe(m, f, table, frame, store, finished, at);
    var next := Transfer(m, frame, f.blocks[b].terminator);
    if next.Ok? {
      if next.value.Enter? {
        FinishBlock(f, frame, finished, b);
        BlocksSafe(m, c, id, frame, store, finished + {b}, next.value.target, next.value.incoming, steps);
      } else if next.value.result.Some? {
        TypeIgnoresStore(m, c.free, store, [], next.value.result.value, f.result);
      }
    }
  }

  // ----- the entry point -----

  ghost predicate EntryError(e: ExecError) { e.NoEntry? || e.EntryHasParameters? || e.EntryNotInt32? }

  lemma Int32InRange(word: nat, bits: Width)
    requires bits == 32 && word < Pow2(bits)
    ensures -0x8000_0000 <= SignedInteger(word, bits) < 0x8000_0000
  {
    assert Pow2(8) == 0x100;
    var width := Doubled(8, 0x100);
    width := Doubled(width, 0x1_0000);
    SignedStaysInRange(word, bits);
  }

  lemma EntryResultSafe(m: Module, value: Value, ty: TypeId)
    requires IntegerShape(m, ty) == Some((true, 32)) && HasType(m, [], value, ty)
    ensures EntryResult(Some(value)).Ok? && -0x8000_0000 <= EntryResult(Some(value)).value < 0x8000_0000
  {
    Int32InRange(value.word, 32);
  }

  /** For every verified module in which no call reachable from the entry passes a pointer, and every
      budget, the executor ends in an Int32, rejects the entry's signature, or meets a tolerated
      run-time error. No value is ever undefined or of the wrong kind, and the final conversion never
      overflows. */
  lemma EntrySafe(m: Module, c: Certificate, steps: nat)
    requires Accepted(m, c) && (EntryIndex(m.functions) < |m.functions| ==> EntryIndex(m.functions) in c.reach)
    ensures var r := RunEntry(m, steps).outcome;
            if r.Ok? then -0x8000_0000 <= r.value < 0x8000_0000
            else Tolerated(m, c.reach, r.error) || EntryError(r.error)
  {
    var entry := EntryIndex(m.functions);
    if entry < |m.functions| && m.functions[entry].parameters == []
       && IntegerShape(m, m.functions[entry].result) == Some((true, 32)) {
      var wider := c.(free := c.free + {m.functions[entry].result});
      FreeWidens(m, c, wider);
      FunctionSafe(m, wider, entry, [], steps);
      var result := RunFunction(m, entry, [], steps).outcome;
      if result.Ok? { EntryResultSafe(m, result.value.value, m.functions[entry].result); }
    }
  }

  /** An integer type can always be added to the pointer-free ones. */
  lemma FreeWidens(m: Module, c: Certificate, wider: Certificate)
    requires Accepted(m, c) && c.tables == wider.tables && c.reach == wider.reach && c.free <= wider.free
    requires forall t :: t in wider.free ==> t in c.free || IntegerShape(m, t).Some?
    ensures Accepted(m, wider)
  {
    forall ty | ty in wider.free && TypeAt(m, ty).Some? && FieldTypes(m, ty).Some?
      ensures forall t :: t in FieldTypes(m, ty).value ==> t in wider.free
    {
      assert ty in c.free;
    }
    forall i, b | i in c.reach && i < |m.functions| && 0 <= b < |m.functions[i].blocks|
      ensures BodyAllowed(m, wider, m.functions[i].blocks[b].instructions)
    {
      assert BodyAllowed(m, c, m.functions[i].blocks[b].instructions);
    }
  }

  // ----- entry blocks with parameters -----

  /** A function whose entry block declares parameters reports the mismatch at its first step. */
  lemma EntryParametersMismatch(m: Module, id: FunctionId, arguments: seq<Value>, steps: nat)
    requires EntryBlockTakesParameters(m, id) && |arguments| == |m.functions[id].parameters| && steps > 0
    ensures RunFunction(m, id, arguments, steps) == Run(Err(IncomingMismatch), steps - 1)
  {
  }

  /** Leaving aside the functions it may call, a verified function reports a mismatch exactly when its
      own entry block declares parameters: no jump, branch or switch ever does. */
  lemma MismatchExactly(m: Module, c: Certificate, id: FunctionId, arguments: seq<Value>, steps: nat)
    requires Accepted(m, c) && id in c.reach && id < |m.functions| && m.functions[id].result in c.free
    requires HaveTypes(m, [], arguments, Types(m.functions[id].parameters))
    requires forall i :: i in c.reach && i != id ==> !EntryBlockTakesParameters(m, i)
    ensures RunFunction(m, id, arguments, steps).outcome == Err(IncomingMismatch)
       <==> EntryBlockTakesParameters(m, id) && steps > 0
  {
    FunctionSafe(m, c, id, arguments, steps);
    if EntryBlockTakesParameters(m, id) && steps > 0 { EntryParametersMismatch(m, id, arguments, steps); }
    if RunFunction(m, id, arguments, steps).outcome == Err(IncomingMismatch) {
      var i :| i in c.reach && EntryBlockTakesParameters(m, i);
    }
  }
}
