/** What the reference executor computes, as recursive functions over the step budget.

    Every function takes the steps that remain and returns the steps left over, so the budget is
    part of the meaning. `ReferenceExecutor` proves the executor's loops against these functions. */
module Execution {
  import opened Common
  import opened Bits
  import opened Jir
  import opened IntegerSemantics

  datatype Value =
    | BoolValue(flag: bool)
    | IntegerValue(word: nat)
    | PointerValue(slot: nat)
    | AggregateValue(fields: seq<Value>)

  datatype ExecError =
    | StepLimit
    | MissingFunction | ImportedFunction | ArgumentCountMismatch
    | MissingBlock | IncomingMismatch | ResultContractMismatch | ReachedUnreachable
    | UndefinedValue | UndefinedType
    | ConditionNotBool | DiscriminantNotInteger | TypeNotInteger
    | NotPointer | OutsideMemory | UninitializedLoad
    | NotAggregate | FieldOutOfRange
    | UnsupportedInstruction | NoResultType | UnsupportedConstant | UnsupportedUnary
    | ValuesNotIntegers | DivisionByZero | RemainderByZero | UnsupportedShift | ArithmeticPanic
    | OrderedBool | ComparisonKinds
    | NoEntry | EntryHasParameters | EntryNotInt32 | EntryReturnedUnit | EntryNotInteger | Int32Overflow

  datatype Outcome<+T> = Ok(value: T) | Err(error: ExecError) {
    predicate IsFailure() { Err? }
    function PropagateFailure<U>(): Outcome<U>
      requires Err?
    {
      Err(error)
    }
    function Extract(): T
      requires Ok?
    {
      value
    }
  }

  /** A result together with the steps still available when it was reached. */
  datatype Run<+T> = Run(outcome: Outcome<T>, steps: nat)

  /** One activation: the SSA environment, the recorded types and the stack memory. */
  datatype Frame = Frame(
    values: map<ValueId, Value>,
    types: map<ValueId, TypeId>,
    memory: seq<Option<Value>>)

  datatype Next = Leave(result: Option<Value>) | Enter(target: BlockId, incoming: seq<Value>)

  const STEP_LIMIT: nat := 10_000

  // ----- operands -----

  function RequiredValue(frame: Frame, v: ValueId): Outcome<Value> {
    if v in frame.values then Ok(frame.values[v]) else Err(UndefinedValue)
  }

  function RequiredType(frame: Frame, v: ValueId): Outcome<TypeId> {
    if v in frame.types then Ok(frame.types[v]) else Err(UndefinedType)
  }

  function CollectValues(frame: Frame, ids: seq<ValueId>): Outcome<seq<Value>> {
    if ids == [] then Ok([])
    else
      var first :- RequiredValue(frame, ids[0]);
      var rest :- CollectValues(frame, ids[1..]);
      Ok([first] + rest)
  }

  function Bind(frame: Frame, target: TypedValue, value: Value): Frame {
    frame.(values := frame.values[target.id := value], types := frame.types[target.id := target.ty])
  }

  function BindAll(frame: Frame, targets: seq<TypedValue>, values: seq<Value>): Frame
    requires |targets| == |values|
    decreases targets
  {
    if targets == [] then frame
    else BindAll(Bind(frame, targets[0], values[0]), targets[1..], values[1..])
  }

  // ----- scalar operations -----

  function EvaluateConstant(m: Module, constant: Constant, ty: TypeId): Outcome<Value> {
    match (constant, TypeAt(m, ty))
    case (BoolConstant(flag), Some(BoolType)) => Ok(BoolValue(flag))
    case (IntegerConstant(value), Some(IntegerType(_, bits))) =>
      Ok(IntegerValue(NormalizeInteger(AsWord(value), bits)))
    case (ZeroConstant, Some(BoolType)) => Ok(BoolValue(false))
    case (ZeroConstant, Some(IntegerType(_, _))) => Ok(IntegerValue(0))
    case _ => Err(UnsupportedConstant)
  }

  /** `!word`: the 128-bit complement. */
  function Inverted(word: nat): nat { AsWord(-1 - word) }

  function EvaluateUnary(m: Module, op: UnaryOp, value: Value, ty: TypeId): Outcome<Value> {
    match (op, value)
    case (Not, BoolValue(flag)) => Ok(BoolValue(!flag))
    case (Negate, IntegerValue(word)) =>
      (match IntegerShape(m, ty)
       case None => Err(TypeNotInteger)
       case Some((_, bits)) => Ok(IntegerValue(NormalizeInteger(AsWord(Inverted(word) + 1), bits))))
    case (BitNot, IntegerValue(word)) =>
      (match IntegerShape(m, ty)
       case None => Err(TypeNotInteger)
       case Some((_, bits)) => Ok(IntegerValue(NormalizeInteger(Inverted(word), bits))))
    case _ => Err(UnsupportedUnary)
  }

  /** The only signed quotient that does not fit in 128 bits; the machine operation panics on it. */
  predicate QuotientOverflows(a: int, b: int) { a + HALF_WORD == 0 && b == -1 }

  /** The 128-bit word an operation leaves before masking. */
  function RawBinary(op: BinaryOp, signed: bool, bits: Width, left: nat, right: nat): Outcome<nat> {
    match op
    case Add => Ok(AsWord(left + right))
    case Subtract => Ok(AsWord(left - right))
    case Multiply => Ok(AsWord(left * right))
    case Divide =>
      if right == 0 then Err(DivisionByZero)
      else if signed then
        var a, b := SignedInteger(left, bits), SignedInteger(right, bits);
        if b == 0 || QuotientOverflows(a, b) then Err(ArithmeticPanic)
        else Ok(AsWord(TruncatedQuotient(a, b)))
      else Ok(left / right)
    case Remainder =>
      if right == 0 then Err(RemainderByZero)
      else if signed then
        var a, b := SignedInteger(left, bits), SignedInteger(right, bits);
        if b == 0 || QuotientOverflows(a, b) then Err(ArithmeticPanic)
        else Ok(AsWord(TruncatedRemainder(a, b)))
      else Ok(left % right)
    case BitAnd => Ok(And(left, right))
    case BitOr => Ok(Or(left, right))
    case BitXor => Ok(Xor(left, right))
    case ShiftLeft => Err(UnsupportedShift)
    case ShiftRight => Err(UnsupportedShift)
  }

  function EvaluateBinary(m: Module, op: BinaryOp, left: Value, right: Value, ty: TypeId): Outcome<Value> {
    match IntegerShape(m, ty)
    case None => Err(TypeNotInteger)
    case Some((signed, bits)) =>
      if !left.IntegerValue? || !right.IntegerValue? then Err(ValuesNotIntegers)
      else
        var raw :- RawBinary(op, signed, bits, left.word, right.word);
        Ok(IntegerValue(NormalizeInteger(raw, bits)))
  }

  predicate Ordered(comparison: ComparePredicate, left: int, right: int) {
    match comparison
    case Equal => left == right
    case NotEqual => left != right
    case Less => left < right
    case LessEqual => left <= right
    case Greater => left > right
    case GreaterEqual => left >= right
  }

  function EvaluateCompare(m: Module, comparison: ComparePredicate, left: Value, right: Value, ty: TypeId)
    : Outcome<bool>
  {
    match (left, right)
    case (BoolValue(l), BoolValue(r)) =>
      if comparison.Equal? then Ok(l == r)
      else if comparison.NotEqual? then Ok(l != r)
      else Err(OrderedBool)
    case (IntegerValue(l), IntegerValue(r)) =>
      (match IntegerShape(m, ty)
       case None => Err(TypeNotInteger)
       case Some((signed, bits)) =>
         if signed && !comparison.Equal? && !comparison.NotEqual?
         then Ok(Ordered(comparison, SignedInteger(l, bits), SignedInteger(r, bits)))
         else Ok(Ordered(comparison, l, r)))
    case _ => Err(ComparisonKinds)
  }

  // ----- instructions without calls -----

  /** The value an instruction other than a call produces, and the memory it leaves. */
  function EvaluateInstruction(m: Module, instruction: Instruction, frame: Frame)
    : Outcome<(Option<Value>, seq<Option<Value>>)>
  {
    match instruction.kind
    case ConstantInstruction(constant) =>
      if instruction.result.None? then Err(NoResultType)
      else
        var value :- EvaluateConstant(m, constant, instruction.result.value.ty);
        Ok((Some(value), frame.memory))
    case Unary(op, operand) =>
      var value :- RequiredValue(frame, operand);
      var ty :- RequiredType(frame, operand);
      var result :- EvaluateUnary(m, op, value, ty);
      Ok((Some(result), frame.memory))
    case Binary(op, left, right) =>
      var l :- RequiredValue(frame, left);
      var r :- RequiredValue(frame, right);
      var ty :- RequiredType(frame, left);
      var result :- EvaluateBinary(m, op, l, r, ty);
      Ok((Some(result), frame.memory))
    case Compare(comparison, left, right) =>
      var l :- RequiredValue(frame, left);
      var r :- RequiredValue(frame, right);
      var ty :- RequiredType(frame, left);
      var flag :- EvaluateCompare(m, comparison, l, r, ty);
      Ok((Some(BoolValue(flag)), frame.memory))
    case Select(condition, whenTrue, whenFalse) =>
      var c :- RequiredValue(frame, condition);
      if !c.BoolValue? then Err(ConditionNotBool)
      else
        var result :- RequiredValue(frame, if c.flag then whenTrue else whenFalse);
        Ok((Some(result), frame.memory))
    case StackAlloc(_, None) =>
      Ok((Some(PointerValue(|frame.memory|)), frame.memory + [None]))
    case Store(pointer, stored) =>
      var p :- RequiredValue(frame, pointer);
      if !p.PointerValue? then Err(NotPointer)
      else if p.slot >= |frame.memory| then Err(OutsideMemory)
      else
        var value :- RequiredValue(frame, stored);
        Ok((None, frame.memory[p.slot := Some(value)]))
    case Load(pointer) =>
      var p :- RequiredValue(frame, pointer);
      if !p.PointerValue? then Err(NotPointer)
      else if p.slot >= |frame.memory| || frame.memory[p.slot].None? then Err(UninitializedLoad)
      else Ok((frame.memory[p.slot], frame.memory))
    case Aggregate(elements) =>
      var fields :- CollectValues(frame, elements);
      Ok((Some(AggregateValue(fields)), frame.memory))
    case ExtractValue(aggregate, index) =>
      var a :- RequiredValue(frame, aggregate);
      if !a.AggregateValue? then Err(NotAggregate)
      else if index >= |a.fields| then Err(FieldOutOfRange)
      else Ok((Some(a.fields[index]), frame.memory))
    case _ => Err(UnsupportedInstruction)
  }

  // ----- control transfer -----

  function FindCase(cases: seq<SwitchCase>, word: nat, bits: Width): Option<SwitchCase> {
    if cases == [] then None
    else if NormalizeInteger(AsWord(cases[0].value), bits) == word then Some(cases[0])
    else FindCase(cases[1..], word, bits)
  }

  function Transfer(m: Module, frame: Frame, t: Terminator): Outcome<Next> {
    match t
    case Return(None) => Ok(Leave(None))
    case Return(Some(v)) =>
      var value :- RequiredValue(frame, v);
      Ok(Leave(Some(value)))
    case Jump(target, arguments) =>
      var incoming :- CollectValues(frame, arguments);
      Ok(Enter(target, incoming))
    case Branch(condition, thenTarget, thenArguments, elseTarget, elseArguments) =>
      var c :- RequiredValue(frame, condition);
      if !c.BoolValue? then Err(ConditionNotBool)
      else if c.flag then
        var incoming :- CollectValues(frame, thenArguments);
        Ok(Enter(thenTarget, incoming))
      else
        var incoming :- CollectValues(frame, elseArguments);
        Ok(Enter(elseTarget, incoming))
    case Switch(discriminant, cases, defaultTarget, defaultArguments) =>
      var d :- RequiredValue(frame, discriminant);
      if !d.IntegerValue? then Err(DiscriminantNotInteger)
      else
        var ty :- RequiredType(frame, discriminant);
        (match IntegerShape(m, ty)
         case None => Err(TypeNotInteger)
         case Some((_, bits)) =>
           (match FindCase(cases, d.word, bits)
            case Some(chosen) =>
              var incoming :- CollectValues(frame, chosen.arguments);
              Ok(Enter(chosen.target, incoming))
            case None =>
              var incoming :- CollectValues(frame, defaultArguments);
              Ok(Enter(defaultTarget, incoming))))
    case Unreachable => Err(ReachedUnreachable)
  }

  // ----- activations -----

  /** Record an instruction's result, or fail when producing a result and declaring one disagree. */
  function Record(instruction: Instruction, produced: (Option<Value>, seq<Option<Value>>), frame: Frame)
    : Outcome<Frame>
  {
    match (instruction.result, produced.0)
    case (Some(target), Some(value)) => Ok(Bind(frame.(memory := produced.1), target, value))
    case (None, None) => Ok(frame.(memory := produced.1))
    case _ => Err(ResultContractMismatch)
  }

  function RunInstruction(m: Module, instruction: Instruction, frame: Frame, steps: nat)
    : (r: Run<(Option<Value>, seq<Option<Value>>)>)
    ensures r.steps <= steps
    decreases steps, 3
  {
    if instruction.kind.Call? then
      match CollectValues(frame, instruction.kind.arguments)
      case Err(e) => Run(Err(e), steps)
      case Ok(arguments) =>
        var called := RunFunction(m, instruction.kind.callee, arguments, steps);
        match called.outcome
        case Err(e) => Run(Err(e), called.steps)
        case Ok(result) => Run(Ok((result, frame.memory)), called.steps)
    else
      Run(EvaluateInstruction(m, instruction, frame), steps)
  }

  function RunFunction(m: Module, id: FunctionId, arguments: seq<Value>, steps: nat): (r: Run<Option<Value>>)
    ensures r.steps <= steps
    decreases steps, 2
  {
    if id >= |m.functions| then Run(Err(MissingFunction), steps)
    else
      var f := m.functions[id];
      if f.linkage.Import? then Run(Err(ImportedFunction), steps)
      else if |f.parameters| != |arguments| then Run(Err(ArgumentCountMismatch), steps)
      else RunBlocks(m, f, BindAll(Frame(map[], map[], []), f.parameters, arguments), 0, [], steps)
  }

  /** Run from the entry of block `current` until the activation ends. */
  function RunBlocks(m: Module, f: Function, frame: Frame, current: BlockId, incoming: seq<Value>, steps: nat)
    : (r: Run<Option<Value>>)
    ensures r.steps <= steps
    decreases steps, 1
  {
    if steps == 0 then Run(Err(StepLimit), 0)
    else if current >= |f.blocks| then Run(Err(MissingBlock), steps - 1)
    else
      var block := f.blocks[current];
      if |block.parameters| != |incoming| then Run(Err(IncomingMismatch), steps - 1)
      else RunBlock(m, f, block, BindAll(frame, block.parameters, incoming), steps - 1)
  }

  /** The instructions of a block whose parameters are bound, and then its terminator. */
  function RunBlock(m: Module, f: Function, block: Block, frame: Frame, steps: nat): (r: Run<Option<Value>>)
    ensures r.steps <= steps
    decreases steps, 4
  {
    var body := RunInstructions(m, block.instructions, frame, steps);
    match body.outcome
    case Err(e) => Run(Err(e), body.steps)
    case Ok(after) => RunTerminator(m, f, block.terminator, after, body.steps)
  }

  /** Leave the activation or go on with the block the terminator selects. */
  function RunTerminator(m: Module, f: Function, t: Terminator, frame: Frame, steps: nat)
    : (r: Run<Option<Value>>)
    ensures r.steps <= steps
    decreases steps, 2
  {
    match Transfer(m, frame, t)
    case Err(e) => Run(Err(e), steps)
    case Ok(Leave(result)) => Run(Ok(result), steps)
    case Ok(Enter(target, values)) => RunBlocks(m, f, frame, target, values, steps)
  }

  function RunInstructions(m: Module, instructions: seq<Instruction>, frame: Frame, steps: nat): (r: Run<Frame>)
    ensures r.steps <= steps
    decreases steps, 0
  {
    if instructions == [] then Run(Ok(frame), steps)
    else if steps == 0 then Run(Err(StepLimit), 0)
    else
      var produced := RunInstruction(m, instructions[0], frame, steps - 1);
      match produced.outcome
      case Err(e) => Run(Err(e), produced.steps)
      case Ok(value) =>
        match Record(instructions[0], value, frame)
        case Err(e) => Run(Err(e), produced.steps)
        case Ok(after) => RunInstructions(m, instructions[1..], after, produced.steps)
  }

  // ----- the entry point -----

  function EntryResult(result: Option<Value>): Outcome<int> {
    match result
    case None => Err(EntryReturnedUnit)
    case Some(IntegerValue(word)) =>
      var signed := SignedInteger(word, 32);
      if -0x8000_0000 <= signed < 0x8000_0000 then Ok(signed) else Err(Int32Overflow)
    case Some(_) => Err(EntryNotInteger)
  }

  function RunEntry(m: Module, steps: nat): (r: Run<int>) {
    var entry := EntryIndex(m.functions);
    if entry == |m.functions| then Run(Err(NoEntry), steps)
    else if m.functions[entry].parameters != [] then Run(Err(EntryHasParameters), steps)
    else if IntegerShape(m, m.functions[entry].result) != Some((true, 32)) then Run(Err(EntryNotInt32), steps)
    else
      var run := RunFunction(m, entry, [], steps);
      match run.outcome
      case Err(e) => Run(Err(e), run.steps)
      case Ok(result) => Run(EntryResult(result), run.steps)
  }
}
