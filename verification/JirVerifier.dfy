/** The verifier's typed-SSA rules for the instructions the reference executor runs. */
module JirVerifier {
  import opened Common
  import opened Jir
  import opened Dominators

  /** Where an SSA value gets its definition. */
  datatype Site =
    | FunctionParameter(index: nat)
    | BlockParameter(block: BlockId, index: nat)
    | InstructionResult(block: BlockId, position: nat)

  predicate DefinesAt(f: Function, v: ValueId, ty: TypeId, site: Site) {
    match site
    case FunctionParameter(i) => i < |f.parameters| && f.parameters[i] == TypedValue(v, ty)
    case BlockParameter(b, i) =>
      b < |f.blocks| && i < |f.blocks[b].parameters| && f.blocks[b].parameters[i] == TypedValue(v, ty)
    case InstructionResult(b, p) =>
      && b < |f.blocks| && p < |f.blocks[b].instructions|
      && f.blocks[b].instructions[p].result == Some(TypedValue(v, ty))
  }

  /** No value has two definitions. */
  ghost predicate SingleAssignment(f: Function) {
    forall v, t, s, t', s' :: DefinesAt(f, v, t, s) && DefinesAt(f, v, t', s') ==> t == t' && s == s'
  }

  /** The definition site dominates a use at `position` of `block`. */
  predicate DominatesUse(table: Table, site: Site, block: BlockId, position: nat)
    requires block < |table|
  {
    match site
    case FunctionParameter(_) => true
    case BlockParameter(b, _) => b == block || b in table[block]
    case InstructionResult(b, p) => if b == block then p < position else b in table[block]
  }

  datatype UseSite = UseSite(block: BlockId, position: nat)

  ghost predicate Uses(f: Function, table: Table, v: ValueId, ty: TypeId, at: UseSite)
    requires at.block < |table|
  {
    exists site :: DefinesAt(f, v, ty, site) && DominatesUse(table, site, at.block, at.position)
  }

  ghost predicate UsesAll(f: Function, table: Table, values: seq<ValueId>, types: seq<TypeId>, at: UseSite)
    requires at.block < |table|
  {
    |values| == |types| && forall i :: 0 <= i < |values| ==> Uses(f, table, values[i], types[i], at)
  }

  ghost predicate UsesBool(m: Module, f: Function, table: Table, v: ValueId, at: UseSite)
    requires at.block < |table|
  {
    exists ty :: Uses(f, table, v, ty, at) && TypeAt(m, ty) == Some(BoolType)
  }

  ghost predicate UsesInteger(m: Module, f: Function, table: Table, v: ValueId, at: UseSite)
    requires at.block < |table|
  {
    exists ty :: Uses(f, table, v, ty, at) && IntegerShape(m, ty).Some?
  }

  function Types(values: seq<TypedValue>): seq<TypeId> {
    seq(|values|, i requires 0 <= i < |values| => values[i].ty)
  }

  /** Field types an aggregate of type `ty` is built from. */
  function FieldTypes(m: Module, ty: TypeId): Option<seq<TypeId>> {
    match TypeAt(m, ty)
    case Some(ArrayType(element, length)) => Some(seq(length, _ => element))
    case Some(StructType(fields)) => Some(fields)
    case Some(NominalStructType(_, fields)) => Some(fields)
    case _ => None
  }

  predicate IsUnit(m: Module, ty: TypeId) { TypeAt(m, ty) == Some(Unit) }

  predicate IsNumeric(m: Module, ty: TypeId) {
    match TypeAt(m, ty)
    case Some(IntegerType(_, _)) => true
    case Some(FloatType(_)) => true
    case _ => false
  }

  predicate ConstantFits(m: Module, constant: Constant, ty: TypeId) {
    match constant
    case BoolConstant(_) => TypeAt(m, ty) == Some(BoolType)
    case IntegerConstant(_) => IntegerShape(m, ty).Some?
    case FloatConstant(_) => TypeAt(m, ty).Some? && TypeAt(m, ty).value.FloatType?
    case NullConstant => TypeAt(m, ty).Some? && TypeAt(m, ty).value.PointerType?
    case ZeroConstant => TypeAt(m, ty).Some? && !TypeAt(m, ty).value.Unit? && !TypeAt(m, ty).value.RegionHandle?
  }

  predicate UnaryFits(m: Module, op: UnaryOp, ty: TypeId) {
    match op
    case Negate => IsNumeric(m, ty)
    case Not => TypeAt(m, ty) == Some(BoolType)
    case BitNot => IntegerShape(m, ty).Some?
  }

  predicate BinaryFits(m: Module, op: BinaryOp, ty: TypeId) {
    match op
    case Add => IsNumeric(m, ty)
    case Subtract => IsNumeric(m, ty)
    case Multiply => IsNumeric(m, ty)
    case Divide => IsNumeric(m, ty)
    case Remainder => IsNumeric(m, ty)
    case _ => IntegerShape(m, ty).Some?
  }

  predicate PointsTo(m: Module, pointer: TypeId, pointee: TypeId) {
    match TypeAt(m, pointer)
    case Some(PointerType(target, _)) => target == pointee
    case _ => false
  }

  /** The typing rule of one instruction; kinds the executor rejects are unconstrained. */
  ghost predicate InstructionVerified(m: Module, f: Function, table: Table, instruction: Instruction, at: UseSite)
    requires at.block < |table|
  {
    var result := instruction.result;
    match instruction.kind
    case ConstantInstruction(constant) => result.Some? && ConstantFits(m, constant, result.value.ty)
    case Unary(op, operand) =>
      result.Some? && Uses(f, table, operand, result.value.ty, at) && UnaryFits(m, op, result.value.ty)
    case Binary(op, left, right) =>
      && result.Some? && Uses(f, table, left, result.value.ty, at) && Uses(f, table, right, result.value.ty, at)
      && BinaryFits(m, op, result.value.ty)
    case Compare(_, left, right) =>
      && result.Some? && TypeAt(m, result.value.ty) == Some(BoolType)
      && exists ty :: Uses(f, table, left, ty, at) && Uses(f, table, right, ty, at)
    case Select(condition, whenTrue, whenFalse) =>
      && result.Some? && UsesBool(m, f, table, condition, at)
      && Uses(f, table, whenTrue, result.value.ty, at) && Uses(f, table, whenFalse, result.value.ty, at)
    case StackAlloc(ty, None) =>
      result.Some? && TypeAt(m, result.value.ty) == Some(PointerType(ty, Stack))
    case Load(pointer) =>
      && result.Some?
      && exists p :: Uses(f, table, pointer, p, at) && PointsTo(m, p, result.value.ty)
    case Store(pointer, stored) =>
      && result.None?
      && exists p, ty :: Uses(f, table, pointer, p, at) && Uses(f, table, stored, ty, at) && PointsTo(m, p, ty)
    case Aggregate(elements) =>
      && result.Some? && FieldTypes(m, result.value.ty).Some?
      && UsesAll(f, table, elements, FieldTypes(m, result.value.ty).value, at)
    case ExtractValue(aggregate, index) =>
      && result.Some?
      && exists ty :: Uses(f, table, aggregate, ty, at) && FieldTypes(m, ty).Some?
                      && index < |FieldTypes(m, ty).value| && FieldTypes(m, ty).value[index] == result.value.ty
    case Call(callee, arguments) =>
      && callee < |m.functions|
      && UsesAll(f, table, arguments, Types(m.functions[callee].parameters), at)
      && (if IsUnit(m, m.functions[callee].result) then result.None?
          else result.Some? && result.value.ty == m.functions[callee].result)
    case FunctionAddress(target) =>
      && result.Some? && target < |m.functions|
      && TypeAt(m, result.value.ty)
      == Some(FunctionType(Types(m.functions[target].parameters), m.functions[target].result))
    case _ => true
  }

  ghost predicate EdgeVerified(f: Function, table: Table, target: BlockId, arguments: seq<ValueId>, at: UseSite)
    requires at.block < |table|
  {
    target < |f.blocks| && UsesAll(f, table, arguments, Types(f.blocks[target].parameters), at)
  }

  ghost predicate TerminatorVerified(m: Module, f: Function, table: Table, t: Terminator, at: UseSite)
    requires at.block < |table|
  {
    match t
    case Return(value) =>
      if IsUnit(m, f.result) then value.None? else value.Some? && Uses(f, table, value.value, f.result, at)
    case Jump(target, arguments) => EdgeVerified(f, table, target, arguments, at)
    case Branch(condition, thenTarget, thenArguments, elseTarget, elseArguments) =>
      && UsesBool(m, f, table, condition, at)
      && EdgeVerified(f, table, thenTarget, thenArguments, at)
      && EdgeVerified(f, table, elseTarget, elseArguments, at)
    case Switch(discriminant, cases, defaultTarget, defaultArguments) =>
      && UsesInteger(m, f, table, discriminant, at)
      && (forall i :: 0 <= i < |cases| ==> EdgeVerified(f, table, cases[i].target, cases[i].arguments, at))
      && EdgeVerified(f, table, defaultTarget, defaultArguments, at)
    case Unreachable => true
  }

  /** Blocks among the first `k` that may jump to `target`, in order. */
  function Sources(blocks: seq<Block>, target: BlockId, k: nat): (s: seq<BlockId>)
    requires k <= |blocks|
    ensures forall a :: a in s <==> 0 <= a < k && target in SuccessorIds(blocks[a].terminator)
  {
    if k == 0 then []
    else Sources(blocks, target, k - 1) + (if target in SuccessorIds(blocks[k - 1].terminator) then [k - 1] else [])
  }

  function Predecessors(f: Function): (g: Graph)
    ensures ValidGraph(g)
  {
    var g := seq(|f.blocks|, (b: nat) => Sources(f.blocks, b, |f.blocks|));
    assert forall b, i :: 0 <= b < |g| && 0 <= i < |g[b]| ==> g[b][i] in Sources(f.blocks, b, |f.blocks|);
    g
  }

  ghost predicate BlockVerified(m: Module, f: Function, table: Table, b: BlockId)
    requires b < |table| == |f.blocks|
  {
    var block := f.blocks[b];
    && (forall p :: 0 <= p < |block.instructions| ==>
          InstructionVerified(m, f, table, block.instructions[p], UseSite(b, p)))
    && TerminatorVerified(m, f, table, block.terminator, UseSite(b, |block.instructions|))
  }

  ghost predicate FunctionVerified(m: Module, f: Function, table: Table) {
    && SingleAssignment(f)
    && IsDominatorTable(table, Predecessors(f))
    && |table| == |f.blocks| > 0
    && forall b :: 0 <= b < |table| ==> BlockVerified(m, f, table, b)
  }

  /** The verifier accepts the module, given the dominator table of each function. */
  ghost predicate Verified(m: Module, tables: seq<Table>) {
    && |tables| == |m.functions|
    && forall i :: 0 <= i < |tables| ==>
         if m.functions[i].linkage.Import? then m.functions[i].blocks == []
         else FunctionVerified(m, m.functions[i], tables[i])
  }
}
