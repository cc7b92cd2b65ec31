/** The part of the typed SSA intermediate representation that the analyses below read. */
module Jir {
  import opened Common

  type TypeId = nat
  type FunctionId = nat
  type BlockId = nat
  type ValueId = nat

  /** Integer widths the executor's 128-bit words can hold. */
  type Width = bits: nat | 1 <= bits <= 128 witness 32

  datatype AddressSpace = Generic | Stack | Heap | Region | Global | Workgroup | Uniform | Storage

  datatype Type =
    | Unit
    | RegionHandle
    | BoolType
    | IntegerType(signed: bool, bits: Width)
    | FloatType(floatBits: nat)
    | PointerType(pointee: TypeId, space: AddressSpace)
    | FunctionType(parameters: seq<TypeId>, result: TypeId)
    | ArrayType(element: TypeId, length: nat)
    | StructType(fields: seq<TypeId>)
    | NominalStructType(identity: nat, fields: seq<TypeId>)
    | EnumType(variants: seq<seq<TypeId>>)
    | NominalEnumType(identity: nat, variants: seq<seq<TypeId>>)
    | VectorType(element: TypeId, lanes: nat)

  datatype Linkage = Internal | Export | Import

  datatype TypedValue = TypedValue(id: ValueId, ty: TypeId)

  datatype Constant =
    | BoolConstant(flag: bool)
    | IntegerConstant(value: int)  // an i128
    | FloatConstant(pattern: nat)
    | ZeroConstant
    | NullConstant

  datatype UnaryOp = Negate | Not | BitNot

  datatype BinaryOp =
    | Add | Subtract | Multiply | Divide | Remainder
    | BitAnd | BitOr | BitXor | ShiftLeft | ShiftRight

  datatype ComparePredicate = Equal | NotEqual | Less | LessEqual | Greater | GreaterEqual

  /** `OtherInstruction` stands for every kind the executor rejects and no analysis here reads. */
  datatype InstructionKind =
    | ConstantInstruction(constant: Constant)
    | Unary(uop: UnaryOp, operand: ValueId)
    | Binary(bop: BinaryOp, left: ValueId, right: ValueId)
    | Compare(comparison: ComparePredicate, left: ValueId, right: ValueId)
    | Select(condition: ValueId, whenTrue: ValueId, whenFalse: ValueId)
    | StackAlloc(slotType: TypeId, count: Option<ValueId>)
    | Store(pointer: ValueId, stored: ValueId)
    | Load(pointer: ValueId)
    | Aggregate(elements: seq<ValueId>)
    | ExtractValue(aggregate: ValueId, index: nat)
    | Call(callee: FunctionId, arguments: seq<ValueId>)
    | FunctionAddress(target: FunctionId)
    | OtherInstruction

  datatype Instruction = Instruction(result: Option<TypedValue>, kind: InstructionKind)

  datatype SwitchCase = SwitchCase(value: int, target: BlockId, arguments: seq<ValueId>)

  datatype Terminator =
    | Return(value: Option<ValueId>)
    | Jump(target: BlockId, arguments: seq<ValueId>)
    | Branch(condition: ValueId,
             thenTarget: BlockId, thenArguments: seq<ValueId>,
             elseTarget: BlockId, elseArguments: seq<ValueId>)
    | Switch(discriminant: ValueId, cases: seq<SwitchCase>,
             defaultTarget: BlockId, defaultArguments: seq<ValueId>)
    | Unreachable

  datatype Block = Block(parameters: seq<TypedValue>, instructions: seq<Instruction>, terminator: Terminator)

  datatype Function = Function(
    name: string,
    linkage: Linkage,
    parameters: seq<TypedValue>,
    result: TypeId,
    blocks: seq<Block>)

  datatype Module = Module(types: seq<Type>, functions: seq<Function>)

  const ENTRY_NAME := "jadren_entry"

  function TypeAt(m: Module, ty: TypeId): Option<Type> {
    if ty < |m.types| then Some(m.types[ty]) else None
  }

  /** The executor's and the verifier's view of an integer type: signedness and width. */
  function IntegerShape(m: Module, ty: TypeId): Option<(bool, Width)> {
    match TypeAt(m, ty)
    case Some(IntegerType(signed, bits)) => Some((signed, bits))
    case _ => None
  }

  /** Blocks control may go to next. */
  function SuccessorIds(t: Terminator): seq<BlockId> {
    match t
    case Return(_) => []
    case Unreachable => []
    case Jump(target, _) => [target]
    case Branch(_, thenTarget, _, elseTarget, _) => [thenTarget, elseTarget]
    case Switch(_, cases, default_, _) => seq(|cases|, i requires 0 <= i < |cases| => cases[i].target) + [default_]
  }

  predicate IsEntry(f: Function) { f.name == ENTRY_NAME && f.linkage.Export? }

  /** Position of the first exported function named `jadren_entry`, or the function count. */
  function EntryIndex(functions: seq<Function>): (i: nat)
    ensures i <= |functions|
    ensures i < |functions| ==> functions[i].name == "jadren_entry" && functions[i].linkage == Export
    ensures forall j :: 0 <= j < i ==> !(functions[j].name == "jadren_entry" && functions[j].linkage == Export)
  {
    if functions == [] || IsEntry(functions[0]) then 0 else 1 + EntryIndex(functions[1..])
  }
}
