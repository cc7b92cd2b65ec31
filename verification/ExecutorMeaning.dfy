/** What constants, logic, comparisons and the errors of the executor mean, case by case. */
module ExecutorMeaning {
  import opened Common
  import opened Bits
  import opened Jir
  import opened IntegerSemantics
  import opened Execution
  import opened ExecutorArithmetic

  // ----- constants -----

  /** A constant has a value exactly when its kind fits the type: truth values and zero at Bool,
      integers and zero at integer types. */
  lemma ConstantSupportedExactly(m: Module, constant: Constant, ty: TypeId)
    ensures EvaluateConstant(m, constant, ty).Ok? <==>
              || (TypeAt(m, ty) == Some(BoolType) && (constant.BoolConstant? || constant.ZeroConstant?))
              || (IntegerShape(m, ty).Some? && (constant.IntegerConstant? || constant.ZeroConstant?))
    ensures EvaluateConstant(m, constant, ty).Err? ==> EvaluateConstant(m, constant, ty) == Err(UnsupportedConstant)
  {
  }

  /** Zero is what the zero integer and `false` are. */
  lemma ZeroIsZero(m: Module, ty: TypeId)
    ensures IntegerShape(m, ty).Some? ==>
              EvaluateConstant(m, ZeroConstant, ty) == EvaluateConstant(m, IntegerConstant(0), ty)
    ensures TypeAt(m, ty) == Some(BoolType) ==>
              EvaluateConstant(m, ZeroConstant, ty) == EvaluateConstant(m, BoolConstant(false), ty)
  {
    if IntegerShape(m, ty).Some? {
      var (signed, bits) := IntegerShape(m, ty).value;
      ConstantIsExact(m, 0, ty, signed, bits);
    }
  }

  // ----- truth values -----

  /** Truth constants, negation and the two comparisons of truth values agree with logic. */
  lemma LogicIsExact(m: Module, ty: TypeId, p: bool, q: bool)
    requires TypeAt(m, ty) == Some(BoolType)
    ensures forall v :: EvaluateConstant(m, BoolConstant(p), ty) == Ok(v) ==> v.BoolValue? && (v.flag <==> p)
    ensures EvaluateUnary(m, Not, BoolValue(p), ty).Ok?
    ensures forall v :: EvaluateUnary(m, Not, BoolValue(p), ty) == Ok(v) ==> v.BoolValue? && (v.flag <==> !p)
    ensures EvaluateCompare(m, Equal, BoolValue(p), BoolValue(q), ty) == Ok(p <==> q)
    ensures EvaluateCompare(m, NotEqual, BoolValue(p), BoolValue(q), ty) == Ok(!(p <==> q))
    ensures forall c :: c != Equal && c != NotEqual ==>
              EvaluateCompare(m, c, BoolValue(p), BoolValue(q), ty) == Err(OrderedBool)
  {
  }

  // ----- instructions on integers -----

  /** The word an operand holds and the integer type recorded for it. */
  predicate Holds(m: Module, frame: Frame, v: ValueId, word: nat, ty: TypeId) {
    v in frame.values && frame.values[v] == IntegerValue(word) && v in frame.types && frame.types[v] == ty
  }

  /** A binary instruction computes at the type recorded for its left operand. */
  lemma BinaryInstructionIsExact(
    m: Module, frame: Frame, result: Option<TypedValue>, op: BinaryOp, x: ValueId, y: ValueId, l: nat, r: nat,
    ty: TypeId, other: TypeId, bits: Width)
    requires Holds(m, frame, x, l, ty) && Holds(m, frame, y, r, other)
    requires IntegerShape(m, ty) == Some((true, bits)) || IntegerShape(m, ty) == Some((false, bits))
    requires l < Pow2(bits) && r < Pow2(bits) && (op.Add? || op.Subtract? || op.Multiply?)
    ensures EvaluateInstruction(m, Instruction(result, Binary(op, x, y)), frame)
         == Ok((Some(IntegerValue((if op.Add? then l + r else if op.Subtract? then l - r else l * r) % Pow2(bits))),
                frame.memory))
  {
    var signed := IntegerShape(m, ty).value.0;
    BinaryIsExact(m, op, l, r, ty, signed, bits);
    MeaningsCongruent(op, signed, bits, l, r);
  }

  /** So does a comparison: the order is that of the left operand's type. */
  lemma CompareInstructionIsExact(
    m: Module, frame: Frame, result: Option<TypedValue>, c: ComparePredicate, x: ValueId, y: ValueId, l: nat, r: nat,
    ty: TypeId, other: TypeId, signed: bool, bits: Width)
    requires Holds(m, frame, x, l, ty) && Holds(m, frame, y, r, other)
    requires IntegerShape(m, ty) == Some((signed, bits)) && l < Pow2(bits) && r < Pow2(bits)
    ensures EvaluateInstruction(m, Instruction(result, Compare(c, x, y)), frame)
         == Ok((Some(BoolValue(Sign(Meaning(l, signed, bits) - Meaning(r, signed, bits)) in Orders(c))), frame.memory))
  {
    CompareIsExact(m, c, l, r, ty, signed, bits);
  }

  /** The error names the operand or type that has the wrong kind. */
  lemma WrongKindsAreNamed(m: Module, frame: Frame, v: ValueId, t: Terminator)
    requires v in frame.values
    ensures t.Branch? && t.condition == v && !frame.values[v].BoolValue? ==>
              Transfer(m, frame, t) == Err(ConditionNotBool)
    ensures t.Switch? && t.discriminant == v && !frame.values[v].IntegerValue? ==>
              Transfer(m, frame, t) == Err(DiscriminantNotInteger)
    ensures (&& t.Switch? && t.discriminant == v && frame.values[v].IntegerValue? && v in frame.types
             && IntegerShape(m, frame.types[v]).None?) ==> Transfer(m, frame, t) == Err(TypeNotInteger)
    ensures t.Unreachable? ==> Transfer(m, frame, t) == Err(ReachedUnreachable)
  {
  }

  lemma ComparisonErrorsAreNamed(m: Module, c: ComparePredicate, left: Value, right: Value, ty: TypeId)
    ensures left.IntegerValue? && right.IntegerValue? ==>
              (EvaluateCompare(m, c, left, right, ty) == Err(TypeNotInteger) <==> IntegerShape(m, ty).None?)
    ensures EvaluateCompare(m, c, left, right, ty) == Err(ComparisonKinds)
       <==> !(left.IntegerValue? && right.IntegerValue?) && !(left.BoolValue? && right.BoolValue?)
  {
  }
}
