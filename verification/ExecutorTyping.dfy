/** Value typing for activations of the reference executor. */
module ExecutorTyping {
  import opened Common
  import opened Bits
  import opened Jir
  import opened Dominators
  import opened JirVerifier
  import opened Execution

  /** Types of the stack slots of one activation. */
  type Store = seq<TypeId>

  /** `v` has the shape of type `ty`: integers in range, pointers to slots of the pointee type,
      aggregates field by field. Types the executor cannot build have no values. */
  ghost predicate HasType(m: Module, store: Store, v: Value, ty: TypeId)
    decreases v
  {
    match v
    case BoolValue(_) => TypeAt(m, ty) == Some(BoolType)
    case IntegerValue(word) => IntegerShape(m, ty).Some? && word < Pow2(IntegerShape(m, ty).value.1)
    case PointerValue(slot) => slot < |store| && PointsTo(m, ty, store[slot])
    case AggregateValue(fields) =>
      var types := FieldTypes(m, ty);
      && types.Some? && |fields| == |types.value|
      && forall i :: 0 <= i < |fields| ==> HasType(m, store, fields[i], types.value[i])
  }

  ghost predicate HaveTypes(m: Module, store: Store, values: seq<Value>, types: seq<TypeId>) {
    |values| == |types| && forall i :: 0 <= i < |values| ==> HasType(m, store, values[i], types[i])
  }

  /** A set of types closed under field types and free of pointers. */
  ghost predicate PointerFree(m: Module, free: set<TypeId>) {
    forall ty :: ty in free && TypeAt(m, ty).Some? ==>
      && !TypeAt(m, ty).value.PointerType?
      && (FieldTypes(m, ty).Some? ==> forall t :: t in FieldTypes(m, ty).value ==> t in free)
  }

  /** What shows running some functions of a module to be safe: the dominator table of each function,
      a pointer-free set of types, and the functions that may be entered. */
  datatype Certificate = Certificate(tables: seq<Table>, free: set<TypeId>, reach: set<FunctionId>)

  /** A call of an import ends the run, so its types do not matter; any other callee may be entered
      and exchanges no pointer with its caller. */
  ghost predicate CallAllowed(m: Module, c: Certificate, callee: FunctionId) {
    callee < |m.functions| && !m.functions[callee].linkage.Import? ==>
      && callee in c.reach && m.functions[callee].result in c.free
      && forall t :: t in Types(m.functions[callee].parameters) ==> t in c.free
  }

  ghost predicate InstructionAllowed(m: Module, c: Certificate, instruction: Instruction) {
    instruction.kind.Call? ==> CallAllowed(m, c, instruction.kind.callee)
  }

  ghost predicate BodyAllowed(m: Module, c: Certificate, instructions: seq<Instruction>) {
    forall p :: 0 <= p < |instructions| ==> InstructionAllowed(m, c, instructions[p])
  }

  /** No pointer crosses a call that the functions in reach can make, and calls stay in reach. */
  ghost predicate NoPointersCrossCalls(m: Module, c: Certificate) {
    && PointerFree(m, c.free)
    && forall i, b :: i in c.reach && i < |m.functions| && 0 <= b < |m.functions[i].blocks| ==>
         BodyAllowed(m, c, m.functions[i].blocks[b].instructions)
  }

  lemma {:induction false} TypeSurvivesAllocation(m: Module, store: Store, larger: Store, v: Value, ty: TypeId)
    requires store <= larger && HasType(m, store, v, ty)
    ensures HasType(m, larger, v, ty)
    decreases v
  {
    if v.AggregateValue? {
      forall i | 0 <= i < |v.fields| ensures HasType(m, larger, v.fields[i], FieldTypes(m, ty).value[i]) {
        TypeSurvivesAllocation(m, store, larger, v.fields[i], FieldTypes(m, ty).value[i]);
      }
    }
  }

  /** A value of a pointer-free type means the same in every activation. */
  lemma {:induction false} TypeIgnoresStore(m: Module, free: set<TypeId>, store: Store, other: Store, v: Value, ty: TypeId)
    requires PointerFree(m, free) && ty in free && HasType(m, store, v, ty)
    ensures HasType(m, other, v, ty)
    decreases v
  {
    if v.AggregateValue? {
      var types := FieldTypes(m, ty).value;
      forall i | 0 <= i < |v.fields| ensures HasType(m, other, v.fields[i], types[i]) {
        assert types[i] in types;
        TypeIgnoresStore(m, free, store, other, v.fields[i], types[i]);
      }
    }
  }

  // ----- activations -----

  ghost predicate MemoryTyped(m: Module, memory: seq<Option<Value>>, store: Store) {
    && |memory| == |store|
    && forall p :: 0 <= p < |memory| && memory[p].Some? ==> HasType(m, store, memory[p].value, store[p])
  }

  /** Every recorded value has its recorded type, which is the type of its definition. */
  ghost predicate Typed(m: Module, f: Function, frame: Frame, store: Store) {
    && MemoryTyped(m, frame.memory, store)
    && (forall v :: v in frame.values ==> v in frame.types && HasType(m, store, frame.values[v], frame.types[v]))
    && (forall v, ty, site :: v in frame.types && DefinesAt(f, v, ty, site) ==> frame.types[v] == ty)
  }

  /** The definitions an activation has executed: those of finished blocks, and the part of the
      current block up to `at`. */
  predicate Executed(site: Site, finished: set<BlockId>, at: Option<UseSite>) {
    match site
    case FunctionParameter(_) => true
    case BlockParameter(b, _) => b in finished || (at.Some? && b == at.value.block)
    case InstructionResult(b, p) => b in finished || (at.Some? && b == at.value.block && p < at.value.position)
  }

  ghost predicate Live(f: Function, frame: Frame, finished: set<BlockId>, at: Option<UseSite>) {
    forall v, ty, site :: DefinesAt(f, v, ty, site) && Executed(site, finished, at) ==> v in frame.values
  }

  /** A reachable state of an activation just before `at`. */
  ghost predicate Reached(
    m: Module, f: Function, table: Table, frame: Frame, store: Store, finished: set<BlockId>, at: UseSite)
  {
    && Typed(m, f, frame, store)
    && Live(f, frame, finished, Some(at))
    && at.block < |table| && table[at.block] <= finished + {at.block}
  }

  /** A verified use finds its value, with the type the verifier saw. */
  lemma UseIsTyped(
    m: Module, f: Function, table: Table, frame: Frame, store: Store, finished: set<BlockId>, at: UseSite,
    v: ValueId, ty: TypeId)
    requires Reached(m, f, table, frame, store, finished, at) && Uses(f, table, v, ty, at)
    ensures v in frame.values && v in frame.types && frame.types[v] == ty
    ensures HasType(m, store, frame.values[v], ty)
  {
    var site :| DefinesAt(f, v, ty, site) && DominatesUse(table, site, at.block, at.position);
    assert Executed(site, finished, Some(at));
  }

  lemma {:induction false} UsesAreTyped(
    m: Module, f: Function, table: Table, frame: Frame, store: Store, finished: set<BlockId>, at: UseSite,
    ids: seq<ValueId>, types: seq<TypeId>)
    requires Reached(m, f, table, frame, store, finished, at) && UsesAll(f, table, ids, types, at)
    ensures CollectValues(frame, ids).Ok?
    ensures HaveTypes(m, store, CollectValues(frame, ids).value, types)
    decreases ids
  {
    if ids != [] {
      UseIsTyped(m, f, table, frame, store, finished, at, ids[0], types[0]);
      UsesAreTyped(m, f, table, frame, store, finished, at, ids[1..], types[1..]);
      var rest := CollectValues(frame, ids[1..]).value;
      assert CollectValues(frame, ids).value == [frame.values[ids[0]]] + rest;
    }
  }

  lemma BindTyped(m: Module, f: Function, frame: Frame, store: Store, target: TypedValue, value: Value, site: Site)
    requires Typed(m, f, frame, store) && SingleAssignment(f)
    requires DefinesAt(f, target.id, target.ty, site) && HasType(m, store, value, target.ty)
    ensures Typed(m, f, Bind(frame, target, value), store)
  {
  }

  ghost predicate AllDefined(f: Function, targets: seq<TypedValue>) {
    forall i :: 0 <= i < |targets| ==> IsDefinition(f, targets[i])
  }

  ghost predicate IsDefinition(f: Function, target: TypedValue) {
    exists site :: DefinesAt(f, target.id, target.ty, site)
  }

  lemma {:induction false} BindAllTyped(
    m: Module, f: Function, frame: Frame, store: Store, targets: seq<TypedValue>, values: seq<Value>)
    requires Typed(m, f, frame, store) && SingleAssignment(f) && AllDefined(f, targets)
    requires HaveTypes(m, store, values, Types(targets))
    ensures var bound := BindAll(frame, targets, values);
            && Typed(m, f, bound, store) && frame.values.Keys <= bound.values.Keys
            && forall i :: 0 <= i < |targets| ==> targets[i].id in bound.values
    decreases targets
  {
    if targets != [] {
      assert IsDefinition(f, targets[0]);
      var site :| DefinesAt(f, targets[0].id, targets[0].ty, site);
      BindTyped(m, f, frame, store, targets[0], values[0], site);
      var first := Bind(frame, targets[0], values[0]);
      assert Types(targets[1..]) == Types(targets)[1..];
      BindAllTyped(m, f, first, store, targets[1..], values[1..]);
      forall i | 0 <= i < |targets| ensures targets[i].id in BindAll(frame, targets, values).values {
        if i > 0 { assert targets[1..][i - 1] == targets[i]; }
      }
    }
  }

  /** Entering a block binds its parameters; finished blocks stay finished. */
  lemma EnterBlock(
    m: Module, f: Function, table: Table, frame: Frame, store: Store, finished: set<BlockId>,
    b: BlockId, incoming: seq<Value>)
    requires Typed(m, f, frame, store) && Live(f, frame, finished, None) && SingleAssignment(f)
    requires b < |f.blocks| == |table| && table[b] <= finished + {b}
    requires HaveTypes(m, store, incoming, Types(f.blocks[b].parameters))
    ensures Reached(m, f, table, BindAll(frame, f.blocks[b].parameters, incoming), store, finished, UseSite(b, 0))
  {
    var targets := f.blocks[b].parameters;
    assert AllDefined(f, targets) by {
      forall i | 0 <= i < |targets| ensures IsDefinition(f, targets[i]) {
        assert DefinesAt(f, targets[i].id, targets[i].ty, BlockParameter(b, i));
      }
    }
    BindAllTyped(m, f, frame, store, targets, incoming);
    var bound := BindAll(frame, targets, incoming);
    forall v, ty, site | DefinesAt(f, v, ty, site) && Executed(site, finished, Some(UseSite(b, 0)))
      ensures v in bound.values
    {
      if Executed(site, finished, None) {
        assert v in frame.values;
      } else {
        assert targets[site.index].id == v;
      }
    }
  }

  /** At the end of a block everything the block defines has been executed. */
  lemma FinishBlock(f: Function, frame: Frame, finished: set<BlockId>, b: BlockId)
    requires b < |f.blocks|
    requires Live(f, frame, finished, Some(UseSite(b, |f.blocks[b].instructions|)))
    ensures Live(f, frame, finished + {b}, None)
  {
    forall v, ty, site | DefinesAt(f, v, ty, site) && Executed(site, finished + {b}, None)
      ensures v in frame.values
    {
      assert Executed(site, finished, Some(UseSite(b, |f.blocks[b].instructions|)));
    }
  }
}
